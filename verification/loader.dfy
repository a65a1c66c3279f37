/** boot/x86/stage0: finding two files in the root directory of the floppy and loading them, with
    the truncations of the 8- and 16-bit registers. */
module Loader {
  import opened Bits
  import opened Fat12
  import opened Options
  import Chs

  const SECTOR: nat := 512
  const MEMORY: nat := 0x10_0000
  const DISK_SECTORS: nat := 2880
  const DIR_ENTRIES: nat := 224
  const DIR_BYTES: nat := 7168
  const FAT_BYTES: nat := 4608
  // Bytes that a 12-bit cluster number can reach: the FAT and, behind it, what is left of the root directory.
  const WINDOW: nat := 6144
  const NAME: nat := 11
  const BUFFER: Word16 := 0x7E00
  const FLOPPY := Chs.Geometry(18, 2)
  const ORIGIN: nat := 0x7C00
  const STAGE1_SEGMENT: Word16 := 0x8000
  const KERNEL_SEGMENT: Word16 := 0x9000

  type Disk = seq<seq<Byte>>

  ghost predicate ValidDisk(disk: Disk) {
    |disk| == DISK_SECTORS && forall i :: 0 <= i < |disk| ==> |disk[i]| == SECTOR
  }

  function Sectors(disk: Disk, lba: nat, n: nat): (data: seq<Byte>)
    requires lba + n <= |disk|
    ensures (forall i :: 0 <= i < |disk| ==> |disk[i]| == SECTOR) ==> |data| == SECTOR * n
    decreases n, disk
  {
    if n == 0 then [] else disk[lba] + Sectors(disk, lba + 1, n - 1)
  }

  // Sector by sector, in order.
  lemma {:induction false} SectorsAt(disk: Disk, lba: nat, n: nat, i: nat)
    requires ValidDisk(disk) && lba + n <= |disk| && i < SECTOR * n
    ensures |Sectors(disk, lba, n)| == SECTOR * n && Sectors(disk, lba, n)[i] == disk[lba + i / SECTOR][i % SECTOR]
    decreases n
  {
    if i >= SECTOR {
      SectorsAt(disk, lba + 1, n - 1, i - SECTOR);
      assert (i - SECTOR) / SECTOR == i / SECTOR - 1 && (i - SECTOR) % SECTOR == i % SECTOR;
    }
  }

  function Store(m: seq<Byte>, at: nat, data: seq<Byte>): (r: seq<Byte>)
    requires at + |data| <= |m|
    ensures |r| == |m|
  {
    m[..at] + data + m[at + |data|..]
  }

  // ----- the root directory

  predicate HasName(root: seq<Byte>, k: nat, name: seq<Byte>)
    requires |root| == DIR_BYTES && k < DIR_ENTRIES
  {
    root[32 * k..32 * k + NAME] == name
  }

  // The first record from k on that carries the name.
  function Find(root: seq<Byte>, name: seq<Byte>, k: nat): (r: Option<nat>)
    requires |root| == DIR_BYTES && k <= DIR_ENTRIES
    ensures r.Some? ==> k <= r.value < DIR_ENTRIES && HasName(root, r.value, name)
    ensures forall i :: k <= i < (if r.Some? then r.value else DIR_ENTRIES) ==> !HasName(root, i, name)
    decreases DIR_ENTRIES - k
  {
    if k == DIR_ENTRIES then None else if HasName(root, k, name) then Some(k) else Find(root, name, k + 1)
  }

  function FirstCluster(root: seq<Byte>, k: nat): Word16
    requires |root| == DIR_BYTES && k < DIR_ENTRIES
  {
    WordAt(root, 32 * k + 26)
  }

  // A record of 32 bytes: the name, 15 bytes, the first cluster with its low byte first, the size.
  lemma RecordAt(root: seq<Byte>, k: nat, before: seq<Byte>, name: seq<Byte>, mid: seq<Byte>, c: Word16, size: seq<Byte>,
                 after: seq<Byte>)
    requires |root| == DIR_BYTES && k < DIR_ENTRIES && |before| == 32 * k && |name| == 11 && |mid| == 15 && |size| == 4
    requires root == before + (name + mid + [c % 0x100, c / 0x100] + size) + after
    ensures FirstCluster(root, k) == c
    ensures forall other :: HasName(root, k, other) <==> other == name
  {
    var rest := mid + [c % 0x100, c / 0x100] + size;
    assert root[32 * k..32 * k + 11] == name;
    assert root[32 * k + 26] == rest[15] == c % 0x100 && root[32 * k + 27] == rest[16] == c / 0x100;
  }

  // ----- the sectors of a chain, as loaded and as meant

  // AL holds the low byte of the cluster number plus 31.
  function LbaRead(cluster: nat): Byte {
    (cluster + 31) % 0x100
  }

  // BX wraps at the end of the segment.
  function WriteChain(m: seq<Byte>, disk: Disk, chain: seq<nat>, es: Word16, bx: Word16): (r: seq<Byte>)
    requires ValidDisk(disk) && |m| == MEMORY && es * 16 + 0x1_0000 <= MEMORY && bx % SECTOR == 0
    ensures |r| == MEMORY
    ensures forall k :: 0 <= k < MEMORY && !(es * 16 <= k < es * 16 + 0x1_0000) ==> r[k] == m[k]
    decreases |chain|
  {
    if chain == [] then m
    else WriteChain(Store(m, es * 16 + bx, disk[LbaRead(chain[0])]), disk, chain[1..], es, (bx + SECTOR) % 0x1_0000)
  }

  // The file: cluster c is sector c + 31.
  function Image(disk: Disk, chain: seq<nat>): (data: seq<Byte>)
    requires ValidDisk(disk) && forall i :: 0 <= i < |chain| ==> chain[i] + 31 < DISK_SECTORS
    ensures |data| == SECTOR * |chain|
  {
    if chain == [] then [] else disk[chain[0] + 31] + Image(disk, chain[1..])
  }

  // The sectors that are read: AL names the cluster's sector modulo 256.
  function Fetched(disk: Disk, chain: seq<nat>): (data: seq<Byte>)
    requires ValidDisk(disk)
    ensures |data| == SECTOR * |chain|
  {
    if chain == [] then [] else disk[LbaRead(chain[0])] + Fetched(disk, chain[1..])
  }

  predicate FitsSegment(chain: seq<nat>, bx: nat) {
    bx + SECTOR * |chain| <= 0x1_0000
  }

  // Within reach of AL and of the segment.
  predicate Loadable(chain: seq<nat>, bx: nat) {
    (forall i :: 0 <= i < |chain| ==> chain[i] <= 224) && FitsSegment(chain, bx)
  }

  lemma WriteOne(m: seq<Byte>, disk: Disk, chain: seq<nat>, es: Word16, bx: Word16)
    requires ValidDisk(disk) && |m| == MEMORY && es * 16 + 0x1_0000 <= MEMORY && bx % SECTOR == 0 && chain != []
    ensures (bx + SECTOR) % 0x1_0000 % SECTOR == 0 && bx + SECTOR <= 0x1_0000
    ensures WriteChain(m, disk, chain, es, bx) ==
      WriteChain(Store(m, es * 16 + bx, disk[LbaRead(chain[0])]), disk, chain[1..], es, (bx + SECTOR) % 0x1_0000)
  {
    LastSectorFits(bx);
  }

  lemma LastSectorFits(bx: Word16)
    requires bx % SECTOR == 0
    ensures bx + SECTOR <= 0x1_0000 && (bx + SECTOR) % 0x1_0000 % SECTOR == 0
  {
    assert bx == SECTOR * (bx / SECTOR);
  }

  lemma StoreNothing(m: seq<Byte>, at: nat)
    requires at <= |m|
    ensures Store(m, at, []) == m
  {
  }

  lemma StoreTwice(m: seq<Byte>, at: nat, a: seq<Byte>, b: seq<Byte>)
    requires at + |a| + |b| <= |m|
    ensures Store(Store(m, at, a), at + |a|, b) == Store(m, at, a + b)
  {
  }

  lemma TailFits(chain: seq<nat>, bx: Word16)
    requires bx % SECTOR == 0 && FitsSegment(chain, bx) && |chain| > 1
    ensures bx + SECTOR < 0x1_0000 && (bx + SECTOR) % SECTOR == 0 && FitsSegment(chain[1..], bx + SECTOR)
  {
  }

  lemma WriteFirst(m: seq<Byte>, disk: Disk, chain: seq<nat>, es: Word16, bx: Word16)
    requires ValidDisk(disk) && |m| == MEMORY && es * 16 + 0x1_0000 <= MEMORY && bx % SECTOR == 0
    requires chain != [] && bx + SECTOR < 0x1_0000 && (bx + SECTOR) % SECTOR == 0
    ensures WriteChain(m, disk, chain, es, bx)
      == WriteChain(Store(m, es * 16 + bx, disk[LbaRead(chain[0])]), disk, chain[1..], es, bx + SECTOR)
  {
    WriteOne(m, disk, chain, es, bx);
    assert (bx + SECTOR) % 0x1_0000 == bx + SECTOR;
  }

  lemma FetchedFirst(disk: Disk, chain: seq<nat>)
    requires ValidDisk(disk) && chain != []
    ensures Fetched(disk, chain) == disk[LbaRead(chain[0])] + Fetched(disk, chain[1..])
  {
  }

  lemma FetchedLast(m: seq<Byte>, disk: Disk, chain: seq<nat>, es: Word16, bx: Word16)
    requires ValidDisk(disk) && |m| == MEMORY && es * 16 + 0x1_0000 <= MEMORY && bx % SECTOR == 0
    requires FitsSegment(chain, bx) && |chain| == 1
    ensures WriteChain(m, disk, chain, es, bx) == Store(m, es * 16 + bx, Fetched(disk, chain))
  {
    WriteOne(m, disk, chain, es, bx);
    FetchedFirst(disk, chain);
    assert chain[1..] == [];
  }

  lemma FetchedMore(m: seq<Byte>, disk: Disk, chain: seq<nat>, es: Word16, bx: Word16)
    requires ValidDisk(disk) && |m| == MEMORY && es * 16 + 0x1_0000 <= MEMORY && bx % SECTOR == 0
    requires FitsSegment(chain, bx) && chain != [] && bx + SECTOR < 0x1_0000 && (bx + SECTOR) % SECTOR == 0
    requires var m', rest := Store(m, es * 16 + bx, disk[LbaRead(chain[0])]), chain[1..];
      WriteChain(m', disk, rest, es, bx + SECTOR) == Store(m', es * 16 + bx + SECTOR, Fetched(disk, rest))
    ensures WriteChain(m, disk, chain, es, bx) == Store(m, es * 16 + bx, Fetched(disk, chain))
  {
    WriteFirst(m, disk, chain, es, bx);
    FetchedFirst(disk, chain);
    StoreTwice(m, es * 16 + bx, disk[LbaRead(chain[0])], Fetched(disk, chain[1..]));
  }

  // In a segment that is long enough, the sectors that are read stand one behind the other.
  lemma {:induction false} FetchedStored(m: seq<Byte>, disk: Disk, chain: seq<nat>, es: Word16, bx: Word16)
    requires ValidDisk(disk) && |m| == MEMORY && es * 16 + 0x1_0000 <= MEMORY && bx % SECTOR == 0
    requires FitsSegment(chain, bx)
    ensures WriteChain(m, disk, chain, es, bx) == Store(m, es * 16 + bx, Fetched(disk, chain))
    decreases |chain|
  {
    if chain == [] {
      StoreNothing(m, es * 16 + bx);
    } else if |chain| == 1 {
      FetchedLast(m, disk, chain, es, bx);
    } else {
      TailFits(chain, bx);
      FetchedStored(Store(m, es * 16 + bx, disk[LbaRead(chain[0])]), disk, chain[1..], es, bx + SECTOR);
      FetchedMore(m, disk, chain, es, bx);
    }
  }

  // What is read is what is meant.
  predicate SameSectors(disk: Disk, chain: seq<nat>)
    requires ValidDisk(disk) && forall i :: 0 <= i < |chain| ==> chain[i] + 31 < DISK_SECTORS
  {
    forall i :: 0 <= i < |chain| ==> disk[LbaRead(chain[i])] == disk[chain[i] + 31]
  }

  lemma {:induction false} FetchedIsImage(disk: Disk, chain: seq<nat>)
    requires ValidDisk(disk) && forall i :: 0 <= i < |chain| ==> chain[i] + 31 < DISK_SECTORS
    ensures Fetched(disk, chain) == Image(disk, chain) <==> SameSectors(disk, chain)
    decreases |chain|
  {
    if chain != [] {
      FetchedIsImage(disk, chain[1..]);
      ConcatSame(disk[LbaRead(chain[0])], Fetched(disk, chain[1..]), disk[chain[0] + 31], Image(disk, chain[1..]));
      assert chain == [chain[0]] + chain[1..];
      assert SameSectors(disk, chain) <==> disk[LbaRead(chain[0])] == disk[chain[0] + 31] && SameSectors(disk, chain[1..]);
    }
  }

  lemma ConcatSame(a: seq<Byte>, b: seq<Byte>, c: seq<Byte>, d: seq<Byte>)
    requires |a| == |c|
    ensures a + b == c + d <==> a == c && b == d
  {
    assert (a + b)[..|a|] == a && (c + d)[..|c|] == c;
    assert (a + b)[|a|..] == b && (c + d)[|c|..] == d;
  }

  // A loadable chain leaves exactly its image at the destination, and nothing else changes.
  lemma LoadableImage(m: seq<Byte>, disk: Disk, chain: seq<nat>, es: Word16, bx: Word16)
    requires ValidDisk(disk) && |m| == MEMORY && es * 16 + 0x1_0000 <= MEMORY && bx % SECTOR == 0
    requires Loadable(chain, bx)
    ensures WriteChain(m, disk, chain, es, bx) == Store(m, es * 16 + bx, Image(disk, chain))
  {
    FetchedStored(m, disk, chain, es, bx);
    FetchedIsImage(disk, chain);
  }

  // AL is the low byte of the sector number, for every cluster.
  lemma LbaReadIs(c: nat)
    ensures exists high: nat :: c + 31 == LbaRead(c) + 0x100 * high
    ensures c <= 224 ==> LbaRead(c) == c + 31
  {
    assert c + 31 == LbaRead(c) + 0x100 * ((c + 31) / 0x100);
  }

  // Byte by byte, what is read and what is meant.
  lemma {:induction false} ImageAt(disk: Disk, chain: seq<nat>, i: nat)
    requires ValidDisk(disk) && i < SECTOR * |chain|
    ensures Fetched(disk, chain)[i] == disk[LbaRead(chain[i / SECTOR])][i % SECTOR]
    ensures (forall j :: 0 <= j < |chain| ==> chain[j] + 31 < DISK_SECTORS) ==>
      Image(disk, chain)[i] == disk[chain[i / SECTOR] + 31][i % SECTOR]
    decreases |chain|
  {
    if i >= SECTOR {
      ImageAt(disk, chain[1..], i - SECTOR);
      assert (i - SECTOR) / SECTOR == i / SECTOR - 1 && (i - SECTOR) % SECTOR == i % SECTOR;
    }
  }

  // Where BX stands for the i-th cluster
  function PlaceOf(bx: nat, i: nat): Word16 {
    (bx + SECTOR * i) % 0x1_0000
  }

  lemma PlaceAfter(bx: Word16, i: nat)
    ensures PlaceOf((bx + SECTOR) % 0x1_0000, i) == PlaceOf(bx, i + 1)
  {
    var q := (bx + SECTOR) / 0x1_0000;
    var x := (bx + SECTOR) % 0x1_0000 + SECTOR * i;
    assert bx + SECTOR * (i + 1) == q * 0x1_0000 + x;
    DivModUnique(bx + SECTOR * (i + 1), 0x1_0000, q + x / 0x1_0000, x % 0x1_0000);
  }

  lemma StoreAt(m: seq<Byte>, at: nat, data: seq<Byte>, k: nat)
    requires at + |data| <= |m| && k < |m|
    ensures Store(m, at, data)[k] == if at <= k < at + |data| then data[k - at] else m[k]
  {
  }

  // Chains of any length, however often BX wraps: of the clusters that are loaded to a place the last one stays,
  // and a place that none is loaded to keeps what it had.
  lemma {:induction false} LastWriteStays(m: seq<Byte>, disk: Disk, chain: seq<nat>, es: Word16, bx: Word16, place: nat, j: nat)
    requires ValidDisk(disk) && |m| == MEMORY && es * 16 + 0x1_0000 <= MEMORY && bx % SECTOR == 0
    requires place % SECTOR == 0 && place + SECTOR <= 0x1_0000 && j < SECTOR
    ensures var w := WriteChain(m, disk, chain, es, bx)[es * 16 + place + j];
      && ((forall i :: 0 <= i < |chain| ==> PlaceOf(bx, i) != place) ==> w == m[es * 16 + place + j])
      && (forall i :: 0 <= i < |chain| && PlaceOf(bx, i) == place && (forall h :: i < h < |chain| ==> PlaceOf(bx, h) != place) ==>
            w == disk[LbaRead(chain[i])][j])
    decreases |chain|
  {
    if chain != [] {
      WriteOne(m, disk, chain, es, bx);
      var m', bx', rest := Store(m, es * 16 + bx, disk[LbaRead(chain[0])]), (bx + SECTOR) % 0x1_0000, chain[1..];
      LastWriteStays(m', disk, rest, es, bx', place, j);
      FirstPlace(m, disk[LbaRead(chain[0])], es, bx, place, j);
      forall i: nat
        ensures PlaceOf(bx', i) == PlaceOf(bx, i + 1)
      {
        PlaceAfter(bx, i);
      }
      assert forall i :: 1 <= i ==> PlaceOf(bx, i) == PlaceOf(bx', i - 1);
      assert forall i :: 0 <= i < |rest| ==> rest[i] == chain[i + 1];
    }
  }

  // One sector covers its place and no other.
  lemma FirstPlace(m: seq<Byte>, sector: seq<Byte>, es: Word16, bx: Word16, place: nat, j: nat)
    requires |m| == MEMORY && es * 16 + 0x1_0000 <= MEMORY && |sector| == SECTOR && bx % SECTOR == 0
    requires place % SECTOR == 0 && place + SECTOR <= 0x1_0000 && j < SECTOR && bx + SECTOR <= 0x1_0000
    ensures PlaceOf(bx, 0) == bx
    ensures Store(m, es * 16 + bx, sector)[es * 16 + place + j] == if place == bx then sector[j] else m[es * 16 + place + j]
  {
    StoreAt(m, es * 16 + bx, sector, es * 16 + place + j);
    assert bx == SECTOR * (bx / SECTOR) && place == SECTOR * (place / SECTOR);
  }

  // ----- exactly when a chain is loaded as meant

  // From memory m, the image is where it is meant to be and nothing else has changed.
  ghost predicate LoadedFrom(m: seq<Byte>, disk: Disk, chain: seq<nat>, es: Word16, bx: Word16)
    requires ValidDisk(disk) && es * 16 + 0x1_0000 <= MEMORY && bx % SECTOR == 0 && |m| == MEMORY
    requires HasPlace(chain, es, bx)
  {
    WriteChain(m, disk, chain, es, bx) == Store(m, es * 16 + bx, Image(disk, chain))
  }

  // The clusters are on the disk, and the file ends before the end of memory.
  predicate HasPlace(chain: seq<nat>, es: Word16, bx: Word16) {
    && (forall i :: 0 <= i < |chain| ==> chain[i] + 31 < DISK_SECTORS)
    && es * 16 + bx + SECTOR * |chain| <= MEMORY
  }

  // The file has a place, and the loop leaves it there, whatever was in memory.
  ghost predicate LoadsImage(disk: Disk, chain: seq<nat>, es: Word16, bx: Word16)
    requires ValidDisk(disk) && es * 16 + 0x1_0000 <= MEMORY && bx % SECTOR == 0
  {
    HasPlace(chain, es, bx) && forall m: seq<Byte> :: |m| == MEMORY ==> LoadedFrom(m, disk, chain, es, bx)
  }

  lemma StoreReads(m: seq<Byte>, at: nat, a: seq<Byte>, b: seq<Byte>)
    requires |a| == |b| && at + |a| <= |m|
    ensures Store(m, at, a) == Store(m, at, b) <==> a == b
  {
    assert Store(m, at, a)[at..at + |a|] == a && Store(m, at, b)[at..at + |b|] == b;
  }

  // Behind the segment nothing is written, so there the image is missing.
  lemma OverlongMissed(disk: Disk, chain: seq<nat>, es: Word16, bx: Word16) returns (m: seq<Byte>)
    requires ValidDisk(disk) && es * 16 + 0x1_0000 <= MEMORY && bx % SECTOR == 0 && !FitsSegment(chain, bx)
    requires HasPlace(chain, es, bx)
    ensures |m| == MEMORY && !LoadedFrom(m, disk, chain, es, bx)
  {
    var image, at, k := Image(disk, chain), es * 16 + bx, es * 16 + 0x1_0000;
    var other: Byte := if image[k - at] == 0 then 1 else 0;
    m := seq(MEMORY, _ => other);
    assert Store(m, at, image)[k] == image[k - at];
    assert WriteChain(m, disk, chain, es, bx)[k] == m[k];
  }

  // On one disk: the chain fits its segment and each sector that is read holds what the one meant holds.
  lemma LoadsImageIff(disk: Disk, chain: seq<nat>, es: Word16, bx: Word16)
    requires ValidDisk(disk) && es * 16 + 0x1_0000 <= MEMORY && bx % SECTOR == 0
    requires forall i :: 0 <= i < |chain| ==> chain[i] + 31 < DISK_SECTORS
    ensures LoadsImage(disk, chain, es, bx) <==> FitsSegment(chain, bx) && SameSectors(disk, chain)
  {
    if HasPlace(chain, es, bx) {
      if FitsSegment(chain, bx) && SameSectors(disk, chain) {
        forall m: seq<Byte> | |m| == MEMORY
          ensures LoadedFrom(m, disk, chain, es, bx)
        {
          LoadedFromIff(m, disk, chain, es, bx);
        }
      } else {
        var m := ImageMissed(disk, chain, es, bx);
      }
    }
  }

  lemma ImageMissed(disk: Disk, chain: seq<nat>, es: Word16, bx: Word16) returns (m: seq<Byte>)
    requires ValidDisk(disk) && es * 16 + 0x1_0000 <= MEMORY && bx % SECTOR == 0 && HasPlace(chain, es, bx)
    requires !FitsSegment(chain, bx) || !SameSectors(disk, chain)
    ensures |m| == MEMORY && !LoadedFrom(m, disk, chain, es, bx)
  {
    if FitsSegment(chain, bx) {
      m := seq(MEMORY, _ => 0);
      LoadedFromIff(m, disk, chain, es, bx);
    } else {
      m := OverlongMissed(disk, chain, es, bx);
    }
  }

  lemma LoadedFromIff(m: seq<Byte>, disk: Disk, chain: seq<nat>, es: Word16, bx: Word16)
    requires ValidDisk(disk) && es * 16 + 0x1_0000 <= MEMORY && bx % SECTOR == 0 && |m| == MEMORY
    requires FitsSegment(chain, bx) && forall i :: 0 <= i < |chain| ==> chain[i] + 31 < DISK_SECTORS
    ensures LoadedFrom(m, disk, chain, es, bx) <==> SameSectors(disk, chain)
  {
    FetchedStored(m, disk, chain, es, bx);
    FetchedIsImage(disk, chain);
    StoreReads(m, es * 16 + bx, Fetched(disk, chain), Image(disk, chain));
  }

  // Boot sector, both FATs and the root directory
  const SYSTEM_SECTORS: nat := 33

  ghost predicate ValidSystem(system: Disk) {
    |system| == SYSTEM_SECTORS && forall i :: 0 <= i < |system| ==> |system[i]| == SECTOR
  }

  // A disk with these system sectors on which cluster c is not what is read for it.
  lemma DiskThatDiffers(system: Disk, c: nat) returns (disk: Disk)
    requires ValidSystem(system) && 224 < c && c + 31 < DISK_SECTORS
    ensures ValidDisk(disk) && system <= disk && disk[LbaRead(c)] != disk[c + 31]
  {
    var other: Byte := if LbaRead(c) < SYSTEM_SECTORS && system[LbaRead(c)][0] == 1 then 2 else 1;
    var zeros: seq<Byte>, others: seq<Byte> := seq(SECTOR, _ => 0), seq(SECTOR, _ => other);
    disk := seq(DISK_SECTORS, i requires 0 <= i < DISK_SECTORS =>
      if i < SYSTEM_SECTORS then system[i] else if i < 0x100 then zeros else others);
    assert disk[c + 31][0] == other && disk[LbaRead(c)][0] != other;
  }

  // A cluster of the chain that is out of reach, if there is one.
  lemma NotReached(chain: seq<nat>, bx: nat) returns (c: nat)
    requires !Loadable(chain, bx)
    ensures c > 224 && (!FitsSegment(chain, bx) || c in chain)
  {
    if FitsSegment(chain, bx) {
      var i :| 0 <= i < |chain| && chain[i] > 224;
      c := chain[i];
    } else {
      c := 225;
    }
  }

  // Whatever the rest of a disk holds, the chain is loaded as meant: exactly if it is loadable.
  lemma LoadedAsMeantIff(system: Disk, chain: seq<nat>, es: Word16, bx: Word16)
    requires ValidSystem(system) && es * 16 + 0x1_0000 <= MEMORY && bx % SECTOR == 0
    ensures (forall disk :: ValidDisk(disk) && system <= disk ==> LoadsImage(disk, chain, es, bx)) <==> Loadable(chain, bx)
  {
    if Loadable(chain, bx) {
      forall disk | ValidDisk(disk) && system <= disk
        ensures LoadsImage(disk, chain, es, bx)
      {
        LoadsImageIff(disk, chain, es, bx);
      }
    } else {
      var c := NotReached(chain, bx);
      if HasPlace(chain, es, bx) {
        var disk := DiskThatDiffers(system, if c in chain then c else 225);
        LoadsImageIff(disk, chain, es, bx);
      } else {
        var disk := DiskThatDiffers(system, 225);
        assert !LoadsImage(disk, chain, es, bx);
      }
    }
  }

  // ----- the code

  // AH and AL of the read that load_root_dir asks for; BH holds what the BIOS left in it, and the high
  // half of the product with BX stays in DX for the division.
  method RootDirRead(bh: Byte, entries: Word16) returns (ah: Byte, al: Byte)
    ensures al == 19
    ensures ah == DirSectors(bh, entries)
  {
    var bx := 0x100 * bh + 2;
    var product := 9 * bx;
    var ax, dx := product % 0x1_0000, product / 0x1_0000;
    var lba := (ax + 1) % 0x1_0000;
    DirLba(bh);
    ah := SectorsOf(dx, entries * 32 % 0x1_0000);
    al := lba % 0x100;
  }

  // div by the sector size, rounded up in AL
  method SectorsOf(dx: nat, ax: Word16) returns (al: Byte)
    ensures al == (dx * 128 + (ax + 511) / SECTOR) % 0x100
  {
    var dividend := dx * 0x1_0000 + ax;
    var quotient, remainder := dividend / SECTOR, dividend % SECTOR;
    RoundedUp(dx, ax);
    al := quotient % 0x100;
    if remainder != 0 {
      ByteSuccessor(quotient);
      al := (al + 1) % 0x100;
    }
  }

  lemma RoundedUp(dx: nat, ax: Word16)
    ensures var dividend := dx * 0x1_0000 + ax;
      dx * 128 + (ax + 511) / SECTOR == dividend / SECTOR + if dividend % SECTOR != 0 then 1 else 0
  {
    var q, r := ax / SECTOR, ax % SECTOR;
    DivModUnique(dx * 0x1_0000 + ax, SECTOR, dx * 128 + q, r);
    DivModUnique(ax + 511, SECTOR, if r == 0 then q else q + 1, if r == 0 then 511 else r - 1);
  }

  lemma WordInSlice(m: seq<Byte>, lo: nat, hi: nat, offset: nat)
    requires lo <= hi <= |m| && offset + 1 < hi - lo
    ensures WordAt(m[lo..hi], offset) == WordAt(m, lo + offset)
  {
  }

  lemma LowByte(x: nat)
    ensures x % 0x1_0000 % 0x100 == x % 0x100
  {
    var q, r := x / 0x1_0000, x % 0x1_0000;
    DivModUnique(x, 0x100, 0x100 * q + r / 0x100, r % 0x100);
  }

  lemma ByteSuccessor(x: nat)
    ensures (x % 0x100 + 1) % 0x100 == (x + 1) % 0x100
  {
  }

  // Only the low byte of the sector number is used, and it does not depend on BH.
  lemma DirLba(bh: Byte)
    ensures (9 * (0x100 * bh + 2) % 0x1_0000 + 1) % 0x1_0000 % 0x100 == 19
  {
    var product := 9 * (0x100 * bh + 2);
    var ax, high := product % 0x1_0000, 9 * bh - 0x100 * (product / 0x1_0000);
    assert ax == 0x100 * high + 18 && 0 <= high < 0x100;
    DivModUnique(ax + 1, 0x100, high, 19);
  }

  function DirSectors(bh: Byte, entries: Word16): Byte {
    (9 * (0x100 * bh + 2) / 0x1_0000 * 128 + (entries * 32 % 0x1_0000 + 511) / SECTOR) % 0x100
  }

  // The 14 sectors of the root directory are asked for exactly when that high half is even.
  lemma DirSectorsExact(bh: Byte)
    ensures DirSectors(bh, DIR_ENTRIES) == 14 <==> 9 * (0x100 * bh + 2) / 0x1_0000 % 2 == 0
    ensures DirSectors(bh, DIR_ENTRIES) == 14 || DirSectors(bh, DIR_ENTRIES) == 142
    ensures bh <= 28 ==> DirSectors(bh, DIR_ENTRIES) == 14
  {
  }

  // For any number of records: the sectors that hold what the division is given, modulo 256.
  lemma DirSectorsRounded(bh: Byte, entries: Word16, n: nat)
    requires var bytes := 9 * (0x100 * bh + 2) / 0x1_0000 * 0x1_0000 + 32 * entries % 0x1_0000;
      SECTOR * n >= bytes && SECTOR * n < bytes + SECTOR
    ensures DirSectors(bh, entries) == n % 0x100
  {
    var dx, ax := 9 * (0x100 * bh + 2) / 0x1_0000, 32 * entries % 0x1_0000;
    assert 32 * entries == entries * 32;
    DivModUnique(ax + 511, SECTOR, n - dx * 128, ax + 511 - SECTOR * (n - dx * 128));
  }

  // With 29 in BH, 142 sectors are asked for instead of 14.
  lemma DirSectorsExample()
    ensures DirSectors(29, DIR_ENTRIES) == 142
  {
  }

  // The directory has the file, and its chain ends.
  ghost predicate FileEnds(disk: Disk, name: seq<Byte>)
    requires ValidDisk(disk)
  {
    var root, fat := Sectors(disk, 19, 14), Sectors(disk, 1, 9);
    var k := Find(root, name, 0);
    k.Some? && Follow(fat, FirstCluster(root, k.value), Clusters(fat)).Some?
  }

  ghost function FileChain(disk: Disk, name: seq<Byte>): seq<nat>
    requires ValidDisk(disk) && FileEnds(disk, name)
  {
    var root, fat := Sectors(disk, 19, 14), Sectors(disk, 1, 9);
    Follow(fat, FirstCluster(root, Find(root, name, 0).value), Clusters(fat)).value
  }

  ghost predicate Missing(disk: Disk, name: seq<Byte>)
    requires ValidDisk(disk)
  {
    Find(Sectors(disk, 19, 14), name, 0).None?
  }

  // A volume as it is written: a packed FAT, a first record with the name, and a chain of links up to an end
  // marker. It is the chain that the loader finds.
  lemma FileOnVolume(disk: Disk, name: seq<Byte>, k: nat, entries: seq<Entry>, chain: seq<nat>)
    requires ValidDisk(disk) && k < DIR_ENTRIES && |entries| == 3072 && chain != []
    requires Sectors(disk, 1, 9) == Pack(entries)
    requires var root := Sectors(disk, 19, 14);
      && HasName(root, k, name) && FirstCluster(root, k) == chain[0]
      && forall i :: 0 <= i < k ==> !HasName(root, i, name)
    requires forall i :: 0 <= i < |chain| ==> chain[i] < 3072 && Linked(entries, chain, i)
    ensures FileEnds(disk, name) && FileChain(disk, name) == chain
  {
    FirstFound(Sectors(disk, 19, 14), name, k);
    PackedChain(entries, chain);
  }

  lemma FirstFound(root: seq<Byte>, name: seq<Byte>, k: nat)
    requires |root| == DIR_BYTES && k < DIR_ENTRIES && HasName(root, k, name)
    requires forall i :: 0 <= i < k ==> !HasName(root, i, name)
    ensures Find(root, name, 0) == Some(k)
  {
    var r := Find(root, name, 0);
    assert r.Some? ==> HasName(root, r.value, name);
  }

  predicate InBuffers(i: int) {
    BUFFER <= i < BUFFER + DIR_BYTES || 0x8_0000 <= i < 0xA_0000
  }

  class Boot {
    const mem: array<Byte>
    const disk: Disk
    // Where the boot sector keeps the first clusters of the two files
    const stage1Word: nat
    const kernelWord: nat

    ghost predicate Valid() {
      && mem.Length == MEMORY && ValidDisk(disk)
      && ORIGIN <= stage1Word && kernelWord == stage1Word + 2 && kernelWord + 2 <= BUFFER - 2
    }

    ghost predicate InWords(i: int) {
      stage1Word <= i < stage1Word + 2 || kernelWord <= i < kernelWord + 2
    }

    constructor (mem: array<Byte>, disk: Disk, stage1Word: nat)
      requires mem.Length == MEMORY && ValidDisk(disk) && ORIGIN <= stage1Word && stage1Word + 4 <= BUFFER - 2
      ensures Valid() && this.mem == mem && this.disk == disk && this.stage1Word == stage1Word
    {
      this.mem := mem;
      this.disk := disk;
      this.stage1Word := stage1Word;
      this.kernelWord := stage1Word + 2;
    }

    // INT 13h, function 2, for a read that stays on its track
    method BiosRead(count: Byte, r: Chs.Registers, es: Word16, bx: Word16)
      requires Valid() && 0 <= Chs.LbaOf(r, FLOPPY) && Chs.LbaOf(r, FLOPPY) + count <= DISK_SECTORS
      requires es * 16 + bx + SECTOR * count <= MEMORY
      modifies mem
      ensures mem[..] == Store(old(mem[..]), es * 16 + bx, Sectors(disk, Chs.LbaOf(r, FLOPPY), count))
    {
      var data := Sectors(disk, Chs.LbaOf(r, FLOPPY), count);
      var at := es * 16 + bx;
      var i := 0;
      while i < |data|
        invariant 0 <= i <= |data|
        invariant forall k :: 0 <= k < MEMORY ==> mem[k] == if at <= k < at + i then data[k - at] else old(mem[k])
      {
        mem[at + i] := data[i];
        i := i + 1;
      }
    }

    method DiskRead(ah: Byte, al: Byte, es: Word16, bx: Word16)
      requires Valid() && al % FLOPPY.sectors + ah <= FLOPPY.sectors
      requires es * 16 + bx + SECTOR * ah <= MEMORY
      modifies mem
      ensures mem[..] == Store(old(mem[..]), es * 16 + bx, Sectors(disk, al, ah))
      ensures forall i :: 0 <= i < SECTOR * ah ==> mem[es * 16 + bx + i] == disk[al + i / SECTOR][i % SECTOR]
      ensures forall k :: 0 <= k < MEMORY && !(es * 16 + bx <= k < es * 16 + bx + SECTOR * ah) ==> mem[k] == old(mem[k])
    {
      var r := Chs.LbaToChs(al, FLOPPY);
      Chs.ConvertIsExact(al, FLOPPY);
      BiosRead(ah, r, es, bx);
      ReadBytes(old(mem[..]), mem[..], es * 16 + bx, disk, al, ah);
      assert forall k :: 0 <= k < MEMORY ==> mem[k] == mem[..][k];
    }

    // repe cmpsb over the eleven bytes of a name
    method CompareName(name: seq<Byte>, di: nat) returns (equal: bool)
      requires Valid() && |name| == NAME && di + NAME <= MEMORY
      ensures equal <==> mem[di..di + NAME] == name
    {
      var cx := NAME;
      equal := true;
      while cx != 0 && equal
        invariant 0 <= cx <= NAME
        invariant equal ==> forall i :: 0 <= i < NAME - cx ==> mem[di + i] == name[i]
        invariant !equal ==> cx < NAME && mem[di + (NAME - cx - 1)] != name[NAME - cx - 1]
        decreases cx
      {
        equal := mem[di + (NAME - cx)] == name[NAME - cx];
        cx := cx - 1;
      }
      if !equal {
        assert mem[di..di + NAME][NAME - cx - 1] != name[NAME - cx - 1];
      }
    }

    // Record k of the directory at `start`.
    method IsRecord(name: seq<Byte>, start: Word16, di: nat, ghost k: nat) returns (equal: bool)
      requires Valid() && |name| == NAME && start + DIR_BYTES <= 0x1_0000 && k < DIR_ENTRIES && di == start + 32 * k
      ensures equal <==> HasName(mem[start..start + DIR_BYTES], k, name)
    {
      equal := CompareName(name, di);
      assert mem[di..di + NAME] == mem[start..start + DIR_BYTES][32 * k..32 * k + NAME];
    }

    method ReadCluster(start: Word16, di: nat, ghost k: nat) returns (ax: Word16)
      requires Valid() && start + DIR_BYTES <= 0x1_0000 && k < DIR_ENTRIES && di == start + 32 * k
      ensures ax == FirstCluster(mem[start..start + DIR_BYTES], k)
    {
      ax := mem[di + 26] as int + 0x100 * (mem[di + 27] as int);
    }

    // AX is the first cluster of the first record with the name; without one the machine halts.
    method SearchFile(name: seq<Byte>, start: Word16) returns (found: bool, ax: Word16)
      requires Valid() && |name| == NAME && start + DIR_BYTES <= 0x1_0000
      ensures var root := mem[start..start + DIR_BYTES];
        && found == Find(root, name, 0).Some?
        && (found ==>
              var k := Find(root, name, 0).value;
              && ax == FirstCluster(root, k) == root[32 * k + 26] as int + 0x100 * (root[32 * k + 27] as int)
              && root[32 * k..32 * k + 11] == name)
    {
      ghost var root := mem[start..start + DIR_BYTES];
      var bx: nat, di: nat := 0, start;
      while true
        invariant 0 <= bx < DIR_ENTRIES && di == start + 32 * bx
        invariant Find(root, name, bx) == Find(root, name, 0)
        decreases DIR_ENTRIES - bx
      {
        var equal := IsRecord(name, start, di, bx);
        if equal {
          ax := ReadCluster(start, di, bx);
          return true, ax;
        }
        di := di + 32;
        bx := bx + 1;
        if bx >= DIR_ENTRIES {
          return false, 0;
        }
      }
    }

    // One cluster into memory; BX moves on and may wrap.
    method LoadSector(ax: Word16, es: Word16, bx: Word16) returns (next: Word16)
      requires Valid() && bx % SECTOR == 0 && es * 16 + 0x1_0000 <= MEMORY
      modifies mem
      ensures mem[..] == Store(old(mem[..]), es * 16 + bx, disk[LbaRead(ax)])
      ensures next == (bx + SECTOR) % 0x1_0000 && next % SECTOR == 0
    {
      LastSectorFits(bx);
      LowByte(ax + 31);
      DiskRead(1, (ax + 31) % 0x1_0000 % 0x100, es, bx);
      assert Sectors(disk, LbaRead(ax), 1) == disk[LbaRead(ax)];
      next := (bx + SECTOR) % 0x1_0000;
    }

    // The FAT entry of a cluster, read at DS:SI with DS = 0.
    method ReadEntry(ax: Word16, si: Word16) returns (next: Word16)
      requires Valid() && si + WINDOW <= 0x1_0000 && InTable(mem[si..si + WINDOW], ax)
      ensures next == EntryAt(mem[si..si + WINDOW], ax)
    {
      ghost var table := mem[si..si + WINDOW];
      assert table == mem[..][si..si + WINDOW];
      var product := ax * 3;
      var offset, remainder := product / 2, product % 2;
      var word := LoadWord(si + offset);
      WordInSlice(mem[..], si, si + WINDOW, offset);
      if remainder == 0 {
        MaskTwelveBits(word);
        next := And(word, 0x0FFF);
      } else {
        next := word / 0x10;
      }
    }

    // One turn of the loop: a cluster is loaded and its entry read, wherever that leads.
    method LoadTurn(ax: Word16, si: Word16, es: Word16, bx: Word16) returns (ended: bool, next: Word16, bx': Word16)
      requires Valid() && ax < 0x1000 && bx % SECTOR == 0
      requires si + WINDOW <= 0x1_0000 && si + WINDOW <= es * 16 && es * 16 + 0x1_0000 <= MEMORY
      modifies mem
      ensures mem[..] == Store(old(mem[..]), es * 16 + bx, disk[LbaRead(ax)])
      ensures mem[si..si + WINDOW] == old(mem[si..si + WINDOW])
      ensures bx' == (bx + SECTOR) % 0x1_0000 && bx' % SECTOR == 0
      ensures next < 0x1000
      ensures TurnFrom(old(mem[si..si + WINDOW]), At(ax)) == if ended then Ended else At(next)
      ensures next == EntryAt(old(mem[si..si + WINDOW]), ax)
    {
      ghost var m := mem[..];
      bx' := LoadSector(ax, es, bx);
      StoreElsewhere(m, bx, disk[LbaRead(ax)], es, si);
      assert mem[si..si + WINDOW] == mem[..][si..si + WINDOW];
      next := ReadEntry(ax, si);
      ended := next >= END_OF_CHAIN;
    }

    // The first n turns, of a chain that ends or of one that does not.
    method LoadTurns(start: Word16, si: Word16, es: Word16, bx0: Word16, n: nat) returns (ended: bool, ax: Word16)
      requires Valid() && start < 0x1000 && bx0 % SECTOR == 0
      requires si + WINDOW <= 0x1_0000 && si + WINDOW <= es * 16 && es * 16 + 0x1_0000 <= MEMORY
      modifies mem
      ensures var table := old(mem[si..si + WINDOW]);
        && Turns(table, At(start), n) == (if ended then Ended else At(ax))
        && mem[..] == WriteChain(old(mem[..]), disk, Path(table, At(start), n), es, bx0)
    {
      ghost var table, turn := mem[si..si + WINDOW], At(start);
      ghost var rest := Path(table, turn, n);
      ghost var final := WriteChain(mem[..], disk, rest, es, bx0);
      ended, ax := false, start;
      var bx: Word16, i := bx0, 0;
      while i < n && !ended
        invariant 0 <= i <= n && bx % SECTOR == 0 && ax < 0x1000
        invariant mem[si..si + WINDOW] == table && turn == if ended then Ended else At(ax)
        invariant Turns(table, turn, n - i) == Turns(table, At(start), n)
        invariant rest == Path(table, turn, n - i) && WriteChain(mem[..], disk, rest, es, bx) == final
      {
        PathOne(table, ax, n - i);
        WriteOne(mem[..], disk, rest, es, bx);
        ended, ax, bx := LoadTurn(ax, si, es, bx);
        turn, rest, i := TurnFrom(table, turn), rest[1..], i + 1;
      }
      if ended {
        NotAtStays(table, turn, n - i);
      }
      assert rest == [];
    }

    // The table is at SI, the sectors go to ES:BX.
    method LoadFile(start: Word16, si: Word16, es: Word16, bx0: Word16)
      requires Valid() && bx0 % SECTOR == 0
      requires si + WINDOW <= 0x1_0000 && si + WINDOW <= es * 16 && es * 16 + 0x1_0000 <= MEMORY
      requires var table := mem[si..si + WINDOW]; Follow(table, start, Clusters(table)).Some?
      modifies mem
      ensures var table := old(mem[si..si + WINDOW]);
        mem[..] == WriteChain(old(mem[..]), disk, Follow(table, start, Clusters(table)).value, es, bx0)
    {
      ghost var table := mem[si..si + WINDOW];
      ghost var unvisited := Clusters(table);
      ghost var rest := Follow(table, start, unvisited).value;
      ghost var final := WriteChain(mem[..], disk, rest, es, bx0);
      var ax: Word16, bx: Word16 := start, bx0;
      while true
        invariant bx % SECTOR == 0
        invariant mem[si..si + WINDOW] == table && unvisited <= Clusters(table)
        invariant Follow(table, ax, unvisited) == Some(rest)
        invariant final == WriteChain(mem[..], disk, rest, es, bx)
        decreases |unvisited|
      {
        ghost var cluster := ax;
        WriteOne(mem[..], disk, rest, es, bx);
        var ended;
        ended, ax, bx := LoadTurn(ax, si, es, bx);
        assert |unvisited - {cluster}| == |unvisited| - 1;
        if ended {
          break;
        }
        unvisited := unvisited - {cluster};
        rest := rest[1..];
      }
    }

    // A chain of the FAT, whatever lies behind it.
    method LoadChain(start: Word16, es: Word16)
      requires Valid() && BUFFER + WINDOW <= es * 16 && es * 16 + 0x1_0000 <= MEMORY
      requires var fat := mem[BUFFER..BUFFER + FAT_BYTES]; Follow(fat, start, Clusters(fat)).Some?
      modifies mem
      ensures var fat := old(mem[BUFFER..BUFFER + FAT_BYTES]);
        mem[..] == WriteChain(old(mem[..]), disk, Follow(fat, start, Clusters(fat)).value, es, 0)
    {
      ghost var fat, table := mem[BUFFER..BUFFER + FAT_BYTES], mem[BUFFER..BUFFER + WINDOW];
      assert fat == table[..FAT_BYTES];
      FollowInLonger(fat, table, start);
      LoadFile(start, BUFFER, es, 0);
    }

    // Both first clusters are kept in the boot sector.
    ghost function KernelCluster(): Word16
      requires Valid()
      reads mem
    {
      WordAt(mem[..], kernelWord)
    }

    ghost function Stage1Cluster(): Word16
      requires Valid()
      reads mem
    {
      WordAt(mem[..], stage1Word)
    }

    method StoreWord(at: nat, ax: Word16)
      requires Valid() && at + 2 <= MEMORY
      modifies mem
      ensures mem[..] == Store(old(mem[..]), at, [ax % 0x100, ax / 0x100])
    {
      mem[at] := ax % 0x100;
      mem[at + 1] := ax / 0x100;
    }

    method LoadWord(at: nat) returns (ax: Word16)
      requires Valid() && at + 2 <= MEMORY
      ensures ax == WordAt(mem[..], at)
    {
      ax := mem[at] as int + 0x100 * (mem[at + 1] as int);
    }

    method ReadRoot(bh: Byte)
      requires Valid() && DirSectors(bh, DIR_ENTRIES) == 14
      modifies mem
      ensures mem[..] == Store(old(mem[..]), BUFFER, Sectors(disk, 19, 14))
      ensures mem[BUFFER..BUFFER + DIR_BYTES] == Sectors(disk, 19, 14)
    {
      ghost var root, m := Sectors(disk, 19, 14), mem[..];
      var ah, al := RootDirRead(bh, DIR_ENTRIES);
      DiskRead(ah, al, 0, BUFFER);
      StoredData(m, BUFFER, root, 0, 0);
      m := mem[..];
      assert mem[BUFFER..BUFFER + DIR_BYTES] == m[BUFFER..BUFFER + DIR_BYTES];
    }

    // The name is searched for in the directory in the buffer, and its first cluster kept.
    method FindFile(name: seq<Byte>, word: nat) returns (found: bool)
      requires Valid() && |name| == NAME && word + 2 <= BUFFER
      modifies mem
      ensures var root := old(mem[BUFFER..BUFFER + DIR_BYTES]); var k := Find(root, name, 0);
        && found == k.Some?
        && WordAt(mem[..], word) == if k.Some? then FirstCluster(root, k.value) else old(WordAt(mem[..], word))
      ensures mem[BUFFER..BUFFER + DIR_BYTES] == old(mem[BUFFER..BUFFER + DIR_BYTES])
      ensures forall i :: 0 <= i < MEMORY && !(word <= i < word + 2) ==> mem[i] == old(mem[i])
    {
      ghost var m := mem[..];
      var ax;
      found, ax := SearchFile(name, BUFFER);
      if !found {
        return;
      }
      StoreWord(word, ax);
      StoredWord(m, word, ax, BUFFER, BUFFER + DIR_BYTES);
      assert mem[BUFFER..BUFFER + DIR_BYTES] == mem[..][BUFFER..BUFFER + DIR_BYTES] == m[BUFFER..BUFFER + DIR_BYTES];
      assert forall i :: 0 <= i < MEMORY ==> mem[i] == mem[..][i];
    }

    // The root directory is read and searched for both names, and the clusters found are stored; without one
    // of them the machine halts.
    method FindFiles(kernel: seq<Byte>, stage1: seq<Byte>, bh: Byte) returns (halted: bool)
      requires Valid() && |kernel| == |stage1| == NAME && DirSectors(bh, DIR_ENTRIES) == 14
      modifies mem
      ensures var root := Sectors(disk, 19, 14);
        var k, s := Find(root, kernel, 0), Find(root, stage1, 0);
        && mem[0x7E00..0x7E00 + DIR_BYTES] == root
        && (halted <==> k.None? || s.None?)
        && KernelCluster() == (if k.Some? then FirstCluster(root, k.value) else old(KernelCluster()))
        && Stage1Cluster() == (if halted then old(Stage1Cluster()) else FirstCluster(root, s.value))
      ensures forall i :: ORIGIN <= i < MEMORY && !(BUFFER <= i < BUFFER + DIR_BYTES) && !InWords(i) ==>
        mem[i] == old(mem[i])
    {
      StoreFrame(mem[..], BUFFER, Sectors(disk, 19, 14));
      ReadRoot(bh);
      assert forall i :: 0 <= i < MEMORY ==> mem[i] == mem[..][i];
      var found := FindFile(kernel, kernelWord);
      if !found {
        return true;
      }
      found := FindFile(stage1, stage1Word);
      halted := !found;
    }

    // The FAT replaces the root directory in the buffer.
    method ReadFat()
      requires Valid()
      modifies mem
      ensures mem[..] == Store(old(mem[..]), BUFFER, Sectors(disk, 1, 9))
      ensures mem[BUFFER..BUFFER + FAT_BYTES] == Sectors(disk, 1, 9)
      ensures KernelCluster() == old(KernelCluster()) && Stage1Cluster() == old(Stage1Cluster())
    {
      ghost var fat, m := Sectors(disk, 1, 9), mem[..];
      DiskRead(9, 1, 0, BUFFER);
      StoredData(m, BUFFER, fat, 0, 0);
      StoreFrame(m, BUFFER, fat);
      m := mem[..];
      assert mem[BUFFER..BUFFER + FAT_BYTES] == m[BUFFER..BUFFER + FAT_BYTES];
    }

    // The file whose first cluster is kept at `word`; the FAT and the words stay as they are.
    method LoadKept(word: nat, es: Word16)
      requires Valid() && word + 2 <= BUFFER && BUFFER + WINDOW <= es * 16 && es * 16 + 0x1_0000 <= MEMORY
      requires var fat := mem[BUFFER..BUFFER + FAT_BYTES]; Follow(fat, WordAt(mem[..], word), Clusters(fat)).Some?
      modifies mem
      ensures var fat := old(mem[BUFFER..BUFFER + FAT_BYTES]);
        mem[..] == WriteChain(old(mem[..]), disk, Follow(fat, old(WordAt(mem[..], word)), Clusters(fat)).value, es, 0)
      ensures mem[BUFFER..BUFFER + FAT_BYTES] == old(mem[BUFFER..BUFFER + FAT_BYTES])
      ensures KernelCluster() == old(KernelCluster()) && Stage1Cluster() == old(Stage1Cluster())
    {
      var ax := LoadWord(word);
      LoadChain(ax, es);
      assert forall k :: 0 <= k < es * 16 ==> mem[..][k] == old(mem[..])[k];
    }

    // stage1 is loaded first, then the kernel.
    method LoadFiles()
      requires Valid()
      requires var fat := Sectors(disk, 1, 9);
        Follow(fat, KernelCluster(), Clusters(fat)).Some? && Follow(fat, Stage1Cluster(), Clusters(fat)).Some?
      modifies mem
      ensures var fat := Sectors(disk, 1, 9);
        var k := Follow(fat, old(KernelCluster()), Clusters(fat)).value;
        var s := Follow(fat, old(Stage1Cluster()), Clusters(fat)).value;
        var read := Store(old(mem[..]), 0x7E00, fat);
        mem[..] == WriteChain(WriteChain(read, disk, s, 0x8000, 0), disk, k, 0x9000, 0)
    {
      ReadFat();
      LoadKept(stage1Word, STAGE1_SEGMENT);
      LoadKept(kernelWord, KERNEL_SEGMENT);
    }

    // main: a halt because a name is missing, or both files at their segments: the sectors read, if the
    // segment is long enough, and the file byte for byte, if it is loadable.
    method StartUp(kernel: seq<Byte>, stage1: seq<Byte>, bh: Byte) returns (halted: bool)
      requires Valid() && |kernel| == |stage1| == NAME && DirSectors(bh, DIR_ENTRIES) == 14
      requires Missing(disk, kernel) || Missing(disk, stage1) || (FileEnds(disk, kernel) && FileEnds(disk, stage1))
      modifies mem
      ensures halted <==> Missing(disk, kernel) || Missing(disk, stage1)
      ensures !halted ==> FileAt(mem[..], disk, FileChain(disk, stage1), 0x8_0000)
      ensures !halted ==> FileAt(mem[..], disk, FileChain(disk, kernel), 0x9_0000)
      ensures forall i :: ORIGIN <= i < MEMORY && !InBuffers(i) && !InWords(i) ==> mem[i] == old(mem[i])
    {
      halted := FindFiles(kernel, stage1, bh);
      ghost var m := mem[..];
      if !halted {
        LoadFiles();
        StoredFiles(m, mem[..], disk, FileChain(disk, stage1), FileChain(disk, kernel));
        assert forall i :: 0 <= i < MEMORY ==> mem[i] == mem[..][i];
      }
    }
  }

  // What a chain leaves in its segment.
  ghost predicate FileAt(m: seq<Byte>, disk: Disk, chain: seq<nat>, at: nat)
    requires ValidDisk(disk) && |m| == MEMORY && at + 0x1_0000 <= MEMORY
  {
    && (FitsSegment(chain, 0) ==> m[at..at + SECTOR * |chain|] == Fetched(disk, chain))
    && (Loadable(chain, 0) ==> m[at..at + SECTOR * |chain|] == Image(disk, chain))
  }

  lemma ChainAtSegment(m: seq<Byte>, disk: Disk, chain: seq<nat>, es: Word16)
    requires ValidDisk(disk) && |m| == MEMORY && es * 16 + 0x1_0000 <= MEMORY
    ensures FileAt(WriteChain(m, disk, chain, es, 0), disk, chain, es * 16)
  {
    if FitsSegment(chain, 0) {
      FetchedStored(m, disk, chain, es, 0);
      StoredData(m, es * 16, Fetched(disk, chain), 0, 0);
      if Loadable(chain, 0) {
        FetchedIsImage(disk, chain);
      }
    }
  }

  // FAT, stage1 and kernel stored one after the other: both files are there, and what else is unchanged.
  lemma StoredFiles(m: seq<Byte>, m': seq<Byte>, disk: Disk, s: seq<nat>, k: seq<nat>)
    requires |m| == MEMORY && ValidDisk(disk)
    requires m' == WriteChain(WriteChain(Store(m, BUFFER, Sectors(disk, 1, 9)), disk, s, STAGE1_SEGMENT, 0), disk, k, KERNEL_SEGMENT, 0)
    ensures FileAt(m', disk, s, 0x8_0000) && FileAt(m', disk, k, 0x9_0000)
    ensures forall i :: 0 <= i < MEMORY && !InBuffers(i) ==> m'[i] == m[i]
  {
    var m1 := Store(m, BUFFER, Sectors(disk, 1, 9));
    var m2 := WriteChain(m1, disk, s, STAGE1_SEGMENT, 0);
    StoreFrame(m, BUFFER, Sectors(disk, 1, 9));
    ChainAtSegment(m1, disk, s, STAGE1_SEGMENT);
    ChainAtSegment(m2, disk, k, KERNEL_SEGMENT);
    SegmentSame(m2, m', disk, s, 0x8_0000);
  }

  lemma SegmentSame(m: seq<Byte>, m': seq<Byte>, disk: Disk, chain: seq<nat>, at: nat)
    requires ValidDisk(disk) && |m| == |m'| == MEMORY && at + 0x1_0000 <= MEMORY && FileAt(m, disk, chain, at)
    requires forall i :: at <= i < at + 0x1_0000 ==> m'[i] == m[i]
    ensures FileAt(m', disk, chain, at)
  {
    if FitsSegment(chain, 0) {
      assert m'[at..at + SECTOR * |chain|] == m[at..at + SECTOR * |chain|];
    }
  }

  lemma StoreFrame(m: seq<Byte>, at: nat, data: seq<Byte>)
    requires at + |data| <= |m|
    ensures forall k :: 0 <= k < |m| && !(at <= k < at + |data|) ==> Store(m, at, data)[k] == m[k]
  {
  }

  lemma StoredData(m: seq<Byte>, at: nat, data: seq<Byte>, lo: nat, hi: nat)
    requires at + |data| <= |m| && lo <= hi <= |m|
    ensures Store(m, at, data)[at..at + |data|] == data
    ensures hi <= at || at + |data| <= lo ==> Store(m, at, data)[lo..hi] == m[lo..hi]
  {
  }

  lemma StoredWord(m: seq<Byte>, at: nat, w: Word16, lo: nat, hi: nat)
    requires at + 2 <= |m| && lo <= hi <= |m| && (hi <= at || at + 2 <= lo)
    ensures var m' := Store(m, at, [w % 0x100, w / 0x100]);
      && WordAt(m', at) == w && m'[lo..hi] == m[lo..hi]
      && forall k :: 0 <= k < |m| && !(at <= k < at + 2) ==> m'[k] == m[k]
  {
    StoreFrame(m, at, [w % 0x100, w / 0x100]);
    StoredData(m, at, [w % 0x100, w / 0x100], lo, hi);
  }

  lemma PathOne(table: seq<Byte>, c: nat, n: nat)
    requires n > 0
    ensures var path := Path(table, At(c), n);
      path == [c] + Path(table, TurnFrom(table, At(c)), n - 1)
      && path[0] == c && path[1..] == Path(table, TurnFrom(table, At(c)), n - 1)
  {
  }

  lemma ReadBytes(m: seq<Byte>, m': seq<Byte>, at: nat, disk: Disk, lba: nat, n: nat)
    requires ValidDisk(disk) && lba + n <= |disk| && at + SECTOR * n <= |m|
    requires m' == Store(m, at, Sectors(disk, lba, n))
    ensures forall i :: 0 <= i < SECTOR * n ==> m'[at + i] == disk[lba + i / SECTOR][i % SECTOR]
    ensures forall k :: 0 <= k < |m| && !(at <= k < at + SECTOR * n) ==> m'[k] == m[k]
  {
    forall i | 0 <= i < SECTOR * n
      ensures m'[at + i] == disk[lba + i / SECTOR][i % SECTOR]
    {
      SectorsAt(disk, lba, n, i);
      StoreAt(m, at, Sectors(disk, lba, n), at + i);
    }
    StoreFrame(m, at, Sectors(disk, lba, n));
  }

  lemma StoreElsewhere(m: seq<Byte>, bx: nat, data: seq<Byte>, es: nat, si: nat)
    requires si + WINDOW <= es * 16 && es * 16 + bx + |data| <= |m|
    ensures Store(m, es * 16 + bx, data)[si..si + WINDOW] == m[si..si + WINDOW]
  {
  }

  lemma MaskTwelveBits(word: Word16)
    ensures And(word, 0x0FFF) == word % 0x1000
  {
    assert Pow2(12) == 0x1000;
    AndMask(word, 12);
  }
}
