/** FAT12 tables: 12-bit entries packed two to three bytes, the loader's way of reading one, and
    the cluster chains they form (boot/x86/stage0/utils.asm, load_file). */
module Fat12 {
  import opened Bits
  import opened Options

  type Entry = x: int | 0 <= x < 0x1000

  const END_OF_CHAIN: Entry := 0xFF8

  // ----- packing

  function Pack(entries: seq<Entry>): (fat: seq<Byte>)
    ensures |fat| == (3 * |entries| + 1) / 2
  {
    if entries == [] then []
    else if |entries| == 1 then [entries[0] % 0x100, entries[0] / 0x100]
    else
      var a, b := entries[0], entries[1];
      [a % 0x100, a / 0x100 + 0x10 * (b % 0x10), b / 0x10] + Pack(entries[2..])
  }

  function WordAt(fat: seq<Byte>, offset: nat): Word16
    requires offset + 1 < |fat|
  {
    fat[offset] as int + 0x100 * (fat[offset + 1] as int)
  }

  predicate InTable(fat: seq<Byte>, n: nat) {
    3 * n / 2 + 1 < |fat|
  }

  // The word at byte 3n/2, of which the remainder of 3n/2 selects twelve bits.
  function EntryAt(fat: seq<Byte>, n: nat): Entry
    requires InTable(fat, n)
  {
    var w := WordAt(fat, 3 * n / 2);
    if 3 * n % 2 == 0 then w % 0x1000 else w / 0x10
  }

  // Three bytes hold two entries: the low nibble of the middle byte ends the first, its high nibble begins the second.
  lemma EntryFromBytes(fat: seq<Byte>, k: nat)
    requires 3 * k + 2 < |fat|
    ensures InTable(fat, 2 * k) && EntryAt(fat, 2 * k) == fat[3 * k] as int + 0x100 * (fat[3 * k + 1] as int % 0x10)
    ensures InTable(fat, 2 * k + 1) && EntryAt(fat, 2 * k + 1) == fat[3 * k + 1] / 0x10 + 0x10 * (fat[3 * k + 2] as int)
  {
    var a: int, b: int, c: int := fat[3 * k], fat[3 * k + 1], fat[3 * k + 2];
    assert 3 * (2 * k) / 2 == 3 * k && 3 * (2 * k) % 2 == 0;
    assert 3 * (2 * k + 1) / 2 == 3 * k + 1 && 3 * (2 * k + 1) % 2 == 1;
    assert b == 0x10 * (b / 0x10) + b % 0x10;
    DivModUnique(a + 0x100 * b, 0x1000, b / 0x10, a + 0x100 * (b % 0x10));
    DivModUnique(b + 0x100 * c, 0x10, b / 0x10 + 0x10 * c, b % 0x10);
  }

  lemma EntryInTail(head: seq<Byte>, fat: seq<Byte>, n: nat)
    requires |head| == 3 && InTable(fat, n)
    ensures InTable(head + fat, n + 2) && EntryAt(head + fat, n + 2) == EntryAt(fat, n)
  {
    assert 3 * (n + 2) / 2 == 3 * n / 2 + 3 && 3 * (n + 2) % 2 == 3 * n % 2;
  }

  lemma FirstTwo(a: Entry, b: Entry, rest: seq<Byte>)
    ensures var fat := [a % 0x100, a / 0x100 + 0x10 * (b % 0x10), b / 0x10] + rest;
      EntryAt(fat, 0) == a && EntryAt(fat, 1) == b
  {
    var fat := [a % 0x100, a / 0x100 + 0x10 * (b % 0x10), b / 0x10] + rest;
    SplitAt(a, 0x100);
    SplitAt(b, 0x10);
    assert WordAt(fat, 0) == 0x1000 * (b % 0x10) + a;
    DivModUnique(WordAt(fat, 0), 0x1000, b % 0x10, a);
    assert WordAt(fat, 1) == 0x10 * b + a / 0x100;
    DivModUnique(WordAt(fat, 1), 0x10, b, a / 0x100);
  }

  lemma SplitAt(a: Entry, m: nat)
    requires m > 0
    ensures a == a / m * m + a % m
    ensures m == 0x100 ==> a / m < 0x10
  {
  }

  lemma LoneEntry(a: Entry)
    ensures EntryAt([a % 0x100, a / 0x100], 0) == a
  {
    assert WordAt([a % 0x100, a / 0x100], 0) == a;
  }

  // The loader tests the remainder of 3n/2 where the format speaks of the parity of n.
  lemma RemainderIsParity(n: nat)
    ensures 3 * n % 2 == n % 2
  {
  }

  // Reading undoes packing, for every entry.
  lemma {:induction false} UnpackPack(entries: seq<Entry>, n: nat)
    requires n < |entries|
    ensures InTable(Pack(entries), n) && EntryAt(Pack(entries), n) == entries[n]
    decreases n
  {
    if |entries| > 1 {
      var a, b := entries[0], entries[1];
      var head := [a % 0x100, a / 0x100 + 0x10 * (b % 0x10), b / 0x10];
      assert Pack(entries) == head + Pack(entries[2..]);
      if n >= 2 {
        UnpackPack(entries[2..], n - 2);
        EntryInTail(head, Pack(entries[2..]), n - 2);
      } else {
        FirstTwo(a, b, Pack(entries[2..]));
      }
    } else {
      LoneEntry(entries[0]);
    }
  }

  // ----- chains

  // From cluster chain[0], each entry names the next cluster; the last holds an end marker.
  predicate IsChain(fat: seq<Byte>, chain: seq<nat>) {
    && chain != []
    && InTable(fat, chain[0])
    && var next := EntryAt(fat, chain[0]);
       if next >= END_OF_CHAIN then |chain| == 1
       else |chain| > 1 && chain[1] == next && IsChain(fat, chain[1..])
  }

  // Link by link: the last entry of a chain is one of 0xFF8 to 0xFFF, every other one names the next cluster.
  lemma {:induction false} ChainLinks(fat: seq<Byte>, chain: seq<nat>)
    ensures IsChain(fat, chain) <==>
      && chain != []
      && (forall i :: 0 <= i < |chain| ==> InTable(fat, chain[i]))
      && (forall i :: 0 <= i < |chain| - 1 ==> EntryAt(fat, chain[i]) < 0xFF8 && EntryAt(fat, chain[i]) == chain[i + 1])
      && EntryAt(fat, chain[|chain| - 1]) >= 0xFF8
    decreases |chain|
  {
    if |chain| > 1 {
      var rest := chain[1..];
      ChainLinks(fat, rest);
      assert forall i :: 0 <= i < |rest| ==> rest[i] == chain[i + 1];
      assert forall i :: 1 <= i < |chain| ==> chain[i] == rest[i - 1];
    }
  }

  function Clusters(fat: seq<Byte>): set<nat> {
    set c: nat | c < 0x1000 && InTable(fat, c)
  }

  // Follow the chain, giving up at a cluster that was seen before or has no entry.
  function Follow(fat: seq<Byte>, c: nat, unvisited: set<nat>): (r: Option<seq<nat>>)
    requires unvisited <= Clusters(fat)
    ensures r.Some? ==> IsChain(fat, r.value) && r.value[0] == c && |r.value| <= |unvisited|
    ensures r.Some? ==> forall i :: 0 <= i < |r.value| ==> r.value[i] in unvisited
    decreases |unvisited|
  {
    if c !in unvisited then None
    else
      var next := EntryAt(fat, c);
      if next >= END_OF_CHAIN then
        assert |unvisited - {c}| == |unvisited| - 1;
        Some([c])
      else
        var rest := Follow(fat, next, unvisited - {c});
        if rest.None? then None else Some([c] + rest.value)
  }

  lemma {:induction false} ChainUnique(fat: seq<Byte>, a: seq<nat>, b: seq<nat>)
    requires IsChain(fat, a) && IsChain(fat, b) && a[0] == b[0]
    ensures a == b
    decreases |a|
  {
    if |a| > 1 {
      ChainUnique(fat, a[1..], b[1..]);
      assert a == [a[0]] + a[1..] && b == [b[0]] + b[1..];
    }
  }

  lemma {:induction false} ChainSuffix(fat: seq<Byte>, chain: seq<nat>, i: nat)
    requires IsChain(fat, chain) && i < |chain|
    ensures IsChain(fat, chain[i..])
    ensures i > 0 ==> chain[i] < 0x1000
    decreases i
  {
    if i > 0 {
      ChainSuffix(fat, chain[1..], i - 1);
      assert chain[1..][i - 1..] == chain[i..];
    }
  }

  // A chain that ends visits no cluster twice.
  lemma ChainAcyclic(fat: seq<Byte>, chain: seq<nat>, i: nat, j: nat)
    requires IsChain(fat, chain) && i < j < |chain|
    ensures chain[i] != chain[j]
  {
    ChainSuffix(fat, chain, i);
    ChainSuffix(fat, chain, j);
    if chain[i] == chain[j] {
      ChainUnique(fat, chain[i..], chain[j..]);
    }
  }

  lemma {:induction false} FollowFinds(fat: seq<Byte>, chain: seq<nat>, unvisited: set<nat>)
    requires IsChain(fat, chain) && unvisited <= Clusters(fat)
    requires forall i :: 0 <= i < |chain| ==> chain[i] in unvisited
    ensures Follow(fat, chain[0], unvisited) == Some(chain)
    decreases |chain|
  {
    if |chain| > 1 {
      forall i | 0 <= i < |chain| - 1
        ensures chain[1..][i] in unvisited - {chain[0]}
      {
        ChainAcyclic(fat, chain, 0, i + 1);
      }
      FollowFinds(fat, chain[1..], unvisited - {chain[0]});
      assert chain == [chain[0]] + chain[1..];
    } else {
      assert chain == [chain[0]];
    }
  }

  // The chain from c ends exactly when following it while marking clusters finds its end.
  lemma EndsIffFollowed(fat: seq<Byte>, c: nat)
    requires c < 0x1000
    ensures (exists chain :: IsChain(fat, chain) && chain[0] == c) <==> Follow(fat, c, Clusters(fat)).Some?
  {
    forall chain | IsChain(fat, chain) && chain[0] == c
      ensures Follow(fat, c, Clusters(fat)) == Some(chain)
    {
      forall i | 0 <= i < |chain|
        ensures chain[i] in Clusters(fat)
      {
        ChainSuffix(fat, chain, i);
      }
      FollowFinds(fat, chain, Clusters(fat));
    }
  }

  // ----- the loop

  // What the loop does next: load a cluster, nothing more, or read an entry that the table lacks.
  datatype Turn = At(cluster: nat) | Ended | Outside

  predicate HasEntry(fat: seq<Byte>, c: nat) {
    c < 0x1000 && InTable(fat, c)
  }

  function TurnFrom(fat: seq<Byte>, turn: Turn): Turn {
    if !turn.At? then turn
    else if !HasEntry(fat, turn.cluster) then Outside
    else
      var next := EntryAt(fat, turn.cluster);
      if next >= END_OF_CHAIN then Ended else At(next)
  }

  function Turns(fat: seq<Byte>, turn: Turn, n: nat): Turn
    decreases n
  {
    if n == 0 then turn else Turns(fat, TurnFrom(fat, turn), n - 1)
  }

  // The clusters loaded in n turns.
  function Path(fat: seq<Byte>, turn: Turn, n: nat): seq<nat>
    decreases n
  {
    if n == 0 || !turn.At? then [] else [turn.cluster] + Path(fat, TurnFrom(fat, turn), n - 1)
  }

  // One turn, entry by entry.
  lemma OneTurn(fat: seq<Byte>, c: nat)
    requires c < 0x1000 && InTable(fat, c)
    ensures TurnFrom(fat, At(c)) == if EntryAt(fat, c) >= 0xFF8 then Ended else At(EntryAt(fat, c))
  {
  }

  // The clusters loaded are those the turns come to, until the loop ends or leaves the table.
  lemma {:induction false} PathIsTurns(fat: seq<Byte>, turn: Turn, n: nat)
    ensures var path := Path(fat, turn, n);
      && |path| <= n && (|path| < n ==> !Turns(fat, turn, |path|).At?)
      && forall i :: 0 <= i < |path| ==> Turns(fat, turn, i) == At(path[i])
    decreases n
  {
    if n > 0 && turn.At? {
      var next := TurnFrom(fat, turn);
      PathIsTurns(fat, next, n - 1);
      var path, rest := Path(fat, turn, n), Path(fat, next, n - 1);
      forall i | 0 <= i < |path|
        ensures Turns(fat, turn, i) == At(path[i])
      {
        assert i > 0 ==> path[i] == rest[i - 1] && Turns(fat, turn, i) == Turns(fat, next, i - 1);
      }
    }
  }

  lemma {:induction false} TurnsOfChain(fat: seq<Byte>, chain: seq<nat>)
    requires IsChain(fat, chain) && chain[0] < 0x1000
    ensures Turns(fat, At(chain[0]), |chain|) == Ended
    ensures Path(fat, At(chain[0]), |chain|) == chain
    decreases |chain|
  {
    var next := TurnFrom(fat, At(chain[0]));
    if |chain| > 1 {
      TurnsOfChain(fat, chain[1..]);
      assert chain == [chain[0]] + chain[1..];
    } else {
      assert Turns(fat, next, 0) == Ended && Path(fat, next, 0) == [];
    }
  }

  lemma {:induction false} NotAtStays(fat: seq<Byte>, turn: Turn, n: nat)
    requires !turn.At?
    ensures Turns(fat, turn, n) == turn
    decreases n
  {
    if n > 0 {
      NotAtStays(fat, turn, n - 1);
    }
  }

  lemma {:induction false} EndedIsChain(fat: seq<Byte>, c: nat, n: nat) returns (chain: seq<nat>)
    requires Turns(fat, At(c), n) == Ended
    ensures IsChain(fat, chain) && chain[0] == c && c < 0x1000
    decreases n
  {
    var next := TurnFrom(fat, At(c));
    if next.At? {
      var rest := EndedIsChain(fat, next.cluster, n - 1);
      chain := [c] + rest;
      assert chain[1..] == rest;
    } else {
      NotAtStays(fat, next, n - 1);
      chain := [c];
    }
  }

  // The loop ends in the table exactly when following the chain finds its end; what it has loaded by then
  // is that chain, and it takes no more turns than the table has clusters.
  lemma LoopEndsIff(fat: seq<Byte>, c: nat)
    ensures (exists n :: Turns(fat, At(c), n) == Ended) <==> Follow(fat, c, Clusters(fat)).Some?
    ensures var r := Follow(fat, c, Clusters(fat));
      r.Some? ==>
        && |r.value| <= |Clusters(fat)|
        && Turns(fat, At(c), |r.value|) == Ended && Path(fat, At(c), |r.value|) == r.value
  {
    var r := Follow(fat, c, Clusters(fat));
    if r.Some? {
      assert c in Clusters(fat);
      TurnsOfChain(fat, r.value);
    }
    forall n | Turns(fat, At(c), n) == Ended
      ensures r.Some?
    {
      var chain := EndedIsChain(fat, c, n);
      EndsIffFollowed(fat, c);
    }
  }

  // A loop that never leaves the table runs for ever exactly when following finds no end.
  lemma RunsForeverIff(fat: seq<Byte>, c: nat)
    requires forall n: nat :: Turns(fat, At(c), n) != Outside
    ensures (forall n: nat :: Turns(fat, At(c), n).At?) <==> Follow(fat, c, Clusters(fat)).None?
  {
    LoopEndsIff(fat, c);
  }

  // Every entry is an end marker or names a cluster that has an entry.
  predicate Closed(fat: seq<Byte>) {
    forall d: nat :: d < 0x1000 && InTable(fat, d) ==> EntryAt(fat, d) >= END_OF_CHAIN || InTable(fat, EntryAt(fat, d))
  }

  lemma {:induction false} ClosedStays(fat: seq<Byte>, c: nat, n: nat)
    requires Closed(fat) && HasEntry(fat, c)
    ensures Turns(fat, At(c), n) != Outside
    decreases n
  {
    if n > 0 {
      var next := TurnFrom(fat, At(c));
      if next.At? {
        ClosedStays(fat, next.cluster, n - 1);
      } else {
        NotAtStays(fat, next, n - 1);
      }
    }
  }

  // The second turn leaves the table at an entry that names no cluster of it.
  lemma LeavesInTwo(fat: seq<Byte>, d: nat)
    requires HasEntry(fat, d) && EntryAt(fat, d) < END_OF_CHAIN && !InTable(fat, EntryAt(fat, d))
    ensures Turns(fat, At(d), 2) == Outside
  {
    var next := TurnFrom(fat, At(d));
    assert Turns(fat, At(d), 2) == Turns(fat, next, 1) == Turns(fat, TurnFrom(fat, next), 0);
  }

  // The loop reads the table only, from whatever cluster it starts, exactly if the table is closed.
  lemma StaysInsideIff(fat: seq<Byte>)
    ensures (forall c: nat, n: nat :: HasEntry(fat, c) ==> Turns(fat, At(c), n) != Outside) <==> Closed(fat)
  {
    if Closed(fat) {
      forall c: nat, n: nat | HasEntry(fat, c)
        ensures Turns(fat, At(c), n) != Outside
      {
        ClosedStays(fat, c, n);
      }
    } else {
      var d: nat :| d < 0x1000 && InTable(fat, d) && EntryAt(fat, d) < END_OF_CHAIN && !InTable(fat, EntryAt(fat, d));
      LeavesInTwo(fat, d);
    }
  }

  // A table with an entry for every 12-bit number is never left.
  lemma NeverOutside(fat: seq<Byte>, c: nat, n: nat)
    requires c < 0x1000 && forall d: nat :: d < 0x1000 ==> InTable(fat, d)
    ensures Turns(fat, At(c), n) != Outside
  {
    ClosedStays(fat, c, n);
  }

  // The nine sectors of a FAT in which cluster 2 names the bad-cluster mark 0xFF7: the second turn reads
  // behind them. With 0xFFFF in the two bytes it reads there, the loop ends on a chain the FAT does not hold.
  lemma BadClusterExample(fat: seq<Byte>, behind: seq<Byte>)
    requires |fat| == 4608 && fat[3] == 0xF7 && fat[4] % 0x10 == 0x0F
    requires |behind| == 1536 && behind[1522] == behind[1523] == 0xFF
    ensures Turns(fat, At(2), 2) == Outside && Follow(fat, 2, Clusters(fat)) == None
    ensures Turns(fat + behind, At(2), 2) == Ended && Path(fat + behind, At(2), 2) == [2, 0xFF7]
  {
    assert EntryAt(fat, 2) == 0xFF7;
    LeavesInTwo(fat, 2);
    assert Follow(fat, 2, Clusters(fat)) == None;
    var table := fat + behind;
    assert table[3] == fat[3] && table[4] == fat[4] && table[6130] == table[6131] == 0xFF;
    assert EntryAt(table, 2) == 0xFF7 && EntryAt(table, 0xFF7) == 0xFFF;
    TurnsOfChain(table, [2, 0xFF7]);
  }

  lemma {:induction false} ChainInLonger(fat: seq<Byte>, table: seq<Byte>, chain: seq<nat>)
    requires fat <= table && IsChain(fat, chain)
    ensures IsChain(table, chain)
    decreases |chain|
  {
    if |chain| > 1 {
      ChainInLonger(fat, table, chain[1..]);
    }
  }

  // Bytes behind the table make no difference to a chain that ends in it.
  lemma FollowInLonger(fat: seq<Byte>, table: seq<Byte>, c: nat)
    requires fat <= table && Follow(fat, c, Clusters(fat)).Some?
    ensures Follow(table, c, Clusters(table)) == Follow(fat, c, Clusters(fat))
  {
    var chain := Follow(fat, c, Clusters(fat)).value;
    ChainInLonger(fat, table, chain);
    FollowFinds(table, chain, Clusters(table));
  }

  // In a list of entries: the cluster names the next one, or ends the chain.
  predicate Linked(entries: seq<Entry>, chain: seq<nat>, i: nat)
    requires i < |chain| && chain[i] < |entries|
  {
    if i == |chain| - 1 then entries[chain[i]] >= 0xFF8 else entries[chain[i]] == chain[i + 1] && chain[i + 1] < 0xFF8
  }

  lemma {:induction false} LinkedIsChain(entries: seq<Entry>, chain: seq<nat>)
    requires chain != [] && forall i :: 0 <= i < |chain| ==> chain[i] < |entries| && Linked(entries, chain, i)
    ensures IsChain(Pack(entries), chain)
    decreases |chain|
  {
    UnpackPack(entries, chain[0]);
    assert Linked(entries, chain, 0);
    if |chain| > 1 {
      var rest := chain[1..];
      forall i | 0 <= i < |rest|
        ensures rest[i] < |entries| && Linked(entries, rest, i)
      {
        assert Linked(entries, chain, i + 1);
      }
      LinkedIsChain(entries, rest);
    }
  }

  // A packed table whose entries link the clusters of a chain up to an end marker: it is the chain that is found.
  lemma PackedChain(entries: seq<Entry>, chain: seq<nat>)
    requires chain != [] && |entries| <= 0x1000
    requires forall i :: 0 <= i < |chain| ==> chain[i] < |entries| && Linked(entries, chain, i)
    ensures var fat := Pack(entries); Follow(fat, chain[0], Clusters(fat)) == Some(chain)
  {
    LinkedIsChain(entries, chain);
    forall i | 0 <= i < |chain|
      ensures chain[i] in Clusters(Pack(entries))
    {
      UnpackPack(entries, chain[i]);
    }
    FollowFinds(Pack(entries), chain, Clusters(Pack(entries)));
  }
}
