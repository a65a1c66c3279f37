/** boot/x86/stage1/utils_protected_mode.asm, set_up_paging: three page tables built with 32-bit
    stores, and the hardware walk over what the stores leave in memory. */
module Paging {
  import opened Bits

  const PAGE_TABLE_SIZE: Word32 := 4096
  const L4_ADDRESS: Word32 := 0x1000
  const L3_ADDRESS: Word32 := 0x2000
  const L2_ADDRESS: Word32 := 0x3000
  const PRESENT_WRITABLE: Byte := 3
  const HUGE_PRESENT_WRITABLE: Byte := 0x83
  const HUGE_PAGE: Word32 := 0x20_0000

  // ----- the walk of 4-level paging (Intel SDM volume 3A, section 4.5)

  datatype Walk = Mapped(physical: nat, writable: bool) | NotPresent | ReservedBit | BeyondMemory

  predicate Flag(entry: nat, bit: nat)
    requires bit > 0
  {
    entry / bit % 2 == 1
  }

  predicate P(entry: nat) { Flag(entry, 1) }
  predicate RW(entry: nat) { Flag(entry, 2) }
  predicate PS(entry: nat) { Flag(entry, 0x80) }

  // Bits 51:12 of an entry or of CR3.
  function Frame(entry: nat): nat {
    entry / 0x1000 % 0x100_0000_0000 * 0x1000
  }

  // The index-th entry of the table at `table`, as two little-endian 32-bit words of memory.
  predicate InMemory(mem: seq<Word32>, table: nat, index: nat) {
    (table + 8 * index) / 4 + 1 < |mem|
  }

  function Entry(mem: seq<Word32>, table: nat, index: nat): nat
    requires InMemory(mem, table, index)
  {
    var k := (table + 8 * index) / 4;
    mem[k] as int + 0x1_0000_0000 * (mem[k + 1] as int)
  }

  function WalkFrom(mem: seq<Word32>, cr3: nat, va: nat): Walk {
    var i4 := va / 0x80_0000_0000 % 512;
    if !InMemory(mem, Frame(cr3), i4) then BeyondMemory
    else
      var e4 := Entry(mem, Frame(cr3), i4);
      if !P(e4) then NotPresent
      else if PS(e4) then ReservedBit
      else WalkL3(mem, Frame(e4), RW(e4), va)
  }

  function WalkL3(mem: seq<Word32>, table: nat, writable: bool, va: nat): Walk {
    var i3 := va / 0x4000_0000 % 512;
    if !InMemory(mem, table, i3) then BeyondMemory
    else
      var e3 := Entry(mem, table, i3);
      if !P(e3) then NotPresent
      else if PS(e3) then
        if e3 / 0x2000 % 0x2_0000 != 0 then ReservedBit
        else Mapped(e3 / 0x4000_0000 % 0x40_0000 * 0x4000_0000 + va % 0x4000_0000, writable && RW(e3))
      else WalkL2(mem, Frame(e3), writable && RW(e3), va)
  }

  function WalkL2(mem: seq<Word32>, table: nat, writable: bool, va: nat): Walk {
    var i2 := va / 0x20_0000 % 512;
    if !InMemory(mem, table, i2) then BeyondMemory
    else
      var e2 := Entry(mem, table, i2);
      if !P(e2) then NotPresent
      else if PS(e2) then
        if e2 / 0x2000 % 0x100 != 0 then ReservedBit
        else Mapped(e2 / 0x20_0000 % 0x8000_0000 * 0x20_0000 + va % 0x20_0000, writable && RW(e2))
      else WalkL1(mem, Frame(e2), writable && RW(e2), va)
  }

  function WalkL1(mem: seq<Word32>, table: nat, writable: bool, va: nat): Walk {
    var i1 := va / 0x1000 % 512;
    if !InMemory(mem, table, i1) then BeyondMemory
    else
      var e1 := Entry(mem, table, i1);
      if !P(e1) then NotPresent else Mapped(Frame(e1) + va % 0x1000, writable && RW(e1))
  }

  // ----- the tables

  // The word at word-address k of the 16 KiB that are cleared and filled.
  function TableWord(k: nat): Word32
    requires 0x400 <= k < 0x1400
  {
    if k == 0x400 then 0x2003
    else if k == 0x800 then 0x3003
    else if 0xC00 <= k < 0x1000 && k % 2 == 0 then (k - 0xC00) / 2 * HUGE_PAGE + HUGE_PRESENT_WRITABLE
    else 0
  }

  ghost predicate HasTables(mem: seq<Word32>) {
    |mem| >= 0x1400 && forall k :: 0x400 <= k < 0x1400 ==> mem[k] == TableWord(k)
  }

  // An entry of the L2 table: page i, present, writable, huge.
  lemma HugeEntry(i: nat)
    requires i < 512
    ensures var e := i * HUGE_PAGE + HUGE_PRESENT_WRITABLE;
      P(e) && RW(e) && PS(e) && e / 0x2000 % 0x100 == 0 && e / 0x20_0000 % 0x8000_0000 == i
  {
    var e := i * HUGE_PAGE + HUGE_PRESENT_WRITABLE;
    assert e / 0x80 == i * 0x4000 + 1;
    assert e / 0x2000 == i * 0x100;
  }

  lemma EntryIs(mem: seq<Word32>, table: nat, index: nat)
    requires HasTables(mem) && table in {L4_ADDRESS, L3_ADDRESS, L2_ADDRESS} && index < 512
    ensures InMemory(mem, table, index)
    ensures Entry(mem, table, index) ==
      if table == L2_ADDRESS then index * HUGE_PAGE + HUGE_PRESENT_WRITABLE
      else if index > 0 then 0 else table + 0x1003
  {
    var k := (table + 8 * index) / 4;
    assert k == table / 4 + 2 * index;
    assert mem[k] == TableWord(k) && mem[k + 1] == TableWord(k + 1) == 0;
  }

  lemma TableLink()
    ensures P(0x2003) && RW(0x2003) && !PS(0x2003) && Frame(0x2003) == 0x2000
    ensures P(0x3003) && RW(0x3003) && !PS(0x3003) && Frame(0x3003) == 0x3000
    ensures !P(0) && Frame(L4_ADDRESS) == 0x1000
  {
  }

  lemma HugePageWalk(mem: seq<Word32>, va: nat)
    requires HasTables(mem) && va < 0x4000_0000
    ensures WalkL2(mem, L2_ADDRESS, true, va) == Mapped(va, true)
  {
    var i := va / HUGE_PAGE;
    SmallIndex(va);
    EntryIs(mem, L2_ADDRESS, i);
    HugeEntry(i);
  }

  lemma SmallIndex(va: nat)
    requires va < 0x4000_0000
    ensures va / HUGE_PAGE < 512 && va / HUGE_PAGE % 512 == va / HUGE_PAGE
    ensures va / HUGE_PAGE * HUGE_PAGE + va % HUGE_PAGE == va
  {
  }

  lemma FirstTableWalk(mem: seq<Word32>, va: nat)
    requires HasTables(mem) && va < 0x4000_0000
    ensures WalkL3(mem, L3_ADDRESS, true, va) == Mapped(va, true)
  {
    HugePageWalk(mem, va);
    TableLink();
    EntryIs(mem, L3_ADDRESS, 0);
    assert va / 0x4000_0000 % 512 == 0;
  }

  lemma FirstGiBWalk(mem: seq<Word32>, va: nat)
    requires HasTables(mem) && va < 0x4000_0000
    ensures WalkFrom(mem, L4_ADDRESS, va) == Mapped(va, true)
  {
    FirstTableWalk(mem, va);
    TableLink();
    EntryIs(mem, L4_ADDRESS, 0);
    assert va / 0x80_0000_0000 % 512 == 0;
  }

  lemma ElsewhereWalk(mem: seq<Word32>, va: nat)
    requires HasTables(mem) && 0x4000_0000 <= va < 0x1_0000_0000_0000
    ensures WalkFrom(mem, L4_ADDRESS, va) == NotPresent
  {
    TableLink();
    EntryIs(mem, L4_ADDRESS, va / 0x80_0000_0000);
    EntryIs(mem, L3_ADDRESS, va / 0x4000_0000 % 512);
    assert va / 0x80_0000_0000 == 0 ==> va / 0x4000_0000 % 512 > 0;
  }

  // Below 1 GiB every address is mapped to itself, writable; every other 48-bit address is not present.
  lemma IdentityBelowOneGiB(mem: seq<Word32>, va: nat)
    requires HasTables(mem) && va < 0x1_0000_0000_0000
    ensures WalkFrom(mem, L4_ADDRESS, va) == if va < 0x4000_0000 then Mapped(va, true) else NotPresent
  {
    if va < 0x4000_0000 {
      FirstGiBWalk(mem, va);
    } else {
      ElsewhereWalk(mem, va);
    }
  }

  // ----- the code

  class Machine {
    const mem: array<Word32>  // physical memory, in 32-bit words
    var cr3: Word32
    var eax: Word32
    var ecx: Word32
    var edx: Word32
    var edi: Word32

    constructor (mem: array<Word32>)
      ensures this.mem == mem
    {
      this.mem := mem;
      cr3, eax, ecx, edx, edi := 0, 0, 0, 0, 0;
    }

    // rep stosd with the direction flag clear
    method RepStosd()
      requires edi % 4 == 0 && edi / 4 + ecx <= mem.Length && edi + 4 * ecx < 0x1_0000_0000
      modifies this`edi, this`ecx, mem
      ensures ecx == 0 && edi == old(edi) + 4 * old(ecx)
      ensures forall k :: 0 <= k < mem.Length ==>
        mem[k] == if old(edi) / 4 <= k < old(edi) / 4 + old(ecx) then eax else old(mem[k])
    {
      while ecx != 0
        invariant 0 <= ecx <= old(ecx) && edi == old(edi) + 4 * (old(ecx) - ecx)
        invariant forall k :: 0 <= k < mem.Length ==>
          mem[k] == if old(edi) / 4 <= k < edi / 4 then eax else old(mem[k])
      {
        mem[edi / 4] := eax;
        edi := edi + 4;
        ecx := ecx - 1;
      }
    }

    // or eax, flags: all flag bits are below the address bits
    method OrFlags(flags: Byte)
      requires eax % 0x100 == 0
      modifies this`eax
      ensures eax == old(eax) + flags
    {
      OrByte(eax / 0x100, flags);
      eax := Or(eax, flags);
    }

    // mul ecx
    method Mul()
      modifies this`eax, this`edx
      ensures eax as int + 0x1_0000_0000 * (edx as int) == old(eax) * ecx
    {
      MulMono(0, eax, ecx);
      MulMono(eax, 0xFFFF_FFFF, ecx);
      var product := eax * ecx;
      eax, edx := product % 0x1_0000_0000, product / 0x1_0000_0000;
    }

    // The loop tests ecx at its end; it starts at 0, so the first test would succeed anyway.
    method FillL2()
      requires mem.Length >= 0x1400
      modifies this`eax, this`ecx, this`edx, mem
      ensures forall i :: 0 <= i < 512 ==> mem[0xC00 + 2 * i] == i * HUGE_PAGE + HUGE_PRESENT_WRITABLE
      ensures forall k :: 0 <= k < mem.Length && !(0xC00 <= k < 0x1000 && k % 2 == 0) ==> mem[k] == old(mem[k])
    {
      ecx := 0;
      while ecx != 512
        invariant 0 <= ecx <= 512
        invariant forall i :: 0 <= i < ecx ==> mem[0xC00 + 2 * i] == i * HUGE_PAGE + HUGE_PRESENT_WRITABLE
        invariant forall k :: 0 <= k < mem.Length && !(0xC00 <= k < 0x1000 && k % 2 == 0) ==> mem[k] == old(mem[k])
      {
        eax := HUGE_PAGE;
        Mul();
        OrFlags(HUGE_PRESENT_WRITABLE);
        mem[(L2_ADDRESS + ecx * 8) / 4] := eax;
        ecx := ecx + 1;
      }
    }

    // From any contents of memory: the tables are there, and nothing else has changed.
    method SetUpPaging()
      requires mem.Length >= 0x1400
      modifies this, mem
      ensures cr3 == 0x1000 && HasTables(mem[..])
      ensures mem[0x400] == 0x2003 && mem[0x800] == 0x3003
      ensures forall i :: 0 <= i < 512 ==> mem[0xC00 + 2 * i] == 0x20_0000 * i + 0x83
      ensures forall k :: 0x400 <= k < 0x1400 && k != 0x400 && k != 0x800 && !(0xC00 <= k < 0x1000 && k % 2 == 0) ==>
        mem[k] == 0
      ensures forall k :: 0 <= k < mem.Length && !(0x400 <= k < 0x1400) ==> mem[k] == old(mem[k])
    {
      edi := L4_ADDRESS;
      cr3 := edi;
      eax := 0;
      ecx := PAGE_TABLE_SIZE;
      RepStosd();
      edi := cr3;

      eax := L3_ADDRESS;
      OrFlags(PRESENT_WRITABLE);
      mem[L4_ADDRESS / 4] := eax;
      eax := L2_ADDRESS;
      OrFlags(PRESENT_WRITABLE);
      mem[L3_ADDRESS / 4] := eax;
      FillL2();
      forall k | 0x400 <= k < 0x1400
        ensures mem[k] == TableWord(k)
      {
        if 0xC00 <= k < 0x1000 && k % 2 == 0 {
          assert k == 0xC00 + 2 * ((k - 0xC00) / 2);
        }
      }
    }
  }
}
