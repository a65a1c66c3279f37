/** arch/x86/i8259.c over a model of the two cascaded 8259A controllers (Intel 8259A data sheet):
    initialization words, mask registers, in-service registers, non-specific end of interrupt. */
module Pic8259 {
  import opened Bits

  // A register, bit 0 first.
  type Reg = s: seq<bool> | |s| == 8 witness seq(8, _ => false)

  function ByteBits(n: Byte): Reg {
    [n % 2 == 1, n / 2 % 2 == 1, n / 4 % 2 == 1, n / 8 % 2 == 1,
     n / 16 % 2 == 1, n / 32 % 2 == 1, n / 64 % 2 == 1, n / 128 % 2 == 1]
  }

  function BitOr(a: Reg, b: Reg): Reg {
    seq(8, i requires 0 <= i < 8 => a[i] || b[i])
  }

  // a & ~b
  function BitAndNot(a: Reg, b: Reg): Reg {
    seq(8, i requires 0 <= i < 8 => a[i] && !b[i])
  }

  datatype InitWord = BaseWord | CascadeWord | ModeWord

  // `expected` are the initialization words a chip still waits for on its data port.
  datatype Chip = Chip(imr: Reg, isr: Reg, base: Reg, cascade: Reg, mode: Reg, expected: seq<InitWord>)

  datatype Pics = Pics(master: Chip, slave: Chip)

  const CASCADE: nat := 2
  const LINES: nat := 16
  const NONE := ByteBits(0)
  const ALL := ByteBits(0xFF)

  // After initialization: vectors 0x20..0x2F, the slave on line 2, nothing in service, every line masked.
  const INITIAL := Pics(Chip(ALL, NONE, ByteBits(0x20), ByteBits(0x04), ByteBits(0x01), []),
                        Chip(ALL, NONE, ByteBits(0x28), ByteBits(0x02), ByteBits(0x01), []))

  lemma AllAndNone()
    ensures forall i :: 0 <= i < 8 ==> ALL[i] && !NONE[i]
  {
  }

  // ----- the chip

  // The set bit of highest priority, or 8.
  function Highest(isr: Reg, from: nat): (line: nat)
    requires from <= 8
    ensures from <= line <= 8
    ensures forall i :: from <= i < line ==> !isr[i]
    ensures line < 8 ==> isr[line]
    decreases 8 - from
  {
    if from == 8 || isr[from] then from else Highest(isr, from + 1)
  }

  function ClearHighest(isr: Reg): Reg {
    var line := Highest(isr, 0);
    if line == 8 then isr else isr[line := false]
  }

  // A command: bit 4 restarts initialization, in which bit 1 says that there is no cascade and bit 0 that a mode
  // word follows; 0x20 ends the highest-priority interrupt in service.
  function Command(c: Chip, value: Byte): Chip {
    if value / 0x10 % 2 == 1 then
      c.(imr := NONE, isr := NONE, expected := [BaseWord] + (if value / 2 % 2 == 0 then [CascadeWord] else [])
                                               + (if value % 2 == 1 then [ModeWord] else []))
    else if value == 0x20 then c.(isr := ClearHighest(c.isr))
    else c
  }

  // A data byte: the initialization words that are expected, and from then on the mask.
  function Data(c: Chip, value: Reg): Chip {
    if c.expected == [] then c.(imr := value)
    else
      var c' := c.(expected := c.expected[1..]);
      match c.expected[0]
      case BaseWord => c'.(base := value[0 := false][1 := false][2 := false])
      case CascadeWord => c'.(cascade := value)
      case ModeWord => c'.(mode := value)
  }

  // The CPU accepts an interrupt on a line.
  function Acknowledge(p: Pics, irq: nat): Pics
    requires irq < LINES
  {
    if irq < 8 then p.(master := p.master.(isr := p.master.isr[irq := true]))
    else Pics(p.master.(isr := p.master.isr[CASCADE := true]), p.slave.(isr := p.slave.isr[irq - 8 := true]))
  }

  predicate Masked(p: Pics, irq: nat)
    requires irq < LINES
  {
    if irq < 8 then p.master.imr[irq] else p.slave.imr[irq - 8]
  }

  // No line of this or a higher priority is in service.
  predicate Above(isr: Reg, line: nat)
    requires line < 8
  {
    forall i :: 0 <= i <= line ==> !isr[i]
  }

  // The line gets through the masks and has priority; line 2 of the master carries the slave only.
  predicate Deliverable(p: Pics, irq: nat)
    requires irq < LINES
  {
    && irq != CASCADE && !Masked(p, irq)
    && (if irq < 8 then Above(p.master.isr, irq)
        else !Masked(p, CASCADE) && Above(p.master.isr, CASCADE) && Above(p.slave.isr, irq - 8))
  }

  ghost predicate Ready(p: Pics) {
    p.master.expected == [] && p.slave.expected == []
  }

  // ----- the driver, as functions

  function SendEoi(p: Pics, irq: int): Pics {
    var p' := if irq >= 8 then p.(slave := Command(p.slave, 0x20)) else p;
    p'.(master := Command(p'.master, 0x20))
  }

  function Imr(p: Pics, irq: nat): Reg {
    if irq < 8 then p.master.imr else p.slave.imr
  }

  function SetImr(p: Pics, irq: nat, value: Reg): Pics {
    if irq < 8 then p.(master := p.master.(imr := value)) else p.(slave := p.slave.(imr := value))
  }

  function Unmask(p: Pics, irq: nat): Pics
    requires irq < LINES
  {
    SetImr(p, irq, Imr(p, irq)[if irq < 8 then irq else irq - 8 := false])
  }

  function Mask(p: Pics, irq: nat): Pics
    requires irq < LINES
  {
    SetImr(p, irq, Imr(p, irq)[if irq < 8 then irq else irq - 8 := true])
  }

  // Masking and unmasking touch their own line only, of the sixteen.
  lemma MaskFrame(p: Pics, irq: nat, other: nat)
    requires irq < LINES && other < LINES
    ensures Masked(Unmask(p, irq), other) == (other != irq && Masked(p, other))
    ensures Masked(Mask(p, irq), other) == (other == irq || Masked(p, other))
    ensures forall q :: q == Mask(p, irq) || q == Unmask(p, irq) ==>
      q.master.(imr := p.master.imr) == p.master && q.slave.(imr := p.slave.imr) == p.slave
  {
  }

  // ----- what initialization means for the CPU

  function BitValue(b: bool): nat {
    if b then 1 else 0
  }

  function RegValue(r: Reg): nat {
    BitValue(r[0]) + 2 * BitValue(r[1]) + 4 * BitValue(r[2]) + 8 * BitValue(r[3])
    + 16 * BitValue(r[4]) + 32 * BitValue(r[5]) + 64 * BitValue(r[6]) + 128 * BitValue(r[7])
  }

  // One more bit off the right
  lemma HalveOnce(n: nat, m: nat)
    requires m > 0
    ensures n / m == n / m % 2 + 2 * (n / (2 * m))
  {
    var q, r := n / m, n % m;
    var h, b := q / 2, q % 2;
    assert n == q * m + r == h * (2 * m) + (b * m + r);
    assert b == 0 || b == 1;
    DivModUnique(n, 2 * m, h, b * m + r);
  }

  lemma LowNibbleAdd(n: Byte)
    ensures n == n % 2 + 2 * (n / 2 % 2) + 4 * (n / 4 % 2) + 8 * (n / 8 % 2) + 16 * (n / 16)
  {
    HalveOnce(n, 2);
    HalveOnce(n, 4);
    HalveOnce(n, 8);
  }

  lemma HighNibbleAdd(n: Byte)
    ensures n / 16 == n / 16 % 2 + 2 * (n / 32 % 2) + 4 * (n / 64 % 2) + 8 * (n / 128 % 2)
  {
    HalveOnce(n, 16);
    HalveOnce(n, 32);
    HalveOnce(n, 64);
  }

  lemma BitsAdd(n: Byte)
    ensures n == n % 2 + 2 * (n / 2 % 2) + 4 * (n / 4 % 2) + 8 * (n / 8 % 2)
              + 16 * (n / 16 % 2) + 32 * (n / 32 % 2) + 64 * (n / 64 % 2) + 128 * (n / 128 % 2)
  {
    LowNibbleAdd(n);
    HighNibbleAdd(n);
  }

  lemma ByteBitsValue(n: Byte)
    ensures RegValue(ByteBits(n)) == n
  {
    BitsAdd(n);
    var r := ByteBits(n);
    BitOf(n);
    BitOf(n / 2);
    BitOf(n / 4);
    BitOf(n / 8);
    BitOf(n / 16);
    BitOf(n / 32);
    BitOf(n / 64);
    BitOf(n / 128);
    assert r[0] == (n % 2 == 1) && r[1] == (n / 2 % 2 == 1) && r[2] == (n / 4 % 2 == 1) && r[3] == (n / 8 % 2 == 1);
    assert r[4] == (n / 16 % 2 == 1) && r[5] == (n / 32 % 2 == 1) && r[6] == (n / 64 % 2 == 1) && r[7] == (n / 128 % 2 == 1);
  }

  lemma BitOf(x: nat)
    ensures BitValue(x % 2 == 1) == x % 2
  {
  }

  // The number under which a line is delivered: the base of its chip, the line in the low three bits.
  function Vector(p: Pics, irq: nat): nat
    requires irq < LINES
  {
    if irq < 8 then RegValue(p.master.base) / 8 * 8 + irq else RegValue(p.slave.base) / 8 * 8 + (irq - 8)
  }

  // Line irq is delivered at vector 0x20 + irq, the master expects the slave on its line 2, the slave has identity 2,
  // and both work in 8086 mode with ordinary ends of interrupts.
  lemma InitialVectors(irq: nat)
    requires irq < LINES
    ensures Vector(INITIAL, irq) == 0x20 + irq
    ensures forall i :: 0 <= i < 8 ==> (INITIAL.master.cascade[i] <==> i == CASCADE)
    ensures RegValue(INITIAL.slave.cascade) == CASCADE
    ensures RegValue(INITIAL.master.mode) == RegValue(INITIAL.slave.mode) == 1
  {
    ByteBitsValue(0x20);
    ByteBitsValue(0x28);
    ByteBitsValue(0x02);
    ByteBitsValue(0x01);
  }

  // The priority of a line on the master: all lines of the slave have that of line 2.
  function Rank(irq: nat): nat {
    if irq < 8 then irq else CASCADE
  }

  // While one line is in service, of the others those of a higher priority get through and no others, so nor do lines
  // of the slave while one of them is.
  lemma PriorityRule(p: Pics, a: nat, b: nat)
    requires a < LINES && b < LINES && forall i :: 0 <= i < 8 ==> !p.master.isr[i] && !p.slave.isr[i]
    ensures Deliverable(Acknowledge(p, a), b) <==> Deliverable(p, b) && Rank(b) < Rank(a)
  {
    var q := Acknowledge(p, a);
    assert q.master.isr[Rank(a)];
  }

  // ----- end of interrupt

  lemma HighestIs(isr: Reg, line: nat)
    requires line < 8 && isr[line] && forall i :: 0 <= i < line ==> !isr[i]
    ensures Highest(isr, 0) == line
  {
    var h := Highest(isr, 0);
    assert h == 8 || isr[h];
  }

  // On one chip: if the line has priority, its end-of-interrupt clears just its bit.
  lemma ChipEoi(c: Chip, line: nat)
    requires line < 8 && Above(c.isr, line)
    ensures Command(c.(isr := c.isr[line := true]), 0x20) == c
  {
    var isr := c.isr[line := true];
    HighestIs(isr, line);
    assert isr[line := false] == c.isr;
  }

  // Whatever is in service, an interrupt that has priority is removed again by its own end-of-interrupt.
  lemma EoiUndoesAcknowledge(p: Pics, irq: nat)
    requires irq < LINES && Deliverable(p, irq)
    ensures SendEoi(Acknowledge(p, irq), irq) == p
  {
    if irq < 8 {
      ChipEoi(p.master, irq);
    } else {
      ChipEoi(p.master, CASCADE);
      ChipEoi(p.slave, irq - 8);
    }
  }

  lemma EoiHarmless(c: Chip)
    ensures Command(c, 0x20) == c <==> forall i :: 0 <= i < 8 ==> !c.isr[i]
  {
    var line := Highest(c.isr, 0);
    if line < 8 {
      assert c.isr[line := false][line] != c.isr[line];
    }
  }

  // A spurious interrupt of the master sets no in-service bit; its end-of-interrupt is harmless
  // exactly when nothing is in service there.
  lemma SpuriousMaster(p: Pics)
    ensures SendEoi(p, 7) == p <==> forall i :: 0 <= i < 8 ==> !p.master.isr[i]
  {
    EoiHarmless(p.master);
  }

  // A spurious interrupt of the slave sets the cascade bit only.
  lemma SpuriousSlave(p: Pics)
    requires Above(p.master.isr, CASCADE)
    ensures SendEoi(p.(master := p.master.(isr := p.master.isr[CASCADE := true])), 15) == p
       <==> forall i :: 0 <= i < 8 ==> !p.slave.isr[i]
  {
    ChipEoi(p.master, CASCADE);
    EoiHarmless(p.slave);
  }

  // ----- the driver, over the ports

  class Ports {
    var pics: Pics

    constructor (p: Pics)
      ensures pics == p
    {
      pics := p;
    }

    // A command byte to port 0x20 or 0xA0, a data byte to port 0x21 or 0xA1
    method OutbCommand(port: int, value: Byte)
      requires port == 0x20 || port == 0xA0
      modifies this
      ensures pics == if port == 0x20 then old(pics).(master := Command(old(pics).master, value))
                      else old(pics).(slave := Command(old(pics).slave, value))
    {
      if port == 0x20 {
        pics := pics.(master := Command(pics.master, value));
      } else {
        pics := pics.(slave := Command(pics.slave, value));
      }
    }

    method OutbData(port: int, value: Reg)
      requires port == 0x21 || port == 0xA1
      modifies this
      ensures pics == if port == 0x21 then old(pics).(master := Data(old(pics).master, value))
                      else old(pics).(slave := Data(old(pics).slave, value))
    {
      if port == 0x21 {
        pics := pics.(master := Data(pics.master, value));
      } else {
        pics := pics.(slave := Data(pics.slave, value));
      }
    }

    // Reading a data port gives the mask register.
    method Inb(port: int) returns (value: Reg)
      requires port == 0x21 || port == 0xA1
      ensures value == if port == 0x21 then pics.master.imr else pics.slave.imr
    {
      value := if port == 0x21 then pics.master.imr else pics.slave.imr;
    }

    method Init()
      modifies this
      ensures pics == INITIAL
    {
      var base1, base2 := ByteBits(0x20), ByteBits(0x28);
      AlignedBase(base1);
      AlignedBase(base2);
      OutbCommand(0x20, 0x11);
      OutbCommand(0xA0, 0x11);
      assert pics.master.expected == pics.slave.expected == [BaseWord, CascadeWord, ModeWord];
      OutbData(0x21, base1);
      OutbData(0xA1, base2);
      OutbData(0x21, ByteBits(0x04));
      OutbData(0xA1, ByteBits(0x02));
      OutbData(0x21, ByteBits(0x01));
      OutbData(0xA1, ByteBits(0x01));
      assert pics == Pics(Chip(NONE, NONE, base1, ByteBits(0x04), ByteBits(0x01), []),
                          Chip(NONE, NONE, base2, ByteBits(0x02), ByteBits(0x01), []));
      MaskAll();
    }

    method MaskAll()
      requires Ready(pics)
      modifies this
      ensures pics == Pics(old(pics).master.(imr := ALL), old(pics).slave.(imr := ALL))
    {
      OutbData(0x21, ALL);
      OutbData(0xA1, ALL);
    }

    method MaskIrq(irq: nat)
      requires Ready(pics) && irq < LINES
      modifies this
      ensures pics == Mask(old(pics), irq)
    {
      var port, line := 0x21, irq;
      if irq >= 8 {
        port, line := 0xA1, irq - 8;
      }
      var value := Inb(port);
      OneBit(value, line);
      value := BitOr(value, ByteBits(OneShifted(line)));
      OutbData(port, value);
    }

    method UnmaskIrq(irq: nat)
      requires Ready(pics) && irq < LINES
      modifies this
      ensures pics == Unmask(old(pics), irq)
    {
      var port, line := 0x21, irq;
      if irq >= 8 {
        port, line := 0xA1, irq - 8;
      }
      var value := Inb(port);
      OneBit(value, line);
      value := BitAndNot(value, ByteBits(OneShifted(line)));
      OutbData(port, value);
    }

    method EndOfInterrupt(irq: int)
      modifies this
      ensures pics == SendEoi(old(pics), irq)
    {
      if irq >= 8 {
        OutbCommand(0xA0, 0x20);
      }
      OutbCommand(0x20, 0x20);
    }
  }

  lemma AlignedBase(base: Reg)
    requires !base[0] && !base[1] && !base[2]
    ensures base[0 := false][1 := false][2 := false] == base
  {
  }

  // 1 << line
  function OneShifted(line: nat): Byte
    requires line < 8
  {
    match line
    case 0 => 1
    case 1 => 2
    case 2 => 4
    case 3 => 8
    case 4 => 16
    case 5 => 32
    case 6 => 64
    case _ => 128
  }

  lemma OneShiftedIs(line: nat)
    requires line < 8
    ensures OneShifted(line) == Pow2(line)
  {
    assert Pow2(1) == 2 && Pow2(2) == 4 && Pow2(3) == 8 && Pow2(4) == 16 && Pow2(5) == 32 && Pow2(6) == 64 && Pow2(7) == 128;
  }

  lemma OneShiftedBits(line: nat, i: nat)
    requires line < 8 && i < 8
    ensures ByteBits(OneShifted(line))[i] == (i == line)
  {
  }

  // `value |= 1 << line` and `value &= ~(1 << line)` change one bit.
  lemma OneBit(value: Reg, line: nat)
    requires line < 8
    ensures BitOr(value, ByteBits(OneShifted(line))) == value[line := true]
    ensures BitAndNot(value, ByteBits(OneShifted(line))) == value[line := false]
  {
    forall i: nat | i < 8
      ensures ByteBits(OneShifted(line))[i] == (i == line)
    {
      OneShiftedBits(line, i);
    }
  }
}
