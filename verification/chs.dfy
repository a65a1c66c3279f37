/** boot/x86/stage0/utils.asm, lba_to_chs: a linear sector number to the registers of INT 13h. */
module Chs {
  import opened Bits

  // Sectors per track and heads, as the BIOS parameter block gives them.
  datatype Geometry = Geometry(sectors: nat, heads: nat)
  {
    ghost predicate Valid() { 1 <= sectors <= 63 && 1 <= heads <= 256 }
  }

  datatype Registers = Registers(cl: Byte, ch: Byte, dh: Byte)

  // What INT 13h understands: the two top bits of CL extend the cylinder in CH.
  function Cylinder(r: Registers): nat { r.ch + 0x100 * (r.cl / 0x40) }
  function Head(r: Registers): nat { r.dh }
  function Sector(r: Registers): nat { r.cl % 0x40 }

  function LbaOf(r: Registers, g: Geometry): int {
    (Cylinder(r) * g.heads + Head(r)) * g.sectors + Sector(r) - 1
  }

  function Convert(lba: Word16, g: Geometry): Registers
    requires g.Valid()
  {
    QuotientsFit(lba, g);
    var cylinder := lba / g.sectors / g.heads;
    Registers(lba % g.sectors + 1 + cylinder / 0x100 % 4 * 0x40, cylinder % 0x100, lba / g.sectors % g.heads)
  }

  // or cl, ah: the two bits of the cylinder go above the sector number
  method OrIntoCl(cl: Byte, ah: Byte) returns (r: Byte)
    requires cl < 0x40 && ah % 0x40 == 0
    ensures r == cl + ah
  {
    assert Pow2(6) == 0x40;
    OrDisjoint(ah, cl, 6);
    OrCommutes(ah, cl);
    r := Or(cl, ah);
  }

  // The register moves at the end: sector in CX, head in DX, cylinder in AX.
  method PackRegisters(ax: Word16, cx: Word16, dx: Word16) returns (r: Registers)
    requires cx < 0x40 && dx < 0x100
    ensures r == Registers(cx + ax / 0x100 % 4 * 0x40, ax % 0x100, dx)
  {
    var dh := dx % 0x100;
    var al, ah := ax % 0x100, ax / 0x100;
    var ch := al;
    ah := ah * 0x40 % 0x100;
    var cl := cx % 0x100;
    cl := OrIntoCl(cl, ah);
    r := Registers(cl, ch, dh);
  }

  method LbaToChs(lba: Word16, g: Geometry) returns (r: Registers)
    requires g.Valid()
    ensures r == Convert(lba, g)
  {
    QuotientsFit(lba, g);
    var ax, dx := lba / g.sectors, lba % g.sectors;
    dx := dx + 1;
    var cx := dx;
    ax, dx := ax / g.heads, ax % g.heads;
    r := PackRegisters(ax, cx, dx);
  }

  // CL and CH taken apart again.
  lemma SplitCl(sector: nat, cylinder: nat)
    requires sector < 0x40
    ensures var cl := sector + cylinder / 0x100 % 4 * 0x40;
      && cl < 0x100 && cl % 0x40 == sector
      && cylinder % 0x100 + 0x100 * (cl / 0x40) == cylinder % 1024
  {
    var q := cylinder / 0x100 % 4;
    DivModUnique(q * 0x40 + sector, 0x40, q, sector);
    DivModUnique(cylinder, 1024, cylinder / 0x400, 0x100 * q + cylinder % 0x100);
  }

  // INT 13h reads the sector that was asked for exactly when the cylinder has at most ten bits.
  lemma ConvertIsExact(lba: Word16, g: Geometry)
    requires g.Valid()
    ensures var r := Convert(lba, g);
      && 1 <= Sector(r) <= g.sectors && Head(r) < g.heads
      && (LbaOf(r, g) == lba <==> lba / g.sectors / g.heads < 1024)
  {
    QuotientsFit(lba, g);
    var r, cylinder := Convert(lba, g), lba / g.sectors / g.heads;
    SplitCl(lba % g.sectors + 1, cylinder);
    Recombine(lba, g, cylinder, Head(r), Sector(r) - 1, Cylinder(r));
  }

  // Two sectors in reach never share registers.
  lemma ConvertInjective(a: Word16, b: Word16, g: Geometry)
    requires g.Valid() && a / g.sectors / g.heads < 1024 && b / g.sectors / g.heads < 1024
    ensures Convert(a, g) == Convert(b, g) ==> a == b
  {
    ConvertIsExact(a, g);
    ConvertIsExact(b, g);
  }

  lemma QuotientsFit(lba: Word16, g: Geometry)
    requires g.Valid()
    ensures 0 <= lba / g.sectors <= lba && 0 <= lba % g.sectors < g.sectors
    ensures var track := lba / g.sectors; 0 <= track / g.heads <= track && 0 <= track % g.heads < g.heads
  {
    DivAtMost(lba, g.sectors);
    DivAtMost(lba / g.sectors, g.heads);
  }

  lemma DivAtMost(x: nat, m: nat)
    requires m > 0
    ensures x / m <= x
  {
    var q := x / m;
    assert x == q * m + x % m;
    MulMono(1, m, q);
    assert m * q == q * m;
  }

  // Cylinder, head and sector put together again; a cylinder cut to ten bits gives another sector.
  lemma Recombine(lba: nat, g: Geometry, cylinder: nat, head: nat, sector: nat, cut: nat)
    requires g.Valid() && cut == cylinder % 1024
    requires sector == lba % g.sectors && head == lba / g.sectors % g.heads && cylinder == lba / g.sectors / g.heads
    ensures (cut * g.heads + head) * g.sectors + sector == lba <==> cylinder < 1024
  {
    var track := lba / g.sectors;
    assert lba == track * g.sectors + sector;
    assert track == cylinder * g.heads + head;
    if cylinder >= 1024 {
      assert cut < cylinder;
      MulMono(cut + 1, cylinder, g.heads);
      var track' := cut * g.heads + head;
      assert (cut + 1) * g.heads == cut * g.heads + g.heads;
      MulMono(track' + 1, track, g.sectors);
      assert (track' + 1) * g.sectors == track' * g.sectors + g.sectors;
    }
  }
}
