/** The reference the console is held to: an unbounded sheet that is never copied.
    Cells are numbered in reading order, 80 to a row.  `top` is the first row of the
    25-row window through which the sheet is seen; printing past its last row slides it down. */
module Paper {
  import opened Bits
  import opened Vga

  const NEWLINE: Byte := 10

  datatype Paper = Paper(ink: map<nat, Cell>, pos: nat, top: nat)

  const FRESH := Paper(map[], 0, 0)

  function Ink(p: Paper, k: nat): Cell {
    if k in p.ink then p.ink[k] else BLANK
  }

  // The cursor is inside the window, and nothing has been printed below it.
  ghost predicate Valid(p: Paper) {
    && p.top * COLS <= p.pos < (p.top + ROWS) * COLS
    && forall k :: k in p.ink ==> k < (p.top + ROWS) * COLS
  }

  // What the window shows.
  ghost function View(p: Paper): (v: seq<Cell>)
    ensures |v| == CELLS
    ensures forall k :: 0 <= k < CELLS ==> v[k] == Ink(p, p.top * COLS + k)
  {
    seq(CELLS, k requires 0 <= k < CELLS => Ink(p, p.top * COLS + k))
  }

  function RowEnd(pos: nat): nat {
    (pos / COLS + 1) * COLS
  }

  function Slide(p: Paper): Paper {
    if p.pos >= (p.top + ROWS) * COLS then p.(top := p.top + 1) else p
  }

  function Put(p: Paper, c: Byte): Paper {
    Slide(if c == NEWLINE then p.(pos := RowEnd(p.pos))
          else p.(ink := p.ink[p.pos := Glyph(c)], pos := p.pos + 1))
  }

  // A NUL-terminated string: the bytes stored before the first zero; a null pointer prints nothing.
  datatype CString = Null | Str(bytes: seq<Byte>)

  function UpToNul(s: seq<Byte>): seq<Byte> {
    if s == [] || s[0] == 0 then [] else [s[0]] + UpToNul(s[1..])
  }

  function Text(s: CString): seq<Byte> {
    if s.Null? then [] else UpToNul(s.bytes)
  }

  // The text goes up to the first NUL, or to the end if there is none; a null pointer has none.
  lemma {:induction false} TextOf(bytes: seq<Byte>)
    ensures var t := Text(Str(bytes));
      && |t| <= |bytes| && t == bytes[..|t|]
      && (forall i :: 0 <= i < |t| ==> bytes[i] != 0) && (|t| < |bytes| ==> bytes[|t|] == 0)
    ensures Text(Null) == []
    decreases |bytes|
  {
    if bytes != [] && bytes[0] != 0 {
      TextOf(bytes[1..]);
      var rest := Text(Str(bytes[1..]));
      assert bytes[..1 + |rest|] == [bytes[0]] + bytes[1..][..|rest|];
    }
  }

  function PutAll(p: Paper, s: seq<Byte>): Paper
    decreases |s|, p
  {
    if s == [] then p else PutAll(Put(p, s[0]), s[1..])
  }

  function Erase(p: Paper): Paper {
    if p.pos <= p.top * COLS then p
    else p.(ink := p.ink[p.pos - 1 := BLANK], pos := p.pos - 1)
  }

  function EraseN(p: Paper, n: nat): Paper
    decreases n
  {
    if n == 0 then p else EraseN(Erase(p), n - 1)
  }

  function Clamp(x: int, bound: nat): nat
    requires bound > 0
  {
    if x < 0 then 0 else if x >= bound then bound - 1 else x
  }

  function Move(p: Paper, dx: int, dy: int): Paper {
    p.(pos := (p.top + Clamp(p.pos / COLS - p.top + dy, ROWS)) * COLS + Clamp(p.pos % COLS + dx, COLS))
  }

  // A move in window coordinates.
  lemma MovePlace(p: Paper, row: nat, col: nat, dx: int, dy: int)
    requires Valid(p) && row < ROWS && col < COLS && p.pos == (p.top + row) * COLS + col
    ensures Valid(Move(p, dx, dy)) && View(Move(p, dx, dy)) == View(p)
    ensures Move(p, dx, dy).pos == (p.top + Clamp(row + dy, ROWS)) * COLS + Clamp(col + dx, COLS)
  {
    assert p.pos / COLS == p.top + row && p.pos % COLS == col;
  }

  function Distance(a: int, b: int): nat {
    if a <= b then b - a else a - b
  }

  // Of the numbers from lo up to hi, x is the nearest to the target.
  predicate Nearest(x: int, target: int, lo: int, hi: int) {
    lo <= x < hi && forall y :: lo <= y < hi ==> Distance(x, target) <= Distance(y, target)
  }

  // A move leaves the sheet alone and ends in the row and the column of the window that are nearest to those
  // asked for.
  lemma MoveNearest(p: Paper, dx: int, dy: int)
    requires Valid(p)
    ensures var q := Move(p, dx, dy);
      && q.ink == p.ink && q.top == p.top && Valid(q)
      && Nearest(q.pos % COLS, p.pos % COLS + dx, 0, COLS)
      && Nearest(q.pos / COLS, p.pos / COLS + dy, p.top, p.top + ROWS)
  {
    var q := Move(p, dx, dy);
    var row, col := p.top + Clamp(p.pos / COLS - p.top + dy, ROWS), Clamp(p.pos % COLS + dx, COLS);
    DivModUnique(q.pos, COLS, row, col);
  }

  lemma PutValid(p: Paper, c: Byte)
    requires Valid(p)
    ensures Valid(Put(p, c))
  {
  }

  // What printing one character does to the window.
  lemma PutInView(p: Paper, c: Byte)
    requires Valid(p)
    ensures var written := if c == NEWLINE then View(p) else View(p)[p.pos - p.top * COLS := Glyph(c)];
      var pos := if c == NEWLINE then RowEnd(p.pos) else p.pos + 1;
      && Put(p, c).pos == pos
      && (if pos < (p.top + ROWS) * COLS then Put(p, c).top == p.top && View(Put(p, c)) == written
          else Put(p, c).top == p.top + 1 && View(Put(p, c)) == written[COLS..] + seq(COLS, _ => BLANK))
  {
    var q, written := Put(p, c), if c == NEWLINE then View(p) else View(p)[p.pos - p.top * COLS := Glyph(c)];
    if q.top > p.top {
      forall k: nat | k < CELLS
        ensures View(q)[k] == (written[COLS..] + seq(COLS, _ => BLANK))[k]
      {
        assert q.top * COLS + k == p.top * COLS + (COLS + k);
      }
    }
  }

  lemma {:induction false} PutAllValid(p: Paper, s: seq<Byte>)
    requires Valid(p)
    ensures Valid(PutAll(p, s))
    decreases |s|
  {
    if s != [] {
      PutAllValid(Put(p, s[0]), s[1..]);
    }
  }

  lemma {:induction false} PutAllConcat(p: Paper, s: seq<Byte>, t: seq<Byte>)
    ensures PutAll(p, s + t) == PutAll(PutAll(p, s), t)
    decreases |s|
  {
    if s == [] {
      assert s + t == t;
    } else {
      assert (s + t)[0] == s[0] && (s + t)[1..] == s[1..] + t;
      PutAllConcat(Put(p, s[0]), s[1..], t);
    }
  }

  lemma PutOne(p: Paper, c: Byte)
    ensures PutAll(p, [c]) == Put(p, c)
  {
  }

  // ----- runs of console calls

  datatype Call = CallPut(c: Byte) | CallWrite(s: CString) | CallErase | CallMove(dx: int, dy: int) | CallClear

  function Apply(p: Paper, call: Call): Paper {
    match call
    case CallPut(c) => Put(p, c)
    case CallWrite(s) => PutAll(p, Text(s))
    case CallErase => Erase(p)
    case CallMove(dx, dy) => Move(p, dx, dy)
    case CallClear => FRESH
  }

  function ApplyAll(p: Paper, calls: seq<Call>): Paper
    decreases |calls|
  {
    if calls == [] then p else ApplyAll(Apply(p, calls[0]), calls[1..])
  }

  // Any run of calls leaves the cursor in the window and everything below the window blank.
  lemma {:induction false} RunStaysInWindow(p: Paper, calls: seq<Call>)
    requires Valid(p)
    ensures var q := ApplyAll(p, calls);
      && Valid(q)
      && forall k :: k >= (q.top + ROWS) * COLS ==> Ink(q, k) == BLANK
    decreases |calls|
  {
    if calls != [] {
      if calls[0].CallWrite? {
        PutAllValid(p, Text(calls[0].s));
      }
      RunStaysInWindow(Apply(p, calls[0]), calls[1..]);
    }
  }

  // ----- printing and erasing

  predicate NoNewline(s: seq<Byte>) {
    forall i :: 0 <= i < |s| ==> s[i] != NEWLINE
  }

  // The ink and the cursor after printing a text without newlines; the window slides at most as far as it must.
  lemma {:induction false} PutAllLine(p: Paper, s: seq<Byte>)
    requires Valid(p) && NoNewline(s)
    ensures var q := PutAll(p, s);
      && Valid(q) && q.pos == p.pos + |s| && q.top >= p.top
      && (q.top > p.top ==> q.pos / COLS == q.top + ROWS - 1)
      && forall k: nat :: Ink(q, k) == if p.pos <= k < p.pos + |s| then Glyph(s[k - p.pos]) else Ink(p, k)
    decreases |s|
  {
    if s != [] {
      PutAllLine(Put(p, s[0]), s[1..]);
    }
  }

  // Erasing n cells, until the first cell of the window is reached.
  lemma {:induction false} EraseBack(p: Paper, n: nat)
    requires Valid(p)
    ensures var q := EraseN(p, n); var room := p.pos - p.top * COLS; var m := if n <= room then n else room;
      && Valid(q) && q.pos == p.pos - m && q.top == p.top
      && forall k: nat :: Ink(q, k) == if p.pos - m <= k < p.pos then BLANK else Ink(p, k)
    decreases n
  {
    if n > 0 {
      EraseBack(Erase(p), n - 1);
    }
  }

  // Printing a newline-free text and erasing as many characters returns the cursor to where it
  // was exactly when that cell has not scrolled out of the window, and then only the printed
  // cells differ: they are blank.
  lemma WriteThenErase(p: Paper, s: seq<Byte>)
    requires Valid(p) && NoNewline(s)
    ensures var q := PutAll(p, s); var r := EraseN(q, |s|);
      && (r.pos == p.pos <==> p.pos >= q.top * COLS)
      && (p.pos >= q.top * COLS ==>
            forall k: nat :: Ink(r, k) == if p.pos <= k < p.pos + |s| then BLANK else Ink(p, k))
      && (p.pos < q.top * COLS ==> r.pos == q.top * COLS)
  {
    PutAllLine(p, s);
    EraseBack(PutAll(p, s), |s|);
  }
}
