/** What a printed text looks like, said without a cursor: lines end at '\n' and are cut every 80 characters.
    A line that fills its last row is followed by an empty row (the wrap is eager). */
module TextLayout {
  import opened Bits
  import opened Vga
  import opened Paper

  type Rows = seq<seq<Byte>>

  function LineLength(s: seq<Byte>): (n: nat)
    ensures n <= |s|
    ensures NoNewline(s[..n])
    ensures n < |s| ==> s[n] == NEWLINE
  {
    if s == [] || s[0] == NEWLINE then 0
    else
      var n := 1 + LineLength(s[1..]);
      assert s[..n] == [s[0]] + s[1..][..n - 1];
      n
  }

  function Chunks(line: seq<Byte>): (rows: Rows)
    ensures |rows| > 0
  {
    if |line| < COLS then [line] else [line[..COLS]] + Chunks(line[COLS..])
  }

  function Layout(s: seq<Byte>): (rows: Rows)
    ensures |rows| > 0
    decreases |s|
  {
    var n := LineLength(s);
    if n == |s| then Chunks(s) else Chunks(s[..n]) + Layout(s[n + 1..])
  }

  function Last(rows: Rows): seq<Byte>
    requires |rows| > 0
  {
    rows[|rows| - 1]
  }

  function Init(rows: Rows): Rows
    requires |rows| > 0
  {
    rows[..|rows| - 1]
  }

  // One more character at the end of the last row.
  function Append(rows: Rows, c: Byte): (r: Rows)
    requires |rows| > 0
    ensures |r| > 0
  {
    if c == NEWLINE then rows + [[]]
    else
      var r := Init(rows) + [Last(rows) + [c]];
      if |Last(rows)| + 1 == COLS then r + [[]] else r
  }

  lemma AppendRight(a: Rows, b: Rows, c: Byte)
    requires |b| > 0
    ensures Append(a + b, c) == a + Append(b, c)
  {
    assert Init(a + b) == a + Init(b) && Last(a + b) == Last(b);
  }

  lemma {:induction false} ChunksSnoc(line: seq<Byte>, c: Byte)
    requires c != NEWLINE
    ensures Chunks(line + [c]) == Append(Chunks(line), c)
    decreases |line|
  {
    if |line| >= COLS {
      assert (line + [c])[..COLS] == line[..COLS] && (line + [c])[COLS..] == line[COLS..] + [c];
      ChunksSnoc(line[COLS..], c);
      AppendRight([line[..COLS]], Chunks(line[COLS..]), c);
    } else if |line| + 1 == COLS {
      assert (line + [c])[..COLS] == line + [c] && (line + [c])[COLS..] == [];
    }
  }

  lemma LineLengthIs(s: seq<Byte>, n: nat)
    requires n <= |s| && NoNewline(s[..n]) && (n < |s| ==> s[n] == NEWLINE)
    ensures LineLength(s) == n
  {
    var m := LineLength(s);
    assert forall i :: 0 <= i < n ==> s[i] == s[..n][i];
    assert forall i :: 0 <= i < m ==> s[i] == s[..m][i];
  }

  lemma {:induction false} LayoutSnoc(s: seq<Byte>, c: Byte)
    ensures Layout(s + [c]) == Append(Layout(s), c)
    decreases |s|
  {
    var n := LineLength(s);
    var t := s + [c];
    assert t[..n] == s[..n];
    if n < |s| {
      LineLengthIs(t, n);
      assert t[n + 1..] == s[n + 1..] + [c];
      LayoutSnoc(s[n + 1..], c);
      AppendRight(Chunks(s[..n]), Layout(s[n + 1..]), c);
    } else if c == NEWLINE {
      LineLengthIs(t, n);
      assert t[n + 1..] == [];
    } else {
      LineLengthIs(t, n + 1);
      ChunksSnoc(s, c);
    }
  }

  // A text that ends in '\n' leaves the cursor on an empty row.
  lemma NewlineEndsRow(s: seq<Byte>)
    ensures Last(Layout(s + [NEWLINE])) == []
  {
    LayoutSnoc(s, NEWLINE);
  }

  lemma {:induction false} LastRowOpen(s: seq<Byte>)
    ensures |Last(Layout(s))| < COLS && NoNewline(Last(Layout(s)))
    decreases |s|
  {
    if s != [] {
      var t, c := s[..|s| - 1], s[|s| - 1];
      assert s == t + [c];
      LastRowOpen(t);
      LayoutSnoc(t, c);
    }
  }

  lemma {:induction false} LayoutRowsFit(s: seq<Byte>)
    ensures forall r :: 0 <= r < |Layout(s)| ==> |Layout(s)[r]| <= COLS
    decreases |s|
  {
    if s == [] {
      assert Layout(s) == [[]];
    } else {
      var t, c := s[..|s| - 1], s[|s| - 1];
      assert s == t + [c];
      LayoutRowsFit(t);
      LastRowOpen(t);
      LayoutSnoc(t, c);
    }
  }

  lemma PlainLayout(s: seq<Byte>)
    requires NoNewline(s)
    ensures Layout(s) == Chunks(s)
  {
    LineLengthIs(s, |s|);
    assert s[..|s|] == s;
  }

  // Laying out more text only continues the last row.
  lemma {:induction false} LayoutConcat(s: seq<Byte>, t: seq<Byte>)
    ensures Layout(s + t) == Init(Layout(s)) + Layout(Last(Layout(s)) + t)
    decreases |t|
  {
    var rows := Layout(s);
    var last := Last(rows);
    LastRowOpen(s);
    if t == [] {
      assert s + t == s && last + t == last;
      LineLengthIs(last, |last|);
      assert Layout(last) == [last];
    } else {
      var u, c := t[..|t| - 1], t[|t| - 1];
      assert s + t == (s + u) + [c] && last + t == (last + u) + [c];
      LayoutConcat(s, u);
      LayoutSnoc(s + u, c);
      LayoutSnoc(last + u, c);
      AppendRight(Init(rows), Layout(last + u), c);
    }
  }

  // ----- the paper and the screen show a layout

  function CellAt(rows: Rows, k: nat): Cell {
    if k / COLS < |rows| && k % COLS < |rows[k / COLS]| then Glyph(rows[k / COLS][k % COLS]) else BLANK
  }

  ghost predicate Wellformed(rows: Rows) {
    && |rows| > 0
    && |Last(rows)| < COLS
    && forall r :: 0 <= r < |rows| ==> |rows[r]| <= COLS
  }

  function WindowTop(rows: Rows): nat {
    if |rows| <= ROWS then 0 else |rows| - ROWS
  }

  function LastRows(rows: Rows): Rows {
    rows[WindowTop(rows)..]
  }

  function ScreenOf(rows: Rows): seq<Cell> {
    seq(CELLS, k requires 0 <= k < CELLS => CellAt(rows, k))
  }

  // The sheet carries exactly these rows, and the window is as high as they allow.
  ghost predicate Carries(p: Paper, rows: Rows) {
    && Wellformed(rows)
    && p.top == WindowTop(rows)
    && (forall k :: k in p.ink ==> k < (p.top + ROWS) * COLS)
    && forall k: nat :: Ink(p, k) == CellAt(rows, k)
  }

  ghost predicate CursorAtEnd(p: Paper, rows: Rows)
    requires |rows| > 0
  {
    p.pos == (|rows| - 1) * COLS + |Last(rows)|
  }

  lemma CarriesView(p: Paper, rows: Rows)
    requires Carries(p, rows)
    ensures View(p) == ScreenOf(LastRows(rows))
  {
    forall i: nat | i < CELLS
      ensures View(p)[i] == CellAt(LastRows(rows), i)
    {
      assert (p.top * COLS + i) / COLS == p.top + i / COLS && (p.top * COLS + i) % COLS == i % COLS;
    }
  }

  lemma PutCarries(p: Paper, rows: Rows, c: Byte)
    requires Carries(p, rows) && CursorAtEnd(p, rows)
    ensures Carries(Put(p, c), Append(rows, c)) && CursorAtEnd(Put(p, c), Append(rows, c))
  {
    var q, rows' := Put(p, c), Append(rows, c);
    var last := |rows| - 1;
    assert forall r :: 0 <= r < last ==> rows'[r] == rows[r];
    assert |rows'| > |rows| ==> rows'[|rows|] == [];
    forall k: nat
      ensures Ink(q, k) == CellAt(rows', k)
    {
      var r, i := k / COLS, k % COLS;
      assert Ink(p, k) == CellAt(rows, k);
      if r < last {
        assert rows'[r] == rows[r];
      } else if r == last {
        assert rows'[r] == if c == NEWLINE then rows[r] else rows[r] + [c];
        assert k == last * COLS + i;
        assert k == p.pos <==> i == |rows[r]|;
      } else {
        assert r < |rows'| ==> rows'[r] == [];
        assert k != p.pos;
      }
    }
  }

  lemma {:induction false} PutAllCarries(p: Paper, s: seq<Byte>, t: seq<Byte>)
    requires Carries(p, Layout(s)) && CursorAtEnd(p, Layout(s))
    ensures Carries(PutAll(p, t), Layout(s + t)) && CursorAtEnd(PutAll(p, t), Layout(s + t))
    decreases |t|
  {
    if t == [] {
      assert s + t == s;
    } else {
      LayoutSnoc(s, t[0]);
      PutCarries(p, Layout(s), t[0]);
      assert s + t == (s + [t[0]]) + t[1..];
      PutAllCarries(Put(p, t[0]), s + [t[0]], t[1..]);
    }
  }

  // Clearing and printing s leaves the last 25 rows of its layout, with the cursor at its end.
  lemma PrintAfterClear(s: seq<Byte>)
    ensures var p, rows := PutAll(FRESH, s), Layout(s);
      && Carries(p, rows) && CursorAtEnd(p, rows)
      && View(p) == ScreenOf(LastRows(rows))
      && p.pos / COLS - p.top == |LastRows(rows)| - 1
      && p.pos % COLS == |Last(rows)|
  {
    assert Layout([]) == [[]];
    PutAllCarries(FRESH, [], s);
    assert [] + s == s;
    CarriesView(PutAll(FRESH, s), Layout(s));
  }
}
