/** What the editor of kernel/tty.c leaves on the paper: the rows that were there, every submitted
    line behind its prompt, and the current line behind its prompt with the cursor at its place. */
module Transcript {
  import opened Bits
  import opened Vga
  import opened Paper
  import opened TextLayout
  import opened Tty

  // The screen row of cursor place i, counted from the row of the prompt.
  function Row(i: nat): nat {
    (|PROMPT| + i) / COLS
  }

  function Prompted(line: Line): seq<Byte> {
    PROMPT + line.Text()
  }

  function Below(text: seq<Byte>, i: nat): Cell {
    if i < |text| then Glyph(text[i]) else BLANK
  }

  // Where the line wants the cursor to be.
  function Place(above: Rows, line: Line): nat {
    |above| * COLS + |PROMPT| + |line.left|
  }

  // The sheet carries the rows above, then the text, cut every 80 characters, and nothing else.
  ghost predicate ShowsText(p: Paper, above: Rows, text: seq<Byte>) {
    && (forall r :: 0 <= r < |above| ==> |above[r]| <= COLS)
    && (var rows := |above| + |text| / COLS + 1; p.top == if rows <= ROWS then 0 else rows - ROWS)
    && (forall k :: k in p.ink ==> k < (p.top + ROWS) * COLS)
    && (forall k: nat :: Ink(p, k) == if k < |above| * COLS then CellAt(above, k)
                                      else Below(text, k - |above| * COLS))
  }

  ghost predicate Agrees(s: Session, above: Rows) {
    && s.echo && s.line.Length() <= BUF_SIZE
    && NoNewline(s.line.left) && NoNewline(s.line.right)
    && ShowsText(s.paper, above, Prompted(s.line))
    && s.paper.pos == Place(above, s.line)
  }

  // ----- Chunks, cell by cell

  lemma {:induction false} ChunksCells(text: seq<Byte>, above: Rows)
    ensures |Chunks(text)| == |text| / COLS + 1
    ensures |Last(Chunks(text))| < COLS
    ensures forall r :: 0 <= r < |Chunks(text)| ==> |Chunks(text)[r]| <= COLS
    ensures forall k: nat :: CellAt(above + Chunks(text), k) ==
                             if k < |above| * COLS then CellAt(above, k) else Below(text, k - |above| * COLS)
    decreases |text|
  {
    var rows := above + Chunks(text);
    if |text| < COLS {
      forall k: nat
        ensures CellAt(rows, k) == if k < |above| * COLS then CellAt(above, k) else Below(text, k - |above| * COLS)
      {
        assert k / COLS < |above| <==> k < |above| * COLS;
        assert k / COLS == |above| ==> k - |above| * COLS == k % COLS;
      }
    } else {
      var head, rest := text[..COLS], text[COLS..];
      ChunksCells(rest, above + [head]);
      assert rows == above + [head] + Chunks(rest);
      forall k: nat
        ensures CellAt(rows, k) == if k < |above| * COLS then CellAt(above, k) else Below(text, k - |above| * COLS)
      {
        assert k / COLS < |above| <==> k < |above| * COLS;
        assert k / COLS == |above| ==> k - |above| * COLS == k % COLS;
      }
    }
  }

  // Agreement means: the screen is the last 25 rows of the transcript, and the cursor is seen at its place.
  lemma AgreementOnScreen(s: Session, above: Rows)
    requires Agrees(s, above)
    ensures var rows := above + Chunks(Prompted(s.line));
      && Valid(s.paper)
      && Carries(s.paper, rows)
      && View(s.paper) == ScreenOf(LastRows(rows))
      && s.paper.pos / COLS == |above| + Row(|s.line.left|)
      && s.paper.pos % COLS == (|PROMPT| + |s.line.left|) % COLS
      && s.paper.top == WindowTop(rows)
  {
    ChunksCells(Prompted(s.line), above);
    CarriesView(s.paper, above + Chunks(Prompted(s.line)));
  }

  lemma AgreesView(s: Session, above: Rows)
    requires Agrees(s, above)
    ensures View(s.paper) == ScreenOf(LastRows(above + Chunks(Prompted(s.line))))
  {
    AgreementOnScreen(s, above);
  }

  // The converse for the ink.
  lemma CarriedIsShown(p: Paper, above: Rows, text: seq<Byte>)
    requires Carries(p, above + Chunks(text)) && forall r :: 0 <= r < |above| ==> |above[r]| <= COLS
    ensures ShowsText(p, above, text)
  {
    ChunksCells(text, above);
  }

  lemma AgreesValid(s: Session, above: Rows)
    requires Agrees(s, above)
    ensures Valid(s.paper)
  {
    AgreementOnScreen(s, above);
  }

  // ----- cursor travel

  function LeftStop(pos: nat, n: nat): nat {
    if n <= pos % COLS then pos - n else pos / COLS * COLS
  }

  lemma MoveLeftIs(p: Paper, n: nat)
    requires Valid(p)
    ensures Move(p, 0 - n, 0) == p.(pos := LeftStop(p.pos, n))
  {
  }

  lemma MoveRightIs(p: Paper)
    requires Valid(p)
    ensures Move(p, 1, 0) == p.(pos := if p.pos % COLS == COLS - 1 then p.pos else p.pos + 1)
  {
  }

  lemma LeftStopOnce(pos: nat, n: nat)
    requires n > 0
    ensures LeftStop(LeftStop(pos, 1), n - 1) == LeftStop(pos, n)
  {
    var row, col := pos / COLS, pos % COLS;
    assert pos == row * COLS + col;
    assert (row * COLS) % COLS == 0 && (row * COLS) / COLS == row;
    if col > 0 {
      assert (pos - 1) / COLS == row && (pos - 1) % COLS == col - 1;
    }
  }

  lemma {:induction false} StepLeftIs(p: Paper, n: nat)
    requires Valid(p)
    ensures StepLeft(p, n) == p.(pos := LeftStop(p.pos, n))
    decreases n
  {
    if n > 0 {
      MoveLeftIs(p, 1);
      StepLeftIs(Move(p, -1, 0), n - 1);
      LeftStopOnce(p.pos, n);
    }
  }

  // ----- one command

  // The cursor travel of the command stays within one screen row.
  predicate Keeps(line: Line, cmd: Command) {
    match cmd
    case Nothing => true
    case Insert(_) => line.Length() >= BUF_SIZE || Row(|line.left| + 1) == Row(line.Length() + 1)
    case Delete => line.left == [] || Row(|line.left| - 1) == Row(line.Length())
    case GoLeft => line.left == [] || Row(|line.left| - 1) == Row(|line.left|)
    case GoRight => line.right == [] || Row(|line.left| + 1) == Row(|line.left|)
    case Submit => Row(|line.left|) == Row(line.Length())
  }

  function AboveAfter(above: Rows, line: Line, cmd: Command): Rows {
    if cmd.Submit? then above + Chunks(Prompted(line)) else above
  }

  // The keyboard never sends a newline as a printable character.
  predicate Typable(cmd: Command) {
    cmd.Insert? ==> cmd.c != NEWLINE
  }

  lemma Overprint(p: Paper, above: Rows, text: seq<Byte>, j: nat, typed: seq<Byte>)
    requires Valid(p) && ShowsText(p, above, text) && NoNewline(typed)
    requires j <= |text| <= j + |typed| && p.pos == |above| * COLS + j
    ensures var q := PutAll(p, typed);
      Valid(q) && ShowsText(q, above, text[..j] + typed) && q.pos == p.pos + |typed|
  {
    PutAllLine(p, typed);
    var q, base := PutAll(p, typed), |above| * COLS;
    forall k: nat
      ensures Ink(q, k) == if k < base then CellAt(above, k) else Below(text[..j] + typed, k - base)
    {
      assert Ink(p, k) == if k < base then CellAt(above, k) else Below(text, k - base);
    }
  }

  lemma TrailingSpace(p: Paper, above: Rows, text: seq<Byte>)
    requires ShowsText(p, above, text + [0x20]) && |text| / COLS == (|text| + 1) / COLS
    ensures ShowsText(p, above, text)
  {
    forall k: nat
      ensures Below(text, k) == Below(text + [0x20], k)
    {
    }
  }

  // Only the ink and the window matter for what is shown.
  lemma CursorElsewhere(p: Paper, pos: nat, above: Rows, text: seq<Byte>)
    requires ShowsText(p, above, text)
    ensures ShowsText(p.(pos := pos), above, text)
  {
    assert forall k: nat :: Ink(p.(pos := pos), k) == Ink(p, k);
  }

  // Going back n places in a text that starts at the beginning of a row.
  lemma LeftStopInRow(start: nat, i: nat, n: nat)
    requires n <= i
    ensures LeftStop(start * COLS + i, n) == start * COLS + i - n <==> (i - n) / COLS == i / COLS
  {
    assert (start * COLS + i) % COLS == i % COLS && (start * COLS + i) / COLS == start + i / COLS;
  }

  lemma RightStopInRow(start: nat, i: nat)
    ensures (start * COLS + i) % COLS == COLS - 1 <==> (i + 1) / COLS != i / COLS
  {
    assert (start * COLS + i) % COLS == i % COLS;
  }

  lemma NoNewlineSplit(a: seq<Byte>, b: seq<Byte>)
    ensures NoNewline(a + b) <==> NoNewline(a) && NoNewline(b)
  {
    assert forall i :: 0 <= i < |a| ==> a[i] == (a + b)[i];
    assert forall i :: 0 <= i < |b| ==> b[i] == (a + b)[|a| + i];
  }

  // With the right ink, agreement is a matter of the cursor alone.
  lemma AgreesAt(q: Paper, s: Session, above: Rows)
    requires s.echo && s.line.Length() <= BUF_SIZE && NoNewline(s.line.left) && NoNewline(s.line.right)
    requires ShowsText(q, above, Prompted(s.line)) && s.paper == q.(pos := s.paper.pos)
    ensures Agrees(s, above) <==> s.paper.pos == Place(above, s.line)
  {
    CursorElsewhere(q, s.paper.pos, above, Prompted(s.line));
  }

  lemma InsertEcho(p: Paper, line: Line, c: Byte)
    requires Valid(p) && line.Length() < BUF_SIZE && c != NEWLINE && NoNewline(line.right)
    ensures var q := PutAll(p, [c] + line.right);
      && q.pos == p.pos + |line.right| + 1
      && Echo(p, line, Insert(c)) == q.(pos := LeftStop(q.pos, |line.right|))
  {
    var typed := [c] + line.right;
    assert typed[1..] == line.right && PutAll(p, typed) == PutAll(Put(p, c), line.right);
    PutAllLine(p, typed);
    StepLeftIs(PutAll(p, typed), |line.right|);
  }

  lemma InsertStops(p: Paper, above: Rows, line: Line, c: Byte)
    requires Valid(p) && line.Length() < BUF_SIZE && c != NEWLINE && NoNewline(line.right)
    requires p.pos == Place(above, line)
    ensures Echo(p, line, Insert(c)).pos == Place(above, InsertIn(line, c)) <==> Keeps(line, Insert(c))
  {
    InsertEchoEnds(p, line, c);
    InsertTravel(|above|, |PROMPT| + |line.left| + 1, |line.right|);
  }

  lemma InsertEchoEnds(p: Paper, line: Line, c: Byte)
    requires Valid(p) && line.Length() < BUF_SIZE && c != NEWLINE && NoNewline(line.right)
    ensures Echo(p, line, Insert(c)).pos == LeftStop(p.pos + |line.right| + 1, |line.right|)
  {
    InsertEcho(p, line, c);
  }

  // n places back from the end of a tail.
  lemma InsertTravel(start: nat, i: nat, n: nat)
    ensures LeftStop(start * COLS + i + n, n) == start * COLS + i <==> i / COLS == (i + n) / COLS
  {
    LeftStopInRow(start, i + n, n);
  }

  // ----- where the echo leaves the console, in step or not

  // A step left stays at the start of a screen row, a step right at its end.
  lemma EchoOfMoves(p: Paper, line: Line)
    requires Valid(p)
    ensures Echo(p, line, GoLeft) == p.(pos := if line.left == [] || p.pos % COLS == 0 then p.pos else p.pos - 1)
    ensures Echo(p, line, GoRight) == p.(pos := if line.right == [] || p.pos % COLS == COLS - 1 then p.pos else p.pos + 1)
  {
    MoveLeftIs(p, 1);
    MoveRightIs(p);
  }

  // An insertion prints the character and the tail, and goes back over the tail as far as the row reaches.
  lemma EchoOfInsert(p: Paper, line: Line, c: Byte)
    requires Valid(p)
    ensures line.Length() >= 256 ==> Echo(p, line, Insert(c)) == p
    ensures line.Length() < 256 ==>
      var q, n := PutAll(p, [c] + line.right), |line.right|;
      Echo(p, line, Insert(c)) == q.(pos := if n <= q.pos % COLS then q.pos - n else q.pos / COLS * COLS)
  {
    var typed := [c] + line.right;
    assert typed[1..] == line.right && PutAll(p, typed) == PutAll(Put(p, c), line.right);
    PutAllValid(p, typed);
    StepLeftIs(PutAll(p, typed), |line.right|);
  }

  // A deletion goes one place back in the row, prints the tail and a blank, and goes back over both.
  lemma EchoOfDelete(p: Paper, line: Line)
    requires Valid(p)
    ensures line.left == [] ==> Echo(p, line, Delete) == p
    ensures line.left != [] ==>
      var p', n := p.(pos := if p.pos % COLS == 0 then p.pos else p.pos - 1), |line.right| + 1;
      var q := PutAll(p', line.right + [0x20]);
      Echo(p, line, Delete) == q.(pos := if n <= q.pos % COLS then q.pos - n else q.pos / COLS * COLS)
  {
    MoveLeftIs(p, 1);
    var p' := Move(p, -1, 0);
    PutAllConcat(p', line.right, [0x20]);
    PutOne(PutAll(p', line.right), 0x20);
    PutAllValid(p', line.right + [0x20]);
    MoveLeftIs(PutAll(p', line.right + [0x20]), |line.right| + 1);
  }

  // A submission prints the prompt at the start of the next row, wherever the cursor was, and nothing else.
  lemma EchoOfSubmit(p: Paper, line: Line)
    requires Valid(p)
    ensures var q, start := Echo(p, line, Submit), (p.pos / COLS + 1) * COLS;
      && Valid(q) && q.pos == start + 10
      && (forall k: nat :: Ink(q, k) == if start <= k < start + 10 then Glyph(PROMPT[k - start]) else Ink(p, k))
      && q.top == if start < (p.top + ROWS) * COLS then p.top else p.top + 1
  {
    SubmitIsNewlineThenPrompt(p);
    PromptPlain();
    PutAllLine(Put(p, NEWLINE), PROMPT);
    var r := Put(p, NEWLINE);
    assert r.pos == (p.pos / COLS + 1) * COLS;
    assert forall k: nat :: Ink(r, k) == Ink(p, k);
  }

  lemma InsertedText(line: Line, c: Byte)
    requires line.Length() < BUF_SIZE
    ensures var j := |PROMPT| + |line.left|;
      j <= |Prompted(line)| && Prompted(line)[..j] + ([c] + line.right) == Prompted(InsertIn(line, c))
  {
  }

  lemma InsertShows(s: Session, above: Rows, c: Byte)
    requires Agrees(s, above) && c != NEWLINE && s.line.Length() < BUF_SIZE
    ensures var s' := Handle(s, Insert(c)); Agrees(s', above) <==> s'.paper.pos == Place(above, s'.line)
  {
    AgreesValid(s, above);
    var line := s.line;
    var typed, j := [c] + line.right, |PROMPT| + |line.left|;
    InsertEcho(s.paper, line, c);
    Overprint(s.paper, above, Prompted(line), j, typed);
    InsertedText(line, c);
    AgreesAt(PutAll(s.paper, typed), Handle(s, Insert(c)), above);
  }

  // The paper after the redraw of a deletion, and where the cursor stops on it.
  lemma DeleteEcho(p: Paper, line: Line)
    requires Valid(p) && line.left != [] && NoNewline(line.right)
    ensures var p' := p.(pos := LeftStop(p.pos, 1));
      var q := PutAll(p', line.right + [0x20]);
      && Valid(p') && q.pos == p'.pos + |line.right| + 1
      && Echo(p, line, Delete) == q.(pos := LeftStop(q.pos, |line.right| + 1))
  {
    MoveLeftIs(p, 1);
    var p' := Move(p, -1, 0);
    PutAllConcat(p', line.right, [0x20]);
    PutOne(PutAll(p', line.right), 0x20);
    PutAllLine(p', line.right + [0x20]);
    MoveLeftIs(PutAll(p', line.right + [0x20]), |line.right| + 1);
  }

  // One place back, n + 1 characters redrawn, n + 1 places back.
  lemma DeleteTravel(start: nat, i: nat, n: nat)
    requires i > 0
    ensures var first := LeftStop(start * COLS + i, 1);
      && (LeftStop(first + n + 1, n + 1) == start * COLS + i - 1 <==> (i - 1) / COLS == (i + n) / COLS)
      && ((i - 1) / COLS == (i + n) / COLS ==> first == start * COLS + i - 1)
  {
    LeftStopInRow(start, i, 1);
    LeftStopInRow(start, i + n, n + 1);
  }

  lemma DeleteStops(p: Paper, above: Rows, line: Line)
    requires Valid(p) && line.left != [] && NoNewline(line.right)
    requires p.pos == Place(above, line)
    ensures Echo(p, line, Delete).pos == Place(above, DeleteIn(line)) <==> Keeps(line, Delete)
  {
    DeleteEcho(p, line);
    DeleteTravel(|above|, |PROMPT| + |line.left|, |line.right|);
  }

  lemma DeletedText(line: Line)
    requires line.left != []
    ensures Prompted(line)[..|PROMPT| + |line.left| - 1] + (line.right + [0x20]) == Prompted(DeleteIn(line)) + [0x20]
    ensures var n := |Prompted(DeleteIn(line))|; Keeps(line, Delete) ==> n / COLS == (n + 1) / COLS
  {
  }

  lemma DeleteInk(p: Paper, above: Rows, line: Line)
    requires Valid(p) && line.left != [] && NoNewline(line.right) && Keeps(line, Delete)
    requires ShowsText(p, above, Prompted(line)) && p.pos == Place(above, line) - 1
    ensures ShowsText(PutAll(p, line.right + [0x20]), above, Prompted(DeleteIn(line)))
  {
    var j := |PROMPT| + |line.left| - 1;
    var typed, text' := line.right + [0x20], Prompted(DeleteIn(line));
    Overprint(p, above, Prompted(line), j, typed);
    DeletedText(line);
    TrailingSpace(PutAll(p, typed), above, text');
  }

  // The paper of a deletion is the overprinted paper with the cursor moved.
  lemma DeletePaper(p: Paper, above: Rows, line: Line)
    requires Valid(p) && line.left != [] && NoNewline(line.right) && Keeps(line, Delete)
    requires p.pos == Place(above, line)
    ensures var q := PutAll(p.(pos := p.pos - 1), line.right + [0x20]);
      Valid(p.(pos := p.pos - 1)) && Echo(p, line, Delete) == q.(pos := Echo(p, line, Delete).pos)
  {
    DeleteEcho(p, line);
    DeleteTravel(|above|, |PROMPT| + |line.left|, |line.right|);
  }

  lemma DeleteShows(s: Session, above: Rows)
    requires Agrees(s, above) && s.line.left != [] && Keeps(s.line, Delete)
    ensures var s' := Handle(s, Delete); Agrees(s', above) <==> s'.paper.pos == Place(above, s'.line)
  {
    AgreesValid(s, above);
    var line, s' := s.line, Handle(s, Delete);
    DeletePaper(s.paper, above, line);
    var p := s.paper.(pos := s.paper.pos - 1);
    CursorElsewhere(s.paper, p.pos, above, Prompted(line));
    DeleteInk(p, above, line);
    AgreesAt(PutAll(p, line.right + [0x20]), s', above);
  }

  // A command that changes neither text nor ink.
  lemma CursorOnly(s: Session, s': Session, above: Rows)
    requires Agrees(s, above)
    requires s' == Session(s'.line, true, s.paper.(pos := s'.paper.pos))
    requires s'.line.Text() == s.line.Text()
    ensures Agrees(s', above) <==> s'.paper.pos == Place(above, s'.line)
  {
    NoNewlineSplit(s.line.left, s.line.right);
    NoNewlineSplit(s'.line.left, s'.line.right);
    assert s.line.Length() == |s.line.Text()| && s'.line.Length() == |s'.line.Text()|;
    AgreesAt(s.paper, s', above);
  }

  lemma LeftAgrees(s: Session, above: Rows)
    requires Agrees(s, above) && s.line.left != []
    ensures Agrees(Handle(s, GoLeft), above) <==> Keeps(s.line, GoLeft)
  {
    AgreesValid(s, above);
    MovesKeepText(s.line);
    MoveLeftIs(s.paper, 1);
    CursorOnly(s, Handle(s, GoLeft), above);
    LeftStopInRow(|above|, |PROMPT| + |s.line.left|, 1);
  }

  lemma RightAgrees(s: Session, above: Rows)
    requires Agrees(s, above) && s.line.right != []
    ensures Agrees(Handle(s, GoRight), above) <==> Keeps(s.line, GoRight)
  {
    AgreesValid(s, above);
    MovesKeepText(s.line);
    MoveRightIs(s.paper);
    CursorOnly(s, Handle(s, GoRight), above);
    RightStopInRow(|above|, |PROMPT| + |s.line.left|);
  }

  lemma PrintOnNextRow(p: Paper, t: seq<Byte>)
    requires Valid(p) && NoNewline(t) && |t| < COLS
    ensures var q := PutAll(Put(p, NEWLINE), t); var start := RowEnd(p.pos);
      && q.pos == start + |t|
      && q.top == (if start / COLS >= p.top + ROWS then p.top + 1 else p.top)
      && (forall k :: k in q.ink ==> k < (q.top + ROWS) * COLS)
      && forall k: nat :: Ink(q, k) == if start <= k < start + |t| then Glyph(t[k - start]) else Ink(p, k)
  {
    PutAllLine(Put(p, NEWLINE), t);
  }

  lemma PromptPlain()
    ensures NoNewline(PROMPT) && |PROMPT| == 10
  {
  }

  // The newline and the prompt, for any prompt text of the right length.
  lemma NewPromptStops(s: Session, above: Rows, prompt: seq<Byte>)
    requires Agrees(s, above) && NoNewline(prompt) && |prompt| == |PROMPT|
    ensures var rows := |above| + Row(s.line.Length()) + 1;
      var q := PutAll(Put(s.paper, NEWLINE), prompt);
      && (q.pos == rows * COLS + |prompt| <==> Keeps(s.line, Submit))
      && (Keeps(s.line, Submit) ==> RowEnd(s.paper.pos) == rows * COLS)
  {
    AgreesValid(s, above);
    RowEndOf(|above|, |PROMPT| + |s.line.left|);
    PrintOnNextRow(s.paper, prompt);
  }

  lemma RowEndOf(start: nat, i: nat)
    ensures RowEnd(start * COLS + i) == (start + i / COLS + 1) * COLS
  {
    assert (start * COLS + i) / COLS == start + i / COLS;
  }

  ghost predicate AtRowAfter(p: Paper, above: Rows, text: seq<Byte>) {
    Valid(p) && ShowsText(p, above, text) && RowEnd(p.pos) == (|above| + |text| / COLS + 1) * COLS
  }

  lemma NewPromptInk(p: Paper, above: Rows, text: seq<Byte>, prompt: seq<Byte>, k: nat)
    requires AtRowAfter(p, above, text) && NoNewline(prompt) && |prompt| < COLS
    ensures var above' := above + Chunks(text); var base := |above'| * COLS;
      Ink(PutAll(Put(p, NEWLINE), prompt), k) == if k < base then CellAt(above', k) else Below(prompt, k - base)
  {
    var above' := above + Chunks(text);
    ChunksCells(text, above);
    PrintOnNextRow(p, prompt);
    assert Ink(p, k) == CellAt(above', k);
    assert k >= |above'| * COLS ==> Ink(p, k) == BLANK;
  }

  lemma NewPromptTop(p: Paper, above: Rows, text: seq<Byte>, prompt: seq<Byte>)
    requires AtRowAfter(p, above, text) && NoNewline(prompt) && |prompt| < COLS
    ensures var q := PutAll(Put(p, NEWLINE), prompt); var rows := |above| + |text| / COLS + 2;
      && q.top == (if rows <= ROWS then 0 else rows - ROWS)
      && forall k :: k in q.ink ==> k < (q.top + ROWS) * COLS
  {
    PrintOnNextRow(p, prompt);
    var rows := |above| + |text| / COLS + 1;
    assert RowEnd(p.pos) / COLS == rows;
  }

  lemma NewPromptShows(p: Paper, above: Rows, text: seq<Byte>, prompt: seq<Byte>)
    requires AtRowAfter(p, above, text) && NoNewline(prompt) && |prompt| < COLS
    ensures ShowsText(PutAll(Put(p, NEWLINE), prompt), above + Chunks(text), prompt)
  {
    ChunksCells(text, above);
    NewPromptTop(p, above, text, prompt);
    forall k: nat {
      NewPromptInk(p, above, text, prompt, k);
    }
  }

  lemma SubmitAgrees(s: Session, above: Rows)
    requires Agrees(s, above)
    ensures Agrees(Handle(s, Submit), AboveAfter(above, s.line, Submit)) <==> Keeps(s.line, Submit)
  {
    SubmitIsNewlineThenPrompt(s.paper);
    PromptPlain();
    ChunksCells(Prompted(s.line), above);
    NewPromptStops(s, above, PROMPT);
    assert Prompted(EMPTY) == PROMPT;
    if Keeps(s.line, Submit) {
      AgreesValid(s, above);
      NewPromptShows(s.paper, above, Prompted(s.line), PROMPT);
      AgreesAt(PutAll(s.paper, SUBMIT_TEXT), Handle(s, Submit), AboveAfter(above, s.line, Submit));
    }
  }

  lemma SubmitIsNewlineThenPrompt(p: Paper)
    ensures PutAll(p, SUBMIT_TEXT) == PutAll(Put(p, NEWLINE), PROMPT)
  {
    assert SUBMIT_TEXT[1..] == PROMPT;
  }

  // From a state in which screen and line agree, a command keeps the agreement exactly when its
  // cursor travel stays within one screen row.
  lemma StepAgrees(s: Session, above: Rows, cmd: Command)
    requires Agrees(s, above) && Typable(cmd)
    ensures Agrees(Handle(s, cmd), AboveAfter(above, s.line, cmd)) <==> Keeps(s.line, cmd)
  {
    match cmd
    case Nothing =>
    case Insert(c) => 
      AgreesValid(s, above);
      if s.line.Length() < BUF_SIZE {
        InsertShows(s, above, c);
        InsertStops(s.paper, above, s.line, c);
      }
    case Delete => 
      AgreesValid(s, above);
      if s.line.left != [] {
        DeleteStops(s.paper, above, s.line);
        if Keeps(s.line, Delete) {
          DeleteShows(s, above);
        }
      }
    case GoLeft => if s.line.left != [] { LeftAgrees(s, above); }
    case GoRight => if s.line.right != [] { RightAgrees(s, above); }
    case Submit => SubmitAgrees(s, above);
  }

  // ----- whole runs

  function AboveAll(above: Rows, line: Line, cmds: seq<Command>): Rows
    decreases |cmds|
  {
    if cmds == [] then above else AboveAll(AboveAfter(above, line, cmds[0]), Edit(line, cmds[0]), cmds[1..])
  }

  predicate KeepsAll(line: Line, cmds: seq<Command>)
    decreases |cmds|
  {
    cmds == [] || (Keeps(line, cmds[0]) && KeepsAll(Edit(line, cmds[0]), cmds[1..]))
  }

  ghost predicate AgreesThroughout(s: Session, above: Rows, cmds: seq<Command>)
    decreases |cmds|
  {
    && Agrees(s, above)
    && (cmds == [] || AgreesThroughout(Handle(s, cmds[0]), AboveAfter(above, s.line, cmds[0]), cmds[1..]))
  }

  // Screen and line agree after every command of a run exactly when every command's cursor travel
  // stays within one screen row.
  lemma {:induction false} RunAgrees(s: Session, above: Rows, cmds: seq<Command>)
    requires Agrees(s, above) && forall i :: 0 <= i < |cmds| ==> Typable(cmds[i])
    ensures AgreesThroughout(s, above, cmds) <==> KeepsAll(s.line, cmds)
    ensures KeepsAll(s.line, cmds) ==> Agrees(HandleAll(s, cmds), AboveAll(above, s.line, cmds))
    decreases |cmds|
  {
    if cmds != [] {
      StepAgrees(s, above, cmds[0]);
      if Keeps(s.line, cmds[0]) {
        RunAgrees(Handle(s, cmds[0]), AboveAfter(above, s.line, cmds[0]), cmds[1..]);
      }
    }
  }

  // The longest line that fits in the row of its prompt with the cursor behind it.
  const SHORT: nat := 69

  predicate ShortThroughout(line: Line, cmds: seq<Command>)
    decreases |cmds|
  {
    line.Length() <= SHORT && (cmds == [] || ShortThroughout(Edit(line, cmds[0]), cmds[1..]))
  }

  lemma {:induction false} ShortLinesKeep(line: Line, cmds: seq<Command>)
    requires ShortThroughout(line, cmds)
    ensures KeepsAll(line, cmds)
    decreases |cmds|
  {
    if cmds != [] {
      ShortLinesKeep(Edit(line, cmds[0]), cmds[1..]);
    }
  }

  // A line of any length keeps the agreement while it is only typed at its end and submitted.
  lemma {:induction false} TypingAtTheEndKeeps(line: Line, cmds: seq<Command>)
    requires line.right == [] && forall i :: 0 <= i < |cmds| ==> cmds[i].Insert? || cmds[i].Submit? || cmds[i].Nothing?
    ensures KeepsAll(line, cmds)
    decreases |cmds|
  {
    if cmds != [] {
      TypingAtTheEndKeeps(Edit(line, cmds[0]), cmds[1..]);
    }
  }

  // A line typed up to the end of its first row, and a step back from the start of the second.
  lemma {:induction false} LeftFromRowStart(line: Line, n: nat, c: Byte)
    requires line.right == [] && |line.left| + n == SHORT + 1
    ensures !KeepsAll(line, seq(n, _ => Insert(c)) + [GoLeft])
    decreases n
  {
    var cmds := seq(n, _ => Insert(c)) + [GoLeft];
    if n > 0 {
      assert cmds[1..] == seq(n - 1, _ => Insert(c)) + [GoLeft];
      LeftFromRowStart(Edit(line, cmds[0]), n - 1, c);
    }
  }

  // An insertion that reaches another row leaves the cursor at the start of that row.
  lemma InsertCrosses(p: Paper, above: Rows, line: Line, c: Byte)
    requires Valid(p) && line.Length() < BUF_SIZE && c != NEWLINE && NoNewline(line.right)
    requires p.pos == Place(above, line) && Row(|line.left|) != Row(line.Length() + 1)
    ensures var q := Echo(p, line, Insert(c)); Valid(q) && q.pos % COLS == 0 && q.pos > p.pos
  {
    InsertEcho(p, line, c);
    PutAllLine(p, [c] + line.right);
    CrossingStop(|above|, |PROMPT| + |line.left|, |line.right| + 1);
  }

  // Going back one place too few from a text that runs into a later row.
  lemma CrossingStop(start: nat, i: nat, n: nat)
    requires n > 0 && i / COLS != (i + n) / COLS
    ensures var pos := start * COLS + i; var stop := LeftStop(pos + n, n - 1);
      stop == (start + (i + n) / COLS) * COLS && stop % COLS == 0 && stop > pos
  {
    var row, col := (i + n) / COLS, (i + n) % COLS;
    assert i + n == row * COLS + col && i / COLS < row;
    assert (start * COLS + (i + n)) / COLS == start + row && (start * COLS + (i + n)) % COLS == col;
    assert i < row * COLS;
  }

  // A deletion at the start of a row leaves the cursor at or behind that place.
  lemma DeleteAtRowStart(p: Paper, line: Line)
    requires Valid(p) && p.pos % COLS == 0 && line.left != [] && NoNewline(line.right)
    ensures Echo(p, line, Delete).pos >= p.pos
  {
    DeleteEcho(p, line);
    assert LeftStop(p.pos, 1) == p.pos;
  }

  lemma CrossingNotUndone(s: Session, above: Rows, c: Byte)
    requires Agrees(s, above) && c != NEWLINE && s.line.Length() < BUF_SIZE
    requires Row(|s.line.left|) != Row(s.line.Length() + 1)
    ensures Handle(Handle(s, Insert(c)), Delete).paper.pos > s.paper.pos
  {
    AgreesValid(s, above);
    InsertCrosses(s.paper, above, s.line, c);
    DeleteAtRowStart(Echo(s.paper, s.line, Insert(c)), InsertIn(s.line, c));
  }

  lemma StayingUndone(s: Session, above: Rows, c: Byte)
    requires Agrees(s, above) && c != NEWLINE && s.line.Length() < BUF_SIZE
    requires Row(|s.line.left|) == Row(s.line.Length() + 1)
    ensures Agrees(Handle(Handle(s, Insert(c)), Delete), above)
  {
    StepAgrees(s, above, Insert(c));
    StepAgrees(Handle(s, Insert(c)), above, Delete);
  }

  // Backspace undoes an insertion on the screen too - line, cursor, window and every cell - exactly
  // if the insertion does not reach another row.
  lemma InsertThenDeleteOnScreen(s: Session, above: Rows, c: Byte)
    requires Agrees(s, above) && c != NEWLINE && s.line.Length() < BUF_SIZE
    ensures var s' := Handle(Handle(s, Insert(c)), Delete);
      (&& s'.line == s.line
       && s'.paper.pos == s.paper.pos && s'.paper.top == s.paper.top
       && View(s'.paper) == View(s.paper))
      <==> Row(|s.line.left|) == Row(s.line.Length() + 1)
  {
    var s' := Handle(Handle(s, Insert(c)), Delete);
    if Row(|s.line.left|) == Row(s.line.Length() + 1) {
      InsertThenDelete(s.line, c);
      StayingUndone(s, above, c);
      SameLineSameScreen(s, s', above);
    } else {
      CrossingNotUndone(s, above, c);
    }
  }

  lemma SameLineSameScreen(s: Session, s': Session, above: Rows)
    requires Agrees(s, above) && Agrees(s', above) && s'.line == s.line
    ensures s'.paper.pos == s.paper.pos && s'.paper.top == s.paper.top && View(s'.paper) == View(s.paper)
  {
    AgreesView(s, above);
    AgreesView(s', above);
  }

  // ----- the first prompt

  lemma PrintOnEmptyRow(messages: seq<Byte>, text: seq<Byte>)
    requires Last(Layout(messages)) == [] && NoNewline(text) && |text| < COLS
    ensures var p, above := PutAll(FRESH, messages + text), Init(Layout(messages));
      ShowsText(p, above, text) && p.pos == |above| * COLS + |text|
  {
    var above := Init(Layout(messages));
    PrintAfterClear(messages + text);
    LayoutConcat(messages, text);
    PlainLayout(text);
    assert [] + text == text;
    LayoutRowsFit(messages);
    CarriedIsShown(PutAll(FRESH, messages + text), above, text);
    assert Last(above + [text]) == text;
  }

  // Boot messages that end in a newline end their row.
  lemma BootAgreesAfterNewline(messages: seq<Byte>)
    ensures Agrees(Session(EMPTY, true, PutAll(FRESH, messages + [NEWLINE] + PROMPT)), Init(Layout(messages + [NEWLINE])))
  {
    NewlineEndsRow(messages);
    BootAgrees(messages + [NEWLINE]);
  }

  // Clearing the screen, printing the boot messages and then the prompt at the start of a row
  // gives an empty line that agrees with the screen, below the laid-out messages.
  lemma BootAgrees(messages: seq<Byte>)
    requires Last(Layout(messages)) == []
    ensures Agrees(Session(EMPTY, true, PutAll(FRESH, messages + PROMPT)), Init(Layout(messages)))
  {
    PromptPlain();
    PrintOnEmptyRow(messages, PROMPT);
    assert Prompted(EMPTY) == PROMPT;
  }
}
