/** kernel/tty.c: an in-place line editor that keeps its echo on the console up to date.
    The reference is a pure zipper for the line and pure paper operations for the echo. */
module Tty {
  import opened Bits
  import opened Input
  import P = Paper
  import opened ConsoleDriver

  const BUF_SIZE: nat := 256

  // The text before and after the cursor.
  datatype Line = Line(left: seq<Byte>, right: seq<Byte>)
  {
    function Text(): seq<Byte> { left + right }
    function Length(): nat { |left| + |right| }
  }

  const EMPTY := Line([], [])

  function InsertIn(line: Line, c: Byte): Line {
    if line.Length() >= BUF_SIZE then line else Line(line.left + [c], line.right)
  }

  function DeleteIn(line: Line): Line {
    if line.left == [] then line else Line(line.left[..|line.left| - 1], line.right)
  }

  function LeftIn(line: Line): Line {
    if line.left == [] then line
    else Line(line.left[..|line.left| - 1], [line.left[|line.left| - 1]] + line.right)
  }

  function RightIn(line: Line): Line {
    if line.right == [] then line else Line(line.left + [line.right[0]], line.right[1..])
  }

  datatype Command = Nothing | Insert(c: Byte) | Delete | GoLeft | GoRight | Submit

  // What an event asks for; a printable character wins over the key code.
  function CommandOf(ev: KeyEvent): Command {
    if ev.action != Press then Nothing
    else if ev.ascii != 0 then Insert(ev.ascii)
    else if ev.key == KEY_BACKSPACE then Delete
    else if ev.key == KEY_LEFT then GoLeft
    else if ev.key == KEY_RIGHT then GoRight
    else if ev.key == KEY_ENTER then Submit
    else Nothing
  }

  function Edit(line: Line, cmd: Command): Line {
    match cmd
    case Nothing => line
    case Insert(c) => InsertIn(line, c)
    case Delete => DeleteIn(line)
    case GoLeft => LeftIn(line)
    case GoRight => RightIn(line)
    case Submit => EMPTY
  }

  // "<SnakeOS> "
  const PROMPT: seq<Byte> := [60, 83, 110, 97, 107, 101, 79, 83, 62, 32]

  const SUBMIT_TEXT: seq<Byte> := [P.NEWLINE] + PROMPT

  function StepLeft(p: P.Paper, n: nat): P.Paper
    decreases n
  {
    if n == 0 then p else StepLeft(P.Move(p, -1, 0), n - 1)
  }

  lemma StepLeftOnce(p: P.Paper, n: nat)
    requires n > 0
    ensures StepLeft(p, n) == StepLeft(P.Move(p, -1, 0), n - 1)
  {
  }

  // The console traffic of one command on `line`.
  function Echo(p: P.Paper, line: Line, cmd: Command): P.Paper {
    match cmd
    case Nothing => p
    case Insert(c) =>
      if line.Length() >= BUF_SIZE then p
      else StepLeft(P.PutAll(P.Put(p, c), line.right), |line.right|)
    case Delete =>
      if line.left == [] then p
      else P.Move(P.Put(P.PutAll(P.Move(p, -1, 0), line.right), 0x20), -(|line.right| + 1), 0)
    case GoLeft => if line.left == [] then p else P.Move(p, -1, 0)
    case GoRight => if line.right == [] then p else P.Move(p, 1, 0)
    case Submit => P.PutAll(p, SUBMIT_TEXT)
  }

  datatype Session = Session(line: Line, echo: bool, paper: P.Paper)

  function Handle(s: Session, cmd: Command): Session {
    s.(line := Edit(s.line, cmd), paper := if s.echo then Echo(s.paper, s.line, cmd) else s.paper)
  }

  function HandleAll(s: Session, cmds: seq<Command>): Session
    decreases |cmds|
  {
    if cmds == [] then s else HandleAll(Handle(s, cmds[0]), cmds[1..])
  }

  // `n * (-1)` on a size_t, passed as an int: the product wraps to 64 bits and is cut to 32.
  function NegatedAsInt(n: nat): Int32 {
    var low := n * 0xFFFF_FFFF_FFFF_FFFF % 0x1_0000_0000_0000_0000 % 0x1_0000_0000;
    if low < 0x8000_0000 then low else low - 0x1_0000_0000
  }

  lemma NegatedIsMinus(n: nat)
    requires n <= 0x8000_0000
    ensures NegatedAsInt(n) == 0 - n
  {
    var big := 0x1_0000_0000_0000_0000;
    if n > 0 {
      DivModUnique(n * (big - 1), big, n - 1, big - n);
      assert (big - n) % 0x1_0000_0000 == 0x1_0000_0000 - n;
    }
  }

  class Tty {
    const buf: array<Byte>
    const console: Console
    var len: nat
    var cursor: nat
    var echo: bool

    ghost predicate Valid()
      reads this, buf, console, console.vga.memory
    {
      && buf.Length == BUF_SIZE
      && cursor <= len <= BUF_SIZE
      && console.Valid() && console.active
    }

    ghost function Contents(): Line
      requires buf.Length == BUF_SIZE && cursor <= len <= BUF_SIZE
      reads this, buf
    {
      Line(buf[..cursor], buf[cursor..len])
    }

    ghost function State(): Session
      requires buf.Length == BUF_SIZE && cursor <= len <= BUF_SIZE
      reads this, buf, console
    {
      Session(Contents(), echo, console.paper)
    }

    constructor (console: Console)
      requires console.Valid() && console.active
      ensures Valid() && this.console == console && fresh(buf)
      ensures State() == Session(EMPTY, true, console.paper)
    {
      this.console := console;
      buf := new Byte[BUF_SIZE];
      len, cursor, echo := 0, 0, true;
    }

    // buf[cursor - 1] is removed and the tail moves down by one.
    method CloseGap()
      requires buf.Length == BUF_SIZE && 0 < cursor <= len <= BUF_SIZE
      modifies this`len, this`cursor, buf
      ensures cursor <= len <= BUF_SIZE
      ensures Contents() == DeleteIn(old(Contents()))
    {
      var i: int := cursor - 1;
      while i < len - 1
        modifies buf
        invariant cursor - 1 <= i <= len - 1
        invariant forall k :: 0 <= k < i ==> buf[k] == if k < cursor - 1 then old(buf[k]) else old(buf[k + 1])
        invariant forall k :: i <= k < BUF_SIZE ==> buf[k] == old(buf[k])
      {
        buf[i] := buf[i + 1];
        i := i + 1;
      }
      cursor := cursor - 1;
      len := len - 1;
      assert buf[..cursor] == old(buf[..cursor])[..cursor];
      assert buf[cursor..len] == old(buf[cursor..len]);
    }

    // The tail moves up by one and c takes its place.
    method OpenGap(c: Byte)
      requires buf.Length == BUF_SIZE && cursor <= len < BUF_SIZE
      modifies this`len, this`cursor, buf
      ensures cursor <= len <= BUF_SIZE
      ensures Contents() == InsertIn(old(Contents()), c)
    {
      var i := len;
      while i > cursor
        modifies buf
        invariant cursor <= i <= len
        invariant forall k :: 0 <= k <= i ==> buf[k] == old(buf[k])
        invariant forall k :: i < k <= len ==> buf[k] == old(buf[k - 1])
      {
        buf[i] := buf[i - 1];
        i := i - 1;
      }
      buf[cursor] := c;
      assert buf[..cursor + 1] == old(buf[..cursor]) + [c];
      assert buf[cursor + 1..len + 1] == old(buf[cursor..len]);
      cursor := cursor + 1;
      len := len + 1;
    }

    method RedrawTail()
      requires Valid()
      modifies console`row, console`col, console`paper, console.vga.memory
      ensures Valid()
      ensures console.paper == P.PutAll(old(console.paper), Contents().right)
    {
      var i := cursor;
      while i < len
        invariant cursor <= i <= len
        invariant console.Valid()
        invariant P.PutAll(console.paper, buf[i..len]) == P.PutAll(old(console.paper), buf[cursor..len])
      {
        assert buf[i..len][0] == buf[i] && buf[i..len][1..] == buf[i + 1..len];
        console.PutC(buf[i]);
        i := i + 1;
      }
    }

    method Backspace()
      requires Valid()
      modifies this`len, this`cursor, buf, console`row, console`col, console`paper, console.vga.memory
      ensures Valid()
      ensures State() == Handle(old(State()), Delete)
    {
      if cursor == 0 {
        return;
      }
      CloseGap();
      if !echo {
        return;
      } else {
        EchoBackspace();
      }
    }

    // The tail is printed again one place to the left, with a blank over its last character.
    method EchoBackspace()
      requires Valid()
      modifies console`row, console`col, console`paper, console.vga.memory
      ensures Valid()
      ensures var right := Contents().right;
        console.paper == P.Move(P.Put(P.PutAll(P.Move(old(console.paper), -1, 0), right), 0x20), -(|right| + 1), 0)
    {
      console.MoveCursor(-1, 0);
      RedrawTail();
      console.PutC(0x20);
      MoveBack(len - cursor + 1);
    }

    method MoveBack(charsPrinted: nat)
      requires Valid() && charsPrinted <= BUF_SIZE + 1
      modifies console`row, console`col, console`paper
      ensures Valid() && console.paper == P.Move(old(console.paper), 0 - charsPrinted, 0)
    {
      NegatedIsMinus(charsPrinted);
      console.MoveCursor(NegatedAsInt(charsPrinted), 0);
    }

    method CursorLeft()
      requires Valid()
      modifies this`cursor, console`row, console`col, console`paper
      ensures Valid()
      ensures State() == Handle(old(State()), GoLeft)
    {
      if cursor > 0 {
        cursor := cursor - 1;
        assert buf[..cursor] == old(buf[..cursor])[..cursor];
        assert buf[cursor..len] == [buf[cursor]] + buf[cursor + 1..len];
        if echo {
          console.MoveCursor(-1, 0);
        }
      }
    }

    method CursorRight()
      requires Valid()
      modifies this`cursor, console`row, console`col, console`paper
      ensures Valid()
      ensures State() == Handle(old(State()), GoRight)
    {
      if cursor < len {
        assert buf[..cursor + 1] == buf[..cursor] + [buf[cursor]];
        cursor := cursor + 1;
        if echo {
          console.MoveCursor(1, 0);
        }
      }
    }

    method StepBackOverTail()
      requires Valid()
      modifies console`row, console`col, console`paper
      ensures Valid()
      ensures console.paper == StepLeft(old(console.paper), |Contents().right|)
    {
      var i := cursor;
      ghost var final := StepLeft(console.paper, len - cursor);
      while i < len
        invariant cursor <= i <= len
        invariant console.Valid()
        invariant StepLeft(console.paper, len - i) == final
      {
        StepLeftOnce(console.paper, len - i);
        ghost var p := console.paper;
        console.MoveCursor(-1, 0);
        assert console.paper == P.Move(p, -1, 0);
        i := i + 1;
      }
    }

    method InsertChar(c: Byte)
      requires Valid()
      modifies this`len, this`cursor, buf, console`row, console`col, console`paper, console.vga.memory
      ensures Valid()
      ensures State() == Handle(old(State()), Insert(c))
    {
      if len >= BUF_SIZE {
        return;
      }
      OpenGap(c);
      if echo {
        console.PutC(c);
        RedrawTail();
        StepBackOverTail();
      }
    }

    method WriteText(s: seq<Byte>)
      requires Valid() && forall i :: 0 <= i < |s| ==> s[i] != 0
      modifies console`row, console`col, console`paper, console.vga.memory
      ensures Valid() && console.paper == P.PutAll(old(console.paper), s)
    {
      NoNulIsWhole(s);
      console.Write(P.Str(s));
    }

    method Newline()
      requires Valid()
      modifies this`len, this`cursor, console`row, console`col, console`paper, console.vga.memory
      ensures Valid()
      ensures State() == Handle(old(State()), Submit)
    {
      if echo {
        WriteText(SUBMIT_TEXT);
      }
      len := 0;
      cursor := 0;
    }

    method HandleKey(ev: KeyEvent)
      requires Valid()
      modifies this`len, this`cursor, buf, console`row, console`col, console`paper, console.vga.memory
      ensures Valid()
      ensures State() == Handle(old(State()), CommandOf(ev))
    {
      if ev.action != Press {
        return;
      }
      if ev.ascii != 0 {
        InsertChar(ev.ascii);
        return;
      }
      if ev.key == KEY_BACKSPACE {
        Backspace();
      } else if ev.key == KEY_LEFT {
        CursorLeft();
      } else if ev.key == KEY_RIGHT {
        CursorRight();
      } else if ev.key == KEY_ENTER {
        Newline();
      }
    }
  }

  lemma {:induction false} NoNulIsWhole(s: seq<Byte>)
    requires forall i :: 0 <= i < |s| ==> s[i] != 0
    ensures P.UpToNul(s) == s
    decreases |s|
  {
    if s != [] {
      NoNulIsWhole(s[1..]);
    }
  }

  // ----- the line as a zipper

  // Any stream of commands keeps the line within its buffer.
  lemma {:induction false} LineFits(s: Session, cmds: seq<Command>)
    requires s.line.Length() <= BUF_SIZE
    ensures HandleAll(s, cmds).line.Length() <= BUF_SIZE
    decreases |cmds|
  {
    if cmds != [] {
      LineFits(Handle(s, cmds[0]), cmds[1..]);
    }
  }

  // Moving the cursor never changes the text.
  lemma MovesKeepText(line: Line)
    ensures LeftIn(line).Text() == line.Text() && RightIn(line).Text() == line.Text()
    ensures line.left != [] ==> RightIn(LeftIn(line)) == line
    ensures line.right != [] ==> LeftIn(RightIn(line)) == line
  {
  }

  // Backspace undoes an insertion, except that a full buffer ignores the insertion.
  lemma InsertThenDelete(line: Line, c: Byte)
    requires line.Length() <= BUF_SIZE
    ensures DeleteIn(InsertIn(line, c)) == line <==> line.Length() < BUF_SIZE || line.left == []
  {
    if line.Length() < BUF_SIZE {
      assert (line.left + [c])[..|line.left|] == line.left;
    }
  }

  // Every command, as an edit of a text at a place: nothing but the character in question changes.
  lemma EditOnText(line: Line, c: Byte)
    ensures var text, i := line.Text(), |line.left|;
      && Edit(line, Insert(c)) == (if |text| < 256 then Line(text[..i] + [c], text[i..]) else line)
      && Edit(line, Delete) == (if i > 0 then Line(text[..i - 1], text[i..]) else line)
      && Edit(line, GoLeft) == (if i > 0 then Line(text[..i - 1], text[i - 1..]) else line)
      && Edit(line, GoRight) == (if i < |text| then Line(text[..i + 1], text[i + 1..]) else line)
      && Edit(line, Submit) == Line([], []) && Edit(line, Nothing) == line
  {
    var text, i := line.Text(), |line.left|;
    assert text[..i] == line.left && text[i..] == line.right;
    if i > 0 {
      assert text[..i - 1] == line.left[..i - 1];
      assert text[i - 1..] == [line.left[i - 1]] + line.right;
    }
    if i < |text| {
      assert text[..i + 1] == line.left + [line.right[0]];
      assert text[i + 1..] == line.right[1..];
    }
  }

  // What an event asks for: releases nothing, a character its insertion, and without one the four editing keys.
  lemma CommandOfEvent(ev: KeyEvent)
    ensures ev.action == Release ==> CommandOf(ev) == Nothing
    ensures forall c :: CommandOf(ev) == Insert(c) <==> ev.action == Press && ev.ascii == c && c != 0
    ensures ev.action == Press && ev.ascii == 0 ==>
      && (CommandOf(ev) == Delete <==> ev.key == KEY_BACKSPACE) && (CommandOf(ev) == Submit <==> ev.key == KEY_ENTER)
      && (CommandOf(ev) == GoLeft <==> ev.key == KEY_LEFT) && (CommandOf(ev) == GoRight <==> ev.key == KEY_RIGHT)
  {
  }

  // Without echo the line is edited all the same, and the console is left alone.
  lemma EchoOff(s: Session, cmd: Command)
    ensures Handle(s, cmd).line == Edit(s.line, cmd) && Handle(s, cmd).echo == s.echo
    ensures !s.echo ==> Handle(s, cmd).paper == s.paper
  {
  }

  // The prompt, spelled.
  lemma PromptSpelled()
    ensures |PROMPT| == 10 && forall i :: 0 <= i < 10 ==> PROMPT[i] == "<SnakeOS> "[i] as int
    ensures SUBMIT_TEXT == [10] + PROMPT
  {
  }
}
