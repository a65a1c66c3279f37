/** init/kmain.c: the console, the boot messages, the prompt, and then keyboard interrupts for ever. */
module Kmain {
  import opened Bits
  import opened Vga
  import opened ConsoleDriver
  import opened TextLayout
  import opened Transcript
  import opened Tty
  import P = Paper
  import Spinlock
  import Kprint
  import K = Keyboard

  const OFF := K.Modifiers(false, false)

  // One keyboard interrupt for each scancode.
  method Interrupts(keyboard: K.KeyboardDriver, codes: seq<Byte>)
    requires keyboard.Valid()
    modifies keyboard, keyboard.lock, keyboard.cpu
    modifies keyboard.tty`len, keyboard.tty`cursor, keyboard.tty.buf
    modifies keyboard.tty.console`row, keyboard.tty.console`col, keyboard.tty.console`paper
    modifies keyboard.tty.console.vga.memory
    ensures keyboard.Valid() && keyboard.State() == K.ReceiveAll(old(keyboard.State()), codes)
  {
    var i := 0;
    while i < |codes|
      invariant 0 <= i <= |codes| && keyboard.Valid()
      invariant K.ReceiveAll(keyboard.State(), codes[i..]) == K.ReceiveAll(old(keyboard.State()), codes)
    {
      assert codes[i..][0] == codes[i] && codes[i..][1..] == codes[i + 1..];
      keyboard.HandleScancode(codes[i]);
      i := i + 1;
    }
  }

  function Booted(messages: seq<Byte>): Session {
    Session(EMPTY, true, P.PutAll(P.FRESH, messages + PROMPT))
  }

  // console_init and the messages that follow it
  method BootConsole(memory: array<Cell>, fmt: seq<Byte>, args: seq<Kprint.Arg>) returns (console: Console)
    requires memory.Length == CELLS && Kprint.Formed(fmt, args)
    modifies memory
    ensures fresh(console) && console.vga.memory == memory && console.Valid() && console.active
    ensures console.paper == P.PutAll(P.FRESH, Kprint.Render(fmt, args))
  {
    var vga := new TextBuffer(memory);
    console := new Console(vga);
    console.Init();
    Kprint.Print(console, fmt, args);
  }

  // The tty and the keyboard driver on top of a console
  method Devices(console: Console) returns (keyboard: K.KeyboardDriver)
    requires console.Valid() && console.active
    ensures keyboard.Valid() && keyboard.tty.console == console
    ensures keyboard.State() == K.System(OFF, Session(EMPTY, true, console.paper))
    ensures fresh(keyboard) && fresh(keyboard.lock) && fresh(keyboard.cpu) && fresh(keyboard.tty) && fresh(keyboard.tty.buf)
  {
    var cpu := new Spinlock.Cpu(true);
    var tty := new Tty(console);
    keyboard := new K.KeyboardDriver(cpu, tty);
  }

  // Console, messages, prompt, and the devices.
  method Boot(memory: array<Cell>, fmt: seq<Byte>, args: seq<Kprint.Arg>) returns (keyboard: K.KeyboardDriver)
    requires memory.Length == CELLS && Kprint.Formed(fmt, args)
    modifies memory
    ensures keyboard.Valid() && keyboard.tty.console.vga.memory == memory
    ensures keyboard.State() == K.System(OFF, Booted(Kprint.Render(fmt, args)))
    ensures fresh(keyboard) && fresh(keyboard.lock) && fresh(keyboard.cpu)
    ensures fresh(keyboard.tty) && fresh(keyboard.tty.buf) && fresh(keyboard.tty.console)
  {
    var console := BootConsole(memory, fmt, args);
    P.PutAllConcat(P.FRESH, Kprint.Render(fmt, args), PROMPT);
    PrintPrompt(console);
    keyboard := Devices(console);
  }

  // From any contents of video memory: after boot messages that end a row and the prompt, any
  // scancodes whose cursor travel stays within screen rows leave in video memory the last 25 rows
  // of messages, submitted lines and current line, and the cursor fields at the place in the line.
  method Run(memory: array<Cell>, fmt: seq<Byte>, args: seq<Kprint.Arg>, codes: seq<Byte>)
    returns (keyboard: K.KeyboardDriver)
    requires memory.Length == CELLS && Kprint.Formed(fmt, args)
    requires Last(Layout(Kprint.Render(fmt, args))) == []
    requires KeepsAll(EMPTY, K.Commands(OFF, codes))
    modifies memory
    ensures keyboard.Valid() && keyboard.tty.console.vga.memory == memory
    ensures var above := AboveAll(Init(Layout(Kprint.Render(fmt, args))), EMPTY, K.Commands(OFF, codes));
      var tty := keyboard.tty; var console := tty.console;
      && memory[..] == ScreenOf(LastRows(above + Chunks(Prompted(tty.Contents()))))
      && console.row == |above| + Row(tty.cursor) - WindowTop(above + Chunks(Prompted(tty.Contents())))
      && console.col == (|PROMPT| + tty.cursor) % COLS
  {
    keyboard := Boot(memory, fmt, args);
    Interrupts(keyboard, codes);
    K.ScreenOfSession(Kprint.Render(fmt, args), codes);
    CursorFields(keyboard.tty.console);
  }

  // The paper cursor, read off the fields.
  lemma CursorFields(console: Console)
    requires console.Valid() && console.active
    ensures console.paper.pos / COLS == console.paper.top + console.row && console.paper.pos % COLS == console.col
  {
    DivModUnique(console.paper.pos, COLS, console.paper.top + console.row, console.col);
  }

  method PrintPrompt(console: Console)
    requires console.Valid() && console.active
    modifies console`row, console`col, console`paper, console.vga.memory
    ensures console.Valid() && console.paper == P.PutAll(old(console.paper), PROMPT)
  {
    PrintPlain(console, PROMPT);
  }

  method PrintPlain(console: Console, s: seq<Byte>)
    requires console.Valid() && console.active && Kprint.Plain(s)
    modifies console`row, console`col, console`paper, console.vga.memory
    ensures console.Valid() && console.paper == P.PutAll(old(console.paper), s)
  {
    Kprint.PlainRender(s, []);
    Kprint.Print(console, s, []);
  }
}
