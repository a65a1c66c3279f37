/** drivers/keyboard.c: scancodes (set 1) to key events, with shift and caps lock. */
module Keyboard {
  import opened Bits
  import opened Input
  import opened Spinlock
  import opened Tty
  import opened TextLayout
  import opened Transcript
  import Vga
  import P = Paper

  const LEFT_SHIFT: Byte := 0x2A
  const RIGHT_SHIFT: Byte := 0x36
  const CAPS_LOCK: Byte := 0x3A
  const RELEASED: Byte := 0x80

  function ScancodeToKeycode(scancode: Byte): KeyCode {
    match scancode
    case 0x1C => KEY_ENTER
    case 0x0E => KEY_BACKSPACE
    case 0x4B => KEY_LEFT
    case 0x4D => KEY_RIGHT
    case 0x48 => KEY_UP
    case 0x50 => KEY_DOWN
    case 0x1E => Letter('a')
    case 0x30 => Letter('b')
    case 0x2E => Letter('c')
    case 0x20 => Letter('d')
    case 0x12 => Letter('e')
    case 0x21 => Letter('f')
    case 0x22 => Letter('g')
    case 0x23 => Letter('h')
    case 0x17 => Letter('i')
    case 0x24 => Letter('j')
    case 0x25 => Letter('k')
    case 0x26 => Letter('l')
    case 0x32 => Letter('m')
    case 0x31 => Letter('n')
    case 0x18 => Letter('o')
    case 0x19 => Letter('p')
    case 0x10 => Letter('q')
    case 0x13 => Letter('r')
    case 0x1F => Letter('s')
    case 0x14 => Letter('t')
    case 0x16 => Letter('u')
    case 0x2F => Letter('v')
    case 0x11 => Letter('w')
    case 0x2D => Letter('x')
    case 0x15 => Letter('y')
    case 0x2C => Letter('z')
    case 0x0B => KEY_0
    case 0x0C => KEY_MINUS
    case 0x0D => KEY_EQUAL
    case 0x1A => KEY_LBRACKET
    case 0x1B => KEY_RBRACKET
    case 0x27 => KEY_SEMICOLON
    case 0x28 => KEY_APOSTROPHE
    case 0x29 => KEY_GRAVE
    case 0x2B => KEY_BACKSLASH
    case 0x33 => KEY_COMMA
    case 0x34 => KEY_DOT
    case 0x35 => KEY_SLASH
    case 0x39 => KEY_SPACE
    case _ => if 0x02 <= scancode <= 0x0A then KEY_0 + (scancode - 1) else KEY_NONE
  }

  function Letter(c: char): KeyCode
    requires 'a' <= c <= 'z'
  {
    KEY_A + (c as int - 'a' as int)
  }

  const UNSHIFTED: seq<Byte> := [0x30, 0x31, 0x32, 0x33, 0x34, 0x35, 0x36, 0x37, 0x38, 0x39]

  // The bytes of the string literal as it is stored, in UTF-8: the pound sign is the two bytes C2 A3,
  // so every later glyph sits one place too far.
  const SHIFTED: seq<Byte> := [0x29, 0x21, 0x22, 0xC2, 0xA3, 0x24, 0x25, 0x5E, 0x26, 0x2A, 0x28]

  function Ascii(c: char): Byte
    requires c as int < 128
  {
    c as int
  }

  function KeycodeToAscii(key: KeyCode, shift: bool, caps: bool): Byte {
    if KEY_A <= key <= KEY_Z then
      if shift != caps then Ascii('A') + key - KEY_A else Ascii('a') + key - KEY_A
    else if KEY_0 <= key <= KEY_9 then
      if shift then SHIFTED[key - KEY_0] else UNSHIFTED[key - KEY_0]
    else if key == KEY_MINUS then if shift then Ascii('_') else Ascii('-')
    else if key == KEY_EQUAL then if shift then Ascii('+') else Ascii('=')
    else if key == KEY_LBRACKET then if shift then Ascii('{') else Ascii('[')
    else if key == KEY_RBRACKET then if shift then Ascii('}') else Ascii(']')
    else if key == KEY_SEMICOLON then if shift then Ascii(':') else Ascii(';')
    else if key == KEY_APOSTROPHE then if shift then Ascii('"') else Ascii('\'')
    else if key == KEY_GRAVE then if shift then Ascii('~') else Ascii('`')
    else if key == KEY_BACKSLASH then if shift then Ascii('|') else Ascii('\\')
    else if key == KEY_COMMA then if shift then Ascii('<') else Ascii(',')
    else if key == KEY_DOT then if shift then Ascii('>') else Ascii('.')
    else if key == KEY_SLASH then if shift then Ascii('?') else Ascii('/')
    else if key == KEY_SPACE then Ascii(' ')
    else 0
  }

  datatype Modifiers = Modifiers(shift: bool, caps: bool)

  // Bit 7 is set on release.
  predicate IsPress(code: Byte) {
    code < RELEASED
  }

  function KeyOf(code: Byte): Byte {
    code % RELEASED
  }

  predicate IsShift(code: Byte) {
    KeyOf(code) == LEFT_SHIFT || KeyOf(code) == RIGHT_SHIFT
  }

  function Modify(m: Modifiers, code: Byte): Modifiers {
    if IsShift(code) then m.(shift := IsPress(code))
    else if code == CAPS_LOCK then m.(caps := !m.caps)
    else m
  }

  // What the tty is asked to do, under the modifiers that the code leaves.
  function CommandFor(m: Modifiers, code: Byte): Command {
    var key := ScancodeToKeycode(KeyOf(code));
    if key == KEY_NONE || !IsPress(code) then Nothing
    else CommandOf(KeyEvent(key, Press, m.shift, KeycodeToAscii(key, m.shift, m.caps)))
  }

  datatype System = System(mods: Modifiers, session: Session)

  function Receive(s: System, code: Byte): System {
    var mods := Modify(s.mods, code);
    System(mods, Handle(s.session, CommandFor(mods, code)))
  }

  function ReceiveAll(s: System, codes: seq<Byte>): System
    decreases |codes|
  {
    if codes == [] then s else ReceiveAll(Receive(s, codes[0]), codes[1..])
  }

  class KeyboardDriver {
    var shift: bool
    var caps: bool
    const lock: SpinLock
    const cpu: Cpu
    const tty: Tty

    ghost predicate Valid()
      reads this, lock, tty, tty.buf, tty.console, tty.console.vga.memory
    {
      tty.Valid() && !lock.locked
    }

    ghost function State(): System
      requires tty.buf.Length == BUF_SIZE && tty.cursor <= tty.len <= BUF_SIZE
      reads this, tty, tty.buf, tty.console
    {
      System(Modifiers(shift, caps), tty.State())
    }

    constructor (cpu: Cpu, tty: Tty)
      requires tty.Valid()
      ensures Valid() && this.cpu == cpu && this.tty == tty && fresh(lock)
      ensures State() == System(Modifiers(false, false), tty.State())
    {
      this.cpu := cpu;
      this.tty := tty;
      lock := new SpinLock();
      shift, caps := false, false;
    }

    // The modifier keys of one scancode, with the lock held.
    method TrackModifiers(scancode: Byte) returns (pressed: bool, code: Byte)
      modifies this`shift, this`caps
      ensures pressed == IsPress(scancode) && code == KeyOf(scancode)
      ensures Modifiers(shift, caps) == Modify(Modifiers(old(shift), old(caps)), scancode)
    {
      ModifyByBits(Modifiers(shift, caps), scancode);
      pressed := And(scancode, 0x80) == 0;
      code := And(scancode, 0x7F);
      if code == LEFT_SHIFT || code == RIGHT_SHIFT {
        shift := pressed;
      } else if code == CAPS_LOCK {
        if pressed {
          caps := !caps;
        }
      }
    }

    // Both ways out release the lock and give IF its value back.
    method HandleScancode(scancode: Byte)
      requires Valid()
      modifies this, lock, cpu
      modifies tty`len, tty`cursor, tty.buf
      modifies tty.console`row, tty.console`col, tty.console`paper, tty.console.vga.memory
      ensures Valid() && cpu.interrupts == old(cpu.interrupts)
      ensures State() == Receive(old(State()), scancode)
    {
      var ok := lock.Lock(cpu);
      assert ok;
      var pressed, code := TrackModifiers(scancode);
      ghost var m := Modify(old(State()).mods, scancode);
      EventOfCode(m, scancode);
      var key := ScancodeToKeycode(code);
      if key == KEY_NONE {
        ok := lock.Unlock(cpu);
        assert tty.State() == Handle(old(tty.State()), CommandFor(m, scancode));
        return;
      }
      var mods, capsNow := shift, caps;
      ok := lock.Unlock(cpu);
      var ascii := 0;
      if pressed {
        ascii := KeycodeToAscii(key, mods, capsNow);
      }
      assert tty.State() == old(tty.State());
      tty.HandleKey(KeyEvent(key, if pressed then Action.Press else Action.Release, mods, ascii));
      assert tty.State() == Handle(old(tty.State()), CommandFor(m, scancode));
    }
  }

  lemma LowBits(code: Byte)
    ensures And(code, 0x7F) == KeyOf(code)
  {
    assert Pow2(7) == 0x80;
    AndMask(code, 7);
  }

  lemma TopBit(code: Byte)
    ensures And(code, 0x80) == 0 <==> IsPress(code)
  {
    assert Pow2(7) == 0x80;
    AndBit(code, 7);
  }

  // The two masks split a scancode into release flag and key.
  lemma ScancodeBits(code: Byte)
    ensures And(code, 0x7F) == KeyOf(code)
    ensures And(code, 0x80) == 0 <==> IsPress(code)
  {
    LowBits(code);
    TopBit(code);
  }

  lemma ModifyByBits(m: Modifiers, scancode: Byte)
    ensures var pressed, code := And(scancode, 0x80) == 0, And(scancode, 0x7F);
      && pressed == IsPress(scancode) && code == KeyOf(scancode)
      && Modify(m, scancode) == (if code == LEFT_SHIFT || code == RIGHT_SHIFT then m.(shift := pressed)
                                 else if code == CAPS_LOCK && pressed then m.(caps := !m.caps) else m)
  {
    ScancodeBits(scancode);
    assert scancode == KeyOf(scancode) + if IsPress(scancode) then 0 else RELEASED;
  }

  // The event that is built from a code carries out its command.
  lemma EventOfCode(m: Modifiers, code: Byte)
    ensures var key := ScancodeToKeycode(KeyOf(code));
      var ascii := if IsPress(code) then KeycodeToAscii(key, m.shift, m.caps) else 0;
      var action := if IsPress(code) then Action.Press else Action.Release;
      CommandFor(m, code) == if key == KEY_NONE then Nothing else CommandOf(KeyEvent(key, action, m.shift, ascii))
  {
  }

  // ----- what a stream of scancodes means

  function CapsPresses(codes: seq<Byte>): nat {
    if codes == [] then 0 else (if codes[0] == CAPS_LOCK then 1 else 0) + CapsPresses(codes[1..])
  }

  lemma CapsStep(s: System, code: Byte)
    ensures Receive(s, code).mods.caps == if code == CAPS_LOCK then !s.mods.caps else s.mods.caps
  {
  }

  // Caps lock is the parity of its make codes; its release and every other code leave it alone.
  lemma {:induction false} CapsIsParity(s: System, codes: seq<Byte>)
    ensures ReceiveAll(s, codes).mods.caps == (s.mods.caps != (CapsPresses(codes) % 2 == 1))
    decreases |codes|
  {
    if codes != [] {
      CapsStep(s, codes[0]);
      CapsIsParity(Receive(s, codes[0]), codes[1..]);
    }
  }

  predicate NoShift(codes: seq<Byte>) {
    forall i :: 0 <= i < |codes| ==> !IsShift(codes[i])
  }

  // Shift is the direction of the last shift code.
  lemma {:induction false} ShiftIsLastDirection(s: System, before: seq<Byte>, code: Byte, after: seq<Byte>)
    requires IsShift(code) && NoShift(after)
    ensures ReceiveAll(s, before + [code] + after).mods.shift == IsPress(code)
    decreases |before|
  {
    var codes := before + [code] + after;
    if before == [] {
      assert codes[1..] == after;
      ShiftStays(Receive(s, code), after);
    } else {
      assert codes[1..] == before[1..] + [code] + after;
      ShiftIsLastDirection(Receive(s, before[0]), before[1..], code, after);
    }
  }

  lemma {:induction false} ShiftStays(s: System, codes: seq<Byte>)
    requires NoShift(codes)
    ensures ReceiveAll(s, codes).mods.shift == s.mods.shift
    decreases |codes|
  {
    if codes != [] {
      ShiftStays(Receive(s, codes[0]), codes[1..]);
    }
  }

  // Is this shift key physically down after the stream?
  function Down(key: Byte, codes: seq<Byte>): bool {
    if codes == [] then false
    else if KeyOf(codes[|codes| - 1]) == key then IsPress(codes[|codes| - 1])
    else Down(key, codes[..|codes| - 1])
  }

  function LastShiftIsRelease(codes: seq<Byte>): bool {
    if codes == [] then false
    else if IsShift(codes[|codes| - 1]) then !IsPress(codes[|codes| - 1])
    else LastShiftIsRelease(codes[..|codes| - 1])
  }

  lemma {:induction false} ReceiveLast(s: System, codes: seq<Byte>)
    requires codes != []
    ensures ReceiveAll(s, codes) == Receive(ReceiveAll(s, codes[..|codes| - 1]), codes[|codes| - 1])
    decreases |codes|
  {
    if |codes| > 1 {
      assert codes[1..][..|codes| - 2] == codes[..|codes| - 1][1..];
      ReceiveLast(Receive(s, codes[0]), codes[1..]);
    }
  }

  // The one flag for two keys: it says whether a shift key is down, except after one of the two
  // was released while the other stayed down.
  lemma {:induction false} ShiftFlagMeansDown(s: System, codes: seq<Byte>)
    requires !s.mods.shift
    ensures var down := Down(LEFT_SHIFT, codes) || Down(RIGHT_SHIFT, codes);
      && (ReceiveAll(s, codes).mods.shift == down <==> !(LastShiftIsRelease(codes) && down))
      && (ReceiveAll(s, codes).mods.shift ==> down)
      && (LastShiftIsRelease(codes) ==> !ReceiveAll(s, codes).mods.shift)
    decreases |codes|
  {
    if codes != [] {
      ReceiveLast(s, codes);
      ShiftFlagMeansDown(s, codes[..|codes| - 1]);
    }
  }

  // Both shift keys pressed, the left one released: the right one is down and the flag is off.
  lemma TwoShiftsExample(s: System)
    ensures var codes := [0x2A, 0x36, 0xAA]; Down(RIGHT_SHIFT, codes) && !ReceiveAll(s, codes).mods.shift
  {
    var codes: seq<Byte> := [0x2A, 0x36, 0xAA];
    assert codes == [0x2A, 0x36] + [0xAA] + [];
    ShiftIsLastDirection(s, [0x2A, 0x36], 0xAA, []);
    assert codes[..2] == [0x2A, 0x36];
    assert Down(RIGHT_SHIFT, codes[..2]);
  }

  // Dropping every release code except those of the shift keys changes nothing.
  function Needed(codes: seq<Byte>): seq<Byte> {
    if codes == [] then []
    else (if IsPress(codes[0]) || IsShift(codes[0]) then [codes[0]] else []) + Needed(codes[1..])
  }

  lemma {:induction false} ReleasesIgnored(s: System, codes: seq<Byte>)
    ensures ReceiveAll(s, Needed(codes)) == ReceiveAll(s, codes)
    decreases |codes|
  {
    if codes != [] {
      var rest := Needed(codes[1..]);
      if IsPress(codes[0]) || IsShift(codes[0]) {
        assert Needed(codes)[1..] == rest;
        ReleasesIgnored(Receive(s, codes[0]), codes[1..]);
      } else {
        assert Needed(codes) == rest;
        assert Receive(s, codes[0]) == s;
        ReleasesIgnored(s, codes[1..]);
      }
    }
  }

  // The rows of the keyboard, from left to right.
  const DIGIT_ROW := "1234567890"
  const TOP_ROW := "qwertyuiop"
  const HOME_ROW := "asdfghjkl"
  const BOTTOM_ROW := "zxcvbnm"

  // Scancodes run along the rows of the QWERTY layout.
  lemma RowsOfKeys(i: nat, caps: bool)
    ensures i < 10 ==> KeycodeToAscii(ScancodeToKeycode(0x02 + i), false, caps) == Ascii(DIGIT_ROW[i])
    ensures i < 10 ==> ScancodeToKeycode(0x10 + i) == Letter(TOP_ROW[i])
    ensures i < 9 ==> ScancodeToKeycode(0x1E + i) == Letter(HOME_ROW[i])
    ensures i < 7 ==> ScancodeToKeycode(0x2C + i) == Letter(BOTTOM_ROW[i])
  {
  }

  // A letter key types its letter, in upper case when exactly one of shift and caps lock is on.
  lemma LetterCase(m: Modifiers, code: Byte, c: char)
    requires 'a' <= c <= 'z' && IsPress(code) && ScancodeToKeycode(code) == Letter(c)
    ensures CommandFor(m, code) == Insert(if m.shift != m.caps then c as int - 32 else c as int)
  {
    assert KeyOf(code) == code;
    LetterAscii(c, m.shift, m.caps);
  }

  lemma LetterAscii(c: char, shift: bool, caps: bool)
    requires 'a' <= c <= 'z'
    ensures KeycodeToAscii(Letter(c), shift, caps) == if shift != caps then c as int - 32 else c as int
  {
  }

  // The keyboard types neither a newline nor a NUL.
  lemma TypedCharacters(m: Modifiers, code: Byte)
    ensures Typable(CommandFor(m, code))
    ensures CommandFor(m, code).Insert? ==> CommandFor(m, code).c != 0
  {
  }

  // Each editing command has exactly one code, whatever the modifiers.
  lemma EditingCodes(m: Modifiers, code: Byte)
    ensures CommandFor(m, code) == GoLeft <==> code == 0x4B
    ensures CommandFor(m, code) == GoRight <==> code == 0x4D
    ensures CommandFor(m, code) == Delete <==> code == 0x0E
    ensures CommandFor(m, code) == Submit <==> code == 0x1C
  {
    EditingKeys(KeyOf(code));
    EditingEvents(ScancodeToKeycode(KeyOf(code)), m);
    assert IsPress(code) ==> KeyOf(code) == code;
  }

  lemma EditingKeys(code: Byte)
    ensures ScancodeToKeycode(code) == KEY_LEFT <==> code == 0x4B
    ensures ScancodeToKeycode(code) == KEY_RIGHT <==> code == 0x4D
    ensures ScancodeToKeycode(code) == KEY_BACKSPACE <==> code == 0x0E
    ensures ScancodeToKeycode(code) == KEY_ENTER <==> code == 0x1C
  {
  }

  lemma EditingEvents(key: KeyCode, m: Modifiers)
    ensures var cmd := CommandOf(KeyEvent(key, Press, m.shift, KeycodeToAscii(key, m.shift, m.caps)));
      && (cmd == GoLeft <==> key == KEY_LEFT) && (cmd == GoRight <==> key == KEY_RIGHT)
      && (cmd == Delete <==> key == KEY_BACKSPACE) && (cmd == Submit <==> key == KEY_ENTER)
  {
  }

  // The UK layout the digit row is meant to have, in Latin-1.
  const UK_SHIFTED: seq<Byte> := [0x29, 0x21, 0x22, 0xA3, 0x24, 0x25, 0x5E, 0x26, 0x2A, 0x28]

  // Shifted digits type the glyph of the layout for 0, 1 and 2 only; 3 types the first byte of the pound sign, and
  // every later digit the glyph of the digit before it.
  lemma ShiftedDigitGlyph(d: nat, caps: bool)
    requires d < 10
    ensures KeycodeToAscii(KEY_0 + d, true, caps) == UK_SHIFTED[d] <==> d <= 2
    ensures d == 3 ==> KeycodeToAscii(KEY_0 + d, true, caps) == 0xC2
    ensures d >= 4 ==> KeycodeToAscii(KEY_0 + d, true, caps) == UK_SHIFTED[d - 1]
  {
  }

  // The digit row, left to right, without and with shift; caps lock makes no difference.
  lemma DigitKeys(m: Modifiers, i: nat)
    requires i < 10
    ensures var plain: seq<Byte>, shifted: seq<Byte> :=
      [0x31, 0x32, 0x33, 0x34, 0x35, 0x36, 0x37, 0x38, 0x39, 0x30],
      [0x21, 0x22, 0xC2, 0xA3, 0x24, 0x25, 0x5E, 0x26, 0x2A, 0x29];
      CommandFor(m, 0x02 + i) == Insert(if m.shift then shifted[i] else plain[i])
  {
    DigitCodes(i);
  }

  lemma DigitCodes(i: nat)
    requires i < 10
    ensures IsPress(0x02 + i) && KeyOf(0x02 + i) == 0x02 + i
    ensures ScancodeToKeycode(0x02 + i) == if i == 9 then 27 else 28 + i
  {
  }

  // The codes of the punctuation keys and of the space bar
  const PUNCTUATION: seq<Byte> := [0x0C, 0x0D, 0x1A, 0x1B, 0x27, 0x28, 0x29, 0x2B, 0x33, 0x34, 0x35, 0x39]

  // - = [ ] ; ' ` \ , . / and space, without and with shift; caps lock makes no difference.
  lemma PunctuationKeys(m: Modifiers, i: nat)
    requires i < 12
    ensures var plain: seq<Byte>, shifted: seq<Byte> :=
      [0x2D, 0x3D, 0x5B, 0x5D, 0x3B, 0x27, 0x60, 0x5C, 0x2C, 0x2E, 0x2F, 0x20],
      [0x5F, 0x2B, 0x7B, 0x7D, 0x3A, 0x22, 0x7E, 0x7C, 0x3C, 0x3E, 0x3F, 0x20];
      CommandFor(m, PUNCTUATION[i]) == Insert(if m.shift then shifted[i] else plain[i])
  {
    PunctuationCodes(i);
  }

  lemma PunctuationCodes(i: nat)
    requires i < 12
    ensures IsPress(PUNCTUATION[i]) && KeyOf(PUNCTUATION[i]) == PUNCTUATION[i]
    ensures ScancodeToKeycode(PUNCTUATION[i]) == [50, 51, 52, 53, 54, 55, 56, 57, 58, 59, 60, 61][i]
  {
  }

  // The codes that type a character: both digit row and letter rows, punctuation and the space bar
  predicate Types(code: Byte) {
    || 0x02 <= code <= 0x0B || 0x10 <= code <= 0x19 || 0x1E <= code <= 0x26 || 0x2C <= code <= 0x32
    || code in PUNCTUATION
  }

  // Every other code, releases and the up and down keys included, asks for nothing but the four editing commands.
  lemma OtherCodes(m: Modifiers, code: Byte)
    ensures CommandFor(m, code).Insert? <==> Types(code)
    ensures !Types(code) && code !in {0x0E, 0x1C, 0x4B, 0x4D} ==> CommandFor(m, code) == Nothing
  {
    KeysThatType(KeyOf(code));
    CharactersOfKeys(ScancodeToKeycode(KeyOf(code)), m);
    EditingKeys(KeyOf(code));
    assert IsPress(code) ==> KeyOf(code) == code;
  }

  lemma KeysThatType(code: Byte)
    ensures var key := ScancodeToKeycode(code);
      Types(code) <==> KEY_A <= key <= KEY_9 || KEY_MINUS <= key
  {
  }

  lemma CharactersOfKeys(key: KeyCode, m: Modifiers)
    ensures KeycodeToAscii(key, m.shift, m.caps) != 0 <==> KEY_A <= key <= KEY_9 || KEY_MINUS <= key
  {
  }

  // ----- from scancodes to the screen

  function Commands(m: Modifiers, codes: seq<Byte>): seq<Command>
    decreases |codes|
  {
    if codes == [] then []
    else
      var m' := Modify(m, codes[0]);
      [CommandFor(m', codes[0])] + Commands(m', codes[1..])
  }

  lemma {:induction false} ReceiveIsHandle(s: System, codes: seq<Byte>)
    ensures ReceiveAll(s, codes).session == HandleAll(s.session, Commands(s.mods, codes))
    ensures forall i :: 0 <= i < |Commands(s.mods, codes)| ==> Typable(Commands(s.mods, codes)[i])
    decreases |codes|
  {
    if codes != [] {
      var m' := Modify(s.mods, codes[0]);
      TypedCharacters(m', codes[0]);
      ReceiveIsHandle(Receive(s, codes[0]), codes[1..]);
      assert Commands(s.mods, codes)[1..] == Commands(m', codes[1..]);
    }
  }

  // After boot messages that end a row and the prompt, any stream of scancodes whose cursor travel
  // stays within screen rows shows the last 25 rows of: the messages, every submitted line behind
  // its prompt, the current line behind its prompt.
  lemma ScreenOfSession(messages: seq<Byte>, codes: seq<Byte>)
    requires Last(Layout(messages)) == []
    ensures var off := Modifiers(false, false);
      var s0 := Session(EMPTY, true, P.PutAll(P.FRESH, messages + PROMPT));
      var cmds := Commands(off, codes);
      var s := ReceiveAll(System(off, s0), codes).session;
      var above := AboveAll(Init(Layout(messages)), EMPTY, cmds);
      && (AgreesThroughout(s0, Init(Layout(messages)), cmds) <==> KeepsAll(EMPTY, cmds))
      && (KeepsAll(EMPTY, cmds) ==>
            && P.View(s.paper) == ScreenOf(LastRows(above + Chunks(Prompted(s.line))))
            && s.paper.top == WindowTop(above + Chunks(Prompted(s.line)))
            && s.paper.pos / Vga.COLS == |above| + Row(|s.line.left|)
            && s.paper.pos % Vga.COLS == (|PROMPT| + |s.line.left|) % Vga.COLS)
  {
    var off := Modifiers(false, false);
    var s0 := Session(EMPTY, true, P.PutAll(P.FRESH, messages + PROMPT));
    var cmds := Commands(off, codes);
    BootAgrees(messages);
    ReceiveIsHandle(System(off, s0), codes);
    RunAgrees(s0, Init(Layout(messages)), cmds);
    if KeepsAll(EMPTY, cmds) {
      AgreementOnScreen(HandleAll(s0, cmds), AboveAll(Init(Layout(messages)), EMPTY, cmds));
    }
  }

  lemma {:induction false} LettersThenLeft(m: Modifiers, n: nat)
    requires !m.shift && !m.caps
    ensures Commands(m, seq(n, _ => 0x1E) + [0x4B]) == seq(n, _ => Insert(Ascii('a'))) + [GoLeft]
    decreases n
  {
    var codes: seq<Byte> := seq(n, _ => 0x1E) + [0x4B];
    LetterAndLeft(m);
    if n > 0 {
      assert codes[1..] == seq(n - 1, _ => 0x1E) + [0x4B];
      LettersThenLeft(m, n - 1);
      CommandsFirst(m, codes, Insert(Ascii('a')));
      assert [Insert(Ascii('a'))] + seq(n - 1, _ => Insert(Ascii('a'))) == seq(n, _ => Insert(Ascii('a')));
    } else {
      CommandsFirst(m, codes, GoLeft);
      assert codes[1..] == [];
    }
  }

  lemma CommandsFirst(m: Modifiers, codes: seq<Byte>, cmd: Command)
    requires codes != [] && Modify(m, codes[0]) == m && CommandFor(m, codes[0]) == cmd
    ensures Commands(m, codes) == [cmd] + Commands(m, codes[1..])
  {
  }

  lemma LetterAndLeft(m: Modifiers)
    requires !m.shift && !m.caps
    ensures Modify(m, 0x1E) == m && CommandFor(m, 0x1E) == Insert(Ascii('a'))
    ensures Modify(m, 0x4B) == m && CommandFor(m, 0x4B) == GoLeft
  {
  }

  // From boot, 70 times the letter a and one step left: line and screen part.
  lemma LeftAcrossRowsExample(messages: seq<Byte>)
    requires Last(Layout(messages)) == []
    ensures var s0 := Session(EMPTY, true, P.PutAll(P.FRESH, messages + PROMPT));
      !AgreesThroughout(s0, Init(Layout(messages)), Commands(Modifiers(false, false), seq(70, _ => 0x1E) + [0x4B]))
  {
    LettersThenLeft(Modifiers(false, false), 70);
    LeftFromRowStart(EMPTY, 70, Ascii('a'));
    ScreenOfSession(messages, seq(70, _ => 0x1E) + [0x4B]);
  }
}
