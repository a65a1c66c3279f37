/** kernel/kprint.c: numbers into character buffers, and the format loop. */
module Kprint {
  import opened Bits
  import P = Paper
  import opened ConsoleDriver

  const MINUS: Byte := 45
  const LOWER_X: Byte := 120
  const PERCENT: Byte := 37
  const INT_MIN: Int32 := -0x8000_0000

  // ----- numerals

  // "0123456789ABCDEF"
  function DigitChar(d: nat): Byte
    requires d < 16
  {
    if d < 10 then ZERO + d else 65 + d - 10
  }

  function DigitValue(c: Byte): nat {
    if ZERO <= c <= ZERO + 9 then c - ZERO else if 65 <= c <= 70 then c - 65 + 10 else 0
  }

  function Digits(n: nat, hex: bool): seq<Byte> {
    if n == 0 then []
    else if hex then Digits(n / 16, hex) + [DigitChar(n % 16)]
    else Digits(n / 10, hex) + [DigitChar(n % 10)]
  }

  // Negating INT_MIN gives INT_MIN, for which the digit loop does not run.
  function DecText(v: Int32): seq<Byte> {
    if v == 0 then [ZERO]
    else if v == INT_MIN then [MINUS]
    else if v < 0 then [MINUS] + Digits(-v, false)
    else Digits(v, false)
  }

  function HexText(v: Word32): seq<Byte> {
    if v == 0 then [ZERO] else [ZERO, LOWER_X] + Digits(v, true)
  }

  // ----- reading them back

  function Value(s: seq<Byte>, hex: bool): nat {
    if s == [] then 0
    else (if hex then 16 else 10) * Value(s[..|s| - 1], hex) + DigitValue(s[|s| - 1])
  }

  function ParseDec(s: seq<Byte>): int {
    if s != [] && s[0] == MINUS then -(Value(s[1..], false) as int) else Value(s, false)
  }

  function ParseHex(s: seq<Byte>): nat {
    if |s| >= 2 && s[0] == ZERO && s[1] == LOWER_X then Value(s[2..], true) else Value(s, true)
  }

  lemma {:induction false} DigitsValue(n: nat, hex: bool)
    ensures Value(Digits(n, hex), hex) == n
    decreases n
  {
    if n > 0 {
      var rest, d := if hex then n / 16 else n / 10, if hex then n % 16 else n % 10;
      DigitsValue(rest, hex);
      var s := Digits(rest, hex) + [DigitChar(d)];
      assert s[..|s| - 1] == Digits(rest, hex);
      assert DigitValue(DigitChar(d)) == d;
    }
  }

  // Digits only, no zero in front.
  lemma {:induction false} DigitsPlain(n: nat, hex: bool)
    ensures n > 0 ==> Digits(n, hex) != [] && Digits(n, hex)[0] != ZERO
    ensures forall i :: 0 <= i < |Digits(n, hex)| ==> Digits(n, hex)[i] >= ZERO
    ensures hex || forall i :: 0 <= i < |Digits(n, hex)| ==> Digits(n, hex)[i] <= ZERO + 9
    decreases n
  {
    if n > 0 {
      DigitsPlain(if hex then n / 16 else n / 10, hex);
    }
  }

  function Power(hex: bool, k: nat): nat {
    if k == 0 then 1 else if hex then 16 * Power(hex, k - 1) else 10 * Power(hex, k - 1)
  }

  lemma {:induction false} DigitCount(n: nat, hex: bool, k: nat)
    requires n < Power(hex, k)
    ensures |Digits(n, hex)| <= k
    decreases n
  {
    if n > 0 {
      DigitCount(if hex then n / 16 else n / 10, hex, k - 1);
    }
  }

  lemma OneDigitValue(c: Byte, hex: bool)
    ensures Value([c], hex) == DigitValue(c)
  {
    assert [c][..0] == [];
  }

  lemma SignedValue(n: nat)
    requires n > 0
    ensures ParseDec([MINUS] + Digits(n, false)) == 0 - n && ParseDec(Digits(n, false)) == n
  {
    DigitsValue(n, false);
    DigitsPlain(n, false);
    assert ([MINUS] + Digits(n, false))[1..] == Digits(n, false);
  }

  // Digits behind an optional sign: at most eleven characters, no zero in front, no NUL.
  lemma DecShape(v: Int32)
    ensures |DecText(v)| <= 11
    ensures v != 0 && v != INT_MIN ==> DecText(v)[if v < 0 then 1 else 0] != ZERO
    ensures forall i :: 0 <= i < |DecText(v)| ==> DecText(v)[i] != 0
  {
    if v != 0 && v != INT_MIN {
      var n := if v < 0 then -v else v;
      DigitsPlain(n, false);
      assert Power(false, 10) == 10_000_000_000;
      DigitCount(n, false, 10);
    }
  }

  // Reading a printed decimal gives the number back for every int but INT_MIN; the sign is followed
  // by at most ten digits without leading zeros.
  lemma DecRoundTrip(v: Int32)
    ensures ParseDec(DecText(v)) == v <==> v != INT_MIN
    ensures |DecText(v)| <= 11
    ensures v != 0 && v != INT_MIN ==> DecText(v)[if v < 0 then 1 else 0] != ZERO
    ensures forall i :: 0 <= i < |DecText(v)| ==> DecText(v)[i] != 0
  {
    DecShape(v);
    if v == 0 {
      OneDigitValue(ZERO, false);
    } else if v == INT_MIN {
      assert [MINUS][1..] == [];
    } else {
      SignedValue(if v < 0 then -v else v);
    }
  }

  lemma HexRoundTrip(v: Word32)
    ensures ParseHex(HexText(v)) == v
    ensures |HexText(v)| <= 10
    ensures v != 0 ==> HexText(v)[2] != ZERO
    ensures forall i :: 0 <= i < |HexText(v)| ==> HexText(v)[i] != 0
  {
    if v != 0 {
      DigitsValue(v, true);
      DigitsPlain(v, true);
      assert Power(true, 8) == 0x1_0000_0000;
      DigitCount(v, true, 8);
      assert HexText(v)[2..] == Digits(v, true);
    } else {
      OneDigitValue(ZERO, true);
    }
  }

  function Positive(v: int): nat {
    if v > 0 then v else 0
  }

  // Two's complement negation
  function Negated(v: Int32): Int32 {
    if v == INT_MIN then INT_MIN else -v
  }

  lemma DecLength(v: Int32)
    requires v != 0
    ensures var digits := Digits(Positive(if v < 0 then Negated(v) else v), false);
      |digits| <= 10 && DecText(v) == (if v < 0 then [MINUS] else []) + digits
  {
    assert Power(false, 10) == 10_000_000_000;
    DigitCount(Positive(if v < 0 then Negated(v) else v), false, 10);
  }

  lemma HexLength(v: Word32)
    requires v != 0
    ensures |Digits(v, true)| <= 8 && HexText(v) == [ZERO, LOWER_X] + Digits(v, true)
  {
    assert Power(true, 8) == 0x1_0000_0000;
    DigitCount(v, true, 8);
  }

  // ----- the buffers

  function Reversed(s: seq<Byte>): (r: seq<Byte>)
    ensures |r| == |s|
  {
    if s == [] then [] else [s[|s| - 1]] + Reversed(s[..|s| - 1])
  }

  lemma ReversedSnoc(s: seq<Byte>, c: Byte)
    ensures Reversed(s + [c]) == [c] + Reversed(s)
  {
    assert (s + [c])[..|s|] == s;
  }

  // The last digit moved from the number to the digits behind it.
  lemma DigitsTurn(n: nat, hex: bool, done: seq<Byte>)
    requires n > 0
    ensures var rest, d := if hex then n / 16 else n / 10, if hex then n % 16 else n % 10;
      Digits(n, hex) + done == Digits(rest, hex) + ([DigitChar(d)] + done)
  {
  }

  method LastDigit(value: int, hex: bool) returns (d: nat, rest: nat)
    requires value > 0
    ensures d == (if hex then value % 16 else value % 10) && rest == (if hex then value / 16 else value / 10)
    ensures d < 16 && rest < value
  {
    if hex {
      d, rest := value % 16, value / 16;
    } else {
      d, rest := value % 10, value / 10;
    }
  }

  // Digits are produced last one first; a negative value produces none.
  method FillDigits(value: int, hex: bool, temp: array<Byte>) returns (i: nat)
    requires |Digits(Positive(value), hex)| <= temp.Length
    modifies temp
    ensures i == |Digits(Positive(value), hex)| && Reversed(temp[..i]) == Digits(Positive(value), hex)
  {
    i := 0;
    var rest := value;
    ghost var digits, done := Digits(Positive(value), hex), [];
    while rest > 0
      invariant 0 <= i <= temp.Length && done == Reversed(temp[..i])
      invariant Digits(Positive(rest), hex) + done == digits
    {
      DigitsTurn(rest, hex, done);
      var d;
      d, rest := LastDigit(rest, hex);
      assert |digits| > i;
      ReversedSnoc(temp[..i], DigitChar(d));
      temp[i] := DigitChar(d);
      i, done := i + 1, [DigitChar(d)] + done;
      assert temp[..i] == temp[..i - 1] + [DigitChar(d)];
    }
  }

  // The reverse loop, from place j on, and the terminator.
  method CopyReversed(temp: array<Byte>, n: nat, buffer: array<Byte>, start: nat)
    requires temp != buffer && n <= temp.Length && start + n < buffer.Length
    modifies buffer
    ensures buffer[..start] == old(buffer[..start])
    ensures buffer[start..start + n] == Reversed(temp[..n])
    ensures buffer[start + n] == 0
  {
    var i, j := n, start;
    while i > 0
      invariant 0 <= i <= n && j == start + n - i
      invariant buffer[..start] == old(buffer[..start])
      invariant buffer[start..j] + Reversed(temp[..i]) == Reversed(temp[..n])
    {
      i := i - 1;
      assert temp[..i + 1] == temp[..i] + [temp[i]];
      ReversedSnoc(temp[..i], temp[i]);
      ConcatAssociates(buffer[start..j], [temp[i]], Reversed(temp[..i]));
      ghost var placed := buffer[start..j];
      buffer[j] := temp[i];
      j := j + 1;
      assert buffer[start..j] == placed + [temp[i]];
    }
    buffer[j] := 0;
  }

  // The digits and then the sign, in reverse.
  method FillDecimal(value: Int32, temp: array<Byte>) returns (i: nat)
    requires value != 0 && temp.Length == 64
    modifies temp
    ensures i == |DecText(value)| <= 11 && Reversed(temp[..i]) == DecText(value)
  {
    DecLength(value);
    var neg, magnitude := false, value;
    if value < 0 {
      neg := true;
      magnitude := Negated(value);
    }
    i := FillDigits(magnitude, false, temp);
    if neg {
      temp[i] := MINUS;
      i := i + 1;
      assert temp[..i][..i - 1] == temp[..i - 1];
    }
  }

  method ItoaDec(value: Int32, buffer: array<Byte>)
    requires buffer.Length >= 12
    modifies buffer
    ensures |DecText(value)| < buffer.Length
    ensures buffer[..|DecText(value)|] == DecText(value) && buffer[|DecText(value)|] == 0
  {
    var temp := new Byte[64];
    if value == 0 {
      buffer[0] := ZERO;
      buffer[1] := 0;
      return;
    }
    var i := FillDecimal(value, temp);
    CopyReversed(temp, i, buffer, 0);
    assert buffer[..i] == buffer[0..0 + i];
  }

  method ItoaHex(value: Word32, buffer: array<Byte>)
    requires buffer.Length >= 11
    modifies buffer
    ensures |HexText(value)| < buffer.Length
    ensures buffer[..|HexText(value)|] == HexText(value) && buffer[|HexText(value)|] == 0
  {
    var temp := new Byte[32];
    if value == 0 {
      buffer[0] := ZERO;
      buffer[1] := 0;
      return;
    }
    HexLength(value);
    var i := FillDigits(value, true, temp);
    buffer[0] := ZERO;
    buffer[1] := LOWER_X;
    CopyReversed(temp, i, buffer, 2);
    assert buffer[..2 + i] == buffer[..2] + buffer[2..2 + i] == [ZERO, LOWER_X] + Digits(value, true);
  }

  // ----- the format loop

  // The variable arguments, with their C types.
  datatype Arg = IntArg(v: Int32) | UnsignedArg(u: Word32) | StringArg(s: P.CString) | CharArg(c: Byte)

  predicate Takes(conversion: Byte) {
    conversion == 100 || conversion == LOWER_X || conversion == 115 || conversion == 99
  }

  predicate Suits(conversion: Byte, arg: Arg) {
    if conversion == 100 then arg.IntArg?
    else if conversion == LOWER_X then arg.UnsignedArg?
    else if conversion == 115 then arg.StringArg?
    else arg.CharArg?
  }

  function ArgText(arg: Arg): seq<Byte> {
    match arg
    case IntArg(v) => DecText(v)
    case UnsignedArg(u) => HexText(u)
    case StringArg(s) => P.Text(s)
    case CharArg(c) => [c]
  }

  // The first directive or plain character of a format: its length, the arguments it takes, its text.
  function Skip(fmt: seq<Byte>): nat
    requires fmt != []
  {
    if fmt[0] == PERCENT then 2 else 1
  }

  function Used(fmt: seq<Byte>): nat
    requires fmt != [] && Skip(fmt) <= |fmt|
  {
    if fmt[0] == PERCENT && Takes(fmt[1]) then 1 else 0
  }

  // Neither does the format end in '%', nor does the conversion lack an argument of its type.
  predicate FirstFormed(fmt: seq<Byte>, args: seq<Arg>)
    requires fmt != []
  {
    && Skip(fmt) <= |fmt| && (fmt[0] == PERCENT ==> fmt[1] != 0)
    && (Used(fmt) == 1 ==> args != [] && Suits(fmt[1], args[0]))
  }

  function FirstText(fmt: seq<Byte>, args: seq<Arg>): seq<Byte>
    requires fmt != [] && FirstFormed(fmt, args)
  {
    if fmt[0] != PERCENT then [fmt[0]]
    else if Takes(fmt[1]) then ArgText(args[0])
    else [PERCENT, fmt[1]]
  }

  // A format stops at its first NUL.
  predicate Ended(fmt: seq<Byte>) {
    fmt == [] || fmt[0] == 0
  }

  // Every directive is formed; arguments that are left over do no harm.
  predicate Formed(fmt: seq<Byte>, args: seq<Arg>)
    decreases |fmt|
  {
    Ended(fmt) || (FirstFormed(fmt, args) && Formed(fmt[Skip(fmt)..], args[Used(fmt)..]))
  }

  function Render(fmt: seq<Byte>, args: seq<Arg>): seq<Byte>
    requires Formed(fmt, args)
    decreases |fmt|
  {
    if Ended(fmt) then [] else FirstText(fmt, args) + Render(fmt[Skip(fmt)..], args[Used(fmt)..])
  }

  // The arguments a format takes.
  function Taken(fmt: seq<Byte>, args: seq<Arg>): (n: nat)
    requires Formed(fmt, args)
    ensures n <= |args|
    decreases |fmt|
  {
    if Ended(fmt) then 0 else Used(fmt) + Taken(fmt[Skip(fmt)..], args[Used(fmt)..])
  }

  // ----- what each directive prints

  // "%d" prints the number: an optional minus sign and decimal digits without a zero in front, which read back as it.
  lemma DecDirective(v: Int32)
    ensures Formed([37, 100], [IntArg(v)])
    ensures var text := Render([37, 100], [IntArg(v)]);
      && (ParseDec(text) == v <==> v != INT_MIN) && (v == INT_MIN ==> text == [45])
      && (v == 0 ==> text == [48]) && (v < 0 ==> text[0] == 45)
      && (forall i :: (if v < 0 then 1 else 0) <= i < |text| ==> 48 <= text[i] <= 57)
      && (0 < v ==> text[0] != 48) && (INT_MIN < v < 0 ==> |text| > 1 && text[1] != 48)
  {
    OneDirective(100, IntArg(v));
    DecRoundTrip(v);
    DigitsPlain(Positive(if v < 0 && v != INT_MIN then -v else v), false);
  }

  // "%x" prints 0x and upper-case hexadecimal digits without a zero in front, or a lone 0 for zero.
  lemma HexDirective(u: Word32)
    ensures Formed([37, 120], [UnsignedArg(u)])
    ensures var text := Render([37, 120], [UnsignedArg(u)]);
      && ParseHex(text) == u && (u == 0 ==> text == [48])
      && (u != 0 ==> |text| > 2 && text[0] == 48 && text[1] == 120 && text[2] != 48)
      && (forall i :: 2 <= i < |text| ==> 48 <= text[i] <= 57 || 65 <= text[i] <= 70)
  {
    OneDirective(120, UnsignedArg(u));
    HexRoundTrip(u);
    if u != 0 {
      HexDigits(u);
      assert HexText(u)[2..] == Digits(u, true);
      assert forall i :: 2 <= i < |HexText(u)| ==> HexText(u)[i] == Digits(u, true)[i - 2];
      DigitsPlain(u, true);
    }
  }

  lemma {:induction false} HexDigits(n: nat)
    ensures forall i :: 0 <= i < |Digits(n, true)| ==> 48 <= Digits(n, true)[i] <= 57 || 65 <= Digits(n, true)[i] <= 70
    decreases n
  {
    if n > 0 {
      HexDigits(n / 16);
    }
  }

  // "%s" prints the bytes of the string up to its first NUL, nothing for a null pointer.
  lemma StringDirective(bytes: seq<Byte>, n: nat)
    requires n <= |bytes| && (forall i :: 0 <= i < n ==> bytes[i] != 0) && (n < |bytes| ==> bytes[n] == 0)
    ensures Formed([37, 115], [StringArg(P.Str(bytes))]) && Formed([37, 115], [StringArg(P.Null)])
    ensures Render([37, 115], [StringArg(P.Str(bytes))]) == bytes[..n]
    ensures Render([37, 115], [StringArg(P.Null)]) == []
  {
    OneDirective(115, StringArg(P.Str(bytes)));
    OneDirective(115, StringArg(P.Null));
    P.TextOf(bytes);
  }

  // "%c" prints the character.
  lemma CharDirective(c: Byte)
    ensures Formed([37, 99], [CharArg(c)]) && Render([37, 99], [CharArg(c)]) == [c]
  {
    OneDirective(99, CharArg(c));
  }

  // Any other character after a percent sign is printed behind the sign, without taking an argument.
  lemma OtherDirective(d: Byte, args: seq<Arg>)
    requires d != 0 && d != 100 && d != 120 && d != 115 && d != 99
    ensures Formed([37, d], args) && Render([37, d], args) == [37, d] && Taken([37, d], args) == 0
  {
    var fmt := [37, d];
    assert fmt[2..] == [] && args[0..] == args;
    assert Formed([], args) && Render([], args) == [];
  }

  lemma OneDirective(d: Byte, arg: Arg)
    requires Takes(d) && Suits(d, arg)
    ensures Formed([37, d], [arg]) && Render([37, d], [arg]) == ArgText(arg) && Taken([37, d], [arg]) == 1
  {
    var fmt := [37, d];
    assert fmt[2..] == [] && [arg][1..] == [];
    assert Formed([], []) && Render([], []) == [] && Taken([], []) == 0;
  }

  predicate Plain(s: seq<Byte>) {
    forall i :: 0 <= i < |s| ==> s[i] != PERCENT && s[i] != 0
  }

  // A format without '%' prints as it stands.
  lemma {:induction false} PlainRender(s: seq<Byte>, args: seq<Arg>)
    requires Plain(s)
    ensures Formed(s, args) && Render(s, args) == s
    decreases |s|
  {
    if s != [] {
      assert args[0..] == args;
      PlainRender(s[1..], args);
    }
  }

  predicate NoNul(s: seq<Byte>) {
    forall i :: 0 <= i < |s| ==> s[i] != 0
  }

  lemma FirstOfConcat(f: seq<Byte>, g: seq<Byte>, args: seq<Arg>)
    requires f != [] && FirstFormed(f, args)
    ensures var fg := f + g;
      && FirstFormed(fg, args) && FirstText(fg, args) == FirstText(f, args)
      && Skip(fg) == Skip(f) && Used(fg) == Used(f) && fg[Skip(fg)..] == f[Skip(f)..] + g
  {
  }

  // One format followed by another: the second goes on with the arguments the first has not taken.
  lemma {:induction false} RenderConcat(f: seq<Byte>, g: seq<Byte>, args: seq<Arg>)
    requires NoNul(f) && Formed(f, args) && Formed(g, args[Taken(f, args)..])
    ensures Formed(f + g, args)
    ensures Render(f + g, args) == Render(f, args) + Render(g, args[Taken(f, args)..])
    decreases |f|
  {
    if f == [] {
      assert f + g == g && args[0..] == args;
    } else {
      FirstOfConcat(f, g, args);
      var f', args' := f[Skip(f)..], args[Used(f)..];
      assert args'[Taken(f', args')..] == args[Taken(f, args)..];
      RenderConcat(f', g, args');
      ConcatAssociates(FirstText(f, args), Render(f', args'), Render(g, args'[Taken(f', args')..]));
    }
  }

  lemma ConcatAssociates(a: seq<Byte>, b: seq<Byte>, c: seq<Byte>)
    ensures a + (b + c) == a + b + c
  {
  }

  lemma {:induction false} TerminatedText(text: seq<Byte>, rest: seq<Byte>)
    requires forall i :: 0 <= i < |text| ==> text[i] != 0
    requires rest != [] && rest[0] == 0
    ensures P.UpToNul(text + rest) == text
    decreases |text|
  {
    if text == [] {
      assert text + rest == rest;
    } else {
      assert (text + rest)[1..] == text[1..] + rest;
      TerminatedText(text[1..], rest);
    }
  }

  // A number converted into a buffer prints its text.
  method PrintNumber(console: Console, buf: array<Byte>, ghost text: seq<Byte>)
    requires console.Valid() && console.active
    requires |text| < buf.Length && buf[..|text|] == text && buf[|text|] == 0
    requires forall i :: 0 <= i < |text| ==> text[i] != 0
    modifies console`row, console`col, console`paper, console.vga.memory
    ensures console.Valid() && console.paper == P.PutAll(old(console.paper), text)
  {
    TerminatedText(text, buf[|text|..]);
    assert buf[..] == text + buf[|text|..];
    console.Write(P.Str(buf[..]));
  }

  // The text that one argument prints.
  method PrintArg(console: Console, arg: Arg)
    requires console.Valid() && console.active
    modifies console`row, console`col, console`paper, console.vga.memory
    ensures console.Valid() && console.paper == P.PutAll(old(console.paper), ArgText(arg))
  {
    match arg
    case IntArg(v) =>
      var buf := new Byte[64];
      ItoaDec(v, buf);
      DecShape(v);
      PrintNumber(console, buf, DecText(v));
    case UnsignedArg(u) =>
      var buf := new Byte[64];
      ItoaHex(u, buf);
      HexRoundTrip(u);
      PrintNumber(console, buf, HexText(u));
    case StringArg(s) =>
      console.Write(s);
    case CharArg(c) =>
      console.PutC(c);
      P.PutOne(old(console.paper), c);
  }

  // The body of the loop: one directive or plain character at i, one argument at next.
  method PrintFirst(console: Console, fmt: seq<Byte>, args: seq<Arg>, i: nat, next: nat) returns (i': nat, next': nat)
    requires console.Valid() && console.active
    requires i < |fmt| && fmt[i] != 0 && next <= |args| && FirstFormed(fmt[i..], args[next..])
    modifies console`row, console`col, console`paper, console.vga.memory
    ensures console.Valid()
    ensures console.paper == P.PutAll(old(console.paper), FirstText(fmt[i..], args[next..]))
    ensures i' == i + Skip(fmt[i..]) && next' == next + Used(fmt[i..])
  {
    i', next' := i, next;
    if fmt[i'] == PERCENT {
      i' := i' + 1;
      if Takes(fmt[i']) {
        PrintArg(console, args[next']);
        next' := next' + 1;
      } else {
        PutTwo(console.paper, PERCENT, fmt[i']);
        console.PutC(PERCENT);
        console.PutC(fmt[i']);
      }
    } else {
      P.PutOne(console.paper, fmt[i']);
      console.PutC(fmt[i']);
    }
    i' := i' + 1;
  }

  // One turn of the loop, on the format and the arguments.
  lemma Advance(p: P.Paper, fmt: seq<Byte>, args: seq<Arg>, i: nat, next: nat)
    requires i < |fmt| && fmt[i] != 0 && next <= |args| && Formed(fmt[i..], args[next..])
    ensures FirstFormed(fmt[i..], args[next..])
    ensures var i', next' := i + Skip(fmt[i..]), next + Used(fmt[i..]);
      && i' <= |fmt| && next' <= |args| && Formed(fmt[i'..], args[next'..])
      && P.PutAll(p, Render(fmt[i..], args[next..]))
      == P.PutAll(P.PutAll(p, FirstText(fmt[i..], args[next..])), Render(fmt[i'..], args[next'..]))
  {
    var f, a := fmt[i..], args[next..];
    assert f[Skip(f)..] == fmt[i + Skip(f)..] && a[Used(f)..] == args[next + Used(f)..];
    P.PutAllConcat(p, FirstText(f, a), Render(f[Skip(f)..], a[Used(f)..]));
  }

  method Print(console: Console, fmt: seq<Byte>, args: seq<Arg>)
    requires console.Valid() && console.active && Formed(fmt, args)
    modifies console`row, console`col, console`paper, console.vga.memory
    ensures console.Valid() && console.paper == P.PutAll(old(console.paper), Render(fmt, args))
  {
    var i, next := 0, 0;
    ghost var rest := Render(fmt, args);
    ghost var final := P.PutAll(console.paper, rest);
    while i < |fmt| && fmt[i] != 0
      invariant 0 <= i <= |fmt| && 0 <= next <= |args| && console.Valid()
      invariant Formed(fmt[i..], args[next..]) && rest == Render(fmt[i..], args[next..])
      invariant P.PutAll(console.paper, rest) == final
    {
      Advance(console.paper, fmt, args, i, next);
      i, next := PrintFirst(console, fmt, args, i, next);
      rest := Render(fmt[i..], args[next..]);
    }
    assert rest == [];
  }

  lemma PutTwo(p: P.Paper, c: Byte, d: Byte)
    ensures P.PutAll(p, [c, d]) == P.Put(P.Put(p, c), d)
  {
    assert [c, d] == [c] + [d];
    P.PutAllConcat(p, [c], [d]);
    P.PutOne(p, c);
    P.PutOne(P.Put(p, c), d);
  }
}
