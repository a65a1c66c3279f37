/** kernel/timer.c, and the digits of the clock in drivers/console.c. */
module Clock {
  import opened Bits
  import opened Vga

  const FREQUENCY: nat := 100
  const TICK_RANGE: nat := 0x1_0000_0000_0000_0000
  const COLON: Byte := 58

  // `seen` is what timer_get_seconds gave to each run of the hook.
  datatype Timer = Timer(tick: nat, hooked: bool, seen: seq<nat>)

  function Seconds(t: Timer): nat {
    t.tick / FREQUENCY
  }

  function Tick(t: Timer): Timer {
    var t' := t.(tick := (t.tick + 1) % TICK_RANGE);
    if t'.tick % FREQUENCY == 0 && t'.hooked then t'.(seen := t'.seen + [Seconds(t')]) else t'
  }

  function Ticks(t: Timer, n: nat): Timer {
    if n == 0 then t else Tick(Ticks(t, n - 1))
  }

  // From any moment on, the hook runs once for every second that is completed, and sees it.
  lemma {:induction false} HookOncePerSecond(t: Timer, n: nat)
    requires t.hooked && t.tick + n < TICK_RANGE
    ensures var t', first := Ticks(t, n), Seconds(t);
      && t'.tick == t.tick + n && t'.hooked
      && t'.seen == t.seen + seq(Seconds(t') - first, i => first + 1 + i)
    decreases n
  {
    if n > 0 {
      HookOncePerSecond(t, n - 1);
      var before := Ticks(t, n - 1);
      SecondBoundary(before.tick);
      OneMore(Seconds(before) - Seconds(t), Seconds(t));
    }
  }

  // Every tick counts, modulo the counter's range; without a hook nothing runs.
  lemma {:induction false} TicksCount(t: Timer, n: nat)
    requires t.tick < TICK_RANGE
    ensures var t' := Ticks(t, n);
      t'.tick == (t.tick + n) % TICK_RANGE && t'.hooked == t.hooked && (!t.hooked ==> t'.seen == t.seen)
    decreases n
  {
    if n > 0 {
      TicksCount(t, n - 1);
      NextModulo(t.tick + n - 1, TICK_RANGE);
    }
  }

  lemma NextModulo(x: nat, m: nat)
    requires m > 1
    ensures (x % m + 1) % m == (x + 1) % m
  {
    var q, r := x / m, x % m;
    assert x == q * m + r;
    if r + 1 < m {
      DivModUnique(x + 1, m, q, r + 1);
    } else {
      assert (q + 1) * m == q * m + m;
      DivModUnique(x + 1, m, q + 1, 0);
    }
  }

  lemma SecondBoundary(tick: nat)
    ensures (tick + 1) / FREQUENCY == tick / FREQUENCY + if (tick + 1) % FREQUENCY == 0 then 1 else 0
  {
  }

  lemma OneMore(n: nat, first: nat)
    ensures seq(n + 1, i => first + 1 + i) == seq(n, i => first + 1 + i) + [first + 1 + n]
  {
  }

  // A hook registered before the first tick has run n / 100 times after n ticks; run k saw k seconds.
  lemma HookFromBoot(n: nat)
    requires n < TICK_RANGE
    ensures var t := Ticks(Timer(0, true, []), n);
      |t.seen| == n / FREQUENCY && forall k :: 0 <= k < |t.seen| ==> t.seen[k] == k + 1
  {
    HookOncePerSecond(Timer(0, true, []), n);
  }

  // From any moment up to the wrap of the counter: the hook runs for every second completed before, and then at the
  // wrap, 16 ticks after the last of them, seeing zero.
  lemma HookAtWrap(t: Timer, n: nat)
    requires t.hooked && n > 0 && t.tick + n == TICK_RANGE
    ensures var t', first, last := Ticks(t, n), Seconds(t), (TICK_RANGE - 1) / FREQUENCY;
      && t'.tick == 0 && TICK_RANGE - last * FREQUENCY == 16 && first <= last
      && t'.seen == t.seen + seq(last - first, i => first + 1 + i) + [0]
  {
    HookOncePerSecond(t, n - 1);
    var before := Ticks(t, n - 1);
    assert before.tick == TICK_RANGE - 1 && Ticks(t, n) == Tick(before);
  }

  class TimerCore {
    var tick: nat
    var hooked: bool
    var seen: seq<nat>

    ghost function State(): Timer
      reads this
    {
      Timer(tick, hooked, seen)
    }

    constructor ()
      ensures State() == Timer(0, false, [])
    {
      tick, hooked, seen := 0, false, [];
    }

    method RegisterSecsHook(hook: bool)
      modifies this
      ensures State() == old(State()).(hooked := hook)
    {
      hooked := hook;
    }

    method HandleTick()
      modifies this
      ensures State() == Tick(old(State()))
    {
      tick := (tick + 1) % TICK_RANGE;
      if tick % FREQUENCY == 0 {
        if hooked {
          seen := seen + [tick / FREQUENCY];
        }
      }
    }
  }

  // ----- the digits

  function ClockText(seconds: nat): (s: seq<Byte>)
    ensures |s| == 8
  {
    var h, m, s := seconds / 3600, seconds / 60 % 60, seconds % 60;
    [ZERO + h / 10 % 10, ZERO + h % 10, COLON, ZERO + m / 10, ZERO + m % 10, COLON, ZERO + s / 10, ZERO + s % 10]
  }

  predicate IsDigit(c: Byte) {
    ZERO <= c <= ZERO + 9
  }

  function TwoDigits(a: Byte, b: Byte): int {
    10 * (a - ZERO) + (b - ZERO)
  }

  function ReadClock(s: seq<Byte>): int
    requires |s| == 8
  {
    3600 * TwoDigits(s[0], s[1]) + 60 * TwoDigits(s[3], s[4]) + TwoDigits(s[6], s[7])
  }

  // The clock reads back as the seconds, up to the hundred hours it can show.
  lemma ClockReadsBack(seconds: nat)
    ensures var s := ClockText(seconds);
      && ReadClock(s) == seconds % 360000
      && IsDigit(s[0]) && IsDigit(s[1]) && IsDigit(s[3]) && IsDigit(s[4]) && IsDigit(s[6]) && IsDigit(s[7])
      && TwoDigits(s[3], s[4]) < 60 && TwoDigits(s[6], s[7]) < 60
      && s[2] == s[5] == 58
  {
    HoursMinutesSeconds(seconds);
    TwoDigitsOf(seconds / 60 % 60);
    TwoDigitsOf(seconds % 60);
    TwoDigitsOf(seconds / 3600);
  }

  lemma TwoDigitsOf(n: nat)
    ensures 10 * (n / 10 % 10) + n % 10 == n % 100
    ensures n < 60 ==> n / 10 < 6
  {
  }

  lemma HoursMinutesSeconds(x: nat)
    ensures x == 3600 * (x / 3600) + 60 * (x / 60 % 60) + x % 60
    ensures x % 360000 == 3600 * (x / 3600 % 100) + 60 * (x / 60 % 60) + x % 60
  {
    assert x / 60 / 60 == x / 3600;
    assert x / 60 == 60 * (x / 3600) + x / 60 % 60;
    var rest := 60 * (x / 60 % 60) + x % 60;
    assert x == 360000 * (x / 3600 / 100) + (3600 * (x / 3600 % 100) + rest);
  }

  // vga_draw_clock: the last eight cells of the screen, and no others.
  method DrawClock(vga: TextBuffer, seconds: nat)
    requires vga.Valid()
    modifies vga.memory
    ensures forall k :: 0 <= k < CELLS ==>
      vga.memory[k] == if k < CELLS - 8 then old(vga.memory[k]) else Glyph(ClockText(seconds)[k - (CELLS - 8)])
  {
    var h, m, s := seconds / 3600, seconds / 60 % 60, seconds % 60;
    var buf := new Byte[9];
    buf[0] := ZERO + h / 10 % 10;
    buf[1] := ZERO + h % 10;
    buf[2] := COLON;
    buf[3] := ZERO + m / 10;
    buf[4] := ZERO + m % 10;
    buf[5] := COLON;
    buf[6] := ZERO + s / 10;
    buf[7] := ZERO + s % 10;
    buf[8] := 0;
    assert buf[..8] == ClockText(seconds);
    var row, col := ROWS - 1, COLS - 8;
    var i := 0;
    while i < 8
      modifies vga.memory
      invariant 0 <= i <= 8
      invariant forall k :: 0 <= k < CELLS ==>
        vga.memory[k] == if CELLS - 8 <= k < CELLS - 8 + i then Glyph(buf[k - (CELLS - 8)]) else old(vga.memory[k])
    {
      vga.PutChar(row, col + i, buf[i]);
      i := i + 1;
    }
    assert forall j :: 0 <= j < 8 ==> buf[j] == ClockText(seconds)[j];
  }
}
