/** Machine integers, and the bitwise operators of C and x86 on them.
    `And` and `Or` are defined bit by bit, so that what a mask computes is a lemma, not an assumption. */
module Bits {

  type Byte = x: int | 0 <= x < 0x100
  type Word16 = x: int | 0 <= x < 0x1_0000
  type Word32 = x: int | 0 <= x < 0x1_0000_0000
  type Int32 = x: int | -0x8000_0000 <= x < 0x8000_0000

  // '0'
  const ZERO: Byte := 48

  function Pow2(k: nat): (r: nat)
    ensures r > 0
  {
    if k == 0 then 1 else 2 * Pow2(k - 1)
  }

  // Bitwise AND of a two's complement integer with a mask; `/` rounds down, so `x / 2` is an arithmetic shift.
  function And(x: int, mask: nat): nat
    decreases mask, x
  {
    if mask == 0 then 0
    else (if x % 2 == 1 && mask % 2 == 1 then 1 else 0) + 2 * And(x / 2, mask / 2)
  }

  // Bitwise OR of two unsigned words.
  function Or(x: nat, y: nat): nat
    decreases x + y
  {
    if x == 0 && y == 0 then 0
    else (if x % 2 == 1 || y % 2 == 1 then 1 else 0) + 2 * Or(x / 2, y / 2)
  }

  lemma ModHalf(x: int, m: int)
    requires m > 0
    ensures x % (2 * m) == x % 2 + 2 * ((x / 2) % m)
  {
    var q, r := (x / 2) / m, (x / 2) % m;
    assert x / 2 == q * m + r;
    assert x == q * (2 * m) + (x % 2 + 2 * r);
    DivModUnique(x, 2 * m, q, x % 2 + 2 * r);
  }

  lemma {:induction false} MulMono(a: int, b: int, m: nat)
    requires a <= b
    ensures a * m <= b * m
    decreases m
  {
    if m > 0 {
      MulMono(a, b, m - 1);
      assert a * m == a * (m - 1) + a && b * m == b * (m - 1) + b;
    }
  }

  lemma DivModUnique(x: int, m: int, q: int, r: int)
    requires m > 0 && 0 <= r < m && x == q * m + r
    ensures x / m == q && x % m == r
  {
    var q', r' := x / m, x % m;
    assert x == q' * m + r' && 0 <= r' < m;
    assert (q - q') * m == r' - r;
    assert q - q' >= 1 ==> (q - q') * m >= m;
    assert q - q' <= -1 ==> (q - q') * m <= -m;
  }

  lemma AndUnfold(x: int, mask: nat)
    requires mask > 0
    ensures And(x, mask) == (if x % 2 == 1 && mask % 2 == 1 then 1 else 0) + 2 * And(x / 2, mask / 2)
  {
  }

  lemma DoubleBack(x: int, half: int, high: int, low: int)
    requires x / 2 == high * half + low
    ensures x == high * (2 * half) + (x % 2 + 2 * low)
  {
    assert high * (2 * half) == 2 * (high * half);
  }

  // What the mask keeps and what it cuts off.
  lemma {:induction false} MaskSplits(x: int, k: nat) returns (high: int)
    ensures x == high * Pow2(k) + And(x, Pow2(k) - 1)
    ensures And(x, Pow2(k) - 1) < Pow2(k)
    decreases k
  {
    if k == 0 {
      high := x;
    } else {
      var half := Pow2(k - 1);
      high := MaskSplits(x / 2, k - 1);
      var low := And(x / 2, half - 1);
      DoubleBack(x, half, high, low);
      AndUnfold(x, 2 * half - 1);
      assert (2 * half - 1) / 2 == half - 1 && (2 * half - 1) % 2 == 1;
      assert And(x, 2 * half - 1) == x % 2 + 2 * low;
    }
  }

  // Masking with 2^k - 1 is the mathematical remainder, for negative numbers too.
  lemma AndMask(x: int, k: nat)
    ensures And(x, Pow2(k) - 1) == x % Pow2(k)
  {
    var high := MaskSplits(x, k);
    DivModUnique(x, Pow2(k), high, And(x, Pow2(k) - 1));
  }

  // Testing a single bit.
  lemma {:induction false} AndBit(x: int, k: nat)
    ensures And(x, Pow2(k)) == Pow2(k) * ((x / Pow2(k)) % 2)
    decreases k
  {
    if k == 0 {
      AndUnfold(x, 1);
    } else {
      var half := Pow2(k - 1);
      AndBit(x / 2, k - 1);
      DivDiv(x, half);
      AndUnfold(x, 2 * half);
      assert And(x, 2 * half) == 2 * And(x / 2, half);
      var bit := (x / 2 / half) % 2;
      assert 2 * (half * bit) == (2 * half) * bit;
    }
  }

  lemma DivDiv(x: int, m: int)
    requires m > 0
    ensures x / 2 / m == x / (2 * m)
  {
    var q, r := x / 2 / m, x / 2 % m;
    assert x == q * (2 * m) + (x % 2 + 2 * r);
    DivModUnique(x, 2 * m, q, x % 2 + 2 * r);
  }

  // Bit k of a two's complement integer
  predicate Bit(x: int, k: nat) {
    x / Pow2(k) % 2 == 1
  }

  lemma BitOfHalf(x: int, k: nat)
    requires k > 0
    ensures Bit(x, k) <==> Bit(x / 2, k - 1)
  {
    DivDiv(x, Pow2(k - 1));
  }

  // Bit by bit, for all words and masks.
  lemma {:induction false} AndIsBitwise(x: int, mask: nat, k: nat)
    ensures Bit(And(x, mask), k) <==> Bit(x, k) && Bit(mask, k)
    decreases k
  {
    assert And(x, mask) / 2 == if mask == 0 then 0 else And(x / 2, mask / 2);
    if k > 0 {
      BitOfHalf(And(x, mask), k);
      BitOfHalf(x, k);
      BitOfHalf(mask, k);
      AndIsBitwise(x / 2, mask / 2, k - 1);
    }
  }

  lemma {:induction false} OrIsBitwise(x: nat, y: nat, k: nat)
    ensures Bit(Or(x, y), k) <==> Bit(x, k) || Bit(y, k)
    decreases k
  {
    assert Or(x, y) / 2 == if x == 0 && y == 0 then 0 else Or(x / 2, y / 2);
    if k > 0 {
      BitOfHalf(Or(x, y), k);
      BitOfHalf(x, k);
      BitOfHalf(y, k);
      OrIsBitwise(x / 2, y / 2, k - 1);
    }
  }

  // Words without a common bit: OR is addition.
  lemma {:induction false} OrDisjoint(x: nat, y: nat, k: nat)
    requires x % Pow2(k) == 0 && y < Pow2(k)
    ensures Or(x, y) == x + y
    decreases k, x
  {
    if k > 0 {
      ModHalf(x, Pow2(k - 1));
      OrDisjoint(x / 2, y / 2, k - 1);
    } else if x > 0 {
      OrDisjoint(x / 2, 0, 0);
    }
  }

  lemma OrByte(q: nat, flags: Byte)
    ensures Or(0x100 * q, flags) == 0x100 * q + flags
  {
    assert Pow2(8) == 0x100;
    OrDisjoint(0x100 * q, flags, 8);
  }

  lemma {:induction false} OrCommutes(x: nat, y: nat)
    ensures Or(x, y) == Or(y, x)
    decreases x + y
  {
    if x != 0 || y != 0 {
      OrCommutes(x / 2, y / 2);
    }
  }
}

/** A value that may be missing: NULL, or a search without a result. */
module Options {
  datatype Option<T> = None | Some(value: T)
}
