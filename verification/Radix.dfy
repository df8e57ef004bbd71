/**
 The base-128 arithmetic behind treedisk's indirect blocks: a file offset is read
 as a string of base-128 digits, one per level of the tree, and the digits are
 extracted by shifting 32-bit words.
 */
module Radix {
  import opened Egos

  const WORD_BITS := 32
  const LOG_RPB := 7          // log2 of the references per block

  type Word = w: int | 0 <= w < WORD_LIMIT

  function Pow2(n: nat): (r: nat)
    ensures r >= 1
  {
    if n == 0 then 1 else 2 * Pow2(n - 1)
  }

  function Pow128(n: nat): (r: nat)
    ensures r >= 1
  {
    if n == 0 then 1 else 128 * Pow128(n - 1)
  }

  /** A right shift that is total: shifting a word by its width or more gives 0. */
  function LogShiftR(x: Word, nbits: nat): Word {
    if nbits >= WORD_BITS then 0 else DivBound(x, Pow2(nbits)); x / Pow2(nbits)
  }

  /** The number of base-128 digits of x: the height of the tree that reaches offset x. */
  function Levels(x: nat): nat {
    if x == 0 then 0 else 1 + Levels(x / 128)
  }

  /** What is left of an offset above its lowest h base-128 digits. */
  function Prefix(off: nat, h: nat): nat {
    if h == 0 then off else Prefix(off, h - 1) / 128
  }

  /** The index into an indirect block h levels above the data, as the code computes it. */
  function Digit(off: Word, h: nat): (i: nat)
    ensures i < 128
  {
    LogShiftR(off, h * LOG_RPB) % 128
  }

  lemma DivBound(x: nat, m: nat)
    requires m >= 1
    ensures 0 <= x / m <= x
  {
    var q := x / m;
    assert q * m <= x;
    assert q >= 0 ==> q * (m - 1) >= 0;
  }

  lemma {:induction false} Pow2Pow128(n: nat)
    ensures Pow2(LOG_RPB * n) == Pow128(n)
  {
    if n > 0 {
      Pow2Pow128(n - 1);
      var m := 7 * (n - 1);
      assert Pow2(m + 2) == 4 * Pow2(m);
      assert Pow2(m + 4) == 4 * Pow2(m + 2);
      assert Pow2(m + 6) == 4 * Pow2(m + 4);
      assert Pow2(m + 7) == 2 * Pow2(m + 6);
    }
  }

  lemma {:induction false} Pow128Large(n: nat)
    requires n >= 5
    ensures Pow128(n) > WORD_LIMIT
  {
    if n == 5 {
      assert Pow128(1) == 128;
      assert Pow128(2) == 16384;
      assert Pow128(3) == 2097152;
      assert Pow128(4) == 268435456;
    } else {
      Pow128Large(n - 1);
    }
  }

  lemma DivUnique(x: nat, m: nat, q: nat, r: nat)
    requires m > 0 && x == q * m + r && r < m
    ensures x / m == q && x % m == r
  {
    var q', r' := x / m, x % m;
    assert x == q' * m + r';
    if q > q' {
      ProductGap(q, q', m);
    } else if q < q' {
      ProductGap(q', q, m);
    }
  }

  lemma {:induction false} ProductGap(a: nat, b: nat, m: nat)
    requires a > b
    ensures a * m >= b * m + m
    decreases a
  {
    assert a * m == (a - 1) * m + m;
    if a - 1 > b { ProductGap(a - 1, b, m); }
  }

  lemma DivDiv(x: nat, m: nat)
    requires m >= 1
    ensures x / m / 128 == x / (128 * m)
  {
    var q, r := x / m, x % m;
    var a, b := q / 128, q % 128;
    calc {
      x;
      q * m + r;
      (a * 128 + b) * m + r;
      a * (128 * m) + (b * m + r);
    }
    assert b * m <= 127 * m by { if b < 127 { ProductGap(127, b, m); } }
    DivUnique(x, 128 * m, a, b * m + r);
  }

  lemma {:induction false} PrefixIsQuotient(off: nat, h: nat)
    ensures Prefix(off, h) == off / Pow128(h)
  {
    if h > 0 {
      PrefixIsQuotient(off, h - 1);
      DivDiv(off, Pow128(h - 1));
    }
  }

  /** The shift of the C code is the prefix of the offset, also at five levels and above,
      where the shift distance reaches the width of a word. */
  lemma ShiftIsPrefix(x: Word, n: nat)
    ensures LogShiftR(x, n * LOG_RPB) == Prefix(x, n)
  {
    Pow2Pow128(n);
    PrefixIsQuotient(x, n);
    if n * LOG_RPB >= WORD_BITS {
      assert n >= 5;
      Pow128Large(n);
      DivUnique(x, Pow128(n), 0, x);
    }
  }

  /** Levels is the least height whose tree reaches offset x. */
  lemma {:induction false} LevelsLeast(x: nat, n: nat)
    ensures x < Pow128(n) <==> Levels(x) <= n
    ensures Prefix(x, n) == 0 <==> Levels(x) <= n
    decreases n
  {
    if n > 0 {
      LevelsLeast(x / 128, n - 1);
      var m := Pow128(n - 1);
      assert x / 128 < m <==> x < 128 * m;
    }
    PrefixIsQuotient(x, n);
    SmallIffZeroQuotient(x, Pow128(n));
  }

  lemma SmallIffZeroQuotient(x: nat, m: nat)
    requires m >= 1
    ensures x / m == 0 <==> x < m
  {
    if x < m { DivUnique(x, m, 0, x); }
  }

  lemma {:induction false} LevelsMonotone(x: nat, y: nat)
    requires x <= y
    ensures Levels(x) <= Levels(y)
  {
    LevelsLeast(y, Levels(y));
    LevelsLeast(x, Levels(y));
  }

  /** A 32-bit offset never needs more than five levels. */
  lemma LevelsAtMostFive(x: Word)
    ensures Levels(x) <= 5
  {
    Pow128Large(5);
    LevelsLeast(x, 5);
  }

  /** The level-counting loop of treedisk_read and treedisk_write. */
  method CountLevels(x: Word) returns (n: nat)
    ensures x < Pow128(n)
    ensures forall m: nat :: x < Pow128(m) ==> n <= m
    ensures n == Levels(x) <= 5
  {
    LevelsAtMostFive(x);
    n := 0;
    ShiftIsPrefix(x, 0);
    LevelsLeast(x, 0);
    while LogShiftR(x, n * LOG_RPB) != 0
      invariant n <= Levels(x)
      invariant LogShiftR(x, n * LOG_RPB) == Prefix(x, n)
      invariant Prefix(x, n) == 0 <==> Levels(x) <= n
      decreases Levels(x) - n
    {
      n := n + 1;
      ShiftIsPrefix(x, n);
      LevelsLeast(x, n);
    }
    LevelsLeast(x, n);
    forall m: nat | x < Pow128(m) ensures n <= m {
      LevelsLeast(x, m);
    }
  }
}
