/** Rounding half to odd, as the DSP48E1 slice does it: add one less than a half,
    drop the fraction, and force the last bit if the dropped bits are all ones. */
module Rounding {
  import opened Arithmetic

  /** The integer nearest to x / unit; of two equally near ones the odd one. */
  function HalfToOdd(x: int, unit: nat): int
    requires unit > 0
  {
    var q, r := x / unit, x % unit;
    if 2 * r < unit then q
    else if 2 * r > unit then q + 1
    else if q % 2 == 1 then q
    else q + 1
  }

  /** What the slice computes from the sum in its accumulator: the bits above the
      fraction, the lowest of them or-ed with the pattern detect output. */
  function DropFraction(sum: int, unit: nat): int
    requires unit > 0
  {
    var q := sum / unit;
    if sum % unit == unit - 1 && q % 2 == 0 then q + 1 else q
  }

  /** With the constant half - 1 added the slice rounds half to odd. */
  lemma {:induction false} SliceRounds(x: int, unit: nat)
    requires unit > 0 && unit % 2 == 0
    ensures DropFraction(x + unit / 2 - 1, unit) == HalfToOdd(x, unit)
  {
    var q, r := x / unit, x % unit;
    var s := r + unit / 2 - 1;
    assert x == q * unit + r;
    if s < unit {
      UniqueDivision(x + unit / 2 - 1, unit, q, s);
    } else {
      assert x + unit / 2 - 1 == (q + 1) * unit + (s - unit);
      UniqueDivision(x + unit / 2 - 1, unit, q + 1, s - unit);
    }
  }

  /** The rounded value is within half a unit, and odd if it is exactly that far off. */
  lemma NearestTiesOdd(x: int, unit: nat)
    requires unit > 0
    ensures var r := HalfToOdd(x, unit);
            && -(unit as int) <= 2 * (x - r * unit) <= unit
            && (2 * (x - r * unit) == unit || 2 * (x - r * unit) == -(unit as int) ==> r % 2 == 1)
  {
    var q := x / unit;
    assert x == q * unit + x % unit;
    assert (q + 1) * unit == q * unit + unit;
  }

  /** Bounds on the value carry over to the rounded value. */
  lemma {:induction false} RoundedBetween(x: int, unit: nat, lo: int, hi: int)
    requires unit > 0 && 2 * (lo * unit) - unit < 2 * x < 2 * (hi * unit) + unit
    ensures lo <= HalfToOdd(x, unit) <= hi
  {
    NearestTiesOdd(x, unit);
    NearBetween(x, HalfToOdd(x, unit), unit, lo, hi);
  }

  lemma {:induction false} NearBetween(x: int, r: int, unit: nat, lo: int, hi: int)
    requires -(unit as int) <= 2 * (x - r * unit) <= unit
    requires 2 * (lo * unit) - unit < 2 * x < 2 * (hi * unit) + unit
    ensures lo <= r <= hi
  {
    if lo > r {
      Apart(lo, r, unit);
    }
    if r > hi {
      Apart(r, hi, unit);
    }
  }

  function Pow2(n: nat): (p: nat)
    ensures p > 0
    ensures n > 0 ==> p % 2 == 0
  {
    if n == 0 then 1 else 2 * Pow2(n - 1)
  }

  lemma {:induction false} Pow2Sum(a: nat, b: nat)
    ensures Pow2(a + b) == Pow2(a) * Pow2(b)
  {
    if a > 0 {
      Pow2Sum(a - 1, b);
    }
  }

  /** Two's complement: the value of n mod size read as a signed number. */
  function Signed(n: int, size: nat): int
    requires size > 0
  {
    var r := n % size;
    if 2 * r < size then r else r - size
  }

  lemma SignedInRange(n: int, size: nat)
    requires size > 0 && -(size as int) <= 2 * n < size
    ensures Signed(n, size) == n
  {
    if n >= 0 {
      UniqueDivision(n, size, 0, n);
    } else {
      UniqueDivision(n, size, -1, n + size);
    }
  }
}
