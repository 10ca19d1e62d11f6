/** cores_demin/dsp48.v: a signed product, rounded half to odd and truncated. */
module Dsp48 {
  import opened Arithmetic
  import opened Rounding

  datatype Widths = Widths(a: nat, b: nat, p: nat) {
    /** SHIFT and ONES of the module; the slice multiplies 25 by 18 bits. */
    ghost predicate Valid() { 1 <= a <= 25 && 1 <= b <= 18 && p >= 1 && a + b >= p + 3 }

    function Shift(): nat
      requires a + b >= p + 1
    {
      a + b - p - 1
    }
  }

  /** The accumulator of the slice has this many bits. */
  const P_BITS: nat := 48

  /** A product plus a constant with SHIFT - 1 ones, modulo 2 to the 48 */
  function Accumulated(product: int, shift: nat): int
    requires shift >= 1
  {
    (product + (Pow2(shift - 1) - 1)) % Pow2(P_BITS)
  }

  /** The accumulator of the slice. */
  function Accumulator(w: Widths, a: int, b: int): int
    requires w.Valid()
  {
    Accumulated(Signed(a, Pow2(w.a)) * Signed(b, Pow2(w.b)), w.Shift())
  }

  /** The P output: P_WIDTH bits of the accumulator above the fraction, the lowest
      or-ed with the pattern detect output (all SHIFT fraction bits are ones). */
  function Output(w: Widths, a: int, b: int): int
    requires w.Valid()
  {
    Kept(Accumulator(w, a, b), Pow2(w.Shift()), Pow2(w.p))
  }

  function Kept(sum: int, unit: nat, kept: nat): int
    requires unit > 0 && kept > 0
  {
    var bits := sum / unit % kept;
    if sum % unit == unit - 1 && bits % 2 == 0 then bits + 1 else bits
  }

  /** Dropping a multiple of the window above the kept bits changes nothing. */
  lemma {:induction false} Window(x: int, unit: nat, kept: nat, above: nat)
    requires unit > 0 && kept > 0 && above > 0
    ensures var y := x % (unit * kept * above);
            && y % unit == x % unit
            && y / unit % kept == x / unit % kept
  {
    var t := unit * kept * above;
    var z, y := x / t, x % t;
    assert x == t * z + y;
    var q, r := y / unit, y % unit;
    assert y == q * unit + r;
    var more := kept * above * z;
    assert x == (q + more) * unit + r by {
      assert more * unit == t * z;
    }
    UniqueDivision(x, unit, q + more, r);
    assert q == kept * (q / kept) + q % kept;
    assert q + more == (q / kept + above * z) * kept + q % kept;
    UniqueDivision(q + more, kept, q / kept + above * z, q % kept);
  }

  lemma {:induction false} ParityOfWindow(q: int, kept: nat)
    requires kept > 0 && kept % 2 == 0
    ensures q % kept % 2 == q % 2
    ensures q % 2 == 0 ==> (q + 1) % kept == q % kept + 1
  {
    var h, z, r := kept / 2, q / kept, q % kept;
    assert q == z * kept + r;
    assert z * kept == 2 * (z * h);
    if q % 2 == 0 {
      UniqueDivision(q + 1, kept, z, r + 1);
    }
  }

  lemma {:induction false} KeptRounds(x: int, unit: nat, kept: nat, above: nat)
    requires unit > 0 && unit % 2 == 0 && kept > 0 && kept % 2 == 0 && above > 0
    ensures Kept((x + unit / 2 - 1) % (unit * kept * above), unit, kept) == HalfToOdd(x, unit) % kept
  {
    var sum := x + unit / 2 - 1;
    Window(sum, unit, kept, above);
    ParityOfWindow(sum / unit, kept);
    SliceRounds(x, unit);
  }

  lemma {:induction false} KeptOfHalf(x: int, half: nat, unit: nat, kept: nat, above: nat, size: nat)
    requires half > 0 && unit == 2 * half && kept > 0 && kept % 2 == 0 && above > 0 && size == unit * kept * above
    requires size > 0
    ensures Kept((x + (half - 1)) % size, unit, kept) == HalfToOdd(x, unit) % kept
  {
    KeptRounds(x, unit, kept, above);
    assert x + unit / 2 - 1 == x + (half - 1);
  }

  lemma {:induction false} KeptOfBits(x: int, s: nat, p: nat, bits: nat)
    requires s >= 1 && p >= 1 && s + p <= bits
    ensures Kept((x + (Pow2(s - 1) - 1)) % Pow2(bits), Pow2(s), Pow2(p)) == HalfToOdd(x, Pow2(s)) % Pow2(p)
  {
    Pow2Sum(s, p);
    Pow2Sum(s + p, bits - s - p);
    KeptOfHalf(x, Pow2(s - 1), Pow2(s), Pow2(p), Pow2(bits - s - p), Pow2(bits));
  }

  lemma {:induction false} KeptOfAccumulator(x: int, s: nat, p: nat)
    requires s >= 1 && p >= 1 && s + p <= P_BITS
    ensures Kept(Accumulated(x, s), Pow2(s), Pow2(p)) == HalfToOdd(x, Pow2(s)) % Pow2(p)
  {
    KeptOfBits(x, s, p, P_BITS);
  }

  /** For all widths P is the product divided by 2 to the SHIFT, rounded half to odd,
      modulo 2 to the P_WIDTH. */
  lemma {:induction false} RoundsProduct(w: Widths, a: int, b: int)
    requires w.Valid()
    ensures Output(w, a, b)
            == HalfToOdd(Signed(a, Pow2(w.a)) * Signed(b, Pow2(w.b)), Pow2(w.Shift())) % Pow2(w.p)
  {
    KeptOfAccumulator(Signed(a, Pow2(w.a)) * Signed(b, Pow2(w.b)), w.Shift(), w.p);
  }

  // ---------- Instances with 24 by 16 bits and 14 bits of output ----------

  const PULSED_NMR := Widths(24, 16, 14)

  const LEVEL_LIMIT := 32766

  /** The rounded product fits a signed number of 14 bits. */
  predicate Fits(a: int, b: int) { -8192 <= HalfToOdd(a * b, 0x200_0000) <= 8191 }

  lemma {:induction false} LevelFits(a: int, b: int)
    requires -0x80_0000 <= a < 0x80_0000 && 0 <= b <= LEVEL_LIMIT
    ensures Fits(a, b)
  {
    assert a * b <= 0x7f_ffff * b;
    assert -0x80_0000 * b <= a * b;
    RoundedBetween(a * b, 0x200_0000, -8192, 8191);
  }

  /** So at these widths the output, read as a signed number, is the rounded product. */
  lemma {:induction false} OutputIsExact(a: int, b: nat)
    requires b <= LEVEL_LIMIT
    ensures Signed(Output(PULSED_NMR, a, b), 0x4000) == HalfToOdd(Signed(a, 0x100_0000) * b, 0x200_0000)
  {
    var x := Signed(a, 0x100_0000);
    assert Output(PULSED_NMR, a, b) == HalfToOdd(x * b, 0x200_0000) % 0x4000 by {
      assert Signed(b, 0x1_0000) == b;
      Powers();
      RoundsProduct(PULSED_NMR, a, b);
    }
    LevelFits(x, b);
    SignedOfModulo(HalfToOdd(x * b, 0x200_0000));
  }

  lemma Powers()
    ensures Pow2(14) == 0x4000 && Pow2(16) == 0x1_0000 && Pow2(24) == 0x100_0000 && Pow2(25) == 0x200_0000
  {
    assert Pow2(10) == 0x400;
    assert Pow2(20) == 0x10_0000;
  }

  lemma SignedOfModulo(n: int)
    requires -8192 <= n <= 8191
    ensures Signed(n % 0x4000, 0x4000) == n
  {
  }

  /** No 24-bit sample wraps the output at this level. */
  ghost predicate NeverWraps(b: nat) { forall a: int :: -0x80_0000 <= a < 0x80_0000 ==> Fits(a, b) }

  lemma {:induction false} LargeWraps(b: nat)
    requires b > LEVEL_LIMIT
    ensures !Fits(0x7f_ffff, b)
  {
    var x := 0x7f_ffff * b;
    assert x >= 0x7f_ffff * 32767;
    NearestTiesOdd(x, 0x200_0000);
    assert 2 * (x - HalfToOdd(x, 0x200_0000) * 0x200_0000) <= 0x200_0000;
  }

  /** The limit the server puts on the level is exact: up to it no sample wraps the
      output, and above it some sample does. */
  lemma {:induction false} LevelLimitIsExact(b: nat)
    ensures NeverWraps(b) <==> b <= LEVEL_LIMIT
  {
    if b <= LEVEL_LIMIT {
      forall a: int | -0x80_0000 <= a < 0x80_0000 ensures Fits(a, b) {
        LevelFits(a, b);
      }
    } else {
      LargeWraps(b);
    }
  }

  /** The transmitted sample is the rounded product of sample and level. */
  predicate Exact(a: int, b: nat) {
    Signed(Output(PULSED_NMR, a, b), 0x4000) == HalfToOdd(Signed(a, 0x100_0000) * b, 0x200_0000)
  }

  /** ... for every sample. */
  ghost predicate AlwaysExact(b: nat) { forall a: int :: Exact(a, b) }

  lemma {:induction false} NeverWrapsExact(b: nat)
    requires b <= LEVEL_LIMIT
    ensures AlwaysExact(b)
  {
    forall a: int ensures Exact(a, b) {
      OutputIsExact(a, b);
    }
  }
}
