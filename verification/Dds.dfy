/** cores_demin/dds.v: sine and cosine of an accumulated phase. A quarter-wave table
    gives both at the centre of the phase interval; a first-order correction, rounded
    half to odd, moves them to the phase itself. */
module Dds {
  import opened Arithmetic
  import opened Rounding

  /** What a DSP48E1 slice holds in its A, B and C input registers, its product
      register and its accumulator. */
  datatype Slice = Slice(a: int, b: int, c: int, m: int, p: int)

  /** The registers of the core, of the two-stage table ROM and of the three slices. */
  datatype Regs = Regs(
    cntr: nat,
    cos: int,
    sin: int,
    addr: nat,
    sign0: (bool, bool),
    sign1: (bool, bool),
    sign2: (bool, bool),
    rom0: (nat, nat),
    rom1: (nat, nat),
    dsp0: Slice,
    dsp1: Slice,
    dsp2: Slice)

  /** The table: 2048 entries of 23 bits, lut(k) for the angle of k and a half steps. */
  type Table = int -> nat

  /** A 23-bit table entry with the sign applied, as 30 bits: the entry zero has no
      negative in 23 bits. */
  function WithSign(negative: bool, entry: nat): int {
    var n: int := entry;
    if !negative then n else if n == 0 then -0x80_0000 else -n
  }

  /** int_cos_wire and int_sin_wire */
  function CosWire(r: Regs): int { WithSign(r.sign2.1, r.rom1.0) }
  function SinWire(r: Regs): int { WithSign(r.sign2.0, r.rom1.1) }

  /** Bits above the fraction of a slice's accumulator, the lowest or-ed with the
      pattern detect output: 18 bits above 17, or 24 bits above 24. */
  function CorrWire(r: Regs): int { Signed(DropFraction(r.dsp0.p, 0x2_0000), 0x4_0000) }

  function Accumulate(sum: int): int { Signed(sum, 0x1_0000_0000_0000) }

  function Address(c: nat): nat { c / 0x8_0000 % 0x800 }

  /** The A port of the first slice: the low 18 phase bits, with bit 18 inverted as
      the sign. */
  function Offset(c: nat): int { (if c / 0x4_0000 % 2 == 0 then -0x4_0000 else 0) + c % 0x4_0000 }

  function Bit(c: nat, weight: nat): bool
    requires weight > 0
  {
    c / weight % 2 == 1
  }

  /** One clock. */
  function Next(lut: Table, negativeSine: bool, r: Regs, aresetn: bool, pinc: nat): Regs {
    var cosWire, sinWire, corrWire := CosWire(r), SinWire(r), CorrWire(r);
    var fold := r.sign0.1;
    Regs(
      if aresetn then (if negativeSine then r.cntr - pinc else r.cntr + pinc) % 0x1_0000_0000 else 0,
      if aresetn then cosWire else 0,
      if aresetn then sinWire else 0,
      if aresetn then Address(r.cntr) else 0,
      if aresetn then (Bit(r.cntr, 0x8000_0000), Bit(r.cntr, 0x4000_0000)) else (false, false),
      if aresetn then (r.sign0.0, r.sign0.0 != r.sign0.1) else (false, false),
      if aresetn then r.sign1 else (false, false),
      (lut(if fold then 0x7ff - r.addr else r.addr), lut(if fold then r.addr else 0x7ff - r.addr)),
      r.rom0,
      Slice(Offset(r.cntr), 3217, 0xffff, r.dsp0.a * 3217, Accumulate(0xffff + r.dsp0.m)),
      Slice(sinWire, corrWire, r.cos * 0x100_0000 + 0x7f_ffff, r.dsp1.a * r.dsp1.b, Accumulate(r.dsp1.c - r.dsp1.m)),
      Slice(cosWire, corrWire, r.sin * 0x100_0000 + 0x7f_ffff, r.dsp2.a * r.dsp2.b, Accumulate(r.dsp2.c + r.dsp2.m)))
  }

  /** The two halves of dout. */
  function CosOut(r: Regs): int { DropFraction(r.dsp1.p, 0x100_0000) }
  function SinOut(r: Regs): int { DropFraction(r.dsp2.p, 0x100_0000) }

  // ---------- What the outputs mean ----------

  /** Table value of the cosine and the sine at the centre of the interval of c. */
  function TableCos(lut: Table, c: nat): int {
    WithSign(Bit(c, 0x8000_0000) != Bit(c, 0x4000_0000),
             lut(if Bit(c, 0x4000_0000) then 0x7ff - Address(c) else Address(c)))
  }

  function TableSin(lut: Table, c: nat): int {
    WithSign(Bit(c, 0x8000_0000), lut(if Bit(c, 0x4000_0000) then Address(c) else 0x7ff - Address(c)))
  }

  /** The distance of c from that centre, in units of 2 to the -24 radians, rounded. */
  function Correction(c: nat): int { HalfToOdd((c % 0x8_0000 - 0x4_0000) * 3217, 0x2_0000) }

  /** The corrected values before rounding, times 2 to the 24. */
  function ExactCos(lut: Table, c: nat): int {
    TableCos(lut, c) * 0x100_0000 - TableSin(lut, c) * Correction(c)
  }

  function ExactSin(lut: Table, c: nat): int {
    TableSin(lut, c) * 0x100_0000 + TableCos(lut, c) * Correction(c)
  }

  /** A run with aresetn high: the registers before every clock and after the last. */
  ghost predicate IsRun(lut: Table, negativeSine: bool, regs: seq<Regs>, pincs: seq<nat>) {
    && |regs| == |pincs| + 1
    && (forall i :: 0 <= i < |pincs| ==> regs[i + 1] == Next(lut, negativeSine, regs[i], true, pincs[i]))
  }

  lemma OffsetIs(c: nat)
    ensures Offset(c) == c % 0x8_0000 - 0x4_0000
    ensures Address(c) < 0x800
  {
    var q, r := c / 0x4_0000, c % 0x4_0000;
    assert c == q / 2 * 0x8_0000 + (q % 2 * 0x4_0000 + r);
    UniqueDivision(c, 0x8_0000, q / 2, q % 2 * 0x4_0000 + r);
  }

  lemma CorrectionBound(c: nat)
    ensures -6434 <= Correction(c) <= 6434
  {
  }

  /** The first slice computes the correction. */
  lemma FirstSlice(c: nat)
    ensures Signed(DropFraction(Accumulate(0xffff + Offset(c) * 3217), 0x2_0000), 0x4_0000) == Correction(c)
  {
    OffsetIs(c);
    CorrectionBound(c);
    SliceRounds(Offset(c) * 3217, 0x2_0000);
    SignedInRange(0xffff + Offset(c) * 3217, 0x1_0000_0000_0000);
    SignedInRange(Correction(c), 0x4_0000);
  }

  /** A vector turned by q right angles. */
  function Turn(q: nat, x: int, y: int): (int, int) {
    if q == 0 then (x, y) else Turn(q - 1, -y, x)
  }

  /** A phase in its quadrant q, in step k of the 2048 there, d away from the centre of
      the step. Whole turns do not matter. */
  ghost predicate Splits(c: nat, q: nat, k: nat, d: int) {
    && q < 4 && k < 0x800 && -0x4_0000 <= d < 0x4_0000
    && c % 0x1_0000_0000 == q * 0x4000_0000 + k * 0x8_0000 + 0x4_0000 + d
  }

  lemma {:induction false} EveryPhaseSplits(c: nat)
    ensures Splits(c, c / 0x4000_0000 % 4, c % 0x4000_0000 / 0x8_0000, c % 0x8_0000 - 0x4_0000)
  {
    var h, f := c / 0x4000_0000, c % 0x4000_0000;
    UniqueDivision(c, 0x1_0000_0000, h / 4, h % 4 * 0x4000_0000 + f);
    UniqueDivision(c, 0x8_0000, h * 0x800 + f / 0x8_0000, f % 0x8_0000);
  }

  lemma {:induction false} SplitBits(c: nat, q: nat, k: nat, d: int)
    requires Splits(c, q, k, d)
    ensures Address(c) == k && Bit(c, 0x8000_0000) == (q >= 2) && Bit(c, 0x4000_0000) == (q % 2 == 1)
    ensures c % 0x8_0000 == d + 0x4_0000
  {
    LowBits(c, c / 0x1_0000_0000 * 4 + q, k, d + 0x4_0000);
    HighBits(c, c / 0x1_0000_0000, q, k * 0x8_0000 + d + 0x4_0000);
  }

  lemma {:induction false} LowBits(c: nat, h: nat, k: nat, r: nat)
    requires k < 0x800 && r < 0x8_0000 && c == h * 0x4000_0000 + k * 0x8_0000 + r
    ensures Address(c) == k && c % 0x8_0000 == r
  {
    UniqueDivision(c, 0x8_0000, h * 0x800 + k, r);
    UniqueDivision(h * 0x800 + k, 0x800, h, k);
  }

  lemma {:induction false} HighBits(c: nat, n: nat, q: nat, f: nat)
    requires q < 4 && f < 0x4000_0000 && c == n * 0x1_0000_0000 + q * 0x4000_0000 + f
    ensures Bit(c, 0x8000_0000) == (q >= 2) && Bit(c, 0x4000_0000) == (q % 2 == 1)
  {
    UniqueDivision(c, 0x4000_0000, n * 4 + q, f);
    UniqueDivision(c, 0x8000_0000, n * 2 + q / 2, q % 2 * 0x4000_0000 + f);
  }

  /** The folded table is the quarter wave turned: in quadrant q the pair is that of the
      step, the entry and its mirror image, turned by q right angles. */
  lemma {:induction false} FoldsQuadrants(lut: Table, c: nat, q: nat, k: nat, d: int)
    requires Splits(c, q, k, d) && lut(k) > 0 && lut(0x7ff - k) > 0
    ensures (TableCos(lut, c), TableSin(lut, c)) == Turn(q, lut(k), lut(0x7ff - k))
    ensures Correction(c) == HalfToOdd(d * 3217, 0x2_0000)
  {
    SplitBits(c, q, k, d);
    FoldsExactly(lut, c, q, k, d);
  }

  /** Exactly when the pair is turned like that for a table with zeros: no zero entry may
      have to be negated, because 23 bits have no negative of it. */
  lemma {:induction false} FoldsExactly(lut: Table, c: nat, q: nat, k: nat, d: int)
    requires Splits(c, q, k, d)
    ensures (TableCos(lut, c), TableSin(lut, c)) == Turn(q, lut(k), lut(0x7ff - k))
            <==> (q == 2 || q == 3 ==> lut(k) > 0) && (q == 1 || q == 2 ==> lut(0x7ff - k) > 0)
  {
    SplitBits(c, q, k, d);
    var a: int, b: int := lut(k), lut(0x7ff - k);
    assert Turn(1, a, b) == (-b, a) && Turn(2, a, b) == Turn(1, -b, a) == (-a, -b);
    assert Turn(3, a, b) == Turn(2, -b, a) == Turn(1, -a, -b) == (b, -a);
  }

  /** Three clocks after the accumulator the table values and the correction meet. */
  lemma {:induction false} FrontEnd(lut: Table, negativeSine: bool, r: Regs, r1: Regs, r2: Regs, r3: Regs,
        p: nat, p1: nat, p2: nat)
    requires r1 == Next(lut, negativeSine, r, true, p)
    requires r2 == Next(lut, negativeSine, r1, true, p1)
    requires r3 == Next(lut, negativeSine, r2, true, p2)
    ensures CosWire(r3) == TableCos(lut, r.cntr)
    ensures SinWire(r3) == TableSin(lut, r.cntr)
    ensures CorrWire(r3) == Correction(r.cntr)
  {
    FirstSlice(r.cntr);
  }

  /** Three clocks later their sum of products is in the accumulators. */
  lemma {:induction false} BackEnd(lut: Table, negativeSine: bool, r: Regs, r1: Regs, r2: Regs, r3: Regs,
        p: nat, p1: nat, p2: nat)
    requires r1 == Next(lut, negativeSine, r, true, p)
    requires r2 == Next(lut, negativeSine, r1, true, p1)
    requires r3 == Next(lut, negativeSine, r2, true, p2)
    ensures r3.dsp1.p == Accumulate(CosWire(r) * 0x100_0000 - SinWire(r) * CorrWire(r) + 0x7f_ffff)
    ensures r3.dsp2.p == Accumulate(SinWire(r) * 0x100_0000 + CosWire(r) * CorrWire(r) + 0x7f_ffff)
  {
  }

  /** All paths from the accumulator to the outputs take six clocks: in every run,
      whatever the other registers held at first, the accumulators of the two output
      slices belong to the phase six clocks earlier and to nothing else. */
  lemma SixClocks(lut: Table, negativeSine: bool, regs: seq<Regs>, pincs: seq<nat>, i: nat)
    requires IsRun(lut, negativeSine, regs, pincs) && i + 6 <= |pincs|
    ensures regs[i + 6].dsp1.p == Accumulate(ExactCos(lut, regs[i].cntr) + 0x7f_ffff)
    ensures regs[i + 6].dsp2.p == Accumulate(ExactSin(lut, regs[i].cntr) + 0x7f_ffff)
  {
    FrontEnd(lut, negativeSine, regs[i], regs[i + 1], regs[i + 2], regs[i + 3], pincs[i], pincs[i + 1], pincs[i + 2]);
    BackEnd(lut, negativeSine, regs[i + 3], regs[i + 4], regs[i + 5], regs[i + 6],
            pincs[i + 3], pincs[i + 4], pincs[i + 5]);
  }

  function Turned(negativeSine: bool, pincs: seq<nat>): int {
    if pincs == [] then 0
    else
      var turned, p := Turned(negativeSine, pincs[..|pincs| - 1]), pincs[|pincs| - 1];
      if negativeSine then turned - p else turned + p
  }

  /** The phase is the sum of the increments, or its negative, modulo 2 to the 32. */
  lemma {:induction false} PhaseAccumulates(lut: Table, negativeSine: bool, regs: seq<Regs>, pincs: seq<nat>, i: nat)
    requires IsRun(lut, negativeSine, regs, pincs) && i <= |pincs| && regs[0].cntr < 0x1_0000_0000
    ensures regs[i].cntr == (regs[0].cntr + Turned(negativeSine, pincs[..i])) % 0x1_0000_0000
  {
    if i > 0 {
      PhaseAccumulates(lut, negativeSine, regs, pincs, i - 1);
      assert pincs[..i][..i - 1] == pincs[..i - 1];
      PhaseStep(lut, negativeSine, regs[i - 1], regs[0].cntr + Turned(negativeSine, pincs[..i - 1]), pincs[i - 1]);
    }
  }

  /** A reset from any state clears the phase and the registers behind it. */
  lemma {:induction false} ResetClears(lut: Table, negativeSine: bool, r: Regs, pinc: nat)
    ensures var r' := Next(lut, negativeSine, r, false, pinc);
            && r'.cntr == 0 && r'.cos == 0 && r'.sin == 0 && r'.addr == 0
            && r'.sign0 == r'.sign1 == r'.sign2 == (false, false)
  {
  }

  /** So after a reset the phase is the sum of the increments since. */
  lemma {:induction false} PhaseFromReset(lut: Table, negativeSine: bool, r: Regs, pinc: nat, regs: seq<Regs>,
        pincs: seq<nat>, i: nat)
    requires IsRun(lut, negativeSine, regs, pincs) && i <= |pincs| && regs[0] == Next(lut, negativeSine, r, false, pinc)
    ensures regs[i].cntr == Turned(negativeSine, pincs[..i]) % 0x1_0000_0000
  {
    ResetClears(lut, negativeSine, r, pinc);
    PhaseAccumulates(lut, negativeSine, regs, pincs, i);
  }

  lemma PhaseStep(lut: Table, negativeSine: bool, r: Regs, phase: int, p: nat)
    requires r.cntr == phase % 0x1_0000_0000
    ensures Next(lut, negativeSine, r, true, p).cntr
            == (if negativeSine then phase - p else phase + p) % 0x1_0000_0000
  {
    var d: int := p;
    ModAdd(phase, if negativeSine then -d else d, 0x1_0000_0000);
  }

  // ---------- Headroom ----------

  /** The amplitude of the table written by helpers/dds-mem.py */
  const AMPLITUDE := 0x7f_fffe

  const LARGER_AMPLITUDE := 0x7f_ffff

  /** Entry k and its mirror image are within a half of amplitude times cosine and
      sine of one angle. */
  ghost predicate Approximates(amplitude: int, lut: Table, k: int, x: real, y: real) {
    && x >= 0.0 && y >= 0.0 && x * x + y * y == 1.0
    && -0.5 <= lut(k) as real - amplitude as real * x <= 0.5
    && -0.5 <= lut(0x7ff - k) as real - amplitude as real * y <= 0.5
  }

  /** A table of positive 23-bit entries whose mirrored pairs are cosine and sine. */
  ghost predicate QuarterWave(amplitude: int, lut: Table) {
    forall k :: 0 <= k < 0x800 ==>
      && 0 < lut(k) < 0x80_0000
      && exists x: real, y: real :: Approximates(amplitude, lut, k, x, y)
  }

  lemma SquareGrows(d: real, m: real)
    requires d > m >= 0.0
    ensures d * d > m * m
  {
    var e := d - m;
    assert e * e > 0.0 && e * m >= 0.0;
    assert d * d == m * m + 2.0 * (e * m) + e * e;
  }

  /** Cauchy-Schwarz for a unit vector, against an upper bound of the other's length. */
  lemma UnitVectorBound(x: real, y: real, p: real, q: real, m: real)
    requires x * x + y * y == 1.0 && m >= 0.0 && p * p + q * q <= m * m
    ensures x * p + y * q <= m
  {
    var d, e := x * p + y * q, x * q - y * p;
    assert d * d + e * e == (x * x + y * y) * (p * p + q * q);
    assert e * e >= 0.0;
    if d > m {
      SquareGrows(d, m);
    }
  }

  /** The largest magnitude a corrected value can have: the length of (2^24, 6434) is
      less than 2^24 + 1.234, and each table entry is off by at most a half. */
  lemma {:induction false} CorrectedBound(c: nat, s: nat, k: nat, x: real, y: real)
    requires x >= 0.0 && y >= 0.0 && x * x + y * y == 1.0 && k <= 6434
    requires c as real <= AMPLITUDE as real * x + 0.5 && s as real <= AMPLITUDE as real * y + 0.5
    ensures c * 0x100_0000 + s * k < 0x8000_0000_0000 - 0x80_0000
  {
    var p, q, a := 16777216.0, k as real, AMPLITUDE as real;
    VectorLength(q);
    UnitVectorBound(x, y, p, q, 16777217.234);
    RealBound(c as real, s as real, q, x, y);
    assert (c * 0x100_0000 + s * k) as real == c as real * p + s as real * q;
  }

  lemma ScaledSum(s: real, a: real, y: real, b: real, q: real, t: real)
    requires s <= a * y + b && q >= 0.0 && t == y * q
    ensures s * q <= a * t + b * q
  {
    assert (a * y + b - s) * q >= 0.0;
    assert (a * y + b - s) * q == a * (y * q) + b * q - s * q;
  }

  lemma RealBound(c: real, s: real, q: real, x: real, y: real)
    requires 0.0 <= q <= 6434.0 && x * 16777216.0 + y * q <= 16777217.234
    requires c <= 8388606.0 * x + 0.5 && s <= 8388606.0 * y + 0.5
    ensures c * 16777216.0 + s * q < 140737488355328.0 - 8388608.0
  {
    var t := y * q;
    ScaledSum(s, 8388606.0, y, 0.5, q, t);
    assert c * 16777216.0 <= 8388606.0 * (x * 16777216.0) + 8388608.0;
    assert 8388606.0 * (x * 16777216.0 + t) <= 8388606.0 * 16777217.234;
  }

  lemma VectorLength(q: real)
    requires 0.0 <= q <= 6434.0
    ensures 16777216.0 * 16777216.0 + q * q <= 16777217.234 * 16777217.234
  {
    Scale(q, 6434.0, q);
    assert q * q <= 6434.0 * q;
    assert q * q <= 41396356.0;
    assert 16777217.234 * 16777217.234 >= 281474976710656.0 + 41396356.0;
  }

  lemma Scale(a: real, b: real, factor: real)
    requires a <= b && factor >= 0.0
    ensures a * factor <= b * factor
  {
  }

  /** Both ways around, as the folding exchanges the two entries. */
  lemma {:induction false} PairInRange(lut: Table, addr: nat, k: nat)
    requires QuarterWave(AMPLITUDE, lut) && addr < 0x800 && k <= 6434
    ensures 0 < lut(addr) && 0 < lut(0x7ff - addr)
    ensures lut(addr) * 0x100_0000 + lut(0x7ff - addr) * k < 0x7fff_ff80_0000
    ensures lut(0x7ff - addr) * 0x100_0000 + lut(addr) * k < 0x7fff_ff80_0000
  {
    var a, b := lut(addr), lut(0x7ff - addr);
    var x: real, y: real :| Approximates(AMPLITUDE, lut, addr, x, y);
    CorrectedBound(a, b, k, x, y);
    CorrectedBound(b, a, k, y, x);
  }

  /** The corrected values stay half an output step inside the 24-bit range, whatever
      the signs and the correction. */
  ghost predicate Headroom(lut: Table, addr: nat) {
    0 < lut(addr) && lut(addr) * 0x100_0000 + lut(0x7ff - addr) * 6434 < 0x7fff_ff80_0000
  }

  lemma {:induction false} HeadroomSuffices(lut: Table, c: nat)
    requires Headroom(lut, Address(c)) && Headroom(lut, 0x7ff - Address(c))
    ensures -0x7fff_ff80_0000 < ExactCos(lut, c) < 0x7fff_ff80_0000
    ensures -0x7fff_ff80_0000 < ExactSin(lut, c) < 0x7fff_ff80_0000
  {
    CorrectionBound(c);
    var k := Correction(c);
    LessCorrection(lut(Address(c)), lut(0x7ff - Address(c)), Abs(k));
    LessCorrection(lut(0x7ff - Address(c)), lut(Address(c)), Abs(k));
    ExactBelow(TableCos(lut, c), TableSin(lut, c), k);
    ExactBelow(TableSin(lut, c), TableCos(lut, c), k);
  }

  lemma LessCorrection(a: nat, b: nat, k: nat)
    requires a * 0x100_0000 + b * 6434 < 0x7fff_ff80_0000 && k <= 6434
    ensures a * 0x100_0000 + b * k < 0x7fff_ff80_0000
  {
    assert b * k <= b * 6434;
  }

  /** Neither corrected value comes within half an output step of the 24-bit range. */
  lemma {:induction false} ExactInRange(lut: Table, c: nat)
    requires QuarterWave(AMPLITUDE, lut)
    ensures -0x7fff_ff80_0000 < ExactCos(lut, c) < 0x7fff_ff80_0000
    ensures -0x7fff_ff80_0000 < ExactSin(lut, c) < 0x7fff_ff80_0000
  {
    OffsetIs(c);
    PairInRange(lut, Address(c), 6434);
    HeadroomSuffices(lut, c);
  }

  function Abs(i: int): nat { if i < 0 then -i else i }

  lemma Signs(i: int, j: int, k: int)
    ensures Abs(i * 0x100_0000 - j * k) <= Abs(i) * 0x100_0000 + Abs(j) * Abs(k)
    ensures Abs(i * 0x100_0000 + j * k) <= Abs(i) * 0x100_0000 + Abs(j) * Abs(k)
  {
    assert Abs(j) * Abs(k) == Abs(j * k);
  }

  lemma ExactBelow(i: int, j: int, k: int)
    requires Abs(i) * 0x100_0000 + Abs(j) * Abs(k) < 0x7fff_ff80_0000
    ensures -0x7fff_ff80_0000 < i * 0x100_0000 - j * k < 0x7fff_ff80_0000
    ensures -0x7fff_ff80_0000 < i * 0x100_0000 + j * k < 0x7fff_ff80_0000
  {
    Signs(i, j, k);
  }

  lemma RoundsInRange(exact: int)
    requires -0x7fff_ff80_0000 < exact < 0x7fff_ff80_0000
    ensures ShowsRounded(exact)
    ensures -0x7f_ffff <= HalfToOdd(exact, 0x100_0000) <= 0x7f_ffff
  {
    SignedInRange(exact + 0x7f_ffff, 0x1_0000_0000_0000);
    SliceRounds(exact, 0x100_0000);
    RoundedBetween(exact, 0x100_0000, -0x7f_ffff, 0x7f_ffff);
  }

  /** The output bits of a slice, read as a signed number, are the rounded value. */
  predicate ShowsRounded(exact: int) {
    DropFraction(Accumulate(exact + 0x7f_ffff), 0x100_0000) == HalfToOdd(exact, 0x100_0000)
  }

  /** ... at both outputs and for every phase. */
  ghost predicate NeverWraps(lut: Table) {
    forall c: nat :: ShowsRounded(ExactCos(lut, c)) && ShowsRounded(ExactSin(lut, c))
  }

  lemma HeadroomEverywhere(lut: Table)
    requires forall addr: nat :: addr < 0x800 ==> Headroom(lut, addr)
    ensures NeverWraps(lut)
  {
    forall c: nat ensures ShowsRounded(ExactCos(lut, c)) && ShowsRounded(ExactSin(lut, c)) {
      OffsetIs(c);
      HeadroomSuffices(lut, c);
      RoundsInRange(ExactCos(lut, c));
      RoundsInRange(ExactSin(lut, c));
    }
  }

  /** For any quarter-wave table of the helper's amplitude, every phase and every run,
      the outputs are the corrected values of the phase six clocks earlier, rounded
      half to odd, and never leave the symmetric 24-bit range. */
  lemma {:induction false} OutputsNeverWrap(lut: Table, negativeSine: bool, regs: seq<Regs>, pincs: seq<nat>, i: nat)
    requires QuarterWave(AMPLITUDE, lut)
    requires IsRun(lut, negativeSine, regs, pincs) && i + 6 <= |pincs|
    ensures CosOut(regs[i + 6]) == HalfToOdd(ExactCos(lut, regs[i].cntr), 0x100_0000)
    ensures SinOut(regs[i + 6]) == HalfToOdd(ExactSin(lut, regs[i].cntr), 0x100_0000)
    ensures -0x7f_ffff <= CosOut(regs[i + 6]) <= 0x7f_ffff
    ensures -0x7f_ffff <= SinOut(regs[i + 6]) <= 0x7f_ffff
  {
    SixClocks(lut, negativeSine, regs, pincs, i);
    ExactInRange(lut, regs[i].cntr);
    RoundsInRange(ExactCos(lut, regs[i].cntr));
    RoundsInRange(ExactSin(lut, regs[i].cntr));
  }

  /** The rounded sums for a pair turned by a correction. */
  ghost predicate Shows(cos: int, sin: int, t: (int, int), e: int) {
    && cos == HalfToOdd(t.0 * 0x100_0000 - t.1 * e, 0x100_0000)
    && sin == HalfToOdd(t.1 * 0x100_0000 + t.0 * e, 0x100_0000)
  }

  /** So in every run, with a table that never makes them wrap, the outputs are the pair
      of the step that the phase six clocks earlier was in, turned to its quadrant and
      then by the correction for its distance from the centre, and rounded. */
  lemma {:induction false} OutputsTurn(lut: Table, negativeSine: bool, regs: seq<Regs>, pincs: seq<nat>, i: nat,
        q: nat, k: nat, d: int)
    requires NeverWraps(lut) && IsRun(lut, negativeSine, regs, pincs) && i + 6 <= |pincs|
    requires Splits(regs[i].cntr, q, k, d) && lut(k) > 0 && lut(0x7ff - k) > 0
    ensures Shows(CosOut(regs[i + 6]), SinOut(regs[i + 6]), Turn(q, lut(k), lut(0x7ff - k)),
                  HalfToOdd(d * 3217, 0x2_0000))
  {
    var c := regs[i].cntr;
    SixClocks(lut, negativeSine, regs, pincs, i);
    assert ShowsRounded(ExactCos(lut, c)) && ShowsRounded(ExactSin(lut, c));
    assert Shows(CosOut(regs[i + 6]), SinOut(regs[i + 6]), (TableCos(lut, c), TableSin(lut, c)), Correction(c));
    FoldsQuadrants(lut, c, q, k, d);
  }

  /** A table whose first and last entry belong to an angle of 2896 steps of the larger
      amplitude, and all others to that of a 3-4-5 triangle. */
  const SOME_ANGLES: Table :=
    k => if k == 0 then 0x7f_ffff else if k == 0x7ff then 2896 else if k < 0x400 then 6710886 else 5033164

  lemma SomeAnglesApproximate(k: nat)
    requires k < 0x400
    ensures exists x: real, y: real ::
              && Approximates(LARGER_AMPLITUDE, SOME_ANGLES, k, x, y)
              && Approximates(LARGER_AMPLITUDE, SOME_ANGLES, 0x7ff - k, y, x)
  {
    var x, y := if k == 0 then 33558848.0 / 33558850.0 else 0.8, if k == 0 then 11586.0 / 33558850.0 else 0.6;
    assert Approximates(LARGER_AMPLITUDE, SOME_ANGLES, k, x, y);
    assert Approximates(LARGER_AMPLITUDE, SOME_ANGLES, 0x7ff - k, y, x);
  }

  /** That every pair belongs to some angle is not enough for the next amplitude: such
      a table can make phase zero wrap. The helper's angles leave more room, see
      DdsTable. */
  lemma AnyAngleIsNotEnough()
    ensures exists lut: Table :: QuarterWave(LARGER_AMPLITUDE, lut) && !NeverWraps(lut)
  {
    forall k | 0 <= k < 0x800
      ensures 0 < SOME_ANGLES(k) < 0x80_0000
      ensures exists x: real, y: real :: Approximates(LARGER_AMPLITUDE, SOME_ANGLES, k, x, y)
    {
      SomeAnglesApproximate(if k < 0x400 then k else 0x7ff - k);
    }
    WrapsAtZero(SOME_ANGLES, 2896);
  }

  /** An entry of 2^23 - 1 and any of 1304 to 3911 beside it make phase zero wrap to the
      most negative value. */
  lemma WrapsAtZero(lut: Table, b: nat)
    requires lut(0) == 0x7f_ffff && lut(0x7ff) == b && 1304 <= b <= 3911
    ensures HalfToOdd(ExactCos(lut, 0), 0x100_0000) == 0x80_0000
    ensures DropFraction(Accumulate(ExactCos(lut, 0) + 0x7f_ffff), 0x100_0000) == -0x80_0000
    ensures !NeverWraps(lut)
  {
    assert Correction(0) == -6434;
    assert ExactCos(lut, 0) == 0x7f_ffff * 0x100_0000 + b * 6434;
    assert !ShowsRounded(ExactCos(lut, 0));
  }

  class Core {
    const lut: Table
    const negativeSine: bool
    var intCntrReg: nat
    var intCosReg: int
    var intSinReg: int
    var intAddrReg: nat
    var intSignReg0: (bool, bool)
    var intSignReg1: (bool, bool)
    var intSignReg2: (bool, bool)
    var rom0: (nat, nat)
    var rom1: (nat, nat)
    var dsp0: Slice
    var dsp1: Slice
    var dsp2: Slice

    constructor (lut: Table, negativeSine: bool)
      ensures this.lut == lut && this.negativeSine == negativeSine && intCntrReg == 0
    {
      this.lut, this.negativeSine := lut, negativeSine;
      intCntrReg, intCosReg, intSinReg, intAddrReg := 0, 0, 0, 0;
      intSignReg0, intSignReg1, intSignReg2 := (false, false), (false, false), (false, false);
      rom0, rom1 := (0, 0), (0, 0);
      var idle := Slice(0, 0, 0, 0, 0);
      dsp0, dsp1, dsp2 := idle, idle, idle;
    }

    function State(): Regs
      reads this
    {
      Regs(intCntrReg, intCosReg, intSinReg, intAddrReg, intSignReg0, intSignReg1, intSignReg2, rom0, rom1,
           dsp0, dsp1, dsp2)
    }

    /** One clock of the slices and the ROM, which have no reset. */
    method ClockSlices(cosWire: int, sinWire: int, corrWire: int)
      requires cosWire == CosWire(State()) && sinWire == SinWire(State()) && corrWire == CorrWire(State())
      modifies this`rom0, this`rom1, this`dsp0, this`dsp1, this`dsp2
      ensures var r' := Next(lut, negativeSine, old(State()), true, 0);
              rom0 == r'.rom0 && rom1 == r'.rom1 && dsp0 == r'.dsp0 && dsp1 == r'.dsp1 && dsp2 == r'.dsp2
    {
      var inverted := 0x7ff - intAddrReg;
      rom1 := rom0;
      rom0 := if intSignReg0.1 then (lut(inverted), lut(intAddrReg)) else (lut(intAddrReg), lut(inverted));
      dsp0 := Slice(Offset(intCntrReg), 3217, 0xffff, dsp0.a * 3217, Accumulate(0xffff + dsp0.m));
      dsp1 := Slice(sinWire, corrWire, intCosReg * 0x100_0000 + 0x7f_ffff, dsp1.a * dsp1.b,
                    Accumulate(dsp1.c - dsp1.m));
      dsp2 := Slice(cosWire, corrWire, intSinReg * 0x100_0000 + 0x7f_ffff, dsp2.a * dsp2.b,
                    Accumulate(dsp2.c + dsp2.m));
    }

    method Tick(aresetn: bool, pinc: nat)
      modifies this
      ensures State() == Next(lut, negativeSine, old(State()), aresetn, pinc)
    {
      var cosWire, sinWire, corrWire := CosWire(State()), SinWire(State()), CorrWire(State());
      ClockSlices(cosWire, sinWire, corrWire);
      if !aresetn {
        intCntrReg, intCosReg, intSinReg, intAddrReg := 0, 0, 0, 0;
        intSignReg0, intSignReg1, intSignReg2 := (false, false), (false, false), (false, false);
      } else {
        intSignReg2 := intSignReg1;
        intSignReg1 := (intSignReg0.0, intSignReg0.0 != intSignReg0.1);
        intSignReg0 := (Bit(intCntrReg, 0x8000_0000), Bit(intCntrReg, 0x4000_0000));
        intAddrReg := Address(intCntrReg);
        intCosReg, intSinReg := cosWire, sinWire;
        intCntrReg := (if negativeSine then intCntrReg - pinc else intCntrReg + pinc) % 0x1_0000_0000;
      }
    }
  }
}
