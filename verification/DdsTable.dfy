/** helpers/dds-mem.py: the table whose entry k is the cosine of k and a half of 4096
    steps of a straight angle, and the largest amplitude with which the outputs of
    dds.v never wrap. */
module DdsTable {
  import opened Dds

  datatype Vector = Vector(x: real, y: real)

  /** The sum of two angles, as unit vectors. */
  function Plus(v: Vector, w: Vector): Vector { Vector(v.x * w.x - v.y * w.y, v.x * w.y + v.y * w.x) }

  ghost predicate Acute(v: Vector) { v.x > 0.0 && v.y > 0.0 && v.x * v.x + v.y * v.y == 1.0 }

  /** A right angle, halved n times. */
  ghost predicate Halved(n: nat, v: Vector) {
    if n == 0 then v == Vector(0.0, 1.0) else Acute(v) && Halved(n - 1, Plus(v, v))
  }

  /** The angles of the 2048 entries: half a step first, which is a right angle halved
      twelve times, then one step more for each. The last ones mirror the first. */
  ghost predicate Angles(v: nat -> Vector) {
    && Halved(12, v(0))
    && (forall k: nat :: k < 0x800 ==> Mirrored(v, k))
    && (forall k: nat :: k < 0x7ff ==> Stepped(v, k))
  }

  ghost predicate Mirrored(v: nat -> Vector, k: nat) {
    k < 0x800 && Acute(v(k)) && v(0x7ff - k) == Vector(v(k).y, v(k).x)
  }

  ghost predicate Stepped(v: nat -> Vector, k: nat) { v(k + 1) == Plus(v(k), Plus(v(0), v(0))) }

  /** The table the helper writes for an amplitude: rounded, and fit for 23 bits. */
  ghost predicate Written(amplitude: nat, v: nat -> Vector, lut: Table) {
    forall k: nat :: k < 0x800 ==> EntryOf(amplitude as real, v(k).x, lut(k))
  }

  ghost predicate EntryOf(amplitude: real, x: real, entry: nat) {
    0 < entry < 0x80_0000 && -0.5 <= entry as real - amplitude * x <= 0.5
  }

  // ---------- The angles ----------

  lemma AtLeast(a: real, b: real)
    requires a >= 0.0 && b >= 0.0 && a * a >= b * b
    ensures a >= b
  {
    if b > a {
      SquareGrows(b, a);
    }
  }

  lemma Quarter(w: Vector)
    requires Halved(1, w)
    ensures w.x == w.y && 0.7071 <= w.x <= 0.70711
  {
    assert Halved(0, Plus(w, w));
    assert w.x * w.x - w.y * w.y == 0.0 && 2.0 * (w.x * w.y) == 1.0;
    assert (w.x - w.y) * (w.x + w.y) == 0.0;
    assert w.x == w.y;
    AtLeast(w.x, 0.7071);
    AtLeast(0.70711, w.x);
  }

  lemma Eighth(v: Vector)
    requires Halved(2, v)
    ensures 4.0 * v.y >= 1.53 && 4.0 * v.y <= 1.657 * v.x
  {
    var w := Plus(v, v);
    assert Halved(1, w);
    Quarter(w);
    assert v.x * v.x - v.y * v.y == w.x && v.x * v.x + v.y * v.y == 1.0;
    AtLeast(v.y, 0.3825);
    assert (4.0 * v.y) * (4.0 * v.y) <= 2.3432 && (1.657 * v.x) * (1.657 * v.x) >= 2.3435;
    AtLeast(1.657 * v.x, 4.0 * v.y);
  }

  /** Halving an angle: the sine falls to more than a half, the tangent to less. */
  lemma {:induction false} HalvedBounds(n: nat, v: Vector, scale: real)
    requires n >= 2 && Halved(n, v) && scale == Scale2(n)
    ensures scale * v.y >= 1.53 && scale * v.y <= 1.657 * v.x
  {
    if n == 2 {
      Eighth(v);
    } else {
      var w := Plus(v, v);
      HalvedBounds(n - 1, w, scale / 2.0);
      HalfBounds(v, w, scale / 2.0, 1.53, 1.657);
    }
  }

  function Scale2(n: nat): real { if n == 0 then 1.0 else 2.0 * Scale2(n - 1) }

  lemma Squares(a: real, b: real)
    requires 0.0 <= a <= b
    ensures a * a <= b * b
  {
    Scale(a, b, a);
    Scale(a, b, b);
  }

  lemma Associate(a: real, x: real)
    ensures (a * x) * x == a * (x * x)
  {
  }

  lemma Cancel(a: real, b: real, x: real)
    requires x > 0.0 && a * x <= b * x
    ensures a <= b
  {
  }

  lemma TwiceProduct(half: real, x: real, y: real)
    ensures half * (x * y + y * x) == (2.0 * half * y) * x
  {
  }

  lemma Between(t: real, x: real, double: real, lo: real, hi: real)
    requires 0.0 < x <= 1.0 && double <= x * x && lo >= 0.0 && hi >= 0.0 && lo <= t * x <= hi * double
    ensures lo <= t <= hi * x
  {
    Scale(x, 1.0, lo);
    assert lo * x <= lo;
    Cancel(lo, t, x);
    Scale(double, x * x, hi);
    assert hi * double <= hi * (x * x);
    Associate(hi, x);
    assert t * x <= (hi * x) * x;
    Cancel(t, hi * x, x);
  }

  lemma HalfBounds(v: Vector, w: Vector, half: real, lo: real, hi: real)
    requires Acute(v) && w == Plus(v, v) && half > 0.0 && lo >= 0.0 && hi >= 0.0
    requires half * w.y >= lo && half * w.y <= hi * w.x
    ensures 2.0 * half * v.y >= lo && 2.0 * half * v.y <= hi * v.x
  {
    AtLeast(1.0, v.x);
    HalfOf(half, v.x, v.y, w.x, w.y, lo, hi);
  }

  lemma HalfOf(half: real, x: real, y: real, double: real, sine: real, lo: real, hi: real)
    requires 0.0 < x <= 1.0 && lo >= 0.0 && hi >= 0.0 && double == x * x - y * y && sine == x * y + y * x
    requires lo <= half * sine <= hi * double
    ensures lo <= 2.0 * half * y <= hi * x
  {
    TwiceProduct(half, x, y);
    assert half * sine == (2.0 * half * y) * x;
    assert y * y >= 0.0;
    Between(2.0 * half * y, x, double, lo, hi);
  }

  /** Half a step: its sine lies between 1.53 and 1.657 in 4096. */
  lemma FirstAngle(v: nat -> Vector)
    requires Angles(v)
    ensures 4096.0 * v(0).y >= 1.53 && 4096.0 * v(0).y <= 1.657
    ensures 0.999999836 <= v(0).x < 1.0
    ensures 2.0 * (1.0 - v(0).x) >= v(0).y * v(0).y
  {
    var x, y := v(0).x, v(0).y;
    assert Scale2(4) == 16.0 && Scale2(8) == 256.0 && Scale2(12) == 4096.0;
    assert Mirrored(v, 0);
    HalvedBounds(12, v(0), 4096.0);
    AtLeast(1.0, x);
    Squares(y, 0.0004046);
    assert (1.0 - x) * (1.0 + x) == y * y > 0.0;
    AtLeast(x, 0.999999836);
    Scale(1.0 + x, 2.0, 1.0 - x);
  }

  /** The angles grow. */
  lemma Grows(v: nat -> Vector, k: nat)
    requires Angles(v) && k < 0x7ff
    ensures v(k + 1).x < v(k).x
  {
    var s := Plus(v(0), v(0));
    assert Mirrored(v, 0) && Mirrored(v, k) && Stepped(v, k);
    FirstAngle(v);
    assert s.y > 0.0 && s.x <= 1.0;
    assert v(k + 1).x == v(k).x * s.x - v(k).y * s.y;
    assert v(k).x * s.x <= v(k).x && v(k).y * s.y > 0.0;
  }

  lemma {:induction false} AtMostOneAndAHalf(v: nat -> Vector, k: nat)
    requires Angles(v) && 1 <= k < 0x800
    ensures v(k).x <= v(1).x
  {
    if k > 1 {
      AtMostOneAndAHalf(v, k - 1);
      Grows(v, k - 1);
    }
  }

  /** One step and a half: three times the sine, nearly. */
  lemma SecondAngle(v: nat -> Vector)
    requires Angles(v)
    ensures v(1).y >= 0.0011
  {
    var x, y := v(0).x, v(0).y;
    FirstAngle(v);
    assert Mirrored(v, 0);
    var z := y * y;
    assert Stepped(v, 0);
    assert v(1).y == 3.0 * (x * x) * y - z * y;
    assert x * x == 1.0 - z;
    assert v(1).y == 3.0 * y - 4.0 * (z * y);
    Squares(y, 0.0005);
    assert z <= 0.01;
    Scale(z, 0.01, y);
    assert z * y <= 0.01 * y;
  }

  /** From the second entry on the sine is at least that. */
  lemma SineAtLeast(v: nat -> Vector, k: nat)
    requires Angles(v) && 1 <= k < 0x800
    ensures v(k).y >= 0.0011
  {
    AtMostOneAndAHalf(v, k);
    SecondAngle(v);
    assert Mirrored(v, k) && Mirrored(v, 1);
    Squares(v(k).x, v(1).x);
    AtLeast(v(k).y, v(1).y);
  }

  // ---------- Headroom up to 2^23 - 1 ----------

  /** A direction away from the correction's: the corrected value falls short. */
  lemma FallsShort(w: Vector)
    requires Acute(w) && w.y >= 0.0011
    ensures w.x * 16777216.0 + w.y * 6434.0 <= 16777214.0
  {
    var p, q := 16777216.0, 6434.0;
    var d, e := w.x * p + w.y * q, w.y * p - w.x * q;
    AtLeast(1.0, w.x);
    Squares(12000.0, e);
    assert d * d + e * e == (w.x * w.x + w.y * w.y) * (p * p + q * q) == p * p + q * q;
    assert p * p + q * q == 281475018107012.0 && 16777214.0 * 16777214.0 == 281474909601796.0;
    assert w.x * p >= 0.0 && w.y * q >= 0.0;
    AtLeast(16777214.0, d);
  }

  lemma OtherEntries(amplitude: nat, v: nat -> Vector, lut: Table, k: nat)
    requires Angles(v) && Written(amplitude, v, lut) && amplitude < 0x80_0000 && 1 <= k < 0x800
    ensures Headroom(lut, k)
  {
    var m := 0x7ff - k;
    assert Mirrored(v, k);
    SineAtLeast(v, k);
    FallsShort(v(k));
    assert EntryOf(amplitude as real, v(k).x, lut(k)) && EntryOf(amplitude as real, v(m).x, lut(m));
    Products(amplitude as real, lut(k) as real, lut(m) as real, v(k).x, v(k).y);
    assert (lut(k) * 0x100_0000 + lut(m) * 6434) as real == lut(k) as real * 16777216.0 + lut(m) as real * 6434.0;
  }

  lemma Combine(amplitude: real, x: real, p: real, y: real, q: real, most: real)
    requires amplitude >= 0.0 && x * p + y * q <= most
    ensures (amplitude * x) * p + (amplitude * y) * q <= amplitude * most
  {
    assert (amplitude * x) * p + (amplitude * y) * q == (x * p + y * q) * amplitude;
    Scale(x * p + y * q, most, amplitude);
  }

  lemma Products(amplitude: real, a: real, b: real, x: real, y: real)
    requires 0.0 <= amplitude <= 8388607.0 && x * 16777216.0 + y * 6434.0 <= 16777214.0
    requires a <= amplitude * x + 0.5 && b <= amplitude * y + 0.5
    ensures a * 16777216.0 + b * 6434.0 < 140737488355328.0 - 8388608.0
  {
    Combine(amplitude, x, 16777216.0, y, 6434.0, 16777214.0);
    var ax, ay := amplitude * x, amplitude * y;
    assert ax * 16777216.0 + ay * 6434.0 <= amplitude * 16777214.0 <= 8388607.0 * 16777214.0;
  }

  /** The first entry has to be rounded down to leave room. */
  lemma FirstEntry(amplitude: nat, v: nat -> Vector, lut: Table)
    requires Angles(v) && Written(amplitude, v, lut) && amplitude < 0x80_0000
    ensures Headroom(lut, 0)
  {
    FirstAngle(v);
    var x, y := v(0).x, v(0).y;
    assert Mirrored(v, 0);
    Rounded(amplitude as real, 8388607.0, x, y);
    var ax, ay := amplitude as real * x, amplitude as real * y;
    assert EntryOf(amplitude as real, x, lut(0)) && EntryOf(amplitude as real, y, lut(0x7ff));
    assert lut(0) as real - ax <= 0.5 && lut(0x7ff) as real - ay <= 0.5;
    FirstPair(lut(0), lut(0x7ff), ax, ay);
  }

  lemma FirstPair(a: nat, b: nat, ax: real, ay: real)
    requires ax < 8388606.5 && ay <= 3394.0 && a as real - ax <= 0.5 && b as real - ay <= 0.5
    ensures a * 0x100_0000 + b * 6434 < 0x7fff_ff80_0000
  {
    assert a as real < 8388607.0 && b as real < 3395.0;
    assert a <= 8388606 && b <= 3394;
  }

  lemma Below(amplitude: real, top: real, x: real, gap: real)
    requires 0.0 <= amplitude <= top && x >= 0.0 && gap <= 1.0 - x
    ensures amplitude * x <= top - gap * top
  {
    Scale(gap, 1.0 - x, top);
    Scale(amplitude, top, x);
    assert (1.0 - x) * top == top - top * x;
  }

  /** Half a step's cosine and sine times an amplitude. */
  lemma Rounded(amplitude: real, top: real, x: real, y: real)
    requires 0.0 <= amplitude <= top && 8388607.0 <= top <= 8388608.0
    requires 0.0 < x < 1.0 && 2.0 * (1.0 - x) >= y * y && 1.53 <= 4096.0 * y <= 1.657
    ensures amplitude * x < top - 0.5 && amplitude * y <= 3394.0
  {
    Squares(0.0003735, y);
    Below(amplitude, top, x, 0.0000000697);
    Scale(amplitude, 8388608.0, y);
    assert amplitude * y <= 8388608.0 * y <= 2048.0 * 1.657;
  }

  /** No table of a smaller amplitude wraps, at any phase. */
  lemma SmallerNeverWrap(amplitude: nat, v: nat -> Vector, lut: Table)
    requires Angles(v) && Written(amplitude, v, lut) && amplitude < 0x80_0000
    ensures NeverWraps(lut)
  {
    forall addr: nat | addr < 0x800 ensures Headroom(lut, addr) {
      if addr == 0 {
        FirstEntry(amplitude, v, lut);
      } else {
        OtherEntries(amplitude, v, lut, addr);
      }
    }
    HeadroomEverywhere(lut);
  }

  // ---------- The amplitude 2^23 and beyond ----------

  /** The first entry is rounded up, and its correction is more than one step. */
  lemma LimitWraps(v: nat -> Vector, lut: Table)
    requires Angles(v) && Written(0x80_0000, v, lut)
    ensures lut(0) == 0x7f_ffff && 3132 <= lut(0x7ff) <= 3394 && !NeverWraps(lut)
  {
    FirstAngle(v);
    var x, y := v(0).x, v(0).y;
    assert Mirrored(v, 0);
    Rounded(8388608.0, 8388608.0, x, y);
    assert EntryOf(8388608.0, x, lut(0)) && EntryOf(8388608.0, y, lut(0x7ff));
    assert lut(0) as real > 8388606.0 && lut(0) as real < 8388608.0;
    assert 3132.0 < lut(0x7ff) as real < 3395.0;
    WrapsAtZero(lut, lut(0x7ff));
  }

  /** From one more on the first entry has no room in 23 bits. */
  lemma LargerDoNotFit(amplitude: nat, v: nat -> Vector, lut: Table)
    requires Angles(v) && amplitude > 0x80_0000
    ensures !Written(amplitude, v, lut)
  {
    FirstAngle(v);
    TooLarge(amplitude as real, v(0).x, lut(0));
    assert !EntryOf(amplitude as real, v(0).x, lut(0));
  }

  lemma TooLarge(amplitude: real, x: real, entry: nat)
    requires amplitude >= 8388609.0 && x >= 0.999999836
    ensures !EntryOf(amplitude, x, entry)
  {
    Scale(8388609.0, amplitude, x);
    assert amplitude * x >= 8388609.0 * x >= 8388607.6;
  }

  /** The table of an amplitude. */
  function TableOf(amplitude: nat, v: nat -> Vector): Table { k => EntryAt(amplitude, v, k) }

  function EntryAt(amplitude: nat, v: nat -> Vector, k: int): nat {
    if k < 0 then 0
    else
      var x := amplitude as real * v(k).x;
      if x < 0.0 then 0 else Nearest(x)
  }

  function Nearest(x: real): (n: nat)
    requires x >= 0.0
    ensures -0.5 <= n as real - x <= 0.5
  {
    (x + 0.5).Floor
  }

  lemma {:induction false} SineNeverLess(v: nat -> Vector, k: nat)
    requires Angles(v) && k < 0x800
    ensures v(k).y >= v(0).y
  {
    if k > 0 {
      SineNeverLess(v, k - 1);
      Grows(v, k - 1);
      assert Mirrored(v, k) && Mirrored(v, k - 1);
      Squares(v(k).x, v(k - 1).x);
      AtLeast(v(k).y, v(k - 1).y);
    }
  }

  lemma EntryFits(amplitude: nat, v: nat -> Vector, k: nat)
    requires Angles(v) && 2000 <= amplitude <= 0x80_0000 && k < 0x800
    ensures 0.5 < amplitude as real * v(k).x < 8388607.5
  {
    FirstAngle(v);
    var x, y := v(0).x, v(0).y;
    SineNeverLess(v, 0x7ff - k);
    SineNeverLess(v, k);
    assert Mirrored(v, k) && Mirrored(v, 0);
    Squares(y, v(k).y);
    AtLeast(x, v(k).x);
    Rounded(8388608.0, 8388608.0, x, y);
    Scale(v(k).x, x, amplitude as real);
    Scale(amplitude as real, 8388608.0, x);
    assert amplitude as real * x <= 8388608.0 * x;
    Scale(y, v(k).x, amplitude as real);
    Scale(2000.0, amplitude as real, y);
    assert amplitude as real * y >= 2000.0 * y;
  }

  lemma TableIsWritten(amplitude: nat, v: nat -> Vector)
    requires Angles(v) && 2000 <= amplitude <= 0x80_0000
    ensures Written(amplitude, v, TableOf(amplitude, v))
  {
    forall k: nat | k < 0x800 ensures EntryOf(amplitude as real, v(k).x, TableOf(amplitude, v)(k)) {
      assert Mirrored(v, k);
      EntryFits(amplitude, v, k);
      assert TableOf(amplitude, v)(k) == EntryAt(amplitude, v, k);
    }
  }

  /** Of the amplitudes whose table fits 23 bits exactly the largest, 2^23, makes an
      output wrap; the helper's is two below it. */
  lemma AmplitudeLimitIsExact(v: nat -> Vector, amplitude: nat)
    requires Angles(v) && amplitude <= 0x80_0000
    ensures (forall lut: Table :: Written(amplitude, v, lut) ==> NeverWraps(lut)) <==> amplitude < 0x80_0000
  {
    if amplitude < 0x80_0000 {
      forall lut: Table | Written(amplitude, v, lut) ensures NeverWraps(lut) {
        SmallerNeverWrap(amplitude, v, lut);
      }
    } else {
      TableIsWritten(amplitude, v);
      LimitWraps(v, TableOf(amplitude, v));
    }
  }

  /** A written table is a quarter wave, so everything said of these holds for it. */
  lemma WrittenIsQuarterWave(amplitude: nat, v: nat -> Vector, lut: Table)
    requires Angles(v) && Written(amplitude, v, lut)
    ensures QuarterWave(amplitude, lut)
  {
    forall k | 0 <= k < 0x800
      ensures 0 < lut(k) < 0x80_0000 && exists x: real, y: real :: Approximates(amplitude, lut, k, x, y)
    {
      EntryApproximates(amplitude, v, lut, k);
    }
  }

  lemma EntryApproximates(amplitude: nat, v: nat -> Vector, lut: Table, k: nat)
    requires Angles(v) && Written(amplitude, v, lut) && k < 0x800
    ensures 0 < lut(k) < 0x80_0000 && Approximates(amplitude, lut, k, v(k).x, v(k).y)
  {
    var m: nat := 0x7ff - k;
    assert Mirrored(v, k);
    assert EntryOf(amplitude as real, v(k).x, lut(k)) && EntryOf(amplitude as real, v(m).x, lut(m));
  }
}
