/** How far the outputs of dds.v are from the amplitude times the cosine and the sine of
    the phase: less than two steps, at every phase. */
module DdsAccuracy {
  import opened Dds
  import opened DdsTable
  import opened Rounding
  import Arithmetic

  const RIGHT := Vector(0.0, 1.0)

  /** An angle n times. */
  ghost function Multiple(n: nat, u: Vector): Vector {
    if n == 0 then Vector(1.0, 0.0) else Plus(Multiple(n - 1, u), u)
  }

  /** An angle doubled n times. */
  ghost function Doubled(n: nat, u: Vector): Vector {
    if n == 0 then u else Doubled(n - 1, Plus(u, u))
  }

  /** The angle of one unit of the 32-bit phase: a right angle halved thirty times, and
      the first angle of the table halved eighteen times. */
  ghost predicate PhaseUnit(u: Vector, v: nat -> Vector) { Halved(30, u) && Doubled(18, u) == v(0) }

  // ---------- Sums of angles ----------

  lemma Associates(a: Vector, b: Vector, c: Vector)
    ensures Plus(Plus(a, b), c) == Plus(a, Plus(b, c))
  {
    Expand(a.x, a.y, b.x, b.y, c.x, c.y);
    Expand(a.x, a.y, b.x, b.y, -c.y, c.x);
  }

  lemma Expand(a: real, b: real, c: real, d: real, e: real, f: real)
    ensures (a * c - b * d) * e - (a * d + b * c) * f == a * (c * e - d * f) - b * (c * f + d * e)
  {
    Three(a, c, e);
    Three(b, d, e);
    Three(a, d, f);
    Three(b, c, f);
  }

  lemma Three(a: real, b: real, c: real)
    ensures (a * b) * c == a * (b * c)
  {
  }

  lemma {:induction false} MultipleSum(m: nat, n: nat, u: Vector)
    ensures Multiple(m + n, u) == Plus(Multiple(m, u), Multiple(n, u))
  {
    if n == 0 {
    } else {
      MultipleSum(m, n - 1, u);
      Associates(Multiple(m, u), Multiple(n - 1, u), u);
    }
  }

  lemma {:induction false} MultipleOfDouble(n: nat, u: Vector)
    ensures Multiple(n, Plus(u, u)) == Multiple(2 * n, u)
  {
    if n == 0 {
    } else {
      MultipleOfDouble(n - 1, u);
      Associates(Multiple(2 * n - 2, u), u, u);
    }
  }

  lemma {:induction false} DoubledIsMultiple(n: nat, u: Vector)
    ensures Doubled(n, u) == Multiple(Pow2(n), u)
  {
    if n == 0 {
    } else {
      DoubledIsMultiple(n - 1, Plus(u, u));
      MultipleOfDouble(Pow2(n - 1), u);
    }
  }

  lemma {:induction false} HalvedDoubles(n: nat, u: Vector)
    requires Halved(n, u)
    ensures Doubled(n, u) == RIGHT
  {
    if n == 0 {
    } else {
      HalvedDoubles(n - 1, Plus(u, u));
    }
  }

  // ---------- The size of the unit ----------

  /** Bounds of the cosine of a right angle halved n times, up to eight. */
  ghost function Low(n: nat): real {
    if n == 1 then 0.707106781185 else if n == 2 then 0.923879532510 else
    if n == 3 then 0.980785280402 else if n == 4 then 0.995184726671 else
    if n == 5 then 0.998795456204 else if n == 6 then 0.999698818695 else
    if n == 7 then 0.999924701838 else 0.999981175281
  }

  ghost function High(n: nat): real {
    if n == 1 then 0.707106781188 else if n == 2 then 0.923879532513 else
    if n == 3 then 0.980785280405 else if n == 4 then 0.995184726674 else
    if n == 5 then 0.998795456207 else if n == 6 then 0.999698818698 else
    if n == 7 then 0.999924701841 else 0.999981175284
  }

  lemma HalfCosine(v: Vector, lo: real, hi: real)
    requires Acute(v) && lo >= 0.0 && hi >= 0.0
    requires 2.0 * (lo * lo) - 1.0 <= Plus(v, v).x <= 2.0 * (hi * hi) - 1.0
    ensures lo <= v.x <= hi
  {
    assert Plus(v, v).x == 2.0 * (v.x * v.x) - 1.0;
    AtLeast(v.x, lo);
    AtLeast(hi, v.x);
  }

  lemma BoundsNest(n: nat)
    requires 1 < n <= 8
    ensures 2.0 * (Low(n) * Low(n)) - 1.0 <= Low(n - 1) && High(n - 1) <= 2.0 * (High(n) * High(n)) - 1.0
  {
  }

  lemma {:induction false} CosineBounds(n: nat, v: Vector)
    requires 1 <= n <= 8 && Halved(n, v)
    ensures Low(n) <= v.x <= High(n)
  {
    if n == 1 {
      assert Halved(0, Plus(v, v));
    } else {
      CosineBounds(n - 1, Plus(v, v));
      BoundsNest(n);
    }
    HalfCosine(v, Low(n), High(n));
  }

  lemma SquaresOf(x: real, y: real)
    requires 0.999981175281 <= x <= 0.999981175284 && x * x + y * y == 1.0
    ensures 0.00003764906 <= y * y <= 0.000037649084
  {
    Squares(0.999981175281, x);
    assert x * x >= 0.999962350916;
    Squares(x, 0.999981175284);
    assert x * x <= 0.99996235094;
  }

  /** A right angle halved eight times is a right angle's arc in 256, nearly. */
  lemma Eighth(v: Vector)
    requires Halved(8, v)
    ensures 256.0 * v.y >= 1.57078 && 256.0 * v.y <= 1.57082 * v.x
  {
    CosineBounds(8, v);
    SquaresOf(v.x, v.y);
    AtLeast(v.y, 0.00613586);
    AtLeast(0.006135888, v.y);
  }

  lemma {:induction false} FineBounds(n: nat, v: Vector, scale: real)
    requires n >= 8 && Halved(n, v) && scale == Scale2(n)
    ensures scale * v.y >= 1.57078 && scale * v.y <= 1.57082 * v.x
  {
    if n == 8 {
      assert scale == 256.0 by {
        assert Scale2(4) == 16.0;
      }
      Eighth(v);
    } else {
      FineBounds(n - 1, Plus(v, v), scale / 2.0);
      HalfBounds(v, Plus(v, v), scale / 2.0, 1.57078, 1.57082);
    }
  }

  // ---------- Small angles ----------

  ghost predicate Unit(v: Vector) { v.x * v.x + v.y * v.y == 1.0 }

  lemma PlusUnit(v: Vector, w: Vector)
    requires Unit(v) && Unit(w)
    ensures Unit(Plus(v, w))
  {
    var a, b := Plus(v, w).x, Plus(v, w).y;
    assert a * a + b * b == (v.x * v.x + v.y * v.y) * (w.x * w.x + w.y * w.y);
  }

  /** A unit vector so close to the first axis that its angle, `arc` at most 3.8352e-4, is
      its sine to one in a million. */
  ghost predicate Small(v: Vector, arc: real) {
    && Unit(v) && 0.0 <= v.x <= 1.0 && 0.0 <= v.y <= arc && v.y >= 0.999999 * arc
  }

  /** One minus the cosine is at most the square of the sine, */
  lemma Versine(x: real, y: real)
    requires 0.0 <= x <= 1.0 && x * x + y * y == 1.0
    ensures 0.0 <= 1.0 - x <= y * y
  {
    Scale(x, 1.0, x);
    assert x * x <= x;
    assert y * y == 1.0 - x * x;
  }

  /** ... and for small angles nearly half of it. */
  lemma NearlyOne(x: real, y: real)
    requires 0.0 <= x <= 1.0 && 0.0 <= y <= 0.00038352 && x * x + y * y == 1.0
    ensures 0.0 <= 1.0 - x <= 0.000000074
  {
    var r := 1.0 - x;
    Versine(x, y);
    Squares(y, 0.00038352);
    assert r <= 0.0000001471;
    Squares(r, 0.0000001471);
    assert 2.0 * r == y * y + r * r;
  }

  lemma NearlyAll(a: real, b: real, gap: real)
    requires 1.0 - gap <= a <= 1.0 && b >= 0.0
    ensures b - gap * b <= a * b <= b
  {
    Scale(1.0 - gap, a, b);
    Scale(a, 1.0, b);
  }

  lemma LosesLittle(y: real, ux: real, s: real)
    requires 0.0 <= y <= 0.0004 && 0.0 < s <= 0.0001 && 0.0 < ux <= 1.0 && 1.0 - ux <= s * s
    ensures y - 0.00000004 * s <= y * ux <= y
  {
    var r := 1.0 - ux;
    Scale(s, 0.0001, s);
    assert s * s <= 0.0001 * s;
    assert r <= 0.0001 * s;
    Scale(y, 0.0004, r);
    assert 0.0 <= y * r <= 0.0004 * r <= 0.00000004 * s;
    assert y * ux == y - y * r;
  }

  /** One more sine s of cosine ux is added to the sine y of cosine x. */
  lemma SineGrows(x: real, y: real, ux: real, s: real)
    requires 0.9999998 <= x <= 1.0 && 0.0 <= y <= 0.0004 && 0.0 < s <= 0.0001
    requires 0.0 < ux <= 1.0 && ux * ux + s * s == 1.0
    ensures y + 0.999999 * s <= x * s + y * ux <= y + s
  {
    Versine(ux, s);
    LosesLittle(y, ux, s);
    NearlyAll(x, s, 0.0000002);
    assert s - 0.0000002 * s <= x * s <= s;
  }

  lemma LargeProduct(x: real, ux: real)
    requires 0.9 <= x <= 1.0 && 0.9 <= ux <= 1.0
    ensures 0.81 <= x * ux <= 1.0
  {
    Scale(0.9, x, ux);
    assert 0.9 * ux <= x * ux;
    Scale(x, 1.0, ux);
    assert x * ux <= ux;
  }

  lemma SmallProduct(y: real, s: real)
    requires 0.0 <= y <= 0.001 && 0.0 <= s <= 0.001
    ensures 0.0 <= y * s <= 0.001
  {
    Scale(0.0, y, s);
    assert 0.0 <= y * s;
    Scale(y, 0.001, s);
    assert y * s <= 0.001 * s;
  }

  lemma CosineStays(x: real, y: real, ux: real, s: real)
    requires 0.9999998 <= x <= 1.0 && 0.0 <= y <= 0.0004 && 0.0 < s <= 0.0001
    requires 0.0 < ux <= 1.0 && ux * ux + s * s == 1.0
    ensures 0.0 <= x * ux - y * s <= 1.0
  {
    Versine(ux, s);
    SmallProduct(s, s);
    assert s * s <= 0.001;
    LargeProduct(x, ux);
    SmallProduct(y, s);
    assert 0.81 <= x * ux <= 1.0 && 0.0 <= y * s <= 0.001;
  }

  lemma StepBounds(x: real, y: real, ux: real, s: real)
    requires 0.0 <= x <= 1.0 && 0.0 <= y <= 0.00038352 && x * x + y * y == 1.0
    requires 0.0 < ux <= 1.0 && 0.0 < s <= 0.0001 && ux * ux + s * s == 1.0
    ensures 0.0 <= x * ux - y * s <= 1.0 && y + 0.999999 * s <= x * s + y * ux <= y + s
  {
    NearlyOne(x, y);
    SineGrows(x, y, ux, s);
    CosineStays(x, y, ux, s);
  }

  lemma SmallStep(v: Vector, arc: real, u: Vector, w: Vector)
    requires Small(v, arc) && Acute(u) && u.x <= 1.0 && 0.0 < u.y <= 0.0001 && arc <= 0.00038352 && w == Plus(v, u)
    ensures Small(w, arc + u.y)
  {
    StepBounds(v.x, v.y, u.x, u.y);
    PlusUnit(v, u);
    SmallSum(arc, v.y, u.y, w, v.x * u.x - v.y * u.y, v.x * u.y + v.y * u.x);
  }

  lemma SmallSum(arc: real, y: real, s: real, w: Vector, wx: real, wy: real)
    requires w == Vector(wx, wy) && Unit(w) && 0.0 <= wx <= 1.0 && y + 0.999999 * s <= wy <= y + s
    requires 0.0 <= y <= arc && y >= 0.999999 * arc && s > 0.0
    ensures Small(w, arc + s)
  {
  }

  lemma Arc(n: nat, s: real)
    requires 0 < n <= 0x4_0000 && 0.0 < s <= 0.000000001463
    ensures (n - 1) as real * s <= 0.00038352 && n as real * s == (n - 1) as real * s + s
  {
    Scale((n - 1) as real, 262144.0, s);
    assert (n - 1) as real * s <= 262144.0 * s;
  }

  lemma {:induction false} SmallMultiple(n: nat, u: Vector, arc: real)
    requires Acute(u) && u.x <= 1.0 && 0.0 < u.y <= 0.000000001463 && n <= 0x4_0000 && arc == n as real * u.y
    ensures Small(Multiple(n, u), arc)
  {
    if n == 0 {
      assert arc == 0.0;
    } else {
      Arc(n, u.y);
      SmallMultiple(n - 1, u, arc - u.y);
      SmallStep(Multiple(n - 1, u), arc - u.y, u, Multiple(n, u));
    }
  }

  // ---------- The angle of a phase ----------

  function Back(v: Vector): Vector { Vector(v.x, -v.y) }

  /** An angle d times, backwards if d is negative. */
  ghost function Along(d: int, u: Vector): Vector {
    if d < 0 then Back(Multiple(-d, u)) else Multiple(d, u)
  }

  /** An angle and q right angles. */
  function Quarters(q: nat, v: Vector): Vector {
    if q == 0 then v else Quarters(q - 1, Vector(-v.y, v.x))
  }

  lemma {:induction false} MultipleUnit(n: nat, u: Vector)
    requires Unit(u)
    ensures Unit(Multiple(n, u))
  {
    if n == 0 {
    } else {
      MultipleUnit(n - 1, u);
      PlusUnit(Multiple(n - 1, u), u);
    }
  }

  lemma BackAgain(a: Vector, v: Vector)
    requires Unit(v)
    ensures Plus(Plus(a, v), Back(v)) == a
  {
    Associates(a, v, Back(v));
    assert Plus(v, Back(v)) == Vector(1.0, 0.0);
  }

  /** A little more or less than n units. */
  lemma {:induction false} MultipleAround(n: nat, d: int, u: Vector)
    requires Unit(u) && n + d >= 0
    ensures Multiple(n + d, u) == Plus(Multiple(n, u), Along(d, u))
  {
    if d < 0 {
      MultipleSum(n + d, -d, u);
      MultipleUnit(-d, u);
      BackAgain(Multiple(n + d, u), Multiple(-d, u));
    } else {
      MultipleSum(n, d, u);
    }
  }

  lemma {:induction false} MultipleQuarters(q: nat, right: nat, n: nat, u: Vector)
    requires Multiple(right, u) == RIGHT
    ensures Multiple(q * right + n, u) == Quarters(q, Multiple(n, u))
  {
    if q == 0 {
    } else {
      MultipleQuarters(q - 1, right, right + n, u);
      assert (q - 1) * right + (right + n) == q * right + n;
      MultipleSum(right, n, u);
    }
  }

  ghost predicate AllStepped(v: nat -> Vector) { forall j: nat :: j < 0x7ff ==> Stepped(v, j) }

  lemma NextAngle(v: nat -> Vector, j: nat)
    requires AllStepped(v) && j < 0x7ff
    ensures v(j + 1) == Plus(v(j), Plus(v(0), v(0)))
  {
    assert Stepped(v, j);
  }

  lemma NextMultiple(u: Vector, n: nat, step: nat, a: Vector, b: Vector, c: Vector)
    requires Multiple(n, u) == a && Multiple(step, u) == b && c == Plus(a, b)
    ensures Multiple(n + step, u) == c
  {
    MultipleSum(n, step, u);
  }

  lemma OneStepBefore(half: nat, step: nat, k: nat, n: nat)
    requires k > 0 && n == half + k * step
    ensures n >= step && n - step == half + (k - 1) * step
  {
    Arithmetic.Product(k - 1, step);
    assert k * step == (k - 1) * step + step;
  }

  /** The angle of entry k is k steps more than half a step. */
  lemma {:induction false} EntryAngle(v: nat -> Vector, u: Vector, half: nat, step: nat, k: nat, n: nat)
    requires Multiple(half, u) == v(0) && Multiple(step, u) == Plus(v(0), v(0)) && k < 0x800
    requires AllStepped(v) && n == half + k * step
    ensures v(k) == Multiple(n, u)
  {
    if k == 0 {
    } else {
      OneStepBefore(half, step, k, n);
      EntryAngle(v, u, half, step, k - 1, n - step);
      NextAngle(v, k - 1);
      NextMultiple(u, n - step, step, v(k - 1), Plus(v(0), v(0)), v(k));
    }
  }

  /** What half a step and a right angle are in units of the phase. */
  ghost predicate Sizes(u: Vector, v: nat -> Vector, half: nat, right: nat) {
    half == 0x4_0000 && right == 0x4000_0000 && Multiple(half, u) == v(0) && Multiple(right, u) == RIGHT
  }

  lemma {:induction false} UnitSizes(u: Vector, v: nat -> Vector, half: nat, right: nat)
    requires PhaseUnit(u, v) && half == Pow2(18) && right == Pow2(30)
    ensures Sizes(u, v, half, right)
  {
    Powers();
    DoubledIsMultiple(18, u);
    DoubledIsMultiple(30, u);
    HalvedDoubles(30, u);
  }

  lemma Powers()
    ensures Pow2(18) == 0x4_0000 && Pow2(30) == 0x4000_0000
  {
    assert Pow2(6) == 64 && Pow2(12) == 4096 && Pow2(24) == 16777216;
  }

  /** The vector of a phase is that of its table entry, turned to its quadrant and on
      by the distance from the centre of the step. */
  lemma {:induction false} PhaseAngle(u: Vector, v: nat -> Vector, half: nat, right: nat,
        c: nat, q: nat, k: nat, d: int)
    requires Angles(v) && Unit(u) && Sizes(u, v, half, right) && Splits(c, q, k, d)
    ensures Multiple(c % 0x1_0000_0000, u) == Plus(Quarters(q, v(k)), Along(d, u))
  {
    var n := half + k * (2 * half);
    MultipleSum(half, half, u);
    EntryAngle(v, u, half, 2 * half, k, n);
    MultipleAround(n, d, u);
    MultipleQuarters(q, right, n + d, u);
    assert q * right + (n + d) == c % 0x1_0000_0000;
    QuartersFirst(q, v(k), Along(d, u));
  }

  lemma {:induction false} QuartersFirst(q: nat, a: Vector, b: Vector)
    ensures Quarters(q, Plus(a, b)) == Plus(Quarters(q, a), b)
  {
    if q == 0 {
    } else {
      QuarterFirst(a.x, a.y, b.x, b.y);
      assert Vector(-Plus(a, b).y, Plus(a, b).x) == Plus(Vector(-a.y, a.x), b);
      QuartersFirst(q - 1, Vector(-a.y, a.x), b);
    }
  }

  lemma QuarterFirst(a: real, b: real, c: real, d: real)
    ensures -b * c - a * d == -(a * d + b * c) && -b * d + a * c == a * c - b * d
  {
  }

  // ---------- The errors ----------

  ghost predicate Near(a: real, b: real, off: real) { -off <= a - b <= off }

  lemma ArcBetween(m: real, s: real, arc: real)
    requires m >= 0.0 && 1.57078 <= 1073741824.0 * s <= 1.57082 && arc == m * s
    ensures 1.57078 * m <= 1073741824.0 * arc <= 1.57082 * m
  {
    Scale(1.57078 / 1073741824.0, s, m);
    assert 1.57078 / 1073741824.0 * m <= s * m;
    Scale(s, 1.57082 / 1073741824.0, m);
    assert s * m <= 1.57082 / 1073741824.0 * m;
    assert arc == s * m;
  }

  /** The constant 3217 is 2048 right angles' arcs, nearly. */
  lemma ArcNear(m: real, arc: real)
    requires 0.0 <= m <= 262144.0 && 1.57078 * m <= 1073741824.0 * arc <= 1.57082 * m
    ensures Near(m * 3217.0 / 2199023255552.0, arc, 0.0000000051) && arc <= 0.00038352
  {
  }

  ghost predicate UnitSized(u: Vector) { Acute(u) && u.x <= 1.0 && 1.57078 <= 1073741824.0 * u.y <= 1.57082 }

  lemma SmallUnit(s: real)
    requires 1.57078 <= 1073741824.0 * s <= 1.57082
    ensures 0.0 < s <= 0.000000001463
  {
  }

  lemma RoundedNear(d: int, e: int)
    requires e == HalfToOdd(d * 3217, 0x2_0000)
    ensures Near(e as real / 16777216.0, d as real * 3217.0 / 2199023255552.0, 0.0000000299)
  {
    NearestTiesOdd(d * 3217, 0x2_0000);
    assert -65536 <= d * 3217 - e * 131072 <= 65536;
    assert -65536.0 <= d as real * 3217.0 - e as real * 131072.0 <= 65536.0;
  }

  /** The rounded correction is the sine of the distance, and the cosine is nearly one. */
  ghost predicate Corrects(e: int, w: Vector) {
    && -6434 <= e <= 6434 && Near(e as real / 16777216.0, w.y, 0.000000036) && 0.0 <= 1.0 - w.x <= 0.000000074
  }

  lemma {:induction false} CorrectionNear(d: int, n: nat, u: Vector, arc: real)
    requires n == (if d < 0 then -d else d) && n <= 0x4_0000 && arc == n as real * u.y
    requires UnitSized(u)
    ensures Corrects(HalfToOdd(d * 3217, 0x2_0000), Along(d, u))
  {
    SmallUnit(u.y);
    SmallMultiple(n, u, arc);
    ArcBetween(n as real, u.y, arc);
    Direction(d, n, HalfToOdd(d * 3217, 0x2_0000), arc, u);
  }

  lemma {:induction false} Direction(d: int, n: nat, e: int, arc: real, u: Vector)
    requires n == (if d < 0 then -d else d) && n <= 0x4_0000 && e == HalfToOdd(d * 3217, 0x2_0000)
    requires 1.57078 * n as real <= 1073741824.0 * arc <= 1.57082 * n as real && Small(Multiple(n, u), arc)
    ensures Corrects(e, Along(d, u))
  {
    RoundedNear(d, e);
    ArcNear(n as real, arc);
    NearlyOne(Multiple(n, u).x, Multiple(n, u).y);
    Combined(d, n, e as real / 16777216.0, arc, Multiple(n, u).y);
  }

  lemma Combined(d: int, n: nat, eps: real, arc: real, y: real)
    requires n == (if d < 0 then -d else d) && Near(eps, d as real * 3217.0 / 2199023255552.0, 0.0000000299)
    requires Near(n as real * 3217.0 / 2199023255552.0, arc, 0.0000000051)
    requires 0.999999 * arc <= y <= arc <= 0.00038352
    ensures Near(eps, if d < 0 then -y else y, 0.000000036)
  {
  }

  ghost predicate PairNear(amplitude: nat, t: (int, int), w: Vector) {
    Near(t.0 as real, amplitude as real * w.x, 0.5) && Near(t.1 as real, amplitude as real * w.y, 0.5)
  }

  lemma Minus(a: real, b: real)
    ensures a * -b == -(a * b) && -a * b == -(a * b)
  {
  }

  /** An entry pair and the vector it belongs to, turned together. */
  lemma {:induction false} TurnNear(amplitude: nat, q: nat, t: (int, int), w: Vector)
    requires PairNear(amplitude, t, w)
    ensures PairNear(amplitude, Turn(q, t.0, t.1), Quarters(q, w))
  {
    if q == 0 {
    } else {
      QuarterNear(amplitude, t, w);
      TurnNear(amplitude, q - 1, (-t.1, t.0), Vector(-w.y, w.x));
    }
  }

  lemma QuarterNear(amplitude: nat, t: (int, int), w: Vector)
    requires PairNear(amplitude, t, w)
    ensures PairNear(amplitude, (-t.1, t.0), Vector(-w.y, w.x))
  {
    Minus(amplitude as real, w.y);
  }

  lemma ProductBound(a: real, b: real, most: real, off: real)
    requires -most <= a <= most && -off <= b <= off
    ensures -(most * off) <= a * b <= most * off
  {
    if a >= 0.0 {
      Scaled(a, b, most, off);
    } else {
      Scaled(-a, b, most, off);
      assert a * b == -(-a * b);
    }
  }

  lemma Scaled(a: real, b: real, most: real, off: real)
    requires 0.0 <= a <= most && -off <= b <= off
    ensures -(most * off) <= a * b <= most * off
  {
    Scale(b, off, a);
    Scale(-off, b, a);
    Scale(a, most, off);
    assert -(off * a) <= a * b <= off * a <= most * off;
  }

  /** All errors together: a half from each table entry, a half from the output, a
      quarter from the correction and 0.62 from taking its cosine for one. */
  lemma TurnError(out: real, t0: real, t1: real, eps: real, ax: real, ay: real, dx: real, dy: real)
    requires Near(out, t0 - t1 * eps, 0.5) && Near(t0, ax, 0.5) && Near(t1, ay, 0.5)
    requires Near(eps, 0.0, 0.0004) && Near(eps, dy, 0.000000036) && 0.0 <= 1.0 - dx <= 0.000000074
    requires -8388607.0 <= ax <= 8388607.0 && -8388607.0 <= ay <= 8388607.0
    ensures Near(out, ax * dx - ay * dy, 1.95)
  {
    ProductBound(t1 - ay, eps, 0.5, 0.0004);
    assert Near(t1 * eps, ay * eps, 0.0002);
    ProductBound(ay, eps - dy, 8388607.0, 0.000000036);
    assert Near(ay * eps, ay * dy, 0.302);
    ProductBound(ax, 1.0 - dx, 8388607.0, 0.000000074);
    assert Near(ax, ax * dx, 0.621);
  }

  lemma OutputNear(out: int, t0: int, t1: int, e: int)
    requires out == HalfToOdd(t0 * 0x100_0000 - t1 * e, 0x100_0000)
    ensures Near(out as real, t0 as real - t1 as real * (e as real / 16777216.0), 0.5)
  {
    NearestTiesOdd(t0 * 0x100_0000 - t1 * e, 0x100_0000);
    RealSum(out, t0, t1, e, t1 * e);
  }

  lemma RealSum(out: int, t0: int, t1: int, e: int, te: int)
    requires te == t1 * e && -8388608 <= t0 * 0x100_0000 - te - out * 16777216 <= 8388608
    ensures Near(out as real, t0 as real - t1 as real * (e as real / 16777216.0), 0.5)
  {
    assert te as real == t1 as real * e as real;
    assert t1 as real * (e as real / 16777216.0) == te as real / 16777216.0;
    assert -8388608.0 <= t0 as real * 16777216.0 - te as real - out as real * 16777216.0 <= 8388608.0;
  }

  lemma AmplitudeBound(amplitude: real, x: real)
    requires 0.0 <= amplitude <= 8388607.0 && -1.0 <= x <= 1.0
    ensures -8388607.0 <= amplitude * x <= 8388607.0
  {
    ProductBound(amplitude, x, 8388607.0, 1.0);
  }

  /** What the outputs show, in real numbers. */
  ghost predicate ShowsNear(cos: real, sin: real, t0: real, t1: real, eps: real) {
    Near(cos, t0 - t1 * eps, 0.5) && Near(sin, t1 + t0 * eps, 0.5)
  }

  lemma {:induction false} ShownNear(cos: int, sin: int, t: (int, int), e: int)
    requires Shows(cos, sin, t, e)
    ensures ShownNearly(cos, sin, t, e as real / 16777216.0)
  {
    OutputNear(cos, t.0, t.1, e);
    SineNear(sin, t.0, t.1, e);
  }

  lemma {:induction false} SineNear(out: int, t0: int, t1: int, e: int)
    requires out == HalfToOdd(t1 * 0x100_0000 + t0 * e, 0x100_0000)
    ensures Near(out as real, t1 as real + t0 as real * (e as real / 16777216.0), 0.5)
  {
    assert t1 * 0x100_0000 - (-t0) * e == t1 * 0x100_0000 + t0 * e;
    OutputNear(out, t1, -t0, e);
    Minus(t0 as real, e as real / 16777216.0);
    assert (-t0) as real == -(t0 as real);
  }

  lemma Fraction(e: int)
    requires -6434 <= e <= 6434
    ensures Near(e as real / 16777216.0, 0.0, 0.0004)
  {
  }

  lemma Factored(a: real, x: real, y: real, dx: real, dy: real)
    ensures (a * x) * dx - (a * y) * dy == a * (x * dx - y * dy)
  {
    Three(a, x, dx);
    Three(a, y, dy);
  }

  /** A correction as a direction. */
  ghost predicate Direct(eps: real, w: Vector) {
    Near(eps, 0.0, 0.0004) && Near(eps, w.y, 0.000000036) && 0.0 <= 1.0 - w.x <= 0.000000074
  }

  lemma {:induction false} CosineOf(out: real, t0: real, t1: real, eps: real, a: real, x: real, y: real, turn: Vector,
        p: real)
    requires Near(out, t0 - t1 * eps, 0.5) && Direct(eps, turn)
    requires 0.0 <= a <= 8388607.0 && -1.0 <= x <= 1.0 && -1.0 <= y <= 1.0
    requires Near(t0, a * x, 0.5) && Near(t1, a * y, 0.5) && p == x * turn.x - y * turn.y
    ensures Near(out, a * p, 1.95)
  {
    AmplitudeBound(a, x);
    AmplitudeBound(a, y);
    TurnError(out, t0, t1, eps, a * x, a * y, turn.x, turn.y);
    Factored(a, x, y, turn.x, turn.y);
    assert Near(out, (a * x) * turn.x - (a * y) * turn.y, 1.95);
  }

  ghost predicate InSquare(v: Vector) { -1.0 <= v.x <= 1.0 && -1.0 <= v.y <= 1.0 }

  lemma UnitInSquare(v: Vector)
    requires Unit(v)
    ensures InSquare(v)
  {
    AtLeast(1.0, if v.x < 0.0 then -v.x else v.x);
    AtLeast(1.0, if v.y < 0.0 then -v.y else v.y);
  }

  lemma {:induction false} QuartersUnit(q: nat, v: Vector)
    requires Unit(v)
    ensures Unit(Quarters(q, v))
  {
    if q == 0 {
    } else {
      QuartersUnit(q - 1, Vector(-v.y, v.x));
    }
  }

  /** Both outputs are within 1.95 steps of the amplitude times a vector. */
  ghost predicate Within(cos: real, sin: real, a: real, p: Vector) {
    Near(cos, a * p.x, 1.95) && Near(sin, a * p.y, 1.95)
  }

  /** The sine is the cosine of the vector turned back. */
  lemma SineError(out: real, t0: real, t1: real, eps: real, ax: real, ay: real, dx: real, dy: real)
    requires Near(out, t1 + t0 * eps, 0.5) && Near(t0, ax, 0.5) && Near(t1, ay, 0.5)
    requires Near(eps, 0.0, 0.0004) && Near(eps, dy, 0.000000036) && 0.0 <= 1.0 - dx <= 0.000000074
    requires -8388607.0 <= ax <= 8388607.0 && -8388607.0 <= ay <= 8388607.0
    ensures Near(out, ay * dx + ax * dy, 1.95)
  {
    Minus(t0, eps);
    Minus(ax, dy);
    TurnError(out, t1, -t0, eps, ay, -ax, dx, dy);
    assert Near(out, ay * dx - -ax * dy, 1.95);
  }

  lemma FactoredSum(a: real, x: real, y: real, dx: real, dy: real)
    ensures (a * y) * dx + (a * x) * dy == a * (x * dy + y * dx)
  {
    Three(a, x, dy);
    Three(a, y, dx);
  }

  lemma {:induction false} SineOf(out: real, t0: real, t1: real, eps: real, a: real, x: real, y: real, turn: Vector,
        p: real)
    requires Near(out, t1 + t0 * eps, 0.5) && Direct(eps, turn)
    requires 0.0 <= a <= 8388607.0 && -1.0 <= x <= 1.0 && -1.0 <= y <= 1.0
    requires Near(t0, a * x, 0.5) && Near(t1, a * y, 0.5) && p == x * turn.y + y * turn.x
    ensures Near(out, a * p, 1.95)
  {
    AmplitudeBound(a, x);
    AmplitudeBound(a, y);
    SineError(out, t0, t1, eps, a * x, a * y, turn.x, turn.y);
    FactoredSum(a, x, y, turn.x, turn.y);
    assert Near(out, (a * y) * turn.x + (a * x) * turn.y, 1.95);
  }

  lemma {:induction false} Cosine(out: real, t0: real, t1: real, eps: real, a: real, w: Vector, turn: Vector, p: Vector)
    requires Near(out, t0 - t1 * eps, 0.5) && Direct(eps, turn) && 0.0 <= a <= 8388607.0 && InSquare(w)
    requires Near(t0, a * w.x, 0.5) && Near(t1, a * w.y, 0.5) && p == Plus(w, turn)
    ensures Near(out, a * p.x, 1.95)
  {
    CosineOf(out, t0, t1, eps, a, w.x, w.y, turn, p.x);
  }

  lemma {:induction false} Sine(out: real, t0: real, t1: real, eps: real, a: real, w: Vector, turn: Vector, p: Vector)
    requires Near(out, t1 + t0 * eps, 0.5) && Direct(eps, turn) && 0.0 <= a <= 8388607.0 && InSquare(w)
    requires Near(t0, a * w.x, 0.5) && Near(t1, a * w.y, 0.5) && p == Plus(w, turn)
    ensures Near(out, a * p.y, 1.95)
  {
    SineOf(out, t0, t1, eps, a, w.x, w.y, turn, p.y);
  }

  lemma {:induction false} BothErrors(cos: real, sin: real, t0: real, t1: real, eps: real, a: real, w: Vector,
        turn: Vector, p: Vector)
    requires ShowsNear(cos, sin, t0, t1, eps) && Direct(eps, turn) && 0.0 <= a <= 8388607.0 && InSquare(w)
    requires Near(t0, a * w.x, 0.5) && Near(t1, a * w.y, 0.5) && p == Plus(w, turn)
    ensures Within(cos, sin, a, p)
  {
    Cosine(cos, t0, t1, eps, a, w, turn, p);
    Sine(sin, t0, t1, eps, a, w, turn, p);
  }

  /** The table pair of a phase, its entry and the mirror image turned to the quadrant,
      is within a half of the amplitude times the vector at the centre of the step. */
  lemma {:induction false} PairIsCentre(amplitude: nat, v: nat -> Vector, lut: Table, c: nat, q: nat, k: nat, d: int)
    requires Angles(v) && Written(amplitude, v, lut) && Splits(c, q, k, d)
    ensures (TableCos(lut, c), TableSin(lut, c)) == Turn(q, lut(k), lut(0x7ff - k))
    ensures PairNear(amplitude, (TableCos(lut, c), TableSin(lut, c)), Quarters(q, v(k)))
  {
    EntryNear(amplitude, v, lut, k);
    TurnedPair(amplitude, q, lut(k), lut(0x7ff - k), v(k));
    FoldsQuadrants(lut, c, q, k, d);
  }

  /** The entry of a step and its mirror image, within a half of a vector. */
  ghost predicate EntryPair(amplitude: nat, a: int, b: int, w: Vector) {
    a > 0 && b > 0 && Unit(w) && PairNear(amplitude, (a, b), w)
  }

  lemma {:induction false} TurnedPair(amplitude: nat, q: nat, a: int, b: int, w: Vector)
    requires EntryPair(amplitude, a, b, w)
    ensures InSquare(Quarters(q, w)) && PairNear(amplitude, Turn(q, a, b), Quarters(q, w))
  {
    TurnNear(amplitude, q, (a, b), w);
    QuartersUnit(q, w);
    UnitInSquare(Quarters(q, w));
  }

  lemma {:induction false} EntryNear(amplitude: nat, v: nat -> Vector, lut: Table, k: nat)
    requires Angles(v) && Written(amplitude, v, lut) && k < 0x800
    ensures EntryPair(amplitude, lut(k), lut(0x7ff - k), v(k))
  {
    EntryApproximates(amplitude, v, lut, k);
    EntryApproximates(amplitude, v, lut, 0x7ff - k);
  }

  lemma {:induction false} UnitSize(u: Vector)
    requires Halved(30, u)
    ensures UnitSized(u)
  {
    assert Scale2(6) == 64.0 && Scale2(12) == 4096.0 && Scale2(18) == 262144.0 && Scale2(24) == 16777216.0;
    FineBounds(30, u, 1073741824.0);
    AtLeast(1.0, u.x);
  }

  ghost predicate Follows(cos: int, sin: int, amplitude: nat, p: Vector) {
    Within(cos as real, sin as real, amplitude as real, p)
  }

  /** The outputs show, in real numbers, a pair turned by a correction. */
  ghost predicate ShownNearly(cos: int, sin: int, t: (int, int), eps: real) {
    ShowsNear(cos as real, sin as real, t.0 as real, t.1 as real, eps)
  }

  lemma {:induction false} NearFollows(cos: int, sin: int, t: (int, int), eps: real, amplitude: nat, w: Vector,
        turn: Vector, p: Vector)
    requires ShownNearly(cos, sin, t, eps) && Direct(eps, turn) && amplitude < 0x80_0000
    requires InSquare(w) && PairNear(amplitude, t, w) && p == Plus(w, turn)
    ensures Follows(cos, sin, amplitude, p)
  {
    BothErrors(cos as real, sin as real, t.0 as real, t.1 as real, eps, amplitude as real, w, turn, p);
  }

  lemma {:induction false} PhaseFollows(cos: int, sin: int, amplitude: nat, u: Vector, a: int, b: int, w: Vector,
        q: nat, d: int, e: int, p: Vector)
    requires UnitSized(u) && EntryPair(amplitude, a, b, w) && amplitude < 0x80_0000
    requires -0x4_0000 <= d < 0x4_0000 && e == HalfToOdd(d * 3217, 0x2_0000)
    requires ShownNearly(cos, sin, Turn(q, a, b), e as real / 16777216.0) && p == Plus(Quarters(q, w), Along(d, u))
    ensures Follows(cos, sin, amplitude, p)
  {
    TurnedPair(amplitude, q, a, b, w);
    CorrectionIsSmall(d, e, u);
    NearFollows(cos, sin, Turn(q, a, b), e as real / 16777216.0, amplitude, Quarters(q, w), Along(d, u), p);
  }

  lemma {:induction false} CorrectionIsSmall(d: int, e: int, u: Vector)
    requires -0x4_0000 <= d < 0x4_0000 && e == HalfToOdd(d * 3217, 0x2_0000)
    requires UnitSized(u)
    ensures Direct(e as real / 16777216.0, Along(d, u))
  {
    var n: nat := if d < 0 then -d else d;
    CorrectionNear(d, n, u, n as real * u.y);
    Fraction(e);
  }

  lemma {:induction false} PhaseOf(u: Vector, v: nat -> Vector, c: nat, q: nat, k: nat, d: int)
    requires Angles(v) && PhaseUnit(u, v) && Splits(c, q, k, d)
    ensures Multiple(c % 0x1_0000_0000, u) == Plus(Quarters(q, v(k)), Along(d, u))
  {
    UnitSize(u);
    UnitSizes(u, v, Pow2(18), Pow2(30));
    PhaseAngle(u, v, Pow2(18), Pow2(30), c, q, k, d);
  }

  /** In every run, with the table of any amplitude below 2^23, both outputs are within
      less than two steps of the amplitude times the cosine and the sine of the phase
      six clocks earlier, at every phase: the angle of phase c is c times the right
      angle halved thirty times. */
  lemma {:induction false} OutputsFollowPhase(amplitude: nat, v: nat -> Vector, u: Vector, lut: Table,
        negativeSine: bool, regs: seq<Regs>, pincs: seq<nat>, i: nat)
    requires Angles(v) && PhaseUnit(u, v) && Written(amplitude, v, lut) && amplitude < 0x80_0000
    requires IsRun(lut, negativeSine, regs, pincs) && i + 6 <= |pincs|
    ensures Follows(CosOut(regs[i + 6]), SinOut(regs[i + 6]), amplitude, Multiple(regs[i].cntr % 0x1_0000_0000, u))
  {
    var c: int := regs[i].cntr;
    var q, k, d := c / 0x4000_0000 % 4, c % 0x4000_0000 / 0x8_0000, c % 0x8_0000 - 0x4_0000;
    EveryPhaseSplits(c);
    SmallerNeverWrap(amplitude, v, lut);
    EntryNear(amplitude, v, lut, k);
    OutputsTurn(lut, negativeSine, regs, pincs, i, q, k, d);
    PhaseOf(u, v, c, q, k, d);
    UnitSize(u);
    var cos, sin := CosOut(regs[i + 6]), SinOut(regs[i + 6]);
    var t, e := Turn(q, lut(k), lut(0x7ff - k)), HalfToOdd(d * 3217, 0x2_0000);
    ShownNear(cos, sin, t, e);
    PhaseFollows(cos, sin, amplitude, u, lut(k), lut(0x7ff - k), v(k), q, d, e, Multiple(c % 0x1_0000_0000, u));
  }
}
