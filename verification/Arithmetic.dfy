/** Division and rounding facts about integers. */
module Arithmetic {

  function Min(a: nat, b: nat): nat { if a < b then a else b }

  lemma {:induction false} Product(a: nat, b: nat)
    ensures a * b >= 0
  {
    if a > 0 {
      Product(a - 1, b);
      assert a * b == (a - 1) * b + b;
    }
  }

  lemma MultipleGap(d: int, m: nat)
    ensures d == 0 || d * m >= m || -(d * m) >= m
  {
    if d >= 1 {
      Product(d - 1, m);
      assert (d - 1) * m == d * m - m;
    } else if d <= -1 {
      Product(-d - 1, m);
      assert (-d - 1) * m == -(d * m) - m;
    }
  }

  /** Multiples of different numbers are at least m apart. */
  lemma Apart(a: int, b: int, m: nat)
    requires a > b
    ensures a * m >= b * m + m
  {
    Product(a - b - 1, m);
    assert (a - b - 1) * m == a * m - b * m - m;
  }

  lemma Distribute(a: int, b: int, m: int)
    ensures a * m + b * m == (a + b) * m
  {
  }

  lemma SmallMod(a: nat, m: nat)
    requires a < m
    ensures a % m == a
  {
  }

  /** Numbers less than m apart differ modulo m. */
  lemma {:induction false} DistinctMod(a: nat, b: nat, m: nat)
    requires a < b < a + m
    ensures a % m != b % m
  {
    var d := b / m - a / m;
    assert a == m * (a / m) + a % m && b == m * (b / m) + b % m;
    assert d * m == m * (b / m) - m * (a / m);
    MultipleGap(d, m);
  }

  /** Quotient and remainder are unique, also for a negative dividend. */
  lemma {:induction false} UniqueDivision(n: int, m: nat, q: int, r: nat)
    requires r < m && n == q * m + r
    ensures n / m == q && n % m == r
  {
    var d := n / m - q;
    assert n == m * (n / m) + n % m;
    calc {
      d * m;
      (n / m) * m - q * m;
      r - n % m;
    }
    MultipleGap(d, m);
  }

  lemma {:induction false} ModSuccessor(n: nat, m: nat)
    requires m > 0
    ensures (n + 1) % m == if n % m == m - 1 then 0 else n % m + 1
  {
    var q, r := n / m, n % m;
    if r == m - 1 {
      assert n + 1 == q * m + m == (q + 1) * m;
      UniqueDivision(n + 1, m, q + 1, 0);
    } else {
      UniqueDivision(n + 1, m, q, r + 1);
    }
  }

  lemma {:induction false} ModAdd(a: int, b: int, m: nat)
    requires m > 0
    ensures (a % m + b) % m == (a + b) % m
  {
    var n := a % m + b;
    assert a == m * (a / m) + a % m && n == m * (n / m) + n % m;
    assert a + b == m * (a / m) + m * (n / m) + n % m == (a / m + n / m) * m + n % m;
    UniqueDivision(a + b, m, a / m + n / m, n % m);
  }

  lemma {:induction false} ModShift(a: int, b: int, c: int, m: nat)
    requires m > 0 && a + b == c
    ensures (a % m + b) % m == c % m
  {
    ModAdd(a, b, m);
  }

  /** Where word j of n words of u units lies. */
  lemma WordBounds(j: nat, n: nat, u: nat)
    requires j < n
    ensures 0 <= j * u <= (j + 1) * u == j * u + u <= n * u
  {
    Product(j, u);
    if j + 1 < n {
      Apart(n, j + 1, u);
    }
  }

  lemma {:induction false} DivMonotone(a: nat, b: nat, m: nat)
    requires a <= b && m > 0
    ensures a / m <= b / m
  {
    var d := a / m - b / m;
    assert a == m * (a / m) + a % m && b == m * (b / m) + b % m;
    assert d * m == (a / m) * m - (b / m) * m;
    MultipleGap(d, m);
  }

  lemma {:induction false} DivLess(a: nat, m: nat)
    requires m > 0
    ensures a >= m <==> a / m >= 1
    ensures a >= m ==> (a - m) / m == a / m - 1 && (a - m) % m == a % m
  {
    var q := a / m;
    assert a == q * m + a % m;
    if q >= 1 {
      assert (q - 1) * m >= 0;
      assert a - m == (q - 1) * m + a % m;
      UniqueDivision(a - m, m, q - 1, a % m);
    }
  }
}
