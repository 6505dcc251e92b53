/**
 * Integer facts shared by the rational models: exact quotients, `std::gcd`,
 * `std::lcm`, and C++'s truncating integer division.
 */
module Arith {

  function Abs(x: int): (r: nat)
    ensures r == x || r == -x
  {
    if x < 0 then -x else x
  }

  /** `q` is the exact integer quotient of `a` by `d`: nothing is left over. */
  predicate ExactQuotient(q: int, a: int, d: int)
  {
    q * d == a
  }

  /**
   * `q` is what C++'s `a / d` yields: the remainder `a - q*d` is smaller than
   * the divisor in magnitude and carries the sign of the dividend (or is zero),
   * i.e. the quotient is truncated toward zero.
   */
  predicate TruncatedQuotient(q: int, a: int, d: int)
  {
    var rem := a - q * d;
    Abs(rem) < Abs(d) && (rem == 0 || (rem < 0 <==> a < 0))
  }

  /** A non-zero multiple of `d` is at least as large as `d` in magnitude. */
  lemma MulAbsBound(m: int, d: int)
    requires m != 0
    ensures Abs(m * d) >= Abs(d)
  {
    var M, D := Abs(m), Abs(d);
    var rest: nat := M - 1;
    assert M * D == rest * D + D;
    assert Abs(m * d) == M * D by {
      if m < 0 && d < 0 {
        assert m * d == (-m) * (-d);
      } else if m < 0 {
        assert m * d == -((-m) * d);
      } else if d < 0 {
        assert m * d == -(m * (-d));
      }
    }
  }

  /** Dividing a multiple of `d` by `d` is exact and gives the factor back. */
  lemma MulDivExact(q: int, d: int)
    requires d != 0
    ensures (q * d) % d == 0 && (q * d) / d == q
  {
    var x := q * d;
    var q', r := x / d, x % d;
    assert x == q' * d + r;
    assert (q - q') * d == r;
    if q != q' {
      MulAbsBound(q - q', d);
    }
  }

  /** An exact quotient is unique and is the one `/` computes. */
  lemma ExactQuotientIsDiv(q: int, a: int, d: int)
    requires d != 0 && ExactQuotient(q, a, d)
    ensures a % d == 0 && a / d == q
  {
    MulDivExact(q, d);
  }

  /** When `%` leaves something, no exact quotient exists. */
  lemma NoExactQuotient(a: int, d: int)
    requires d != 0 && a % d != 0
    ensures forall q :: !ExactQuotient(q, a, d)
  {
    forall q
      ensures !ExactQuotient(q, a, d)
    {
      if ExactQuotient(q, a, d) {
        ExactQuotientIsDiv(q, a, d);
      }
    }
  }

  /** Divisibility by `g` is closed under `m*x + y`. */
  lemma DivisibleLinear(g: int, x: int, y: int, m: int)
    requires g != 0 && x % g == 0 && y % g == 0
    ensures (m * x + y) % g == 0
  {
    var i, j := x / g, y / g;
    assert x == i * g && y == j * g;
    assert m * x + y == (m * i + j) * g;
    MulDivExact(m * i + j, g);
  }

  /** A positive divisor of a positive number is no larger than it. */
  lemma DivisorAtMost(c: int, a: int)
    requires c > 0 && a > 0 && a % c == 0
    ensures c <= a
  {
    var q := a / c;
    assert a == q * c;
    assert q != 0;
    MulAbsBound(q, c);
  }

  // ---------------------------------------------------------------------
  // Greatest common divisor and least common multiple, as std::gcd and
  // std::lcm compute them on non-negative arguments.

  /** Euclid's algorithm; `Gcd(0, 0) == 0` and `Gcd(a, 0) == a`. */
  function Gcd(a: nat, b: nat): (g: nat)
    decreases b
  {
    if b == 0 then a else Gcd(b, a % b)
  }

  lemma {:induction false} GcdDivides(a: nat, b: nat)
    ensures Gcd(a, b) == 0 <==> a == 0 && b == 0
    ensures Gcd(a, b) > 0 ==> a % Gcd(a, b) == 0 && b % Gcd(a, b) == 0
    decreases b
  {
    if b != 0 {
      GcdDivides(b, a % b);
      var g := Gcd(b, a % b);
      assert a == (a / b) * b + a % b;
      DivisibleLinear(g, b, a % b, a / b);
    }
  }

  /** Bezout coefficients by the extended Euclidean algorithm. */
  function Bezout(a: nat, b: nat): (c: (int, int))
    ensures c.0 * a + c.1 * b == Gcd(a, b)
    decreases b
  {
    if b == 0 then (1, 0)
    else
      var c' := Bezout(b, a % b);
      var x, y := c'.0, c'.1;
      assert a % b == a - (a / b) * b;
      assert y * (a % b) == y * a - (y * (a / b)) * b;
      (y, x - y * (a / b))
  }

  /**
   * Euclid's lemma: a divisor of `n*d2` that shares no factor with `n`
   * divides `d2`.
   */
  lemma CoprimeDivides(n: nat, d: nat, d2: int)
    requires d > 0 && Gcd(n, d) == 1 && (n * d2) % d == 0
    ensures d2 % d == 0
  {
    var xy := Bezout(n, d);
    DividesFromCombination(n, d, d2, xy.0, xy.1);
  }

  lemma DividesFromCombination(n: int, d: int, d2: int, x: int, y: int)
    requires d > 0 && x * n + y * d == 1 && (n * d2) % d == 0
    ensures d2 % d == 0
  {
    var a, b := n * d2, (y * d2) * d;
    assert d2 == x * a + b by {
      calc {
        d2;
        (x * n + y * d) * d2;
        (x * n) * d2 + (y * d) * d2;
        { MulAssoc(x, n, d2); MulSwap(y, d, d2); }
        x * a + b;
      }
    }
    MulDivExact(y * d2, d);
    DivisibleLinear(d, a, b, x);
  }

  /** Dividing both arguments by their gcd leaves them coprime. */
  lemma {:induction false} ReducedIsCoprime(n: nat, d: nat)
    requires d > 0
    ensures Gcd(n, d) > 0
    ensures Gcd(n / Gcd(n, d), d / Gcd(n, d)) == 1
  {
    GcdDivides(n, d);
    var xy := Bezout(n, d);
    CoprimeAfterDividing(n, d, Gcd(n, d), xy.0, xy.1);
  }

  /** Dividing by a common divisor that is a combination of `n` and `d` leaves them coprime. */
  lemma CoprimeAfterDividing(n: nat, d: nat, g: int, x: int, y: int)
    requires d > 0 && g > 0 && n % g == 0 && d % g == 0
    requires x * n + y * d == g
    ensures Gcd(n / g, d / g) == 1
  {
    var n', d' := n / g, d / g;
    assert n == n' * g && d == d' * g;
    assert (x * n' + y * d') * g == 1 * g by {
      calc {
        (x * n' + y * d') * g;
        (x * n') * g + (y * d') * g;
        { MulAssoc(x, n', g); MulAssoc(y, d', g); }
        x * (n' * g) + y * (d' * g);
      }
    }
    MulCancel(x * n' + y * d', 1, g);
    MulLessCancel(0, d', g);
    GcdDivides(n', d');
    var c := Gcd(n', d');
    DivisibleLinear(c, n', 0, x);
    DivisibleLinear(c, d', x * n', y);
    DivisorAtMost(c, 1);
  }

  /** Dividing `(n, d)` by its gcd is exact and keeps the quotient `n/d`. */
  lemma ReduceExact(n: nat, d: nat, g: nat)
    requires d > 0 && g == Gcd(n, d)
    ensures g > 0 && (n / g) * g == n && (d / g) * g == d
    ensures (n / g) * d == n * (d / g)
  {
    GcdDivides(n, d);
    var n', d' := n / g, d / g;
    assert n == n' * g && d == d' * g;
    calc {
      n' * d;
      n' * (d' * g);
      (n' * g) * d';
      n * d';
    }
  }

  /** Pairs scaled down by positive factors keep equal cross products. */
  lemma ScaledDownCrossEqual(m1: int, e1: int, g1: int, m2: int, e2: int, g2: int)
    requires g1 > 0 && g2 > 0
    requires (m1 * g1) * (e2 * g2) == (m2 * g2) * (e1 * g1)
    ensures m1 * e2 == m2 * e1
  {
    calc {
      (m1 * e2) * (g1 * g2);
      { MulRearrange(m1, e2, g1, g2); }
      (m1 * g1) * (e2 * g2);
      (m2 * g2) * (e1 * g1);
      { MulRearrange(m2, e1, g2, g1); }
      (m2 * e1) * (g2 * g1);
    }
    MulCancel(m1 * e2, m2 * e1, g1 * g2);
  }

  lemma MulRearrange(a: int, b: int, c: int, d: int)
    ensures (a * b) * (c * d) == (a * c) * (b * d)
  {
  }

  /** Cross-multiplied comparison with positive denominators is transitive. */
  lemma CrossLessTransitive(n1: int, d1: int, n2: int, d2: int, n3: int, d3: int)
    requires d1 > 0 && d2 > 0 && d3 > 0
    requires n1 * d2 < n2 * d1 && n2 * d3 < n3 * d2
    ensures n1 * d3 < n3 * d1
  {
    MulLessCancel(n1 * d2, n2 * d1, d3);
    MulLessCancel(n2 * d3, n3 * d2, d1);
    assert (n1 * d3) * d2 == (n1 * d2) * d3;
    assert (n2 * d1) * d3 == (n2 * d3) * d1;
    assert (n3 * d2) * d1 == (n3 * d1) * d2;
    MulLessCancel(n1 * d3, n3 * d1, d2);
  }

  /** Two coprime pairs with positive second parts that denote the same quotient are equal. */
  lemma CoprimeUnique(n1: nat, d1: nat, n2: nat, d2: nat)
    requires d1 > 0 && d2 > 0
    requires Gcd(n1, d1) == 1 && Gcd(n2, d2) == 1
    requires n1 * d2 == n2 * d1
    ensures n1 == n2 && d1 == d2
  {
    MulDivExact(n2, d1);
    CoprimeDivides(n1, d1, d2);
    MulDivExact(n1, d2);
    CoprimeDivides(n2, d2, d1);
    DivisorAtMost(d1, d2);
    DivisorAtMost(d2, d1);
    MulCancel(n1, n2, d1);
  }

  /** A positive factor can be cancelled from a strict comparison. */
  lemma MulLessCancel(x: int, y: int, c: int)
    requires c > 0
    ensures x * c < y * c <==> x < y
  {
    if x < y {
      MulAbsBound(y - x, c);
      assert (y - x) * c == y * c - x * c;
    } else if x > y {
      MulAbsBound(x - y, c);
      assert (x - y) * c == x * c - y * c;
    }
  }

  /** A positive factor can be cancelled from an equation. */
  lemma MulCancel(x: int, y: int, c: int)
    requires c > 0 && x * c == y * c
    ensures x == y
  {
    MulLessCancel(x, y, c);
    MulLessCancel(y, x, c);
  }

  /** `std::lcm` of two positive numbers: `a / gcd(a, b) * b`. */
  function Lcm(a: nat, b: nat): (l: nat)
    requires a > 0 && b > 0
    ensures l > 0 && l % a == 0 && l % b == 0
  {
    LcmIsCommonMultiple(a, b);
    a / Gcd(a, b) * b
  }

  lemma LcmIsCommonMultiple(a: nat, b: nat)
    requires a > 0 && b > 0
    ensures Gcd(a, b) > 0
    ensures var l := a / Gcd(a, b) * b; l > 0 && l % a == 0 && l % b == 0
  {
    GcdDivides(a, b);
    CommonMultiple(a, b, Gcd(a, b));
  }

  /** `a / g * b` is a positive common multiple when `g` divides both. */
  lemma CommonMultiple(a: int, b: int, g: int)
    requires a > 0 && b > 0 && g > 0 && a % g == 0 && b % g == 0
    ensures var l := a / g * b; l > 0 && l % a == 0 && l % b == 0
  {
    var p, q := a / g, b / g;
    assert a == p * g && b == q * g;
    MulLessCancel(0, p, g);
    MulLessCancel(0, p, b);
    calc {
      p * b;
      p * (q * g);
      { MulAssoc(p, q, g); MulSwap(p, q, g); MulAssoc(q, p, g); }
      q * (p * g);
      q * a;
    }
    MulDivExact(p, b);
    MulDivExact(q, a);
  }

  /**
   * Bringing `n1/d1` and `n2/d2` to a common multiple `l` of the denominators
   * and comparing the scaled numerators is comparing the cross products.
   */
  lemma ScaledCompare(n1: int, d1: int, n2: int, d2: int, l: int)
    requires d1 > 0 && d2 > 0 && l > 0 && l % d1 == 0 && l % d2 == 0
    ensures n1 * l / d1 < n2 * l / d2 <==> n1 * d2 < n2 * d1
  {
    var i, j := l / d1, l / d2;
    assert l == i * d1 && l == j * d2;
    assert n1 * l == (n1 * i) * d1;
    assert n2 * l == (n2 * j) * d2;
    MulDivExact(n1 * i, d1);
    MulDivExact(n2 * j, d2);
    MulLessCancel(n1 * i, n2 * j, d1 * d2);
    assert (n1 * i) * (d1 * d2) == (n1 * d2) * l;
    assert (n2 * j) * (d1 * d2) == (n2 * d1) * l;
    MulLessCancel(n1 * d2, n2 * d1, l);
  }

  // ---------------------------------------------------------------------
  // Truncating division

  /** C++'s `a / b` on signed integers: the quotient truncated toward zero. */
  function TruncDiv(a: int, b: int): (q: int)
    requires b != 0
    ensures TruncatedQuotient(q, a, b)
    ensures a >= 0 && b > 0 ==> q == a / b
  {
    var Q := Abs(a) / Abs(b);
    TruncDivCases(a, b);
    if (a < 0) == (b < 0) then Q else -Q
  }

  /** The remainder of C++ division in each sign case. */
  lemma TruncDivCases(a: int, b: int)
    requires b != 0
    ensures var Q, R := Abs(a) / Abs(b), Abs(a) % Abs(b);
      && 0 <= R < Abs(b)
      && ((a < 0) == (b < 0) ==> a - Q * b == (if a < 0 then -R else R))
      && ((a < 0) != (b < 0) ==> a - (-Q) * b == (if a < 0 then -R else R))
  {
    var A, B := Abs(a), Abs(b);
    var Q, R := A / B, A % B;
    assert A == Q * B + R;
    if a < 0 && b < 0 {
      assert Q * b == -(Q * B);
    } else if a < 0 {
      assert (-Q) * b == -(Q * B);
    } else if b < 0 {
      assert (-Q) * b == Q * B;
    }
  }

  /** Truncation agrees with the exact quotient whenever there is one. */
  lemma TruncDivOfExact(q: int, a: int, d: int)
    requires d != 0 && ExactQuotient(q, a, d)
    ensures TruncDiv(a, d) == q
  {
    var t := TruncDiv(a, d);
    assert Abs(a - t * d) < Abs(d);
    assert a - t * d == (q - t) * d by {
      MulSubDistrib(q, t, d);
    }
    if q != t {
      MulAbsBound(q - t, d);
    }
  }

  lemma MulSubDistrib(x: int, y: int, c: int)
    ensures (x - y) * c == x * c - y * c
  {
  }

  lemma MulAssoc(x: int, y: int, z: int)
    ensures (x * y) * z == x * (y * z)
  {
  }

  lemma MulSwap(x: int, y: int, z: int)
    ensures (x * y) * z == (x * z) * y
  {
  }

}
