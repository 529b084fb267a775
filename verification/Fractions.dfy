/** approximateFraction: the nearest fraction with a denominator of at most 8, over exact reals. */
module Fractions {

  function Abs(x: real): real { if x < 0.0 then -x else x }

  function Fraction(p: int, q: int): real
    requires q != 0
  {
    p as real / q as real
  }

  const LIMIT: int := 8

  /** p/q is as near to `y` as any fraction with a denominator from 1 to LIMIT. */
  ghost predicate Nearest(y: real, p: int, q: int) {
    q >= 1 && forall s: int, t: int :: 1 <= t <= LIMIT ==> Abs(y - Fraction(p, q)) <= Abs(y - Fraction(s, t))
  }

  predicate Times(k: int, u: int, p: int) { k * u == p }

  /** No integer above 1 divides both. */
  ghost predicate Coprime(p: int, q: int) {
    forall k: int, u: int, v: int :: Times(k, u, p) && Times(k, v, q) ==> k <= 1
  }

  // ---- Neighbours in the Farey sequence ---------------------------------------------------

  lemma {:induction false} CompareFractions(p: int, q: int, a: int, b: int)
    requires q >= 1 && b >= 1
    ensures p * b <= a * q <==> Fraction(p, q) <= Fraction(a, b)
    ensures p * b < a * q <==> Fraction(p, q) < Fraction(a, b)
  {
    var x, y := Fraction(p, q), Fraction(a, b);
    var pr, qr, ar, br := p as real, q as real, a as real, b as real;
    assert x * qr == pr && y * br == ar;
    assert pr * br == x * (qr * br) && ar * qr == y * (qr * br);
    assert qr * br > 0.0;
    assert x <= y <==> x * (qr * br) <= y * (qr * br);
  }

  /** No fraction with a denominator below b + d lies strictly between two neighbours. */
  lemma {:induction false} NothingBetween(a: int, b: int, c: int, d: int, s: int, t: int)
    requires b >= 1 && d >= 1 && b * c - a * d == 1 && 1 <= t < b + d
    ensures s * b <= a * t || c * t <= s * d
  {
    var e, f := s * b - a * t, c * t - s * d;
    assert d * e + b * f == t * (b * c - a * d) == t;
    Product(d, e);
    Product(b, f);
  }

  lemma {:induction false} Product(x: int, y: int)
    requires x >= 1
    ensures y >= 1 ==> x * y >= x && x * y >= y
    ensures y <= 0 ==> x * y <= 0
  {
  }

  /** Integers with a combination equal to 1 have no common divisor. */
  lemma {:induction false} BezoutCoprime(p: int, q: int, x: int, y: int)
    requires x * p + y * q == 1
    ensures Coprime(p, q)
  {
    forall k: int, u: int, v: int | Times(k, u, p) && Times(k, v, q)
      ensures k <= 1
    {
      assert k * (x * u + y * v) == 1 by {
        assert x * p == x * (k * u) && y * q == y * (k * v);
      }
      DividesOne(k, x * u + y * v);
    }
  }

  lemma {:induction false} DividesOne(k: int, m: int)
    requires k * m == 1
    ensures k <= 1
  {
    if k >= 1 {
      Product(k, m);
    }
  }

  // ---- The result --------------------------------------------------------------------------

  /** The smaller of x and 1/x: what the Farey search approximates. */
  function Folded(x: real): real
    requires x > 0.0
  {
    if x > 1.0 then 1.0 / x else x
  }

  /** The pair as a fraction for Folded(x): turned over when x > 1. */
  ghost predicate Approximates(x: real, n: int, d: int)
    requires x > 0.0
  {
    if x > 1.0 then Nearest(Folded(x), d, n) else Nearest(Folded(x), n, d)
  }

  predicate IsInteger(x: real) { x.Floor as real == x }

  /** The interval of two neighbours around `y` that the loop keeps. */
  ghost predicate Neighbours(y: real, a: int, b: int, c: int, d: int) {
    && 0 <= a && 1 <= b <= LIMIT && 1 <= c && 1 <= d <= LIMIT && b * c - a * d == 1
    && Fraction(a, b) < y <= Fraction(c, d)
  }

  /** When no further term fits the limit, the nearer of the two neighbours is nearest of all. */
  lemma {:induction false} NearerNeighbour(y: real, a: int, b: int, c: int, d: int)
    requires Neighbours(y, a, b, c, d) && b + d > LIMIT
    ensures y - Fraction(a, b) < Fraction(c, d) - y ==> Nearest(y, a, b)
    ensures Fraction(c, d) - y <= y - Fraction(a, b) ==> Nearest(y, c, d)
  {
    forall s: int, t: int | 1 <= t <= LIMIT
      ensures Fraction(s, t) <= Fraction(a, b) || Fraction(c, d) <= Fraction(s, t)
    {
      NothingBetween(a, b, c, d, s, t);
      CompareFractions(s, t, a, b);
      CompareFractions(c, d, s, t);
    }
  }

  /** One step of the search keeps the neighbours. */
  lemma {:induction false} MediantNeighbours(y: real, a: int, b: int, c: int, d: int)
    requires Neighbours(y, a, b, c, d) && b + d <= LIMIT
    ensures y <= Fraction(a + c, b + d) ==> Neighbours(y, a, b, a + c, b + d)
    ensures Fraction(a + c, b + d) < y ==> Neighbours(y, a + c, b + d, c, d)
  {
    assert b * (a + c) - a * (b + d) == b * c - a * d;
    assert (b + d) * c - (a + c) * d == b * c - a * d;
  }

  /** If the left end is 0, the right end is 1/8 when the search stops. */
  lemma {:induction false} LeftEndZero(y: real, a: int, b: int, c: int, d: int)
    requires Neighbours(y, a, b, c, d) && b + d > LIMIT
    ensures a == 0 ==> b == 1 && c == 1 && d == LIMIT
    ensures a >= 1 ==> Fraction(1, LIMIT) <= Fraction(a, b)
  {
    if a == 0 {
      assert b * c == 1;
      Product(b, c);
    } else {
      CompareFractions(1, LIMIT, a, b);
    }
  }

  lemma {:induction false} ExactIsNearest(y: real, p: int, q: int)
    requires q >= 1 && y == Fraction(p, q)
    ensures Nearest(y, p, q)
  {
  }

  lemma {:induction false} InverseBound(x: real, k: real)
    requires x > 0.0 && k > 0.0
    ensures 1.0 / x > k <==> x < 1.0 / k
  {
    var xinv := 1.0 / x;
    assert x * xinv == 1.0;
    assert (xinv - k) * x == 1.0 - k * x;
    var kinv := 1.0 / k;
    assert k * kinv == 1.0;
    assert (kinv - x) * k == 1.0 - k * x;
  }

  /** The fast paths are right. */
  lemma {:induction false} FastPaths(x: real)
    requires x > 0.0
    ensures IsInteger(x) ==> x.Floor >= 1 && Coprime(x.Floor, 1) && Approximates(x, x.Floor, 1)
    ensures Coprime(1, LIMIT) && (1.0 / x > LIMIT as real <==> x < Fraction(1, LIMIT))
    ensures IsInteger(1.0 / x) && !IsInteger(x) && 1.0 / x <= LIMIT as real ==>
              var q := (1.0 / x).Floor; q >= 1 && Coprime(1, q) && Approximates(x, 1, q) && x <= 16.0
  {
    var xinv := 1.0 / x;
    assert x * xinv == 1.0;
    InverseBound(x, LIMIT as real);
    BezoutCoprime(1, LIMIT, 1, 0);
    BezoutCoprime(x.Floor, 1, 0, 1);
    BezoutCoprime(1, xinv.Floor, 1, 0);
    if IsInteger(x) {
      assert x >= 1.0;
      ExactIsNearest(Folded(x), if x > 1.0 then 1 else x.Floor, if x > 1.0 then x.Floor else 1);
    } else if IsInteger(xinv) {
      assert xinv >= 1.0;
      InverseBound(x, 1.0);
      assert xinv == 1.0 ==> x == 1.0;
      ExactIsNearest(x, 1, xinv.Floor);
    }
  }

  method ApproximateFraction(x: real) returns (n: int, d: int)
    requires x > 0.0
    ensures n >= 1 && d >= 0 && Coprime(n, d)
    ensures Fraction(1, LIMIT) <= x ==> Approximates(x, n, d)
    ensures x < Fraction(1, LIMIT) ==> n == 1 && d == LIMIT
    ensures d > 0 <==> IsInteger(x) || x <= 16.0
  {
    FastPaths(x);
    // Integers and their inverses need no search.
    if x.Floor as real == x {
      return x.Floor, 1;
    }
    var xinv := 1.0 / x;
    if xinv > LIMIT as real {
      return 1, LIMIT;
    } else if xinv.Floor as real == xinv {
      return 1, xinv.Floor;
    }
    n, d := SearchFarey(x, xinv);
  }

  lemma {:induction false} NeighboursCoprime(a: int, b: int, c: int, e: int)
    requires b * c - a * e == 1
    ensures Coprime(a, b) && Coprime(b, a) && Coprime(c, e) && Coprime(e, c)
  {
    BezoutCoprime(a, b, -e, c);
    BezoutCoprime(b, a, c, -e);
    BezoutCoprime(c, e, b, -a);
    BezoutCoprime(e, c, -a, b);
  }

  /** For x > 1: 1/x is nearer to 0 than to 1/8 if and only if x > 16. */
  lemma {:induction false} NearerZero(x: real)
    requires x > 1.0
    ensures 1.0 / x < Fraction(1, LIMIT) - 1.0 / x <==> x > 16.0
  {
    InverseBound(1.0 / x, 16.0);
    assert x * (1.0 / x) == 1.0;
    assert 1.0 / (1.0 / x) == x;
  }

  /** A fraction of at least 1/8 is out of the question for x > 16. */
  lemma {:induction false} FarFromZero(x: real)
    requires x > 1.0 && Fraction(1, LIMIT) < 1.0 / x
    ensures x <= 16.0
  {
    InverseBound(1.0 / x, 16.0);
    assert x * (1.0 / x) == 1.0;
    assert 1.0 / (1.0 / x) == x;
  }

  /** The nearer neighbour is 0 only for x > 16. */
  lemma {:induction false} ZeroNumerator(x: real, y: real, a: int, b: int, c: int, e: int)
    requires x > 0.0 && !IsInteger(x) && 1.0 / x <= LIMIT as real && y == Folded(x)
    requires Neighbours(y, a, b, c, e) && b + e > LIMIT
    ensures var nearer := y - Fraction(a, b) < Fraction(c, e) - y;
            (nearer && a == 0 <==> x > 16.0)
  {
    LeftEndZero(y, a, b, c, e);
    InverseBound(x, LIMIT as real);
    if x > 1.0 {
      NearerZero(x);
      if a >= 1 {
        FarFromZero(x);
      }
    }
  }

  /** The search between neighbours of the Farey sequence. */
  method SearchFarey(x: real, xinv: real) returns (n: int, d: int)
    requires x > 0.0 && xinv == 1.0 / x && !IsInteger(x) && xinv <= LIMIT as real
    ensures n >= 1 && d >= 0 && Coprime(n, d)
    ensures Approximates(x, n, d)
    ensures d > 0 <==> x <= 16.0
  {
    var y := if x > 1.0 then xinv else x;
    var a, b, c, e := 0, 1, 1, 1;
    FoldedRange(x);
    while true
      invariant Neighbours(y, a, b, c, e)
      decreases 2 * LIMIT - b - e
    {
      var p, q := a + c, b + e;
      if q > LIMIT {
        break;
      }
      MediantNeighbours(y, a, b, c, e);
      if y <= Fraction(p, q) {
        c, e := p, q;
      } else {
        a, b := p, q;
      }
    }
    NearerNeighbour(y, a, b, c, e);
    NeighboursCoprime(a, b, c, e);
    ZeroNumerator(x, y, a, b, c, e);
    // Select the closer of the neighbours; for x > 1 turn the fraction over.
    if y - Fraction(a, b) < Fraction(c, e) - y {
      n, d := if y == x then a else b, if y == x then b else a;
    } else {
      n, d := if y == x then c else e, if y == x then e else c;
    }
  }

  lemma {:induction false} FoldedRange(x: real)
    requires x > 0.0 && !IsInteger(x)
    ensures 0.0 < Folded(x) < 1.0
    ensures Folded(x) == x <==> x <= 1.0
  {
    var xinv := 1.0 / x;
    assert x * xinv == 1.0;
    assert xinv > 0.0;
    InverseBound(x, 1.0);
  }
}
