/** roundToDivide, and its use with approximateFraction when a page view sizes its canvas. */
module CanvasScaling {
  import opened Options
  import opened Fractions

  /** The remainder `x % div` of a non-negative number. */
  function Remainder(x: real, div: int): real
    requires x >= 0.0 && div >= 1
  {
    x - div as real * (x / div as real).Floor as real
  }

  function Round(x: real): int { (x + 0.5).Floor }

  function RoundToDivide(x: real, div: int): int
    requires x >= 0.0 && div >= 1
  {
    var r := Remainder(x, div);
    if r == 0.0 then x.Floor else Round(x - r + div as real)
  }

  /** The least integer not below `y`. */
  function Ceiling(y: real): (k: int)
    ensures k as real - 1.0 < y <= k as real
  {
    if y.Floor as real == y then y.Floor else y.Floor + 1
  }

  lemma {:induction false} RoundInteger(k: int)
    ensures Round(k as real) == k
  {
  }

  // ---- Arithmetic ---------------------------------------------------------------------------

  lemma {:induction false} CancelReal(u: real, v: real, c: real)
    requires c != 0.0 && u * c == v * c
    ensures u == v
  {
    assert (u - v) * c == 0.0;
  }

  lemma {:induction false} PositiveProduct(d: real, e: real, f: real)
    requires d > 0.0 && f == d * e
    ensures e >= 0.0 ==> f >= 0.0
    ensures e < 1.0 ==> f < d
    ensures e > 0.0 ==> f > 0.0
  {
    RealProductSign(d, e);
    RealProductSign(d, 1.0 - e);
    assert d * (1.0 - e) == d - f;
  }

  lemma {:induction false} RealProductSign(a: real, b: real)
    requires a > 0.0
    ensures (b >= 0.0 ==> a * b >= 0.0) && (b > 0.0 ==> a * b > 0.0)
  {
  }

  lemma {:induction false} NextMultiple(div: int, a: int, b: int)
    requires div >= 1
    ensures a < b ==> div * a + div <= div * b
  {
    var k := b - a - 1;
    assert div * b == div * a + div + div * k;
    if a < b {
      NonNegativeProduct(div, k);
    }
  }

  lemma {:induction false} NonNegativeProduct(a: int, b: int)
    requires a >= 0 && b >= 0
    ensures a * b >= 0
  {
  }

  lemma {:induction false} DivideTimes(x: real, d: real)
    requires d != 0.0
    ensures (x / d) * d == x
  {
  }

  /** Scaling by n/d and dividing by n is dividing by d. */
  lemma {:induction false} ScaleThenDivide(width: real, s: real, scaled: real, n: real, d: real)
    requires n > 0.0 && d > 0.0 && s * d == n && scaled == width * s
    ensures scaled / n == width / d
  {
    var a, b := scaled / n, width / d;
    DivideTimes(scaled, n);
    DivideTimes(width, d);
    assert (a * n) * d == (width * s) * d == width * (s * d) == width * n;
    assert (b * n) * d == (b * d) * n == width * n;
    CancelReal(a * n, b * n, d);
    CancelReal(a, b, n);
  }

  lemma {:induction false} ProductMultiple(div: int, k: int, m: int)
    requires div >= 1 && m == div * k
    ensures m % div == 0
  {
    var q := m / div;
    NextMultiple(div, q, k);
    NextMultiple(div, k, q);
  }

  lemma {:induction false} MultipleBounds(x: real, y: real, d: real, kr: real, m: real)
    requires d > 0.0 && y * d == x && kr - 1.0 < y <= kr && m == d * kr
    ensures x <= m && m < x + d
  {
    var e := kr - y;
    assert m - x == d * e;
    PositiveProduct(d, e, m - x);
  }

  lemma {:induction false} RealProduct(a: int, b: int)
    ensures (a * b) as real == a as real * b as real
  {
  }

  /** The value computed, when `f` is the floor of x / div. */
  lemma {:induction false} RoundedValue(x: real, div: int, f: int, m: int)
    requires x >= 0.0 && div >= 1 && f == (x / div as real).Floor && m == div * f
    ensures RoundToDivide(x, div) == if f as real == x / div as real then m else m + div
  {
    var y, d := x / div as real, div as real;
    DivideTimes(x, d);
    RealProduct(div, f);
    assert Remainder(x, div) == x - m as real;
    PositiveProduct(d, y - f as real, x - m as real);
    if f as real != y {
      RoundInteger(m + div);
      assert x - Remainder(x, div) + d == (m + div) as real;
    }
  }

  lemma {:induction false} RoundsUp(x: real, div: int)
    requires x >= 0.0 && div >= 1
    ensures var r := RoundToDivide(x, div);
            r == div * Ceiling(x / div as real) && x <= r as real && r as real < x + div as real
  {
    var y, d := x / div as real, div as real;
    var f, k, r := y.Floor, Ceiling(y), RoundToDivide(x, div);
    RoundedValue(x, div, f, div * f);
    assert div * f + div == div * (f + 1);
    RealProduct(div, k);
    DivideTimes(x, d);
    MultipleBounds(x, y, d, k as real, r as real);
  }

  /** The least multiple of `div` that is not below `x`. */
  ghost predicate IsLeastMultiple(r: int, x: real, div: int)
    requires div >= 1
  {
    r % div == 0 && x <= r as real && forall m: int :: m % div == 0 && x <= m as real ==> r <= m
  }

  /** roundToDivide gives the least multiple of `div` that is not below `x`. */
  lemma {:induction false} LeastMultiple(x: real, div: int)
    requires x >= 0.0 && div >= 1
    ensures var r := RoundToDivide(x, div);
            IsLeastMultiple(r, x, div)
  {
    var k, r := Ceiling(x / div as real), RoundToDivide(x, div);
    RoundsUp(x, div);
    ProductMultiple(div, k, r);
    forall m: int | m % div == 0 && x <= m as real
      ensures r <= m
    {
      LeastAmongMultiples(x, div, k, m);
    }
  }

  lemma {:induction false} LeastAmongMultiples(x: real, div: int, k: int, m: int)
    requires x >= 0.0 && div >= 1 && (div * k) as real < x + div as real
    requires m % div == 0 && x <= m as real
    ensures div * k <= m
  {
    var j := m / div;
    assert m == div * j;
    NextMultiple(div, j, k);
  }

  // ---- Sizing the canvas -------------------------------------------------------------------

  /** Two fractions with the same value. */
  lemma {:induction false} SameFraction(p: int, q: int, n: int, d: int)
    requires q >= 1 && d >= 1
    ensures Fraction(p, q) == Fraction(n, d) <==> p * d == n * q
  {
    CompareFractions(p, q, n, d);
    CompareFractions(n, d, p, q);
  }

  lemma {:induction false} Inverse(p: int, q: int)
    requires p >= 1 && q >= 1
    ensures 1.0 / Fraction(p, q) == Fraction(q, p)
  {
    var x, y, pr, qr := Fraction(p, q), Fraction(q, p), p as real, q as real;
    assert x * qr == pr && y * pr == qr;
    assert (x * y) * (pr * qr) == (x * qr) * (y * pr);
    assert pr * qr > 0.0;
    CancelReal(x * y, 1.0, pr * qr);
    assert x > 0.0;
    CancelReal(1.0 / x, y, x);
  }

  /** A fraction with numerator and denominator up to 8 is recovered, in lowest terms. */
  lemma {:induction false} RecoversFraction(p: int, q: int, n: int, d: int)
    requires 1 <= p <= LIMIT && 1 <= q <= LIMIT && n >= 1 && d >= 0
    requires Fraction(p, q) > 0.0 && Approximates(Fraction(p, q), n, d)
    ensures d >= 1 && p * d == n * q && Fraction(n, d) == Fraction(p, q)
  {
    var x := Fraction(p, q);
    Inverse(p, q);
    if x > 1.0 {
      assert Abs(Folded(x) - Fraction(d, n)) <= Abs(Folded(x) - Fraction(q, p));
      SameFraction(q, p, d, n);
      assert d != 0;
    } else {
      assert Abs(Folded(x) - Fraction(n, d)) <= Abs(Folded(x) - Fraction(p, q));
      SameFraction(p, q, n, d);
    }
    SameFraction(p, q, n, d);
  }

  lemma {:induction false} SmallFractionInRange(p: int, q: int)
    requires 1 <= p <= LIMIT && 1 <= q <= LIMIT
    ensures 0.0 < Fraction(p, q) && Fraction(1, LIMIT) <= Fraction(p, q)
  {
    CompareFractions(1, LIMIT, p, q);
  }

  /** For a scale of n/d, canvas and CSS sizes are the same number of steps of n and of d. */
  lemma {:induction false} SameSteps(width: real, scaled: real, n: int, d: int)
    requires width > 0.0 && n >= 1 && d >= 1 && scaled >= 0.0 && scaled == width * Fraction(n, d)
    ensures RoundToDivide(scaled, n) * d == RoundToDivide(width, d) * n
  {
    var s := Fraction(n, d);
    assert s * d as real == n as real;
    ScaleThenDivide(width, s, scaled, n as real, d as real);
    RoundsUp(scaled, n);
    RoundsUp(width, d);
    var k := Ceiling(width / d as real);
    assert RoundToDivide(scaled, n) == n * k;
    StepsCommute(n, d, k);
  }

  lemma {:induction false} StepsCommute(n: int, d: int, k: int)
    ensures (n * k) * d == (d * k) * n
  {
  }

  lemma {:induction false} CrossMultiply(a: int, b: int, n: int, d: int, p: int, q: int)
    requires d >= 1 && a * d == b * n && p * d == n * q
    ensures a * q == b * p
  {
    assert (a * q) * d == (a * d) * q;
    assert (b * p) * d == b * (p * d) == b * (n * q) == (b * n) * q;
    assert (a * q - b * p) * d == 0;
  }

  /** Whatever the width of the page, a scale of p/q gives canvas and CSS sizes in the ratio p to q. */
  lemma {:induction false} ExactScaling(width: real, scale: real, scaled: real, p: int, q: int, n: int, d: int)
    requires width > 0.0 && 1 <= p <= LIMIT && 1 <= q <= LIMIT && n >= 1 && d >= 0
    requires scale > 0.0 && scale == Fraction(p, q) && Approximates(scale, n, d)
    requires scaled >= 0.0 && scaled == width * scale
    ensures d >= 1 && RoundToDivide(scaled, n) * q == RoundToDivide(width, d) * p
  {
    RecoversFraction(p, q, n, d);
    SameSteps(width, scaled, n, d);
    CrossMultiply(RoundToDivide(scaled, n), RoundToDivide(width, d), n, d, p, q);
  }

  /**
   * The part of draw that fixes one dimension of the canvas and of its CSS box.  None is the size NaN, which
   * roundToDivide gives for the divisor 0.
   */
  method SizeCanvas(width: real, outputScale: real, ghost p: int, ghost q: int)
    returns (canvasSize: int, cssSize: Option<int>, ghost n: int, ghost d: int)
    requires width > 0.0 && outputScale > 0.0
    ensures n >= 1 && d >= 0 && (Fraction(1, LIMIT) <= outputScale ==> Approximates(outputScale, n, d))
    ensures outputScale < Fraction(1, LIMIT) ==> n == 1 && d == LIMIT
    ensures IsLeastMultiple(canvasSize, width * outputScale, n)
    ensures if d == 0 then cssSize.None? else cssSize.Some? && IsLeastMultiple(cssSize.value, width, d)
    ensures cssSize.None? <==> !IsInteger(outputScale) && outputScale > 16.0
    ensures 1 <= p <= LIMIT && 1 <= q <= LIMIT && outputScale == Fraction(p, q) ==>
              cssSize.Some? && canvasSize * q == cssSize.value * p
  {
    var numerator, denominator := ApproximateFraction(outputScale);
    n, d := numerator, denominator;
    var scaled := width * outputScale;
    assert scaled >= 0.0;
    canvasSize := RoundToDivide(scaled, numerator);
    LeastMultiple(scaled, n);
    if denominator == 0 {
      cssSize := None;
    } else {
      cssSize := Some(RoundToDivide(width, denominator));
      LeastMultiple(width, d);
    }
    if 1 <= p <= LIMIT && 1 <= q <= LIMIT && outputScale == Fraction(p, q) {
      SmallFractionInRange(p, q);
      ExactScaling(width, outputScale, scaled, p, q, n, d);
    }
  }

  /** For the scale 16.5 the fraction is 1/0 and the CSS size is NaN, whatever the width of the page. */
  method ScaleWithoutSize(width: real) returns (n: int, d: int, cssSize: Option<int>)
    requires width > 0.0
    ensures n == 1 && d == 0 && cssSize == None
  {
    var scale := 16.5;
    n, d := ApproximateFraction(scale);
    assert !IsInteger(scale);
    assert Times(n, 1, n) && Times(n, 0, 0);
    var canvasSize, css, _, _ := SizeCanvas(width, scale, 0, 0);
    cssSize := css;
  }
}
