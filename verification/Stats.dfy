/** Interval and agreement statistics of the labelled run, over exact reals. */
module Stats {
  import opened Wrappers

  /** `Math.round(x * 1e4) / 1e4`: to four places, halves upward. */
  function Round4(x: real): real {
    (x * 10000.0 + 0.5).Floor as real / 10000.0
  }

  lemma RoundIsMonotone(x: real, y: real)
    requires x <= y
    ensures Round4(x) <= Round4(y)
  {
    assert (x * 10000.0 + 0.5).Floor <= (y * 10000.0 + 0.5).Floor;
  }

  // ---------------------------------------------------------------- wilson

  datatype Interval = Interval(low: real, high: real)

  function Max(x: real, y: real): real { if x < y then y else x }

  function Min(x: real, y: real): real { if y < x then y else x }

  function Share(successes: nat, n: nat): real
    requires n > 0
  {
    successes as real / n as real
  }

  function Denom(n: nat, z: real): (r: real)
    requires n > 0
    ensures r >= 1.0
  {
    assert z * z >= 0.0;
    1.0 + z * z / n as real
  }

  function Center(p: real, n: nat, z: real): real
    requires n > 0
  {
    (p + z * z / (2.0 * n as real)) / Denom(n, z)
  }

  function Radicand(p: real, n: nat, z: real): real
    requires n > 0
  {
    (p * (1.0 - p) + z * z / (4.0 * n as real)) / n as real
  }

  predicate IsRoot(root: real, x: real) {
    root >= 0.0 && root * root == x
  }

  function Half(n: nat, z: real, root: real): real
    requires n > 0
  {
    z * root / Denom(n, z)
  }

  function Times(x: real, y: real): real {
    x * y
  }

  function Squared(x: real): real {
    Times(x, x)
  }

  /** The interval before rounding and clamping. */
  function Exact(successes: nat, n: nat, z: real, root: real): Interval
    requires n > 0
  {
    var p := Share(successes, n);
    Interval(Center(p, n, z) - Half(n, z, root), Center(p, n, z) + Half(n, z, root))
  }

  /** `wilson`; `root` is the square root it takes. */
  function Wilson(successes: nat, n: nat, z: real, root: real): Option<Interval> {
    if n == 0 then None
    else
      var e := Exact(successes, n, z, root);
      Some(Interval(Max(0.0, Round4(e.low)), Min(1.0, Round4(e.high))))
  }

  lemma SameSigns(x: real, y: real)
    requires (x >= 0.0 && y >= 0.0) || (x <= 0.0 && y <= 0.0)
    ensures x * y >= 0.0
  {
  }

  lemma OppositeSigns(x: real, y: real)
    requires x < 0.0 < y
    ensures x * y < 0.0
  {
    assert (-x) * y > 0.0;
  }

  lemma SquareOrder(u: real, t: real)
    requires t >= 0.0
    ensures -t <= u <= t <==> u * u <= t * t
  {
    var below, above := t - u, t + u;
    assert t * t - u * u == below * above;
    if u > t {
      OppositeSigns(below, above);
    } else if u < -t {
      OppositeSigns(above, below);
    } else {
      SameSigns(below, above);
    }
  }

  /** Completing the square: a quadratic in the hypothesised share has the closed-form endpoints as its roots. */
  lemma Completed(p: real, w: real, t: real, x: real)
    requires w >= 0.0 && t >= 0.0 && t * t == w * (p * (1.0 - p)) + w * w / 4.0
    ensures -t <= (1.0 + w) * x - (p + w / 2.0) <= t <==> Squared(p - x) <= w * (x * (1.0 - x))
  {
    var u := (1.0 + w) * x - (p + w / 2.0);
    var q := (p - x) * (p - x) - w * (x * (1.0 - x));
    assert u * u - t * t == (1.0 + w) * q;
    SquareOrder(u, t);
    assert (1.0 + w) * q <= 0.0 <==> q <= 0.0;
  }

  lemma Scaled(d: real, c: real, h: real, x: real)
    requires d >= 1.0
    ensures c / d - h / d <= x <= c / d + h / d <==> -h <= d * x - c <= h
  {
    assert d * (c / d) == c && d * (h / d) == h;
    assert x - (c / d - h / d) >= 0.0 <==> d * (x - (c / d - h / d)) >= 0.0;
    assert (c / d + h / d) - x >= 0.0 <==> d * ((c / d + h / d) - x) >= 0.0;
  }

  lemma RadicandForm(p: real, n: nat, z: real, m: real)
    requires n > 0 && m == n as real
    ensures Radicand(p, n, z) == (p * (1.0 - p) + z * z / (4.0 * m)) / m
  {
  }

  lemma RootOfProduct(p: real, m: real, z: real, root: real, w: real)
    requires m > 0.0 && w == z * z / m
    requires root * root == (p * (1.0 - p) + z * z / (4.0 * m)) / m
    ensures (z * root) * (z * root) == w * (p * (1.0 - p)) + w * w / 4.0
    ensures z * z / (2.0 * m) == w / 2.0
  {
    var v := p * (1.0 - p);
    assert z * z == w * m;
    assert z * z / (4.0 * m) == w / 4.0 by { assert (w / 4.0) * (4.0 * m) == w * m; }
    assert z * z / (2.0 * m) == w / 2.0 by { assert (w / 2.0) * (2.0 * m) == w * m; }
    assert (root * root) * m == v + w / 4.0;
    assert (z * root) * (z * root) == (z * z) * (root * root) == w * ((root * root) * m);
    assert w * (v + w / 4.0) == w * v + w * w / 4.0;
  }

  /** The share `x` is not rejected by the score test at `z`: it is within `z` standard errors of the observed
      share, the error taken under `x` itself. */
  predicate NotRejected(successes: nat, n: nat, z: real, x: real)
    requires n > 0
  {
    var p := Share(successes, n);
    Squared(p - x) <= (z * z / n as real) * (x * (1.0 - x))
  }

  /** The interval in terms of the weight `w = z * z / n` of the correction. */
  lemma ExactForm(successes: nat, n: nat, z: real, root: real, w: real)
    requires n > 0 && w == z * z / n as real && 1.0 + w >= 1.0
    requires z * z / (2.0 * n as real) == w / 2.0
    ensures var p, e := Share(successes, n), Exact(successes, n, z, root);
            e == Interval((p + w / 2.0) / (1.0 + w) - z * root / (1.0 + w), (p + w / 2.0) / (1.0 + w) + z * root / (1.0 + w))
  {
  }

  lemma Inverts(p: real, w: real, t: real, x: real)
    requires w >= 0.0 && t >= 0.0 && t * t == w * (p * (1.0 - p)) + w * w / 4.0
    ensures (p + w / 2.0) / (1.0 + w) - t / (1.0 + w) <= x <= (p + w / 2.0) / (1.0 + w) + t / (1.0 + w)
            <==> Squared(p - x) <= w * (x * (1.0 - x))
  {
    Completed(p, w, t, x);
    Scaled(1.0 + w, p + w / 2.0, t, x);
  }

  lemma WeightIsSigned(z: real, root: real, n: nat)
    requires n > 0 && z >= 0.0 && root >= 0.0
    ensures z * z / n as real >= 0.0 && z * root >= 0.0
  {
    SameSigns(z, root);
    var _ := Denom(n, z);
  }

  /** The half width over the denominator squares to the discriminant of the score test's quadratic. */
  lemma HalfSquared(successes: nat, n: nat, z: real, root: real, w: real)
    requires n > 0 && IsRoot(root, Radicand(Share(successes, n), n, z)) && w == z * z / n as real
    ensures var p := Share(successes, n); (z * root) * (z * root) == w * (p * (1.0 - p)) + w * w / 4.0
    ensures z * z / (2.0 * n as real) == w / 2.0
  {
    RadicandForm(Share(successes, n), n, z, n as real);
    RootOfProduct(Share(successes, n), n as real, z, root, w);
  }

  /** The unrounded interval is exactly the set of shares the score test does not reject. */
  lemma IntervalInvertsScoreTest(successes: nat, n: nat, z: real, root: real, x: real)
    requires n > 0 && z >= 0.0 && IsRoot(root, Radicand(Share(successes, n), n, z))
    ensures var e := Exact(successes, n, z, root); e.low <= x <= e.high <==> NotRejected(successes, n, z, x)
  {
    var w := z * z / n as real;
    WeightIsSigned(z, root, n);
    HalfSquared(successes, n, z, root, w);
    ExactForm(successes, n, z, root, w);
    Inverts(Share(successes, n), w, z * root, x);
  }

  lemma ShareIsShare(successes: nat, n: nat)
    requires n > 0 && successes <= n
    ensures 0.0 <= Share(successes, n) <= 1.0
  {
    var k, m := successes as real, n as real;
    assert (k / m) * m == k;
  }

  lemma PositiveProduct(x: real, y: real)
    requires x > 0.0 && y > 0.0
    ensures Times(x, y) > 0.0
  {
  }

  lemma BothNegated(x: real, y: real)
    ensures Times(-x, -y) == Times(x, y)
  {
  }

  lemma SquareIsPositive(x: real)
    requires x != 0.0
    ensures Squared(x) > 0.0
  {
    if x > 0.0 {
      PositiveProduct(x, x);
    } else {
      PositiveProduct(-x, -x);
      BothNegated(x, x);
    }
  }

  lemma ShrinkSign(w: real, y: real)
    requires w >= 0.0 && y <= 0.0
    ensures w * y <= 0.0
  {
  }

  /** Shares outside [0, 1] are rejected. */
  lemma OutsideIsRejected(p: real, w: real, x: real)
    requires w >= 0.0 && 0.0 <= p <= 1.0
    ensures x < 0.0 || x > 1.0 ==> w * (x * (1.0 - x)) < Squared(p - x)
  {
    if x < 0.0 || x > 1.0 {
      if x < 0.0 { OppositeSigns(x, 1.0 - x); } else { OppositeSigns(1.0 - x, x); }
      assert x * (1.0 - x) <= 0.0;
      assert w * (x * (1.0 - x)) <= 0.0 by { ShrinkSign(w, x * (1.0 - x)); }
      SquareIsPositive(p - x);
    }
  }

  lemma QuotientSign(t: real, d: real)
    requires t >= 0.0 && d >= 1.0
    ensures t / d >= 0.0
  {
  }

  /** The observed share itself is not rejected. */
  lemma ShareIsKept(p: real, w: real)
    requires w >= 0.0 && 0.0 <= p <= 1.0
    ensures Squared(p - p) <= w * (p * (1.0 - p))
  {
    SameSigns(p, 1.0 - p);
    SameSigns(w, p * (1.0 - p));
  }

  lemma EndsAreOrdered(successes: nat, n: nat, z: real, root: real)
    requires n > 0 && z >= 0.0 && root >= 0.0
    ensures var e := Exact(successes, n, z, root); e.low <= e.high
  {
    SameSigns(z, root);
    QuotientSign(z * root, Denom(n, z));
  }

  lemma InsideIsAShare(successes: nat, n: nat, z: real, root: real, x: real)
    requires n > 0 && successes <= n && z >= 0.0 && IsRoot(root, Radicand(Share(successes, n), n, z))
    requires Exact(successes, n, z, root).low <= x <= Exact(successes, n, z, root).high
    ensures 0.0 <= x <= 1.0
  {
    IntervalInvertsScoreTest(successes, n, z, root, x);
    WeightIsSigned(z, root, n);
    ShareIsShare(successes, n);
    OutsideIsRejected(Share(successes, n), z * z / n as real, x);
  }

  lemma ShareIsInside(successes: nat, n: nat, z: real, root: real)
    requires n > 0 && successes <= n && z >= 0.0 && IsRoot(root, Radicand(Share(successes, n), n, z))
    ensures Exact(successes, n, z, root).low <= Share(successes, n) <= Exact(successes, n, z, root).high
  {
    IntervalInvertsScoreTest(successes, n, z, root, Share(successes, n));
    WeightIsSigned(z, root, n);
    ShareIsShare(successes, n);
    ShareIsKept(Share(successes, n), z * z / n as real);
  }

  /** The unrounded interval lies in [0, 1] and contains the observed share. */
  lemma IntervalContainsTheShare(successes: nat, n: nat, z: real, root: real)
    requires n > 0 && successes <= n && z >= 0.0 && IsRoot(root, Radicand(Share(successes, n), n, z))
    ensures var e := Exact(successes, n, z, root); 0.0 <= e.low <= Share(successes, n) <= e.high <= 1.0
  {
    var e := Exact(successes, n, z, root);
    EndsAreOrdered(successes, n, z, root);
    InsideIsAShare(successes, n, z, root, e.low);
    InsideIsAShare(successes, n, z, root, e.high);
    ShareIsInside(successes, n, z, root);
  }

  /** Hence the two clamps never change anything, and the rounded interval contains the rounded share. */
  lemma ClampsNeverBite(successes: nat, n: nat, z: real, root: real)
    requires successes <= n && z >= 0.0 && (n > 0 ==> IsRoot(root, Radicand(Share(successes, n), n, z)))
    ensures Wilson(successes, n, z, root).None? <==> n == 0
    ensures n > 0 ==>
              var e, r := Exact(successes, n, z, root), Wilson(successes, n, z, root).value;
              && r == Interval(Round4(e.low), Round4(e.high))
              && 0.0 <= r.low <= Round4(Share(successes, n)) <= r.high <= 1.0
  {
    if n > 0 {
      var e := Exact(successes, n, z, root);
      IntervalContainsTheShare(successes, n, z, root);
      assert Round4(0.0) == 0.0 && Round4(1.0) == 1.0;
      RoundIsMonotone(0.0, e.low);
      RoundIsMonotone(e.low, Share(successes, n));
      RoundIsMonotone(Share(successes, n), e.high);
      RoundIsMonotone(e.high, 1.0);
    }
  }

  // ---------------------------------------------------------------- kappa2x2

  datatype Agreement = Agreement(kappa: Option<real>, po: Option<real>, pe: Option<real>)

  /** Observed agreement. */
  function Observed(a: nat, b: nat, c: nat, d: nat): real
    requires a + b + c + d > 0
  {
    (a + d) as real / (a + b + c + d) as real
  }

  /** Agreement expected by chance from the marginals. */
  function Chance(a: nat, b: nat, c: nat, d: nat): real
    requires a + b + c + d > 0
  {
    var n := a + b + c + d;
    ((a + b) * (a + c) + (c + d) * (b + d)) as real / (n * n) as real
  }

  /** Kappa before rounding. */
  function ExactKappa(a: nat, b: nat, c: nat, d: nat): Option<real> {
    if a + b + c + d == 0 || Chance(a, b, c, d) == 1.0 then None
    else Some((Observed(a, b, c, d) - Chance(a, b, c, d)) / (1.0 - Chance(a, b, c, d)))
  }

  /** `kappa2x2`. */
  function Kappa2x2(a: nat, b: nat, c: nat, d: nat): Agreement {
    if a + b + c + d == 0 then Agreement(None, None, None)
    else
      var po, pe := Observed(a, b, c, d), Chance(a, b, c, d);
      Agreement(if pe == 1.0 then None else Some(Round4((po - pe) / (1.0 - pe))), Some(Round4(po)), Some(Round4(pe)))
  }

  /** The chance-disagreement weight: the pairs on which two raters with these marginals would differ. */
  function Differ(a: nat, b: nat, c: nat, d: nat): nat {
    (a + b) * (b + d) + (c + d) * (a + c)
  }

  lemma DifferSquares(a: nat, b: nat, c: nat, d: nat)
    ensures var n := a + b + c + d;
            n * n - ((a + b) * (a + c) + (c + d) * (b + d)) == Differ(a, b, c, d)
  {
    var y, no, u, v := a + b, c + d, a + c, b + d;
    assert y + no == u + v;
    assert (y + no) * (u + v) == y * u + y * v + no * u + no * v;
  }

  lemma DifferGap(a: nat, b: nat, c: nat, d: nat)
    ensures Differ(a, b, c, d) == 2 * (a * d - b * c) + (a + b + c + d) * (b + c)
    ensures Differ(a, b, c, d) == 2 * (b * c - a * d) + 4 * (a * d) + (b - c) * (b - c) + (a + d) * (b + c)
    ensures (a + d) * (a + b + c + d) - ((a + b) * (a + c) + (c + d) * (b + d)) == 2 * (a * d - b * c)
  {
  }

  lemma FractionOne(x: real, m: real)
    requires m > 0.0
    ensures x / m == 1.0 <==> x == m
  {
    assert (x / m) * m == x;
  }

  /** Chance agreement is total exactly when every pair is in the same agreeing cell. */
  lemma DifferIsZero(a: nat, b: nat, c: nat, d: nat)
    ensures Differ(a, b, c, d) == 0 <==> a == a + b + c + d || d == a + b + c + d
  {
    assert Differ(a, b, c, d) == 2 * (a * d) + b * b + c * c + (a + d) * (b + c);
    if b > 0 { assert b * b > 0; }
    if c > 0 { assert c * c > 0; }
    if a > 0 && d > 0 { assert a * d > 0; }
  }

  lemma QuotientOfFractions(x: real, y: real, m: real)
    requires m > 0.0 && y != 0.0
    ensures (x / m) / (y / m) == x / y
  {
    assert (x / y) * (y / m) == x / m by {
      assert ((x / y) * (y / m)) * m == (x / y) * ((y / m) * m) == x;
      assert (x / m) * m == x;
    }
  }

  /** Kappa as a quotient of whole numbers. */
  lemma KappaForm(a: nat, b: nat, c: nat, d: nat)
    requires a + b + c + d > 0
    ensures Chance(a, b, c, d) == 1.0 <==> Differ(a, b, c, d) == 0
    ensures Differ(a, b, c, d) > 0 ==>
              ExactKappa(a, b, c, d) == Some((2 * (a * d - b * c)) as real / Differ(a, b, c, d) as real)
  {
    var n := a + b + c + d;
    var s, e, m := (a + b) * (a + c) + (c + d) * (b + d), Differ(a, b, c, d), (n * n) as real;
    assert n * n > 0;
    DifferSquares(a, b, c, d);
    DifferGap(a, b, c, d);
    FractionOne(s as real, m);
    assert m - s as real == e as real;
    if e > 0 {
      FractionDifference(m, s as real, m);
      OverSquare(a + d, n);
      FractionDifference(((a + d) * n) as real, s as real, m);
      assert ((a + d) * n) as real - s as real == (2 * (a * d - b * c)) as real;
      QuotientOfFractions((2 * (a * d - b * c)) as real, e as real, m);
    }
  }

  lemma FractionDifference(x: real, y: real, m: real)
    requires m > 0.0
    ensures x / m - y / m == (x - y) / m
    ensures m / m == 1.0
  {
  }

  lemma OverSquare(k: nat, n: nat)
    requires n > 0
    ensures n * n > 0 && k as real / n as real == (k * n) as real / (n * n) as real
  {
    var x, y := k as real, n as real;
    assert (k * n) as real == x * y && (n * n) as real == y * y;
    assert (x / y) * (y * y) == x * y;
  }

  // ---------------------------------------------------------------- what kappa means

  /** Rounding to four decimals: a multiple of 0.0001, at most half of one away, and the upper one of two as near. */
  lemma RoundsToNearest(x: real) returns (k: int)
    ensures Round4(x) == k as real / 10000.0
    ensures -0.00005 < Round4(x) - x <= 0.00005
  {
    k := (x * 10000.0 + 0.5).Floor;
  }

  /** The three figures reported: agreement over pairs, agreement by chance over squared pairs, and their kappa as one
      quotient of whole numbers, each rounded. */
  lemma KappaReported(a: nat, b: nat, c: nat, d: nat)
    requires a + b + c + d > 0
    ensures var n, r := a + b + c + d, Kappa2x2(a, b, c, d);
            && r.po == Some(Round4((a + d) as real / n as real))
            && n * n > 0
            && r.pe == Some(Round4(((a + b) * (a + c) + (c + d) * (b + d)) as real / (n * n) as real))
            && (Differ(a, b, c, d) == 0 ==> r.kappa == None)
            && (Differ(a, b, c, d) > 0 ==>
                  r.kappa == Some(Round4((2 * (a * d - b * c)) as real / Differ(a, b, c, d) as real)))
  {
    Product(a + b + c + d, a + b + c + d);
    KappaForm(a, b, c, d);
  }

  /** No kappa exactly when there is nothing to compare, or both raters always gave the same one answer. */
  lemma NoKappaIffUnanimous(a: nat, b: nat, c: nat, d: nat)
    ensures Kappa2x2(a, b, c, d).kappa.None? <==> a == a + b + c + d || d == a + b + c + d
    ensures Kappa2x2(a, b, c, d).kappa.None? <==> ExactKappa(a, b, c, d).None?
  {
    if a + b + c + d > 0 {
      KappaForm(a, b, c, d);
      DifferIsZero(a, b, c, d);
    }
  }

  lemma QuotientOrder(x: real, e: real, v: real)
    requires e > 0.0
    ensures x / e <= v <==> x <= v * e
    ensures x / e == v <==> x == v * e
  {
    var q := x / e;
    assert q * e == x;
    if q < v { OppositeSigns(q - v, e); }
    if q > v { OppositeSigns(v - q, e); }
    assert (q - v) * e == x - v * e;
  }

  lemma QuotientBounds(x: int, e: int)
    requires e > 0
    ensures x <= e <==> x as real / e as real <= 1.0
    ensures x >= -e <==> x as real / e as real >= -1.0
    ensures x == e <==> x as real / e as real == 1.0
    ensures x == -e <==> x as real / e as real == -1.0
    ensures x >= 0 <==> x as real / e as real >= 0.0
  {
    QuotientOrder(x as real, e as real, 1.0);
    QuotientOrder(x as real, e as real, -1.0);
    QuotientOrder(x as real, e as real, 0.0);
  }

  /** Exact kappa lies in [-1, 1]. It is 1 exactly when the raters never disagree and use both answers, -1 exactly
      when they never agree and disagree evenly, and is not negative exactly when agreement outweighs disagreement. */
  lemma KappaBounds(a: nat, b: nat, c: nat, d: nat)
    requires b + c > 0 || (a > 0 && d > 0)
    ensures ExactKappa(a, b, c, d).Some?
    ensures var k := ExactKappa(a, b, c, d).value;
            && -1.0 <= k <= 1.0
            && (k == 1.0 <==> b == 0 && c == 0 && a > 0 && d > 0)
            && (k == -1.0 <==> a == 0 && d == 0 && b == c && b > 0)
            && (k >= 0.0 <==> a * d >= b * c)
  {
    KappaForm(a, b, c, d);
    DifferIsZero(a, b, c, d);
    KappaInWholeNumbers(a, b, c, d);
    QuotientBounds(2 * (a * d - b * c), Differ(a, b, c, d));
  }

  /** The same bounds on numerator and denominator. */
  lemma KappaInWholeNumbers(a: nat, b: nat, c: nat, d: nat)
    requires b + c > 0 || (a > 0 && d > 0)
    ensures var x, e := 2 * (a * d - b * c), Differ(a, b, c, d);
            && e > 0 && 0 <= x + e && x <= e
            && (x == e <==> b == 0 && c == 0)
            && (x + e == 0 <==> a == 0 && d == 0 && b == c && b > 0)
            && (x >= 0 <==> a * d >= b * c)
  {
    DifferGap(a, b, c, d);
    DifferIsZero(a, b, c, d);
    Product(a + b + c + d, b + c);
    BottomedOut(a, b, c, d);
  }

  lemma Product(x: nat, y: nat)
    ensures x * y >= 0
    ensures x * y == 0 <==> x == 0 || y == 0
  {
    if x > 0 && y > 0 { assert x * y > 0; }
  }

  lemma Square(x: int)
    ensures x * x >= 0
    ensures x * x == 0 <==> x == 0
  {
    if x > 0 { assert x * x > 0; }
    if x < 0 { assert (-x) * (-x) > 0; }
  }

  lemma BottomedOut(a: nat, b: nat, c: nat, d: nat)
    requires Differ(a, b, c, d) > 0
    ensures var gap := 4 * (a * d) + (b - c) * (b - c) + (a + d) * (b + c);
            gap >= 0 && (gap == 0 <==> a == 0 && d == 0 && b == c && b > 0)
  {
    Square(b - c);
    Product(a, d);
    Product(a + d, b + c);
    DifferIsZero(a, b, c, d);
  }

  /** The reported kappa is rounded, so it reads 1 exactly when the disagreements are few enough to round away. */
  lemma RoundedKappaIsOne(a: nat, b: nat, c: nat, d: nat)
    requires b + c > 0 || (a > 0 && d > 0)
    ensures Kappa2x2(a, b, c, d).kappa == Some(1.0)
            <==> 20000 * ((a + b + c + d) * (b + c)) <= Differ(a, b, c, d)
  {
    var n, x, e := a + b + c + d, 2 * (a * d - b * c), Differ(a, b, c, d);
    KappaForm(a, b, c, d);
    DifferGap(a, b, c, d);
    KappaBounds(a, b, c, d);
    QuotientBounds(x, e);
    var k := ExactKappa(a, b, c, d).value;
    RoundsToOne(k);
    FewEnough(x as real, e as real, k);
    assert 20000 * (e - x) <= e <==> 20000.0 * (e as real - x as real) <= e as real;
  }

  lemma FewEnough(x: real, e: real, k: real)
    requires e > 0.0 && k == x / e
    ensures 20000.0 * (1.0 - k) <= 1.0 <==> 20000.0 * (e - x) <= e
  {
    assert k >= 0.99995 <==> x >= 0.99995 * e by {
      QuotientOrder(-x, e, -0.99995);
      assert -x / e == -k;
    }
  }

  lemma RoundsToOne(k: real)
    requires k <= 1.0
    ensures Round4(k) == 1.0 <==> 20000.0 * (1.0 - k) <= 1.0
  {
    var f := (k * 10000.0 + 0.5).Floor;
    assert f == 10000 <==> k * 10000.0 + 0.5 >= 10000.0;
  }

  /** One disagreement in two hundred thousand is reported as perfect agreement. */
  lemma PerfectByRounding()
    ensures Kappa2x2(100000, 1, 0, 100000).kappa == Some(1.0)
    ensures ExactKappa(100000, 1, 0, 100000).Some? && ExactKappa(100000, 1, 0, 100000).value < 1.0
  {
    KappaForm(100000, 1, 0, 100000);
    KappaBounds(100000, 1, 0, 100000);
    RoundedKappaIsOne(100000, 1, 0, 100000);
  }

  /** Swapping the raters, or the two answers, leaves kappa unchanged. */
  lemma KappaIsSymmetric(a: nat, b: nat, c: nat, d: nat)
    ensures Kappa2x2(a, b, c, d) == Kappa2x2(a, c, b, d) == Kappa2x2(d, c, b, a)
  {
    assert (a + b) * (a + c) == (a + c) * (a + b) && (c + d) * (b + d) == (b + d) * (c + d);
    assert (d + c) * (d + b) + (b + a) * (c + a) == (a + b) * (a + c) + (c + d) * (b + d);
  }
}
