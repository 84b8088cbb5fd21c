/** The interval estimate for a proportion, in exact arithmetic. */
module Wilson {

  datatype Interval = Interval(low: real, high: real)

  function MaxReal(a: real, b: real): real {
    if a > b then a else b
  }

  function MinReal(a: real, b: real): real {
    if a < b then a else b
  }

  function Proportion(successes: nat, trials: nat): real
    requires trials > 0
  {
    successes as real / trials as real
  }

  function CentreOf(p: real, n: real, z2: real): real
    requires n > 0.0 && z2 >= 0.0
  {
    assert z2 / n >= 0.0;
    (p + z2 / (2.0 * n)) / (1.0 + z2 / n)
  }

  /** root stands for the square root that the calculation takes. */
  function MarginOf(n: real, z: real, z2: real, root: real): real
    requires n > 0.0 && z2 >= 0.0
  {
    assert z2 / n >= 0.0;
    z * root / (1.0 + z2 / n)
  }

  function IntervalOf(p: real, n: real, z: real, z2: real, root: real): Interval
    requires n > 0.0 && z2 >= 0.0
  {
    var centre, margin := CentreOf(p, n, z2), MarginOf(n, z, z2, root);
    Interval(MaxReal(0.0, centre - margin), MinReal(1.0, centre + margin))
  }

  /** root is not looked at when there are no trials. */
  function WilsonInterval(successes: nat, trials: nat, z: real, root: real): Interval {
    if trials == 0 then Interval(0.0, 0.0)
    else
      SquareIsPositive(z, z * z);
      IntervalOf(Proportion(successes, trials), trials as real, z, z * z, root)
  }

  predicate IsRoot(root: real, successes: nat, trials: nat, z: real)
    requires trials > 0
  {
    RootOf(root, Proportion(successes, trials), trials as real, z * z)
  }

  /** What the calculation takes the square root of. */
  predicate RootOf(root: real, p: real, n: real, z2: real)
    requires n > 0.0
  {
    assert 4.0 * n * n > 0.0;
    root >= 0.0 && root * root == p * (1.0 - p) / n + z2 / (4.0 * n * n)
  }

  // --- products and quotients ---

  lemma PosProduct(x: real, y: real, p: real)
    requires x > 0.0 && y > 0.0 && p == x * y
    ensures p > 0.0
  {
  }

  lemma NonNeg(x: real, y: real, p: real)
    requires x >= 0.0 && y >= 0.0 && p == x * y
    ensures p >= 0.0
  {
  }

  lemma SquareIsPositive(z: real, z2: real)
    requires z2 == z * z
    ensures z2 >= 0.0 && (z > 0.0 ==> z2 > 0.0)
  {
    if z > 0.0 {
      PosProduct(z, z, z2);
    }
  }

  lemma SquareOfTwo(z: real, q: real, z2: real, k: real)
    requires z * z == z2 && q * q == k
    ensures (z * q) * (z * q) == z2 * k
  {
  }

  lemma SquareAbove(d: real, w: real)
    requires d > w >= 0.0
    ensures d * d > w * w
  {
    var p := (d - w) * (d + w);
    PosProduct(d - w, d + w, p);
    assert p == d * d - w * w;
  }

  lemma SquareBound(d: real, w: real)
    requires w >= 0.0
    ensures d * d <= w * w <==> -w <= d <= w
  {
    if d > w {
      SquareAbove(d, w);
    } else if d < -w {
      SquareAbove(-d, w);
      assert (-d) * (-d) == d * d;
    } else {
      var p := (w - d) * (w + d);
      NonNeg(w - d, w + d, p);
      assert p == w * w - d * d;
    }
  }

  lemma Undivide(x: real, y: real)
    requires y > 0.0
    ensures x / y * y == x
  {
  }

  /** q is x over y when y times q is x. */
  lemma QuotientIs(x: real, y: real, q: real)
    requires y > 0.0 && q * y == x
    ensures x / y == q
  {
  }

  // --- the bounds over a common denominator ---

  /** a is the denominator, b over a the centre and w over a the margin; v is the variance of one trial. */
  ghost predicate Setting(p: real, n: real, z: real, z2: real, root: real, v: real, a: real, b: real, w: real) {
    && n > 0.0 && z >= 0.0 && z2 >= 0.0 && z2 == z * z && 0.0 <= p <= 1.0 && root >= 0.0
    && v == p * (1.0 - p) && a == n + z2 && b == n * p + z2 / 2.0 && w == z * (root * n)
    && w >= 0.0 && w * w == z2 * (v * n + z2 / 4.0)
  }

  lemma DenominatorIs(n: real, z2: real, a: real)
    requires n > 0.0 && z2 >= 0.0 && a == n + z2
    ensures 1.0 + z2 / n == a / n && a / n > 0.0
  {
    var x := z2 / n;
    assert x * n == z2;
    QuotientIs(a, n, 1.0 + x);
  }

  lemma NumeratorIs(p: real, n: real, z2: real, b: real)
    requires n > 0.0 && b == n * p + z2 / 2.0
    ensures p + z2 / (2.0 * n) == b / n
  {
    var y := z2 / (2.0 * n);
    assert y * (2.0 * n) == z2;
    assert (p + y) * n == b;
    QuotientIs(b, n, p + y);
  }

  lemma RatioIs(x: real, a: real, n: real)
    requires n > 0.0 && a > 0.0 && a / n > 0.0
    ensures (x / n) / (a / n) == x / a
  {
    var q := x / a;
    assert q * a == x;
    var y := a / n;
    assert y * n == a;
    assert (q * y) * n == x;
    QuotientIs(x, n, q * y);
    QuotientIs(x / n, y, q);
  }

  lemma CentreIs(p: real, n: real, z2: real, a: real, b: real)
    requires n > 0.0 && z2 >= 0.0 && a == n + z2 && b == n * p + z2 / 2.0
    ensures CentreOf(p, n, z2) == b / a
  {
    NumeratorIs(p, n, z2, b);
    DenominatorIs(n, z2, a);
    RatioIs(b, a, n);
  }

  lemma MarginIs(n: real, z: real, z2: real, root: real, a: real, w: real)
    requires n > 0.0 && z2 >= 0.0 && a == n + z2 && w == z * (root * n)
    ensures MarginOf(n, z, z2, root) == w / a
  {
    DenominatorIs(n, z2, a);
    assert (z * root) * n == w;
    QuotientIs(w, n, z * root);
    RatioIs(w, a, n);
  }

  /** The square of w, without roots or quotients. */
  lemma RootSquared(v: real, n: real, nn: real, z: real, z2: real, root: real, x: real, y: real)
    requires nn == n * n && z2 == z * z && x * n == v && y * (4.0 * nn) == z2 && root * root == x + y
    ensures (z * (root * n)) * (z * (root * n)) == z2 * (v * n + z2 / 4.0)
  {
    SquareOfTwo(root, n, x + y, nn);
    assert (x + y) * nn == x * nn + y * nn;
    assert x * nn == v * n;
    SquareOfTwo(z, root * n, z2, v * n + z2 / 4.0);
  }

  lemma WSquared(p: real, n: real, z: real, z2: real, root: real, v: real, w: real)
    requires n > 0.0 && z >= 0.0 && z2 == z * z && v == p * (1.0 - p) && w == z * (root * n) && RootOf(root, p, n, z2)
    ensures w >= 0.0 && w * w == z2 * (v * n + z2 / 4.0)
  {
    var nn := n * n;
    PosProduct(n, n, nn);
    NonNeg(root, n, root * n);
    NonNeg(z, root * n, w);
    assert 4.0 * n * n == 4.0 * nn;
    Undivide(v, n);
    Undivide(z2, 4.0 * nn);
    RootSquared(v, n, nn, z, z2, root, v / n, z2 / (4.0 * nn));
  }

  lemma Settle(p: real, n: real, z: real, z2: real, root: real) returns (v: real, a: real, b: real, w: real)
    requires n > 0.0 && z >= 0.0 && z2 == z * z && 0.0 <= p <= 1.0 && RootOf(root, p, n, z2)
    ensures Setting(p, n, z, z2, root, v, a, b, w)
  {
    SquareIsPositive(z, z2);
    v, a, b, w := p * (1.0 - p), n + z2, n * p + z2 / 2.0, z * (root * n);
    WSquared(p, n, z, z2, root, v, w);
  }

  // --- the score test ---

  /** How far x is from being accepted by the score test: at most zero for the proportions to keep. */
  function Excess(x: real, p: real, n: real, z2: real): real {
    n * (p - x) * (p - x) - z2 * x * (1.0 - x)
  }

  /** The test, with the square completed. */
  lemma Completed(x: real, p: real, v: real, n: real, z2: real, a: real, b: real, d: real, w2: real)
    requires v == p * (1.0 - p) && a == n + z2 && b == n * p + z2 / 2.0 && d == a * x - b
    requires w2 == z2 * (v * n + z2 / 4.0)
    ensures a * Excess(x, p, n, z2) == d * d - w2
  {
    var np := n * p;
    assert n * (p - x) * (p - x) == np * p - 2.0 * np * x + n * x * x;
    var q := a * x * x - 2.0 * b * x + np * p;
    assert Excess(x, p, n, z2) == q;
    assert a * q == a * a * x * x - 2.0 * a * b * x + a * np * p;
    assert b * b - w2 == a * np * p by {
      assert b * b == np * np + np * z2 + z2 * z2 / 4.0;
      assert v * n == np - np * p;
      assert w2 == z2 * np - z2 * np * p + z2 * z2 / 4.0;
      assert a * np * p == np * np + z2 * np * p;
    }
    assert (a * x - b) * (a * x - b) == a * a * x * x - 2.0 * a * b * x + b * b;
  }

  lemma MulLess(x: real, y: real, k: real)
    requires x < y && k > 0.0
    ensures x * k < y * k
  {
    PosProduct(y - x, k, (y - x) * k);
  }

  lemma Between(x: real, a: real, b: real, w: real)
    requires a > 0.0
    ensures b / a - w / a <= x <= b / a + w / a <==> -w <= a * x - b <= w
  {
    var c, m := b / a, w / a;
    assert c * a == b && m * a == w;
    var d := x - c;
    assert d * a == a * x - b;
    if d > m {
      MulLess(m, d, a);
    } else if d < m {
      MulLess(d, m, a);
    }
    assert (-m) * a == -w;
    if d < -m {
      MulLess(d, -m, a);
    } else if d > -m {
      MulLess(-m, d, a);
    }
  }

  lemma SignOfProduct(a: real, q: real, p: real)
    requires a > 0.0 && p == a * q
    ensures p <= 0.0 <==> q <= 0.0
  {
  }

  lemma SignOfSquares(a: real, q: real, d: real, w: real)
    requires a > 0.0 && w >= 0.0 && a * q == d * d - w * w
    ensures -w <= d <= w <==> q <= 0.0
  {
    SquareBound(d, w);
    SignOfProduct(a, q, a * q);
  }

  lemma BoundsFromSquares(x: real, a: real, b: real, w: real, d: real, e: real)
    requires a > 0.0 && w >= 0.0 && d == a * x - b && a * e == d * d - w * w
    ensures b / a - w / a <= x <= b / a + w / a <==> e <= 0.0
  {
    SignOfSquares(a, e, d, w);
    Between(x, a, b, w);
  }

  /** Before the clamps: between the bounds lie exactly the accepted proportions. */
  lemma BoundsIff(x: real, p: real, v: real, n: real, z2: real, a: real, b: real, w: real)
    requires n > 0.0 && z2 >= 0.0 && a == n + z2 && b == n * p + z2 / 2.0 && w >= 0.0
    requires v == p * (1.0 - p) && w * w == z2 * (v * n + z2 / 4.0)
    ensures b / a - w / a <= x <= b / a + w / a <==> Excess(x, p, n, z2) <= 0.0
  {
    Completed(x, p, v, n, z2, a, b, a * x - b, w * w);
    BoundsFromSquares(x, a, b, w, a * x - b, Excess(x, p, n, z2));
  }

  lemma EdgeSquare(e: real, a: real, d: real, w: real)
    requires a > 0.0 && d >= 0.0 && w >= 0.0 && e >= 0.0 && a * e == d * d - w * w
    ensures w <= d
  {
    NonNeg(a, e, a * e);
    SquareBound(w, d);
  }

  lemma EdgesWithin(a: real, b: real, w: real)
    requires a > 0.0 && w <= b && w <= a - b
    ensures 0.0 <= b / a - w / a && b / a + w / a <= 1.0
  {
    var c, m := b / a, w / a;
    assert c * a == b && m * a == w;
    var d, e := c - m, 1.0 - (c + m);
    assert d * a == b - w && e * a == a - b - w;
    SignOfProduct(a, -d, a * -d);
    SignOfProduct(a, -e, a * -e);
  }

  /** Both ends of the range fail the test or only just pass it. */
  lemma ExcessAtEnds(p: real, n: real, z2: real)
    requires n > 0.0
    ensures Excess(0.0, p, n, z2) >= 0.0 && Excess(1.0, p, n, z2) >= 0.0
  {
    var d := p - 1.0;
    var pp, dd := p * p, d * d;
    SquareIsPositive(p, pp);
    SquareIsPositive(d, dd);
    NonNeg(n, pp, n * pp);
    NonNeg(n, dd, n * dd);
    assert Excess(0.0, p, n, z2) == n * pp && Excess(1.0, p, n, z2) == n * dd;
  }

  lemma CentreWithin(p: real, n: real, z2: real, a: real, b: real)
    requires n > 0.0 && z2 >= 0.0 && 0.0 <= p <= 1.0 && a == n + z2 && b == n * p + z2 / 2.0
    ensures a > 0.0 && b >= 0.0 && a - b >= 0.0
  {
    NonNeg(n, p, n * p);
    NonNeg(n, 1.0 - p, n * (1.0 - p));
    assert n * (1.0 - p) == n - n * p;
  }

  lemma Edges(p: real, v: real, n: real, z2: real, a: real, b: real, w: real)
    requires n > 0.0 && z2 >= 0.0 && 0.0 <= p <= 1.0 && a == n + z2 && b == n * p + z2 / 2.0 && w >= 0.0
    requires v == p * (1.0 - p) && w * w == z2 * (v * n + z2 / 4.0)
    ensures 0.0 <= b / a - w / a && b / a + w / a <= 1.0
  {
    CentreWithin(p, n, z2, a, b);
    ExcessAtEnds(p, n, z2);
    Completed(0.0, p, v, n, z2, a, b, -b, w * w);
    assert (-b) * (-b) == b * b;
    EdgeSquare(Excess(0.0, p, n, z2), a, b, w);
    Completed(1.0, p, v, n, z2, a, b, a - b, w * w);
    EdgeSquare(Excess(1.0, p, n, z2), a, a - b, w);
    EdgesWithin(a, b, w);
  }

  /** The bounds of the interval over their common denominator: the clamps never move them. */
  lemma BoundsAre(p: real, n: real, z: real, z2: real, root: real, v: real, a: real, b: real, w: real)
    requires Setting(p, n, z, z2, root, v, a, b, w)
    ensures IntervalOf(p, n, z, z2, root) == Interval(b / a - w / a, b / a + w / a)
    ensures 0.0 <= b / a - w / a && b / a + w / a <= 1.0
  {
    CentreIs(p, n, z2, a, b);
    MarginIs(n, z, z2, root, a, w);
    Edges(p, v, n, z2, a, b, w);
  }

  lemma EstimatePasses(p: real, n: real, z2: real)
    requires 0.0 <= p <= 1.0 && z2 >= 0.0
    ensures Excess(p, p, n, z2) <= 0.0
  {
    var v := p * (1.0 - p);
    NonNeg(p, 1.0 - p, v);
    NonNeg(z2, v, z2 * v);
    assert z2 * p * (1.0 - p) == z2 * v;
  }

  // --- the interval of a count ---

  lemma ProportionRange(successes: nat, trials: nat)
    requires 0 < trials && successes <= trials
    ensures 0.0 <= Proportion(successes, trials) <= 1.0
  {
    var s, n := successes as real, trials as real;
    var p := s / n;
    assert p * n == s;
    SignOfProduct(n, -p, n * -p);
    SignOfProduct(n, p - 1.0, n * (p - 1.0));
    assert n * (p - 1.0) == s - n;
  }

  lemma SettleCount(successes: nat, trials: nat, z: real, root: real)
      returns (p: real, n: real, z2: real, v: real, a: real, b: real, w: real)
    requires 0 < trials && successes <= trials && z >= 0.0 && IsRoot(root, successes, trials, z)
    ensures p == Proportion(successes, trials) && n == trials as real && z2 == z * z
    ensures Setting(p, n, z, z2, root, v, a, b, w)
    ensures WilsonInterval(successes, trials, z, root) == IntervalOf(p, n, z, z2, root)
  {
    p, n, z2 := Proportion(successes, trials), trials as real, z * z;
    ProportionRange(successes, trials);
    v, a, b, w := Settle(p, n, z, z2, root);
  }

  /** The clamps never move a bound. */
  lemma ClampsAreIdle(successes: nat, trials: nat, z: real, root: real)
    requires 0 < trials && successes <= trials && z >= 0.0 && IsRoot(root, successes, trials, z)
    ensures z * z >= 0.0
    ensures var c := CentreOf(Proportion(successes, trials), trials as real, z * z);
            var m := MarginOf(trials as real, z, z * z, root);
            WilsonInterval(successes, trials, z, root) == Interval(c - m, c + m)
  {
    var p, n, z2, v, a, b, w := SettleCount(successes, trials, z, root);
    BoundsAre(p, n, z, z2, root, v, a, b, w);
    CentreIs(p, n, z2, a, b);
    MarginIs(n, z, z2, root, a, w);
  }

  /** The interval is the set of proportions that the score test keeps, it lies within 0 and 1 and it contains the
      estimate. */
  lemma IntervalIsScoreSet(successes: nat, trials: nat, z: real, root: real, x: real)
    requires 0 < trials && successes <= trials && z >= 0.0 && IsRoot(root, successes, trials, z)
    ensures var i, p := WilsonInterval(successes, trials, z, root), Proportion(successes, trials);
            (i.low <= x <= i.high <==> Excess(x, p, trials as real, z * z) <= 0.0) &&
            0.0 <= i.low <= p <= i.high <= 1.0
  {
    var p, n, z2, v, a, b, w := SettleCount(successes, trials, z, root);
    BoundsAre(p, n, z, z2, root, v, a, b, w);
    BoundsIff(x, p, v, n, z2, a, b, w);
    BoundsIff(p, p, v, n, z2, a, b, w);
    EstimatePasses(p, n, z2);
  }

  lemma ProportionMirrors(successes: nat, trials: nat)
    requires 0 < trials && successes <= trials
    ensures Proportion(trials - successes, trials) == 1.0 - Proportion(successes, trials)
  {
    var s, n := successes as real, trials as real;
    var p := s / n;
    assert p * n == s;
    assert (1.0 - p) * n == n - s;
    QuotientIs(n - s, n, 1.0 - p);
  }

  lemma BoundsMirror(a: real, b: real, c: real, w: real)
    requires a > 0.0 && c == a - b
    ensures c / a - w / a == 1.0 - (b / a + w / a) && c / a + w / a == 1.0 - (b / a - w / a)
  {
    var q := b / a;
    assert q * a == b;
    QuotientIs(c, a, 1.0 - q);
  }

  lemma VarianceMirrors(p: real, q: real)
    requires q == 1.0 - p
    ensures q * (1.0 - q) == p * (1.0 - p)
  {
    assert 1.0 - q == p;
  }

  lemma RootMirrors(root: real, p: real, n: real, z2: real)
    requires n > 0.0 && RootOf(root, p, n, z2)
    ensures RootOf(root, 1.0 - p, n, z2)
  {
    VarianceMirrors(p, 1.0 - p);
  }

  lemma SettingMirrors(p: real, n: real, z: real, z2: real, root: real, v: real, a: real, b: real, w: real)
    requires Setting(p, n, z, z2, root, v, a, b, w)
    ensures Setting(1.0 - p, n, z, z2, root, v, a, a - b, w)
  {
    VarianceMirrors(p, 1.0 - p);
    assert n * (1.0 - p) == n - n * p;
  }

  lemma IntervalMirrors(p: real, n: real, z: real, z2: real, root: real)
    requires n > 0.0 && z >= 0.0 && z2 == z * z && z2 >= 0.0 && 0.0 <= p <= 1.0 && RootOf(root, p, n, z2)
    ensures var i, j := IntervalOf(p, n, z, z2, root), IntervalOf(1.0 - p, n, z, z2, root);
            j.low == 1.0 - i.high && j.high == 1.0 - i.low
  {
    var v, a, b, w := Settle(p, n, z, z2, root);
    SettingMirrors(p, n, z, z2, root, v, a, b, w);
    BoundsAre(p, n, z, z2, root, v, a, b, w);
    BoundsAre(1.0 - p, n, z, z2, root, v, a, a - b, w);
    BoundsMirror(a, b, a - b, w);
  }

  /** Counting failures instead of successes mirrors the interval. */
  lemma Mirrors(successes: nat, trials: nat, z: real, root: real)
    requires 0 < trials && successes <= trials && z >= 0.0 && IsRoot(root, successes, trials, z)
    ensures IsRoot(root, trials - successes, trials, z)
    ensures var i, j := WilsonInterval(successes, trials, z, root), WilsonInterval(trials - successes, trials, z, root);
            j.low == 1.0 - i.high && j.high == 1.0 - i.low
  {
    ProportionMirrors(successes, trials);
    ProportionRange(successes, trials);
    SquareIsPositive(z, z * z);
    RootMirrors(root, Proportion(successes, trials), trials as real, z * z);
    IntervalMirrors(Proportion(successes, trials), trials as real, z, z * z, root);
  }

  // --- more trials ---

  function Width(i: Interval): real {
    i.high - i.low
  }

  lemma VarianceRange(p: real, v: real)
    requires 0.0 <= p <= 1.0 && v == p * (1.0 - p)
    ensures 0.0 <= v <= 0.25
  {
    NonNeg(p, 1.0 - p, v);
    var d := p - 0.5;
    var dd := d * d;
    SquareIsPositive(d, dd);
    assert dd == p * p - p + 0.25;
  }

  lemma RestPositive(v: real, z2: real, e: real)
    requires z2 > 0.0 && e == (0.25 - v) * z2 && 0.0 <= v <= 0.25
    ensures e >= 0.0 && (v > 0.0 || e > 0.0)
  {
    NonNeg(0.25 - v, z2, e);
    if v == 0.0 {
      PosProduct(0.25, z2, e);
    }
  }

  lemma SplitQuarter(v: real, m: real, z2: real, e: real)
    requires e == (0.25 - v) * z2
    ensures v * m + z2 / 4.0 == v * (m + z2) + e
  {
  }

  lemma CrossLess(v: real, e: real, a: real, b: real)
    requires v >= 0.0 && e >= 0.0 && (v > 0.0 || e > 0.0) && 0.0 < a < b
    ensures (v * b + e) * (a * a) < (v * a + e) * (b * b)
  {
    var ab, sum := a * b, a + b;
    PosProduct(a, b, ab);
    NonNeg(v, ab, v * ab);
    NonNeg(e, sum, e * sum);
    if v > 0.0 {
      PosProduct(v, ab, v * ab);
    } else {
      PosProduct(e, sum, e * sum);
    }
    var f := v * ab + e * sum;
    PosProduct(b - a, f, (b - a) * f);
    assert (b - a) * f == (b - a) * (v * ab) + (b - a) * (e * sum);
    assert (b - a) * (v * ab) == v * a * b * b - v * a * a * b;
    assert (b - a) * (e * sum) == e * b * b - e * a * a;
    assert (v * a + e) * (b * b) == v * a * b * b + e * b * b;
    assert (v * b + e) * (a * a) == v * a * a * b + e * a * a;
  }

  lemma SquaresLess(w1: real, w2: real, a: real, b: real, z2: real, x: real, y: real)
    requires w1 >= 0.0 && w2 >= 0.0 && a > 0.0 && b > 0.0 && z2 > 0.0
    requires w1 * w1 == z2 * x && w2 * w2 == z2 * y && y * (a * a) < x * (b * b)
    ensures w2 * a < w1 * b
  {
    SquareOfTwo(w1, b, z2 * x, b * b);
    SquareOfTwo(w2, a, z2 * y, a * a);
    MulLess(y * (a * a), x * (b * b), z2);
    assert z2 * x * (b * b) == x * (b * b) * z2 && z2 * y * (a * a) == y * (a * a) * z2;
    NonNeg(w1, b, w1 * b);
    NonNeg(w2, a, w2 * a);
    SquareBound(w1 * b, w2 * a);
  }

  /** The squared margins, cross multiplied. */
  lemma Narrows(v: real, m1: real, m2: real, z2: real, w1: real, w2: real)
    requires 0.0 <= v <= 0.25 && 0.0 < m1 < m2 && z2 > 0.0 && w1 >= 0.0 && w2 >= 0.0
    requires w1 * w1 == z2 * (v * m1 + z2 / 4.0) && w2 * w2 == z2 * (v * m2 + z2 / 4.0)
    ensures w2 * (m1 + z2) < w1 * (m2 + z2)
  {
    var a, b, e := m1 + z2, m2 + z2, (0.25 - v) * z2;
    RestPositive(v, z2, e);
    SplitQuarter(v, m1, z2, e);
    SplitQuarter(v, m2, z2, e);
    CrossLess(v, e, a, b);
    SquaresLess(w1, w2, a, b, z2, v * a + e, v * b + e);
  }

  lemma DivideBoth(w1: real, w2: real, a: real, b: real)
    requires a > 0.0 && b > 0.0 && w2 * a < w1 * b
    ensures w2 / b < w1 / a
  {
    var q1, q2, ab := w1 / a, w2 / b, a * b;
    PosProduct(a, b, ab);
    assert q1 * a == w1 && q2 * b == w2;
    assert w2 * a == q2 * ab && w1 * b == q1 * ab;
    if q2 > q1 {
      MulLess(q1, q2, ab);
    }
  }

  lemma IntervalNarrows(p: real, z: real, z2: real, n1: real, root1: real, n2: real, root2: real)
    requires 0.0 < n1 < n2 && z > 0.0 && z2 == z * z && z2 > 0.0 && 0.0 <= p <= 1.0
    requires RootOf(root1, p, n1, z2) && RootOf(root2, p, n2, z2)
    ensures Width(IntervalOf(p, n2, z, z2, root2)) < Width(IntervalOf(p, n1, z, z2, root1))
  {
    var v, a1, b1, w1 := Settle(p, n1, z, z2, root1);
    var v2, a2, b2, w2 := Settle(p, n2, z, z2, root2);
    BoundsAre(p, n1, z, z2, root1, v, a1, b1, w1);
    BoundsAre(p, n2, z, z2, root2, v2, a2, b2, w2);
    VarianceRange(p, v);
    assert v2 == v;
    assert w1 * w1 == z2 * (v * n1 + z2 / 4.0);
    assert w2 * w2 == z2 * (v * n2 + z2 / 4.0);
    Narrows(v, n1, n2, z2, w1, w2);
    DivideBoth(w1, w2, a1, a2);
  }

  /** More trials at the same proportion give a strictly narrower interval. */
  lemma MoreTrialsNarrow(s1: nat, n1: nat, root1: real, s2: nat, n2: nat, root2: real, z: real)
    requires 0 < n1 < n2 && s1 <= n1 && s2 <= n2 && z > 0.0 && Proportion(s1, n1) == Proportion(s2, n2)
    requires IsRoot(root1, s1, n1, z) && IsRoot(root2, s2, n2, z)
    ensures Width(WilsonInterval(s2, n2, z, root2)) < Width(WilsonInterval(s1, n1, z, root1))
  {
    ProportionRange(s1, n1);
    SquareIsPositive(z, z * z);
    IntervalNarrows(Proportion(s1, n1), z, z * z, n1 as real, root1, n2 as real, root2);
  }
}
