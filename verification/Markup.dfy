/** `solve_markup` of `scripts/gate_power_study.py`: the mark-up that gives the marked
    returns a wanted per-trade Sharpe ratio, in exact arithmetic. */
module Markup {
  import opened Sequences

  const CUTOFF: real := 0.000000000000001

  // ---------------------------------------------------------------- moments

  function Mean(s: seq<real>): real
    requires s != []
  {
    Sum(s) / |s| as real
  }

  /** Products of the deviations from c and d; their sum over n is a population moment. */
  function Products(s: seq<real>, c: real, t: seq<real>, d: real): (p: seq<real>)
    requires |s| == |t|
    ensures |p| == |s|
  {
    seq(|s|, i requires 0 <= i < |s| => (s[i] - c) * (t[i] - d))
  }

  function SampleVariance(s: seq<real>): real
    requires |s| >= 2
  {
    Sum(Products(s, Mean(s), s, Mean(s))) / (|s| - 1) as real
  }

  function Overlay(r: seq<real>, x: seq<real>, m: real): (o: seq<real>)
    requires |r| == |x|
    ensures |o| == |r|
  {
    seq(|r|, i requires 0 <= i < |r| => r[i] + m * x[i])
  }

  /** The Sharpe ratio of the marked returns is +sr: their mean is not negative, and its
      square is sr squared times their sample variance. */
  ghost predicate Hits(r: seq<real>, x: seq<real>, sr: real, m: real)
    requires |r| == |x| >= 2
  {
    var o := Overlay(r, x, m);
    Mean(o) >= 0.0 && Mean(o) * Mean(o) == sr * sr * SampleVariance(o)
  }

  lemma CombineStep(z: real, u: real, p: real, w: real, f: real, g: real, su: real, sp: real, sw: real)
    requires z == u + f * p + g * w
    ensures z + (su + f * sp + g * sw) == (u + su) + f * (p + sp) + g * (w + sw)
  {
    assert f * (p + sp) == f * p + f * sp;
    assert g * (w + sw) == g * w + g * sw;
  }

  /** Entry by entry, z is u plus f times p plus g times w. */
  ghost predicate Combines(z: seq<real>, u: seq<real>, p: seq<real>, w: seq<real>, f: real, g: real) {
    && |z| == |u| == |p| == |w|
    && (z != [] ==> z[0] == u[0] + f * p[0] + g * w[0] && Combines(z[1..], u[1..], p[1..], w[1..], f, g))
  }

  lemma {:induction false} CombinesWhenAll(z: seq<real>, u: seq<real>, p: seq<real>, w: seq<real>, f: real, g: real)
    requires |z| == |u| == |p| == |w|
    requires forall i :: 0 <= i < |z| ==> z[i] == u[i] + f * p[i] + g * w[i]
    ensures Combines(z, u, p, w, f, g)
  {
    if z != [] {
      CombinesWhenAll(z[1..], u[1..], p[1..], w[1..], f, g);
    }
  }

  /** A linear combination, element by element, sums to the combination of the sums. */
  lemma {:induction false} SumCombination(z: seq<real>, u: seq<real>, p: seq<real>, w: seq<real>, f: real, g: real)
    requires Combines(z, u, p, w, f, g)
    ensures Sum(z) == Sum(u) + f * Sum(p) + g * Sum(w)
  {
    if z != [] {
      SumCombination(z[1..], u[1..], p[1..], w[1..], f, g);
      CombineStep(z[0], u[0], p[0], w[0], f, g, Sum(u[1..]), Sum(p[1..]), Sum(w[1..]));
    }
  }

  lemma OverlayCombines(r: seq<real>, x: seq<real>, m: real, g: real)
    requires |r| == |x| && g == 0.0
    ensures Combines(Overlay(r, x, m), r, x, x, m, g)
  {
    forall i | 0 <= i < |r| ensures Overlay(r, x, m)[i] == r[i] + m * x[i] + g * x[i] {
      assert Overlay(r, x, m)[i] == r[i] + m * x[i];
      TimesZero(g, x[i]);
    }
    CombinesWhenAll(Overlay(r, x, m), r, x, x, m, g);
  }

  lemma TimesZero(g: real, x: real)
    requires g == 0.0
    ensures g * x == 0.0
  {
  }

  lemma OverlaySum(r: seq<real>, x: seq<real>, m: real)
    requires |r| == |x|
    ensures Sum(Overlay(r, x, m)) == Sum(r) + m * Sum(x)
  {
    var g := 0.0;
    OverlayCombines(r, x, m, g);
    SumCombination(Overlay(r, x, m), r, x, x, m, g);
    TimesZero(g, Sum(x));
  }

  lemma OverlayDevAt(
    r: seq<real>, a: real, x: seq<real>, b: real, o: seq<real>, m: real, mu: real, f: real, g: real, i: nat)
    requires i < |r| == |x| == |o| && o[i] == r[i] + m * x[i]
    requires mu == a + m * b && f == 2.0 * m && g == m * m
    ensures Products(o, mu, o, mu)[i]
            == Products(r, a, r, a)[i] + f * Products(r, a, x, b)[i] + g * Products(x, b, x, b)[i]
  {
    DeviationSquared(r[i], a, x[i], b, m, o[i], mu, f, g);
    assert Products(o, mu, o, mu)[i] == (o[i] - mu) * (o[i] - mu);
  }

  lemma OverlayDevCombines(r: seq<real>, a: real, x: seq<real>, b: real, m: real, mu: real, f: real, g: real)
    requires |r| == |x| && mu == a + m * b && f == 2.0 * m && g == m * m
    ensures var o := Overlay(r, x, m);
            Combines(Products(o, mu, o, mu), Products(r, a, r, a), Products(r, a, x, b), Products(x, b, x, b), f, g)
  {
    var o := Overlay(r, x, m);
    var z, u, p, w := Products(o, mu, o, mu), Products(r, a, r, a), Products(r, a, x, b), Products(x, b, x, b);
    forall i | 0 <= i < |z| ensures z[i] == u[i] + f * p[i] + g * w[i] {
      OverlayDevAt(r, a, x, b, o, m, mu, f, g, i);
    }
    CombinesWhenAll(z, u, p, w, f, g);
  }

  lemma OverlayDev(r: seq<real>, a: real, x: seq<real>, b: real, m: real, mu: real, f: real, g: real)
    requires |r| == |x| && mu == a + m * b && f == 2.0 * m && g == m * m
    ensures var o := Overlay(r, x, m);
            Sum(Products(o, mu, o, mu))
            == Sum(Products(r, a, r, a)) + f * Sum(Products(r, a, x, b)) + g * Sum(Products(x, b, x, b))
  {
    var o := Overlay(r, x, m);
    var z, u, p, w := Products(o, mu, o, mu), Products(r, a, r, a), Products(r, a, x, b), Products(x, b, x, b);
    OverlayDevCombines(r, a, x, b, m, mu, f, g);
    SumCombination(z, u, p, w, f, g);
  }

  lemma DeviationSquared(r: real, a: real, x: real, b: real, m: real, o: real, mu: real, f: real, g: real)
    requires o == r + m * x && mu == a + m * b && f == 2.0 * m && g == m * m
    ensures (o - mu) * (o - mu) == (r - a) * (r - a) + f * ((r - a) * (x - b)) + g * ((x - b) * (x - b))
  {
    var p, q := r - a, x - b;
    assert o - mu == p + m * q by {
      assert m * q == m * x - m * b;
    }
    Square(p, q, m);
  }

  lemma Square(p: real, q: real, m: real)
    ensures (p + m * q) * (p + m * q) == p * p + 2.0 * m * (p * q) + m * m * (q * q)
  {
  }

  // ---------------------------------------------------------------- the quadratic

  /** Moments of the returns and the mark, and the coefficients built from them. */
  datatype Quadratic = Quadratic(a: real, b: real, qa: real, qb: real, qc: real)

  /** From the means, the population moments v, w and cov, and the wanted ratio. */
  function CoefficientsFrom(n: real, a: real, b: real, v: real, w: real, cov: real, sr: real): Quadratic
    requires n > 1.0
  {
    var k := n / (n - 1.0);
    Quadratic(a, b, b * b - sr * sr * k * w, 2.0 * a * b - 2.0 * sr * sr * k * cov, a * a - sr * sr * k * v)
  }

  function Coefficients(r: seq<real>, x: seq<real>, sr: real): Quadratic
    requires |r| == |x| >= 2
  {
    var n, a, b := |r| as real, Mean(r), Mean(x);
    CoefficientsFrom(
      n, a, b,
      Sum(Products(r, a, r, a)) / n, Sum(Products(x, b, x, b)) / n, Sum(Products(r, a, x, b)) / n, sr)
  }

  function At(q: Quadratic, m: real): real {
    q.qa * m * m + q.qb * m + q.qc
  }

  predicate Root(q: Quadratic, m: real) {
    q.a + m * q.b >= 0.0 && At(q, m) == 0.0
  }

  lemma Regroup(a: real, b: real, s: real, v: real, c: real, w: real, m: real)
    ensures (a + m * b) * (a + m * b) - s * (v + 2.0 * m * c + m * m * w)
            == (b * b - s * w) * m * m + (2.0 * a * b - 2.0 * s * c) * m + (a * a - s * v)
  {
    Square(a, b, m);
    assert s * (v + 2.0 * m * c + m * m * w) == s * v + 2.0 * (s * c) * m + (s * w) * m * m;
    assert (b * b - s * w) * m * m == b * b * m * m - (s * w) * m * m;
    assert (2.0 * a * b - 2.0 * s * c) * m == 2.0 * a * b * m - 2.0 * (s * c) * m;
    assert 2.0 * m * (a * b) == 2.0 * a * b * m;
    assert m * m * (b * b) == b * b * m * m;
  }

  /** n/(n-1) turns a population moment into a sample one. */
  lemma SampleScale(d: real, n: real)
    requires n > 1.0
    ensures n / (n - 1.0) * (d / n) == d / (n - 1.0)
  {
    assert n / (n - 1.0) * (d / n) == (n * d) / ((n - 1.0) * n);
  }

  lemma MeanSplit(p: real, q: real, m: real, n: real)
    requires n > 0.0
    ensures (p + m * q) / n == p / n + m * (q / n)
  {
  }

  lemma ScaledMoments(s: real, v: real, c: real, w: real, n: real, m: real)
    requires n > 1.0
    ensures s * (n / (n - 1.0)) * (v / n + 2.0 * m * (c / n) + m * m * (w / n))
            == s * ((v + 2.0 * m * c + m * m * w) / (n - 1.0))
  {
    var d := v + 2.0 * m * c + m * m * w;
    assert v / n + 2.0 * m * (c / n) + m * m * (w / n) == d / n;
    SampleScale(d, n);
    assert s * (n / (n - 1.0)) * (d / n) == s * (n / (n - 1.0) * (d / n));
  }

  lemma OverlayMean(r: seq<real>, x: seq<real>, m: real)
    requires |r| == |x| >= 2
    ensures Mean(Overlay(r, x, m)) == Mean(r) + m * Mean(x)
  {
    var n, p, q := |r| as real, Sum(r), Sum(x);
    OverlaySum(r, x, m);
    assert Mean(Overlay(r, x, m)) == (p + m * q) / n;
    MeanSplit(p, q, m, n);
  }

  lemma RootEquation(n: real, a: real, b: real, v: real, w: real, c: real, sr: real, m: real)
    requires n > 1.0
    ensures (a + m * b) * (a + m * b) - sr * sr * (n / (n - 1.0)) * (v + 2.0 * m * c + m * m * w)
            == At(CoefficientsFrom(n, a, b, v, w, c, sr), m)
  {
    var k := n / (n - 1.0);
    Associate(sr, k, c);
    Regroup(a, b, sr * sr * k, v, c, w, m);
  }

  lemma Associate(sr: real, k: real, c: real)
    ensures 2.0 * sr * sr * k * c == 2.0 * (sr * sr * k) * c
  {
  }

  lemma SameQuotient(d: real, e: real, n: real)
    requires d == e && n != 0.0
    ensures d / n == e / n
  {
  }

  /** The spread of the marked returns, their own mean being mu. */
  lemma OverlayDeviation(r: seq<real>, x: seq<real>, m: real, a: real, b: real, mu: real, n: real, f: real, g: real)
    requires |r| == |x| >= 2 && n == |r| as real && mu == a + m * b && Mean(Overlay(r, x, m)) == mu
    requires f == 2.0 * m && g == m * m
    ensures SampleVariance(Overlay(r, x, m))
            == (Sum(Products(r, a, r, a)) + f * Sum(Products(r, a, x, b)) + g * Sum(Products(x, b, x, b))) / (n - 1.0)
  {
    var o := Overlay(r, x, m);
    OverlayDev(r, a, x, b, m, mu, f, g);
    assert (|o| - 1) as real == n - 1.0;
    SameQuotient(
      Sum(Products(o, mu, o, mu)),
      Sum(Products(r, a, r, a)) + f * Sum(Products(r, a, x, b)) + g * Sum(Products(x, b, x, b)), n - 1.0);
  }

  lemma Excess(n: real, a: real, b: real, v: real, w: real, c: real, sr: real, m: real, mu: real, variance: real)
    requires n > 1.0 && mu == a + m * b && variance == (v + 2.0 * m * c + m * m * w) / (n - 1.0)
    ensures mu * mu - sr * sr * variance == At(CoefficientsFrom(n, a, b, v / n, w / n, c / n, sr), m)
  {
    var scaled := v / n + 2.0 * m * (c / n) + m * m * (w / n);
    calc {
      sr * sr * variance;
      (sr * sr) * ((v + 2.0 * m * c + m * m * w) / (n - 1.0));
      { ScaledMoments(sr * sr, v, c, w, n, m); }
      (sr * sr) * (n / (n - 1.0)) * scaled;
    }
    assert mu * mu == (a + m * b) * (a + m * b);
    RootEquation(n, a, b, v / n, w / n, c / n, sr, m);
  }

  lemma ExcessAround(r: seq<real>, x: seq<real>, sr: real, m: real, a: real, b: real, n: real, mu: real)
    requires |r| == |x| >= 2 && n == |r| as real && mu == a + m * b && Mean(Overlay(r, x, m)) == mu
    ensures mu * mu - sr * sr * SampleVariance(Overlay(r, x, m))
            == At(CoefficientsFrom(
                    n, a, b,
                    Sum(Products(r, a, r, a)) / n, Sum(Products(x, b, x, b)) / n, Sum(Products(r, a, x, b)) / n, sr), m)
  {
    OverlayDeviation(r, x, m, a, b, mu, n, 2.0 * m, m * m);
    Excess(
      n, a, b, Sum(Products(r, a, r, a)), Sum(Products(x, b, x, b)), Sum(Products(r, a, x, b)),
      sr, m, mu, SampleVariance(Overlay(r, x, m)));
  }

  lemma OverlayExcess(r: seq<real>, x: seq<real>, sr: real, m: real)
    requires |r| == |x| >= 2
    ensures var o, q := Overlay(r, x, m), Coefficients(r, x, sr);
            && Mean(o) == q.a + m * q.b
            && Mean(o) * Mean(o) - sr * sr * SampleVariance(o) == At(q, m)
  {
    OverlayMean(r, x, m);
    ExcessAround(r, x, sr, m, Mean(r), Mean(x), |r| as real, Mean(Overlay(r, x, m)));
  }

  lemma Balance(square: real, target: real, at: real)
    requires square - target == at
    ensures square == target <==> at == 0.0
  {
  }

  /** Hitting the ratio and solving the quadratic are the same thing. */
  lemma HitsIsRoot(r: seq<real>, x: seq<real>, sr: real, m: real)
    requires |r| == |x| >= 2
    ensures Hits(r, x, sr, m) <==> Root(Coefficients(r, x, sr), m)
  {
    var o := Overlay(r, x, m);
    OverlayExcess(r, x, sr, m);
    Balance(Mean(o) * Mean(o), sr * sr * SampleVariance(o), At(Coefficients(r, x, sr), m));
  }

  // ---------------------------------------------------------------- the solver

  function Abs(m: real): real {
    if m < 0.0 then -m else m
  }

  /** `math.sqrt`, exact. */
  ghost predicate IsSqrt(sqrt: real -> real) {
    forall d: real :: d >= 0.0 ==> sqrt(d) >= 0.0 && sqrt(d) * sqrt(d) == d
  }

  function Discriminant(q: Quadratic): real {
    q.qb * q.qb - 4.0 * q.qa * q.qc
  }

  /** `sorted({(-qb - root) / (2 qa), (-qb + root) / (2 qa)})`. */
  function TwoRoots(q: Quadratic, root: real): seq<real>
    requires q.qa != 0.0
  {
    var lo, hi := (-q.qb - root) / (2.0 * q.qa), (-q.qb + root) / (2.0 * q.qa);
    if lo == hi then [lo] else if lo < hi then [lo, hi] else [hi, lo]
  }

  /** The roots the code considers: one if it takes the equation for linear. */
  function Roots(q: Quadratic, sqrt: real -> real): seq<real> {
    if Abs(q.qa) < CUTOFF then
      if q.qb != 0.0 then [-q.qc / q.qb] else []
    else if Discriminant(q) < 0.0 then []
    else TwoRoots(q, sqrt(Discriminant(q)))
  }

  function NotNegative(q: Quadratic, roots: seq<real>): seq<real> {
    if roots == [] then []
    else (if q.a + roots[0] * q.b >= 0.0 then [roots[0]] else []) + NotNegative(q, roots[1..])
  }

  /** `min(valid, key=abs)`: the first of least magnitude. */
  function MinAbs(s: seq<real>): real
    requires s != []
  {
    if |s| == 1 then s[0]
    else
      var rest := MinAbs(s[1..]);
      if Abs(s[0]) <= Abs(rest) then s[0] else rest
  }

  function Pick(valid: seq<real>): Result<real> {
    if valid == [] then Err("no mark-up reaches the per-trade Sharpe") else Ok(MinAbs(valid))
  }

  function SolveMarkup(r: seq<real>, x: seq<real>, sr: real, sqrt: real -> real): (result: Result<real>)
    requires |r| == |x|
    ensures |r| < 2 || sr < 0.0 || Mean(x) <= 0.0 ==> result.Err?
    ensures result.Ok? ==> Mean(r) + result.value * Mean(x) >= 0.0
  {
    if |r| < 2 then Err("a per-trade Sharpe needs at least two trades")
    else if sr < 0.0 then Err("sr must be non-negative")
    else if Mean(x) <= 0.0 then Err("no trade carries the mark-up")
    else if sr == 0.0 then
      NullMean(Mean(r), Mean(x));
      Ok(-Mean(r) / Mean(x))
    else
      SolveRatio(r, x, sr, sqrt)
  }

  /** The answer for a positive ratio. */
  function SolveRatio(r: seq<real>, x: seq<real>, sr: real, sqrt: real -> real): (result: Result<real>)
    requires |r| == |x| >= 2
    ensures result == SolveQuadratic(Coefficients(r, x, sr), sqrt)
    ensures result.Ok? ==> Mean(r) + result.value * Mean(x) >= 0.0
  {
    var q := Coefficients(r, x, sr);
    assert q.a == Mean(r) && q.b == Mean(x);
    SolveQuadratic(q, sqrt)
  }

  /** The same from the coefficients. */
  function SolveQuadratic(q: Quadratic, sqrt: real -> real): (result: Result<real>)
    ensures result.Ok? ==> q.a + result.value * q.b >= 0.0
  {
    var valid := NotNegative(q, Roots(q, sqrt));
    PickNotNegative(q, Roots(q, sqrt));
    Pick(valid)
  }

  lemma NullMean(a: real, b: real)
    requires b > 0.0
    ensures a + (-a / b) * b == 0.0
  {
  }

  /** Whatever is picked leaves the mean non-negative. */
  lemma PickNotNegative(q: Quadratic, roots: seq<real>)
    ensures var result := Pick(NotNegative(q, roots)); result.Ok? ==> q.a + result.value * q.b >= 0.0
  {
    var valid := NotNegative(q, roots);
    NotNegativeKeeps(q, roots);
    if valid != [] {
      MinAbsLeast(valid);
    }
  }

  // ---------------------------------------------------------------- when the answer is exact

  lemma {:induction false} MinAbsLeast(s: seq<real>)
    requires s != []
    ensures MinAbs(s) in s && forall m :: m in s ==> Abs(MinAbs(s)) <= Abs(m)
    ensures Rising(s) && MinAbs(s) > 0.0 ==> -MinAbs(s) !in s
  {
    if |s| > 1 {
      MinAbsLeast(s[1..]);
      assert s == [s[0]] + s[1..];
    }
  }

  ghost predicate Rising(s: seq<real>) {
    forall i, j :: 0 <= i < j < |s| ==> s[i] < s[j]
  }

  lemma NotNegativeRising(q: Quadratic, roots: seq<real>)
    requires Rising(roots) && |roots| <= 2
    ensures Rising(NotNegative(q, roots))
  {
    if |roots| == 2 {
      assert roots[1..][1..] == [];
      assert NotNegative(q, roots[1..]) == if q.a + roots[1] * q.b >= 0.0 then [roots[1]] else [];
    } else if |roots| == 1 {
      assert NotNegative(q, roots[1..]) == [];
    }
  }

  lemma {:induction false} NotNegativeKeeps(q: Quadratic, roots: seq<real>)
    ensures forall m :: m in NotNegative(q, roots) <==> m in roots && q.a + m * q.b >= 0.0
  {
    if roots != [] {
      NotNegativeKeeps(q, roots[1..]);
      assert roots == [roots[0]] + roots[1..];
    }
  }

  /** 4 qa times the quadratic is a square less the discriminant. */
  lemma CompleteSquare(q: Quadratic, m: real)
    ensures 4.0 * q.qa * At(q, m) == (2.0 * q.qa * m + q.qb) * (2.0 * q.qa * m + q.qb) - Discriminant(q)
  {
    var t := 2.0 * q.qa * m;
    assert (t + q.qb) * (t + q.qb) == t * t + 2.0 * t * q.qb + q.qb * q.qb;
    assert t * t == 4.0 * q.qa * (q.qa * m * m);
    assert 2.0 * t * q.qb == 4.0 * q.qa * (q.qb * m);
    assert 4.0 * q.qa * At(q, m) == 4.0 * q.qa * (q.qa * m * m) + 4.0 * q.qa * (q.qb * m) + 4.0 * q.qa * q.qc;
  }

  lemma EqualSquares(u: real, v: real)
    ensures u * u == v * v <==> u == v || u == -v
  {
    assert u * u - v * v == (u - v) * (u + v);
  }

  lemma ZeroProduct(u: real, v: real)
    requires u != 0.0
    ensures u * v == 0.0 <==> v == 0.0
  {
  }

  lemma SolveFor(qa: real, qb: real, root: real, m: real)
    requires qa != 0.0
    ensures 2.0 * qa * m + qb == root <==> m == (-qb + root) / (2.0 * qa)
  {
    var d := 2.0 * qa;
    assert d != 0.0;
    assert m == (-qb + root) / d <==> d * m == -qb + root;
  }

  lemma SquareNonNegative(u: real)
    ensures u * u >= 0.0
  {
  }

  /** Twice qa times m, plus qb: the quantity whose square a root fixes. */
  function Shifted(q: Quadratic, m: real): real {
    2.0 * q.qa * m + q.qb
  }

  lemma ZeroIsSquare(q: Quadratic, m: real)
    requires q.qa != 0.0
    ensures At(q, m) == 0.0 <==> Shifted(q, m) * Shifted(q, m) == Discriminant(q)
  {
    CompleteSquare(q, m);
    ZeroProduct(4.0 * q.qa, At(q, m));
  }

  lemma TwoRootsMembers(q: Quadratic, root: real, m: real)
    requires q.qa != 0.0
    ensures m in TwoRoots(q, root) <==> Shifted(q, m) == root || Shifted(q, m) == -root
  {
    SolveFor(q.qa, q.qb, root, m);
    SolveFor(q.qa, q.qb, -root, m);
    assert -q.qb - root == -q.qb + -root;
  }

  /** Away from qa = 0 the two-root formula finds every zero of the quadratic. */
  lemma TwoRootsComplete(q: Quadratic, sqrt: real -> real, m: real)
    requires q.qa != 0.0 && IsSqrt(sqrt)
    ensures At(q, m) == 0.0 <==> Discriminant(q) >= 0.0 && m in TwoRoots(q, sqrt(Discriminant(q)))
  {
    var d := Discriminant(q);
    ZeroIsSquare(q, m);
    SquareNonNegative(Shifted(q, m));
    if d >= 0.0 {
      var root := sqrt(d);
      assert root * root == d;
      EqualSquares(Shifted(q, m), root);
      TwoRootsMembers(q, root, m);
    }
  }

  /** The mean is never negative at the root of the linear equation the code solves. */
  predicate LinearRootValid(q: Quadratic) {
    q.qb != 0.0 && q.a + (-q.qc / q.qb) * q.b >= 0.0
  }

  /** The mark-up that brings the mean to zero: below it the Sharpe ratio is negative. */
  function ZeroMean(q: Quadratic): real
    requires q.b > 0.0
  {
    -q.a / q.b
  }

  /** A downward parabola that stays below zero from the zero-mean mark-up on. */
  predicate NeverReached(q: Quadratic)
    requires q.b > 0.0
  {
    var z := ZeroMean(q);
    q.qa < 0.0 && (Discriminant(q) < 0.0 || (Shifted(q, z) < 0.0 && At(q, z) < 0.0))
  }

  /** When the code's answer is the true one, by the signs of the coefficients alone. The
      uncut formula always is; a vanishing leading coefficient is, unless the whole equation
      vanishes; a coefficient that is tiny but not zero is dropped harmlessly only if the
      answer is no mark-up at all, or if the linear equation has no answer and the parabola
      opens downward and never reaches zero. */
  predicate Precise(q: Quadratic)
    requires q.b > 0.0
  {
    if q.qa <= -0.000000000000001 || 0.000000000000001 <= q.qa then true
    else if q.qa == 0.0 then q.qb != 0.0 || q.qc != 0.0
    else if LinearRootValid(q) then q.qc == 0.0
    else NeverReached(q)
  }

  /** The result is the mark-up of least magnitude that hits the ratio, the negative one of two, or
      a refusal when none does. */
  ghost predicate Correct(r: seq<real>, x: seq<real>, sr: real, result: Result<real>)
    requires |r| == |x| >= 2
  {
    match result
    case Ok(m) =>
      && Hits(r, x, sr, m)
      && (forall m' :: Hits(r, x, sr, m') ==> m' <= m <= -m' || -m' <= m <= m')
      && (m > 0.0 ==> !Hits(r, x, sr, -m))
    case Err(_) => forall m' :: !Hits(r, x, sr, m')
  }

  ghost predicate Answers(q: Quadratic, result: Result<real>) {
    match result
    case Ok(m) =>
      && Root(q, m)
      && (forall m' :: Root(q, m') ==> m' <= m <= -m' || -m' <= m <= m')
      && (m > 0.0 ==> !Root(q, -m))
    case Err(_) => forall m' :: !Root(q, m')
  }

  lemma CorrectIsAnswers(r: seq<real>, x: seq<real>, sr: real, result: Result<real>)
    requires |r| == |x| >= 2
    ensures Correct(r, x, sr, result) <==> Answers(Coefficients(r, x, sr), result)
  {
    forall m ensures Hits(r, x, sr, m) <==> Root(Coefficients(r, x, sr), m) {
      HitsIsRoot(r, x, sr, m);
    }
  }

  lemma PickAnswers(q: Quadratic, valid: seq<real>)
    requires Rising(valid) && forall m :: Root(q, m) <==> m in valid
    ensures Answers(q, Pick(valid))
  {
    if valid != [] {
      MinAbsLeast(valid);
    }
  }

  lemma LinearZero(q: Quadratic, m: real)
    requires q.qa == 0.0 && q.qb != 0.0
    ensures At(q, m) == 0.0 <==> m == -q.qc / q.qb
  {
    assert At(q, m) == q.qb * m + q.qc;
  }

  /** At the linear equation's root only the dropped term is left. */
  lemma DroppedTerm(q: Quadratic, m: real)
    requires q.qa != 0.0 && q.qb != 0.0 && q.qb * m == -q.qc
    ensures At(q, m) == 0.0 <==> q.qc == 0.0
  {
    assert At(q, m) == q.qa * m * m;
    if q.qc != 0.0 {
      NonZeroProduct(q.qa, m, At(q, m));
    } else {
      ZeroProduct(q.qb, m);
    }
  }

  lemma NonZeroProduct(u: real, m: real, t: real)
    requires u != 0.0 && m != 0.0 && t == u * m * m
    ensures t != 0.0
  {
    ZeroProduct(u, m);
    ZeroProduct(u * m, m);
  }

  lemma CutRoots(q: Quadratic, sqrt: real -> real, m: real)
    requires Abs(q.qa) >= CUTOFF && IsSqrt(sqrt)
    ensures At(q, m) == 0.0 <==> m in Roots(q, sqrt)
  {
    TwoRootsComplete(q, sqrt, m);
  }

  lemma CutValid(q: Quadratic, sqrt: real -> real, m: real)
    requires Abs(q.qa) >= CUTOFF && IsSqrt(sqrt)
    ensures Root(q, m) <==> m in NotNegative(q, Roots(q, sqrt))
  {
    CutRoots(q, sqrt, m);
    NotNegativeKeeps(q, Roots(q, sqrt));
  }

  lemma SolveCut(q: Quadratic, sqrt: real -> real)
    requires Abs(q.qa) >= CUTOFF && IsSqrt(sqrt)
    ensures Answers(q, SolveQuadratic(q, sqrt))
  {
    var valid := NotNegative(q, Roots(q, sqrt));
    forall m ensures Root(q, m) <==> m in valid {
      CutValid(q, sqrt, m);
    }
    NotNegativeRising(q, Roots(q, sqrt));
    PickAnswers(q, valid);
  }

  lemma SolveLinear(q: Quadratic, sqrt: real -> real)
    requires q.qa == 0.0 && q.b > 0.0
    ensures Answers(q, SolveQuadratic(q, sqrt)) <==> q.qb != 0.0 || q.qc != 0.0
  {
    var roots := Roots(q, sqrt);
    NotNegativeKeeps(q, roots);
    if q.qb != 0.0 {
      forall m ensures Root(q, m) <==> m in NotNegative(q, roots) {
        LinearZero(q, m);
      }
      NotNegativeRising(q, roots);
      PickAnswers(q, NotNegative(q, roots));
    } else {
      assert NotNegative(q, roots) == [];
      if q.qc == 0.0 {
        var m := -q.a / q.b;
        assert Root(q, m);
      }
    }
  }

  // ---------------------------------------------------------------- at the zero-mean mark-up

  lemma {:induction false} SumNotNegative(s: seq<real>)
    requires forall i :: 0 <= i < |s| ==> s[i] >= 0.0
    ensures Sum(s) >= 0.0
  {
    if s != [] {
      SumNotNegative(s[1..]);
    }
  }

  lemma VarianceNotNegative(s: seq<real>)
    requires |s| >= 2
    ensures SampleVariance(s) >= 0.0
  {
    var c := Mean(s);
    var p := Products(s, c, s, c);
    forall i | 0 <= i < |p| ensures p[i] >= 0.0 {
      SquareNonNegative(s[i] - c);
    }
    SumNotNegative(p);
    QuotientNotNegative(Sum(Products(s, c, s, c)), (|s| - 1) as real);
  }

  lemma QuotientNotNegative(d: real, n: real)
    requires d >= 0.0 && n > 0.0
    ensures d / n >= 0.0
  {
  }

  lemma ZeroMeanIsZero(q: Quadratic)
    requires q.b > 0.0
    ensures q.a + ZeroMean(q) * q.b == 0.0
  {
    NullMean(q.a, q.b);
  }

  lemma DropSquares(mean: real, s: real, variance: real, at: real)
    requires mean == 0.0 && variance >= 0.0 && mean * mean - s * s * variance == at
    ensures at <= 0.0
  {
    SquareNonNegative(s);
    ProductNotNegative(s * s, variance);
  }

  lemma ProductNotNegative(u: real, v: real)
    requires u >= 0.0 && v >= 0.0
    ensures u * v >= 0.0
  {
  }

  /** Where the mean is zero the quadratic is not positive: it is minus a variance. */
  lemma BelowAtZeroMean(r: seq<real>, x: seq<real>, sr: real)
    requires |r| == |x| >= 2 && Mean(x) > 0.0
    ensures var q := Coefficients(r, x, sr); At(q, ZeroMean(q)) <= 0.0
  {
    var q := Coefficients(r, x, sr);
    var z := ZeroMean(q);
    ZeroMeanIsZero(q);
    OverlayExcess(r, x, sr, z);
    VarianceNotNegative(Overlay(r, x, z));
    DropSquares(Mean(Overlay(r, x, z)), sr, SampleVariance(Overlay(r, x, z)), At(q, z));
  }

  /** The mean is not negative exactly from the zero-mean mark-up on. */
  lemma MeanSign(q: Quadratic, m: real)
    requires q.b > 0.0
    ensures q.a + m * q.b >= 0.0 <==> m >= ZeroMean(q)
  {
    ZeroMeanIsZero(q);
    SignOfProduct(m - ZeroMean(q), q.b);
    assert (m - ZeroMean(q)) * q.b == q.a + m * q.b;
  }

  lemma SignOfProduct(u: real, v: real)
    requires v > 0.0
    ensures u * v >= 0.0 <==> u >= 0.0
  {
  }

  lemma ShiftedOrder(q: Quadratic, m: real, z: real)
    ensures q.qa > 0.0 ==> (m >= z <==> Shifted(q, m) >= Shifted(q, z))
    ensures q.qa < 0.0 ==> (m >= z <==> Shifted(q, m) <= Shifted(q, z))
  {
    assert Shifted(q, m) - Shifted(q, z) == (m - z) * (2.0 * q.qa);
    if q.qa > 0.0 {
      SignOfProduct(m - z, 2.0 * q.qa);
    } else if q.qa < 0.0 {
      SignOfProduct(z - m, -2.0 * q.qa);
      assert (z - m) * (-2.0 * q.qa) == (m - z) * (2.0 * q.qa);
    }
  }

  /** Every root lies on the side of the zero-mean mark-up that its shifted value tells. */
  lemma RootByShift(q: Quadratic, m: real)
    requires q.b > 0.0 && q.qa != 0.0
    ensures Root(q, m) <==>
      && Shifted(q, m) * Shifted(q, m) == Discriminant(q)
      && (if q.qa > 0.0 then Shifted(q, m) >= Shifted(q, ZeroMean(q)) else Shifted(q, m) <= Shifted(q, ZeroMean(q)))
  {
    ZeroIsSquare(q, m);
    MeanSign(q, m);
    ShiftedOrder(q, m, ZeroMean(q));
  }

  lemma DifferenceOfSquares(u: real, v: real)
    ensures v * v - u * u == (v - u) * (v + u)
  {
  }

  lemma ProductSign(p: real, q: real)
    requires p + q >= 0.0
    ensures p * q >= 0.0 <==> p >= 0.0 && q >= 0.0
  {
    if p < 0.0 {
      PositiveProduct(-p, q);
      assert (-p) * q == -(p * q);
    } else if q < 0.0 {
      PositiveProduct(p, -q);
      assert p * (-q) == -(p * q);
    } else {
      ProductNotNegative(p, q);
    }
  }

  lemma SquareOrder(u: real, v: real)
    requires v >= 0.0
    ensures u * u <= v * v <==> -v <= u <= v
  {
    DifferenceOfSquares(u, v);
    ProductSign(v - u, v + u);
  }

  lemma PositiveProduct(u: real, v: real)
    requires u > 0.0 && v > 0.0
    ensures u * v > 0.0
  {
  }

  /** The sign of 4 qa times the value at z compares two squares. */
  lemma ValueBySquares(q: Quadratic, z: real)
    requires q.qa != 0.0 && At(q, z) <= 0.0
    ensures q.qa > 0.0 ==> Shifted(q, z) * Shifted(q, z) <= Discriminant(q)
    ensures q.qa < 0.0 ==> Shifted(q, z) * Shifted(q, z) >= Discriminant(q)
    ensures At(q, z) == 0.0 <==> Shifted(q, z) * Shifted(q, z) == Discriminant(q)
  {
    CompleteSquare(q, z);
    ZeroIsSquare(q, z);
    if q.qa > 0.0 {
      ProductNotNegative(4.0 * q.qa, -At(q, z));
      assert (4.0 * q.qa) * -At(q, z) == -(4.0 * q.qa * At(q, z));
    } else {
      ProductNotNegative(-4.0 * q.qa, -At(q, z));
      assert (-4.0 * q.qa) * -At(q, z) == 4.0 * q.qa * At(q, z);
    }
  }

  /** The point whose shifted value is t. */
  lemma AtShift(q: Quadratic, t: real) returns (m: real)
    requires q.qa != 0.0
    ensures Shifted(q, m) == t
  {
    m := (-q.qb + t) / (2.0 * q.qa);
    SolveFor(q.qa, q.qb, t, m);
  }

  lemma RootOnSide(q: Quadratic, m: real, t: real)
    requires q.b > 0.0 && q.qa != 0.0 && Shifted(q, m) == t && t * t == Discriminant(q)
    requires if q.qa > 0.0 then t >= Shifted(q, ZeroMean(q)) else t <= Shifted(q, ZeroMean(q))
    ensures Root(q, m)
  {
    RootByShift(q, m);
  }

  /** An upward parabola that is not positive at the zero-mean mark-up has a root after it. */
  lemma UpwardReaches(q: Quadratic, sqrt: real -> real) returns (m: real)
    requires q.b > 0.0 && q.qa > 0.0 && IsSqrt(sqrt) && At(q, ZeroMean(q)) <= 0.0
    ensures Root(q, m)
  {
    var d := Discriminant(q);
    var root := sqrt(d);
    ValueBySquares(q, ZeroMean(q));
    SquareAbove(sqrt, root, Shifted(q, ZeroMean(q)), d);
    m := AtShift(q, root);
    RootOnSide(q, m, root);
  }

  /** The square root of d is at least every number whose square d bounds. */
  lemma SquareAbove(sqrt: real -> real, root: real, s: real, d: real)
    requires IsSqrt(sqrt) && root == sqrt(d) && s * s <= d
    ensures root * root == d && root >= s
  {
    SquareNonNegative(s);
    assert root >= 0.0 && root * root == d;
    SquareOrder(s, root);
  }

  /** No shifted value at or below s has the square d. */
  lemma NoSquareBelow(t: real, s: real, d: real)
    requires d < 0.0 || (s < 0.0 && d < s * s)
    ensures !(t * t == d && t <= s)
  {
    SquareNonNegative(t);
    if t <= s < 0.0 {
      SquareOrder(s, -t);
    }
  }

  /** Minus the square root does, unless s is negative with a larger square. */
  lemma SquareBelow(root: real, s: real, d: real)
    requires root >= 0.0 && root * root == d && d <= s * s && (s < 0.0 ==> d == s * s)
    ensures (-root) * (-root) == d && -root <= s
  {
    if s < 0.0 {
      EqualSquares(s, root);
    }
  }

  lemma DownwardMisses(q: Quadratic, m: real)
    requires q.b > 0.0 && At(q, ZeroMean(q)) <= 0.0 && NeverReached(q)
    ensures !Root(q, m)
  {
    ValueBySquares(q, ZeroMean(q));
    RootByShift(q, m);
    NoSquareBelow(Shifted(q, m), Shifted(q, ZeroMean(q)), Discriminant(q));
  }

  lemma DownwardReaches(q: Quadratic, sqrt: real -> real) returns (m: real)
    requires q.b > 0.0 && q.qa < 0.0 && IsSqrt(sqrt) && At(q, ZeroMean(q)) <= 0.0 && !NeverReached(q)
    ensures Root(q, m)
  {
    var d := Discriminant(q);
    var root := sqrt(d);
    ValueBySquares(q, ZeroMean(q));
    SquareBelow(root, Shifted(q, ZeroMean(q)), d);
    m := AtShift(q, -root);
    RootOnSide(q, m, -root);
  }

  /** Away from a zero coefficient, a refusal is right exactly when the parabola opens downward
      and never reaches zero where the mean is not negative. */
  lemma RootlessIff(q: Quadratic, sqrt: real -> real)
    requires q.b > 0.0 && q.qa != 0.0 && IsSqrt(sqrt) && At(q, ZeroMean(q)) <= 0.0
    ensures NeverReached(q) <==> forall m :: !Root(q, m)
  {
    if NeverReached(q) {
      forall m ensures !Root(q, m) {
        DownwardMisses(q, m);
      }
    } else if q.qa > 0.0 {
      var m := UpwardReaches(q, sqrt);
    } else {
      var m := DownwardReaches(q, sqrt);
    }
  }

  lemma SolveTiny(q: Quadratic, sqrt: real -> real)
    requires q.b > 0.0 && q.qa != 0.0 && Abs(q.qa) < CUTOFF && IsSqrt(sqrt) && At(q, ZeroMean(q)) <= 0.0
    ensures Answers(q, SolveQuadratic(q, sqrt)) <==> Precise(q)
  {
    if LinearRootValid(q) {
      var m := -q.qc / q.qb;
      assert NotNegative(q, Roots(q, sqrt)) == [m];
      DroppedTerm(q, m);
    } else {
      assert NotNegative(q, Roots(q, sqrt)) == [];
      RootlessIff(q, sqrt);
    }
  }

  lemma PickIffPrecise(q: Quadratic, sqrt: real -> real)
    requires q.b > 0.0 && IsSqrt(sqrt) && At(q, ZeroMean(q)) <= 0.0
    ensures Answers(q, SolveQuadratic(q, sqrt)) <==> Precise(q)
  {
    if Abs(q.qa) >= CUTOFF {
      SolveCut(q, sqrt);
    } else if q.qa == 0.0 {
      SolveLinear(q, sqrt);
    } else {
      SolveTiny(q, sqrt);
    }
  }

  /** `solve_markup` is sound and complete, and returns the least of the mark-ups, exactly
      when `Precise` says so (or when no edge is asked for). */
  lemma MarkupCorrectIffPrecise(r: seq<real>, x: seq<real>, sr: real, sqrt: real -> real)
    requires |r| == |x| >= 2 && sr >= 0.0 && Mean(x) > 0.0 && IsSqrt(sqrt)
    ensures Correct(r, x, sr, SolveMarkup(r, x, sr, sqrt)) <==> sr == 0.0 || Precise(Coefficients(r, x, sr))
  {
    var q, result := Coefficients(r, x, sr), SolveMarkup(r, x, sr, sqrt);
    CorrectIsAnswers(r, x, sr, result);
    if sr == 0.0 {
      SolveNull(q, result);
    } else {
      BelowAtZeroMean(r, x, sr);
      PickIffPrecise(q, sqrt);
    }
  }

  /** Whenever the leading coefficient is at least 1e-15 in magnitude, the answer is sound and
      complete: the least mark-up that hits the ratio, or a refusal because none does. */
  lemma MarkupSoundAboveCutoff(r: seq<real>, x: seq<real>, sr: real, sqrt: real -> real)
    requires |r| == |x| >= 2 && sr >= 0.0 && Mean(x) > 0.0 && IsSqrt(sqrt)
    requires var qa := Coefficients(r, x, sr).qa; qa <= -0.000000000000001 || 0.000000000000001 <= qa
    ensures match SolveMarkup(r, x, sr, sqrt)
            case Ok(m) =>
              && Hits(r, x, sr, m)
              && (forall m' :: Hits(r, x, sr, m') ==> m' <= m <= -m' || -m' <= m <= m')
              && (m > 0.0 ==> !Hits(r, x, sr, -m))
            case Err(_) => forall m' :: !Hits(r, x, sr, m')
  {
    MarkupCorrectIffPrecise(r, x, sr, sqrt);
  }

  lemma SolveNull(q: Quadratic, result: Result<real>)
    requires q.b > 0.0 && result == Ok(-q.a / q.b)
    requires q.qa == q.b * q.b && q.qb == 2.0 * q.a * q.b && q.qc == q.a * q.a
    ensures Answers(q, result)
  {
    var m := -q.a / q.b;
    assert m * q.b == -q.a;
    forall m' ensures At(q, m') == (q.a + m' * q.b) * (q.a + m' * q.b) {
      Square(q.a, q.b, m');
    }
    forall m' | Root(q, m') ensures m' == m {
      ZeroSquare(q.a + m' * q.b);
    }
  }

  lemma ZeroSquare(u: real)
    requires u * u == 0.0
    ensures u == 0.0
  {
    if u != 0.0 {
      ZeroProduct(u, u);
    }
  }

  // ---------------------------------------------------------------- where it is not

  lemma SumOfFour(s: seq<real>)
    requires |s| == 4
    ensures Sum(s) == s[0] + s[1] + s[2] + s[3]
  {
    assert s[1..][1..] == s[2..] && s[2..][1..] == s[3..] && s[3..][1..] == [];
    assert Sum(s[2..]) == s[2] + Sum(s[3..]) && Sum(s[3..]) == s[3];
  }

  /** The moments of one marked trade of four. */
  lemma MarkMoments(x: seq<real>)
    requires x == [1.0, 0.0, 0.0, 0.0]
    ensures Mean(x) == 0.25 && Sum(Products(x, 0.25, x, 0.25)) == 0.75
  {
    SumOfFour(x);
    SumOfFour(Products(x, 0.25, x, 0.25));
  }

  lemma ReturnMoments(r: seq<real>, x: seq<real>)
    requires r == [1.0, 0.0, 0.0, 1.0] && x == [1.0, 0.0, 0.0, 0.0]
    ensures Mean(r) == 0.5 && Sum(Products(r, 0.5, r, 0.5)) == 1.0 && Sum(Products(r, 0.5, x, 0.25)) == 0.5
  {
    SumOfFour(r);
    SumOfFour(Products(r, 0.5, r, 0.5));
    SumOfFour(Products(r, 0.5, x, 0.25));
  }

  /** The quadratic at a = 1/2, b = 1/4 and a ratio e above 1/2. */
  lemma TinyCoefficients(q: Quadratic, e: real, f: real, sr: real)
    requires f == 1.0 + e && sr == 0.5 + e && q == CoefficientsFrom(4.0, 0.5, 0.25, 0.25, 0.1875, 0.125, sr)
    ensures q.a == 0.5 && q.b == 0.25 && 4.0 * q.qa == -(e * f)
    ensures q.qb == q.qc && 12.0 * q.qc == 2.0 - 4.0 * (e * f)
  {
    var s, k := sr * sr, 4.0 / (4.0 - 1.0);
    assert s == 0.25 + e * f;
    assert k * 0.1875 == 0.25 && k * 0.25 * 3.0 == 1.0;
    assert s * k * 0.1875 == s * (k * 0.1875);
    assert s * k * 0.25 == s * (k * 0.25);
    assert 2.0 * sr * sr * k * 0.125 == s * (k * 0.25);
  }

  lemma TinyProduct(e: real, f: real)
    requires 0.0 < e < CUTOFF && 0.0 < f < 2.0
    ensures 0.0 < e * f < 2.0 * e
  {
    PositiveProduct(e, f);
    PositiveProduct(e, 2.0 - f);
    assert e * (2.0 - f) == 2.0 * e - e * f;
  }

  lemma TinyBounds(q: Quadratic, e: real, f: real, p: real)
    requires 0.0 < e < CUTOFF && 0.0 < f < 2.0 && p == e * f
    requires 4.0 * q.qa == -p && q.qb == q.qc && 12.0 * q.qc == 2.0 - 4.0 * p
    ensures q.qa != 0.0 && Abs(q.qa) < CUTOFF && q.qb == q.qc != 0.0
  {
    TinyProduct(e, f);
    TinyLinear(q.qa, q.qc, p);
  }

  lemma TinyLinear(qa: real, qc: real, p: real)
    requires 0.0 < p < 2.0 * CUTOFF && 4.0 * qa == -p && 12.0 * qc == 2.0 - 4.0 * p
    ensures qa != 0.0 && Abs(qa) < CUTOFF && qc != 0.0
  {
  }

  lemma TinyQuadratic(q: Quadratic, sqrt: real -> real)
    requires q.a == 0.5 && q.b == 0.25 && q.qa != 0.0 && Abs(q.qa) < CUTOFF && q.qb == q.qc != 0.0
    ensures SolveQuadratic(q, sqrt) == Ok(-1.0) && !Root(q, -1.0)
  {
    assert -q.qc / q.qb == -1.0;
    assert Roots(q, sqrt) == [-1.0];
    assert NotNegative(q, Roots(q, sqrt)) == [-1.0];
    assert At(q, -1.0) == q.qa;
  }

  /** One marked trade of four, asked for a ratio less than the cut-off above 1/2: the leading
      coefficient is below the cut-off without being zero, and the mark-up returned misses the
      ratio. */
  lemma TinyLeadingMisses(r: seq<real>, x: seq<real>, e: real, sr: real, sqrt: real -> real)
    requires r == [1.0, 0.0, 0.0, 1.0] && x == [1.0, 0.0, 0.0, 0.0] && 0.0 < e < 0.000000000000001 && sr == 0.5 + e
    ensures SolveMarkup(r, x, sr, sqrt) == Ok(-1.0) && !Hits(r, x, sr, -1.0)
  {
    MarkMoments(x);
    ReturnMoments(r, x);
    var q, f := Coefficients(r, x, sr), 1.0 + e;
    TinyCoefficients(q, e, f, sr);
    TinyBounds(q, e, f, e * f);
    TinyQuadratic(q, sqrt);
    HitsIsRoot(r, x, sr, -1.0);
  }

  lemma LosingMoments(r: seq<real>, x: seq<real>)
    requires r == [-1.0, -1.0, -1.0, -1.0] && x == [1.0, 0.0, 0.0, 0.0]
    ensures Mean(r) == -1.0 && Sum(Products(r, -1.0, r, -1.0)) == 0.0 && Sum(Products(r, -1.0, x, 0.25)) == 0.0
  {
    SumOfFour(r);
    SumOfFour(Products(r, -1.0, r, -1.0));
    SumOfFour(Products(r, -1.0, x, 0.25));
  }

  lemma LosingCoefficients(q: Quadratic, e: real, f: real, sr: real)
    requires f == 1.0 - e && sr == 0.5 - e && q == CoefficientsFrom(4.0, -1.0, 0.25, 0.0, 0.1875, 0.0, sr)
    ensures q.a == -1.0 && q.b == 0.25 && 4.0 * q.qa == e * f && q.qb == -0.5 && q.qc == 1.0
  {
    var s, k := sr * sr, 4.0 / (4.0 - 1.0);
    assert s == 0.25 - e * f;
    assert k * 0.1875 == 0.25;
    assert s * k * 0.1875 == s * (k * 0.1875);
    assert q.qb == 2.0 * -1.0 * 0.25 - 2.0 * sr * sr * k * 0.0;
    assert q.qc == 1.0 - s * k * 0.0;
  }

  lemma Between(u: real, v: real)
    requires 0.0 < u && 0.0 < v < 1.0
    ensures 0.0 < u * v < u
  {
    PositiveProduct(u, v);
    PositiveProduct(u, 1.0 - v);
    assert u * (1.0 - v) == u - u * v;
  }

  lemma LosingRefused(q: Quadratic, e: real, f: real, sqrt: real -> real)
    requires q.a == -1.0 && q.b == 0.25 && 4.0 * q.qa == e * f && q.qb == -0.5 && q.qc == 1.0
    requires 0.0 < e < CUTOFF && 0.0 < f < 1.0
    ensures 0.0 < q.qa < CUTOFF && SolveQuadratic(q, sqrt).Err?
  {
    Between(e, f);
    assert -q.qc / q.qb == 2.0;
    assert Roots(q, sqrt) == [2.0];
    assert NotNegative(q, Roots(q, sqrt)) == [];
  }

  lemma LosingRoot(q: Quadratic, e: real, f: real, m: real)
    requires q.a == -1.0 && q.b == 0.25 && 4.0 * q.qa == e * f && q.qb == -0.5 && q.qc == 1.0
    requires f == 1.0 - e && m * e == 2.0 && m >= 4.0
    ensures Root(q, m)
  {
    assert m * f == m - 2.0 by {
      assert m * f == m - m * e;
    }
    assert 4.0 * (q.qa * m * m) == (m * e) * (m * f) by {
      assert 4.0 * (q.qa * m * m) == (4.0 * q.qa) * m * m;
      assert (e * f) * m * m == (m * e) * (m * f);
    }
  }

  /** Four equal losses and one marked trade, asked for a ratio less than the cut-off below
      1/2: the leading coefficient is positive and below the cut-off, the linear equation's root
      has a negative mean, and the solver refuses although a large mark-up hits the ratio. */
  lemma TinyLeadingRefused(r: seq<real>, x: seq<real>, e: real, sr: real, m: real, sqrt: real -> real)
    requires r == [-1.0, -1.0, -1.0, -1.0] && x == [1.0, 0.0, 0.0, 0.0]
    requires 0.0 < e < 0.000000000000001 && sr == 0.5 - e && m * e == 2.0
    ensures 0.0 < Coefficients(r, x, sr).qa < 0.000000000000001
    ensures SolveMarkup(r, x, sr, sqrt).Err? && Hits(r, x, sr, m)
  {
    MarkMoments(x);
    LosingMoments(r, x);
    var q := Coefficients(r, x, sr);
    var f := 1.0 - e;
    LosingCoefficients(q, e, f, sr);
    LosingRefused(q, e, f, sqrt);
    LargeMarkup(e, m);
    LosingRoot(q, e, f, m);
    HitsIsRoot(r, x, sr, m);
  }

  lemma LargeMarkup(e: real, m: real)
    requires 0.0 < e < CUTOFF && m * e == 2.0
    ensures m >= 4.0
  {
    if m < 4.0 {
      PositiveProduct(4.0 - m, e);
    }
  }

  /** Returns equal to a mark that already has the ratio: leaving them alone hits it, and
      the solver refuses. */
  lemma VanishingEquationRefused(x: seq<real>, sqrt: real -> real)
    requires x == [1.0, 0.0, 0.0, 0.0]
    ensures SolveMarkup(x, x, 0.5, sqrt).Err? && Hits(x, x, 0.5, 0.0)
  {
    MarkMoments(x);
    var q := Coefficients(x, x, 0.5);
    VanishingCoefficients(q);
    HitsIsRoot(x, x, 0.5, 0.0);
  }

  lemma VanishingCoefficients(q: Quadratic)
    requires q == CoefficientsFrom(4.0, 0.25, 0.25, 0.1875, 0.1875, 0.1875, 0.5)
    ensures q.a == 0.25 && q.b == 0.25 && q.qa == q.qb == q.qc == 0.0
  {
  }
}
