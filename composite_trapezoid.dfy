/** Code/src/solvers/CompositeTrapezoid.cpp: the composite trapezoidal rule on n equal panels. */
module CompositeTrapezoid {
  import opened Errors
  import opened Intervals
  import opened Results
  import opened Params
  import opened Quadrature
  import opened Polynomials

  const NMessage := "CompositeTrapezoid: n must be >= 1"

  /** The parameter check at the top of `integrate`: only n == 0 is refused. */
  function Check(p: SolverParams): (e: Option<Error>)
    ensures e == None <==> p.n >= 1
    ensures e != None ==> e == Some(InvalidArgument(NMessage))
  {
    if p.n == 0 then Some(InvalidArgument(NMessage)) else None
  }

  /** The points at which `integrate` calls the integrand, in calling order: a, b, then the
      interior grid points a + i*h for i = 1 .. n-1. */
  function SamplePoints(i: Interval, p: SolverParams): (xs: seq<real>)
    requires Check(p) == None
    ensures |xs| == p.n + 1 && xs[0] == i.a && xs[1] == i.b
    ensures forall k :: 2 <= k < |xs| ==> xs[k] == Node(i.a, Width(i, p.n), k - 1)
  {
    var inner := StrideNodes(i.a, Width(i, p.n), 1, 1, p.n - 1);
    assert forall k :: 2 <= k < p.n + 1 ==> ([i.a, i.b] + inner)[k] == inner[k - 2];
    [i.a, i.b] + inner
  }

  /** What `integrate` computes: h * (f(a)/2 + f(b)/2 + sum of f over the interior points),
      reported with n + 1 evaluations (one per sample point), no error estimate and empty meta. */
  function Rule(f: real -> real, i: Interval, p: SolverParams): (r: Result<IntegrationResult>)
    ensures r.Err? <==> Check(p).Some?
    ensures r.Err? ==> r.error == Check(p).value
    ensures r.Ok? ==> r.value.evaluations == |SamplePoints(i, p)| == p.n + 1
    ensures r.Ok? ==> !r.value.hasErrorEstimate && r.value.meta == map[] && r.value.value.Num?
  {
    if p.n == 0 then Err(InvalidArgument(NMessage))
    else
      var h := Width(i, p.n);
      Ok(Results.Default().(value := Num(h * Bracket(f, i, h, p.n)), evaluations := p.n + 1, hasErrorEstimate := false))
  }

  /** The bracket of `integrate`: f(a)/2 + f(b)/2 + the sum of f over the n - 1 interior points. */
  function Bracket(f: real -> real, i: Interval, h: real, n: nat): real
    requires n >= 1
  {
    0.5 * f(i.a) + 0.5 * f(i.b) + StrideSum(f, i.a, h, 1, 1, n - 1)
  }

  /** `CompositeTrapezoidSolver::integrate`, accumulating `sum` as the source does. */
  method Integrate(f: real -> real, i: Interval, p: SolverParams) returns (r: Result<IntegrationResult>)
    ensures r == Rule(f, i, p)
  {
    if p.n == 0 {
      return Err(InvalidArgument(NMessage));
    }
    var a, b, n := i.a, i.b, p.n;
    var h := (b - a) / (n as real);
    var sum := 0.0;
    sum := sum + 0.5 * f(a);
    sum := sum + 0.5 * f(b);
    for k := 1 to n
      invariant sum == 0.5 * f(a) + 0.5 * f(b) + StrideSum(f, a, h, 1, 1, k - 1)
    {
      var x := a + h * (k as real);
      NodeClosedForm(a, h, k);
      sum := sum + f(x);
    }
    var res := Results.Default();
    res := res.(value := Num(h * sum));
    res := res.(evaluations := n + 1);
    res := res.(hasErrorEstimate := false);
    assert Rule(f, i, p).value == res;
    return Ok(res);
  }

  /** The textbook weights of the rule on the grid a, a + h, ..., b: 1/2 at both ends, 1 inside. */
  function Weights(n: nat): (ws: seq<real>)
    ensures |ws| == n + 1
  {
    seq(n + 1, k => if k == 0 || k == n then 0.5 else 1.0)
  }

  /** What grid point k contributes under those weights. */
  function WeightedNode(f: real -> real, a: real, h: real, n: nat, k: nat): real {
    var y := f(Node(a, h, k));
    if k == 0 || k == n then 0.5 * y else y
  }

  /** Each term of the nodes-and-weights sum is that grid point's weighted value. */
  lemma GridTerms(f: real -> real, a: real, h: real, n: nat)
    ensures forall k :: 0 <= k <= n ==> Term(f, GridNodes(a, h, n), Weights(n), k) == WeightedNode(f, a, h, n, k)
  {
    forall k | 0 <= k <= n ensures Term(f, GridNodes(a, h, n), Weights(n), k) == WeightedNode(f, a, h, n, k) {
      assert GridNodes(a, h, n)[k] == Node(a, h, k);
    }
  }

  /** The first c points of any nodes-and-weights sum whose terms are those weighted values sum to
      f(a)/2 plus the values at the interior points 1 .. c-1. */
  lemma {:induction false} PrefixIsWeighted(f: real -> real, xs: seq<real>, ws: seq<real>, a: real, h: real,
                                            n: nat, c: nat)
    requires |xs| == |ws| == n + 1 && 1 <= c <= n
    requires forall k :: 0 <= k <= n ==> Term(f, xs, ws, k) == WeightedNode(f, a, h, n, k)
    ensures PartialSum(f, xs, ws, c) == 0.5 * f(a) + StrideSum(f, a, h, 1, 1, c - 1)
    decreases c
  {
    assert Term(f, xs, ws, c - 1) == WeightedNode(f, a, h, n, c - 1);
    if c > 1 {
      PrefixIsWeighted(f, xs, ws, a, h, n, c - 1);
      StrideLast(f, a, h, 1, 1, c - 1, c - 1);
    }
  }

  /** Each grid index gets its weight exactly once: the value is h times the weighted sum over the
      n + 1 grid points with weight 1/2 at the two ends and 1 at every interior index. */
  lemma {:induction false} RuleIsWeightedSum(f: real -> real, i: Interval, p: SolverParams)
    requires Check(p) == None
    ensures Rule(f, i, p).value.value
         == Num(Width(i, p.n) * WeightedSum(f, GridNodes(i.a, Width(i, p.n), p.n), Weights(p.n)))
  {
    var h, n := Width(i, p.n), p.n;
    var xs, ws := GridNodes(i.a, h, n), Weights(n);
    LastNode(i.a, i.b, n);
    GridTerms(f, i.a, h, n);
    PrefixIsWeighted(f, xs, ws, i.a, h, n, n);
    assert Term(f, xs, ws, n) == WeightedNode(f, i.a, h, n, n);
    assert WeightedSum(f, xs, ws) == Bracket(f, i, h, n);
  }

  /** Only the sampled points matter: integrands that agree on SamplePoints give the same result. */
  lemma SampledOnly(f: real -> real, g: real -> real, i: Interval, p: SolverParams)
    requires Check(p) == None
    requires forall x :: x in SamplePoints(i, p) ==> f(x) == g(x)
    ensures Rule(f, i, p) == Rule(g, i, p)
  {
    BracketSampledOnly(f, g, i, p);
    assert Rule(f, i, p).value == Rule(g, i, p).value;
  }

  /** The bracket itself only looks at the sampled points. */
  lemma BracketSampledOnly(f: real -> real, g: real -> real, i: Interval, p: SolverParams)
    requires Check(p) == None
    requires forall x :: x in SamplePoints(i, p) ==> f(x) == g(x)
    ensures Bracket(f, i, Width(i, p.n), p.n) == Bracket(g, i, Width(i, p.n), p.n)
  {
    var h := Width(i, p.n);
    assert i.a in SamplePoints(i, p) && i.b in SamplePoints(i, p);
    forall x | x in StrideNodes(i.a, h, 1, 1, p.n - 1) ensures f(x) == g(x) {
      assert x in SamplePoints(i, p);
    }
    StrideSumCongruent(f, g, i.a, h, 1, 1, p.n - 1);
  }

  /** The trapezoid panel [x, x + h] integrates f exactly, measured against the antiderivative P. */
  ghost predicate PanelExact(f: real -> real, P: real -> real, x: real, h: real) {
    PanelValues(h, f(x), f(x + h), P(x), P(x + h))
  }

  /** The trapezoid formula on a panel of width h with end values fx, fz gives pz - px. */
  ghost predicate PanelValues(h: real, fx: real, fz: real, px: real, pz: real) {
    (h / 2.0) * (fx + fz) == pz - px
  }

  /** A run of panels from a grid point with value f0 to one with value fN, whose interior values
      sum to s, is exact: h*(f0/2 + fN/2 + s) is pN - p0. */
  ghost predicate RunExact(h: real, f0: real, fN: real, s: real, p0: real, pN: real) {
    h * (0.5 * f0 + 0.5 * fN + s) == pN - p0
  }

  /** One more panel with end values fx, fz after an exact run ending at value fx. */
  lemma NextPanel(h: real, f0: real, fx: real, fz: real, s: real, s1: real, p0: real, px: real, pz: real)
    requires RunExact(h, f0, fx, s, p0, px) && PanelValues(h, fx, fz, px, pz) && s1 - s == fx
    ensures RunExact(h, f0, fz, s1, p0, pz)
  {
    assert h * (0.5 * f0 + 0.5 * fz + s1) == h * (0.5 * f0 + 0.5 * fx + s) + (h / 2.0) * (fx + fz);
  }

  /** Panels telescope: when every panel is exact, the first k panels together are exact. */
  lemma {:induction false} PrefixExact(f: real -> real, P: real -> real, a: real, h: real, k: nat)
    requires forall x :: PanelExact(f, P, x, h)
    requires k >= 1
    ensures RunExact(h, f(Node(a, h, 0)), f(Node(a, h, k)), StrideSum(f, a, h, 1, 1, k - 1), P(Node(a, h, 0)), P(Node(a, h, k)))
    decreases k
  {
    var x := Node(a, h, k - 1);
    assert Node(a, h, k) == x + h;
    assert PanelExact(f, P, x, h);
    if k > 1 {
      PrefixExact(f, P, a, h, k - 1);
      StrideLast(f, a, h, 1, 1, k - 1, k - 1);
      NextPanel(h, f(Node(a, h, 0)), f(x), f(x + h), StrideSum(f, a, h, 1, 1, k - 2), StrideSum(f, a, h, 1, 1, k - 1),
                P(Node(a, h, 0)), P(x), P(x + h));
    }
  }

  /** Whenever every panel is exact against P, the whole rule returns P(b) - P(a). */
  lemma RuleTelescopes(f: real -> real, P: real -> real, i: Interval, p: SolverParams)
    requires Check(p) == None
    requires forall x :: PanelExact(f, P, x, Width(i, p.n))
    ensures Rule(f, i, p).value.value == Num(P(i.b) - P(i.a))
  {
    var h := Width(i, p.n);
    LastNode(i.a, i.b, p.n);
    PrefixExact(f, P, i.a, h, p.n);
    assert Rule(f, i, p).value.value == Num(h * Bracket(f, i, h, p.n));
  }

  /** The rule integrates every linear polynomial q exactly, for every accepted n. */
  lemma ExactOnLinearPoly(f: real -> real, q: Poly3, i: Interval, p: SolverParams)
    requires q.IsLinear() && forall x :: f(x) == q.At(x)
    requires Check(p) == None
    ensures Rule(f, i, p).value.value == Num(q.Primitive(i.b) - q.Primitive(i.a))
  {
    var h := Width(i, p.n);
    var P := x => q.Primitive(x);
    forall x ensures PanelExact(f, P, x, h) {
      TrapezoidPanel(q, x, h);
      assert f(x) == q.At(x) && f(x + h) == q.At(x + h);
    }
    RuleTelescopes(f, P, i, p);
  }

  /** Over exact reals the rule integrates every c0 + c1*x exactly, for every accepted n. */
  lemma ExactOnLinear(f: real -> real, c0: real, c1: real, i: Interval, p: SolverParams)
    requires forall x :: f(x) == c0 + c1 * x
    requires p.n >= 1
    ensures Rule(f, i, p).Ok?
    ensures Rule(f, i, p).value.value == Num(c0 * (i.b - i.a) + c1 * (i.b * i.b - i.a * i.a) / 2.0)
  {
    var q := Poly3(c0, c1, 0.0, 0.0);
    forall x ensures f(x) == q.At(x) {
    }
    ExactOnLinearPoly(f, q, i, p);
    LinearPrimitive(c0, c1, i.a, i.b);
  }

}
