/** src/solvers/CompositeSimpson.cpp: the composite Simpson rule on an even number of panels. */
module CompositeSimpson {
  import opened Errors
  import opened Intervals
  import opened Results
  import opened Params
  import opened Quadrature
  import opened Polynomials
  import opened SimpsonPanels

  const TooFewMessage := "CompositeSimpson: n must be >= 2"
  const OddMessage := "CompositeSimpson: n must be even"

  /** The two parameter checks at the top of `integrate`, in source order: n < 2 (which covers
      n = 0 and n = 1) is refused first, then an odd n with its own message. */
  function Check(p: SolverParams): (e: Option<Error>)
    ensures e == None <==> p.n >= 2 && p.n % 2 == 0
    ensures p.n < 2 ==> e == Some(InvalidArgument(TooFewMessage))
    ensures p.n >= 2 && p.n % 2 == 1 ==> e == Some(InvalidArgument(OddMessage))
  {
    if p.n < 2 then Some(InvalidArgument(TooFewMessage))
    else if p.n % 2 != 0 then Some(InvalidArgument(OddMessage))
    else None
  }

  /** Where `integrate` calls the integrand, in calling order: a, b, the odd indices 1, 3, ..., n-1,
      then the even indices 2, 4, ..., n-2. */
  function SamplePoints(i: Interval, p: SolverParams): (xs: seq<real>)
    requires Check(p) == None
    ensures |xs| == p.n + 1
  {
    var h, m := Width(i, p.n), p.n / 2;
    [i.a, i.b] + StrideNodes(i.a, h, 1, 2, m) + StrideNodes(i.a, h, 2, 2, m - 1)
  }

  /** The calling order: f(a), f(b), then the odd grid indices 1, 3, ..., n-1 left to right, then
      the even interior indices 2, 4, ..., n-2 left to right. */
  lemma SampleOrder(i: Interval, p: SolverParams, j: nat)
    requires Check(p) == None
    ensures SamplePoints(i, p)[0] == i.a && SamplePoints(i, p)[1] == i.b
    ensures j < p.n / 2 ==> SamplePoints(i, p)[2 + j] == Node(i.a, Width(i, p.n), 2 * j + 1)
    ensures j < p.n / 2 - 1 ==> SamplePoints(i, p)[2 + p.n / 2 + j] == Node(i.a, Width(i, p.n), 2 * j + 2)
  {
    OrderOf(i.a, i.b, Width(i, p.n), p.n / 2, j);
  }

  /** The same order for the points of any grid a, a + h, ... with n = 2m panels ending at b. */
  lemma OrderOf(a: real, b: real, h: real, m: nat, j: nat)
    requires m >= 1
    ensures var xs := [a, b] + StrideNodes(a, h, 1, 2, m) + StrideNodes(a, h, 2, 2, m - 1);
            xs[0] == a && xs[1] == b
            && (j < m ==> xs[2 + j] == Node(a, h, 2 * j + 1))
            && (j < m - 1 ==> xs[2 + m + j] == Node(a, h, 2 * j + 2))
  {
    var odd, even := StrideNodes(a, h, 1, 2, m), StrideNodes(a, h, 2, 2, m - 1);
    var xs := [a, b] + odd + even;
    if j < m {
      assert xs[2 + j] == odd[j];
    }
    if j < m - 1 {
      assert xs[2 + m + j] == even[j];
    }
  }

  /** What `integrate` computes: (h/3)(f(a) + f(b) + 4*(odd-index sum) + 2*(even-index sum)),
      reported with one evaluation per sample point, no error estimate and empty meta. */
  function Rule(f: real -> real, i: Interval, p: SolverParams): (r: Result<IntegrationResult>)
    ensures r.Err? <==> Check(p).Some?
    ensures r.Err? ==> r.error == Check(p).value
    ensures r.Ok? ==> r.value.evaluations == |SamplePoints(i, p)| == p.n + 1
    ensures r.Ok? ==> !r.value.hasErrorEstimate && r.value.meta == map[] && r.value.value.Num?
  {
    if p.n < 2 then Err(InvalidArgument(TooFewMessage))
    else if p.n % 2 != 0 then Err(InvalidArgument(OddMessage))
    else
      var h, m := Width(i, p.n), p.n / 2;
      Ok(Results.Default().(value := Num((h / 3.0) * Bracket(f, i, h, m)), evaluations := p.n + 1, hasErrorEstimate := false))
  }

  /** The bracket of `integrate`: f(a) + f(b) + 4*(odd-index sum) + 2*(even-index sum), for n = 2m. */
  function Bracket(f: real -> real, i: Interval, h: real, m: nat): real
    requires m >= 1
  {
    f(i.a) + f(i.b) + 4.0 * StrideSum(f, i.a, h, 1, 2, m) + 2.0 * StrideSum(f, i.a, h, 2, 2, m - 1)
  }

  /** One stride-2 loop of `integrate`: from index `start`, while the index is below n, add
      weight * f(a + h*index). The loop runs `count` times, the least count reaching n. */
  method AddStride(f: real -> real, a: real, h: real, start: nat, weight: real, n: nat, sum0: real,
                   ghost count: nat) returns (sum: real)
    requires n <= start + 2 * count < n + 2
    ensures sum == sum0 + weight * StrideSum(f, a, h, start, 2, count)
  {
    sum := sum0;
    var k := start;
    ghost var j := 0;
    while k < n
      invariant k == start + 2 * j && j <= count
      invariant sum == sum0 + weight * StrideSum(f, a, h, start, 2, j)
    {
      var x := a + h * (k as real);
      NodeClosedForm(a, h, k);
      sum := sum + weight * f(x);
      k, j := k + 2, j + 1;
    }
  }

  /** `CompositeSimpsonSolver::integrate`: the endpoints, then the odd-index loop with weight 4,
      then the even-index loop with weight 2. */
  method Integrate(f: real -> real, i: Interval, p: SolverParams) returns (r: Result<IntegrationResult>)
    ensures r == Rule(f, i, p)
  {
    if p.n < 2 {
      return Err(InvalidArgument(TooFewMessage));
    }
    if p.n % 2 != 0 {
      return Err(InvalidArgument(OddMessage));
    }
    var a, b, n := i.a, i.b, p.n;
    var h := (b - a) / (n as real);
    var sum := f(a) + f(b);
    ghost var m := n / 2;
    sum := AddStride(f, a, h, 1, 4.0, n, sum, m);
    sum := AddStride(f, a, h, 2, 2.0, n, sum, m - 1);
    var res := Results.Default();
    res := res.(value := Num((h / 3.0) * sum));
    res := res.(evaluations := n + 1);
    res := res.(hasErrorEstimate := false);
    assert Rule(f, i, p).value == res;
    return Ok(res);
  }

  /** The textbook weights on the grid a, a + h, ..., b: 1 at both ends, 4 at odd and 2 at even
      interior indices. */
  function Weights(n: nat): (ws: seq<real>)
    ensures |ws| == n + 1
  {
    seq(n + 1, k => if k == 0 || k == n then 1.0 else if k % 2 == 1 then 4.0 else 2.0)
  }

  /** What grid point k contributes under those weights. */
  function WeightedNode(f: real -> real, a: real, h: real, n: nat, k: nat): real {
    var y := f(Node(a, h, k));
    if k == 0 || k == n then y else if k % 2 == 1 then 4.0 * y else 2.0 * y
  }

  /** Each term of the nodes-and-weights sum is that grid point's weighted value. */
  lemma GridTerms(f: real -> real, a: real, h: real, n: nat)
    ensures forall k :: 0 <= k <= n ==> Term(f, GridNodes(a, h, n), Weights(n), k) == WeightedNode(f, a, h, n, k)
  {
    forall k | 0 <= k <= n ensures Term(f, GridNodes(a, h, n), Weights(n), k) == WeightedNode(f, a, h, n, k) {
      assert GridNodes(a, h, n)[k] == Node(a, h, k);
    }
  }

  /** Grid points 2m - 2 and 2m - 1 carry weights 2 (1 when m = 1, the left end) and 4. */
  lemma PairWeights(f: real -> real, a: real, h: real, n: nat, m: nat, e: nat)
    requires 1 <= m && 2 * m <= n && e == 2 * (m - 1)
    ensures WeightedNode(f, a, h, n, e) == if m == 1 then f(a) else 2.0 * f(Node(a, h, e))
    ensures WeightedNode(f, a, h, n, e + 1) == 4.0 * f(Node(a, h, e + 1))
  {
    assert e % 2 == 0 && (e + 1) % 2 == 1;
  }

  /** In a sum whose terms are those weighted values, the first 2m points add grid points 2m - 2
      and 2m - 1 to the first 2m - 2. */
  lemma WeightedPair(f: real -> real, xs: seq<real>, ws: seq<real>, a: real, h: real, n: nat, m: nat, e: nat)
    requires |xs| == |ws| == n + 1 && 1 <= m && 2 * m <= n && e == 2 * (m - 1)
    requires forall k :: 0 <= k <= n ==> Term(f, xs, ws, k) == WeightedNode(f, a, h, n, k)
    ensures PartialSum(f, xs, ws, 2 * m)
         == PartialSum(f, xs, ws, e) + WeightedNode(f, a, h, n, e) + WeightedNode(f, a, h, n, e + 1)
  {
    PartialSumTwo(f, xs, ws, e, 2 * m);
    assert Term(f, xs, ws, e) == WeightedNode(f, a, h, n, e);
    assert Term(f, xs, ws, e + 1) == WeightedNode(f, a, h, n, e + 1);
  }

  /** Everything the pair of grid points 2m - 2 = e and 2m - 1 adds: to the weighted sum, to the
      odd-index sum and, past the left end, to the inner even-index sum. */
  lemma PairStep(f: real -> real, xs: seq<real>, ws: seq<real>, a: real, h: real, n: nat, m: nat, e: nat)
    requires |xs| == |ws| == n + 1 && 1 <= m && 2 * m <= n && e == 2 * (m - 1)
    requires forall k :: 0 <= k <= n ==> Term(f, xs, ws, k) == WeightedNode(f, a, h, n, k)
    ensures PartialSum(f, xs, ws, 2 * m)
         == PartialSum(f, xs, ws, e) + (if m == 1 then f(a) else 2.0 * f(Node(a, h, e))) + 4.0 * f(Node(a, h, e + 1))
    ensures StrideSum(f, a, h, 1, 2, m) - StrideSum(f, a, h, 1, 2, m - 1) == f(Node(a, h, e + 1))
    ensures m > 1 ==> StrideSum(f, a, h, 2, 2, m - 1) - StrideSum(f, a, h, 2, 2, m - 2) == f(Node(a, h, e))
  {
    WeightedPair(f, xs, ws, a, h, n, m, e);
    PairWeights(f, a, h, n, m, e);
    StrideLast(f, a, h, 1, 2, m, e + 1);
    if m > 1 {
      StrideLast(f, a, h, 2, 2, m - 1, e);
    }
  }

  /** The first 2m points of any nodes-and-weights sum whose terms are those weighted values sum to
      f(a) plus 4 times the first m odd-index values plus 2 times the first m - 1 even-index values. */
  lemma {:induction false} PrefixIsWeighted(f: real -> real, xs: seq<real>, ws: seq<real>, a: real, h: real,
                                            n: nat, m: nat)
    requires |xs| == |ws| == n + 1 && 1 <= m && 2 * m <= n
    requires forall k :: 0 <= k <= n ==> Term(f, xs, ws, k) == WeightedNode(f, a, h, n, k)
    ensures PrefixWeighted(PartialSum(f, xs, ws, 2 * m), f(a), StrideSum(f, a, h, 1, 2, m), StrideSum(f, a, h, 2, 2, m - 1))
    decreases m
  {
    var e := 2 * (m - 1);
    PairStep(f, xs, ws, a, h, n, m, e);
    if m == 1 {
      FirstPair(PartialSum(f, xs, ws, 2), f(a), f(Node(a, h, 1)), StrideSum(f, a, h, 1, 2, 1), StrideSum(f, a, h, 2, 2, 0));
    } else {
      PrefixIsWeighted(f, xs, ws, a, h, n, m - 1);
      NextPair(PartialSum(f, xs, ws, e), PartialSum(f, xs, ws, 2 * m), f(a), StrideSum(f, a, h, 1, 2, m - 1),
               StrideSum(f, a, h, 1, 2, m), StrideSum(f, a, h, 2, 2, m - 2), StrideSum(f, a, h, 2, 2, m - 1),
               f(Node(a, h, e)), f(Node(a, h, e + 1)));
    }
  }

  /** The two loops together weight every interior index exactly once, 4 if odd and 2 if even:
      the value is (h/3) times the weighted sum over the n + 1 grid points. */
  lemma {:induction false} RuleIsWeightedSum(f: real -> real, i: Interval, p: SolverParams)
    requires Check(p) == None
    ensures Rule(f, i, p).value.value
         == Num((Width(i, p.n) / 3.0) * WeightedSum(f, GridNodes(i.a, Width(i, p.n), p.n), Weights(p.n)))
  {
    var h, n, m := Width(i, p.n), p.n, p.n / 2;
    var xs, ws := GridNodes(i.a, h, n), Weights(n);
    LastNode(i.a, i.b, n);
    GridTerms(f, i.a, h, n);
    PrefixIsWeighted(f, xs, ws, i.a, h, n, m);
    assert 2 * m == n;
    assert xs[n] == i.b && ws[n] == 1.0;
    assert WeightedSum(f, xs, ws) == PartialSum(f, xs, ws, n) + 1.0 * f(xs[n]);
  }

  /** Only the sampled points matter: integrands that agree on SamplePoints give the same result. */
  lemma SampledOnly(f: real -> real, g: real -> real, i: Interval, p: SolverParams)
    requires Check(p) == None
    requires forall x :: x in SamplePoints(i, p) ==> f(x) == g(x)
    ensures Rule(f, i, p) == Rule(g, i, p)
  {
    BracketSampledOnly(f, g, i, p);
    assert Rule(f, i, p).value == Rule(g, i, p).value;
  }

  /** The bracket itself only looks at the sampled points. */
  lemma BracketSampledOnly(f: real -> real, g: real -> real, i: Interval, p: SolverParams)
    requires Check(p) == None
    requires forall x :: x in SamplePoints(i, p) ==> f(x) == g(x)
    ensures Bracket(f, i, Width(i, p.n), p.n / 2) == Bracket(g, i, Width(i, p.n), p.n / 2)
  {
    var h, m := Width(i, p.n), p.n / 2;
    assert i.a in SamplePoints(i, p) && i.b in SamplePoints(i, p);
    forall x | x in StrideNodes(i.a, h, 1, 2, m) ensures f(x) == g(x) {
      assert x in SamplePoints(i, p);
    }
    forall x | x in StrideNodes(i.a, h, 2, 2, m - 1) ensures f(x) == g(x) {
      assert x in SamplePoints(i, p);
    }
    StrideSumCongruent(f, g, i.a, h, 1, 2, m);
    StrideSumCongruent(f, g, i.a, h, 2, 2, m - 1);
  }

  /** Panels telescope: when every panel is exact, the first m panels together are exact. */
  lemma {:induction false} PrefixExact(f: real -> real, P: real -> real, a: real, h: real, m: nat)
    requires forall x :: PanelExact(f, P, x, h)
    requires m >= 1
    ensures RunExact(h, f(Node(a, h, 0)), f(Node(a, h, 2 * m)), StrideSum(f, a, h, 1, 2, m),
                     StrideSum(f, a, h, 2, 2, m - 1), P(Node(a, h, 0)), P(Node(a, h, 2 * m)))
  {
    var m1 := m - 1;
    var e := 2 * m1;
    var x := Node(a, h, e);
    PanelNodes(a, h, e, 2 * m);
    StrideLast(f, a, h, 1, 2, m, e + 1);
    assert PanelExact(f, P, x, h);
    var fN, pN := f(Node(a, h, 2 * m)), P(Node(a, h, 2 * m));
    var so1, se1 := StrideSum(f, a, h, 1, 2, m), StrideSum(f, a, h, 2, 2, m1);
    if m1 == 0 {
      FirstPanel(f, P, x, h, fN, so1, se1, pN);
    } else {
      PrefixExact(f, P, a, h, m1);
      StrideLast(f, a, h, 2, 2, m1, e);
      NextPanel(f, P, x, h, f(Node(a, h, 0)), fN, StrideSum(f, a, h, 1, 2, m1), so1,
                StrideSum(f, a, h, 2, 2, m1 - 1), se1, P(Node(a, h, 0)), pN);
    }
  }

  /** The two grid points after index e are one and two steps of h further. */
  lemma PanelNodes(a: real, h: real, e: nat, e2: nat)
    requires e2 == e + 2
    ensures Node(a, h, e + 1) == Node(a, h, e) + h && Node(a, h, e2) == Node(a, h, e) + 2.0 * h
  {
  }

  /** Whenever every panel is exact against P, the whole rule returns P(b) - P(a). */
  lemma RuleTelescopes(f: real -> real, P: real -> real, i: Interval, p: SolverParams)
    requires Check(p) == None
    requires forall x :: PanelExact(f, P, x, Width(i, p.n))
    ensures Rule(f, i, p).value.value == Num(P(i.b) - P(i.a))
  {
    var h, m := Width(i, p.n), p.n / 2;
    LastNode(i.a, i.b, p.n);
    assert 2 * m == p.n;
    PrefixExact(f, P, i.a, h, m);
    assert Rule(f, i, p).value.value
        == Num((h / 3.0) * Bracket(f, i, h, m));
  }

  /** Over exact reals the rule integrates every polynomial of degree at most 3 exactly, for every
      accepted n: the value is P(b) - P(a) for the antiderivative P. */
  lemma ExactOnCubic(f: real -> real, q: Poly3, i: Interval, p: SolverParams)
    requires forall x :: f(x) == q.At(x)
    requires Check(p) == None
    ensures Rule(f, i, p).value.value == Num(q.Primitive(i.b) - q.Primitive(i.a))
  {
    var h := Width(i, p.n);
    var P := x => q.Primitive(x);
    forall x ensures PanelExact(f, P, x, h) {
      SimpsonPanel(q, x, h);
      assert f(x) == q.At(x) && f(x + h) == q.At(x + h) && f(x + 2.0 * h) == q.At(x + 2.0 * h);
    }
    RuleTelescopes(f, P, i, p);
  }
}
