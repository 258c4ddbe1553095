/** src/solvers/GaussLegendre.cpp: fixed-order Gauss-Legendre quadrature with tabulated nodes and
    weights on [-1, 1], mapped affinely onto [a, b]. */
module GaussLegendre {
  import opened Errors
  import opened Intervals
  import opened Results
  import opened Params
  import opened Quadrature

  const OrderMessage := "GaussLegendre: order must be 2, 3, or 5"

  /** The order used when none is given to the constructor. */
  const DefaultOrder: nat := 5

  type Order = k: nat | k == 2 || k == 3 || k == 5 witness 5

  /** The tables of the source: nodes x2, x3, x5 and weights w2, w3, w5 on [-1, 1]. */
  const X2: seq<real> := [-0.5773502691896257, 0.5773502691896257]
  const W2: seq<real> := [1.0, 1.0]
  const X3: seq<real> := [-0.7745966692414834, 0.0, 0.7745966692414834]
  const W3: seq<real> := [0.5555555555555556, 0.8888888888888888, 0.5555555555555556]
  const X5: seq<real> := [-0.9061798459386640, -0.5384693101056831, 0.0, 0.5384693101056831, 0.9061798459386640]
  const W5: seq<real> := [0.2369268850561891, 0.4786286704993665, 0.5688888888888889, 0.4786286704993665, 0.2369268850561891]

  /** A constructed `GaussLegendreSolver`: its only state is the order it was built with. */
  datatype GaussLegendreSolver = GaussLegendreSolver(order: Order)

  /** The constructor: every order other than 2, 3 and 5 is refused. */
  function New(order: nat): (r: Result<GaussLegendreSolver>)
    ensures r.Ok? <==> order == 2 || order == 3 || order == 5
    ensures r.Ok? ==> r.value.order == order
    ensures r.Err? ==> r.error == InvalidArgument(OrderMessage)
  {
    if order == 2 || order == 3 || order == 5 then Ok(GaussLegendreSolver(order)) else Err(InvalidArgument(OrderMessage))
  }

  /** The default-constructed solver is accepted and has five nodes. */
  lemma DefaultIsOrderFive()
    ensures New(DefaultOrder).Ok? && New(DefaultOrder).value.order == 5
  {
  }

  /** `name()`: the order is written with `std::to_string`, which for 2, 3 and 5 is one digit. */
  function Name(s: GaussLegendreSolver): (n: string)
    ensures |n| == 22 && n[..20] == "GaussLegendre(order=" && n[20] as int - '0' as int == s.order && n[21] == ')'
  {
    "GaussLegendre(order=" + [(48 + s.order) as char] + ")"
  }

  /** The name identifies the solver: two solvers with the same name have the same order. */
  lemma NameIdentifies(s: GaussLegendreSolver, t: GaussLegendreSolver)
    requires Name(s) == Name(t)
    ensures s == t
  {
    assert Name(s)[20] == Name(t)[20];
  }

  /** The node table of an order. */
  function Nodes(order: Order): (xs: seq<real>)
    ensures |xs| == order
  {
    if order == 2 then X2 else if order == 3 then X3 else X5
  }

  /** The weight table of an order. */
  function Weights(order: Order): (ws: seq<real>)
    ensures |ws| == order
  {
    if order == 2 then W2 else if order == 3 then W3 else W5
  }

  /** Every node table is antisymmetric about 0 and lies strictly inside (-1, 1); every weight
      table is symmetric and positive. */
  lemma TablesSymmetric(order: Order)
    ensures forall k :: 0 <= k < order ==> Nodes(order)[k] == -Nodes(order)[order - 1 - k]
    ensures forall k :: 0 <= k < order ==> -1.0 < Nodes(order)[k] < 1.0
    ensures forall k :: 0 <= k < order ==> Weights(order)[k] == Weights(order)[order - 1 - k]
    ensures forall k :: 0 <= k < order ==> Weights(order)[k] > 0.0
  {
  }

  /** The midpoint (a + b)/2 and half-length (b - a)/2 of the affine map from [-1, 1]. */
  function Mid(i: Interval): real {
    0.5 * (i.a + i.b)
  }

  function Half(i: Interval): real {
    0.5 * (i.b - i.a)
  }

  /** The image of reference nodes xs on [-1, 1] under u |-> mid + half*u. */
  function Mapped(xs: seq<real>, mid: real, half: real): (us: seq<real>)
    ensures |us| == |xs|
    ensures forall k :: 0 <= k < |xs| ==> us[k] == mid + half * xs[k]
  {
    seq(|xs|, k requires 0 <= k < |xs| => mid + half * xs[k])
  }

  /** Where `integrate` calls the integrand, in calling order: mid + half*x[k] for each node. */
  function SamplePoints(s: GaussLegendreSolver, i: Interval): (us: seq<real>)
    ensures |us| == s.order
    ensures forall k :: 0 <= k < |us| ==> us[k] == Mid(i) + Half(i) * Nodes(s.order)[k]
  {
    Mapped(Nodes(s.order), Mid(i), Half(i))
  }

  /** Every sample point lies strictly inside (a, b): the endpoints are never evaluated. */
  lemma SamplesInside(s: GaussLegendreSolver, i: Interval)
    ensures forall u :: u in SamplePoints(s, i) ==> i.a < u < i.b
  {
    var us, xs, half := SamplePoints(s, i), Nodes(s.order), Half(i);
    TablesSymmetric(s.order);
    forall k | 0 <= k < |us| ensures i.a < us[k] < i.b {
      assert half * (1.0 + xs[k]) > 0.0 && half * (1.0 - xs[k]) > 0.0;
    }
  }

  /** What `integrate` computes: half * sum of w[k]*f(mid + half*x[k]), with one evaluation per
      node, no error estimate and empty meta. The parameters are accepted and ignored. */
  function Rule(f: real -> real, s: GaussLegendreSolver, i: Interval, p: SolverParams): (r: IntegrationResult)
    ensures r.evaluations == |SamplePoints(s, i)| == s.order
    ensures !r.hasErrorEstimate && r.meta == map[] && r.value.Num?
  {
    var v := Half(i) * WeightedSum(f, SamplePoints(s, i), Weights(s.order));
    Results.Default().(value := Num(v), evaluations := s.order, hasErrorEstimate := false)
  }

  /** The "select rule" branch of `integrate`: the node and weight tables and their length m. */
  method SelectTable(order: Order) returns (x: seq<real>, w: seq<real>, m: nat)
    ensures x == Nodes(order) && w == Weights(order) && m == order
  {
    if order == 2 {
      x, w, m := X2, W2, 2;
    } else if order == 3 {
      x, w, m := X3, W3, 3;
    } else {
      x, w, m := X5, W5, 5;
    }
  }

  /** The accumulation loop of `integrate`: sum of w[k]*f(mid + half*x[k]) in index order. */
  method Accumulate(f: real -> real, x: seq<real>, w: seq<real>, mid: real, half: real) returns (sum: real)
    requires |x| == |w|
    ensures sum == WeightedSum(f, Mapped(x, mid, half), w)
  {
    ghost var us := Mapped(x, mid, half);
    sum := 0.0;
    for k := 0 to |x|
      invariant sum == PartialSum(f, us, w, k)
    {
      var u := mid + half * x[k];
      sum := sum + w[k] * f(u);
    }
  }

  /** `GaussLegendreSolver::integrate`: select the table, map it onto [a, b] and accumulate. */
  method Integrate(f: real -> real, s: GaussLegendreSolver, i: Interval, p: SolverParams) returns (r: IntegrationResult)
    ensures r == Rule(f, s, i, p)
  {
    var x, w, m := SelectTable(s.order);
    var mid := 0.5 * (i.a + i.b);
    var half := 0.5 * (i.b - i.a);
    var sum := Accumulate(f, x, w, mid, half);
    r := Results.Default();
    r := r.(value := Num(half * sum));
    r := r.(evaluations := m);
    r := r.(hasErrorEstimate := false);
  }

  /** The parameters play no part: any two parameter records give the same result. */
  lemma ParamsIgnored(f: real -> real, s: GaussLegendreSolver, i: Interval, p: SolverParams, q: SolverParams)
    ensures Rule(f, s, i, p) == Rule(f, s, i, q)
  {
  }

  /** Only the sampled points matter: integrands that agree on SamplePoints give the same result. */
  lemma SampledOnly(f: real -> real, g: real -> real, s: GaussLegendreSolver, i: Interval, p: SolverParams)
    requires forall x :: x in SamplePoints(s, i) ==> f(x) == g(x)
    ensures Rule(f, s, i, p) == Rule(g, s, i, p)
  {
    var us := SamplePoints(s, i);
    forall k | 0 <= k < |us| ensures f(us[k]) == g(us[k]) {
      assert us[k] in us;
    }
    PartialSumCongruent(f, g, us, Weights(s.order), |us|);
  }

  /** The weight literals of orders 2 and 3 sum to exactly 2, the length of [-1, 1]; those of
      order 5 are truncated decimals that sum to 2.0000000000000001. */
  lemma WeightTotals()
    ensures Total(Weights(2), 2) == 2.0
    ensures Total(Weights(3), 3) == 2.0
    ensures Total(Weights(5), 5) == 2.0000000000000001
  {
  }

  /** Antisymmetric nodes with symmetric weights have a zero first moment. */
  lemma MomentZero(order: Order)
    ensures Moment(Nodes(order), Weights(order), order) == 0.0
  {
  }

  /** For any table whose first moment vanishes, the mapped rule sees c0 + c1*x only through its
      value at the midpoint: the weighted sum is the total weight times c0 + c1*mid. */
  lemma {:induction false} AffineSum(f: real -> real, c0: real, c1: real, xs: seq<real>, ws: seq<real>,
                                     mid: real, half: real)
    requires |xs| == |ws|
    requires Moment(xs, ws, |xs|) == 0.0
    requires forall x :: f(x) == c0 + c1 * x
    ensures WeightedSum(f, Mapped(xs, mid, half), ws) == Total(ws, |ws|) * (c0 + c1 * mid)
  {
    var us, n := Mapped(xs, mid, half), |ws|;
    PartialSumAffine(f, c0, c1, us, ws, n);
    MomentAffine(xs, us, ws, mid, half, n);
    AffineCollapse(PartialSum(f, us, ws, n), Total(ws, n), Moment(us, ws, n), Moment(xs, ws, n), c0, c1, mid, half);
  }

  /** With the node moment mx zero, s = c0*total + c1*(mid*total + half*mx) is total*(c0 + c1*mid). */
  lemma AffineCollapse(s: real, total: real, mu: real, mx: real, c0: real, c1: real, mid: real, half: real)
    requires s == c0 * total + c1 * mu && mu == mid * total + half * mx && mx == 0.0
    ensures s == total * (c0 + c1 * mid)
  {
  }

  /** half * (W * (c0 + c1*mid)) is W/2 times the exact integral of c0 + c1*x over [a, b]. */
  lemma ScaledIntegral(a: real, b: real, total: real, c0: real, c1: real)
    ensures 0.5 * (b - a) * (total * (c0 + c1 * (0.5 * (a + b))))
         == (total / 2.0) * (c0 * (b - a) + c1 * (b * b - a * a) / 2.0)
  {
    var half, mid := 0.5 * (b - a), 0.5 * (a + b);
    assert half * mid == (b * b - a * a) / 4.0;
    calc {
      half * (total * (c0 + c1 * mid));
      total * (c0 * half + c1 * (half * mid));
      (total / 2.0) * (c0 * (b - a) + c1 * (b * b - a * a) / 2.0);
    }
  }

  /** On c0 + c1*x the rule returns the exact integral c0*(b - a) + c1*(b*b - a*a)/2 scaled by half the
      total weight: exactly the integral for orders 2 and 3, and that integral times
      1.00000000000000005 for order 5. */
  lemma OnLinear(f: real -> real, c0: real, c1: real, s: GaussLegendreSolver, i: Interval, p: SolverParams)
    requires forall x :: f(x) == c0 + c1 * x
    ensures Rule(f, s, i, p).value
         == Num((Total(Weights(s.order), s.order) / 2.0) * (c0 * (i.b - i.a) + c1 * (i.b * i.b - i.a * i.a) / 2.0))
  {
    var xs, ws := Nodes(s.order), Weights(s.order);
    MomentZero(s.order);
    AffineSum(f, c0, c1, xs, ws, Mid(i), Half(i));
    ScaledIntegral(i.a, i.b, Total(ws, |ws|), c0, c1);
  }

  /** Orders 2 and 3 integrate every c0 + c1*x exactly over exact reals. */
  lemma ExactOnLinear(f: real -> real, c0: real, c1: real, s: GaussLegendreSolver, i: Interval, p: SolverParams)
    requires forall x :: f(x) == c0 + c1 * x
    requires s.order != 5
    ensures Rule(f, s, i, p).value == Num(c0 * (i.b - i.a) + c1 * (i.b * i.b - i.a * i.a) / 2.0)
  {
    OnLinear(f, c0, c1, s, i, p);
    WeightTotals();
  }

  /** Mirrored nodes carry opposite terms when the integrand is odd about mid. */
  lemma MirroredTermsCancel(f: real -> real, xs: seq<real>, ws: seq<real>, mid: real, half: real)
    requires |xs| == |ws|
    requires forall k :: 0 <= k < |xs| ==> xs[k] == -xs[|xs| - 1 - k] && ws[k] == ws[|xs| - 1 - k]
    requires forall x :: f(x) == -f(2.0 * mid - x)
    ensures forall k :: 0 <= k < |xs| ==>
      Term(f, Mapped(xs, mid, half), ws, k) == -Term(f, Mapped(xs, mid, half), ws, |xs| - 1 - k)
  {
    var us, m := Mapped(xs, mid, half), |xs|;
    forall k | 0 <= k < m ensures Term(f, us, ws, k) == -Term(f, us, ws, m - 1 - k) {
      MirroredNode(xs, us, mid, half, k, m - 1 - k);
    }
  }

  /** The image of a node and the image of its mirror are symmetric about mid. */
  lemma MirroredNode(xs: seq<real>, us: seq<real>, mid: real, half: real, k: nat, j: nat)
    requires k < |xs| && j < |xs| && xs[k] == -xs[j] && us == Mapped(xs, mid, half)
    ensures 2.0 * mid - us[k] == us[j]
  {
  }

  /** For a table with antisymmetric nodes and symmetric weights of length 2, 3 or 5, an integrand
      odd about mid has a zero weighted sum: mirrored terms cancel, and the middle node of an odd
      length sees f(mid) = 0. */
  lemma MirroredSumVanishes(f: real -> real, xs: seq<real>, ws: seq<real>, mid: real, half: real)
    requires |xs| == |ws| && (|xs| == 2 || |xs| == 3 || |xs| == 5)
    requires forall k :: 0 <= k < |xs| ==> xs[k] == -xs[|xs| - 1 - k] && ws[k] == ws[|xs| - 1 - k]
    requires forall x :: f(x) == -f(2.0 * mid - x)
    ensures WeightedSum(f, Mapped(xs, mid, half), ws) == 0.0
  {
    MirroredTermsCancel(f, xs, ws, mid, half);
    PairedSumVanishes(f, Mapped(xs, mid, half), ws);
  }

  /** A weighted sum of length 2, 3 or 5 whose mirrored terms are opposite is zero. */
  lemma PairedSumVanishes(f: real -> real, us: seq<real>, ws: seq<real>)
    requires |us| == |ws| && (|us| == 2 || |us| == 3 || |us| == 5)
    requires forall k :: 0 <= k < |us| ==> Term(f, us, ws, k) == -Term(f, us, ws, |us| - 1 - k)
    ensures WeightedSum(f, us, ws) == 0.0
  {
    var m := |us|;
    PartialSumTwo(f, us, ws, 0, 2);
    assert Term(f, us, ws, 0) == -Term(f, us, ws, m - 1);
    if m == 3 {
      assert Term(f, us, ws, 1) == -Term(f, us, ws, 1);
    } else if m == 5 {
      PartialSumTwo(f, us, ws, 2, 4);
      assert Term(f, us, ws, 1) == -Term(f, us, ws, 3);
      assert Term(f, us, ws, 2) == -Term(f, us, ws, 2);
    }
  }

  /** An integrand odd about the midpoint of [a, b] integrates to 0, whatever the order. */
  lemma OddIntegrandVanishes(f: real -> real, s: GaussLegendreSolver, i: Interval, p: SolverParams)
    requires forall x :: f(x) == -f(i.a + i.b - x)
    ensures Rule(f, s, i, p).value == Num(0.0)
  {
    TablesSymmetric(s.order);
    forall x ensures f(x) == -f(2.0 * Mid(i) - x) {
      assert 2.0 * Mid(i) == i.a + i.b;
    }
    MirroredSumVanishes(f, Nodes(s.order), Weights(s.order), Mid(i), Half(i));
  }
}
