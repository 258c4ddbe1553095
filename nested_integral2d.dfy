/** Code/src/solvers/NestedIntegral2D.cpp: a 2-D integral over a domain, computed as an outer 1-D
    solve over x whose integrand at x is an inner 1-D solve over the fibre [y_min(x), y_max(x)]. */
module NestedIntegration {
  import opened Errors
  import opened Intervals
  import opened Results
  import opened Params
  import opened Domains
  import opened Solvers

  /** A nested integrator holds the two solvers it was constructed with. */
  datatype NestedIntegral2D = NestedIntegral2D(outer: Solver, inner: Solver)

  /** `Fy`: the 2-D integrand with x held fixed. */
  function Fibre(f: (real, real) -> real, x: real): (g: real -> real)
    ensures forall y :: g(y) == f(x, y)
  {
    y => f(x, y)
  }

  /** `inner_integral(x)` up to the final `.value`: build the fibre interval, which throws when
      y_max(x) <= y_min(x), then call the inner solver's raw `integrate` with the same params. */
  function InnerResult(nest: NestedIntegral2D, f: (real, real) -> real, d: Domain2D, p: SolverParams, x: real)
    : (r: Result<IntegrationResult>)
    ensures d.YMax(x) <= d.YMin(x) ==> r == Err(InvalidArgument(IntervalMessage))
    ensures d.YMin(x) < d.YMax(x) ==> r == Outcome(nest.inner, Fibre(f, x), Bounds(d.YMin(x), d.YMax(x)), p)
    ensures r.Ok? <==> d.YMin(x) < d.YMax(x) && Check(nest.inner, p) == None
  {
    var iy :- Intervals.New(d.YMin(x), d.YMax(x));
    Outcome(nest.inner, Fibre(f, x), iy, p)
  }

  /** `Fx`: the outer integrand, the inner result's value at x. Its evaluation count and error
      estimate are dropped. Where the inner call throws there is no value; the throw ends the whole
      call, so the placeholder 0 is never used. */
  function OuterIntegrand(nest: NestedIntegral2D, f: (real, real) -> real, d: Domain2D, p: SolverParams): real -> real {
    x => var r := InnerResult(nest, f, d, p, x); if r.Ok? && r.value.value.Num? then r.value.value.num else 0.0
  }

  /** The error of the first failed result of rs, in order. */
  function FirstErr<T>(rs: seq<Result<T>>): (e: Option<Error>)
    ensures e.None? <==> forall k :: 0 <= k < |rs| ==> rs[k].Ok?
    ensures e.Some? ==> exists k :: 0 <= k < |rs| && rs[k] == Err(e.value) && forall j :: 0 <= j < k ==> rs[j].Ok?
  {
    if |rs| == 0 then None
    else if rs[0].Err? then Some(rs[0].error)
    else
      var e := FirstErr(rs[1..]);
      assert forall k :: 1 <= k < |rs| ==> rs[1..][k - 1] == rs[k];
      e
  }

  /** The inner computation at each point of xs, in order. */
  function InnerResults(nest: NestedIntegral2D, f: (real, real) -> real, d: Domain2D, p: SolverParams, xs: seq<real>)
    : (rs: seq<Result<IntegrationResult>>)
    ensures |rs| == |xs| && forall k :: 0 <= k < |xs| ==> rs[k] == InnerResult(nest, f, d, p, xs[k])
  {
    seq(|xs|, k requires 0 <= k < |xs| => InnerResult(nest, f, d, p, xs[k]))
  }

  /** `NestedIntegral2D::integrate`. The outer solver's parameter check comes first; then the
      outer solver samples x in its own order, and the first x whose inner computation throws
      decides the error; otherwise the result is exactly the outer solver's result on Fx. */
  function Integrate(nest: NestedIntegral2D, f: (real, real) -> real, d: Domain2D, p: SolverParams)
    : (r: Result<IntegrationResult>)
    ensures Check(nest.outer, p).Some? ==> r == Err(Check(nest.outer, p).value)
    ensures r.Ok? <==> (Check(nest.outer, p) == None
                        && forall x :: x in SamplePoints(nest.outer, d.XInterval(), p) ==> InnerResult(nest, f, d, p, x).Ok?)
    ensures r.Ok? ==> r == Outcome(nest.outer, OuterIntegrand(nest, f, d, p), d.XInterval(), p)
    ensures r.Ok? ==> r.value.evaluations == |SamplePoints(nest.outer, d.XInterval(), p)|
  {
    if Check(nest.outer, p).Some? then Err(Check(nest.outer, p).value)
    else
      var xs := SamplePoints(nest.outer, d.XInterval(), p);
      var e := FirstErr(InnerResults(nest, f, d, p, xs));
      assert e.None? <==> forall x :: x in xs ==> InnerResult(nest, f, d, p, x).Ok? by {
        assert forall k :: 0 <= k < |xs| ==> xs[k] in xs;
      }
      if e.Some? then Err(e.value)
      else Outcome(nest.outer, OuterIntegrand(nest, f, d, p), d.XInterval(), p)
  }

  /** The call succeeds exactly when both solvers accept the parameters and every fibre the outer
      solver visits is a non-empty interval. */
  lemma SuccessIff(nest: NestedIntegral2D, f: (real, real) -> real, d: Domain2D, p: SolverParams)
    ensures Integrate(nest, f, d, p).Ok?
        <==> (Check(nest.outer, p) == None && Check(nest.inner, p) == None
              && forall x :: x in SamplePoints(nest.outer, d.XInterval(), p) ==> d.YMin(x) < d.YMax(x))
  {
    if Check(nest.outer, p) == None {
      var xs := SamplePoints(nest.outer, d.XInterval(), p);
      assert xs[0] in xs;
    }
  }

  /** A visited fibre with y_max(x) <= y_min(x) makes the whole call fail; when the inner solver
      accepts the parameters, the error is the interval error. */
  lemma InvertedFibreFails(nest: NestedIntegral2D, f: (real, real) -> real, d: Domain2D, p: SolverParams, x: real)
    requires Check(nest.outer, p) == None
    requires x in SamplePoints(nest.outer, d.XInterval(), p) && d.YMax(x) <= d.YMin(x)
    ensures Integrate(nest, f, d, p).Err?
    ensures Check(nest.inner, p) == None ==> Integrate(nest, f, d, p) == Err(InvalidArgument(IntervalMessage))
  {
    var xs := SamplePoints(nest.outer, d.XInterval(), p);
    var rs := InnerResults(nest, f, d, p, xs);
    var e := FirstErr(rs);
    assert InnerResult(nest, f, d, p, x).Err?;
    if Check(nest.inner, p) == None {
      var k :| 0 <= k < |rs| && rs[k] == Err(e.value);
      assert d.YMax(xs[k]) <= d.YMin(xs[k]);
    }
  }

  /** Inner failures propagate: with every visited fibre non-empty and the outer parameters
      accepted, an inner parameter error is the error of the whole call. */
  lemma InnerFailurePropagates(nest: NestedIntegral2D, f: (real, real) -> real, d: Domain2D, p: SolverParams)
    requires Check(nest.outer, p) == None && Check(nest.inner, p).Some?
    requires forall x :: x in SamplePoints(nest.outer, d.XInterval(), p) ==> d.YMin(x) < d.YMax(x)
    ensures Integrate(nest, f, d, p) == Err(Check(nest.inner, p).value)
  {
    var xs := SamplePoints(nest.outer, d.XInterval(), p);
    assert xs[0] in xs;
    var rs := InnerResults(nest, f, d, p, xs);
    var e := FirstErr(rs);
    var k :| 0 <= k < |rs| && rs[k] == Err(e.value);
    assert xs[k] in xs;
  }
}
