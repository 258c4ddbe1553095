/** include/core/Solver.hpp: the abstract `Solver` with its concrete algorithms, dispatched by
    case, and `integrate_safe`, which turns a refused call into a uniform failed result. */
module Solvers {
  import opened Errors
  import opened Intervals
  import opened Results
  import opened Params
  import CompositeTrapezoid
  import CompositeSimpson
  import GaussLegendre
  import MonteCarloUniform

  /** The concrete solvers of the core. A Gauss-Legendre solver carries its order; a Monte Carlo
      solver carries the generator, entropy source and square root it calls. */
  datatype Solver =
    | Trapezoid
    | Simpson
    | Gauss(gl: GaussLegendre.GaussLegendreSolver)
    | MonteCarlo(rt: MonteCarloUniform.Runtime)

  /** The name of the base class, used by no concrete solver. */
  const BaseName := "Solver"

  /** `name()` as each solver overrides it. */
  function Name(s: Solver): (n: string)
    ensures n != BaseName
    ensures s.Gauss? ==> n == GaussLegendre.Name(s.gl)
  {
    match s
    case Trapezoid => "CompositeTrapezoid"
    case Simpson => "CompositeSimpson"
    case Gauss(gl) => GaussLegendre.Name(gl)
    case MonteCarlo(_) => "MonteCarloUniform"
  }

  /** Every concrete solver overrides the base name, and the name tells the algorithm (and, for
      Gauss-Legendre, the order) apart: equal names mean the same kind of solver. */
  lemma NamesIdentify(s: Solver, t: Solver)
    requires Name(s) == Name(t)
    ensures s.Trapezoid? <==> t.Trapezoid?
    ensures s.Simpson? <==> t.Simpson?
    ensures s.MonteCarlo? <==> t.MonteCarlo?
    ensures s.Gauss? ==> t.Gauss? && s.gl == t.gl
  {
    assert |Name(s)| == |Name(t)|;
    if s.Gauss? && t.Gauss? {
      GaussLegendre.NameIdentifies(s.gl, t.gl);
    }
  }

  lemma NameIsOverridden(s: Solver)
    ensures Name(s) != BaseName
  {
    assert |Name(s)| != |BaseName|;
  }

  /** The parameter check each solver makes before it calls the integrand. */
  function Check(s: Solver, p: SolverParams): (e: Option<Error>)
    ensures s.Trapezoid? ==> (e == None <==> p.n >= 1)
    ensures s.Simpson? ==> (e == None <==> p.n >= 2 && p.n % 2 == 0)
    ensures s.Gauss? ==> e == None
    ensures s.MonteCarlo? ==> (e == None <==> p.nSamples >= 1)
  {
    match s
    case Trapezoid => CompositeTrapezoid.Check(p)
    case Simpson => CompositeSimpson.Check(p)
    case Gauss(_) => None
    case MonteCarlo(_) => MonteCarloUniform.Check(p)
  }

  /** Where `integrate` calls the integrand, in calling order. */
  function SamplePoints(s: Solver, i: Interval, p: SolverParams): (xs: seq<real>)
    requires Check(s, p) == None
    ensures |xs| >= 1
  {
    match s
    case Trapezoid => CompositeTrapezoid.SamplePoints(i, p)
    case Simpson => CompositeSimpson.SamplePoints(i, p)
    case Gauss(gl) => GaussLegendre.SamplePoints(gl, i)
    case MonteCarlo(rt) => MonteCarloUniform.SamplePoints(rt, i, p)
  }

  /** `integrate`, dispatched to the concrete solver: it fails exactly when the parameter check
      fails, with that check's error; otherwise it reports one evaluation per sample point and a
      real value. */
  function Outcome(s: Solver, f: real -> real, i: Interval, p: SolverParams): (r: Result<IntegrationResult>)
    ensures r.Err? <==> Check(s, p).Some?
    ensures r.Err? ==> r.error == Check(s, p).value
    ensures r.Ok? ==> r.value.evaluations == |SamplePoints(s, i, p)| && r.value.value.Num? && r.value.success
  {
    match s
    case Trapezoid => CompositeTrapezoid.Rule(f, i, p)
    case Simpson => CompositeSimpson.Rule(f, i, p)
    case Gauss(gl) => Ok(GaussLegendre.Rule(f, gl, i, p))
    case MonteCarlo(rt) => MonteCarloUniform.Rule(f, rt, i, p)
  }

  /** Only the sampled points matter, for every solver. */
  lemma SampledOnly(s: Solver, f: real -> real, g: real -> real, i: Interval, p: SolverParams)
    requires Check(s, p) == None
    requires forall x :: x in SamplePoints(s, i, p) ==> f(x) == g(x)
    ensures Outcome(s, f, i, p) == Outcome(s, g, i, p)
  {
    match s
    case Trapezoid => CompositeTrapezoid.SampledOnly(f, g, i, p);
    case Simpson => CompositeSimpson.SampledOnly(f, g, i, p);
    case Gauss(gl) => GaussLegendre.SampledOnly(f, g, gl, i, p);
    case MonteCarlo(rt) => MonteCarloUniform.SampledOnly(f, g, rt, i, p);
  }

  /** The virtual call `integrate(f, I, p)`. */
  method Integrate(s: Solver, f: real -> real, i: Interval, p: SolverParams) returns (r: Result<IntegrationResult>)
    ensures r == Outcome(s, f, i, p)
  {
    match s
    case Trapezoid => r := CompositeTrapezoid.Integrate(f, i, p);
    case Simpson => r := CompositeSimpson.Integrate(f, i, p);
    case Gauss(gl) => {
      var res := GaussLegendre.Integrate(f, gl, i, p);
      r := Ok(res);
    }
    case MonteCarlo(rt) => r := MonteCarloUniform.Integrate(f, rt, i, p);
  }

  /** The result `integrate_safe` reports when `integrate` throws. */
  function Failed(): (r: IntegrationResult)
    ensures !r.success && r.value == NaN && r.evaluations == 0
    ensures !r.hasErrorEstimate && r.errorEstimate == 0.0 && r.meta == map[]
  {
    Results.Default().(success := false, value := NaN, evaluations := 0, errorEstimate := 0.0,
                       hasErrorEstimate := false)
  }

  /** `integrate_safe`: never fails. On success it is `integrate`'s result with `success` set;
      on a refused call it is the default result marked failed, with NaN value and no
      evaluations, error estimate or meta. */
  method IntegrateSafe(s: Solver, f: real -> real, i: Interval, p: SolverParams) returns (result: IntegrationResult)
    ensures Check(s, p) == None ==> result == Outcome(s, f, i, p).value.(success := true)
    ensures Check(s, p) != None ==> result == Failed()
    ensures result.success <==> Check(s, p) == None
  {
    result := Results.Default();
    var r := Integrate(s, f, i, p);
    if r.Ok? {
      result := r.value;
      result := result.(success := true);
    } else {
      result := result.(success := false);
      result := result.(value := NaN);
      result := result.(evaluations := 0);
      result := result.(errorEstimate := 0.0);
      result := result.(hasErrorEstimate := false);
    }
  }

  /** Every solver accepts the default parameters. */
  lemma DefaultsAccepted(s: Solver)
    ensures Check(s, Params.Default()) == None
  {
  }
}
