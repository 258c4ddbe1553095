/** Code/src/solvers/MonteCarloUniform.cpp: plain Monte Carlo with uniform sampling on [a, b] and
    Welford's one-pass mean and variance. */
module MonteCarloUniform {
  import opened Errors
  import opened Intervals
  import opened Results
  import opened Params
  import opened SampleStatistics
  import opened WelfordUpdate

  const SamplesMessage := "MonteCarloUniform: n_samples must be >= 1"

  /** The parameter check at the top of `integrate`: only n_samples == 0 is refused. */
  function Check(p: SolverParams): (e: Option<Error>)
    ensures e == None <==> p.nSamples >= 1
    ensures e != None ==> e == Some(InvalidArgument(SamplesMessage))
  {
    if p.nSamples == 0 then Some(InvalidArgument(SamplesMessage)) else None
  }

  /** A canonical variate in [0, 1). */
  type Unit = u: real | 0.0 <= u < 1.0

  /** The library facilities `integrate` relies on, as inputs. `variate(s, k)` is the k-th variate
      (counting from 0) that `std::uniform_real_distribution` draws from a `std::mt19937` seeded with
      s, before scaling to [a, b); `entropy` is the value `std::random_device` yields; `sqrt` is
      `std::sqrt`. */
  datatype Runtime = Runtime(variate: (UInt32, nat) -> Unit, entropy: UInt32, sqrt: real -> real)

  /** The seed the generator is started from: the given one, else fresh entropy. */
  function Seed(rt: Runtime, p: SolverParams): (s: UInt32)
    ensures p.seed.Some? ==> s == p.seed.value
    ensures p.seed.None? ==> s == rt.entropy
  {
    if p.seed.Some? then p.seed.value else rt.entropy
  }

  /** The k-th sample point: the k-th variate scaled onto [a, b). */
  function Draw(rt: Runtime, i: Interval, seed: UInt32, k: nat): (x: real)
    ensures i.a <= x < i.b
  {
    ScaleBelow(i.a, i.b, Length(i), rt.variate(seed, k));
    i.a + Length(i) * rt.variate(seed, k)
  }

  lemma ScaleBelow(a: real, b: real, len: real, u: real)
    requires len > 0.0 && a + len == b && 0.0 <= u < 1.0
    ensures a <= a + len * u < b
  {
    assert len * (1.0 - u) > 0.0;
  }

  /** The first n draws from a generator started at `seed`. */
  function Draws(rt: Runtime, i: Interval, seed: UInt32, n: nat): (xs: seq<real>)
    ensures |xs| == n
    ensures forall k :: 0 <= k < n ==> xs[k] == Draw(rt, i, seed, k)
  {
    seq(n, k requires 0 <= k < n => Draw(rt, i, seed, k))
  }

  /** The integrand at the first n draws. */
  function Values(f: real -> real, rt: Runtime, i: Interval, seed: UInt32, n: nat): (ys: seq<real>)
    ensures |ys| == n
    ensures forall k :: 0 <= k < n ==> ys[k] == f(Draw(rt, i, seed, k))
  {
    seq(n, k requires 0 <= k < n => f(Draw(rt, i, seed, k)))
  }

  /** Where `integrate` calls the integrand, in calling order: one draw per sample, all in [a, b). */
  function SamplePoints(rt: Runtime, i: Interval, p: SolverParams): (xs: seq<real>)
    ensures |xs| == p.nSamples
    ensures forall k :: 0 <= k < |xs| ==> i.a <= xs[k] < i.b
  {
    Draws(rt, i, Seed(rt, p), p.nSamples)
  }

  /** The sampled integrand values y_0, ..., y_{n-1}. */
  function Samples(f: real -> real, rt: Runtime, i: Interval, p: SolverParams): (ys: seq<real>)
    ensures |ys| == p.nSamples
  {
    Values(f, rt, i, Seed(rt, p), p.nSamples)
  }

  /** The two-pass sample variance: m2/(n - 1) for n > 1, and 0 for a single sample. It is never
      negative. */
  function Variance(ys: seq<real>): (v: real)
    requires |ys| >= 1
    ensures v >= 0.0
  {
    var n := |ys|;
    SqDevNonNegative(ys, Mean(ys, n), n);
    if n > 1 then SqDev(ys, Mean(ys, n), n) / ((n - 1) as real) else 0.0
  }

  /** The part of `integrate` after the loop, given the samples: value L*mean and n evaluations;
      an error estimate L*sqrt(var_f/n) with meta "var_f" exactly when one was asked for and n > 1;
      meta "seed" exactly when a seed was given, and no other key. */
  function Summary(ys: seq<real>, len: real, sqrt: real -> real, p: SolverParams): (r: IntegrationResult)
    requires |ys| == p.nSamples >= 1
    ensures r.evaluations == p.nSamples && r.value == Num(len * Mean(ys, |ys|))
    ensures r.hasErrorEstimate <==> p.computeErrorEstimate && p.nSamples > 1
    ensures r.hasErrorEstimate ==> r.errorEstimate == len * sqrt(Variance(ys) / (p.nSamples as real))
    ensures "var_f" in r.meta <==> r.hasErrorEstimate
    ensures "var_f" in r.meta ==> r.meta["var_f"] == Variance(ys)
    ensures "seed" in r.meta <==> p.seed.Some?
    ensures p.seed.Some? ==> r.meta["seed"] == p.seed.value as real
    ensures r.meta.Keys <= {"var_f", "seed"}
  {
    var estimated := p.computeErrorEstimate && |ys| > 1;
    var withVar: map<string, real> := if estimated then map["var_f" := Variance(ys)] else map[];
    var meta := if p.seed.Some? then withVar["seed" := p.seed.value as real] else withVar;
    var estimate := if estimated then len * sqrt(Variance(ys) / (|ys| as real)) else 0.0;
    IntegrationResult(Num(len * Mean(ys, |ys|)), |ys|, estimated, estimate, meta, true)
  }

  /** What `integrate` computes: the n_samples check, then the summary of the sampled values. */
  function Rule(f: real -> real, rt: Runtime, i: Interval, p: SolverParams): (r: Result<IntegrationResult>)
    ensures r.Err? <==> p.nSamples == 0
    ensures r.Err? ==> r.error == InvalidArgument(SamplesMessage)
    ensures r.Ok? ==> r.value == Summary(Samples(f, rt, i, p), Length(i), rt.sqrt, p)
  {
    if p.nSamples == 0 then Err(InvalidArgument(SamplesMessage))
    else Ok(Summary(Samples(f, rt, i, p), Length(i), rt.sqrt, p))
  }

  /** Welford's loop over the first n draws from `seed`: it leaves `mean` the sample mean and `m2`
      the sum of squared deviations from it. */
  method Welford(f: real -> real, rt: Runtime, i: Interval, seed: UInt32, n: nat) returns (mean: real, m2: real)
    ensures mean == Mean(Values(f, rt, i, seed, n), n)
    ensures m2 == SqDev(Values(f, rt, i, seed, n), mean, n)
  {
    ghost var ys := Values(f, rt, i, seed, n);
    mean, m2 := 0.0, 0.0;
    for k := 1 to n + 1
      invariant Running(ys, k - 1, mean, m2)
    {
      var x := Draw(rt, i, seed, k - 1);
      var y := f(x);
      WelfordStep(ys, k, y, mean, m2);
      var delta := y - mean;
      mean := mean + delta / (k as real);
      var delta2 := y - mean;
      m2 := m2 + delta * delta2;
    }
  }

  /** `MonteCarloUniformSolver::integrate`: seed the generator, run Welford's loop over the draws,
      then fill in the value, the optional error estimate and the meta entries. */
  method Integrate(f: real -> real, rt: Runtime, i: Interval, p: SolverParams) returns (r: Result<IntegrationResult>)
    ensures r == Rule(f, rt, i, p)
  {
    if p.nSamples == 0 {
      return Err(InvalidArgument(SamplesMessage));
    }
    var L, n := Length(i), p.nSamples;
    var seed: UInt32;
    if p.seed.Some? {
      seed := p.seed.value;
    } else {
      seed := rt.entropy;
    }
    var mean, m2 := Welford(f, rt, i, seed, n);
    ghost var ys := Samples(f, rt, i, p);
    assert ys == Values(f, rt, i, seed, n);
    var res := Finish(mean, m2, L, rt.sqrt, p, ys);
    return Ok(res);
  }

  /** The part of `integrate` after the loop: var_f from m2, then the result's value, evaluation
      count, optional error estimate and meta entries, as Summary describes them for the samples
      ys whose mean and squared deviations the loop left. */
  method Finish(mean: real, m2: real, L: real, sqrt: real -> real, p: SolverParams, ghost ys: seq<real>)
      returns (res: IntegrationResult)
    requires |ys| == p.nSamples >= 1
    requires mean == Mean(ys, |ys|) && m2 == SqDev(ys, mean, |ys|)
    ensures res == Summary(ys, L, sqrt, p)
  {
    var n := p.nSamples;
    var varF := if n > 1 then m2 / ((n - 1) as real) else 0.0;
    assert varF == Variance(ys);
    res := Results.Default();
    res := res.(value := Num(L * mean));
    res := res.(evaluations := n);
    if p.computeErrorEstimate && n > 1 {
      res := res.(hasErrorEstimate := true);
      res := res.(errorEstimate := L * sqrt(varF / (n as real)));
      res := res.(meta := res.meta["var_f" := varF]);
    }
    if p.seed.Some? {
      res := res.(meta := res.meta["seed" := p.seed.value as real]);
    }
  }

  /** With `sqrt` a square root, the error estimate is a non-negative number whose square is
      L^2 * var_f / n. */
  lemma ErrorEstimateSquared(f: real -> real, rt: Runtime, i: Interval, p: SolverParams)
    requires forall x :: x >= 0.0 ==> rt.sqrt(x) >= 0.0 && rt.sqrt(x) * rt.sqrt(x) == x
    requires Rule(f, rt, i, p).Ok? && Rule(f, rt, i, p).value.hasErrorEstimate
    ensures Rule(f, rt, i, p).value.errorEstimate >= 0.0
    ensures var r, L := Rule(f, rt, i, p).value, Length(i);
            r.errorEstimate * r.errorEstimate == L * L * (r.meta["var_f"] / (p.nSamples as real))
  {
    var ys, n, L := Samples(f, rt, i, p), p.nSamples as real, Length(i);
    var v := Variance(ys) / n;
    var s := rt.sqrt(v);
    assert s >= 0.0 && s * s == v;
    assert Rule(f, rt, i, p).value.errorEstimate == L * s;
    assert (L * s) * (L * s) == L * L * (s * s);
  }

  /** A constant integrand c gives exactly c*(b - a), whatever the draws, and zero sample variance. */
  lemma ExactOnConstant(f: real -> real, c: real, rt: Runtime, i: Interval, p: SolverParams)
    requires forall x :: f(x) == c
    requires p.nSamples >= 1
    ensures Rule(f, rt, i, p).Ok?
    ensures Rule(f, rt, i, p).value.value == Num(c * (i.b - i.a))
    ensures Variance(Samples(f, rt, i, p)) == 0.0
  {
    var ys, n := Samples(f, rt, i, p), p.nSamples;
    ConstantMean(ys, c, n);
    assert Mean(ys, n) == c;
  }

  /** Given the seed, the result does not depend on the entropy source: a seeded run is
      reproducible. */
  lemma SeededReproducible(f: real -> real, rt: Runtime, entropy: UInt32, i: Interval, p: SolverParams)
    requires p.seed.Some?
    ensures Rule(f, rt, i, p) == Rule(f, rt.(entropy := entropy), i, p)
  {
    assert Samples(f, rt, i, p) == Samples(f, rt.(entropy := entropy), i, p);
  }

  /** Only the sampled points matter: integrands that agree on the draws give the same result. */
  lemma SampledOnly(f: real -> real, g: real -> real, rt: Runtime, i: Interval, p: SolverParams)
    requires forall x :: x in SamplePoints(rt, i, p) ==> f(x) == g(x)
    ensures Rule(f, rt, i, p) == Rule(g, rt, i, p)
  {
    var xs := SamplePoints(rt, i, p);
    forall k | 0 <= k < |xs| ensures f(xs[k]) == g(xs[k]) {
      assert xs[k] in xs;
    }
    assert Samples(f, rt, i, p) == Samples(g, rt, i, p);
  }
}
