/** Why Welford's one-pass update in Code/src/solvers/MonteCarloUniform.cpp keeps the running mean
    and the running sum of squared deviations: the step lemmas pass the relations of
    SampleStatistics between each other whole, and only the arithmetic lemmas look inside them. */
module WelfordUpdate {
  import opened SampleStatistics

  lemma SumLast(ys: seq<real>, k: nat)
    requires 1 <= k <= |ys|
    ensures Appends(Sum(ys, k - 1), Sum(ys, k), ys[k - 1])
  {
  }

  lemma CountLast(k: nat)
    requires k >= 1
    ensures Appends(Count(k - 1), Count(k), 1.0)
  {
  }

  lemma SqDevLast(ys: seq<real>, mu: real, k: nat)
    requires 1 <= k <= |ys|
    ensures AddsSquare(SqDev(ys, mu, k - 1), SqDev(ys, mu, k), ys[k - 1], mu)
  {
  }

  /** Moving the centre from mu to nu changes the squared deviations of the first c samples by
      (mu - nu)*(2*sum - c*(mu + nu)). */
  lemma {:induction false} SqDevShift(ys: seq<real>, mu: real, nu: real, c: nat)
    requires c <= |ys|
    ensures Shifted(SqDev(ys, mu, c), SqDev(ys, nu, c), Sum(ys, c), Count(c), mu, nu)
  {
    if c > 0 {
      SqDevShift(ys, mu, nu, c - 1);
      SqDevLast(ys, mu, c);
      SqDevLast(ys, nu, c);
      SumLast(ys, c);
      CountLast(c);
      ShiftStep(SqDev(ys, mu, c - 1), SqDev(ys, nu, c - 1), SqDev(ys, mu, c), SqDev(ys, nu, c),
                Sum(ys, c - 1), Sum(ys, c), Count(c - 1), Count(c), ys[c - 1], mu, nu);
    }
  }

  /** One more value y keeps Shifted: m2, m2', sum and count before it, n2, n2', sum1 and count1
      after it. */
  lemma ShiftStep(m2: real, m2': real, n2: real, n2': real, sum: real, sum1: real, count: real, count1: real,
                  y: real, mu: real, nu: real)
    requires Shifted(m2, m2', sum, count, mu, nu)
    requires AddsSquare(m2, n2, y, mu) && AddsSquare(m2', n2', y, nu)
    requires Appends(sum, sum1, y) && Appends(count, count1, 1.0)
    ensures Shifted(n2, n2', sum1, count1, mu, nu)
  {
    assert (y - nu) * (y - nu) - (y - mu) * (y - mu) == (mu - nu) * (2.0 * y - (mu + nu));
  }

  /** Welford's mean update for the k-th sample y = ys[k-1]: the running mean moves by
      (y - mean)/k and becomes the mean of k samples. */
  lemma MeanStep(ys: seq<real>, k: nat, mean: real)
    requires 1 <= k <= |ys|
    requires mean == Mean(ys, k - 1)
    ensures var mean' := mean + (ys[k - 1] - mean) / Count(k);
            mean' == Mean(ys, k) && IsMean(Sum(ys, k - 1), Count(k - 1), mean) && Moves(Count(k), mean, mean', ys[k - 1])
  {
    SumLast(ys, k);
    CountLast(k);
    MeanAlgebra(Sum(ys, k - 1), Sum(ys, k), Count(k - 1), Count(k), ys[k - 1], mean);
  }

  /** The arithmetic behind MeanStep: `mean` is the mean of cr values summing to `sum` (0 when there
      are none), and one more value y is added. */
  lemma MeanAlgebra(sum: real, sum1: real, cr: real, cr1: real, y: real, mean: real)
    requires cr >= 0.0 && Appends(cr, cr1, 1.0) && Appends(sum, sum1, y)
    requires if cr == 0.0 then sum == 0.0 && mean == 0.0 else mean == sum / cr
    ensures mean + (y - mean) / cr1 == sum1 / cr1
    ensures IsMean(sum, cr, mean) && Moves(cr1, mean, mean + (y - mean) / cr1, y)
  {
    var d := (y - mean) / cr1;
    assert cr1 * d == y - mean;
    assert cr1 * (mean + d) == sum + y;
  }

  /** Welford's m2 update for the k-th sample y = ys[k-1]: with mean' the updated mean, the squared
      deviations from mean' of k samples are those from mean of k - 1 samples plus
      (y - mean)*(y - mean'). */
  lemma M2Step(ys: seq<real>, k: nat, mean: real, mean': real)
    requires 1 <= k <= |ys|
    requires IsMean(Sum(ys, k - 1), Count(k - 1), mean) && Moves(Count(k), mean, mean', ys[k - 1])
    ensures WelfordM2(SqDev(ys, mean, k - 1), SqDev(ys, mean', k), ys[k - 1], mean, mean')
  {
    SqDevShift(ys, mean, mean', k - 1);
    SqDevLast(ys, mean', k);
    CountLast(k);
    WelfordAlgebra(SqDev(ys, mean, k - 1), SqDev(ys, mean', k - 1), SqDev(ys, mean', k), Sum(ys, k - 1),
                   Count(k - 1), Count(k), ys[k - 1], mean, mean');
  }

  /** The arithmetic behind M2Step: m2 and m2' are the squared deviations of cr values from mean,
      their mean, and from mean', and n2' adds one more value y to m2'. */
  lemma WelfordAlgebra(m2: real, m2': real, n2': real, sum: real, cr: real, cr1: real, y: real, mean: real, mean': real)
    requires Shifted(m2, m2', sum, cr, mean, mean') && AddsSquare(m2', n2', y, mean')
    requires IsMean(sum, cr, mean) && Appends(cr, cr1, 1.0) && Moves(cr1, mean, mean', y)
    ensures WelfordM2(m2, n2', y, mean, mean')
  {
    var d := mean' - mean;
    assert m2' == m2 + cr * (d * d) by {
      assert 2.0 * sum - cr * (mean + mean') == -cr * d;
    }
    assert y - mean' == cr * d;
    calc {
      cr * (d * d) + (cr * d) * (cr * d);
      ((cr + 1.0) * d) * (cr * d);
    }
  }

  /** Welford's update for the k-th sample y, with the count k as Count(k): it takes Running from
      k - 1 samples to k. */
  lemma RunningStep(ys: seq<real>, k: nat, mean: real, m2: real, mean': real, m2': real)
    requires 1 <= k <= |ys|
    requires Running(ys, k - 1, mean, m2)
    requires mean' == mean + (ys[k - 1] - mean) / Count(k)
    requires m2' == m2 + (ys[k - 1] - mean) * (ys[k - 1] - mean')
    ensures Running(ys, k, mean', m2')
  {
    MeanStep(ys, k, mean);
    M2Step(ys, k, mean, mean');
  }

  /** One pass of the loop body, for the k-th sample y: with delta = y - mean, the update
      mean' = mean + delta/k, m2' = m2 + delta*(y - mean') takes Running from k - 1 samples to k. */
  lemma WelfordStep(ys: seq<real>, k: nat, y: real, mean: real, m2: real)
    requires 1 <= k <= |ys| && y == ys[k - 1]
    requires Running(ys, k - 1, mean, m2)
    ensures var mean' := mean + (y - mean) / (k as real);
            Running(ys, k, mean', m2 + (y - mean) * (y - mean'))
  {
    CountIsReal(k);
    var mean' := mean + (y - mean) / (k as real);
    RunningStep(ys, k, mean, m2, mean', m2 + (y - mean) * (y - mean'));
  }
}
