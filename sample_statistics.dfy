/** The running statistics of Code/src/solvers/MonteCarloUniform.cpp: the sum, mean and squared
    deviations of the first samples, and why Welford's one-pass update keeps them. */
module SampleStatistics {
  /** ys[0] + ... + ys[count-1]. */
  function Sum(ys: seq<real>, count: nat): real
    requires count <= |ys|
  {
    if count == 0 then 0.0 else Sum(ys, count - 1) + ys[count - 1]
  }

  /** The number `count` as a real, one sample at a time: 0.0, 1.0, 2.0, ... */
  function Count(count: nat): (r: real)
    ensures r >= 0.0 && (count > 0 ==> r >= 1.0)
  {
    if count == 0 then 0.0 else Count(count - 1) + 1.0
  }

  /** Count is the conversion the loop's `double(i)` performs. */
  lemma {:induction false} CountIsReal(count: nat)
    ensures Count(count) == count as real
  {
    if count > 0 {
      CountIsReal(count - 1);
    }
  }

  /** The mean of the first `count` samples; 0 before any sample, as `mean` starts. */
  function Mean(ys: seq<real>, count: nat): real
    requires count <= |ys|
  {
    if count == 0 then 0.0 else Sum(ys, count) / Count(count)
  }

  /** The sum of squared deviations of the first `count` samples from mu. */
  function SqDev(ys: seq<real>, mu: real, count: nat): real
    requires count <= |ys|
  {
    if count == 0 then 0.0 else SqDev(ys, mu, count - 1) + (ys[count - 1] - mu) * (ys[count - 1] - mu)
  }

  lemma {:induction false} SqDevNonNegative(ys: seq<real>, mu: real, count: nat)
    requires count <= |ys|
    ensures SqDev(ys, mu, count) >= 0.0
  {
    if count > 0 {
      SqDevNonNegative(ys, mu, count - 1);
    }
  }

  // One more sample, as named relations between plain reals; module WelfordUpdate proves them.

  /** `after` is `before` plus y. */
  ghost predicate Appends(before: real, after: real, y: real)
  {
    after == before + y
  }

  /** `after` is `before` plus the squared deviation of y from mu. */
  ghost predicate AddsSquare(before: real, after: real, y: real, mu: real)
  {
    after == before + (y - mu) * (y - mu)
  }

  /** `mean` is the mean of `count` values summing to `sum` (scaled out, so that it also holds for
      no values and mean 0). */
  ghost predicate IsMean(sum: real, count: real, mean: real)
  {
    sum == count * mean
  }

  /** Welford's mean update: `count` times the move from mean to mean' is y - mean. */
  ghost predicate Moves(count: real, mean: real, mean': real, y: real)
  {
    count * (mean' - mean) == y - mean
  }

  /** m2 and m2' are the squared deviations of `count` values summing to `sum` from mu and from nu. */
  ghost predicate Shifted(m2: real, m2': real, sum: real, count: real, mu: real, nu: real)
  {
    m2' - m2 == (mu - nu) * (2.0 * sum - count * (mu + nu))
  }

  /** Welford's m2 update: m2' is m2 plus (y - mean)*(y - mean'). */
  ghost predicate WelfordM2(m2: real, m2': real, y: real, mean: real, mean': real)
  {
    m2' == m2 + (y - mean) * (y - mean')
  }

  /** The loop's invariant after `count` samples: `mean` is their mean and `m2` the sum of their
      squared deviations from it. */
  ghost predicate Running(ys: seq<real>, count: nat, mean: real, m2: real)
  {
    count <= |ys| && mean == Mean(ys, count) && m2 == SqDev(ys, mean, count)
  }

  /** Every sample mean of a constant integrand is that constant. */
  lemma {:induction false} ConstantMean(ys: seq<real>, c: real, count: nat)
    requires count <= |ys|
    requires forall k :: 0 <= k < |ys| ==> ys[k] == c
    ensures Sum(ys, count) == Count(count) * c
    ensures SqDev(ys, c, count) == 0.0
  {
    if count > 0 {
      ConstantMean(ys, c, count - 1);
    }
  }
}
