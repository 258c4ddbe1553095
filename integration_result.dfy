/** include/core/IntegrationResult.hpp: what every solver call returns. */
module Results {

  /** A `double` as the core uses it: a real number, or the NaN that marks a failed call. */
  datatype Value = Num(num: real) | NaN

  datatype IntegrationResult = IntegrationResult(
    value: Value,             // approximate integral
    evaluations: nat,         // integrand calls attributed to this result
    hasErrorEstimate: bool,   // whether errorEstimate is meaningful
    errorEstimate: real,
    meta: map<string, real>,  // auxiliary diagnostics, e.g. "var_f" and "seed"
    success: bool)

  /** `IntegrationResult{}`: the default member initialisers. */
  function Default(): (r: IntegrationResult)
    ensures r.value == Num(0.0) && r.evaluations == 0
    ensures !r.hasErrorEstimate && r.errorEstimate == 0.0
    ensures r.meta == map[]
    ensures r.success
  {
    IntegrationResult(Num(0.0), 0, false, 0.0, map[], true)
  }
}
