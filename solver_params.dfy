/** The `SolverParams` record of include/core/Solver.hpp. */
module Params {
  import opened Errors

  /** `std::uint32_t`, the type of the optional seed. */
  type UInt32 = s: int | 0 <= s < 0x1_0000_0000

  datatype SolverParams = SolverParams(
    n: nat,                      // subintervals, for the grid rules
    nSamples: nat,               // Monte Carlo sample count
    seed: Option<UInt32>,        // optional generator seed
    computeErrorEstimate: bool)

  /** `SolverParams{}`: the default member initialisers. */
  function Default(): (p: SolverParams)
    ensures p.n == 1000 && p.nSamples == 100000
    ensures p.seed == None && p.computeErrorEstimate
  {
    SolverParams(1000, 100000, None, true)
  }
}
