/** The 2-D demo integrals of apps/demo.cpp: the polynomial integrands of
    include/functions/ProductXY2D.hpp and Code/include/functions/SumSquaresXY2D.hpp over the
    rectangle [0, 1] x [2, 3], integrated by nested solvers of the same kind. */
module NestedExamples {
  import opened Errors
  import opened Intervals
  import opened Results
  import opened Params
  import opened Domains
  import opened Polynomials
  import Solvers
  import opened NestedIntegration
  import CompositeTrapezoid
  import CompositeSimpson

  /** `ProductXY2D`: f(x, y) = x * y. */
  function ProductXY(): (real, real) -> real {
    (x, y) => x * y
  }

  /** `SumSquaresXY2D`: f(x, y) = x^2 + y^2. */
  function SumSquaresXY(): (real, real) -> real {
    (x, y) => x * x + y * y
  }

  /** The demo's domain: x in [0, 1], y between the constant bounds 2 and 3. */
  function Rectangle(): (d: Domain2D)
    ensures d.XInterval() == Bounds(0.0, 1.0)
    ensures forall x :: d.YMin(x) == 2.0 && d.YMax(x) == 3.0
  {
    Domain2D(Bounds(0.0, 1.0), _ => 2.0, _ => 3.0)
  }

  /** The exact integral of x * y over the rectangle, as the demo states it. */
  const ProductExact: real := 1.25

  /** The exact integral of x^2 + y^2 over the rectangle: 1/3 + 19/3. */
  const SumSquaresExact: real := 20.0 / 3.0

  /** The value the demo lists as exact for x^2 + y^2 (apps/demo.cpp:247). */
  const StatedSumSquaresExact: real := 19.0 / 9.0

  /** The inner trapezoid solve of x * y over [2, 3] is exact: 2.5 x. */
  lemma ProductFibre(p: SolverParams, x: real)
    requires p.n >= 1
    ensures InnerResult(NestedIntegral2D(Solvers.Trapezoid, Solvers.Trapezoid), ProductXY(), Rectangle(), p, x)
         == CompositeTrapezoid.Rule(Fibre(ProductXY(), x), Bounds(2.0, 3.0), p)
    ensures CompositeTrapezoid.Rule(Fibre(ProductXY(), x), Bounds(2.0, 3.0), p).value.value == Num(2.5 * x)
  {
    var g := Fibre(ProductXY(), x);
    assert forall y :: g(y) == 0.0 + x * y;
    CompositeTrapezoid.ExactOnLinear(g, 0.0, x, Bounds(2.0, 3.0), p);
  }

  /** Trapezoid inside trapezoid is exact on x * y: each fibre gives 2.5 x, and the outer rule is
      exact on that linear function. This holds for every accepted n, in particular the demo's.
      The outer solver's n + 1 evaluations are the only ones reported. */
  lemma {:induction false} ProductByTrapezoids(p: SolverParams)
    requires p.n >= 1
    ensures Integrate(NestedIntegral2D(Solvers.Trapezoid, Solvers.Trapezoid), ProductXY(), Rectangle(), p).Ok?
    ensures Integrate(NestedIntegral2D(Solvers.Trapezoid, Solvers.Trapezoid), ProductXY(), Rectangle(), p).value.value
         == Num(ProductExact)
    ensures Integrate(NestedIntegral2D(Solvers.Trapezoid, Solvers.Trapezoid), ProductXY(), Rectangle(), p).value.evaluations
         == p.n + 1
  {
    var nest, f, d := NestedIntegral2D(Solvers.Trapezoid, Solvers.Trapezoid), ProductXY(), Rectangle();
    var q := Poly3(0.0, 2.5, 0.0, 0.0);
    var F := OuterIntegrand(nest, f, d, p);
    forall x ensures F(x) == q.At(x) {
      ProductFibre(p, x);
    }
    SuccessIff(nest, f, d, p);
    CompositeTrapezoid.ExactOnLinearPoly(F, q, d.XInterval(), p);
  }

  /** The inner Simpson solve of x^2 + y^2 over [2, 3] is exact: x^2 + 19/3. */
  lemma SumSquaresFibre(p: SolverParams, x: real)
    requires p.n >= 2 && p.n % 2 == 0
    ensures InnerResult(NestedIntegral2D(Solvers.Simpson, Solvers.Simpson), SumSquaresXY(), Rectangle(), p, x)
         == CompositeSimpson.Rule(Fibre(SumSquaresXY(), x), Bounds(2.0, 3.0), p)
    ensures CompositeSimpson.Rule(Fibre(SumSquaresXY(), x), Bounds(2.0, 3.0), p).value.value
         == Num(x * x + 19.0 / 3.0)
  {
    var g := Fibre(SumSquaresXY(), x);
    var q := Poly3(x * x, 0.0, 1.0, 0.0);
    assert forall y :: g(y) == q.At(y);
    CompositeSimpson.ExactOnCubic(g, q, Bounds(2.0, 3.0), p);
  }

  /** Simpson inside Simpson is exact on x^2 + y^2 for every accepted n, so the result is the true
      integral 20/3. */
  lemma {:induction false} SumSquaresBySimpson(p: SolverParams)
    requires p.n >= 2 && p.n % 2 == 0
    ensures Integrate(NestedIntegral2D(Solvers.Simpson, Solvers.Simpson), SumSquaresXY(), Rectangle(), p).Ok?
    ensures Integrate(NestedIntegral2D(Solvers.Simpson, Solvers.Simpson), SumSquaresXY(), Rectangle(), p).value.value
         == Num(SumSquaresExact)
  {
    var nest, f, d := NestedIntegral2D(Solvers.Simpson, Solvers.Simpson), SumSquaresXY(), Rectangle();
    var q := Poly3(19.0 / 3.0, 0.0, 1.0, 0.0);
    var F := OuterIntegrand(nest, f, d, p);
    forall x ensures F(x) == q.At(x) {
      SumSquaresFibre(p, x);
    }
    SuccessIff(nest, f, d, p);
    CompositeSimpson.ExactOnCubic(F, q, d.XInterval(), p);
  }

  /** The value the demo prints next to the Simpson/Simpson result as "exact" is not the integral:
      with the demo's n = 2000 the exact-real result is 20/3, which differs from the stated 19/9. */
  lemma StatedSumSquaresExactIsWrong()
    ensures Integrate(NestedIntegral2D(Solvers.Simpson, Solvers.Simpson), SumSquaresXY(), Rectangle(),
                      SolverParams(2000, 200000, None, true)).value.value
         != Num(StatedSumSquaresExact)
  {
    SumSquaresBySimpson(SolverParams(2000, 200000, None, true));
  }
}
