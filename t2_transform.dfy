/** include/functions/T2Transform.hpp: the substitution x = t^2, which turns the integral of f over
    [0, 1] into the integral of t |-> f(t^2) * 2t over [0, 1]. */
module T2Transforms {
  import opened Intervals
  import opened Results
  import opened Params
  import opened Polynomials
  import CompositeSimpson

  /** A named 1-D function (`Function`): the value it computes and the name it reports. */
  datatype Function1D = Function1D(apply: real -> real, name: string)

  /** The name `Function::name()` reports unless a subclass overrides it. */
  const BaseFunctionName := "Function"

  /** A function that keeps the base class's name. */
  function Unnamed(apply: real -> real): (fn: Function1D)
    ensures fn.name == BaseFunctionName && forall x :: fn.apply(x) == apply(x)
  {
    Function1D(apply, BaseFunctionName)
  }

  /** The transform holds its base function, the value it reports at t = 0 (the limit there) and
      an optional custom name, empty by default. */
  datatype T2Transform = T2Transform(base: Function1D, valueAtT0: real, customName: string)

  /** The constructor with its default (empty) custom name. */
  function New(base: Function1D, valueAtT0: real, customName: string := ""): (tr: T2Transform)
    ensures tr.base == base && tr.valueAtT0 == valueAtT0 && tr.customName == customName
  {
    T2Transform(base, valueAtT0, customName)
  }

  const Prefix := "T2Transform("
  const Suffix := ")"

  /** `operator()`: the stored limit at t = 0, elsewhere f(t*t) * 2 * t. */
  function Apply(tr: T2Transform, t: real): (y: real)
    ensures t == 0.0 ==> y == tr.valueAtT0
    ensures t != 0.0 ==> y == 2.0 * t * tr.base.apply(t * t)
  {
    if t == 0.0 then tr.valueAtT0 else tr.base.apply(t * t) * 2.0 * t
  }

  /** `name()`: the custom name when one was given, otherwise the base name wrapped. */
  function Name(tr: T2Transform): (n: string)
    ensures tr.customName != "" ==> n == tr.customName
    ensures tr.customName == "" ==> |n| == |Prefix| + |tr.base.name| + |Suffix|
  {
    if tr.customName != "" then tr.customName else Prefix + tr.base.name + Suffix
  }

  /** The transform as a plain integrand. */
  function AsIntegrand(tr: T2Transform): (g: real -> real)
    ensures forall t :: g(t) == Apply(tr, t)
  {
    t => Apply(tr, t)
  }

  /** At t = 0 the value is the stored limit, whatever the base function computes. */
  lemma AtZero(tr: T2Transform, other: Function1D)
    ensures Apply(tr, 0.0) == tr.valueAtT0
    ensures Apply(tr, 0.0) == Apply(tr.(base := other), 0.0)
  {
  }

  /** Away from 0 the value is f(t^2) * 2t, and it depends on the base only at t^2. */
  lemma AwayFromZero(tr: T2Transform, t: real)
    requires t != 0.0
    ensures Apply(tr, t) == 2.0 * t * tr.base.apply(t * t)
    ensures forall v :: Apply(tr.(valueAtT0 := v), t) == Apply(tr, t)
  {
  }

  /** Away from 0 the transform is odd: the values at -t and t are opposite. */
  lemma OddAwayFromZero(tr: T2Transform, t: real)
    requires t != 0.0
    ensures Apply(tr, -t) == -Apply(tr, t)
  {
    assert (-t) * (-t) == t * t;
  }

  /** A non-empty custom name is reported as is; with none, the name is "T2Transform(" + base
      name + ")", from which the base name can be read back. */
  lemma NameShape(tr: T2Transform)
    ensures tr.customName != "" ==> Name(tr) == tr.customName
    ensures tr.customName == "" ==>
              |Name(tr)| == |Prefix| + |tr.base.name| + |Suffix|
              && Name(tr)[..|Prefix|] == Prefix
              && Name(tr)[|Prefix|..|Name(tr)| - |Suffix|] == tr.base.name
              && Name(tr)[|Name(tr)| - |Suffix|..] == Suffix
  {
    if tr.customName == "" {
      var s := Name(tr);
      assert s == Prefix + tr.base.name + Suffix;
      assert s[..|Prefix|] == Prefix;
      assert s[|Prefix|..|s| - |Suffix|] == tr.base.name;
    }
  }

  /** Without custom names, two transforms report the same name exactly when their bases do. */
  lemma DefaultNamesIdentifyBase(tr: T2Transform, other: T2Transform)
    requires tr.customName == "" && other.customName == ""
    ensures Name(tr) == Name(other) <==> tr.base.name == other.base.name
  {
    NameShape(tr);
    NameShape(other);
  }

  /** The substitution is exact where Simpson's rule can see it: for a linear base c0 + c1 x with
      limit 0 at t = 0, the transformed integrand 2 c0 t + 2 c1 t^3 is a cubic, so Simpson's rule
      over [0, 1] returns c0 + c1 / 2, the integral of the base itself over [0, 1]. */
  lemma SubstitutionExactOnLinear(tr: T2Transform, c0: real, c1: real, p: SolverParams)
    requires forall x :: tr.base.apply(x) == c0 + c1 * x
    requires tr.valueAtT0 == 0.0
    requires CompositeSimpson.Check(p).None?
    ensures CompositeSimpson.Rule(AsIntegrand(tr), Bounds(0.0, 1.0), p).value.value == Num(c0 + c1 / 2.0)
  {
    var q := Poly3(0.0, 2.0 * c0, 0.0, 2.0 * c1);
    var g := AsIntegrand(tr);
    forall t ensures g(t) == q.At(t) {
      if t != 0.0 {
        assert tr.base.apply(t * t) == c0 + c1 * (t * t);
      }
    }
    CompositeSimpson.ExactOnCubic(g, q, Bounds(0.0, 1.0), p);
  }
}
