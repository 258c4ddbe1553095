/** Sums shared by the grid rules: equally spaced nodes, strided sums accumulated in loop order,
    and the textbook "nodes and weights" form of a quadrature rule. */
module Quadrature {
  import opened Intervals

  /** The panel width h = (b - a)/n of the grid rules. */
  function Width(i: Interval, n: nat): real
    requires n > 0
  {
    (i.b - i.a) / (n as real)
  }

  /** The grid point i steps of width h to the right of a. */
  function Node(a: real, h: real, i: nat): real {
    if i == 0 then a else Node(a, h, i - 1) + h
  }

  /** The grid point is the value `a + h * double(i)` that the solvers compute. */
  lemma {:induction false} NodeClosedForm(a: real, h: real, i: nat)
    ensures Node(a, h, i) == a + h * (i as real)
  {
    if i > 0 {
      NodeClosedForm(a, h, i - 1);
      assert h * (i as real) == h * ((i - 1) as real) + h;
    }
  }

  /** With h = (b - a)/n the n-th grid point is b itself. */
  lemma LastNode(a: real, b: real, n: nat)
    requires n > 0
    ensures Node(a, (b - a) / (n as real), n) == b
  {
    NodeClosedForm(a, (b - a) / (n as real), n);
  }

  /** f(Node(start)) + f(Node(start + stride)) + ... over `count` terms, added in that order. */
  function StrideSum(f: real -> real, a: real, h: real, start: nat, stride: nat, count: nat): real
  {
    if count == 0 then 0.0
    else StrideSum(f, a, h, start, stride, count - 1) + f(Node(a, h, start + stride * (count - 1)))
  }

  /** The last term of a strided sum is the integrand at grid index idx. */
  lemma StrideLast(f: real -> real, a: real, h: real, start: nat, stride: nat, count: nat, idx: nat)
    requires count >= 1 && idx == start + stride * (count - 1)
    ensures StrideSum(f, a, h, start, stride, count) - StrideSum(f, a, h, start, stride, count - 1) == f(Node(a, h, idx))
  {
  }

  /** The points a strided loop visits, in visiting order. */
  function StrideNodes(a: real, h: real, start: nat, stride: nat, count: nat): (xs: seq<real>)
    ensures |xs| == count
    ensures forall j :: 0 <= j < count ==> xs[j] == Node(a, h, start + stride * j)
  {
    seq(count, j requires 0 <= j < count => Node(a, h, start + stride * j))
  }

  /** A strided sum only looks at the integrand on the points the loop visits. */
  lemma {:induction false} StrideSumCongruent(f: real -> real, g: real -> real, a: real, h: real,
                                              start: nat, stride: nat, count: nat)
    requires forall x :: x in StrideNodes(a, h, start, stride, count) ==> f(x) == g(x)
    ensures StrideSum(f, a, h, start, stride, count) == StrideSum(g, a, h, start, stride, count)
  {
    if count > 0 {
      var xs := StrideNodes(a, h, start, stride, count);
      forall x | x in StrideNodes(a, h, start, stride, count - 1) ensures f(x) == g(x) {
        var j :| 0 <= j < count - 1 && StrideNodes(a, h, start, stride, count - 1)[j] == x;
        assert xs[j] == x;
      }
      StrideSumCongruent(f, g, a, h, start, stride, count - 1);
      assert xs[count - 1] in xs;
    }
  }

  /** The n + 1 grid points a, a + h, ..., a + n*h. */
  function GridNodes(a: real, h: real, n: nat): (xs: seq<real>)
    ensures |xs| == n + 1
    ensures forall i {:trigger xs[i]} :: 0 <= i <= n ==> xs[i] == Node(a, h, i)
  {
    seq(n + 1, i requires 0 <= i <= n => Node(a, h, i))
  }

  /** The contribution ws[k]*f(xs[k]) of node k to a weighted sum. */
  function Term(f: real -> real, xs: seq<real>, ws: seq<real>, k: nat): real
    requires k < |xs| == |ws|
  {
    ws[k] * f(xs[k])
  }

  /** ws[0]*f(xs[0]) + ... + ws[count-1]*f(xs[count-1]), added in index order. */
  function PartialSum(f: real -> real, xs: seq<real>, ws: seq<real>, count: nat): real
    requires count <= |xs| == |ws|
  {
    if count == 0 then 0.0
    else PartialSum(f, xs, ws, count - 1) + Term(f, xs, ws, count - 1)
  }

  lemma PartialSumTwo(f: real -> real, xs: seq<real>, ws: seq<real>, c: nat, c2: nat)
    requires c2 == c + 2 && c2 <= |xs| == |ws|
    ensures PartialSum(f, xs, ws, c2) == PartialSum(f, xs, ws, c) + Term(f, xs, ws, c) + Term(f, xs, ws, c + 1)
  {
  }

  /** A quadrature rule in nodes-and-weights form: the sum of ws[i]*f(xs[i]). */
  function WeightedSum(f: real -> real, xs: seq<real>, ws: seq<real>): real
    requires |xs| == |ws|
  {
    PartialSum(f, xs, ws, |xs|)
  }

  /** A weighted sum only looks at the integrand on its first `count` nodes. */
  lemma {:induction false} PartialSumCongruent(f: real -> real, g: real -> real, xs: seq<real>, ws: seq<real>,
                                               count: nat)
    requires count <= |xs| == |ws|
    requires forall k :: 0 <= k < count ==> f(xs[k]) == g(xs[k])
    ensures PartialSum(f, xs, ws, count) == PartialSum(g, xs, ws, count)
  {
    if count > 0 {
      PartialSumCongruent(f, g, xs, ws, count - 1);
    }
  }

  /** ws[0] + ... + ws[count-1]. */
  function Total(ws: seq<real>, count: nat): real
    requires count <= |ws|
  {
    if count == 0 then 0.0 else Total(ws, count - 1) + ws[count - 1]
  }

  /** ws[0]*xs[0] + ... + ws[count-1]*xs[count-1], the first moment of the nodes. */
  function Moment(xs: seq<real>, ws: seq<real>, count: nat): real
    requires count <= |xs| == |ws|
  {
    if count == 0 then 0.0 else Moment(xs, ws, count - 1) + ws[count - 1] * xs[count - 1]
  }

  /** On an affine integrand c0 + c1*x a weighted sum is c0 times the total weight plus c1 times
      the first moment of the nodes. */
  lemma {:induction false} PartialSumAffine(f: real -> real, c0: real, c1: real, xs: seq<real>, ws: seq<real>,
                                            count: nat)
    requires count <= |xs| == |ws|
    requires forall x :: f(x) == c0 + c1 * x
    ensures PartialSum(f, xs, ws, count) == c0 * Total(ws, count) + c1 * Moment(xs, ws, count)
    decreases count
  {
    if count > 0 {
      PartialSumAffine(f, c0, c1, xs, ws, count - 1);
      PartialSumAffineStep(f, c0, c1, xs, ws, count - 1);
    }
  }

  /** Node c keeps the affine form of the weighted sum. */
  lemma PartialSumAffineStep(f: real -> real, c0: real, c1: real, xs: seq<real>, ws: seq<real>, c: nat)
    requires c < |xs| == |ws|
    requires f(xs[c]) == c0 + c1 * xs[c]
    requires PartialSum(f, xs, ws, c) == c0 * Total(ws, c) + c1 * Moment(xs, ws, c)
    ensures PartialSum(f, xs, ws, c + 1) == c0 * Total(ws, c + 1) + c1 * Moment(xs, ws, c + 1)
  {
    AffineStep(PartialSum(f, xs, ws, c), PartialSum(f, xs, ws, c + 1), Total(ws, c), Total(ws, c + 1),
               Moment(xs, ws, c), Moment(xs, ws, c + 1), c0, c1, ws[c], xs[c], f(xs[c]));
  }

  /** One more node x of weight w keeps s = c0*total + c1*moment when f(x) = c0 + c1*x. */
  lemma AffineStep(s0: real, s: real, t0: real, t: real, m0: real, m: real, c0: real, c1: real,
                   w: real, x: real, fx: real)
    requires s0 == c0 * t0 + c1 * m0 && fx == c0 + c1 * x
    requires s == s0 + w * fx && t == t0 + w && m == m0 + w * x
    ensures s == c0 * t + c1 * m
  {
    assert w * fx == c0 * w + c1 * (w * x);
  }

  /** Moving the nodes by the affine map u |-> mid + half*u moves the first moment accordingly. */
  lemma {:induction false} MomentAffine(xs: seq<real>, ys: seq<real>, ws: seq<real>, mid: real, half: real,
                                        count: nat)
    requires count <= |xs| == |ys| == |ws|
    requires forall k :: 0 <= k < |xs| ==> ys[k] == mid + half * xs[k]
    ensures Moment(ys, ws, count) == mid * Total(ws, count) + half * Moment(xs, ws, count)
    decreases count
  {
    if count > 0 {
      MomentAffine(xs, ys, ws, mid, half, count - 1);
      MomentAffineStep(xs, ys, ws, mid, half, count - 1);
    }
  }

  /** Node c keeps the affine relation between the two moments. */
  lemma MomentAffineStep(xs: seq<real>, ys: seq<real>, ws: seq<real>, mid: real, half: real, c: nat)
    requires c < |xs| == |ys| == |ws|
    requires ys[c] == mid + half * xs[c]
    requires Moment(ys, ws, c) == mid * Total(ws, c) + half * Moment(xs, ws, c)
    ensures Moment(ys, ws, c + 1) == mid * Total(ws, c + 1) + half * Moment(xs, ws, c + 1)
  {
    MomentStep(Moment(ys, ws, c), Moment(ys, ws, c + 1), Moment(xs, ws, c), Moment(xs, ws, c + 1),
               Total(ws, c), Total(ws, c + 1), mid, half, ws[c], xs[c], ys[c]);
  }

  /** One more node x of weight w, moved to y = mid + half*x, keeps my = mid*total + half*mx. */
  lemma MomentStep(my0: real, my: real, mx0: real, mx: real, t0: real, t: real, mid: real, half: real,
                   w: real, x: real, y: real)
    requires my0 == mid * t0 + half * mx0 && y == mid + half * x
    requires my == my0 + w * y && mx == mx0 + w * x && t == t0 + w
    ensures my == mid * t + half * mx
  {
    assert w * y == mid * w + half * (w * x);
  }
}

/** Polynomials of degree at most three and their antiderivatives, the reference against which the
    exactness of the composite rules is stated. */
module Polynomials {
  import opened SimpsonPanels

  datatype Poly3 = Poly3(c0: real, c1: real, c2: real, c3: real) {

    function At(x: real): real {
      CubicAt(c0, c1, c2, c3, x)
    }

    /** P with P' = At and P(0) = 0, so that P(b) - P(a) is the exact integral over [a, b]. */
    function Primitive(x: real): real {
      PrimitiveAt(c0, c1, c2, c3, x)
    }

    predicate IsLinear() {
      c2 == 0.0 && c3 == 0.0
    }
  }

  function CubicAt(c0: real, c1: real, c2: real, c3: real, x: real): real {
    c0 + c1 * x + c2 * (x * x) + c3 * (x * x * x)
  }

  function PrimitiveAt(c0: real, c1: real, c2: real, c3: real, x: real): real {
    c0 * x + c1 * (x * x) / 2.0 + c2 * (x * x * x) / 3.0 + c3 * (x * x * x * x) / 4.0
  }

  /** For a linear polynomial the antiderivative difference is the familiar closed form. */
  lemma LinearPrimitive(c0: real, c1: real, a: real, b: real)
    ensures Poly3(c0, c1, 0.0, 0.0).Primitive(b) - Poly3(c0, c1, 0.0, 0.0).Primitive(a)
         == c0 * (b - a) + c1 * (b * b - a * a) / 2.0
  {
  }

  /** One trapezoid panel integrates a linear function exactly. */
  lemma TrapezoidPanel(p: Poly3, x: real, h: real)
    requires p.IsLinear()
    ensures (h / 2.0) * (p.At(x) + p.At(x + h)) == p.Primitive(x + h) - p.Primitive(x)
  {
  }

  lemma SimpsonPanelSquare(x: real, h: real)
    ensures (h / 3.0) * (x * x + 4.0 * ((x + h) * (x + h)) + (x + 2.0 * h) * (x + 2.0 * h))
         == ((x + 2.0 * h) * (x + 2.0 * h) * (x + 2.0 * h) - x * x * x) / 3.0
  {
  }

  lemma SimpsonPanelCube(x: real, h: real)
    ensures (h / 3.0) * (x * x * x + 4.0 * ((x + h) * (x + h) * (x + h))
                         + (x + 2.0 * h) * (x + 2.0 * h) * (x + 2.0 * h))
         == ((x + 2.0 * h) * (x + 2.0 * h) * (x + 2.0 * h) * (x + 2.0 * h) - x * x * x * x) / 4.0
  {
  }

  /** Three values of a cubic, weighted 1, 4, 1, regroup by coefficient. */
  lemma WeightedValues(c0: real, c1: real, c2: real, c3: real, x: real, y: real, z: real)
    ensures (c0 + c1 * x + c2 * (x * x) + c3 * (x * x * x)) + 4.0 * (c0 + c1 * y + c2 * (y * y) + c3 * (y * y * y))
            + (c0 + c1 * z + c2 * (z * z) + c3 * (z * z * z))
         == c0 * 6.0 + c1 * (x + 4.0 * y + z) + c2 * (x * x + 4.0 * (y * y) + z * z)
            + c3 * (x * x * x + 4.0 * (y * y * y) + z * z * z)
  {
    Distribute(c1, x, y, z);
    Distribute(c2, x * x, y * y, z * z);
    Distribute(c3, x * x * x, y * y * y, z * z * z);
  }

  lemma Distribute(c: real, u: real, v: real, w: real)
    ensures c * (u + 4.0 * v + w) == c * u + 4.0 * (c * v) + c * w
  {
  }

  lemma Rescale(k: real, c0: real, c1: real, c2: real, c3: real, q0: real, q1: real, q2: real, q3: real)
    ensures k * (c0 * q0 + c1 * q1 + c2 * q2 + c3 * q3) == c0 * (k * q0) + c1 * (k * q1) + c2 * (k * q2) + c3 * (k * q3)
  {
  }

  /** The difference of two values of the antiderivative, by coefficient. */
  lemma PrimitiveDifference(c0: real, c1: real, c2: real, c3: real, x: real, z: real)
    ensures (c0 * z + c1 * (z * z) / 2.0 + c2 * (z * z * z) / 3.0 + c3 * (z * z * z * z) / 4.0)
            - (c0 * x + c1 * (x * x) / 2.0 + c2 * (x * x * x) / 3.0 + c3 * (x * x * x * x) / 4.0)
         == c0 * (z - x) + c1 * ((z * z - x * x) / 2.0) + c2 * ((z * z * z - x * x * x) / 3.0)
            + c3 * ((z * z * z * z - x * x * x * x) / 4.0)
  {
  }

  /** The Simpson panel identity for the cubic with coefficients c0, ..., c3. */
  lemma SimpsonPolynomial(c0: real, c1: real, c2: real, c3: real, x: real, h: real)
    ensures PanelValues(h, CubicAt(c0, c1, c2, c3, x), CubicAt(c0, c1, c2, c3, x + h),
                        CubicAt(c0, c1, c2, c3, x + 2.0 * h), PrimitiveAt(c0, c1, c2, c3, x),
                        PrimitiveAt(c0, c1, c2, c3, x + 2.0 * h))
  {
    var y, z := x + h, x + 2.0 * h;
    SimpsonPanelSquare(x, h);
    SimpsonPanelCube(x, h);
    var q1 := x + 4.0 * y + z;
    var q2 := x * x + 4.0 * (y * y) + z * z;
    var q3 := x * x * x + 4.0 * (y * y * y) + z * z * z;
    var k := h / 3.0;
    assert k * 6.0 == z - x;
    assert k * q1 == (z * z - x * x) / 2.0;
    assert k * q2 == (z * z * z - x * x * x) / 3.0;
    assert k * q3 == (z * z * z * z - x * x * x * x) / 4.0;
    WeightedValues(c0, c1, c2, c3, x, y, z);
    Rescale(k, c0, c1, c2, c3, 6.0, q1, q2, q3);
    PrimitiveDifference(c0, c1, c2, c3, x, z);
  }

  /** One Simpson panel [x, x + 2h] integrates every cubic exactly. */
  lemma SimpsonPanel(p: Poly3, x: real, h: real)
    ensures PanelValues(h, p.At(x), p.At(x + h), p.At(x + 2.0 * h), p.Primitive(x), p.Primitive(x + 2.0 * h))
  {
    SimpsonPolynomial(p.c0, p.c1, p.c2, p.c3, x, h);
  }
}
