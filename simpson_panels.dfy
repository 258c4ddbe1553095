/** The panel algebra of the composite Simpson rule: when a panel, and a run of panels, is exact
    against an antiderivative P, and how one more panel extends an exact run. */
module SimpsonPanels {

  /** Simpson's formula on a panel of half-width h, for the integrand values fx, fm, fz at its
      left end, midpoint and right end, gives pz - px, the antiderivative's increase. */
  ghost predicate PanelValues(h: real, fx: real, fm: real, fz: real, px: real, pz: real) {
    (h / 3.0) * (fx + 4.0 * fm + fz) == pz - px
  }

  /** The Simpson panel [x, x + 2h] integrates f exactly, measured against the antiderivative P. */
  ghost predicate PanelExact(f: real -> real, P: real -> real, x: real, h: real) {
    PanelValues(h, f(x), f(x + h), f(x + 2.0 * h), P(x), P(x + 2.0 * h))
  }

  /** A run of panels from a grid point with value f0 to one with value fN, whose odd-index values
      sum to so and whose inner even-index values sum to se, is exact: the Simpson sum
      (h/3)(f0 + fN + 4*so + 2*se) is pN - p0. */
  ghost predicate RunExact(h: real, f0: real, fN: real, so: real, se: real, p0: real, pN: real) {
    (h / 3.0) * (f0 + fN + 4.0 * so + 2.0 * se) == pN - p0
  }

  /** The first panel [x, x + 2h] alone: its midpoint is the only odd-index value and there is no
      inner even-index value. */
  lemma FirstPanel(f: real -> real, P: real -> real, x: real, h: real, fN: real, so: real, se: real, pN: real)
    requires PanelExact(f, P, x, h)
    requires so == f(x + h) && se == 0.0 && fN == f(x + 2.0 * h) && pN == P(x + 2.0 * h)
    ensures RunExact(h, f(x), fN, so, se, P(x), pN)
  {
  }

  /** One more panel [x, x + 2h] after an exact run that ends at x: the midpoint joins the odd-index
      values and x the inner even-index values. */
  lemma NextPanel(f: real -> real, P: real -> real, x: real, h: real, f0: real, fN: real,
                  so: real, so1: real, se: real, se1: real, p0: real, pN: real)
    requires PanelExact(f, P, x, h) && RunExact(h, f0, f(x), so, se, p0, P(x))
    requires so1 - so == f(x + h) && se1 - se == f(x) && fN == f(x + 2.0 * h) && pN == P(x + 2.0 * h)
    ensures RunExact(h, f0, fN, so1, se1, p0, pN)
  {
    var fx, f1, f2 := f(x), f(x + h), f(x + 2.0 * h);
    assert f0 + fN + 4.0 * so1 + 2.0 * se1 == (f0 + fx + 4.0 * so + 2.0 * se) + (fx + 4.0 * f1 + f2);
  }

  /** The first 2m grid values weighted 1, 4, 2, 4, ..., 2, 4 sum to ps: the left end value fa, plus 4
      times the odd-index sum so, plus 2 times the inner even-index sum se. */
  ghost predicate PrefixWeighted(ps: real, fa: real, so: real, se: real) {
    ps == fa + 4.0 * so + 2.0 * se
  }

  /** The first pair: the left end, weight 1, and grid point 1, weight 4. */
  lemma FirstPair(ps: real, fa: real, y1: real, so: real, se: real)
    requires ps == fa + 4.0 * y1 && so == y1 && se == 0.0
    ensures PrefixWeighted(ps, fa, so, se)
  {
  }

  /** One more pair after the first 2m - 2 values: y0 at an even index, weight 2, joins the inner
      even-index values, and y1 after it, weight 4, the odd-index values. */
  lemma NextPair(ps0: real, ps: real, fa: real, so0: real, so: real, se0: real, se: real, y0: real, y1: real)
    requires PrefixWeighted(ps0, fa, so0, se0)
    requires ps == ps0 + 2.0 * y0 + 4.0 * y1 && so - so0 == y1 && se - se0 == y0
    ensures PrefixWeighted(ps, fa, so, se)
  {
  }
}
