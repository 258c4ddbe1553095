/** Code/src/core/Domain2D.cpp: a region { (x, y) | x in X, yMin(x) <= y <= yMax(x) }. */
module Domains {
  import opened Intervals

  /** The x-interval and the two boundary functions, stored as given. */
  datatype Domain2D = Domain2D(x: Interval, lower: real -> real, upper: real -> real) {

    /** `x_interval()` */
    function XInterval(): Interval {
      x
    }

    /** `y_min(x)` */
    function YMin(t: real): real {
      lower(t)
    }

    /** `y_max(x)` */
    function YMax(t: real): real {
      upper(t)
    }
  }

  /** The constructor: it never fails and never compares the two bounds, so a domain whose
      upper bound lies below its lower bound is accepted here and only rejected when a fibre
      interval [y_min(x), y_max(x)] is built. */
  function New(xInterval: Interval, yMin: real -> real, yMax: real -> real): (d: Domain2D)
    ensures d.XInterval() == xInterval
    ensures forall t :: d.YMin(t) == yMin(t) && d.YMax(t) == yMax(t)
  {
    Domain2D(xInterval, yMin, yMax)
  }
}
