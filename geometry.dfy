/**
 * Axis-aligned rectangles and the pure helpers of milestone1/mls1.py:
 * the area of a rectangle, the intersection of two rectangles and the
 * diagonal of a square.
 */
module Geometry {

  datatype Option<T> = None | Some(value: T)

  /** An axis-aligned rectangle, as the {Xmin, Xmax, Ymin, Ymax} records of the source. */
  datatype Rect = Rect(xmin: real, xmax: real, ymin: real, ymax: real)
  {
    /** Non-degenerate: strictly positive width and height. */
    predicate Valid() { xmin < xmax && ymin < ymax }

    function Width(): real { xmax - xmin }

    function Height(): real { ymax - ymin }

    /** `this` lies inside `outer` (closed bounds). */
    predicate Within(outer: Rect)
    {
      outer.xmin <= xmin && xmax <= outer.xmax && outer.ymin <= ymin && ymax <= outer.ymax
    }

    /** The point (x, y) lies in the open interior of the rectangle. */
    predicate HasInterior(x: real, y: real)
    {
      xmin < x < xmax && ymin < y < ymax
    }

    /** The point (x, y) lies in the closed rectangle. */
    predicate Holds(x: real, y: real)
    {
      xmin <= x <= xmax && ymin <= y <= ymax
    }
  }

  /** The result of `get_overlap_area`: an area and, when the overlap is strict, its rectangle. */
  datatype Overlap = Overlap(area: real, rect: Option<Rect>)

  function Max(a: real, b: real): (r: real)
    ensures r >= a && r >= b && (r == a || r == b)
  {
    if a >= b then a else b
  }

  function Min(a: real, b: real): (r: real)
    ensures r <= a && r <= b && (r == a || r == b)
  {
    if a <= b then a else b
  }

  /** `calculate_area`: width times height, with no check of the corner order. */
  function CalculateArea(xmin: real, xmax: real, ymin: real, ymax: real): (area: real)
    ensures xmin < xmax && ymin < ymax ==> area > 0.0
    ensures xmin == xmax || ymin == ymax ==> area == 0.0
  {
    (xmax - xmin) * (ymax - ymin)
  }

  function Area(r: Rect): real
  {
    CalculateArea(r.xmin, r.xmax, r.ymin, r.ymax)
  }

  /**
   * `get_overlap_area`: the intersection of `a` and `b` with its area, or
   * area 0 and no rectangle unless both the X and the Y ranges overlap strictly.
   */
  function GetOverlapArea(a: Rect, b: Rect): (r: Overlap)
    ensures r.rect.Some? <==> (Max(a.xmin, b.xmin) < Min(a.xmax, b.xmax) && Max(a.ymin, b.ymin) < Min(a.ymax, b.ymax))
    ensures r.rect.None? ==> r == Overlap(0.0, None)
    ensures r.rect.Some? ==>
      && r.rect.value.Valid()
      && r.rect.value.Within(a) && r.rect.value.Within(b)
      && r.area == Area(r.rect.value) && r.area > 0.0
    ensures r.area > 0.0 <==> r.rect.Some?
  {
    var xlo := Max(a.xmin, b.xmin);
    var xhi := Min(a.xmax, b.xmax);
    var ylo := Max(a.ymin, b.ymin);
    var yhi := Min(a.ymax, b.ymax);
    if xlo < xhi && ylo < yhi then
      Overlap(CalculateArea(xlo, xhi, ylo, yhi), Some(Rect(xlo, xhi, ylo, yhi)))
    else
      Overlap(0.0, None)
  }

  /**
   * The value `np.sqrt(2)` returns: the IEEE 754 double nearest to the square
   * root of two, which is exactly 6369051672525773 / 2^52.
   */
  const Sqrt2: real := 6369051672525773.0 / 4503599627370496.0

  lemma Sqrt2Bounds()
    ensures 1.0 < Sqrt2 < 1.5
    ensures 2.0 < Sqrt2 * Sqrt2 < 2.000000000000001
  {
  }

  /** `calculate_diagonal`: the diagonal of a square of side `size`. */
  function CalculateDiagonal(size: real): (d: real)
    ensures size > 0.0 ==> size < d < 1.5 * size
    ensures size == 0.0 ==> d == 0.0
  {
    Sqrt2 * size
  }

  /** Pythagoras for the square: the diagonal squared is twice the side squared, up to the rounding of Sqrt2. */
  lemma DiagonalSquared(size: real)
    ensures 2.0 * size * size <= CalculateDiagonal(size) * CalculateDiagonal(size) <= 2.000000000000001 * size * size
  {
    var q := size * size;
    assert CalculateDiagonal(size) * CalculateDiagonal(size) == (Sqrt2 * Sqrt2) * q;
    Sqrt2Bounds();
  }

  // ---------------------------------------------------------------------
  // Properties of the overlap.
  // ---------------------------------------------------------------------

  /** The overlap does not depend on the order of its arguments. */
  lemma OverlapSymmetric(a: Rect, b: Rect)
    ensures GetOverlapArea(a, b) == GetOverlapArea(b, a)
  {
    assert Max(a.xmin, b.xmin) == Max(b.xmin, a.xmin);
    assert Min(a.xmax, b.xmax) == Min(b.xmax, a.xmax);
    assert Max(a.ymin, b.ymin) == Max(b.ymin, a.ymin);
    assert Min(a.ymax, b.ymax) == Min(b.ymax, a.ymax);
  }

  /** A non-degenerate rectangle overlaps itself entirely. */
  lemma OverlapSelf(a: Rect)
    requires a.Valid()
    ensures GetOverlapArea(a, a) == Overlap(Area(a), Some(a))
  {
  }

  /** Ranges that are disjoint or only touch, in X or in Y, give no overlap. */
  lemma OverlapTouching(a: Rect, b: Rect)
    requires a.xmax <= b.xmin || b.xmax <= a.xmin || a.ymax <= b.ymin || b.ymax <= a.ymin
    ensures GetOverlapArea(a, b) == Overlap(0.0, None)
  {
  }

  /**
   * Independent characterisation by points: a point is in the interior of the
   * overlap exactly when it is in the interiors of both rectangles, and when
   * there is no overlap no point is in both interiors.
   */
  lemma OverlapInterior(a: Rect, b: Rect, x: real, y: real)
    ensures var o := GetOverlapArea(a, b);
      (o.rect.Some? ==> (o.rect.value.HasInterior(x, y) <==> a.HasInterior(x, y) && b.HasInterior(x, y)))
      && (o.rect.None? ==> !(a.HasInterior(x, y) && b.HasInterior(x, y)))
  {
  }

  /** Every rectangle inside both inputs is inside their overlap: the overlap is the largest such rectangle. */
  lemma OverlapIsLargest(a: Rect, b: Rect, c: Rect)
    requires c.Valid() && c.Within(a) && c.Within(b)
    ensures GetOverlapArea(a, b).rect.Some?
    ensures c.Within(GetOverlapArea(a, b).rect.value)
  {
  }

  /** The overlap is never larger than either valid input. */
  lemma OverlapAreaBounded(a: Rect, b: Rect)
    requires a.Valid() && b.Valid()
    ensures GetOverlapArea(a, b).area <= Area(a)
    ensures GetOverlapArea(a, b).area <= Area(b)
  {
    var o := GetOverlapArea(a, b);
    if o.rect.Some? {
      WithinAreaBounded(o.rect.value, a);
      WithinAreaBounded(o.rect.value, b);
    }
  }

  /**
   * The area is positive exactly when both sides are non-empty in the same
   * direction: both corners in order, or both swapped.
   */
  lemma AreaPositiveIff(xmin: real, xmax: real, ymin: real, ymax: real)
    ensures CalculateArea(xmin, xmax, ymin, ymax) > 0.0
      <==> (xmin < xmax && ymin < ymax) || (xmin > xmax && ymin > ymax)
  {
    var w, h := xmax - xmin, ymax - ymin;
    if w > 0.0 && h < 0.0 {
      MulStrict(h, 0.0, w);
      assert h * w == w * h;
    } else if w < 0.0 && h > 0.0 {
      MulStrict(w, 0.0, h);
    } else if w < 0.0 && h < 0.0 {
      MulStrict(w, 0.0, -h);
      assert w * (-h) == -(w * h);
    }
  }

  /** A valid rectangle inside another has no more area than it. */
  lemma WithinAreaBounded(r: Rect, outer: Rect)
    requires r.Valid() && r.Within(outer)
    ensures Area(r) <= Area(outer)
  {
    MulMonotone(r.Width(), r.Height(), outer.Width(), outer.Height());
  }

  /** Scaling by a positive factor keeps a strict order. */
  lemma MulStrict(a: real, b: real, c: real)
    requires a < b && c > 0.0
    ensures a * c < b * c
  {
  }

  /** Scaling by a non-negative factor keeps a weak order. */
  lemma MulLe(a: real, b: real, c: real)
    requires a <= b && c >= 0.0
    ensures a * c <= b * c
  {
  }

  /** Scaling by a natural number keeps a weak order. */
  lemma MulLeInt(a: nat, b: nat, c: nat)
    requires a <= b
    ensures a * c <= b * c
  {
  }

  /** Products of non-negative factors grow with each factor. */
  lemma MulMonotone(w: real, h: real, w': real, h': real)
    requires 0.0 <= w <= w' && 0.0 <= h <= h'
    ensures w * h <= w' * h'
  {
    MulLe(w, w', h);
    assert w * h == h * w && w' * h == h * w' && w' * h' == h' * w';
    MulLe(h, h', w');
  }
}
