// The bounding-box predicates of `rekallpy/rekall/predicates.py`. A box is a
// record with 'x1', 'x2', 'y1', 'y2' (and whatever payload it carries); the
// predicates compare areas, widths, heights and relative positions, with the
// "exactly"/"same" forms using the strict test |difference| < epsilon.

module BBoxPredicates {
  import opened Common

  datatype BBox<P> = BBox(x1: real, x2: real, y1: real, y2: real, payload: P)

  /** The numeric entries of a box, as the dict the predicates index. */
  function AsDict<P>(b: BBox<P>): (d: map<string, real>)
    ensures d.Keys == {"x1", "x2", "y1", "y2"}
  {
    map["x1" := b.x1, "x2" := b.x2, "y1" := b.y1, "y2" := b.y2]
  }

  function Area<P>(b: BBox<P>): real
  {
    (b.x2 - b.x1) * (b.y2 - b.y1)
  }

  function Width<P>(b: BBox<P>): real
  {
    b.x2 - b.x1
  }

  function Height<P>(b: BBox<P>): real
  {
    b.y2 - b.y1
  }

  /** `position(x1, y1, x2, y2, epsilon)`: every co-ordinate strictly within epsilon. */
  predicate Position<P>(x1: real, y1: real, x2: real, y2: real, eps: real, b: BBox<P>)
  {
    Abs(b.x1 - x1) < eps && Abs(b.y1 - y1) < eps && Abs(b.x2 - x2) < eps && Abs(b.y2 - y2) < eps
  }

  /** `has_value(key, target, epsilon)` on a dict; a missing key raises KeyError. */
  function HasValue(key: string, target: real, eps: real, d: map<string, real>): (r: Result<bool>)
    ensures r.Err? <==> key !in d
    ensures r.Ok? ==> (r.value <==> target - eps < d[key] < target + eps)
  {
    if key !in d then Err(KeyMissing) else Ok(Abs(d[key] - target) < eps)
  }

  predicate AreaExactly<P>(area: real, eps: real, b: BBox<P>)
  {
    Abs(Area(b) - area) < eps
  }

  predicate AreaAtLeast<P>(area: real, b: BBox<P>)
  {
    Area(b) >= area
  }

  predicate AreaAtMost<P>(area: real, b: BBox<P>)
  {
    Area(b) <= area
  }

  predicate AreaBetween<P>(area1: real, area2: real, b: BBox<P>)
  {
    Area(b) >= area1 && Area(b) <= area2
  }

  predicate WidthExactly<P>(width: real, eps: real, b: BBox<P>)
  {
    Abs(Width(b) - width) < eps
  }

  predicate WidthAtLeast<P>(width: real, b: BBox<P>)
  {
    Width(b) >= width
  }

  predicate WidthAtMost<P>(width: real, b: BBox<P>)
  {
    Width(b) <= width
  }

  predicate WidthBetween<P>(width1: real, width2: real, b: BBox<P>)
  {
    Width(b) >= width1 && Width(b) <= width2
  }

  predicate HeightExactly<P>(height: real, eps: real, b: BBox<P>)
  {
    Abs(Height(b) - height) < eps
  }

  predicate HeightAtLeast<P>(height: real, b: BBox<P>)
  {
    Height(b) >= height
  }

  predicate HeightAtMost<P>(height: real, b: BBox<P>)
  {
    Height(b) <= height
  }

  predicate HeightBetween<P>(height1: real, height2: real, b: BBox<P>)
  {
    Height(b) >= height1 && Height(b) <= height2
  }

  predicate LeftOf<P>(b1: BBox<P>, b2: BBox<P>)
  {
    b1.x2 < b2.x1
  }

  predicate RightOf<P>(b1: BBox<P>, b2: BBox<P>)
  {
    b1.x1 > b2.x2
  }

  predicate Above<P>(b1: BBox<P>, b2: BBox<P>)
  {
    b1.y2 < b2.y1
  }

  predicate Below<P>(b1: BBox<P>, b2: BBox<P>)
  {
    b1.y1 > b2.y2
  }

  predicate SameArea<P>(eps: real, b1: BBox<P>, b2: BBox<P>)
  {
    Abs(Area(b1) - Area(b2)) < eps
  }

  predicate MoreArea<P>(b1: BBox<P>, b2: BBox<P>)
  {
    Area(b1) > Area(b2)
  }

  predicate LessArea<P>(b1: BBox<P>, b2: BBox<P>)
  {
    Area(b1) < Area(b2)
  }

  predicate SameWidth<P>(eps: real, b1: BBox<P>, b2: BBox<P>)
  {
    Abs(Width(b1) - Width(b2)) < eps
  }

  predicate MoreWidth<P>(b1: BBox<P>, b2: BBox<P>)
  {
    Width(b1) > Width(b2)
  }

  predicate LessWidth<P>(b1: BBox<P>, b2: BBox<P>)
  {
    Width(b1) < Width(b2)
  }

  predicate SameHeight<P>(eps: real, b1: BBox<P>, b2: BBox<P>)
  {
    Abs(Height(b1) - Height(b2)) < eps
  }

  predicate MoreHeight<P>(b1: BBox<P>, b2: BBox<P>)
  {
    Height(b1) > Height(b2)
  }

  predicate LessHeight<P>(b1: BBox<P>, b2: BBox<P>)
  {
    Height(b1) < Height(b2)
  }

  /**
   * `same_value(key, epsilon)` as written: the returned predicate indexes both
   * dicts with the name `value_name`, which is defined nowhere, so every call
   * raises NameError whatever the key and the dicts.
   */
  function SameValue(key: string, eps: real, d1: map<string, real>, d2: map<string, real>): (r: Result<bool>)
    ensures r == Err(NameUndefined)
  {
    Err(NameUndefined)
  }

  /** What `same_value` documents: the two dicts' values under `key` differ by less than epsilon. */
  function SameValueByKey(key: string, eps: real, d1: map<string, real>, d2: map<string, real>): (r: Result<bool>)
    ensures r.Err? <==> key !in d1 || key !in d2
    ensures r.Ok? ==> (r.value <==> d2[key] - eps < d1[key] < d2[key] + eps)
  {
    if key !in d1 || key !in d2 then Err(KeyMissing) else Ok(Abs(d1[key] - d2[key]) < eps)
  }

  /** `inside()` as written: true when the SECOND box lies within the first (bounds inclusive). */
  predicate Inside<P>(b1: BBox<P>, b2: BBox<P>)
  {
    b2.x1 >= b1.x1 && b2.x2 <= b1.x2 && b2.y1 >= b1.y1 && b2.y2 <= b1.y2
  }

  /** `contains()` as written: `inside()` with the boxes swapped. */
  predicate Contains<P>(b1: BBox<P>, b2: BBox<P>)
  {
    Inside(b2, b1)
  }

  /** What `inside()` documents: the FIRST box lies within the second. */
  predicate InsideAsDocumented<P>(b1: BBox<P>, b2: BBox<P>)
  {
    b1.x1 >= b2.x1 && b1.x2 <= b2.x2 && b1.y1 >= b2.y1 && b1.y2 <= b2.y2
  }

  /** What `contains()` documents: the first box contains the second. */
  predicate ContainsAsDocumented<P>(b1: BBox<P>, b2: BBox<P>)
  {
    InsideAsDocumented(b2, b1)
  }

  // -------------------------------------------------------------------
  // Laws

  lemma BetweenIsAtLeastAndAtMost<P>(lo: real, hi: real, b: BBox<P>)
    ensures AreaBetween(lo, hi, b) <==> AreaAtLeast(lo, b) && AreaAtMost(hi, b)
    ensures WidthBetween(lo, hi, b) <==> WidthAtLeast(lo, b) && WidthAtMost(hi, b)
    ensures HeightBetween(lo, hi, b) <==> HeightAtLeast(lo, b) && HeightAtMost(hi, b)
  {
  }

  lemma PositionConverses<P>(b1: BBox<P>, b2: BBox<P>)
    ensures LeftOf(b1, b2) <==> RightOf(b2, b1)
    ensures Above(b1, b2) <==> Below(b2, b1)
  {
  }

  lemma SizeConverses<P>(b1: BBox<P>, b2: BBox<P>)
    ensures MoreArea(b1, b2) <==> LessArea(b2, b1)
    ensures MoreWidth(b1, b2) <==> LessWidth(b2, b1)
    ensures MoreHeight(b1, b2) <==> LessHeight(b2, b1)
  {
  }

  /**
   * The "exactly"/"same" tests are strict: they hold only when the difference
   * is strictly below epsilon, so with epsilon 0 they never hold.
   */
  lemma StrictEpsilon<P>(target: real, eps: real, b: BBox<P>, c: BBox<P>)
    ensures AreaExactly(target, eps, b) <==> target - eps < Area(b) < target + eps
    ensures WidthExactly(target, eps, b) <==> target - eps < Width(b) < target + eps
    ensures HeightExactly(target, eps, b) <==> target - eps < Height(b) < target + eps
    ensures !AreaExactly(target, 0.0, b) && !WidthExactly(target, 0.0, b) && !HeightExactly(target, 0.0, b)
    ensures !Position(b.x1, b.y1, b.x2, b.y2, 0.0, b)
    ensures !SameArea(0.0, b, c) && !SameWidth(0.0, b, c) && !SameHeight(0.0, b, c)
  {
  }

  /** `contains` is `inside` swapped; `inside` is reflexive and transitive (inclusive bounds). */
  lemma InsideLaws<P>(b1: BBox<P>, b2: BBox<P>, b3: BBox<P>)
    ensures Contains(b1, b2) <==> Inside(b2, b1)
    ensures Inside(b1, b1)
    ensures Inside(b1, b2) && Inside(b2, b3) ==> Inside(b1, b3)
  {
  }

  /**
   * `inside` as written answers the documented question with its arguments
   * swapped: a small box inside a large one is not "inside" it, and the large
   * one is "inside" the small one.
   */
  lemma InsideIsReversed()
    ensures var small, large := BBox(0.25, 0.5, 0.25, 0.5, ()), BBox(0.0, 1.0, 0.0, 1.0, ());
            InsideAsDocumented(small, large) && !Inside(small, large) && Inside(large, small) &&
            ContainsAsDocumented(large, small) && !Contains(large, small)
  {
  }

  /** Each as-written predicate is the documented one with the arguments exchanged. */
  lemma InsideAsDocumentedIsSwap<P>(b1: BBox<P>, b2: BBox<P>)
    ensures InsideAsDocumented(b1, b2) <==> Inside(b2, b1)
    ensures ContainsAsDocumented(b1, b2) <==> Contains(b2, b1)
  {
  }
}
