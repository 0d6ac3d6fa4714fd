/** Rectangle geometry of `untriseptium/util.py`: interval gaps, the centre
    of a rectangle, the rectangle-to-rectangle distance and the bounding-box
    accumulator of `TextLocator`.

    Coordinates are integers (Tesseract reports integer pixel boxes).
    `math.hypot` and `math.exp` are not modelled: they are the two fields of
    a `Maths` value that the callers pass in, of which only the facts in
    `Sound` are assumed.
 */
module Geometry {
  import opened Outcomes

  /** A rectangle `(x0, y0, x1, y1)`; nothing forces `x0 <= x1`. */
  datatype Rect = Rect(x0: int, y0: int, x1: int, y1: int)

  predicate WellFormed(r: Rect) {
    r.x0 <= r.x1 && r.y0 <= r.y1
  }

  /** `r` lies inside `outer` (borders included). */
  predicate Contains(outer: Rect, r: Rect) {
    outer.x0 <= r.x0 && outer.y0 <= r.y0 && r.x1 <= outer.x1 && r.y1 <= outer.y1
  }

  function Min(a: int, b: int): int { if a <= b then a else b }
  function Max(a: int, b: int): int { if a >= b then a else b }

  function Abs(a: int): nat { if a < 0 then -a else a }

  /** The `_linear_distance` of the source: 0 when one interval's endpoint
      lies inside the other, otherwise the least of the four endpoint gaps. */
  function LinearDistance(a0: int, a1: int, b0: int, b1: int): (d: int)
    ensures d >= 0
    ensures (a0 <= b0 <= a1 || a0 <= b1 <= a1 || b0 <= a0 <= b1 || b0 <= a1 <= b1) ==> d == 0
  {
    if a0 <= b0 <= a1 then 0
    else if a0 <= b1 <= a1 then 0
    else if b0 <= a0 <= b1 then 0
    else if b0 <= a1 <= b1 then 0
    else Min(Min(Abs(a0 - b0), Abs(a0 - b1)), Min(Abs(a1 - b1), Abs(a1 - b0)))
  }

  /** Reference definition: the length of the empty space between two
      closed intervals, 0 when they overlap or touch. */
  function IntervalGap(a0: int, a1: int, b0: int, b1: int): nat
    requires a0 <= a1 && b0 <= b1
  {
    if a1 < b0 then b0 - a1
    else if b1 < a0 then a0 - b1
    else 0
  }

  /** On well-formed intervals `_linear_distance` is the gap between them. */
  lemma LinearDistanceIsGap(a0: int, a1: int, b0: int, b1: int)
    requires a0 <= a1 && b0 <= b1
    ensures LinearDistance(a0, a1, b0, b1) == IntervalGap(a0, a1, b0, b1)
  {
  }

  /** It is 0 exactly when the closed intervals share a point, and strictly
      positive otherwise. */
  lemma LinearDistanceZeroIffOverlap(a0: int, a1: int, b0: int, b1: int)
    requires a0 <= a1 && b0 <= b1
    ensures LinearDistance(a0, a1, b0, b1) == 0 <==> Max(a0, b0) <= Min(a1, b1)
    ensures LinearDistance(a0, a1, b0, b1) > 0 <==> (a1 < b0 || b1 < a0)
  {
    LinearDistanceIsGap(a0, a1, b0, b1);
  }

  /** Swapping the two intervals does not change the distance, for any four
      integers. */
  lemma LinearDistanceSymmetric(a0: int, a1: int, b0: int, b1: int)
    ensures LinearDistance(a0, a1, b0, b1) == LinearDistance(b0, b1, a0, a1)
  {
  }

  /** `Location.center`: true division, so the centre is a real point. */
  function Center(r: Rect): (c: (real, real))
    ensures c.0 - r.x0 as real == r.x1 as real - c.0
    ensures c.1 - r.y0 as real == r.y1 as real - c.1
  {
    ((r.x0 + r.x1) as real / 2.0, (r.y0 + r.y1) as real / 2.0)
  }

  /** The centre of a well-formed rectangle lies inside it. */
  lemma CenterInside(r: Rect)
    requires WellFormed(r)
    ensures r.x0 as real <= Center(r).0 <= r.x1 as real
    ensures r.y0 as real <= Center(r).1 <= r.y1 as real
  {
  }

  /** The per-axis gaps that `distance_at_point` hands to `math.hypot`. */
  function Gaps(r: Rect, s: Rect): (g: (int, int))
    ensures g.0 >= 0 && g.1 >= 0
  {
    (LinearDistance(r.x0, r.x1, s.x0, s.x1), LinearDistance(r.y0, r.y1, s.y0, s.y1))
  }

  /** The square of the rectangle-to-rectangle distance. */
  function DistanceSq(r: Rect, s: Rect): (d: int)
    ensures d >= 0
  {
    var g := Gaps(r, s);
    g.0 * g.0 + g.1 * g.1
  }

  /** The rectangles share a point on both axes. */
  predicate Intersect(r: Rect, s: Rect) {
    Max(r.x0, s.x0) <= Min(r.x1, s.x1) && Max(r.y0, s.y0) <= Min(r.y1, s.y1)
  }

  /** The distance between two well-formed rectangles is zero exactly when
      they intersect (touching counts), and it is symmetric. */
  lemma DistanceZeroIffIntersect(r: Rect, s: Rect)
    requires WellFormed(r) && WellFormed(s)
    ensures DistanceSq(r, s) == 0 <==> Intersect(r, s)
    ensures Gaps(r, s) == Gaps(s, r)
  {
    LinearDistanceZeroIffOverlap(r.x0, r.x1, s.x0, s.x1);
    LinearDistanceZeroIffOverlap(r.y0, r.y1, s.y0, s.y1);
    LinearDistanceSymmetric(r.x0, r.x1, s.x0, s.x1);
    LinearDistanceSymmetric(r.y0, r.y1, s.y0, s.y1);
    var g := Gaps(r, s);
    if g.0 != 0 {
      assert g.0 * g.0 > 0;
    }
    if g.1 != 0 {
      assert g.1 * g.1 > 0;
    }
  }

  /** The floating-point primitives the source takes from `math`. */
  datatype Maths = Maths(hypot: (int, int) -> real, exp: real -> real)

  /** What the model assumes of them: a length is never negative, and `exp`
      of a non-positive number lies in (0, 1]. */
  ghost predicate Sound(m: Maths) {
    && (forall a, b :: m.hypot(a, b) >= 0.0)
    && (forall x :: x <= 0.0 ==> 0.0 < m.exp(x) <= 1.0)
  }

  /** `Location.distance_at_point`. */
  function DistanceAtPoint(m: Maths, r: Rect, s: Rect): real {
    var g := Gaps(r, s);
    m.hypot(g.0, g.1)
  }

  /** `Location.diagonal_size`. */
  function DiagonalSize(m: Maths, r: Rect): real {
    m.hypot(r.x1 - r.x0, r.y1 - r.y0)
  }

  /** The smallest rectangle holding both arguments. */
  function Union(r: Rect, s: Rect): (u: Rect)
    ensures Contains(u, r) && Contains(u, s)
    ensures WellFormed(r) && WellFormed(s) ==> WellFormed(u)
    ensures forall b: Rect :: Contains(b, r) && Contains(b, s) ==> Contains(b, u)
  {
    Rect(Min(r.x0, s.x0), Min(r.y0, s.y0), Max(r.x1, s.x1), Max(r.y1, s.y1))
  }

  /** A text-search result: the joined text, its confidence and, once a word
      has been added, its bounding box (`TextLocator`). */
  datatype Locator = Locator(text: string, confidence: real, location: Option<Rect>)

  /** `TextLocator()`: empty text, confidence 0.0 and no location. */
  function FreshLocator(): (t: Locator)
    ensures t.text == [] && t.confidence == 0.0 && t.location.None?
  {
    Locator([], 0.0, None)
  }

  /** The location after `add_location(r)`: the first rectangle is adopted,
      later ones widen the box to the min/max bounding box. */
  function AddLocation(location: Option<Rect>, r: Rect): (l: Option<Rect>)
    ensures l.Some?
    ensures location.None? ==> l.value == r
    ensures location.Some? ==> Contains(l.value, location.value)
    ensures Contains(l.value, r)
  {
    match location
    case None => Some(r)
    case Some(box) => Some(Union(box, r))
  }

  /** The box after `add_location` is the least rectangle containing the old
      box and the added one. */
  lemma AddLocationIsLeast(box: Rect, r: Rect, b: Rect)
    requires Contains(b, box) && Contains(b, r)
    ensures Contains(b, AddLocation(Some(box), r).value)
  {
  }

  /** Adding a rectangle the box already contains changes nothing. */
  lemma AddContainedIsIdentity(box: Rect, r: Rect)
    requires Contains(box, r)
    ensures AddLocation(Some(box), r) == Some(box)
  {
  }

  /** `TextLocator.add_location`. */
  function AddTo(t: Locator, r: Rect): (u: Locator)
    ensures u.text == t.text && u.confidence == t.confidence
    ensures u.location == AddLocation(t.location, r)
  {
    t.(location := AddLocation(t.location, r))
  }
}
