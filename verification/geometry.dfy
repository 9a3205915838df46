/** The plane-sweep's points and segments, with the point order the event queue
    sorts by: by x, then by y, then by the rank of the event kind. Coordinates
    are exact reals. */
module Geometry {
  import opened Options
  import opened Orders

  /** `PointEventType`, an integer enumeration. */
  datatype EventType = Undefined | Start | Intersection | End

  /** The integer value of each event kind. */
  function Rank(e: EventType): (n: int)
    ensures 0 <= n <= 3
    ensures e == Undefined <==> n == 0
    ensures e == Start <==> n == 1
    ensures e == Intersection <==> n == 2
    ensures e == End <==> n == 3
  {
    match e
    case Undefined => 0
    case Start => 1
    case Intersection => 2
    case End => 3
  }

  /** Segments are referred to by an identity of their own, which stands for
      the Python object a point's `segment` field refers back to. */
  type SegmentId = nat

  /** `Point`: coordinates, the event kind, and the segments the event belongs
      to (`secondSegment` is set only on intersection events). */
  datatype Point = Point(x: real, y: real, eventType: EventType,
                         segment: Option<SegmentId>, secondSegment: Option<SegmentId>)

  /** `Point.__lt__`. */
  predicate PointLess(a: Point, b: Point) {
    if a.x == b.x then
      if a.y == b.y then Rank(a.eventType) < Rank(b.eventType) else a.y < b.y
    else a.x < b.x
  }

  /** `Point.__gt__`, written out separately as the source does. */
  predicate PointGreater(a: Point, b: Point) {
    if a.x == b.x then
      if a.y == b.y then Rank(a.eventType) > Rank(b.eventType) else a.y > b.y
    else a.x > b.x
  }

  /** `>` is exactly `<` with its arguments exchanged. */
  lemma PointGreaterIsConverse(a: Point, b: Point)
    ensures PointGreater(a, b) <==> PointLess(b, a)
  {
  }

  /** The point order is lexicographic on (x, y, event kind). */
  lemma PointLessLexicographic(a: Point, b: Point)
    ensures PointLess(a, b) <==>
      || a.x < b.x
      || (a.x == b.x && a.y < b.y)
      || (a.x == b.x && a.y == b.y && Rank(a.eventType) < Rank(b.eventType))
  {
  }

  /** The comparison cannot tell two points apart exactly when they agree on
      x, y and event kind; the segments they belong to play no part. */
  lemma PointEquivIff(a: Point, b: Point)
    ensures Equiv(PointLess, a, b) <==> a.x == b.x && a.y == b.y && a.eventType == b.eventType
  {
  }

  /** The point order is a strict weak order, so the AVL tree's results hold for
      the event queue. */
  lemma PointOrderIsStrictWeak()
    ensures StrictWeakOrder(PointLess)
  {
    forall a: Point, b: Point, c: Point ensures OrderedTriple(PointLess, a, b, c) {
      PointLessLexicographic(a, b);
      PointLessLexicographic(b, c);
      PointLessLexicographic(a, c);
    }
  }

  /** At the same coordinates, a segment's start comes before an intersection,
      which comes before a segment's end. */
  lemma EventKindsOrdered(x: real, y: real, s1: Option<SegmentId>, s2: Option<SegmentId>)
    ensures PointLess(Point(x, y, Undefined, s1, s2), Point(x, y, Start, s1, s2))
    ensures PointLess(Point(x, y, Start, s1, s2), Point(x, y, Intersection, s1, s2))
    ensures PointLess(Point(x, y, Intersection, s1, s2), Point(x, y, End, s1, s2))
  {
  }

  /** A segment: its start is its left endpoint and its end its right one. */
  datatype Segment = Segment(id: SegmentId, start: Point, end: Point)

  /** `p` tagged as an event of kind `e` of segment `id`. */
  function Tag(p: Point, e: EventType, id: SegmentId): Point {
    p.(eventType := e, segment := Some(id))
  }

  /** `Segment.__init__`: the endpoint with the smaller x (the first one when the
      two xs are equal) becomes the start, and both endpoints are tagged with
      their event kind and the segment they belong to. */
  function NewSegment(p1: Point, p2: Point, id: SegmentId): (s: Segment)
    ensures s.id == id && s.start.x <= s.end.x
    ensures s.start.eventType == Start && s.end.eventType == End
    ensures s.start.segment == Some(id) && s.end.segment == Some(id)
    ensures || (s.start == Tag(p1, Start, id) && s.end == Tag(p2, End, id))
            || (s.start == Tag(p2, Start, id) && s.end == Tag(p1, End, id))
    ensures p1.x == p2.x ==> s.start == Tag(p1, Start, id)
  {
    if p1.x <= p2.x then Segment(id, Tag(p1, Start, id), Tag(p2, End, id))
    else Segment(id, Tag(p2, Start, id), Tag(p1, End, id))
  }

  /** Except for a vertical segment the order the endpoints are given in does
      not matter. */
  lemma NewSegmentSymmetric(p1: Point, p2: Point, id: SegmentId)
    requires p1.x != p2.x
    ensures NewSegment(p1, p2, id) == NewSegment(p2, p1, id)
  {
  }

  /** Unless the segment is vertical with distinct ends, its start event comes
      before its end event in the event order. */
  lemma StartEventFirst(p1: Point, p2: Point, id: SegmentId)
    requires p1.x != p2.x || p1.y == p2.y
    ensures PointLess(NewSegment(p1, p2, id).start, NewSegment(p1, p2, id).end)
  {
  }

  /** What `Segment.value_at_x` yields: nothing outside the segment's x-range,
      the y of its line inside it, or the division by zero the slope of a
      vertical segment raises. */
  datatype Evaluation = OutOfRange | Value(y: real) | DivisionByZero

  /** `Segment.value_at_x` with `slope` and `interceptor` inlined, in exact arithmetic. */
  function ValueAtX(s: Segment, x: real): (v: Evaluation)
    ensures v == OutOfRange <==> x < s.start.x || x > s.end.x
    ensures v == DivisionByZero <==> s.start.x <= x <= s.end.x && s.start.x == s.end.x
    ensures v.Value? && x == s.start.x ==> v.y == s.start.y
    ensures v.Value? && x == s.end.x ==> v.y == s.end.y
  {
    if x < s.start.x || x > s.end.x then OutOfRange
    else if s.end.x == s.start.x then DivisionByZero
    else
      var slope := (s.end.y - s.start.y) / (s.end.x - s.start.x);
      var interceptor := s.end.y - s.end.x * slope;
      assert slope * (s.end.x - s.start.x) == s.end.y - s.start.y;
      assert slope * x + interceptor == s.end.y - slope * (s.end.x - x);
      Value(slope * x + interceptor)
  }

  /** Inside the range, the value lies between the ys of the two endpoints. */
  lemma ValueBetweenEndpoints(s: Segment, x: real)
    requires ValueAtX(s, x).Value?
    ensures var y := ValueAtX(s, x).y;
      (s.start.y <= y <= s.end.y) || (s.end.y <= y <= s.start.y)
  {
    var dx, dy := s.end.x - s.start.x, s.end.y - s.start.y;
    var slope := dy / dx;
    var y := ValueAtX(s, x).y;
    assert y == s.start.y + slope * (x - s.start.x);
    var f := (x - s.start.x) / dx;
    assert 0.0 <= f <= 1.0;
    assert slope * (x - s.start.x) == f * dy;
    if dy >= 0.0 {
      assert 0.0 <= f * dy <= dy;
    } else {
      assert dy <= f * dy <= 0.0;
    }
  }
}
