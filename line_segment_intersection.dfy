/** line_segment_intersection.py: exact integer orientation tests and the
    all-pairs segment intersection scan. A point is `(x, y)`, a segment its
    two end points. */
module LineSegments {
  type Point = (int, int)
  type Segment = (Point, Point)

  /** The integer cross expression of `orientation`. */
  function Cross(p: Point, q: Point, r: Point): int
  {
    (q.1 - p.1) * (r.0 - q.0) - (q.0 - p.0) * (r.1 - q.1)
  }

  /** `orientation`: 0 collinear, 1 clockwise, 2 counter-clockwise. */
  function Orientation(p: Point, q: Point, r: Point): (o: int)
    ensures o == 0 || o == 1 || o == 2
    ensures o == 0 <==> Cross(p, q, r) == 0
    ensures o == 1 <==> Cross(p, q, r) > 0
  {
    var v := Cross(p, q, r);
    if v == 0 then 0 else if v > 0 then 1 else 2
  }

  /** Exchanging the last two points negates the cross expression. */
  lemma {:induction false} CrossSwap(p: Point, q: Point, r: Point)
    ensures Cross(p, r, q) == -Cross(p, q, r)
  {
    var a, b := q.0 - p.0, q.1 - p.1;
    var c, d := r.0 - p.0, r.1 - p.1;
    assert Cross(p, q, r) == b * (c - a) - a * (d - b);
    assert Cross(p, r, q) == d * (a - c) - c * (b - d);
  }

  /** Exchanging `q` and `r` turns clockwise into counter-clockwise and back,
      and keeps collinear. */
  lemma {:induction false} OrientationSwap(p: Point, q: Point, r: Point)
    ensures Orientation(p, r, q) == if Orientation(p, q, r) == 0 then 0 else 3 - Orientation(p, q, r)
  {
    CrossSwap(p, q, r);
  }

  /** A triple read from any of its points in the same cyclic order has the same orientation. */
  lemma {:induction false} OrientationRotate(p: Point, q: Point, r: Point)
    ensures Orientation(q, r, p) == Orientation(p, q, r)
  {
    var a, b := q.0 - p.0, q.1 - p.1;
    var c, d := r.0 - p.0, r.1 - p.1;
    assert Cross(p, q, r) == b * (c - a) - a * (d - b);
    assert Cross(q, r, p) == (d - b) * (0 - c) - (c - a) * (0 - d);
  }

  /** `on_segment(p, q, r)`: `q` lies in the bounding box of `p` and `r`. */
  predicate OnSegment(p: Point, q: Point, r: Point)
    ensures OnSegment(p, q, r) <==>
      (p.0 <= q.0 <= r.0 || r.0 <= q.0 <= p.0) && (p.1 <= q.1 <= r.1 || r.1 <= q.1 <= p.1)
  {
    (if p.0 <= r.0 then p.0 else r.0) <= q.0 <= (if p.0 <= r.0 then r.0 else p.0) &&
    (if p.1 <= r.1 then p.1 else r.1) <= q.1 <= (if p.1 <= r.1 then r.1 else p.1)
  }

  /** The box test does not depend on which end is named first, and each end lies in it. */
  lemma {:induction false} OnSegmentEnds(p: Point, q: Point, r: Point)
    ensures OnSegment(p, q, r) == OnSegment(r, q, p)
    ensures OnSegment(p, p, r) && OnSegment(p, r, r)
  {
  }

  /** `segments_intersect`: the general straddle test, then the four
      collinear special cases. Segments that share an end point always
      intersect, through one of the collinear cases. */
  predicate SegmentsIntersect(p1: Point, q1: Point, p2: Point, q2: Point)
    ensures p1 == p2 || p1 == q2 || q1 == p2 || q1 == q2 ==> SegmentsIntersect(p1, q1, p2, q2)
  {
    assert Cross(p1, q1, p1) == 0 && Cross(p1, q1, q1) == 0;
    OnSegmentEnds(p1, q1, q1);
    var o1 := Orientation(p1, q1, p2);
    var o2 := Orientation(p1, q1, q2);
    var o3 := Orientation(p2, q2, p1);
    var o4 := Orientation(p2, q2, q1);
    (o1 != o2 && o3 != o4) ||
    (o1 == 0 && OnSegment(p1, p2, q1)) ||
    (o2 == 0 && OnSegment(p1, q2, q1)) ||
    (o3 == 0 && OnSegment(p2, p1, q2)) ||
    (o4 == 0 && OnSegment(p2, q1, q2))
  }

  /** The test does not depend on which segment comes first. */
  lemma {:induction false} IntersectSymmetric(p1: Point, q1: Point, p2: Point, q2: Point)
    ensures SegmentsIntersect(p1, q1, p2, q2) == SegmentsIntersect(p2, q2, p1, q1)
  {
  }

  /** Pairs of indices compared as Python compares tuples. */
  predicate PairBefore(a: (int, int), b: (int, int))
  {
    a.0 < b.0 || (a.0 == b.0 && a.1 < b.1)
  }

  ghost predicate StrictlyIncreasing(ps: seq<(int, int)>)
  {
    forall k, l :: 0 <= k < l < |ps| ==> PairBefore(ps[k], ps[l])
  }

  ghost predicate Intersecting(segments: seq<Segment>, i: int, j: int)
    requires 0 <= i < |segments| && 0 <= j < |segments|
  {
    SegmentsIntersect(segments[i].0, segments[i].1, segments[j].0, segments[j].1)
  }

  /** `check_all_intersections`: exactly the pairs `(i, j)` with `i < j`
      whose segments intersect, in lexicographic order. */
  method CheckAllIntersections(segments: seq<Segment>) returns (pairs: seq<(int, int)>)
    ensures forall p :: p in pairs ==> 0 <= p.0 < p.1 < |segments| && Intersecting(segments, p.0, p.1)
    ensures forall i, j :: 0 <= i < j < |segments| && Intersecting(segments, i, j) ==> (i, j) in pairs
    ensures StrictlyIncreasing(pairs)
  {
    var n := |segments|;
    pairs := [];
    var i := 0;
    while i < n
      invariant 0 <= i <= n
      invariant forall p :: p in pairs ==> 0 <= p.0 < p.1 < n && p.0 < i && Intersecting(segments, p.0, p.1)
      invariant forall a, b :: 0 <= a < b < n && a < i && Intersecting(segments, a, b) ==> (a, b) in pairs
      invariant StrictlyIncreasing(pairs)
    {
      var j := i + 1;
      while j < n
        invariant i + 1 <= j <= n
        invariant forall p :: p in pairs ==> 0 <= p.0 < p.1 < n && PairBefore(p, (i, j)) && Intersecting(segments, p.0, p.1)
        invariant forall a, b :: 0 <= a < b < n && PairBefore((a, b), (i, j)) && Intersecting(segments, a, b) ==> (a, b) in pairs
        invariant StrictlyIncreasing(pairs)
      {
        var (p1, q1) := segments[i];
        var (p2, q2) := segments[j];
        if SegmentsIntersect(p1, q1, p2, q2) {
          pairs := pairs + [(i, j)];
        }
        j := j + 1;
      }
      i := i + 1;
    }
  }
}
