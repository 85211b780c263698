/**
 * Integer geometry of the morphing applet: the edge record shared by both
 * drawings and the segment-crossing scan `edgeCross`, modelled exactly as the
 * applet computes it (including its orientation-dependent parameter `u`).
 */
module Geometry {

  /** Largest value of a Java `int`; the applet uses it as a "no minimum yet" sentinel. */
  const IntMax: int := 0x7fff_ffff

  /** A Java `int`. */
  type Int32 = x: int | -0x8000_0000 <= x <= IntMax

  /** One row `links[g][i]` of an edge table: the two endpoint node indices. */
  datatype Link = Link(a: int, b: int)

  /** Every endpoint of every link indexes a coordinate table of length `len`. */
  predicate EndpointsIn(ls: seq<Link>, len: int)
  {
    forall i :: 0 <= i < |ls| ==> 0 <= ls[i].a < len && 0 <= ls[i].b < len
  }

  /** Signed area of the parallelogram spanned by the input edge and the stored edge. */
  function Area(ix: int, iy: int, cx: int, cy: int): int
  {
    ix * cy - iy * cx
  }

  /**
   * One iteration of the `edgeCross` loop: does the input edge (x1,y1)-(x2,y2)
   * "cross" the stored edge (cx1,cy1)-(cx2,cy2)?  `u` is the dot product of
   * (p1 - c1) with the stored edge's direction, exactly as the applet computes it.
   */
  predicate Hits(x1: int, y1: int, x2: int, y2: int, cx1: int, cy1: int, cx2: int, cy2: int)
  {
    var area := Area(x2 - x1, y2 - y1, cx2 - cx1, cy2 - cy1);
    var u := (x1 - cx1) * (cx2 - cx1) + (y1 - cy1) * (cy2 - cy1);
    var v := (x1 - cx1) * (y2 - y1) - (y1 - cy1) * (x2 - x1);
    area != 0 && 0 < u < area && 0 < v < area
  }

  /** `Hits` against the stored link `l`, whose endpoints are looked up in `xs`/`ys`. */
  predicate HitsLink(x1: int, y1: int, x2: int, y2: int, xs: seq<int>, ys: seq<int>, l: Link)
    requires 0 <= l.a < |xs| && 0 <= l.b < |xs| && |ys| == |xs|
  {
    Hits(x1, y1, x2, y2, xs[l.a], ys[l.a], xs[l.b], ys[l.b])
  }

  /**
   * `edgeCross`: scans the first `|ls|` links of one drawing and reports whether
   * any of them is hit by the input edge.
   */
  function EdgeCross(x1: int, y1: int, x2: int, y2: int, xs: seq<int>, ys: seq<int>, ls: seq<Link>): (r: bool)
    requires |ys| == |xs| && EndpointsIn(ls, |xs|)
    ensures r <==> exists i :: 0 <= i < |ls| && HitsLink(x1, y1, x2, y2, xs, ys, ls[i])
  {
    if ls == [] then false
    else if HitsLink(x1, y1, x2, y2, xs, ys, ls[0]) then true
    else
      var rest := EdgeCross(x1, y1, x2, y2, xs, ys, ls[1..]);
      assert forall i :: 1 <= i < |ls| ==> ls[i] == ls[1..][i - 1];
      rest
  }

  /** A parallelogram of zero or negative signed area never counts as a crossing. */
  lemma NonPositiveAreaNeverHits(x1: int, y1: int, x2: int, y2: int, cx1: int, cy1: int, cx2: int, cy2: int)
    requires Area(x2 - x1, y2 - y1, cx2 - cx1, cy2 - cy1) <= 0
    ensures !Hits(x1, y1, x2, y2, cx1, cy1, cx2, cy2)
  {
  }

  /**
   * Reversing the input edge negates the area, so of an input edge and its
   * reverse at most one can ever be reported as crossing a given stored edge
   * whose area is nonzero.
   */
  lemma {:induction false} ReversedInputNeverBothHit(x1: int, y1: int, x2: int, y2: int, cx1: int, cy1: int, cx2: int, cy2: int)
    ensures !(Hits(x1, y1, x2, y2, cx1, cy1, cx2, cy2) && Hits(x2, y2, x1, y1, cx1, cy1, cx2, cy2))
  {
    var a := Area(x2 - x1, y2 - y1, cx2 - cx1, cy2 - cy1);
    var b := Area(x1 - x2, y1 - y2, cx2 - cx1, cy2 - cy1);
    assert b == -a by {
      assert x1 - x2 == -(x2 - x1) && y1 - y2 == -(y2 - y1);
      NegArea(x2 - x1, y2 - y1, cx2 - cx1, cy2 - cy1);
    }
  }

  lemma NegArea(ix: int, iy: int, cx: int, cy: int)
    ensures Area(-ix, -iy, cx, cy) == -Area(ix, iy, cx, cy)
  {
  }

  /** Two segments that properly cross, (0,0)-(2,2) and (0,2)-(2,0), are not reported. */
  lemma CrossingNotReported()
    ensures !EdgeCross(0, 0, 2, 2, [0, 2], [2, 0], [Link(0, 1)])
    ensures !EdgeCross(0, 0, 2, 2, [0, 2], [2, 0], [Link(1, 0)])
  {
  }

  /** Disjoint segments, (0,0)-(0,10) and (-5,-5)-(-15,15), are reported as crossing. */
  lemma DisjointReported()
    ensures EdgeCross(0, 0, 0, 10, [-5, -15], [-5, 15], [Link(0, 1)])
  {
    assert HitsLink(0, 0, 0, 10, [-5, -15], [-5, 15], Link(0, 1));
  }
}
