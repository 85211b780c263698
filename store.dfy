/**
 * The applet's two drawings as the fixed-size tables it keeps them in:
 * coordinates `nodeX[g]`, `nodeY[g]` (200 nodes each), edge tables
 * `links[g]` (800 links each) with their live counts, the extra-node table
 * of the triangulation builder, and the graph-1 indices of the frame
 * corners.  The methods are the handlers that rewrite these tables in place.
 */
module Store {
  import opened Geometry
  import opened Buffers
  import opened LinkLists
  import opened ExtraNodes
  import opened Graphs

  /** The capacities the applet allocates. */
  const MaxNodes := 200
  const MaxLinks := 800
  const MaxExtra := 100

  /**
   * The outcome of the bridge search in `addBoundary`: none found, or frame
   * corner `corner` of drawing 0, the rotation `turn` of drawing 1's corners,
   * and the node `node` both corners are joined to.
   */
  datatype Bridge = NoBridge | Bridge(corner: int, turn: int, node: int)

  /** What the search guarantees: corner and turn name one of four slots, and the node is an existing one. */
  predicate BridgeOk(bridge: Bridge, n: int)
  {
    bridge.Bridge? ==> 0 <= bridge.corner < 4 && 0 <= bridge.turn < 4 && 0 <= bridge.node < n
  }

  /** The link `addBoundary` appends to both edge tables after the ring, if a bridge was found. */
  function BridgeLinks(bridge: Bridge, n: int): (r: seq<Link>)
    ensures |r| == if bridge.Bridge? then 1 else 0
  {
    if bridge.Bridge? then [Link(n + bridge.corner, bridge.node)] else []
  }

  /** Drawing 1's corner slots `n .. n+3` after the rotation, when a bridge was found. */
  function Turned(xs: seq<int>, n: int, bridge: Bridge): (r: seq<int>)
    requires 0 <= n && n + 4 <= |xs| && BridgeOk(bridge, n)
    ensures |r| == |xs|
  {
    if bridge.NoBridge? then xs
    else Splice(xs, n, Rotated(xs[n..n + 4], (bridge.turn - bridge.corner + 4) % 4))
  }

  /** Lines 1040-1049 of `addBoundary` on one coordinate table of drawing 1. */
  method TurnCorners(a: array<int>, n: int, bridge: Bridge)
    requires 0 <= n && n + 4 <= a.Length && BridgeOk(bridge, n)
    modifies a
    ensures a[..] == Turned(old(a[..]), n, bridge)
  {
    if bridge.Bridge? {
      RotateCorners(a, n, bridge.corner, bridge.turn);
    }
  }

  /** The last lines of `addBoundary` on one edge table: the bridge link, if any, goes right after the ring. */
  method AppendBridge(links: array<Link>, lc: int, n: int, bridge: Bridge, ghost l: seq<Link>)
    requires 0 <= lc && lc + 5 <= links.Length == |l| && links[..] == Splice(l, lc, Ring(n))
    modifies links
    ensures links[..] == Splice(l, lc, Ring(n) + BridgeLinks(bridge, n))
  {
    if bridge.Bridge? {
      SpliceExtend(l, lc, Ring(n), Link(n + bridge.corner, bridge.node));
      links[lc + 4] := Link(n + bridge.corner, bridge.node);
    } else {
      assert Ring(n) + BridgeLinks(bridge, n) == Ring(n);
    }
  }

  /**
   * Drawing 0's share of `addBoundary`: the box of its first `n` nodes, the
   * four frame corners as nodes `n .. n+3`, the ring after its `lc` links,
   * and the bridge link after the ring.
   */
  method FrameFirst(xs: array<int>, ys: array<int>, links: array<Link>, n: int, lc: int, bridge: Bridge)
    requires xs != ys && 0 <= n && n + 4 <= xs.Length && n + 4 <= ys.Length
    requires 0 <= lc && lc + 5 <= links.Length && BridgeOk(bridge, n)
    modifies xs, ys, links
    ensures var b := BoxOf(old(xs[..]), old(ys[..]), if n < 1 then 1 else n);
      xs[..] == Splice(old(xs[..]), n, CornerXs(b)) && ys[..] == Splice(old(ys[..]), n, CornerYs(b))
    ensures links[..] == Splice(old(links[..]), lc, Ring(n) + BridgeLinks(bridge, n))
  {
    var b := ScanBox(xs, ys, n);
    AppendFrame(xs, ys, links, n, lc, n, CornerXs(b), CornerYs(b));
    AppendBridge(links, lc, n, bridge, old(links[..]));
  }

  /**
   * Drawing 1's share of `addBoundary`: the box of its first `n` nodes (the
   * node count of drawing 0), the corners as nodes `n1 .. n1+3`, the ring of
   * drawing 0's corner indices after its `lc` links, then the rotation of
   * slots `n .. n+3` and the bridge link when a bridge was found; `border`
   * records the new corner indices.
   */
  method FrameSecond(xs: array<int>, ys: array<int>, links: array<Link>, border: array<int>, n1: int, lc: int, n: int, bridge: Bridge)
    requires xs != ys && xs != border && ys != border && 4 <= border.Length && 0 <= n1 && n1 + 4 <= xs.Length && n1 + 4 <= ys.Length
    requires 0 <= n && n + 4 <= xs.Length && n + 4 <= ys.Length
    requires 0 <= lc && lc + 5 <= links.Length && BridgeOk(bridge, n)
    modifies xs, ys, links, border
    ensures var b := BoxOf(old(xs[..]), old(ys[..]), if n < 1 then 1 else n);
      xs[..] == Turned(Splice(old(xs[..]), n1, CornerXs(b)), n, bridge) &&
      ys[..] == Turned(Splice(old(ys[..]), n1, CornerYs(b)), n, bridge)
    ensures links[..] == Splice(old(links[..]), lc, Ring(n) + BridgeLinks(bridge, n))
    ensures border[..] == Splice(old(border[..]), 0, CornerIndices(n1))
  {
    var b := ScanBox(xs, ys, n);
    AppendFrame(xs, ys, links, n1, lc, n, CornerXs(b), CornerYs(b));
    TurnCorners(xs, n, bridge);
    TurnCorners(ys, n, bridge);
    AppendBridge(links, lc, n, bridge, old(links[..]));
    RecordBorder(border, n1);
  }

  /** The compaction loop of `correctEdges` on both coordinate tables of one drawing. */
  method CompactDrawing(xs: array<int>, ys: array<int>, correctNc: int, k: int, n: int)
    requires xs != ys && 0 <= correctNc && 0 <= k && n <= xs.Length && n <= ys.Length
    modifies xs, ys
    ensures xs[..] == Compacted(old(xs[..]), correctNc, k, n) && ys[..] == Compacted(old(ys[..]), correctNc, k, n)
  {
    CompactTable(xs, correctNc, k, n);
    CompactTable(ys, correctNc, k, n);
  }

  /** The contents of the seven tables `addBoundary` writes. */
  datatype Tables = Tables(x0: seq<int>, y0: seq<int>, x1: seq<int>, y1: seq<int>,
                           links0: seq<Link>, links1: seq<Link>, border: seq<int>)

  /** The tables have the sizes the applet allocates. */
  predicate Sized(t: Tables)
  {
    |t.x0| == MaxNodes && |t.y0| == MaxNodes && |t.x1| == MaxNodes && |t.y1| == MaxNodes &&
    |t.border| == MaxNodes && |t.links0| == MaxLinks && |t.links1| == MaxLinks
  }

  /**
   * The tables after `addBoundary`, for node counts `n`, `n1` and link counts
   * `lc0`, `lc1`: drawing 0 gets the corners of the box of its first `n`
   * nodes at `n .. n+3`, drawing 1 the corners of its own box (also over `n`
   * nodes) at `n1 .. n1+3`, then turned at slots `n .. n+3`; both edge tables
   * get the ring over `n .. n+3` and the bridge link; `border` starts with the
   * corner indices of drawing 1.
   */
  function WithBoundary(t: Tables, n: int, n1: int, lc0: int, lc1: int, bridge: Bridge): (r: Tables)
    requires Sized(t) && 0 <= n && n + 4 <= MaxNodes && 0 <= n1 && n1 + 4 <= MaxNodes
    requires 0 <= lc0 && lc0 + 5 <= MaxLinks && 0 <= lc1 && lc1 + 5 <= MaxLinks && BridgeOk(bridge, n)
    ensures Sized(r)
  {
    var m := if n < 1 then 1 else n;
    var b0, b1 := BoxOf(t.x0, t.y0, m), BoxOf(t.x1, t.y1, m);
    var added := Ring(n) + BridgeLinks(bridge, n);
    Tables(Splice(t.x0, n, CornerXs(b0)), Splice(t.y0, n, CornerYs(b0)),
           Turned(Splice(t.x1, n1, CornerXs(b1)), n, bridge), Turned(Splice(t.y1, n1, CornerYs(b1)), n, bridge),
           Splice(t.links0, lc0, added), Splice(t.links1, lc1, added),
           Splice(t.border, 0, CornerIndices(n1)))
  }

  /** The table writes of `addBoundary`: both drawings' shares, as `WithBoundary` describes them. */
  method AddFrames(x0: array<int>, y0: array<int>, l0: array<Link>, x1: array<int>, y1: array<int>, l1: array<Link>, bd: array<int>,
                   n: int, n1: int, lc0: int, lc1: int, bridge: Bridge)
    requires x0.Length == MaxNodes && y0.Length == MaxNodes && x1.Length == MaxNodes && y1.Length == MaxNodes && bd.Length == MaxNodes
    requires l0.Length == MaxLinks && l1.Length == MaxLinks
    requires x0 != y0 && x1 != y1 && x1 != bd && y1 != bd && l0 != l1
    requires x0 != x1 && x0 != y1 && x0 != bd && y0 != x1 && y0 != y1 && y0 != bd
    requires 0 <= n && n + 4 <= MaxNodes && 0 <= n1 && n1 + 4 <= MaxNodes
    requires 0 <= lc0 && lc0 + 5 <= MaxLinks && 0 <= lc1 && lc1 + 5 <= MaxLinks && BridgeOk(bridge, n)
    modifies x0, y0, l0, x1, y1, l1, bd
    ensures Tables(x0[..], y0[..], x1[..], y1[..], l0[..], l1[..], bd[..]) ==
      WithBoundary(old(Tables(x0[..], y0[..], x1[..], y1[..], l0[..], l1[..], bd[..])), n, n1, lc0, lc1, bridge)
  {
    FrameFirst(x0, y0, l0, n, lc0, bridge);
    FrameSecond(x1, y1, l1, bd, n1, lc1, n, bridge);
  }

  class GraphStore {
    const nodeX0: array<int>
    const nodeY0: array<int>
    const nodeX1: array<int>
    const nodeY1: array<int>
    const links0: array<Link>
    const links1: array<Link>
    /** `curNode[g]`: the number of nodes of drawing `g`. */
    var curNode0: int
    var curNode1: int
    /** `currentLinkCount[g]`: the number of live links of drawing `g`. */
    var linkCount0: int
    var linkCount1: int
    /** The rows `(copy, original)` the face walk recorded, and how many. */
    const extraNodes: array<Duplicate>
    var extraNodeCount: int
    /** The node and link counts at the start of the current triangulation round. */
    var correctNc: int
    var correctEc: int
    /** The graph-1 indices of the frame corners, and how many are recorded. */
    const borderNodes: array<int>
    var bc: int

    /** The tables have their allocated sizes, are distinct objects, and every count is within its table. */
    ghost predicate Valid()
      reads this
    {
      nodeX0.Length == MaxNodes && nodeY0.Length == MaxNodes && nodeX1.Length == MaxNodes &&
      nodeY1.Length == MaxNodes && borderNodes.Length == MaxNodes &&
      links0.Length == MaxLinks && links1.Length == MaxLinks && extraNodes.Length == MaxExtra &&
      nodeX0 != nodeY0 && nodeX0 != nodeX1 && nodeX0 != nodeY1 && nodeX0 != borderNodes &&
      nodeY0 != nodeX1 && nodeY0 != nodeY1 && nodeY0 != borderNodes &&
      nodeX1 != nodeY1 && nodeX1 != borderNodes && nodeY1 != borderNodes &&
      links0 != links1 &&
      0 <= curNode0 <= MaxNodes && 0 <= curNode1 <= MaxNodes &&
      0 <= linkCount0 <= MaxLinks && 0 <= linkCount1 <= MaxLinks &&
      0 <= extraNodeCount <= MaxExtra && 0 <= correctNc
    }

    /** Empty drawings, as the applet starts. */
    constructor ()
      ensures Valid()
      ensures curNode0 == 0 && curNode1 == 0 && linkCount0 == 0 && linkCount1 == 0
      ensures extraNodeCount == 0 && correctNc == 0 && correctEc == 0 && bc == 0
    {
      nodeX0 := new int[MaxNodes](_ => 0);
      nodeY0 := new int[MaxNodes](_ => 0);
      nodeX1 := new int[MaxNodes](_ => 0);
      nodeY1 := new int[MaxNodes](_ => 0);
      borderNodes := new int[MaxNodes](_ => 0);
      links0 := new Link[MaxLinks](_ => Link(0, 0));
      links1 := new Link[MaxLinks](_ => Link(0, 0));
      extraNodes := new Duplicate[MaxExtra](_ => Duplicate(0, 0));
      curNode0, curNode1, linkCount0, linkCount1 := 0, 0, 0, 0;
      extraNodeCount, correctNc, correctEc, bc := 0, 0, 0, 0;
    }

    /** The reset button: both drawings and the extra-node table become empty. */
    method Reset()
      requires Valid()
      modifies this
      ensures Valid()
      ensures curNode0 == 0 && curNode1 == 0 && linkCount0 == 0 && linkCount1 == 0 && extraNodeCount == 0
      ensures correctNc == old(correctNc) && correctEc == old(correctEc) && bc == old(bc)
    {
      curNode0, curNode1 := 0, 0;
      linkCount0, linkCount1 := 0, 0;
      extraNodeCount := 0;
    }

    /**
     * `removeRepeated`: in each edge table, every link matched by an earlier
     * live link is deleted by shifting; the live links become `Dedup` of the
     * old ones.
     */
    method RemoveRepeated()
      requires Valid()
      modifies this, links0, links1
      ensures Valid()
      ensures linkCount0 <= old(linkCount0) && linkCount1 <= old(linkCount1)
      ensures links0[..linkCount0] == Dedup(old(links0[..linkCount0]))
      ensures links1[..linkCount1] == Dedup(old(links1[..linkCount1]))
      ensures links0[old(linkCount0)..] == old(links0[linkCount0..])
      ensures links1[old(linkCount1)..] == old(links1[linkCount1..])
      ensures curNode0 == old(curNode0) && curNode1 == old(curNode1) && extraNodeCount == old(extraNodeCount)
      ensures correctNc == old(correctNc) && correctEc == old(correctEc) && bc == old(bc)
    {
      linkCount0 := RemoveRepeatedIn(links0, linkCount0);
      linkCount1 := RemoveRepeatedIn(links1, linkCount1);
    }

    /**
     * `correctEdges`: rewrite the endpoints of the first `currentLinkCount[0]`
     * links of both tables through the extra-node table, close the gap the
     * copies leave in all four coordinate tables, shrink both node counts by
     * the number of copies, and start a new round.
     */
    method CorrectEdges()
      requires Valid()
      requires extraNodeCount <= curNode0 && extraNodeCount <= curNode1
      modifies this, links0, links1, nodeX0, nodeY0, nodeX1, nodeY1
      ensures Valid()
      ensures var extras := old(extraNodes[..extraNodeCount]);
        links0[..old(linkCount0)] == RemapAll(old(links0[..linkCount0]), old(correctNc), extras) &&
        links1[..old(linkCount0)] == RemapAll(old(links1[..linkCount0]), old(correctNc), extras)
      ensures links0[old(linkCount0)..] == old(links0[linkCount0..]) && links1[old(linkCount0)..] == old(links1[linkCount0..])
      ensures var k, n := old(extraNodeCount), old(curNode0);
        nodeX0[..] == Compacted(old(nodeX0[..]), old(correctNc), k, n) &&
        nodeY0[..] == Compacted(old(nodeY0[..]), old(correctNc), k, n) &&
        nodeX1[..] == Compacted(old(nodeX1[..]), old(correctNc), k, n) &&
        nodeY1[..] == Compacted(old(nodeY1[..]), old(correctNc), k, n)
      ensures curNode0 == old(curNode0) - old(extraNodeCount) && curNode1 == old(curNode1) - old(extraNodeCount)
      ensures extraNodeCount == 0 && correctEc == old(linkCount0) && correctNc == curNode0
      ensures linkCount0 == old(linkCount0) && linkCount1 == old(linkCount1) && bc == old(bc)
    {
      var n, ec, k, c := curNode0, linkCount0, extraNodeCount, correctNc;
      curNode0, curNode1, extraNodeCount, correctEc, correctNc := n - k, curNode1 - k, 0, ec, n - k;
      RemapLinks(links0, ec, extraNodes, k, c);
      RemapLinks(links1, ec, extraNodes, k, c);
      CompactDrawing(nodeX0, nodeY0, c, k, n);
      CompactDrawing(nodeX1, nodeY1, c, k, n);
    }

    /**
     * `addBoundary`, with the bridge search's outcome as a parameter: each
     * drawing gets its frame as four new nodes and the ring as four new
     * links, drawing 1's corners are turned and the bridge link added when a
     * bridge was found, and the counts grow by what was added.
     */
    method AddBoundary(bridge: Bridge)
      requires Valid() && BridgeOk(bridge, curNode0)
      requires curNode0 + 4 <= MaxNodes && curNode1 + 4 <= MaxNodes
      requires linkCount0 + 5 <= MaxLinks && linkCount1 + 5 <= MaxLinks
      modifies this, links0, links1, nodeX0, nodeY0, nodeX1, nodeY1, borderNodes
      ensures Valid()
      ensures Tables(nodeX0[..], nodeY0[..], nodeX1[..], nodeY1[..], links0[..], links1[..], borderNodes[..]) ==
        WithBoundary(old(Tables(nodeX0[..], nodeY0[..], nodeX1[..], nodeY1[..], links0[..], links1[..], borderNodes[..])),
                     old(curNode0), old(curNode1), old(linkCount0), old(linkCount1), bridge)
      ensures curNode0 == old(curNode0) + 4 && curNode1 == old(curNode1) + 4 && bc == 4
      ensures linkCount0 == old(linkCount0) + 4 + |BridgeLinks(bridge, old(curNode0))|
      ensures linkCount1 == old(linkCount1) + 4 + |BridgeLinks(bridge, old(curNode0))|
      ensures extraNodeCount == old(extraNodeCount) && correctNc == old(correctNc) && correctEc == old(correctEc)
    {
      var n, n1, lc0, lc1 := curNode0, curNode1, linkCount0, linkCount1;
      var extra := |BridgeLinks(bridge, n)|;
      AddFrames(nodeX0, nodeY0, links0, nodeX1, nodeY1, links1, borderNodes, n, n1, lc0, lc1, bridge);
      curNode0, curNode1, linkCount0, linkCount1, bc := n + 4, n1 + 4, lc0 + 4 + extra, lc1 + 4 + extra, 4;
    }
  }
}
