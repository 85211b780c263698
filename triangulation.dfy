/**
 * The recursive polygon triangulator `triangulate` and its helper
 * `getLeftMostVertexIndex`.  The floating-point "is some vertex inside the
 * candidate ear" test `getInsideVertex` is an oracle parameter: it maps the
 * current vertex list and the leftmost position to -1 or to a position.
 */
module Triangulation {
  import opened Geometry
  import opened Buffers

  /** Every vertex of `ns` indexes the coordinate table (of length `len`). */
  predicate NodesIn(ns: seq<int>, len: int)
  {
    forall i :: 0 <= i < |ns| ==> 0 <= ns[i] < len
  }

  /**
   * The loop of `getLeftMostVertexIndex` from position `i` on, with the running
   * minimum `smallest` (initially `Integer.MAX_VALUE`) found at position `index`.
   */
  function LeftMostScan(vertices: seq<int>, xs: seq<Int32>, i: nat, smallest: int, index: nat): (r: nat)
    requires NodesIn(vertices, |xs|) && i <= |vertices| && (i == 0 ==> index == 0) && (i > 0 ==> index < i)
    ensures |vertices| == 0 ==> r == 0
    ensures |vertices| > 0 ==> r < |vertices|
    decreases |vertices| - i
  {
    if i == |vertices| then index
    else if xs[vertices[i]] < smallest then LeftMostScan(vertices, xs, i + 1, xs[vertices[i]], i)
    else LeftMostScan(vertices, xs, i + 1, smallest, index)
  }

  /**
   * `getLeftMostVertexIndex`: a position in `vertices` (0 for an empty list);
   * `LeftMostIsFirstMinimum` says which one.
   */
  function LeftMostVertexIndex(vertices: seq<int>, xs: seq<Int32>): (r: nat)
    requires NodesIn(vertices, |xs|)
    ensures |vertices| == 0 ==> r == 0
    ensures |vertices| > 0 ==> r < |vertices|
  {
    LeftMostScan(vertices, xs, 0, IntMax, 0)
  }

  /** The scan keeps the first position of the smallest x seen so far. */
  lemma {:induction false} LeftMostScanIsFirstMinimum(vertices: seq<int>, xs: seq<Int32>, i: nat, smallest: int, index: nat)
    requires NodesIn(vertices, |xs|) && i <= |vertices| && (i == 0 ==> index == 0) && (i > 0 ==> index < i)
    requires i == 0 ==> smallest == IntMax
    requires i > 0 ==> smallest == xs[vertices[index]]
    requires forall k :: 0 <= k < i ==> smallest <= xs[vertices[k]]
    requires forall k :: 0 <= k < index ==> smallest < xs[vertices[k]]
    ensures var r := LeftMostScan(vertices, xs, i, smallest, index);
      (forall k :: 0 <= k < |vertices| ==> xs[vertices[r]] <= xs[vertices[k]]) &&
      (forall k :: 0 <= k < r ==> xs[vertices[r]] < xs[vertices[k]])
    decreases |vertices| - i
  {
    if i < |vertices| {
      if xs[vertices[i]] < smallest {
        LeftMostScanIsFirstMinimum(vertices, xs, i + 1, xs[vertices[i]], i);
      } else {
        LeftMostScanIsFirstMinimum(vertices, xs, i + 1, smallest, index);
      }
    }
  }

  /** `getLeftMostVertexIndex` returns the first position of a vertex of minimal x. */
  lemma LeftMostIsFirstMinimum(vertices: seq<int>, xs: seq<Int32>)
    requires NodesIn(vertices, |xs|)
    ensures var r := LeftMostVertexIndex(vertices, xs);
      (forall k :: 0 <= k < |vertices| ==> xs[vertices[r]] <= xs[vertices[k]]) &&
      (forall k :: 0 <= k < r ==> xs[vertices[r]] < xs[vertices[k]])
  {
    LeftMostScanIsFirstMinimum(vertices, xs, 0, IntMax, 0);
  }

  function Abs(x: int): nat { if x < 0 then -x else x }

  /**
   * What the inside-vertex oracle may answer for a list of `m` vertices whose
   * leftmost is at `l`: -1 (the ear is empty), or a position that is neither `l`
   * nor next to `l` around the cycle.  (`getInsideVertex` compares an angle sum
   * against 2*pi; at `l` and at its two neighbours one of the vectors is zero and
   * the sum is NaN, so those positions are never returned.)
   */
  predicate InsideAnswer(w: int, l: int, m: int)
  {
    w == -1 || (0 <= w < m && 2 <= Abs(w - l) <= m - 2)
  }

  /** The oracle answers as `InsideAnswer` allows for every list longer than a triangle. */
  ghost predicate OracleOk(inside: (seq<int>, nat) -> int)
  {
    forall ns: seq<int>, l: nat :: 3 < |ns| && l < |ns| ==> InsideAnswer(inside(ns, l), l, |ns|)
  }

  /** The oracle's answer for the vertex list `ns` with leftmost position `l`. */
  function Ask(inside: (seq<int>, nat) -> int, ns: seq<int>, l: nat): int
  {
    inside(ns, l)
  }

  /** How many diagonals a polygon of `n` vertices receives. */
  function DiagonalTotal(n: int): nat
  {
    if n <= 3 then 0 else n - 3
  }

  /** The ear `(next, prev)` cut off at the leftmost position `l` of `ns`. */
  function Ear(ns: seq<int>, l: nat): Link
    requires l < |ns|
  {
    var m := |ns|;
    Link(ns[(l + 1) % m], ns[(l - 1 + m) % m])
  }

  /** The arc from position `lo` to `hi`, both included. */
  function InnerArc(ns: seq<int>, lo: nat, hi: nat): seq<int>
    requires lo <= hi < |ns|
  {
    ns[lo..hi + 1]
  }

  /** The arc from position `hi` round the end of the list back to `lo`, both included. */
  function OuterArc(ns: seq<int>, lo: nat, hi: nat): seq<int>
    requires lo <= hi < |ns|
  {
    ns[hi..] + ns[..lo + 1]
  }

  /**
   * What the ear-clipping loop of `triangulate` leaves behind: the ear links
   * it appended, the contents of the vertex array, and how many vertices are
   * still live at the front of it.
   */
  datatype Clipping = Clipping(links: seq<Link>, rest: seq<int>, live: nat)

  /**
   * The ear-clipping loop on the array contents `a` with `m` live vertices:
   * while more than three remain and the oracle finds the leftmost ear empty,
   * record the ear `(next, prev)` and shift the leftmost vertex out, which
   * leaves the last live entry duplicated behind the new end.
   */
  function Ears(a: seq<int>, m: nat, xs: seq<Int32>, inside: (seq<int>, nat) -> int): (r: Clipping)
    requires m <= |a| && NodesIn(a[..m], |xs|) && OracleOk(inside)
    ensures r.live <= m && |r.rest| == |a| && NodesIn(r.rest[..r.live], |xs|)
    ensures |r.links| == m - r.live && |r.links| + DiagonalTotal(r.live) == DiagonalTotal(m)
    ensures r.live > 3 ==> Ask(inside, r.rest[..r.live], LeftMostVertexIndex(r.rest[..r.live], xs)) != -1
    decreases m
  {
    if m <= 3 then Clipping([], a, m)
    else
      var l := LeftMostVertexIndex(a[..m], xs);
      if Ask(inside, a[..m], l) != -1 then Clipping([], a, m)
      else
        SubListsNodesIn(a[..m], |xs|, l, 0, 0);
        var r := Ears(ShiftedOut(a, m, l), m - 1, xs, inside);
        Clipping([Ear(a[..m], l)] + r.links, r.rest, r.live)
  }

  /**
   * The links `triangulate` appends for the vertex list `ns`, in order: the
   * ears its loop clips, then, when more than three vertices are left, the
   * links of the split step.
   */
  function Diagonals(ns: seq<int>, xs: seq<Int32>, inside: (seq<int>, nat) -> int): (r: seq<Link>)
    requires NodesIn(ns, |xs|) && OracleOk(inside)
    ensures |r| == DiagonalTotal(|ns|)
    decreases |ns|, 1
  {
    assert ns[..|ns|] == ns;
    var e := Ears(ns, |ns|, xs, inside);
    e.links + (if e.live <= 3 then [] else Split(e.rest[..e.live], xs, inside))
  }

  /**
   * The split step for a list whose leftmost ear holds the vertex `w` the
   * oracle names: the diagonal from the leftmost vertex to `w`, then the links
   * of the arc between them, then those of the arc round the other way.
   */
  function Split(ns: seq<int>, xs: seq<Int32>, inside: (seq<int>, nat) -> int): (r: seq<Link>)
    requires 3 < |ns| && NodesIn(ns, |xs|) && OracleOk(inside)
    requires Ask(inside, ns, LeftMostVertexIndex(ns, xs)) != -1
    ensures |r| == DiagonalTotal(|ns|)
    decreases |ns|, 0
  {
    var l := LeftMostVertexIndex(ns, xs);
    var w := Ask(inside, ns, l);
    assert InsideAnswer(w, l, |ns|);
    var lo, hi := if l < w then l else w, if l < w then w else l;
    SubListsNodesIn(ns, |xs|, l, lo, hi);
    [Link(ns[l], ns[w])] + Diagonals(InnerArc(ns, lo, hi), xs, inside) + Diagonals(OuterArc(ns, lo, hi), xs, inside)
  }

  /** The ear loop looks only at the live front of the array. */
  lemma {:induction false} EarsOfPrefix(a: seq<int>, m: nat, xs: seq<Int32>, inside: (seq<int>, nat) -> int)
    requires m <= |a| && NodesIn(a[..m], |xs|) && OracleOk(inside)
    ensures var e, p := Ears(a, m, xs, inside), Ears(a[..m], m, xs, inside);
      e.links == p.links && e.live == p.live && e.rest[..e.live] == p.rest[..p.live]
    decreases m
  {
    var p := a[..m];
    assert p[..m] == a[..m];
    if m > 3 {
      var l := LeftMostVertexIndex(a[..m], xs);
      if Ask(inside, a[..m], l) == -1 {
        var b, c := ShiftedOut(a, m, l), ShiftedOut(p, m, l);
        EarsUnfold(a, m, xs, inside);
        EarsUnfold(p, m, xs, inside);
        EarsOfPrefix(b, m - 1, xs, inside);
        EarsOfPrefix(c, m - 1, xs, inside);
        assert b[..m - 1] == c[..m - 1];
      }
    }
  }

  /** One pass of the ear loop, when it clips an ear. */
  lemma EarsUnfold(a: seq<int>, m: nat, xs: seq<Int32>, inside: (seq<int>, nat) -> int)
    requires 3 < m <= |a| && NodesIn(a[..m], |xs|) && OracleOk(inside)
    requires Ask(inside, a[..m], LeftMostVertexIndex(a[..m], xs)) == -1
    ensures NodesIn(ShiftedOut(a, m, LeftMostVertexIndex(a[..m], xs))[..m - 1], |xs|)
    ensures var l := LeftMostVertexIndex(a[..m], xs);
      var r := Ears(ShiftedOut(a, m, l), m - 1, xs, inside);
      Ears(a, m, xs, inside) == Clipping([Ear(a[..m], l)] + r.links, r.rest, r.live)
  {
    SubListsNodesIn(a[..m], |xs|, LeftMostVertexIndex(a[..m], xs), 0, 0);
  }

  /** Once the ear loop has clipped `clipped` and left `n` vertices, the split step supplies the rest. */
  lemma EarsThenSplit(a: seq<int>, m: nat, xs: seq<Int32>, inside: (seq<int>, nat) -> int, clipped: seq<Link>, rest: seq<int>, n: nat)
    requires m <= |a| && NodesIn(a[..m], |xs|) && OracleOk(inside)
    requires Ears(a, m, xs, inside) == Clipping(clipped, rest, n)
    ensures n <= |rest| && NodesIn(rest[..n], |xs|)
    ensures n <= 3 ==> Diagonals(a[..m], xs, inside) == clipped
    ensures n > 3 ==> Ask(inside, rest[..n], LeftMostVertexIndex(rest[..n], xs)) != -1 &&
                      Diagonals(a[..m], xs, inside) == clipped + Split(rest[..n], xs, inside)
  {
    DiagonalsOfArray(a, m, xs, inside);
  }

  /** `Diagonals` of the live front of an array, read off the ear loop on the whole array. */
  lemma DiagonalsOfArray(a: seq<int>, m: nat, xs: seq<Int32>, inside: (seq<int>, nat) -> int)
    requires m <= |a| && NodesIn(a[..m], |xs|) && OracleOk(inside)
    ensures var e := Ears(a, m, xs, inside);
      Diagonals(a[..m], xs, inside) == e.links + (if e.live <= 3 then [] else Split(e.rest[..e.live], xs, inside))
  {
    EarsOfPrefix(a, m, xs, inside);
    assert a[..m][..|a[..m]|] == a[..m];
  }

  /** The vertices of the smaller lists `triangulate` recurses on are vertices of `ns`. */
  lemma SubListMembers(ns: seq<int>, l: nat, lo: nat, hi: nat)
    requires l < |ns| && lo <= hi < |ns|
    ensures forall x :: x in RemoveAt(ns, l) ==> x in ns
    ensures forall x :: x in InnerArc(ns, lo, hi) ==> x in ns
    ensures forall x :: x in OuterArc(ns, lo, hi) ==> x in ns
  {
    forall x | x in RemoveAt(ns, l) ensures x in ns {
      var k :| 0 <= k < |RemoveAt(ns, l)| && RemoveAt(ns, l)[k] == x;
      assert x == ns[if k < l then k else k + 1];
    }
    forall x | x in InnerArc(ns, lo, hi) ensures x in ns {
      var k :| 0 <= k < hi + 1 - lo && InnerArc(ns, lo, hi)[k] == x;
      assert x == ns[lo + k];
    }
    forall x | x in OuterArc(ns, lo, hi) ensures x in ns {
      var k :| 0 <= k < |OuterArc(ns, lo, hi)| && OuterArc(ns, lo, hi)[k] == x;
      assert x == ns[if k < |ns| - hi then hi + k else k - (|ns| - hi)];
    }
  }

  /** The smaller lists `triangulate` recurses on keep their vertices inside the coordinate table. */
  lemma SubListsNodesIn(ns: seq<int>, len: int, l: nat, lo: nat, hi: nat)
    requires NodesIn(ns, len) && l < |ns| && lo <= hi < |ns|
    ensures NodesIn(RemoveAt(ns, l), len)
    ensures NodesIn(InnerArc(ns, lo, hi), len)
    ensures NodesIn(OuterArc(ns, lo, hi), len)
  {
    var r := RemoveAt(ns, l);
    forall k | 0 <= k < |r| ensures 0 <= r[k] < len {
      assert r[k] == ns[if k < l then k else k + 1];
    }
    var o := OuterArc(ns, lo, hi);
    forall k | 0 <= k < |o| ensures 0 <= o[k] < len {
      assert o[k] == ns[if k < |ns| - hi then hi + k else k - (|ns| - hi)];
    }
  }

  /** Every ear link joins two live vertices, and the vertices left live were live before. */
  lemma {:induction false} EarsMembers(a: seq<int>, m: nat, xs: seq<Int32>, inside: (seq<int>, nat) -> int)
    requires m <= |a| && NodesIn(a[..m], |xs|) && OracleOk(inside)
    ensures var e := Ears(a, m, xs, inside);
      (forall d :: d in e.links ==> d.a in a[..m] && d.b in a[..m]) &&
      (forall x :: x in e.rest[..e.live] ==> x in a[..m])
    decreases m
  {
    if m > 3 {
      var l := LeftMostVertexIndex(a[..m], xs);
      if Ask(inside, a[..m], l) == -1 {
        var b := ShiftedOut(a, m, l);
        EarsUnfold(a, m, xs, inside);
        SubListMembers(a[..m], l, 0, 0);
        EarsMembers(b, m - 1, xs, inside);
        var e, r, ear := Ears(a, m, xs, inside), Ears(b, m - 1, xs, inside), Ear(a[..m], l);
        assert e.links == [ear] + r.links && e.rest[..e.live] == r.rest[..r.live];
        assert ear.a in a[..m] && ear.b in a[..m];
        forall d | d in e.links ensures d.a in a[..m] && d.b in a[..m] {
          if d != ear {
            assert d in r.links;
          }
        }
      }
    }
  }

  /** Every diagonal joins two vertices of the polygon. */
  lemma {:induction false} DiagonalEndpoints(ns: seq<int>, xs: seq<Int32>, inside: (seq<int>, nat) -> int)
    requires NodesIn(ns, |xs|) && OracleOk(inside)
    ensures forall d :: d in Diagonals(ns, xs, inside) ==> d.a in ns && d.b in ns
    decreases |ns|, 1
  {
    assert ns[..|ns|] == ns;
    var e := Ears(ns, |ns|, xs, inside);
    EarsMembers(ns, |ns|, xs, inside);
    if e.live > 3 {
      SplitEndpoints(e.rest[..e.live], xs, inside);
    }
  }

  /** Every link of the split step joins two vertices of the list it splits. */
  lemma {:induction false} SplitEndpoints(ns: seq<int>, xs: seq<Int32>, inside: (seq<int>, nat) -> int)
    requires 3 < |ns| && NodesIn(ns, |xs|) && OracleOk(inside)
    requires Ask(inside, ns, LeftMostVertexIndex(ns, xs)) != -1
    ensures forall d :: d in Split(ns, xs, inside) ==> d.a in ns && d.b in ns
    decreases |ns|, 0
  {
    var l := LeftMostVertexIndex(ns, xs);
    var w := Ask(inside, ns, l);
    var lo, hi := if l < w then l else w, if l < w then w else l;
    SplitParts(ns, xs, inside, l, w, lo, hi);
    var inner, outer := InnerArc(ns, lo, hi), OuterArc(ns, lo, hi);
    DiagonalEndpoints(inner, xs, inside);
    DiagonalEndpoints(outer, xs, inside);
    SubListMembers(ns, l, lo, hi);
    forall d | d in Split(ns, xs, inside) ensures d.a in ns && d.b in ns {
      if d != Link(ns[l], ns[w]) && d !in Diagonals(inner, xs, inside) {
        assert d in Diagonals(outer, xs, inside);
      }
    }
  }

  /** No vertex occurs twice in `ns`. */
  predicate Distinct(ns: seq<int>)
  {
    forall i, j :: 0 <= i < j < |ns| ==> ns[i] != ns[j]
  }

  /** The smaller lists `triangulate` recurses on repeat no vertex when `ns` repeats none. */
  lemma SubListsDistinct(ns: seq<int>, l: nat, lo: nat, hi: nat)
    requires Distinct(ns) && l < |ns| && lo < hi < |ns|
    ensures Distinct(RemoveAt(ns, l))
    ensures Distinct(InnerArc(ns, lo, hi))
    ensures Distinct(OuterArc(ns, lo, hi))
  {
    var m := |ns|;
    var r := RemoveAt(ns, l);
    forall i, j | 0 <= i < j < |r| ensures r[i] != r[j] {
      assert r[i] == ns[if i < l then i else i + 1];
      assert r[j] == ns[if j < l then j else j + 1];
    }
    var inner := InnerArc(ns, lo, hi);
    forall i, j | 0 <= i < j < |inner| ensures inner[i] != inner[j] {
      assert inner[i] == ns[lo + i] && inner[j] == ns[lo + j];
    }
    var outer := OuterArc(ns, lo, hi);
    forall i, j | 0 <= i < j < |outer| ensures outer[i] != outer[j] {
      assert outer[i] == ns[if i < m - hi then hi + i else i - (m - hi)];
      assert outer[j] == ns[if j < m - hi then hi + j else j - (m - hi)];
    }
  }

  /** On a list without repeated vertices the vertices the ear loop leaves live stay distinct. */
  lemma {:induction false} EarsDistinct(a: seq<int>, m: nat, xs: seq<Int32>, inside: (seq<int>, nat) -> int)
    requires m <= |a| && NodesIn(a[..m], |xs|) && OracleOk(inside) && Distinct(a[..m])
    ensures var e := Ears(a, m, xs, inside); Distinct(e.rest[..e.live])
    decreases m
  {
    if m > 3 {
      var l := LeftMostVertexIndex(a[..m], xs);
      if Ask(inside, a[..m], l) == -1 {
        var b := ShiftedOut(a, m, l);
        EarsUnfold(a, m, xs, inside);
        SubListsDistinct(a[..m], l, 0, 1);
        EarsDistinct(b, m - 1, xs, inside);
      }
    }
  }

  /** On a list without repeated vertices no ear link is a loop. */
  lemma {:induction false} EarsProper(a: seq<int>, m: nat, xs: seq<Int32>, inside: (seq<int>, nat) -> int)
    requires m <= |a| && NodesIn(a[..m], |xs|) && OracleOk(inside) && Distinct(a[..m])
    ensures forall d :: d in Ears(a, m, xs, inside).links ==> d.a != d.b
    decreases m
  {
    if m > 3 {
      var l := LeftMostVertexIndex(a[..m], xs);
      if Ask(inside, a[..m], l) == -1 {
        var b := ShiftedOut(a, m, l);
        EarsUnfold(a, m, xs, inside);
        SubListsDistinct(a[..m], l, 0, 1);
        EarsProper(b, m - 1, xs, inside);
        EarProper(a[..m], l);
        var r, ear := Ears(b, m - 1, xs, inside), Ear(a[..m], l);
        forall d | d in Ears(a, m, xs, inside).links ensures d.a != d.b {
          if d != ear {
            assert d in r.links;
          }
        }
      }
    }
  }

  /** On a polygon without repeated vertices no diagonal is a loop. */
  lemma {:induction false} DiagonalsProper(ns: seq<int>, xs: seq<Int32>, inside: (seq<int>, nat) -> int)
    requires NodesIn(ns, |xs|) && OracleOk(inside) && Distinct(ns)
    ensures forall d :: d in Diagonals(ns, xs, inside) ==> d.a != d.b
    decreases |ns|, 1
  {
    assert ns[..|ns|] == ns;
    var e := Ears(ns, |ns|, xs, inside);
    EarsProper(ns, |ns|, xs, inside);
    EarsDistinct(ns, |ns|, xs, inside);
    if e.live > 3 {
      SplitProper(e.rest[..e.live], xs, inside);
    }
  }

  /** The split step of a list without repeated vertices creates no loop. */
  lemma {:induction false} SplitProper(ns: seq<int>, xs: seq<Int32>, inside: (seq<int>, nat) -> int)
    requires 3 < |ns| && NodesIn(ns, |xs|) && OracleOk(inside) && Distinct(ns)
    requires Ask(inside, ns, LeftMostVertexIndex(ns, xs)) != -1
    ensures forall d :: d in Split(ns, xs, inside) ==> d.a != d.b
    decreases |ns|, 0
  {
    var l := LeftMostVertexIndex(ns, xs);
    var w := Ask(inside, ns, l);
    var lo, hi := if l < w then l else w, if l < w then w else l;
    SplitParts(ns, xs, inside, l, w, lo, hi);
    SubListsDistinct(ns, l, lo, hi);
    var inner, outer := InnerArc(ns, lo, hi), OuterArc(ns, lo, hi);
    DiagonalsProper(inner, xs, inside);
    DiagonalsProper(outer, xs, inside);
    if l < w {
      assert ns[l] != ns[w];
    } else {
      assert ns[w] != ns[l];
    }
    forall d | d in Split(ns, xs, inside) ensures d.a != d.b {
      if d != Link(ns[l], ns[w]) && d !in Diagonals(inner, xs, inside) {
        assert d in Diagonals(outer, xs, inside);
      }
    }
  }

  /** The ear link of a polygon with more than three distinct vertices joins two different vertices. */
  lemma EarProper(ns: seq<int>, l: nat)
    requires Distinct(ns) && 3 < |ns| && l < |ns|
    ensures Ear(ns, l).a != Ear(ns, l).b
  {
    var m := |ns|;
    ModWrap(l + 1, m);
    ModWrap(l - 1 + m, m);
    var i, j := (l + 1) % m, (l - 1 + m) % m;
    assert i != j;
    if i < j {
      assert ns[i] != ns[j];
    } else {
      assert ns[j] != ns[i];
    }
  }

  /** Java's `%` on a sum below twice the modulus wraps at most once. */
  lemma ModWrap(i: int, n: int)
    requires 0 < n && 0 <= i < 2 * n
    ensures i % n == if i < n then i else i - n
  {
    if i >= n {
      assert i == 1 * n + (i - n);
    }
  }

  /**
   * The second copy loop of the split step: the arc from `hi` round past the
   * end of the list back to `lo`, read with Java's `%`; `ns` names the first
   * `n` entries of `src`.
   */
  method CopyOuterArc(src: array<int>, n: int, hi: int, len: int, dst: array<int>, ghost ns: seq<int>, ghost lo: int)
    requires 0 <= lo <= hi < n == |ns| <= src.Length && hi + len == n + lo + 1 && len <= dst.Length
    requires src != dst && ns == src[..n]
    modifies dst
    ensures dst[..len] == OuterArc(ns, lo, hi)
    ensures dst[len..] == old(dst[len..])
  {
    var l := 0;
    while l < len
      invariant 0 <= l <= len
      invariant forall p :: 0 <= p < l ==> dst[p] == ns[(p + hi) % n]
      invariant forall p :: l <= p < dst.Length ==> dst[p] == old(dst[p])
    {
      dst[l] := src[(l + hi) % n];
      l := l + 1;
    }
    forall p | 0 <= p < len ensures dst[p] == OuterArc(ns, lo, hi)[p] {
      ModWrap(p + hi, n);
    }
  }

  /** The first copy loop of the split step: the arc from `lo` to `hi`, without wrapping. */
  method CopyInnerArc(src: array<int>, lo: int, len: int, dst: array<int>, ghost ns: seq<int>, ghost hi: int)
    requires 0 <= lo <= hi < |ns| <= src.Length && len == hi - lo + 1 && len <= dst.Length
    requires src != dst && ns == src[..|ns|]
    modifies dst
    ensures dst[..len] == InnerArc(ns, lo, hi)
    ensures dst[len..] == old(dst[len..])
  {
    var k := 0;
    while k < len
      invariant 0 <= k <= len
      invariant forall p :: 0 <= p < k ==> dst[p] == ns[lo + p]
      invariant forall p :: k <= p < dst.Length ==> dst[p] == old(dst[p])
    {
      dst[k] := src[k + lo];
      k := k + 1;
    }
  }

  /** The ear of the first `m` entries of `a`, read off `a` directly. */
  lemma EarOfPrefix(a: seq<int>, m: nat, l: nat)
    requires l < m <= |a|
    ensures Ear(a[..m], l) == Link(a[(l + 1) % m], a[(l - 1 + m) % m])
  {
    ModWrap(l + 1, m);
    ModWrap(l - 1 + m, m);
  }

  /** The ear-clipping loop keeps its invariant over one ear step. */
  lemma EarMaintained(a0: seq<int>, m0: nat, clipped: seq<Link>, before: seq<int>, m: nat, after: seq<int>,
                      xs: seq<Int32>, inside: (seq<int>, nat) -> int)
    requires m0 <= |a0| && NodesIn(a0[..m0], |xs|) && OracleOk(inside)
    requires 3 < m <= |before| && NodesIn(before[..m], |xs|)
    requires Ask(inside, before[..m], LeftMostVertexIndex(before[..m], xs)) == -1
    requires after == ShiftedOut(before, m, LeftMostVertexIndex(before[..m], xs))
    requires Ears(a0, m0, xs, inside) == Clipping(clipped + Ears(before, m, xs, inside).links, Ears(before, m, xs, inside).rest, Ears(before, m, xs, inside).live)
    ensures NodesIn(after[..m - 1], |xs|)
    ensures var ear, r := Ear(before[..m], LeftMostVertexIndex(before[..m], xs)), Ears(after, m - 1, xs, inside);
      Ears(a0, m0, xs, inside) == Clipping(clipped + [ear] + r.links, r.rest, r.live)
  {
    var l := LeftMostVertexIndex(before[..m], xs);
    EarsUnfold(before, m, xs, inside);
    ClippedOneMore(Ears(a0, m0, xs, inside), clipped, Ears(before, m, xs, inside), Ear(before[..m], l), Ears(after, m - 1, xs, inside));
  }

  /** Links already written, then one ear, then what the rest of the loop clips. */
  lemma ClippedOneMore(whole: Clipping, clipped: seq<Link>, cur: Clipping, ear: Link, next: Clipping)
    requires whole == Clipping(clipped + cur.links, cur.rest, cur.live)
    requires cur == Clipping([ear] + next.links, next.rest, next.live)
    ensures whole == Clipping(clipped + [ear] + next.links, next.rest, next.live)
  {
    assert clipped + ([ear] + next.links) == clipped + [ear] + next.links;
  }

  /** Writing the next link just after the links already written extends the splice by it. */
  lemma SpliceNext(t0: seq<Link>, at: nat, done: seq<Link>, written: seq<Link>, x: Link, tri: seq<Link>)
    requires at + |done| < |t0| && written == Splice(t0, at, done)
    requires tri == written[at + |done| := x]
    ensures tri == Splice(t0, at, done + [x])
  {
    SpliceOne(written, at + |done|, x, tri);
    SpliceTwice(t0, at, done, at + |done|, [x]);
  }

  /**
   * The invariant of the ear-clipping loop: starting from the first `m0`
   * entries of `a0`, the ears clipped so far are `clipped`, and clipping on
   * from the first `n` entries of `cur` finishes what clipping from `a0`
   * would have done.
   */
  ghost predicate ClipState(a0: seq<int>, m0: nat, clipped: seq<Link>, cur: seq<int>, n: int,
                            xs: seq<Int32>, inside: (seq<int>, nat) -> int)
  {
    m0 <= |a0| && NodesIn(a0[..m0], |xs|) && OracleOk(inside) && 0 <= n <= |cur| && NodesIn(cur[..n], |xs|) &&
    var r := Ears(cur, n, xs, inside);
    Ears(a0, m0, xs, inside) == Clipping(clipped + r.links, r.rest, r.live)
  }

  /**
   * The whole invariant of the ear-clipping loop: `ClipState` for the vertex
   * array `cur` and its first `n` entries, the `t`-th link is the next to be
   * written, and the link table `tri` is the one the loop started from with
   * `clipped` written from position `at` on.
   */
  ghost predicate EarLoop(a0: seq<int>, m0: nat, t0: seq<Link>, at: nat, clipped: seq<Link>, cur: seq<int>, n: int, t: int,
                          tri: seq<Link>, xs: seq<Int32>, inside: (seq<int>, nat) -> int)
  {
    n <= m0 && ClipState(a0, m0, clipped, cur, n, xs, inside) &&
    t == at + |clipped| && t + DiagonalTotal(n) == at + DiagonalTotal(m0) && at + DiagonalTotal(m0) <= |t0| &&
    tri == Splice(t0, at, clipped)
  }

  /** Before any ear is clipped, clipping on from the start is all there is to do. */
  lemma ClipStart(a0: seq<int>, m0: nat, t0: seq<Link>, at: nat, xs: seq<Int32>, inside: (seq<int>, nat) -> int)
    requires m0 <= |a0| && NodesIn(a0[..m0], |xs|) && OracleOk(inside) && at + DiagonalTotal(m0) <= |t0|
    ensures EarLoop(a0, m0, t0, at, [], a0, m0, at, t0, xs, inside)
  {
    var r := Ears(a0, m0, xs, inside);
    assert [] + r.links == r.links;
    SplicedFromParts(t0, t0, at, []);
  }

  /** When the loop stops, at most three vertices or a non-empty leftmost ear, the clipping is complete. */
  lemma ClipFinished(a0: seq<int>, m0: nat, t0: seq<Link>, at: nat, clipped: seq<Link>, cur: seq<int>, n: int, t: int,
                     tri: seq<Link>, xs: seq<Int32>, inside: (seq<int>, nat) -> int)
    requires EarLoop(a0, m0, t0, at, clipped, cur, n, t, tri, xs, inside)
    requires n > 3 ==> Ask(inside, cur[..n], LeftMostVertexIndex(cur[..n], xs)) != -1
    ensures 0 <= n <= m0 && NodesIn(cur[..n], |xs|)
    ensures t == at + |clipped| && t + DiagonalTotal(n) == at + DiagonalTotal(m0)
    ensures tri == Splice(t0, at, clipped)
    ensures Ears(a0, m0, xs, inside) == Clipping(clipped, cur, n)
  {
    assert clipped + [] == clipped;
  }

  /**
   * One pass of the ear-clipping loop once the oracle has found the leftmost
   * ear empty: read the ear `(next, prev)`, shift the leftmost vertex out of
   * the first `n` entries and append the ear link at `t`.  The ghost
   * parameters carry the loop's invariant: `a0`, `m0` the array contents and
   * vertex count the loop started from, `t0` the link table it started from,
   * `at` the first link it wrote, `clipped` the links written so far and
   * `before` the current array contents.
   */
  method ClipEar(nodes: array<int>, n: int, leftmost: int, triangles: array<Link>, t: int,
                 nodeX: seq<Int32>, inside: (seq<int>, nat) -> int,
                 ghost a0: seq<int>, ghost m0: nat, ghost t0: seq<Link>, ghost at: nat, ghost clipped: seq<Link>, ghost before: seq<int>)
    returns (ghost ear: Link, ghost after: seq<int>)
    requires 3 < n <= nodes.Length && before == nodes[..] && ClipState(a0, m0, clipped, before, n, nodeX, inside)
    requires leftmost == LeftMostVertexIndex(before[..n], nodeX) && Ask(inside, before[..n], leftmost) == -1
    requires t == at + |clipped| < |t0| && triangles[..] == Splice(t0, at, clipped)
    modifies nodes, triangles
    ensures after == nodes[..] && ClipState(a0, m0, clipped + [ear], after, n - 1, nodeX, inside)
    ensures triangles[..] == Splice(t0, at, clipped + [ear])
  {
    var next := nodes[(leftmost + 1) % n];
    var prev := nodes[(leftmost - 1 + n) % n];
    ghost var written := triangles[..];
    EarOfPrefix(before, n, leftmost);
    ear := Link(next, prev);
    ShiftOut(nodes, n, leftmost);
    after := nodes[..];
    triangles[t] := Link(next, prev);
    EarMaintained(a0, m0, clipped, before, n, after, nodeX, inside);
    SpliceNext(t0, at, clipped, written, ear, triangles[..]);
  }

  /**
   * One round of the ear-clipping loop: find the leftmost vertex and ask the
   * oracle about its ear; when the ear is empty, clip it.  The arrays are
   * left as they were when the oracle found a vertex inside the ear.
   */
  method ClipNext(nodes: array<int>, n: int, triangles: array<Link>, t: int,
                  nodeX: seq<Int32>, inside: (seq<int>, nat) -> int,
                  ghost a0: seq<int>, ghost m0: nat, ghost t0: seq<Link>, ghost at: nat, ghost clipped: seq<Link>, ghost before: seq<int>)
    returns (leftmost: int, insideAt: int, ghost ear: Link, ghost after: seq<int>)
    requires 3 < n <= nodes.Length && before == nodes[..]
    requires EarLoop(a0, m0, t0, at, clipped, before, n, t, triangles[..], nodeX, inside)
    modifies nodes, triangles
    ensures leftmost == LeftMostVertexIndex(before[..n], nodeX) && insideAt == Ask(inside, before[..n], leftmost)
    ensures insideAt != -1 ==> nodes[..] == before && triangles[..] == old(triangles[..])
    ensures insideAt == -1 ==>
      after == nodes[..] && EarLoop(a0, m0, t0, at, clipped + [ear], after, n - 1, t + 1, triangles[..], nodeX, inside)
  {
    leftmost := LeftMostVertexIndex(nodes[..n], nodeX);
    insideAt := Ask(inside, nodes[..n], leftmost);
    after := before;
    ear := Link(0, 0);
    if insideAt == -1 {
      ear, after := ClipEar(nodes, n, leftmost, triangles, t, nodeX, inside, a0, m0, t0, at, clipped, before);
    }
  }

  /**
   * The ear-clipping loop of `triangulate`: while more than three vertices
   * remain and the leftmost ear is empty, append the ear link and shift the
   * leftmost vertex out.  Returns the remaining vertex count, the new link
   * count, and the leftmost position with the oracle's answer for it.
   */
  method ClipEars(nodes: array<int>, numberOfNodes: int, triangles: array<Link>, numberOfTriangles: int,
                  nodeX: seq<Int32>, inside: (seq<int>, nat) -> int)
    returns (n: int, t: int, leftmost: int, insideAt: int, ghost clipped: seq<Link>)
    requires 0 <= numberOfNodes <= nodes.Length && NodesIn(nodes[..numberOfNodes], |nodeX|)
    requires OracleOk(inside)
    requires 0 <= numberOfTriangles && numberOfTriangles + DiagonalTotal(numberOfNodes) <= triangles.Length
    modifies nodes, triangles
    ensures 0 <= n <= numberOfNodes && NodesIn(nodes[..n], |nodeX|)
    ensures t == numberOfTriangles + |clipped| && t + DiagonalTotal(n) == numberOfTriangles + DiagonalTotal(numberOfNodes)
    ensures triangles[..] == Splice(old(triangles[..]), numberOfTriangles, clipped)
    ensures Ears(old(nodes[..]), numberOfNodes, nodeX, inside) == Clipping(clipped, nodes[..], n)
    ensures n > 3 ==> leftmost == LeftMostVertexIndex(nodes[..n], nodeX) && insideAt == Ask(inside, nodes[..n], leftmost) && insideAt != -1
  {
    ghost var a0, t0 := nodes[..], triangles[..];
    n, t := numberOfNodes, numberOfTriangles;
    leftmost, insideAt := 0, -1;
    clipped := [];
    ghost var cur := a0;
    ClipStart(a0, numberOfNodes, t0, numberOfTriangles, nodeX, inside);
    while n > 3
      invariant cur == nodes[..] && EarLoop(a0, numberOfNodes, t0, numberOfTriangles, clipped, cur, n, t, triangles[..], nodeX, inside)
    {
      ghost var ear, after;
      leftmost, insideAt, ear, after := ClipNext(nodes, n, triangles, t, nodeX, inside, a0, numberOfNodes, t0, numberOfTriangles, clipped, cur);
      if insideAt != -1 {
        break;
      }
      cur := after;
      clipped := clipped + [ear];
      n := n - 1;
      t := t + 1;
    }
    ClipFinished(a0, numberOfNodes, t0, numberOfTriangles, clipped, cur, n, t, triangles[..], nodeX, inside);
  }

  /**
   * `triangulate`: appends the triangulation links of the polygon
   * `nodes[0..numberOfNodes)` to `triangles` from index `numberOfTriangles`
   * on and returns the new link count.  The ear loop shifts entries of
   * `nodes` in place, which the caller sees.
   */
  method Triangulate(nodes: array<int>, numberOfNodes: int, triangles: array<Link>, numberOfTriangles: int,
                     nodeX: seq<Int32>, inside: (seq<int>, nat) -> int) returns (count: int)
    requires 0 <= numberOfNodes <= nodes.Length && NodesIn(nodes[..numberOfNodes], |nodeX|)
    requires OracleOk(inside)
    requires 0 <= numberOfTriangles && numberOfTriangles + DiagonalTotal(numberOfNodes) <= triangles.Length
    modifies nodes, triangles
    ensures count == numberOfTriangles + DiagonalTotal(numberOfNodes)
    ensures triangles[..] == Splice(old(triangles[..]), numberOfTriangles, Diagonals(old(nodes[..numberOfNodes]), nodeX, inside))
    ensures nodes[..] == Ears(old(nodes[..]), numberOfNodes, nodeX, inside).rest
    decreases numberOfNodes, 2
  {
    ghost var a0, t0 := nodes[..], triangles[..];
    var n, t, leftmost, insideAt, clipped := ClipEars(nodes, numberOfNodes, triangles, numberOfTriangles, nodeX, inside);
    EarsThenSplit(a0, numberOfNodes, nodeX, inside, clipped, nodes[..], n);
    if n <= 3 {
      return t;
    }
    count := SplitAndRecurse(nodes, n, triangles, t, nodeX, inside, leftmost, insideAt);
    SpliceTwice(t0, numberOfTriangles, clipped, t, Split(nodes[..n], nodeX, inside));
  }

  /**
   * The tail of `triangulate` once the leftmost ear holds the vertex at
   * `insideAt`: append the diagonal, then triangulate the two arcs it cuts off,
   * each copied into one fresh array.  The `nodes` array is only read.
   */
  method SplitAndRecurse(nodes: array<int>, n: int, triangles: array<Link>, t0: int,
                         nodeX: seq<Int32>, inside: (seq<int>, nat) -> int, leftmost: int, insideAt: int) returns (count: int)
    requires 3 < n <= nodes.Length && NodesIn(nodes[..n], |nodeX|) && OracleOk(inside)
    requires leftmost == LeftMostVertexIndex(nodes[..n], nodeX) && insideAt == Ask(inside, nodes[..n], leftmost) && insideAt != -1
    requires 0 <= t0 && t0 + DiagonalTotal(n) <= triangles.Length
    modifies triangles
    ensures count == t0 + DiagonalTotal(n)
    ensures triangles[..] == Splice(old(triangles[..]), t0, Split(nodes[..n], nodeX, inside))
    decreases n, 1
  {
    ghost var ns, before := nodes[..n], triangles[..];
    var absoluteValue := Abs(leftmost - insideAt);
    var newNumberOfNodes := n - absoluteValue;
    var lo := if leftmost > insideAt then insideAt else leftmost;
    var hi := if leftmost > insideAt then leftmost else insideAt;
    SplitArcs(ns, nodeX, inside, leftmost, insideAt, lo, hi);
    triangles[t0] := Link(nodes[leftmost], nodes[insideAt]);
    SpliceOne(before, t0, Link(ns[leftmost], ns[insideAt]), triangles[..]);
    var newNodes := new int[if absoluteValue > newNumberOfNodes then absoluteValue + 1 else newNumberOfNodes + 1];
    var t := TriangulateInnerArc(nodes, n, lo, hi, newNodes, triangles, t0 + 1, nodeX, inside, ns, before, t0, [Link(ns[leftmost], ns[insideAt])]);
    count := TriangulateOuterArc(nodes, n, lo, hi, newNodes, triangles, t, nodeX, inside, ns, before, t0,
                                 [Link(ns[leftmost], ns[insideAt])] + Diagonals(InnerArc(ns, lo, hi), nodeX, inside));
    SplitParts(ns, nodeX, inside, leftmost, insideAt, lo, hi);
  }

  /**
   * Copy the arc `lo .. hi` of `ns` (the first `n` entries of `nodes`) into
   * `newNodes` and triangulate it, appending after the links `done` already
   * written from `at` on.
   */
  method TriangulateInnerArc(nodes: array<int>, n: int, lo: int, hi: int, newNodes: array<int>, triangles: array<Link>, t: int,
                             nodeX: seq<Int32>, inside: (seq<int>, nat) -> int,
                             ghost ns: seq<int>, ghost before: seq<Link>, ghost at: nat, ghost done: seq<Link>) returns (count: int)
    requires 0 <= lo && lo + 2 <= hi < n <= nodes.Length && hi - lo + 1 < n && hi - lo + 1 <= newNodes.Length && nodes != newNodes
    requires ns == nodes[..n] && NodesIn(InnerArc(ns, lo, hi), |nodeX|) && OracleOk(inside)
    requires t == at + |done| && t + DiagonalTotal(hi - lo + 1) <= |before| && triangles[..] == Splice(before, at, done)
    modifies newNodes, triangles
    ensures count == t + DiagonalTotal(hi - lo + 1)
    ensures triangles[..] == Splice(before, at, done + Diagonals(InnerArc(ns, lo, hi), nodeX, inside))
    decreases n, 0
  {
    CopyInnerArc(nodes, lo, hi - lo + 1, newNodes, ns, hi);
    count := Triangulate(newNodes, hi - lo + 1, triangles, t, nodeX, inside);
    SpliceTwice(before, at, done, t, Diagonals(InnerArc(ns, lo, hi), nodeX, inside));
  }

  /** Copy the arc from `hi` round to `lo` into `newNodes` and triangulate it, as above. */
  method TriangulateOuterArc(nodes: array<int>, n: int, lo: int, hi: int, newNodes: array<int>, triangles: array<Link>, t: int,
                             nodeX: seq<Int32>, inside: (seq<int>, nat) -> int,
                             ghost ns: seq<int>, ghost before: seq<Link>, ghost at: nat, ghost done: seq<Link>) returns (count: int)
    requires 0 <= lo && lo + 2 <= hi < n <= nodes.Length && n - (hi - lo) + 1 <= newNodes.Length && nodes != newNodes
    requires ns == nodes[..n] && NodesIn(OuterArc(ns, lo, hi), |nodeX|) && OracleOk(inside)
    requires t == at + |done| && t + DiagonalTotal(n - (hi - lo) + 1) <= |before| && triangles[..] == Splice(before, at, done)
    modifies newNodes, triangles
    ensures count == t + DiagonalTotal(n - (hi - lo) + 1)
    ensures triangles[..] == Splice(before, at, done + Diagonals(OuterArc(ns, lo, hi), nodeX, inside))
    decreases n, 0
  {
    CopyOuterArc(nodes, n, hi, n - (hi - lo) + 1, newNodes, ns, lo);
    count := Triangulate(newNodes, n - (hi - lo) + 1, triangles, t, nodeX, inside);
    SpliceTwice(before, at, done, t, Diagonals(OuterArc(ns, lo, hi), nodeX, inside));
  }

  /**
   * The split step: when the oracle names a vertex `w` inside the leftmost ear,
   * the arcs between the leftmost position and `w` both hold fewer vertices
   * than the polygon and share the diagonal's two ends.
   */
  lemma SplitArcs(ns: seq<int>, xs: seq<Int32>, inside: (seq<int>, nat) -> int, l: nat, w: int, lo: nat, hi: nat)
    requires 3 < |ns| && NodesIn(ns, |xs|) && OracleOk(inside)
    requires l == LeftMostVertexIndex(ns, xs) && w == Ask(inside, ns, l) && w != -1
    requires lo == (if l > w then w else l) && hi == (if l > w then l else w)
    ensures 0 <= w < |ns| && lo + 2 <= hi < |ns| && hi - lo == Abs(l - w) && hi - lo <= |ns| - 2
    ensures NodesIn(InnerArc(ns, lo, hi), |xs|) && NodesIn(OuterArc(ns, lo, hi), |xs|)
    ensures |InnerArc(ns, lo, hi)| == hi - lo + 1 && |OuterArc(ns, lo, hi)| == |ns| - (hi - lo) + 1
    ensures DiagonalTotal(|ns|) == 1 + DiagonalTotal(hi - lo + 1) + DiagonalTotal(|ns| - (hi - lo) + 1)
  {
    assert InsideAnswer(w, l, |ns|);
    SubListsNodesIn(ns, |xs|, l, lo, hi);
  }

  /** In the split step the diagonal comes first, then the links of the two arcs. */
  lemma SplitParts(ns: seq<int>, xs: seq<Int32>, inside: (seq<int>, nat) -> int, l: nat, w: int, lo: nat, hi: nat)
    requires 3 < |ns| && NodesIn(ns, |xs|) && OracleOk(inside)
    requires l == LeftMostVertexIndex(ns, xs) && w == Ask(inside, ns, l) && w != -1
    requires lo == (if l > w then w else l) && hi == (if l > w then l else w)
    ensures 0 <= w < |ns| && lo <= hi < |ns|
    ensures NodesIn(InnerArc(ns, lo, hi), |xs|) && NodesIn(OuterArc(ns, lo, hi), |xs|)
    ensures Split(ns, xs, inside) == [Link(ns[l], ns[w])] + Diagonals(InnerArc(ns, lo, hi), xs, inside) + Diagonals(OuterArc(ns, lo, hi), xs, inside)
  {
    SplitArcs(ns, xs, inside, l, w, lo, hi);
  }
}
