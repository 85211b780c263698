/**
 * The integer bookkeeping at the start of `preFindAllPoly`: the neighbour lists
 * built from an edge table, and the test that skips a face walk which is just
 * the outer boundary ring read cyclically, forwards or backwards.
 */
module Faces {
  import opened Geometry
  import opened LinkLists

  /** The neighbours one link contributes to node `i`, in the order the scan records them. */
  function Contribution(l: Link, i: int): seq<int>
  {
    (if l.a == i then [l.b] else []) + (if l.b == i then [l.a] else [])
  }

  /** Row `i` of the neighbour matrix: the other endpoints of the links at `i`, in link order. */
  function Neighbours(ls: seq<Link>, i: int): seq<int>
  {
    if ls == [] then [] else Neighbours(ls[..|ls| - 1], i) + Contribution(ls[|ls| - 1], i)
  }

  /** A node is listed as a neighbour of `u` exactly when it is adjacent to `u`. */
  lemma {:induction false} NeighboursAreAdjacent(ls: seq<Link>, u: int, v: int)
    ensures v in Neighbours(ls, u) <==> Adjacent(ls, u, v)
    decreases |ls|
  {
    if ls != [] {
      var init, last := ls[..|ls| - 1], ls[|ls| - 1];
      assert ls == init + [last];
      NeighboursAreAdjacent(init, u, v);
      assert v in Contribution(last, u) <==> last == Link(u, v) || last == Link(v, u);
    }
  }

  /** The neighbour relation is symmetric. */
  lemma NeighboursSymmetric(ls: seq<Link>, u: int, v: int)
    ensures v in Neighbours(ls, u) <==> u in Neighbours(ls, v)
  {
    NeighboursAreAdjacent(ls, u, v);
    NeighboursAreAdjacent(ls, v, u);
  }

  /**
   * Lines 1105-1117 of `preFindAllPoly`: for every node `i < n` scan the links
   * and record the far endpoint of each link at `i`.  Row `i` of the result is
   * the row of the neighbour matrix and its length is the degree counter.
   */
  method NeighbourLists(ls: seq<Link>, n: int) returns (nbrs: seq<seq<int>>)
    ensures |nbrs| == if n < 0 then 0 else n
    ensures forall i :: 0 <= i < |nbrs| ==> nbrs[i] == Neighbours(ls, i)
  {
    nbrs := [];
    var i := 0;
    while i < n
      invariant 0 <= i && (n >= 0 ==> i <= n) && (n < 0 ==> i == 0) && |nbrs| == i
      invariant forall p :: 0 <= p < i ==> nbrs[p] == Neighbours(ls, p)
    {
      var row: seq<int> := [];
      var j := 0;
      while j < |ls|
        invariant 0 <= j <= |ls|
        invariant row == Neighbours(ls[..j], i)
      {
        assert ls[..j + 1][..j] == ls[..j];
        if ls[j].a == i {
          row := row + [ls[j].b];
        }
        if ls[j].b == i {
          row := row + [ls[j].a];
        }
        j := j + 1;
      }
      assert ls[..|ls|] == ls;
      nbrs := nbrs + [row];
      i := i + 1;
    }
  }

  /** The first position of `x` in `face`, or `|face|` when it does not occur. */
  function FirstIndexOf(face: seq<int>, x: int): (p: nat)
    ensures p <= |face|
    ensures p < |face| ==> face[p] == x
    ensures forall q :: 0 <= q < p ==> face[q] != x
  {
    if face == [] then 0
    else if face[0] == x then 0
    else
      var p := 1 + FirstIndexOf(face[1..], x);
      assert forall q :: 1 <= q < |face| ==> face[q] == face[1..][q - 1];
      p
  }

  /** Reading `face` forwards from position `p` (wrapping around) gives `border`. */
  predicate ForwardFrom(face: seq<int>, border: seq<int>, p: int)
    requires |face| <= |border| && 0 <= p
  {
    forall k :: 0 <= k < |face| ==> face[(p + k) % |face|] == border[k]
  }

  /** Reading `face` backwards from position `p` (wrapping around) gives `border`. */
  predicate BackwardFrom(face: seq<int>, border: seq<int>, p: int)
    requires |face| <= |border| && 0 <= p <= |face|
  {
    forall k :: 0 <= k < |face| ==> face[(p - k + |face|) % |face|] == border[k]
  }

  /**
   * The face is skipped when it has as many nodes as the boundary ring and,
   * starting where it first meets `borderNodes[0]`, it spells the ring forwards
   * or backwards.
   */
  predicate SkippedAsBoundary(face: seq<int>, border: seq<int>, bc: int)
    requires 0 <= bc <= |border|
  {
    bc == |face| &&
    var p := if |border| == 0 then |face| else FirstIndexOf(face, border[0]);
    ForwardFrom(face, border, p) || BackwardFrom(face, border, p)
  }

  /**
   * Lines 1175-1192 of `preFindAllPoly`: decide whether the face walk
   * `face` (the first `nc` entries of the walk array) is the outer boundary ring.
   */
  method IsBoundaryFace(face: seq<int>, border: seq<int>, bc: int) returns (skip: bool)
    requires 0 <= bc <= |border|
    ensures skip <==> SkippedAsBoundary(face, border, bc)
  {
    var nc := |face|;
    skip := false;
    if bc == nc {
      var p := 0;
      if nc > 0 {
        p := FirstOccurrence(face, border[0]);
      }
      var forward := ReadsForward(face, border, p);
      if forward {
        skip := true;
      }
      var backward := ReadsBackward(face, border, p);
      if backward {
        skip := true;
      }
    }
  }

  /** The first scan: the position where `face` first meets `x`. */
  method FirstOccurrence(face: seq<int>, x: int) returns (p: nat)
    ensures p == FirstIndexOf(face, x)
  {
    p := 0;
    while p < |face| && face[p] != x
      invariant p <= |face|
      invariant forall q :: 0 <= q < p ==> face[q] != x
    {
      p := p + 1;
    }
  }

  /** The forward comparison: count how far `face`, read forwards from `p`, agrees with `border`. */
  method ReadsForward(face: seq<int>, border: seq<int>, p: nat) returns (ok: bool)
    requires |face| <= |border|
    ensures ok <==> ForwardFrom(face, border, p)
  {
    var nc := |face|;
    var f := 0;
    while f < nc && face[(p + f) % nc] == border[f]
      invariant 0 <= f <= nc
      invariant forall k :: 0 <= k < f ==> face[(p + k) % nc] == border[k]
    {
      f := f + 1;
    }
    ok := f == nc;
  }

  /** The backward comparison: count how far `face`, read backwards from `p`, agrees with `border`. */
  method ReadsBackward(face: seq<int>, border: seq<int>, p: nat) returns (ok: bool)
    requires |face| <= |border| && p <= |face|
    ensures ok <==> BackwardFrom(face, border, p)
  {
    var nc := |face|;
    var b := 0;
    while b < nc && face[(p - b + nc) % nc] == border[b]
      invariant 0 <= b <= nc
      invariant forall k :: 0 <= k < b ==> face[(p - k + nc) % nc] == border[k]
    {
      b := b + 1;
    }
    ok := b == nc;
  }

  /** `face` is `border` read cyclically from some starting position, in one direction or the other. */
  predicate IsRotationOf(face: seq<int>, border: seq<int>)
    requires |face| <= |border|
  {
    exists r :: 0 <= r < |face| && (ForwardFrom(face, border, r) || BackwardFrom(face, border, r))
  }

  /** Java's `%` on the non-negative sums used here is a single wrap-around. */
  lemma ModIsWrap(i: int, n: int)
    requires 0 < n && 0 <= i <= 2 * n
    ensures i % n == if i < n then i else if i < 2 * n then i - n else 0
  {
    if n <= i < 2 * n {
      assert i == 1 * n + (i - n);
    } else if i == 2 * n {
      assert i == 2 * n + 0;
    }
  }

  /** A match in either direction starting at `r` puts `borderNodes[0]` at position `r` (or 0 when `r` is `|face|`). */
  lemma StartsWithBorder(face: seq<int>, border: seq<int>, r: int)
    requires 0 < |face| <= |border| && 0 <= r <= |face|
    requires ForwardFrom(face, border, r) || BackwardFrom(face, border, r)
    ensures face[if r == |face| then 0 else r] == border[0]
  {
    var n := |face|;
    if ForwardFrom(face, border, r) {
      assert face[(r + 0) % n] == border[0];
      ModIsWrap(r, n);
    } else {
      assert face[(r - 0 + n) % n] == border[0];
      ModIsWrap(r + n, n);
    }
  }

  /** A face without repeated nodes is skipped exactly when it is a rotation or reflection of the ring. */
  lemma SkippedIffRotation(face: seq<int>, border: seq<int>, bc: int)
    requires 0 <= bc <= |border| && bc == |face| > 0
    requires forall i, j :: 0 <= i < j < |face| ==> face[i] != face[j]
    ensures SkippedAsBoundary(face, border, bc) <==> IsRotationOf(face, border)
  {
    var n := |face|;
    var p := FirstIndexOf(face, border[0]);
    if SkippedAsBoundary(face, border, bc) {
      StartsWithBorder(face, border, p);
      if p == n {
        assert false;
      }
      assert ForwardFrom(face, border, p) || BackwardFrom(face, border, p);
    }
    if IsRotationOf(face, border) {
      var r :| 0 <= r < n && (ForwardFrom(face, border, r) || BackwardFrom(face, border, r));
      StartsWithBorder(face, border, r);
      assert face[r] == border[0];
      assert p <= r;
      if p < r {
        assert false;
      }
    }
  }
}
