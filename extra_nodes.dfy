/**
 * The "extra node" table of the triangulation builder.  When a face walk meets
 * a cut vertex twice, the builder appends a copy of that vertex (same position
 * in both drawings) and records `(copy, original)`.  `correctEdges` later folds
 * every copy back onto its original, renumbers the nodes appended after the
 * copies, and closes the gap in the coordinate tables.
 */
module ExtraNodes {
  import opened Geometry

  /** One row `extraNodes[i]`: the index of the copy and of the vertex it duplicates. */
  datatype Duplicate = Duplicate(copy: int, original: int)

  /**
   * `isInExtra`: the original recorded for the first row whose copy is `n`,
   * or -1 when no row records `n`.
   */
  function IsInExtra(extras: seq<Duplicate>, n: int): (r: int)
    ensures (forall i :: 0 <= i < |extras| ==> extras[i].copy != n) ==> r == -1
    ensures forall i :: 0 <= i < |extras| && extras[i].copy == n && (forall j :: 0 <= j < i ==> extras[j].copy != n)
                        ==> r == extras[i].original
  {
    if extras == [] then -1
    else if extras[0].copy == n then extras[0].original
    else
      var r := IsInExtra(extras[1..], n);
      assert forall i :: 1 <= i < |extras| ==> extras[i] == extras[1..][i - 1];
      r
  }

  /**
   * The rewriting of one endpoint by `correctEdges`, where `extras` is
   * `extraNodes[0..extraNodeCount)`: endpoints below `correctNc` are kept, a
   * recorded copy becomes its original, any other endpoint drops by
   * `extraNodeCount`.
   */
  function Remap(e: int, correctNc: int, extras: seq<Duplicate>): int
  {
    if e > correctNc - 1 then
      var o := IsInExtra(extras, e);
      if o == -1 then e - |extras| else o
    else e
  }

  /** `Remap` applied to both endpoints of a link. */
  function RemapLink(l: Link, correctNc: int, extras: seq<Duplicate>): Link
  {
    Link(Remap(l.a, correctNc, extras), Remap(l.b, correctNc, extras))
  }

  /**
   * A coordinate table after the compaction loop of `correctEdges`: entries
   * `correctNc .. n-k-1` take the value `k` places further on; the rest keep theirs.
   */
  function Compacted(xs: seq<int>, correctNc: int, k: int, n: int): (r: seq<int>)
    requires 0 <= k && n <= |xs|
    ensures |r| == |xs|
    ensures forall j :: 0 <= j < |xs| && !(correctNc <= j < n - k) ==> r[j] == xs[j]
    ensures forall j :: 0 <= j < |xs| && correctNc <= j < n - k ==> r[j] == xs[j + k]
  {
    seq(|xs|, j requires 0 <= j < |xs| => if correctNc <= j < n - k then xs[j + k] else xs[j])
  }

  /**
   * The shape the face walk leaves the table in: the `k` copies occupy the
   * indices `correctNc .. correctNc+k-1` in order, each duplicates a vertex
   * below `correctNc`, and sits at the same coordinate as that vertex.
   */
  predicate CopiesInPlace(xs: seq<int>, correctNc: int, extras: seq<Duplicate>, n: int)
  {
    0 <= correctNc && correctNc + |extras| <= n <= |xs| &&
    forall i :: 0 <= i < |extras| ==>
      extras[i].copy == correctNc + i && 0 <= extras[i].original < correctNc &&
      xs[correctNc + i] == xs[extras[i].original]
  }

  /**
   * Endpoint fidelity of `correctEdges`: every node `p` below the old count is
   * renumbered into the new, shorter table, at an index that holds the
   * coordinate `p` had before.  So no edge moves on screen.
   */
  lemma {:induction false} RemapKeepsCoordinate(xs: seq<int>, correctNc: int, extras: seq<Duplicate>, n: int, p: int)
    requires CopiesInPlace(xs, correctNc, extras, n)
    requires 0 <= p < n
    ensures 0 <= Remap(p, correctNc, extras) < n - |extras|
    ensures Compacted(xs, correctNc, |extras|, n)[Remap(p, correctNc, extras)] == xs[p]
  {
    var k := |extras|;
    if p < correctNc {
    } else if p < correctNc + k {
      var i := p - correctNc;
      assert extras[i].copy == p;
      assert forall j :: 0 <= j < i ==> extras[j].copy != p;
      assert IsInExtra(extras, p) == extras[i].original;
    } else {
      assert forall i :: 0 <= i < k ==> extras[i].copy != p;
    }
  }

  /**
   * The renumbering is one-to-one on the nodes that are not copies, so
   * `correctEdges` never merges two distinct original nodes.
   */
  lemma {:induction false} RemapInjectiveOnOriginals(xs: seq<int>, correctNc: int, extras: seq<Duplicate>, n: int, p: int, q: int)
    requires CopiesInPlace(xs, correctNc, extras, n)
    requires 0 <= p < n && 0 <= q < n && p != q
    requires !(correctNc <= p < correctNc + |extras|) && !(correctNc <= q < correctNc + |extras|)
    ensures Remap(p, correctNc, extras) != Remap(q, correctNc, extras)
  {
    var k := |extras|;
    assert forall i :: 0 <= i < k ==> extras[i].copy != p && extras[i].copy != q;
  }
}
