/**
 * The two drawings' node and edge tables and the in-place maintenance the
 * applet performs on them: `removeRepeated`, `correctEdges` and the frame
 * part of `addBoundary`.
 */
module Graphs {
  import opened Geometry
  import opened Buffers
  import opened LinkLists
  import opened ExtraNodes

  /** Deleting a link that `e` matches does not change what `Filter(e, _)` keeps. */
  lemma FilterSkips(e: Link, s: seq<Link>, j: nat)
    requires j < |s| && Matches(e, s[j])
    ensures Filter(e, s[j..]) == Filter(e, s[j + 1..])
  {
    assert s[j..][1..] == s[j + 1..];
  }

  /** A link that `e` does not match is kept by `Filter(e, _)`. */
  lemma FilterKeeps(e: Link, s: seq<Link>, j: nat)
    requires j < |s| && !Matches(e, s[j])
    ensures Filter(e, s[j..]) == [s[j]] + Filter(e, s[j + 1..])
  {
    assert s[j..][1..] == s[j + 1..];
  }

  /**
   * The state of the inner loop of `removeRepeated` for the link at `i`:
   * the links already scanned, `live[i+1..j]`, are what `Filter` keeps of the
   * links the pass started with, `rest`, once it has also filtered the
   * links still to scan.
   */
  predicate PassState(live: seq<Link>, i: nat, j: nat, rest: seq<Link>)
    requires i < j <= |live|
  {
    Filter(live[i], rest) == live[i + 1..j] + Filter(live[i], live[j..])
  }

  /** A matched link at `j` is deleted by shifting: the pass state carries over with `j` unchanged. */
  lemma PassDeletes(live: seq<Link>, i: nat, j: nat, rest: seq<Link>, after: seq<Link>)
    requires i < j < |live| && PassState(live, i, j, rest) && Matches(live[i], live[j])
    requires after == RemoveAt(live, j)
    ensures |after| == |live| - 1 && after[..j] == live[..j] && PassState(after, i, j, rest)
  {
    FilterSkips(live[i], live, j);
    assert after[j..] == live[j + 1..];
    assert after[i + 1..j] == live[i + 1..j];
  }

  /** The shift that deletes a matched link at `j` keeps the pass state, the links up to `i` and the slots from `count` on. */
  lemma ShiftDeletes(before: seq<Link>, after: seq<Link>, i: nat, j: nat, c: nat, count: nat, rest: seq<Link>)
    requires i < j < c <= count <= |before| && after == ShiftedOut(before, c, j)
    requires PassState(before[..c], i, j, rest) && Matches(before[i], before[j])
    ensures after[..i + 1] == before[..i + 1] && after[count..] == before[count..]
    ensures PassState(after[..c - 1], i, j, rest)
  {
    ShiftedOutFrame(before, c, j, count);
    PrefixOfPrefix(after, before, j, i + 1);
    PassDeletes(before[..c], i, j, rest, after[..c - 1]);
  }

  /** An unmatched link at `j` is kept: the scanned part grows by it. */
  lemma PassKeeps(live: seq<Link>, i: nat, j: nat, rest: seq<Link>)
    requires i < j < |live| && PassState(live, i, j, rest) && !Matches(live[i], live[j])
    ensures PassState(live, i, j + 1, rest)
  {
    FilterKeeps(live[i], live, j);
    SliceExtend(live, i + 1, j);
    Regroup(Filter(live[i], rest), live[i + 1..j], Filter(live[i], live[j..]), live[j],
            Filter(live[i], live[j + 1..]), live[i + 1..j + 1]);
  }

  /** When a pass ends, the link at `i` is final and what follows it is `Dedup`'s input one level down. */
  lemma PassDone(s0: seq<Link>, start: seq<Link>, live: seq<Link>, i: nat)
    requires i < |start| && i < |live| && start[..i + 1] == live[..i + 1]
    requires Dedup(s0) == start[..i] + Dedup(start[i..])
    requires PassState(live, i, |live|, start[i + 1..])
    ensures Dedup(s0) == live[..i + 1] + Dedup(live[i + 1..])
  {
    SamePrefix(start, live, i);
    PassComplete(live, i, start[i + 1..]);
    DedupStep(start, i);
    Regroup(Dedup(s0), start[..i], Dedup(start[i..]), start[i], Dedup(live[i + 1..]), live[..i + 1]);
  }

  /** Two sequences that agree up to `i` agree at `i`, and that prefix is the shorter one plus that element. */
  lemma SamePrefix<T>(s: seq<T>, t: seq<T>, i: nat)
    requires i < |s| && i < |t| && s[..i + 1] == t[..i + 1]
    ensures t[i] == s[i] && t[..i + 1] == s[..i] + [s[i]]
  {
    assert t[..i + 1][i] == s[..i + 1][i];
    assert s[..i + 1] == s[..i] + [s[i]];
  }

  /** Agreeing on the first `j` entries means agreeing on the first `k <= j`. */
  lemma PrefixOfPrefix<T>(s: seq<T>, t: seq<T>, j: nat, k: nat)
    requires k <= j <= |s| && j <= |t| && s[..j] == t[..j]
    ensures s[..k] == t[..k]
  {
    assert s[..k] == s[..j][..k];
    assert t[..k] == t[..j][..k];
  }

  /** A slice grows by the element at its end. */
  lemma SliceExtend<T>(s: seq<T>, lo: nat, hi: nat)
    requires lo <= hi < |s|
    ensures s[lo..hi + 1] == s[lo..hi] + [s[hi]]
  {
  }

  /** Moving one element across a concatenation. */
  lemma Regroup<T>(x: seq<T>, a: seq<T>, b: seq<T>, e: T, d: seq<T>, l: seq<T>)
    requires x == a + b && b == [e] + d && l == a + [e]
    ensures x == l + d
  {
    assert a + ([e] + d) == (a + [e]) + d;
  }

  /** A finished pass has filtered everything it started with. */
  lemma PassComplete(live: seq<Link>, i: nat, rest: seq<Link>)
    requires i < |live| && PassState(live, i, |live|, rest)
    ensures Filter(live[i], rest) == live[i + 1..]
  {
    assert Filter(live[i], live[|live|..]) == [];
    assert live[i + 1..|live|] == live[i + 1..];
  }

  /** One level of `Dedup` on the suffix from `i`. */
  lemma DedupStep(s: seq<Link>, i: nat)
    requires i < |s|
    ensures Dedup(s[i..]) == [s[i]] + Dedup(Filter(s[i], s[i + 1..]))
  {
    assert s[i..][0] == s[i] && s[i..][1..] == s[i + 1..];
  }

  /**
   * `removeRepeated` on one edge table with `count` live links: for each
   * link in turn, delete every later link it matches by shifting the rest of
   * the table down.  The live links left are `Dedup` of the old ones; the
   * slots past the old count are untouched.
   */
  method RemoveRepeatedIn(links: array<Link>, count: int) returns (c: int)
    requires 0 <= count <= links.Length
    modifies links
    ensures 0 <= c <= count
    ensures links[..c] == Dedup(old(links[..count]))
    ensures links[count..] == old(links[count..])
  {
    ghost var s0 := links[..count];
    ghost var tail := links[count..];
    c := count;
    var i := 0;
    ghost var cur := s0;
    while i < c
      invariant 0 <= i <= c <= count
      invariant cur == links[..c]
      invariant Dedup(s0) == cur[..i] + Dedup(cur[i..])
      invariant links[count..] == tail
      decreases c - i
    {
      c := RemoveMatchesOf(links, i, c, count, cur);
      PassDone(s0, cur, links[..c], i);
      cur := links[..c];
      i := i + 1;
    }
    assert cur[i..] == [];
  }

  /**
   * What the inner loop of `removeRepeated` keeps true of the table `cur`
   * while the link at `i` is compared with the link at `j` of `c` live ones:
   * the links up to `i` are those of `start`, the pass state holds, and the
   * slots from `count` on are those of `s0`.
   */
  ghost predicate Scanning(cur: seq<Link>, s0: seq<Link>, start: seq<Link>, i: nat, j: nat, c: nat, count: nat, rest: seq<Link>)
  {
    i < j <= c <= count <= |cur| == |s0| && i < |start| &&
    cur[..i + 1] == start[..i + 1] && PassState(cur[..c], i, j, rest) && cur[count..] == s0[count..]
  }

  /** Before any comparison, the pass state holds for the first `c` links of the table. */
  lemma ScanStarts(s0: seq<Link>, start: seq<Link>, i: nat, c: nat, count: nat)
    requires i < c <= count <= |s0| && start == s0[..c]
    ensures Scanning(s0, s0, start, i, i + 1, c, count, start[i + 1..])
  {
    assert start[i + 1..] == s0[..c][i + 1..];
  }

  /** When the comparisons end, the pass state is what `RemoveMatchesOf` promises. */
  lemma ScanEnds(cur: seq<Link>, s0: seq<Link>, start: seq<Link>, i: nat, c: nat, count: nat, rest: seq<Link>)
    requires Scanning(cur, s0, start, i, c, c, count, rest)
    ensures cur[..c][..i + 1] == start[..i + 1] && PassState(cur[..c], i, c, rest) && cur[count..] == s0[count..]
  {
    assert cur[..c][..i + 1] == cur[..i + 1];
  }

  /** Deleting the matched link at `j` by shifting keeps the loop state, with one live link fewer. */
  lemma ScanDeletes(cur: seq<Link>, after: seq<Link>, s0: seq<Link>, start: seq<Link>, i: nat, j: nat, c: nat, count: nat, rest: seq<Link>)
    requires Scanning(cur, s0, start, i, j, c, count, rest) && j < c && Matches(cur[i], cur[j])
    requires after == ShiftedOut(cur, c, j)
    ensures Scanning(after, s0, start, i, j, c - 1, count, rest)
  {
    ShiftDeletes(cur, after, i, j, c, count, rest);
  }

  /** Passing over the unmatched link at `j` keeps the loop state, with `j` one further. */
  lemma ScanKeeps(cur: seq<Link>, s0: seq<Link>, start: seq<Link>, i: nat, j: nat, c: nat, count: nat, rest: seq<Link>)
    requires Scanning(cur, s0, start, i, j, c, count, rest) && j < c && !Matches(cur[i], cur[j])
    ensures Scanning(cur, s0, start, i, j + 1, c, count, rest)
  {
    PassKeeps(cur[..c], i, j, rest);
  }

  /** One comparison: a matched link at `j` was shifted out, an unmatched one passed over. */
  lemma ScanStep(cur: seq<Link>, after: seq<Link>, s0: seq<Link>, start: seq<Link>, i: nat, j: nat, c: nat, count: nat, rest: seq<Link>, m: bool)
    requires Scanning(cur, s0, start, i, j, c, count, rest) && j < c && m == Matches(cur[i], cur[j])
    requires if m then after == ShiftedOut(cur, c, j) else after == cur
    ensures Scanning(after, s0, start, i, if m then j else j + 1, if m then c - 1 else c, count, rest)
  {
    if m {
      ScanDeletes(cur, after, s0, start, i, j, c, count, rest);
    } else {
      ScanKeeps(cur, s0, start, i, j, c, count, rest);
    }
  }

  /**
   * The inner loop of `removeRepeated` for the link at `i`: delete every
   * later live link it matches, keeping the others in order.
   */
  method RemoveMatchesOf(links: array<Link>, i: int, c0: int, count: int, ghost start: seq<Link>) returns (c: int)
    requires 0 <= i < c0 <= count <= links.Length && start == links[..c0]
    modifies links
    ensures i < c <= c0
    ensures links[..c][..i + 1] == start[..i + 1]
    ensures PassState(links[..c], i, c, start[i + 1..])
    ensures links[count..] == old(links[count..])
  {
    ghost var s0 := links[..];
    ghost var rest := start[i + 1..];
    c := c0;
    var j := i + 1;
    ScanStarts(s0, start, i, c, count);
    while j < c
      invariant c <= c0 && Scanning(links[..], s0, start, i, j, c, count, rest)
      decreases c - j
    {
      var m := Matches(links[i], links[j]);
      ghost var cur := links[..];
      if m {
        ShiftOut(links, c, j);
      }
      ScanStep(cur, links[..], s0, start, i, j, c, count, rest, m);
      c, j := if m then c - 1 else c, if m then j else j + 1;
    }
    ScanEnds(links[..], s0, start, i, c, count, rest);
  }

  /** `RemapLink` applied to every link of `ls`. */
  function RemapAll(ls: seq<Link>, correctNc: int, extras: seq<Duplicate>): (r: seq<Link>)
    ensures |r| == |ls| && forall i :: 0 <= i < |ls| ==> r[i] == RemapLink(ls[i], correctNc, extras)
  {
    seq(|ls|, i requires 0 <= i < |ls| => RemapLink(ls[i], correctNc, extras))
  }

  /**
   * Endpoint fidelity for a whole edge table: if every link joins nodes below
   * `n` and the copies sit where the face walk put them, then after the
   * rewrite every link joins nodes of the shortened table, at the coordinates
   * its old endpoints had.
   */
  lemma RemapAllKeepsEdges(xs: seq<int>, correctNc: int, extras: seq<Duplicate>, n: int, ls: seq<Link>)
    requires CopiesInPlace(xs, correctNc, extras, n) && EndpointsIn(ls, n)
    ensures EndpointsIn(RemapAll(ls, correctNc, extras), n - |extras|)
    ensures forall i :: 0 <= i < |ls| ==>
      Compacted(xs, correctNc, |extras|, n)[RemapAll(ls, correctNc, extras)[i].a] == xs[ls[i].a] &&
      Compacted(xs, correctNc, |extras|, n)[RemapAll(ls, correctNc, extras)[i].b] == xs[ls[i].b]
  {
    forall i | 0 <= i < |ls|
      ensures 0 <= RemapAll(ls, correctNc, extras)[i].a < n - |extras|
      ensures 0 <= RemapAll(ls, correctNc, extras)[i].b < n - |extras|
      ensures Compacted(xs, correctNc, |extras|, n)[RemapAll(ls, correctNc, extras)[i].a] == xs[ls[i].a]
      ensures Compacted(xs, correctNc, |extras|, n)[RemapAll(ls, correctNc, extras)[i].b] == xs[ls[i].b]
    {
      RemapKeepsCoordinate(xs, correctNc, extras, n, ls[i].a);
      RemapKeepsCoordinate(xs, correctNc, extras, n, ls[i].b);
    }
  }

  /** `isInExtra`: scan the first `count` rows for the copy `n` and return its original, or -1. */
  method LookUpExtra(extraNodes: array<Duplicate>, count: int, n: int) returns (r: int)
    requires 0 <= count <= extraNodes.Length
    ensures r == IsInExtra(extraNodes[..count], n)
  {
    var i := 0;
    while i < count
      invariant 0 <= i <= count
      invariant IsInExtra(extraNodes[..count], n) == IsInExtra(extraNodes[i..count], n)
    {
      assert extraNodes[i..count][0] == extraNodes[i] && extraNodes[i..count][1..] == extraNodes[i + 1..count];
      if extraNodes[i].copy == n {
        return extraNodes[i].original;
      }
      i := i + 1;
    }
    return -1;
  }

  /** One endpoint as the rewriting loop of `correctEdges` treats it: `Remap`, with the table scan for the copy. */
  method RemapEndpoint(e: int, extraNodes: array<Duplicate>, count: int, correctNc: int) returns (r: int)
    requires 0 <= count <= extraNodes.Length
    ensures r == Remap(e, correctNc, extraNodes[..count])
  {
    r := e;
    if e > correctNc - 1 {
      var o := LookUpExtra(extraNodes, count, e);
      if o == -1 {
        r := e - count;
      } else {
        r := o;
      }
    }
  }

  /** The links of `cur` below `i` are those of `orig` rewritten; the others are those of `orig`. */
  ghost predicate RemappedBelow(cur: seq<Link>, orig: seq<Link>, i: int, correctNc: int, extras: seq<Duplicate>)
  {
    0 <= i <= |cur| == |orig| &&
    (forall q :: 0 <= q < i ==> cur[q] == RemapLink(orig[q], correctNc, extras)) &&
    (forall q :: i <= q < |cur| ==> cur[q] == orig[q])
  }

  /** Rewriting the link at `i` extends the rewritten part by one. */
  lemma RemapNext(cur: seq<Link>, orig: seq<Link>, i: int, correctNc: int, extras: seq<Duplicate>)
    requires RemappedBelow(cur, orig, i, correctNc, extras) && i < |cur|
    ensures RemappedBelow(cur[i := RemapLink(cur[i], correctNc, extras)], orig, i + 1, correctNc, extras)
  {
  }

  /** Once the links below `upto` are rewritten, the table is `RemapAll` of the old links there and the old links after. */
  lemma RemapFinished(cur: seq<Link>, orig: seq<Link>, upto: int, correctNc: int, extras: seq<Duplicate>)
    requires RemappedBelow(cur, orig, upto, correctNc, extras)
    ensures cur[..upto] == RemapAll(orig[..upto], correctNc, extras) && cur[upto..] == orig[upto..]
  {
  }

  /** The rewriting loop of `correctEdges` on one edge table, for the links below `upto`. */
  method RemapLinks(links: array<Link>, upto: int, extraNodes: array<Duplicate>, count: int, correctNc: int)
    requires 0 <= upto <= links.Length && 0 <= count <= extraNodes.Length
    modifies links
    ensures links[..upto] == RemapAll(old(links[..upto]), correctNc, extraNodes[..count])
    ensures links[upto..] == old(links[upto..])
  {
    ghost var orig, extras := links[..], extraNodes[..count];
    var i := 0;
    while i < upto
      invariant i <= upto && RemappedBelow(links[..], orig, i, correctNc, extras)
    {
      var a := RemapEndpoint(links[i].a, extraNodes, count, correctNc);
      var b := RemapEndpoint(links[i].b, extraNodes, count, correctNc);
      RemapNext(links[..], orig, i, correctNc, extras);
      links[i] := Link(a, b);
      i := i + 1;
    }
    RemapFinished(links[..], orig, upto, correctNc, extras);
  }

  /** The compaction loop of `correctEdges` on one coordinate table. */
  method CompactTable(xs: array<int>, correctNc: int, k: int, n: int)
    requires 0 <= correctNc && 0 <= k && n <= xs.Length
    modifies xs
    ensures xs[..] == Compacted(old(xs[..]), correctNc, k, n)
  {
    var j := correctNc;
    while j < n - k
      invariant correctNc <= j && (j == correctNc || j <= n - k)
      invariant forall q :: correctNc <= q < j ==> q + k < xs.Length && xs[q] == old(xs[q + k])
      invariant forall q :: 0 <= q < xs.Length && !(correctNc <= q < j) ==> xs[q] == old(xs[q])
    {
      xs[j] := xs[j + k];
      j := j + 1;
    }
    assert xs[..] == Compacted(old(xs[..]), correctNc, k, n) by {
      var r := Compacted(old(xs[..]), correctNc, k, n);
      forall q | 0 <= q < xs.Length ensures xs[q] == r[q] {
        if correctNc <= q < n - k {
          assert q < j;
        } else {
          assert !(correctNc <= q < j);
        }
      }
    }
  }

  /** An axis-aligned box: the extremes of one drawing's coordinates. */
  datatype Box = Box(minX: int, maxX: int, minY: int, maxY: int)

  /** The extremes of the first `m` nodes, folded in index order. */
  function BoxOf(xs: seq<int>, ys: seq<int>, m: nat): Box
    requires 1 <= m <= |xs| && m <= |ys|
  {
    if m == 1 then Box(xs[0], xs[0], ys[0], ys[0])
    else
      var b := BoxOf(xs, ys, m - 1);
      var x, y := xs[m - 1], ys[m - 1];
      Box(if x < b.minX then x else b.minX, if x > b.maxX then x else b.maxX,
          if y < b.minY then y else b.minY, if y > b.maxY then y else b.maxY)
  }

  /** The box holds every one of the first `m` nodes, and each of its four sides touches one. */
  lemma {:induction false} BoxBounds(xs: seq<int>, ys: seq<int>, m: nat)
    requires 1 <= m <= |xs| && m <= |ys|
    ensures var b := BoxOf(xs, ys, m);
      (forall i :: 0 <= i < m ==> b.minX <= xs[i] <= b.maxX && b.minY <= ys[i] <= b.maxY) &&
      (exists i :: 0 <= i < m && xs[i] == b.minX) && (exists i :: 0 <= i < m && xs[i] == b.maxX) &&
      (exists i :: 0 <= i < m && ys[i] == b.minY) && (exists i :: 0 <= i < m && ys[i] == b.maxY)
  {
    if m > 1 {
      BoxBounds(xs, ys, m - 1);
    }
  }

  /** The corner margin `addBoundary` adds around the box. */
  const Margin := 20

  /** The four frame corners, anticlockwise from the lower-left in screen terms: x coordinates. */
  function CornerXs(b: Box): seq<int>
  {
    [b.minX - Margin, b.maxX + Margin, b.maxX + Margin, b.minX - Margin]
  }

  /** The four frame corners: y coordinates. */
  function CornerYs(b: Box): seq<int>
  {
    [b.minY - Margin, b.minY - Margin, b.maxY + Margin, b.maxY + Margin]
  }

  /** The ring `n+j -> n+(j+1)%4` closing the frame whose corners are nodes `n .. n+3`. */
  function Ring(n: int): seq<Link>
  {
    [Link(n, n + 1), Link(n + 1, n + 2), Link(n + 2, n + 3), Link(n + 3, n)]
  }

  /** Ring link `j` leaves corner `j` for the next corner round the frame. */
  lemma RingEntry(n: int, j: int)
    requires 0 <= j < 4
    ensures Ring(n)[j] == Link(n + j, n + (j + 1) % 4)
  {
  }

  /**
   * The frame is a rectangle that strictly encloses every node scanned: each
   * ring link is one side (its ends share a coordinate) and every node lies
   * at least `Margin` inside each side.
   */
  lemma FrameEncloses(xs: seq<int>, ys: seq<int>, m: nat, n: int)
    requires 1 <= m <= |xs| && m <= |ys|
    ensures var b := BoxOf(xs, ys, m); var cx, cy := CornerXs(b), CornerYs(b);
      (forall i :: 0 <= i < m ==> cx[0] + Margin <= xs[i] <= cx[1] - Margin && cy[0] + Margin <= ys[i] <= cy[2] - Margin) &&
      (forall j :: 0 <= j < 4 ==> Ring(n)[j].a - n == j && 0 <= Ring(n)[j].b - n < 4) &&
      (forall j :: 0 <= j < 4 ==> var a, c := Ring(n)[j].a - n, Ring(n)[j].b - n; cx[a] == cx[c] || cy[a] == cy[c])
  {
    BoxBounds(xs, ys, m);
  }

  /** The scan at the start of `addBoundary` for one drawing, over the first `n` nodes (node 0 at least). */
  method ScanBox(xs: array<int>, ys: array<int>, n: int) returns (b: Box)
    requires 1 <= xs.Length && n <= xs.Length && n <= ys.Length && 1 <= ys.Length
    ensures b == BoxOf(xs[..], ys[..], if n < 1 then 1 else n)
  {
    b := Box(xs[0], xs[0], ys[0], ys[0]);
    var i := 1;
    while i < n
      invariant 1 <= i <= xs.Length && i <= ys.Length && i <= (if n < 1 then 1 else n)
      invariant b == BoxOf(xs[..], ys[..], i)
    {
      if xs[i] < b.minX {
        b := b.(minX := xs[i]);
      }
      if xs[i] > b.maxX {
        b := b.(maxX := xs[i]);
      }
      if ys[i] < b.minY {
        b := b.(minY := ys[i]);
      }
      if ys[i] > b.maxY {
        b := b.(maxY := ys[i]);
      }
      i := i + 1;
    }
  }

  /** The append loop of `addBoundary` for one drawing: the corners as nodes `nc ..`, the ring as links `lc ..`. */
  method AppendFrame(xs: array<int>, ys: array<int>, links: array<Link>, nc: int, lc: int, n: int, cx: seq<int>, cy: seq<int>)
    requires |cx| == 4 && |cy| == 4 && xs != ys
    requires 0 <= nc && nc + 4 <= xs.Length && nc + 4 <= ys.Length && 0 <= lc && lc + 4 <= links.Length
    modifies xs, ys, links
    ensures xs[..] == Splice(old(xs[..]), nc, cx) && ys[..] == Splice(old(ys[..]), nc, cy)
    ensures links[..] == Splice(old(links[..]), lc, Ring(n))
  {
    ghost var ring := Ring(n);
    var j := 0;
    while j < 4
      invariant 0 <= j <= 4
      invariant xs[..] == Splice(old(xs[..]), nc, cx[..j]) && ys[..] == Splice(old(ys[..]), nc, cy[..j])
      invariant links[..] == Splice(old(links[..]), lc, ring[..j])
    {
      SpliceGrow(old(xs[..]), nc, cx, j);
      SpliceGrow(old(ys[..]), nc, cy, j);
      SpliceGrow(old(links[..]), lc, ring, j);
      RingEntry(n, j);
      xs[nc + j] := cx[j];
      ys[nc + j] := cy[j];
      links[lc + j] := Link(n + j, n + (j + 1) % 4);
      j := j + 1;
    }
    assert cx[..4] == cx && cy[..4] == cy && ring[..4] == ring;
  }

  /** The indices `n .. n+3` of four consecutive nodes, the corners of a frame. */
  function CornerIndices(n: int): (r: seq<int>)
    ensures |r| == 4 && forall q :: 0 <= q < 4 ==> r[q] == n + q
  {
    [n, n + 1, n + 2, n + 3]
  }

  /** The loop of `addBoundary` that records drawing 1's corner indices `n1 .. n1+3` in `borderNodes[0..3]`. */
  method RecordBorder(border: array<int>, n1: int)
    requires 4 <= border.Length
    modifies border
    ensures border[..] == Splice(old(border[..]), 0, CornerIndices(n1))
  {
    ghost var d := CornerIndices(n1);
    var k := 0;
    while k < 4
      invariant 0 <= k <= 4 && border[..] == Splice(old(border[..]), 0, d[..k])
    {
      WriteNext(border, 0, k, n1 + k, old(border[..]), d);
      k := k + 1;
    }
    assert d[..4] == d;
  }

  /** The four corner slots read with a cyclic offset `s`. */
  function Rotated(c: seq<int>, s: int): (r: seq<int>)
    requires |c| == 4 && 0 <= s < 4
    ensures |r| == 4
  {
    if s == 0 then c
    else if s == 1 then [c[1], c[2], c[3], c[0]]
    else if s == 2 then [c[2], c[3], c[0], c[1]]
    else [c[3], c[0], c[1], c[2]]
  }

  /** Slot `q` of the rotation holds corner `(q + s) % 4`. */
  lemma RotatedEntries(c: seq<int>, s: int)
    requires |c| == 4 && 0 <= s < 4
    ensures forall q :: 0 <= q < 4 ==> Rotated(c, s)[q] == c[(q + s) % 4]
  {
  }

  /** Moving the first of four values to the back keeps the multiset. */
  lemma RotateOnce(w: int, x: int, y: int, z: int)
    ensures multiset([w, x, y, z]) == multiset([x, y, z, w])
  {
    var a, b := [w], [x, y, z];
    assert [w, x, y, z] == a + b && [x, y, z, w] == b + a;
    assert multiset(a + b) == multiset(a) + multiset(b) == multiset(b) + multiset(a) == multiset(b + a);
  }

  /** Rotating by `s` and then by the complementary offset gives the corners back. */
  lemma RotatedInverse(c: seq<int>, s: int)
    requires |c| == 4 && 0 <= s < 4
    ensures Rotated(Rotated(c, s), (4 - s) % 4) == c
  {
    assert c == [c[0], c[1], c[2], c[3]];
  }

  /** No corner is lost or repeated by a rotation. */
  lemma RotatedPermutes(c: seq<int>, s: int)
    requires |c| == 4 && 0 <= s < 4
    ensures multiset(Rotated(c, s)) == multiset(c)
  {
    assert c == [c[0], c[1], c[2], c[3]];
    RotateOnce(c[0], c[1], c[2], c[3]);
    RotateOnce(c[1], c[2], c[3], c[0]);
    RotateOnce(c[2], c[3], c[0], c[1]);
  }

  /** Slot arithmetic of the rotation loop: step `t` writes the slot at offset `(t + i2) % 4`, and no other slot has step `t`. */
  lemma SlotOfStep(p: int, t: int, i2: int)
    requires 0 <= p < 4 && 0 <= t < 4 && 0 <= i2 < 4
    ensures ((t + i2) % 4 - i2 + 4) % 4 == t
    ensures (p - i2 + 4) % 4 == t ==> p == (t + i2) % 4
  {
  }

  /** The value the rotation loop stores in slot offset `p` is the `Rotated` entry for offset `m - i2`. */
  lemma StepValue(p: int, i2: int, m: int)
    requires 0 <= p < 4 && 0 <= i2 < 4 && 0 <= m < 4
    ensures ((p - i2 + 4) % 4 + m) % 4 == (p + (m - i2 + 4) % 4) % 4
  {
    var u := if p >= i2 then p - i2 else p - i2 + 4;
    var v := if m >= i2 then m - i2 else m - i2 + 4;
    assert (p - i2 + 4) % 4 == u;
    assert (m - i2 + 4) % 4 == v;
    assert (u + m) % 4 == (p + v) % 4;
  }

  /**
   * The state of the rotation loop after `t` steps: slots outside the
   * corners are untouched, a corner slot whose step is below `t` holds the
   * copy entry written there, and the others still hold their old value.
   */
  ghost predicate RotatedUpTo(s0: seq<int>, s1: seq<int>, n: int, c: seq<int>, i2: int, m: int, t: int)
  {
    |s1| == |s0| && |c| == 4 && 0 <= n && n + 4 <= |s0| &&
    (forall q :: 0 <= q < |s1| && !(n <= q < n + 4) ==> s1[q] == s0[q]) &&
    forall q :: n <= q < n + 4 ==>
      s1[q] == if (q - n - i2 + 4) % 4 < t then c[((q - n - i2 + 4) % 4 + m) % 4] else s0[q]
  }

  /** Step `t` writes exactly the slot whose step is `t`. */
  lemma RotateStep(s0: seq<int>, s1: seq<int>, n: int, c: seq<int>, i2: int, m: int, t: int)
    requires 0 <= t < 4 && 0 <= i2 < 4 && 0 <= m < 4 && RotatedUpTo(s0, s1, n, c, i2, m, t)
    ensures RotatedUpTo(s0, s1[n + (t + i2) % 4 := c[(t + m) % 4]], n, c, i2, m, t + 1)
  {
    var slot := n + (t + i2) % 4;
    var s2 := s1[slot := c[(t + m) % 4]];
    forall q | n <= q < n + 4
      ensures s2[q] == if (q - n - i2 + 4) % 4 < t + 1 then c[((q - n - i2 + 4) % 4 + m) % 4] else s0[q]
    {
      SlotOfStep(q - n, t, i2);
    }
  }

  /** Once every corner slot holds the entry the rotation loop wrote, the table is the rotated splice. */
  lemma RotationDone(s0: seq<int>, s1: seq<int>, n: int, c: seq<int>, i2: int, m: int)
    requires RotatedUpTo(s0, s1, n, c, i2, m, 4) && c == s0[n..n + 4] && 0 <= i2 < 4 && 0 <= m < 4
    ensures s1 == Splice(s0, n, Rotated(c, (m - i2 + 4) % 4))
  {
    var d := Rotated(c, (m - i2 + 4) % 4);
    RotatedEntries(c, (m - i2 + 4) % 4);
    forall p | 0 <= p < 4 ensures s1[n + p] == d[p] {
      StepValue(p, i2, m);
    }
    assert s1[n..n + 4] == d;
    assert s1[..n] == s0[..n] && s1[n + 4..] == s0[n + 4..];
    SplicedFromParts(s0, s1, n, d);
  }

  /**
   * Lines 1040-1049 of `addBoundary`: copy the corner slots `n .. n+3`, then
   * write slot `n + (t + i2) % 4` from copy entry `(t + m) % 4`, for `t < 4`.
   * The slots end up rotated by `m - i2`.
   */
  method RotateCorners(a: array<int>, n: int, i2: int, m: int)
    requires 0 <= n && n + 4 <= a.Length && 0 <= i2 < 4 && 0 <= m < 4
    modifies a
    ensures a[..] == Splice(old(a[..]), n, Rotated(old(a[n..n + 4]), (m - i2 + 4) % 4))
  {
    var copy := new int[4];
    var t := 0;
    while t < 4
      invariant 0 <= t <= 4 && copy[..t] == a[n..n + t] && a[..] == old(a[..])
    {
      copy[t] := a[n + t];
      t := t + 1;
    }
    ghost var c := copy[..];
    assert c == old(a[n..n + 4]);
    t := 0;
    ghost var cur := a[..];
    while t < 4
      invariant 0 <= t <= 4 && copy[..] == c && a[..] == cur && |cur| == a.Length
      invariant RotatedUpTo(old(a[..]), cur, n, c, i2, m, t)
    {
      var slot := n + (t + i2) % 4;
      a[slot] := copy[(t + m) % 4];
      RotateStep(old(a[..]), cur, n, c, i2, m, t);
      cur := a[..];
      t := t + 1;
    }
    RotationDone(old(a[..]), a[..], n, c, i2, m);
  }
}
