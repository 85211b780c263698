/**
 * Pure views of an edge table `links[g][0..currentLinkCount[g])`: the duplicate
 * test used by `removeRepeated`, the list that `removeRepeated` leaves behind
 * (`Dedup`), and the adjacency query `isAdjacent`.
 */
module LinkLists {
  import opened Geometry

  /**
   * The duplicate test of `removeRepeated`: the later link `x` repeats the
   * earlier link `e` when both endpoints of `e` occur among the endpoints of `x`.
   * (It is not symmetric: `e = (a,a)` matches every later link that touches `a`.)
   */
  predicate Matches(e: Link, x: Link)
  {
    (e.a == x.a || e.a == x.b) && (e.b == x.a || e.b == x.b)
  }

  /** `t` can be obtained from `s` by deleting entries (relative order kept). */
  predicate Subseq(t: seq<Link>, s: seq<Link>)
    decreases |s|
  {
    if s == [] then t == []
    else Subseq(t, s[1..]) || (t != [] && t[0] == s[0] && Subseq(t[1..], s[1..]))
  }

  /** The links of `s` that `e` does not match, in their original order. */
  function Filter(e: Link, s: seq<Link>): (r: seq<Link>)
    ensures |r| <= |s|
    ensures forall x :: x in r <==> x in s && !Matches(e, x)
    ensures Subseq(r, s)
  {
    if s == [] then []
    else if Matches(e, s[0]) then Filter(e, s[1..])
    else
      var r := [s[0]] + Filter(e, s[1..]);
      assert r[1..] == Filter(e, s[1..]);
      r
  }

  /**
   * What `removeRepeated` leaves of one edge table: the first link is kept, every
   * later link it matches is deleted, and the same is done with what remains.
   */
  function Dedup(s: seq<Link>): (r: seq<Link>)
    ensures |r| <= |s|
    ensures forall x :: x in r ==> x in s
    decreases |s|
  {
    if s == [] then [] else [s[0]] + Dedup(Filter(s[0], s[1..]))
  }

  /** No link of `s` is matched by an earlier link of `s`. */
  predicate NoRepeats(s: seq<Link>)
  {
    forall i, j :: 0 <= i < j < |s| ==> !Matches(s[i], s[j])
  }

  /** No link of `s` joins a node to itself. */
  predicate LoopFree(s: seq<Link>)
  {
    forall x :: x in s ==> x.a != x.b
  }

  /** Nodes `u` and `v` are joined by a link of `s`, in either direction. */
  predicate Adjacent(s: seq<Link>, u: int, v: int)
  {
    Link(u, v) in s || Link(v, u) in s
  }

  lemma {:induction false} FilterAppend(e: Link, s: seq<Link>, t: seq<Link>)
    ensures Filter(e, s + t) == Filter(e, s) + Filter(e, t)
    decreases |s|
  {
    if s == [] {
      assert s + t == t;
    } else {
      assert (s + t)[0] == s[0] && (s + t)[1..] == s[1..] + t;
      FilterAppend(e, s[1..], t);
    }
  }

  lemma {:induction false} SubseqTrans(a: seq<Link>, b: seq<Link>, c: seq<Link>)
    requires Subseq(a, b) && Subseq(b, c)
    ensures Subseq(a, c)
    decreases |c|
  {
    if c == [] {
    } else if Subseq(b, c[1..]) {
      SubseqTrans(a, b, c[1..]);
    } else {
      assert b != [] && b[0] == c[0] && Subseq(b[1..], c[1..]);
      if Subseq(a, b[1..]) {
        SubseqTrans(a, b[1..], c[1..]);
      } else {
        assert a != [] && a[0] == b[0] && Subseq(a[1..], b[1..]);
        SubseqTrans(a[1..], b[1..], c[1..]);
      }
    }
  }

  /** `removeRepeated` keeps the survivors in their original relative order. */
  lemma {:induction false} DedupSubseq(s: seq<Link>)
    ensures Subseq(Dedup(s), s)
    decreases |s|
  {
    if s != [] {
      var f := Filter(s[0], s[1..]);
      DedupSubseq(f);
      SubseqTrans(Dedup(f), f, s[1..]);
      assert Dedup(s)[1..] == Dedup(f);
    }
  }

  /** After `removeRepeated`, no surviving link repeats an earlier survivor. */
  lemma {:induction false} DedupNoRepeats(s: seq<Link>)
    ensures NoRepeats(Dedup(s))
    decreases |s|
  {
    if s != [] {
      var f := Filter(s[0], s[1..]);
      DedupNoRepeats(f);
      var d := Dedup(s);
      forall i, j | 0 <= i < j < |d| ensures !Matches(d[i], d[j]) {
        assert d[j] == Dedup(f)[j - 1];
        if i > 0 {
          assert d[i] == Dedup(f)[i - 1];
        } else {
          assert d[j] in Dedup(f);
        }
      }
    }
  }

  /**
   * Every link of `s` either survives `removeRepeated` or is matched by a
   * survivor: nothing is deleted unless an earlier kept link repeats it.
   */
  lemma {:induction false} DedupCovers(s: seq<Link>, x: Link)
    requires x in s
    ensures x in Dedup(s) || exists y :: y in Dedup(s) && Matches(y, x)
    decreases |s|
  {
    var f := Filter(s[0], s[1..]);
    assert Dedup(s) == [s[0]] + Dedup(f);
    if x == s[0] {
    } else if Matches(s[0], x) {
      assert s[0] in Dedup(s);
    } else {
      assert x in s[1..];
      assert x in f;
      DedupCovers(f, x);
      if x in Dedup(f) {
        assert x in Dedup(s);
      } else {
        var y :| y in Dedup(f) && Matches(y, x);
        assert y in Dedup(s);
      }
    }
  }

  /** Some link of `d` matches `x`. */
  predicate MatchedBy(d: seq<Link>, x: Link)
  {
    exists y :: y in d && Matches(y, x)
  }

  lemma MatchedByCons(e: Link, d: seq<Link>, x: Link)
    ensures MatchedBy([e] + d, x) <==> Matches(e, x) || MatchedBy(d, x)
  {
    if MatchedBy([e] + d, x) {
      var y :| y in [e] + d && Matches(y, x);
      assert y == e || y in d;
    }
    if Matches(e, x) {
      assert e in [e] + d;
    }
    if MatchedBy(d, x) {
      var y :| y in d && Matches(y, x);
      assert y in [e] + d;
    }
  }

  /** What survives of a link `x` that follows the survivors `d`: nothing if one of them matches it, else `x`. */
  function Kept(d: seq<Link>, x: Link): seq<Link>
  {
    if MatchedBy(d, x) then [] else [x]
  }

  /**
   * `removeRepeated` link by link: appending `x` to a table adds `x` to the
   * survivors exactly when no earlier survivor matches it, so of each group of
   * matching links the first one is kept.
   */
  lemma {:induction false} DedupAppend(s: seq<Link>, x: Link)
    ensures Dedup(s + [x]) == Dedup(s) + Kept(Dedup(s), x)
    decreases |s|
  {
    if s == [] {
      assert s + [x] == [x];
      assert Dedup([x]) == [x] + Dedup(Filter(x, []));
    } else {
      var f := Filter(s[0], s[1..]);
      DedupFirstPass(s, x);
      if !Matches(s[0], x) {
        DedupAppend(f, x);
      }
      DedupAppendStep(s, x, f);
    }
  }

  /** The first pass over a single later link deletes it exactly when `e` matches it. */
  lemma FilterOne(e: Link, x: Link)
    ensures Filter(e, [x]) == Kept([e], x)
  {
    assert [x][1..] == [];
    if Matches(e, x) {
      assert e in [e];
    } else {
      assert !MatchedBy([e], x);
    }
  }

  /** Unfolding `Dedup` once on `s + [x]`: the first pass deletes `x` exactly when the head matches it. */
  lemma DedupFirstPass(s: seq<Link>, x: Link)
    requires s != []
    ensures Dedup(s) == [s[0]] + Dedup(Filter(s[0], s[1..]))
    ensures Dedup(s + [x]) == [s[0]] + Dedup(Filter(s[0], s[1..]) + Kept([s[0]], x))
  {
    var e, t := s[0], s[1..];
    assert (s + [x])[0] == e && (s + [x])[1..] == t + [x];
    FilterAppend(e, t, [x]);
    FilterOne(e, x);
  }

  /** The induction step of `DedupAppend`, with the first pass unfolded. */
  lemma DedupAppendStep(s: seq<Link>, x: Link, f: seq<Link>)
    requires s != [] && f == Filter(s[0], s[1..])
    requires Dedup(s) == [s[0]] + Dedup(f)
    requires Dedup(s + [x]) == [s[0]] + Dedup(f + Kept([s[0]], x))
    requires !Matches(s[0], x) ==> Dedup(f + [x]) == Dedup(f) + Kept(Dedup(f), x)
    ensures Dedup(s + [x]) == Dedup(s) + Kept(Dedup(s), x)
  {
    var e := s[0];
    MatchedByCons(e, Dedup(f), x);
    if Matches(e, x) {
      assert MatchedBy([e], x) by {
        assert e in [e];
      }
      assert f + [] == f;
    } else {
      assert !MatchedBy([e], x);
      assert [e] + (Dedup(f) + Kept(Dedup(f), x)) == ([e] + Dedup(f)) + Kept(Dedup(f), x);
    }
  }

  /** A list without repeats is left as it is. */
  lemma {:induction false} DedupOfNoRepeats(s: seq<Link>)
    requires NoRepeats(s)
    ensures Dedup(s) == s
    decreases |s|
  {
    if s != [] {
      FilterNoMatch(s[0], s[1..]);
      assert NoRepeats(s[1..]) by {
        forall i, j | 0 <= i < j < |s[1..]| ensures !Matches(s[1..][i], s[1..][j]) {
          assert s[1..][i] == s[i + 1] && s[1..][j] == s[j + 1];
        }
      }
      DedupOfNoRepeats(s[1..]);
    }
  }

  lemma {:induction false} FilterNoMatch(e: Link, s: seq<Link>)
    requires forall x :: x in s ==> !Matches(e, x)
    ensures Filter(e, s) == s
    decreases |s|
  {
    if s != [] {
      assert s[0] in s;
      FilterNoMatch(e, s[1..]);
      assert [s[0]] + s[1..] == s;
    }
  }

  /** Running `removeRepeated` a second time changes nothing. */
  lemma DedupIdempotent(s: seq<Link>)
    ensures Dedup(Dedup(s)) == Dedup(s)
  {
    DedupNoRepeats(s);
    DedupOfNoRepeats(Dedup(s));
  }

  /**
   * On a table without self-loops `removeRepeated` neither creates nor loses an
   * adjacency: `isAdjacent` answers the same before and after.
   */
  lemma DedupKeepsAdjacency(s: seq<Link>, u: int, v: int)
    requires LoopFree(s)
    ensures Adjacent(Dedup(s), u, v) <==> Adjacent(s, u, v)
  {
    if Adjacent(s, u, v) {
      var x := if Link(u, v) in s then Link(u, v) else Link(v, u);
      DedupCovers(s, x);
      if x !in Dedup(s) {
        var y :| y in Dedup(s) && Matches(y, x);
        assert y.a != y.b;
        assert y == Link(u, v) || y == Link(v, u);
      }
    }
  }

  /** A self-loop makes `removeRepeated` drop a genuine adjacency: (0,0) deletes (0,1). */
  lemma SelfLoopLosesAdjacency()
    ensures Adjacent([Link(0, 0), Link(0, 1)], 0, 1)
    ensures !Adjacent(Dedup([Link(0, 0), Link(0, 1)]), 0, 1)
  {
    assert Filter(Link(0, 0), [Link(0, 1)]) == [];
    assert Dedup([Link(0, 0), Link(0, 1)]) == [Link(0, 0)];
  }

  /** `isAdjacent`: scans the links of graph 0 for `(node1,node2)` or `(node2,node1)`. */
  function IsAdjacent(ls: seq<Link>, node1: int, node2: int): (r: bool)
    ensures r <==> Adjacent(ls, node1, node2)
  {
    if ls == [] then false
    else if (ls[0].a == node1 && ls[0].b == node2) || (ls[0].a == node2 && ls[0].b == node1) then true
    else
      var rest := IsAdjacent(ls[1..], node1, node2);
      assert ls == [ls[0]] + ls[1..];
      rest
  }

  /** Adjacency is symmetric. */
  lemma IsAdjacentSymmetric(ls: seq<Link>, u: int, v: int)
    ensures IsAdjacent(ls, u, v) == IsAdjacent(ls, v, u)
  {
  }
}
