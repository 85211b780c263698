/**
 * The one in-place edit both the edge tables and the triangulator's vertex
 * list use: delete the entry at position `l` of the first `m` entries of a
 * fixed-size buffer by moving every later entry down by one.
 */
module Buffers {

  /** `s` without its entry at position `l`. */
  function RemoveAt<T>(s: seq<T>, l: nat): seq<T>
    requires l < |s|
  {
    s[..l] + s[l + 1..]
  }

  /**
   * The buffer contents after the shift loop drops position `l` of the first
   * `m` entries: the later live entries move down by one and the entry at
   * `m-1` stays where it was, behind the new end.
   */
  function ShiftedOut<T>(a: seq<T>, m: nat, l: nat): (r: seq<T>)
    requires l < m <= |a|
    ensures |r| == |a| && r[..m - 1] == RemoveAt(a[..m], l) && r[m - 1..] == a[m - 1..]
  {
    var r := a[..l] + a[l + 1..m] + a[m - 1..];
    assert r[..m - 1] == RemoveAt(a[..m], l);
    r
  }

  /** The shift leaves the entries before `l`, and those from any `k >= m` on, where they were. */
  lemma ShiftedOutFrame<T>(a: seq<T>, m: nat, l: nat, k: nat)
    requires l < m <= k <= |a|
    ensures ShiftedOut(a, m, l)[..l] == a[..l] && ShiftedOut(a, m, l)[k..] == a[k..]
  {
    var r := ShiftedOut(a, m, l);
    assert r[k..] == r[m - 1..][k - m + 1..];
    assert r[..l] == r[..m - 1][..l];
  }

  /** The shift loop: `for (j = l; j < m - 1; ++j) buf[j] = buf[j + 1]`. */
  method ShiftOut<T>(buf: array<T>, m: int, l: int)
    requires 0 <= l < m <= buf.Length
    modifies buf
    ensures buf[..] == ShiftedOut(old(buf[..]), m, l)
  {
    var j := l;
    while j < m - 1
      invariant l <= j <= m - 1
      invariant forall q :: 0 <= q < l ==> buf[q] == old(buf[q])
      invariant forall q :: l <= q < j ==> buf[q] == old(buf[q + 1])
      invariant forall q :: j <= q < buf.Length ==> buf[q] == old(buf[q])
    {
      buf[j] := buf[j + 1];
      j := j + 1;
    }
    assert buf[..] == ShiftedOut(old(buf[..]), m, l) by {
      var s := ShiftedOut(old(buf[..]), m, l);
      assert |s| == buf.Length;
      forall q | 0 <= q < buf.Length ensures buf[q] == s[q] {
        if q < l {
        } else if q < m - 1 {
          assert s[q] == old(buf[q + 1]);
        } else {
          assert s[q] == old(buf[q]);
        }
      }
    }
  }

  /** `s` with the entries from `at` on overwritten by `d`. */
  function Splice<T>(s: seq<T>, at: nat, d: seq<T>): (r: seq<T>)
    requires at + |d| <= |s|
    ensures |r| == |s|
  {
    s[..at] + d + s[at + |d|..]
  }

  lemma SpliceParts<T>(s: seq<T>, at: nat, d: seq<T>)
    requires at + |d| <= |s|
    ensures Splice(s, at, d)[..at] == s[..at]
    ensures Splice(s, at, d)[at..at + |d|] == d
    ensures Splice(s, at, d)[at + |d|..] == s[at + |d|..]
  {
    var r := Splice(s, at, d);
    assert r[..at] == s[..at];
    assert r[at..at + |d|] == d;
  }

  lemma SpliceOne<T>(s: seq<T>, at: nat, x: T, r: seq<T>)
    requires at < |s| && r == s[at := x]
    ensures r == Splice(s, at, [x])
  {
    assert r == s[..at] + [x] + s[at + 1..];
  }

  lemma SplicedFromParts<T>(s: seq<T>, r: seq<T>, at: nat, d: seq<T>)
    requires at + |d| <= |s| == |r|
    requires r[..at] == s[..at] && r[at..at + |d|] == d && r[at + |d|..] == s[at + |d|..]
    ensures r == Splice(s, at, d)
  {
    assert r == r[..at] + r[at..at + |d|] + r[at + |d|..];
  }

  /** Writing the next entry of `d` just past a spliced prefix of `d` splices one entry more. */
  lemma SpliceGrow<T>(s: seq<T>, at: nat, d: seq<T>, j: nat)
    requires j < |d| && at + |d| <= |s|
    ensures Splice(s, at, d[..j])[at + j := d[j]] == Splice(s, at, d[..j + 1])
  {
    var p := Splice(s, at, d[..j]);
    var r := p[at + j := d[j]];
    SpliceParts(s, at, d[..j]);
    var w, e := r[at..at + j + 1], d[..j + 1];
    forall q | 0 <= q < j + 1
      ensures w[q] == e[q]
    {
      if q < j {
        assert r[at + q] == p[at..at + j][q];
      }
    }
    assert w == e;
    SplicedFromParts(s, r, at, d[..j + 1]);
  }

  /** The write `buf[at + j] = x` of the next entry `x == d[j]` of a spliced prefix. */
  method WriteNext<T>(buf: array<T>, at: nat, j: nat, x: T, ghost s: seq<T>, ghost d: seq<T>)
    requires j < |d| && at + |d| <= |s| && x == d[j] && buf[..] == Splice(s, at, d[..j])
    modifies buf
    ensures buf[..] == Splice(s, at, d[..j + 1])
  {
    SpliceGrow(s, at, d, j);
    buf[at + j] := x;
  }

  /** Writing one entry just past a spliced block extends the block. */
  lemma SpliceExtend<T>(s: seq<T>, at: nat, d: seq<T>, x: T)
    requires at + |d| < |s|
    ensures Splice(s, at, d)[at + |d| := x] == Splice(s, at, d + [x])
  {
    var e := d + [x];
    assert e[..|d|] == d && e[..|d| + 1] == e;
    SpliceGrow(s, at, e, |d|);
  }

  lemma SpliceTwice<T>(s: seq<T>, at: nat, d1: seq<T>, at2: nat, d2: seq<T>)
    requires at2 == at + |d1| && at2 + |d2| <= |s|
    ensures Splice(Splice(s, at, d1), at2, d2) == Splice(s, at, d1 + d2)
  {
    var r := Splice(Splice(s, at, d1), at2, d2);
    SpliceParts(s, at, d1);
    SpliceParts(Splice(s, at, d1), at2, d2);
    SpliceParts(s, at, d1 + d2);
    assert r[..at] == Splice(s, at, d1)[..at2][..at];
    assert r[at..at2 + |d2|] == d1 + d2 by {
      assert r[at..at2] == Splice(s, at, d1)[at..at2];
    }
    SplicedFromParts(s, r, at, d1 + d2);
  }

}
