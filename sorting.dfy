/**
 * `sort`: an exchange sort of the first `n` keys that, instead of the sorted
 * keys, leaves behind the sorting permutation: entry `i` becomes the original
 * position of the `i`-th smallest key.
 */
module Sorting {

  /** The positions `0 .. n-1` in order. */
  function Range(n: nat): (r: seq<int>)
    ensures |r| == n && forall i :: 0 <= i < n ==> r[i] == i
  {
    seq(n, i => i)
  }

  /** `p` lists every position below `n` exactly once. */
  predicate IsPermutation(p: seq<int>, n: nat)
  {
    multiset(p) == multiset(Range(n))
  }

  /** The integers of `p` as the `double`s the key array is overwritten with. */
  function AsReals(p: seq<int>): (r: seq<real>)
    ensures |r| == |p| && forall i :: 0 <= i < |p| ==> r[i] == p[i] as real
  {
    seq(|p|, i requires 0 <= i < |p| => p[i] as real)
  }

  /** Each position occurs at most once in `Range(n)`. */
  lemma {:induction false} RangeCountsOnce(n: nat, v: int)
    ensures multiset(Range(n))[v] == if 0 <= v < n then 1 else 0
  {
    if n > 0 {
      assert Range(n) == Range(n - 1) + [n - 1];
      RangeCountsOnce(n - 1, v);
    }
  }

  /** A permutation of the positions below `n` has `n` entries, all below `n` and pairwise different. */
  lemma {:induction false} PermutationEntries(p: seq<int>, n: nat)
    requires IsPermutation(p, n)
    ensures |p| == n
    ensures forall i :: 0 <= i < |p| ==> 0 <= p[i] < n
    ensures forall i, j :: 0 <= i < j < |p| ==> p[i] != p[j]
  {
    assert |multiset(p)| == |p| && |multiset(Range(n))| == n;
    forall i | 0 <= i < |p| ensures 0 <= p[i] < n {
      assert p[i] in multiset(p);
      RangeCountsOnce(n, p[i]);
    }
    forall i, j | 0 <= i < j < |p| ensures p[i] != p[j] {
      if p[i] == p[j] {
        var v := p[i];
        assert p == p[..j] + [p[j]] + p[j + 1..];
        assert v in multiset(p[..j]) by {
          assert p[..j][i] == v;
        }
        assert multiset(p)[v] >= 2;
        RangeCountsOnce(n, v);
      }
    }
  }

  /** Reading `keys` at the positions listed in `p` gives a non-decreasing sequence. */
  predicate SortsKeys(keys: seq<real>, p: seq<int>)
  {
    (forall i :: 0 <= i < |p| ==> 0 <= p[i] < |keys|) &&
    forall i, j :: 0 <= i < j < |p| ==> keys[p[i]] <= keys[p[j]]
  }

  /** Position `x` of the key array holds the original key at position `idx[x]`, for every `x < n`. */
  predicate Tracks(a: seq<real>, idx: seq<int>, keys: seq<real>, n: nat)
  {
    n <= |a| && n <= |idx| && n <= |keys| &&
    forall x :: 0 <= x < n ==> 0 <= idx[x] < n && a[x] == keys[idx[x]]
  }

  /** The first `j` keys are in final place: each is no larger than any key after it. */
  predicate Settled(a: seq<real>, j: int, n: int)
    requires n <= |a|
  {
    forall p, q :: 0 <= p < j && p < q < n ==> a[p] <= a[q]
  }

  /**
   * `sort(array, n)`: order the first `n` keys by exchanges, carrying the
   * original positions along in a second array, then copy those positions
   * over the keys.
   */
  method Sort(a: array<real>, n: int) returns (ghost perm: seq<int>)
    requires 0 <= n <= a.Length
    modifies a
    ensures IsPermutation(perm, n)
    ensures SortsKeys(old(a[..]), perm)
    ensures a[..n] == AsReals(perm)
    ensures a[n..] == old(a[n..])
  {
    ghost var keys := a[..];
    var idx := new int[n];
    FillIdentity(idx);
    ExchangeSort(a, idx, n, keys);
    perm := idx[..];
    CopyPositions(a, idx, n);
  }

  /** The first loop of `sort`: the position array starts as the identity. */
  method FillIdentity(idx: array<int>)
    modifies idx
    ensures idx[..] == Range(idx.Length)
  {
    var i := 0;
    while i < idx.Length
      invariant 0 <= i <= idx.Length && idx[..i] == Range(i)
    {
      idx[i] := i;
      i := i + 1;
      assert idx[..i] == Range(i - 1) + [i - 1];
    }
    assert idx[..] == idx[..idx.Length];
  }

  /** The nested exchange loops of `sort`, with the positions carried along. */
  method ExchangeSort(a: array<real>, idx: array<int>, n: int, ghost keys: seq<real>)
    requires 0 <= n <= a.Length && idx.Length == n
    requires a[..] == keys && idx[..] == Range(n)
    modifies a, idx
    ensures IsPermutation(idx[..], n) && SortsKeys(keys, idx[..])
    ensures a[n..] == keys[n..]
  {
    var j := 0;
    while j < n - 1
      invariant 0 <= j <= if n == 0 then 0 else n - 1
      invariant multiset(idx[..]) == multiset(Range(n))
      invariant Tracks(a[..], idx[..], keys, n) && Settled(a[..], j, n)
      invariant a[n..] == keys[n..]
    {
      ExchangePass(a, idx, n, j, keys);
      j := j + 1;
    }
    SettledSorts(a[..], idx[..], keys, n, j);
  }

  /** Once all but the last key are settled, the tracked positions read the keys in order. */
  lemma SettledSorts(sa: seq<real>, p: seq<int>, keys: seq<real>, n: nat, j: int)
    requires |p| == n <= |sa| && Tracks(sa, p, keys, n) && Settled(sa, j, n) && j >= n - 1
    ensures SortsKeys(keys, p)
  {
    forall x, y | 0 <= x < y < n ensures keys[p[x]] <= keys[p[y]] {
      assert sa[x] <= sa[y];
    }
  }

  /**
   * The state of a pass for position `j` once the keys before `k` have been
   * compared with it: the positions are a rearrangement of those the pass
   * started with, the keys still track them, the first `j` keys are settled,
   * the key at `j` is no larger than any compared key, and the keys from `n`
   * on are untouched.
   */
  ghost predicate Scanned(sa: seq<real>, si: seq<int>, oa: seq<real>, oi: seq<int>, keys: seq<real>, n: nat, j: nat, k: nat)
  {
    j < k <= n <= |sa| && n <= |oa| && |si| == n &&
    multiset(si) == multiset(oi) && Tracks(sa, si, keys, n) && Settled(sa, j, n) &&
    (forall q :: j < q < k ==> sa[j] <= sa[q]) && sa[n..] == oa[n..]
  }

  /** Comparing the key at `k` without exchanging it keeps the pass state, one key further. */
  lemma ScanKeeps(sa: seq<real>, si: seq<int>, oa: seq<real>, oi: seq<int>, keys: seq<real>, n: nat, j: nat, k: nat)
    requires Scanned(sa, si, oa, oi, keys, n, j, k) && k < n && !(sa[k] < sa[j])
    ensures Scanned(sa, si, oa, oi, keys, n, j, k + 1)
  {
  }

  /** Exchanging the keys at `j` and `k`, positions along, keeps the pass state, one key further. */
  lemma ScanExchanges(sa: seq<real>, si: seq<int>, oa: seq<real>, oi: seq<int>, keys: seq<real>, n: nat, j: nat, k: nat)
    requires Scanned(sa, si, oa, oi, keys, n, j, k) && k < n && sa[k] < sa[j]
    ensures Scanned(sa[j := sa[k]][k := sa[j]], si[j := si[k]][k := si[j]], oa, oi, keys, n, j, k + 1)
  {
    Exchanged(sa, si, keys, n, j, k);
  }

  /** Exchange entries `j` and `k` of an array. */
  method Exchange<T>(x: array<T>, j: int, k: int)
    requires 0 <= j < k < x.Length
    modifies x
    ensures x[..] == old(x[..])[j := old(x[k])][k := old(x[j])]
  {
    x[j], x[k] := x[k], x[j];
  }

  /**
   * One pass of the outer loop: every later key smaller than the key at `j`
   * is exchanged with it (the positions follow), so afterwards position `j`
   * holds the smallest of the keys from `j` on.
   */
  method ExchangePass(a: array<real>, idx: array<int>, n: int, j: int, ghost keys: seq<real>)
    requires 0 <= j < n - 1 && n <= a.Length && idx.Length == n
    requires Tracks(a[..], idx[..], keys, n) && Settled(a[..], j, n)
    modifies a, idx
    ensures multiset(idx[..]) == multiset(old(idx[..]))
    ensures Tracks(a[..], idx[..], keys, n) && Settled(a[..], j + 1, n)
    ensures a[n..] == old(a[n..])
  {
    ghost var oa, oi := a[..], idx[..];
    var k := j + 1;
    while k < n
      invariant Scanned(a[..], idx[..], oa, oi, keys, n, j, k)
    {
      if a[k] < a[j] {
        ScanExchanges(a[..], idx[..], oa, oi, keys, n, j, k);
        Exchange(a, j, k);
        Exchange(idx, j, k);
      } else {
        ScanKeeps(a[..], idx[..], oa, oi, keys, n, j, k);
      }
      k := k + 1;
    }
    PassSettles(a[..], idx[..], oa, oi, keys, n, j);
  }

  /** A completed pass leaves position `j` settled as well. */
  lemma PassSettles(sa: seq<real>, si: seq<int>, oa: seq<real>, oi: seq<int>, keys: seq<real>, n: nat, j: nat)
    requires Scanned(sa, si, oa, oi, keys, n, j, n)
    ensures multiset(si) == multiset(oi) && Tracks(sa, si, keys, n) && Settled(sa, j + 1, n) && sa[n..] == oa[n..]
  {
  }

  /** Exchanging the keys at `j` and `k`, and their positions with them, keeps every fact the pass relies on. */
  lemma Exchanged(a0: seq<real>, i0: seq<int>, keys: seq<real>, n: nat, j: int, k: int)
    requires 0 <= j < k < n <= |a0| && |i0| == n
    requires Tracks(a0, i0, keys, n) && Settled(a0, j, n)
    requires forall q :: j < q < k ==> a0[j] <= a0[q]
    requires a0[k] < a0[j]
    ensures var a1, i1 := a0[j := a0[k]][k := a0[j]], i0[j := i0[k]][k := i0[j]];
      multiset(i1) == multiset(i0) && Tracks(a1, i1, keys, n) && Settled(a1, j, n) &&
      (forall q :: j < q <= k ==> a1[j] <= a1[q]) && a1[n..] == a0[n..]
  {
    var a1, i1 := a0[j := a0[k]][k := a0[j]], i0[j := i0[k]][k := i0[j]];
    SwapMultiset(i0, j, k);
    forall x | 0 <= x < n ensures 0 <= i1[x] < n && a1[x] == keys[i1[x]] {
      if x == j {
        assert a1[x] == a0[k] && i1[x] == i0[k];
      } else if x == k {
        assert a1[x] == a0[j] && i1[x] == i0[j];
      } else {
        assert a1[x] == a0[x] && i1[x] == i0[x];
      }
    }
    forall p, q | 0 <= p < j && p < q < n ensures a1[p] <= a1[q] {
      assert a1[p] == a0[p];
      if q == j {
        assert a1[q] == a0[k];
      } else if q == k {
        assert a1[q] == a0[j];
      } else {
        assert a1[q] == a0[q];
      }
    }
    forall q | j < q <= k ensures a1[j] <= a1[q] {
      if q < k {
        assert a1[q] == a0[q];
      }
    }
    assert a1[n..] == a0[n..];
  }

  /** Exchanging two entries leaves the multiset of entries as it was. */
  lemma SwapMultiset(s: seq<int>, j: int, k: int)
    requires 0 <= j < k < |s|
    ensures multiset(s[j := s[k]][k := s[j]]) == multiset(s)
  {
    var t := s[j := s[k]];
    assert multiset(t) == multiset(s) - multiset{s[j]} + multiset{s[k]};
    assert multiset(t[k := s[j]]) == multiset(t) - multiset{t[k]} + multiset{s[j]};
  }

  /** The closing loop of `sort`: overwrite the first `n` keys with the positions. */
  method CopyPositions(a: array<real>, idx: array<int>, n: int)
    requires 0 <= n <= a.Length && idx.Length == n
    modifies a
    ensures a[..n] == AsReals(idx[..])
    ensures a[n..] == old(a[n..])
  {
    var l := 0;
    while l < n
      invariant 0 <= l <= n
      invariant a[..l] == AsReals(idx[..l])
      invariant a[n..] == old(a[n..])
    {
      a[l] := idx[l] as real;
      l := l + 1;
      assert a[..l] == a[..l - 1] + [idx[l - 1] as real];
    }
    assert idx[..] == idx[..n];
  }
}
