/**
 * Rearranging a range of an array in place: what stays put outside it,
 * what is kept inside it, and how rearrangements compose. Shared by the
 * sorts that exchange within a sub-range (quick sort's partitions, heap
 * sort's heap prefix).
 */
module Rearrange {
  import opened Snapshots

  /**
   * `t` is `s` with only the inclusive range `lo..hi` rearranged: the
   * same elements outside the range, and the same multiset overall.
   */
  ghost predicate Rearranged(s: seq<int>, t: seq<int>, lo: int, hi: int) {
    |t| == |s| &&
    (forall k :: 0 <= k < |s| && (k < lo || hi < k) ==> t[k] == s[k]) &&
    multiset(t) == multiset(s)
  }

  lemma RearrangedTrans(s: seq<int>, t: seq<int>, u: seq<int>, lo: int, hi: int)
    requires Rearranged(s, t, lo, hi) && Rearranged(t, u, lo, hi)
    ensures Rearranged(s, u, lo, hi)
  {
  }

  /** Exchanging two indices of the range rearranges the range. */
  lemma ExchangeRearranges(s: seq<int>, lo: int, hi: int, x: int, y: int)
    requires 0 <= lo <= x <= hi < |s| && lo <= y <= hi
    ensures Rearranged(s, Exchanged(s, x, y), lo, hi)
  {
    ExchangedPermutes(s, x, y);
  }

  /** A rearrangement of a sub-range is a rearrangement of any range around it. */
  lemma RearrangedWiden(s: seq<int>, t: seq<int>, lo: int, hi: int, lo2: int, hi2: int)
    requires lo2 <= lo && hi <= hi2
    requires Rearranged(s, t, lo, hi)
    ensures Rearranged(s, t, lo2, hi2)
  {
  }

  /** Inside the range, the multiset is kept too, since everything outside is. */
  lemma RearrangedSlice(s: seq<int>, t: seq<int>, lo: int, hi: int)
    requires 0 <= lo <= hi + 1 <= |s| && Rearranged(s, t, lo, hi)
    ensures multiset(t[lo..hi + 1]) == multiset(s[lo..hi + 1])
  {
    MultisetThirds(s, lo, hi + 1);
    MultisetThirds(t, lo, hi + 1);
    assert t[..lo] == s[..lo];
    assert t[hi + 1..] == s[hi + 1..];
    MultisetCancel(multiset(s[..lo]), multiset(s[lo..hi + 1]), multiset(t[lo..hi + 1]), multiset(s[hi + 1..]));
  }

  lemma MultisetThirds(s: seq<int>, i: int, j: int)
    requires 0 <= i <= j <= |s|
    ensures multiset(s) == multiset(s[..i]) + multiset(s[i..j]) + multiset(s[j..])
  {
    assert s == s[..i] + s[i..j] + s[j..];
  }

  lemma MultisetCancel(l: multiset<int>, x: multiset<int>, y: multiset<int>, r: multiset<int>)
    requires l + x + r == l + y + r
    ensures x == y
  {
    forall e
      ensures x[e] == y[e]
    {
      assert (l + x + r)[e] == l[e] + x[e] + r[e];
      assert (l + y + r)[e] == l[e] + y[e] + r[e];
    }
  }

  /** An element of a rearranged range came from the same range before. */
  lemma RearrangedFrom(s: seq<int>, t: seq<int>, lo: int, hi: int, k: int)
    requires 0 <= lo <= k <= hi < |s| && Rearranged(s, t, lo, hi)
    ensures exists m :: lo <= m <= hi && t[k] == s[m]
  {
    RearrangedSlice(s, t, lo, hi);
    assert t[k] == t[lo..hi + 1][k - lo];
    assert t[k] in multiset(s[lo..hi + 1]);
    var m :| 0 <= m < hi + 1 - lo && s[lo..hi + 1][m] == t[k];
    assert s[lo + m] == t[k];
  }
}
