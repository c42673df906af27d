/** Comparison functions as qsort takes them, and what sorting a stretch of a sequence leaves alone. */
module Ordering {

  /** What qsort asks of a comparison function. */
  ghost predicate TotalPreorder<T(!new)>(cmp: (T, T) -> int) {
    && (forall x, y :: cmp(x, y) < 0 <==> cmp(y, x) > 0)
    && (forall x, y, z :: cmp(x, y) <= 0 && cmp(y, z) <= 0 ==> cmp(x, z) <= 0)
  }

  lemma {:induction false} Total<T(!new)>(cmp: (T, T) -> int, x: T, y: T)
    requires TotalPreorder(cmp)
    ensures cmp(x, y) > 0 ==> cmp(y, x) < 0
    ensures cmp(x, y) < 0 ==> cmp(y, x) > 0
    ensures cmp(x, y) == 0 ==> cmp(y, x) == 0
    ensures cmp(x, x) == 0
  {
  }

  lemma {:induction false} Trans<T(!new)>(cmp: (T, T) -> int, x: T, y: T, z: T)
    requires TotalPreorder(cmp) && cmp(x, y) <= 0 && cmp(y, z) <= 0
    ensures cmp(x, z) <= 0
  {
  }

  ghost predicate Sorted<T>(cmp: (T, T) -> int, s: seq<T>) {
    forall i, j :: 0 <= i < j < |s| ==> cmp(s[i], s[j]) <= 0
  }

  /** Nothing before c is greater than anything from c on. */
  ghost predicate Cut<T>(cmp: (T, T) -> int, s: seq<T>, c: int) {
    forall i, j :: 0 <= i < c <= j < |s| ==> cmp(s[i], s[j]) <= 0
  }

  /** t is s with the elements of [lo, hi) rearranged. */
  ghost predicate Rearranged<T>(s: seq<T>, t: seq<T>, lo: int, hi: int) {
    && 0 <= lo <= hi <= |s| == |t|
    && (forall k :: 0 <= k < lo || hi <= k < |s| ==> t[k] == s[k])
    && multiset(s[lo..hi]) == multiset(t[lo..hi])
  }

  function Swapped<T>(s: seq<T>, i: int, j: int): (r: seq<T>)
    requires 0 <= i < |s| && 0 <= j < |s|
    ensures |r| == |s| && r[i] == s[j] && r[j] == s[i]
    ensures forall k :: 0 <= k < |s| && k != i && k != j ==> r[k] == s[k]
  {
    s[i := s[j]][j := s[i]]
  }

  lemma {:induction false} SwapRearranges<T>(s: seq<T>, i: int, j: int, lo: int, hi: int)
    requires 0 <= lo <= i < hi <= |s| && lo <= j < hi
    ensures Rearranged(s, Swapped(s, i, j), lo, hi)
  {
    var u, v := s[lo..hi], Swapped(s, i, j)[lo..hi];
    assert v == u[i - lo := u[j - lo]][j - lo := u[i - lo]];
  }

  lemma {:induction false} RearrangedSelf<T>(s: seq<T>, lo: int, hi: int)
    requires 0 <= lo <= hi <= |s|
    ensures Rearranged(s, s, lo, hi)
  {
  }

  lemma {:induction false} RearrangedTrans<T>(s: seq<T>, t: seq<T>, u: seq<T>, lo: int, hi: int)
    requires Rearranged(s, t, lo, hi) && Rearranged(t, u, lo, hi)
    ensures Rearranged(s, u, lo, hi)
  {
  }

  /** Rearranging a part rearranges the whole. */
  lemma {:induction false} RearrangedWider<T>(s: seq<T>, t: seq<T>, lo: int, hi: int, lo1: int, hi1: int)
    requires Rearranged(s, t, lo, hi) && 0 <= lo1 <= lo && hi <= hi1 <= |s|
    ensures Rearranged(s, t, lo1, hi1)
  {
    assert s[lo1..hi1] == s[lo1..lo] + s[lo..hi] + s[hi..hi1];
    assert t[lo1..hi1] == t[lo1..lo] + t[lo..hi] + t[hi..hi1];
    assert s[lo1..lo] == t[lo1..lo] && s[hi..hi1] == t[hi..hi1];
  }

  /** Where an element of the rearranged stretch came from. */
  lemma {:induction false} Origin<T>(s: seq<T>, t: seq<T>, lo: int, hi: int, k: int) returns (k0: int)
    requires Rearranged(s, t, lo, hi) && 0 <= k < |s|
    ensures 0 <= k0 < |s| && s[k0] == t[k]
    ensures lo <= k < hi <==> lo <= k0 < hi
    ensures !(lo <= k < hi) ==> k0 == k
  {
    if lo <= k < hi {
      assert t[k] == t[lo..hi][k - lo] && t[k] in multiset(t[lo..hi]);
      assert t[k] in s[lo..hi];
      var i :| 0 <= i < hi - lo && s[lo..hi][i] == t[k];
      k0 := lo + i;
    } else {
      k0 := k;
    }
  }

  /** Cuts outside a stretch survive its rearrangement. */
  lemma {:induction false} CutRearranged<T>(cmp: (T, T) -> int, s: seq<T>, t: seq<T>, lo: int, hi: int, c: int)
    requires Cut(cmp, s, c) && Rearranged(s, t, lo, hi) && (c <= lo || hi <= c)
    ensures Cut(cmp, t, c)
  {
    forall i, j | 0 <= i < c <= j < |t| ensures cmp(t[i], t[j]) <= 0 {
      var i0 := Origin(s, t, lo, hi, i);
      var j0 := Origin(s, t, lo, hi, j);
    }
  }

  /** A sorted stretch between two cuts is cut everywhere. */
  lemma {:induction false} CutSorted<T>(cmp: (T, T) -> int, s: seq<T>, lo: int, hi: int, c: int)
    requires 0 <= lo <= c <= hi <= |s| && Cut(cmp, s, lo) && Cut(cmp, s, hi)
    requires forall i, j :: lo <= i < j < hi ==> cmp(s[i], s[j]) <= 0
    ensures Cut(cmp, s, c)
  {
  }

  lemma {:induction false} CutsSort<T>(cmp: (T, T) -> int, s: seq<T>)
    requires forall c :: 0 <= c <= |s| ==> Cut(cmp, s, c)
    ensures Sorted(cmp, s)
  {
    forall i, j | 0 <= i < j < |s| ensures cmp(s[i], s[j]) <= 0 {
      assert Cut(cmp, s, j);
    }
  }

  /** Swapping two elements of a stretch, seen from the stretch. */
  lemma {:induction false} SwapInside<T>(s: seq<T>, lo: int, hi: int, i: int, j: int)
    requires 0 <= lo <= hi <= |s| && 0 <= i < hi - lo && 0 <= j < hi - lo
    ensures Swapped(s, lo + i, lo + j)[lo..hi] == Swapped(s[lo..hi], i, j)
    ensures Rearranged(s, Swapped(s, lo + i, lo + j), lo, hi)
  {
    SwapRearranges(s, lo + i, lo + j, lo, hi);
  }
}
