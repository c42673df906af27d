/** The order lemmas of heapsortx, on the stretch it sorts. The children of k are 2k + 1 and 2k + 2. */
module Heaps {
  import opened Ordering

  function Parent(k: int): (r: int) {
    (k - 1) / 2
  }

  /** Among the first n elements, none of those from i on is smaller than its children. */
  ghost predicate Heap<T>(cmp: (T, T) -> int, u: seq<T>, i: int, n: int)
    requires n <= |u|
  {
    forall k :: 0 < k < n && 0 <= i <= Parent(k) ==> cmp(u[k], u[Parent(k)]) <= 0
  }

  /** A heap but for r, which is being sifted down: its children may be greater than it, but not greater
      than its parent. */
  ghost predicate HeapBut<T>(cmp: (T, T) -> int, u: seq<T>, i: int, n: int, r: int)
    requires n <= |u|
  {
    && (forall k :: 0 < k < n && 0 <= i <= Parent(k) && Parent(k) != r ==> cmp(u[k], u[Parent(k)]) <= 0)
    && (forall k :: 0 < k < n && Parent(k) == r && 0 < r < n && 0 <= i <= Parent(r) ==> cmp(u[k], u[Parent(r)]) <= 0)
  }

  /** c is the greater child of r. */
  ghost predicate GreatestChild<T>(cmp: (T, T) -> int, u: seq<T>, n: int, r: int, c: int)
    requires n <= |u|
  {
    0 <= r < c < n && Parent(c) == r && forall k :: 0 < k < n && Parent(k) == r ==> cmp(u[k], u[c]) <= 0
  }

  lemma {:induction false} GreaterChild<T(!new)>(cmp: (T, T) -> int, u: seq<T>, n: int, r: int, c: int)
    requires TotalPreorder(cmp) && 0 <= r && n <= |u| && 2 * r + 1 < n
    requires c == if 2 * r + 1 < n - 1 && cmp(u[2 * r + 1], u[2 * r + 2]) <= 0 then 2 * r + 2 else 2 * r + 1
    ensures GreatestChild(cmp, u, n, r, c)
  {
    forall k | 0 < k < n && Parent(k) == r ensures cmp(u[k], u[c]) <= 0 {
      assert k == 2 * r + 1 || k == 2 * r + 2;
      Total(cmp, u[k], u[c]);
      Total(cmp, u[c], u[k]);
    }
  }

  lemma {:induction false} SiftOne<T(!new)>(cmp: (T, T) -> int, u: seq<T>, i: int, n: int, r: int, c: int)
    requires TotalPreorder(cmp) && 0 <= i <= r < c < n <= |u|
    requires HeapBut(cmp, u, i, n, r) && GreatestChild(cmp, u, n, r, c) && cmp(u[r], u[c]) <= 0
    ensures HeapBut(cmp, Swapped(u, r, c), i, n, c)
  {
    var t := Swapped(u, r, c);
    forall k | 0 < k < n && 0 <= i <= Parent(k) && Parent(k) != c ensures cmp(t[k], t[Parent(k)]) <= 0 {
      if Parent(k) == r {
        if k == c {
          assert t[k] == u[r];
        } else {
          assert t[k] == u[k];
        }
      } else if k == r {
        assert cmp(u[c], u[Parent(r)]) <= 0;
      } else {
        assert t[k] == u[k] && t[Parent(k)] == u[Parent(k)];
      }
    }
    forall k | 0 < k < n && Parent(k) == c ensures cmp(t[k], t[Parent(c)]) <= 0 {
      assert cmp(u[k], u[Parent(k)]) <= 0;
    }
  }

  lemma {:induction false} SiftBottom<T(!new)>(cmp: (T, T) -> int, u: seq<T>, i: int, n: int, r: int)
    requires 0 <= i <= r < n <= |u| && HeapBut(cmp, u, i, n, r) && 2 * r + 1 >= n
    ensures Heap(cmp, u, i, n)
  {
  }

  lemma {:induction false} SiftEnds<T(!new)>(cmp: (T, T) -> int, u: seq<T>, i: int, n: int, r: int, c: int)
    requires TotalPreorder(cmp) && 0 <= i <= r < c < n <= |u| && HeapBut(cmp, u, i, n, r)
    requires GreatestChild(cmp, u, n, r, c) && cmp(u[r], u[c]) > 0
    ensures Heap(cmp, u, i, n)
  {
    Total(cmp, u[r], u[c]);
    forall k | 0 < k < n && Parent(k) == r ensures cmp(u[k], u[r]) <= 0 {
      Trans(cmp, u[k], u[c], u[r]);
    }
  }

  /** The root of a heap is a greatest element. */
  lemma {:induction false} RootGreatest<T(!new)>(cmp: (T, T) -> int, u: seq<T>, n: int, k: int)
    requires TotalPreorder(cmp) && 0 <= k < n <= |u| && Heap(cmp, u, 0, n)
    ensures cmp(u[k], u[0]) <= 0
    decreases k
  {
    if k == 0 {
      Total(cmp, u[0], u[0]);
    } else {
      RootGreatest(cmp, u, n, Parent(k));
      Trans(cmp, u[k], u[Parent(k)], u[0]);
    }
  }

  /** The part from i on is sorted, and nothing in it is smaller than anything before it. */
  ghost predicate SortedFrom<T>(cmp: (T, T) -> int, u: seq<T>, i: int) {
    forall j, k :: 0 <= j < k < |u| && i <= k ==> cmp(u[j], u[k]) <= 0
  }

  /** Taking the root of the heap to its end. */
  lemma {:induction false} RootTaken<T(!new)>(cmp: (T, T) -> int, u: seq<T>, i: int)
    requires TotalPreorder(cmp) && 0 < i < |u| && Heap(cmp, u, 0, i + 1) && SortedFrom(cmp, u, i + 1)
    ensures HeapBut(cmp, Swapped(u, 0, i), 0, i, 0) && SortedFrom(cmp, Swapped(u, 0, i), i)
  {
    var t := Swapped(u, 0, i);
    forall j, k | 0 <= j < k < |t| && i <= k ensures cmp(t[j], t[k]) <= 0 {
      var j0 := if j == 0 then i else if j == i then 0 else j;
      assert t[j] == u[j0];
      if k == i {
        RootGreatest(cmp, u, i + 1, j0);
      }
    }
    forall k | 0 < k < i && Parent(k) != 0 ensures cmp(t[k], t[Parent(k)]) <= 0 {
      assert t[k] == u[k] && t[Parent(k)] == u[Parent(k)];
    }
  }

  lemma {:induction false} SortedFromKept<T(!new)>(cmp: (T, T) -> int, u: seq<T>, t: seq<T>, i: int)
    requires 0 <= i <= |u| && SortedFrom(cmp, u, i) && Rearranged(u, t, 0, i)
    ensures SortedFrom(cmp, t, i)
  {
    forall j, k | 0 <= j < k < |t| && i <= k ensures cmp(t[j], t[k]) <= 0 {
      var j0 := Origin(u, t, 0, i, j);
    }
  }
}

/** heapsortx: the fallback of rqsort. */
module HeapSort {
  import opened Ordering
  import opened Heaps

  method Swap<T>(a: array<T>, i: int, j: int)
    requires 0 <= i < a.Length && 0 <= j < a.Length
    modifies a
    ensures a[..] == Swapped(old(a[..]), i, j)
  {
    a[i], a[j] := a[j], a[i];
  }

  /** A swap inside the stretch that starts at base. */
  method SwapAt<T>(a: array<T>, base: int, ghost top: int, ghost n: int, i: int, j: int)
    requires 0 <= base <= top <= a.Length && 0 <= i < n && 0 <= j < n <= top - base
    modifies a
    ensures a[base..top] == Swapped(old(a[base..top]), i, j)
    ensures Rearranged(old(a[..]), a[..], base, base + n)
  {
    hide Swapped, Rearranged;
    ghost var s := a[..];
    assert a[base..top] == s[base..top];
    SwapInside(s, base, top, i, j);
    SwapRearranges(s, base + i, base + j, base, base + n);
    Swap(a, base + i, base + j);
    assert a[base..top] == a[..][base..top];
  }

  /** The greater child of r, and whether r may stay above it. */
  method Choose<T(!new)>(a: array<T>, base: int, ghost top: int, i: int, n: int, r: int, cmp: (T, T) -> int)
    returns (c: int, stays: bool)
    requires 0 <= base <= top <= a.Length && 0 <= i <= r && 2 * r + 1 < n <= top - base
    requires TotalPreorder(cmp) ==> HeapBut(cmp, a[base..top], i, n, r)
    ensures r < c < n
    ensures TotalPreorder(cmp) && stays ==> Heap(cmp, a[base..top], i, n)
    ensures TotalPreorder(cmp) && !stays ==> HeapBut(cmp, Swapped(a[base..top], r, c), i, n, c)
  {
    hide TotalPreorder, Heap, HeapBut, GreatestChild, Swapped;
    ghost var u := a[base..top];
    c := 2 * r + 1;
    if c < n - 1 && cmp(a[base + c], a[base + c + 1]) <= 0 {
      c := c + 1;
    }
    stays := cmp(a[base + r], a[base + c]) > 0;
    if TotalPreorder(cmp) {
      GreaterChild(cmp, u, n, r, c);
      if stays {
        SiftEnds(cmp, u, i, n, r, c);
      } else {
        SiftOne(cmp, u, i, n, r, c);
      }
    }
  }

  /** The loop that sifts the element at i down, among the first n elements from base. */
  method SiftDown<T(!new)>(a: array<T>, base: int, ghost top: int, i: int, n: int, cmp: (T, T) -> int)
    requires 0 <= base <= top <= a.Length && 0 <= i < n <= top - base
    requires TotalPreorder(cmp) ==> HeapBut(cmp, a[base..top], i, n, i)
    modifies a
    ensures Rearranged(old(a[..]), a[..], base, base + n)
    ensures TotalPreorder(cmp) ==> Heap(cmp, a[base..top], i, n)
  {
    hide TotalPreorder, Heap, HeapBut, Rearranged, Swapped;
    var r := i;
    RearrangedSelf(a[..], base, base + n);
    while 2 * r + 1 < n
      invariant i <= r < n
      invariant Rearranged(old(a[..]), a[..], base, base + n)
      invariant TotalPreorder(cmp) ==> HeapBut(cmp, a[base..top], i, n, r)
      decreases n - r
    {
      var c, stays := Choose(a, base, top, i, n, r, cmp);
      if stays {
        return;
      }
      ghost var s := a[..];
      SwapAt(a, base, top, n, r, c);
      RearrangedTrans(old(a[..]), s, a[..], base, base + n);
      r := c;
    }
    if TotalPreorder(cmp) {
      SiftBottom(cmp, a[base..top], i, n, r);
    }
  }

  /** The first loop: the heap is built from its last parent down. */
  method BuildHeap<T(!new)>(a: array<T>, base: int, ghost top: int, nmemb: int, cmp: (T, T) -> int)
    requires 0 <= base && 1 < nmemb == top - base && top <= a.Length
    modifies a
    ensures Rearranged(old(a[..]), a[..], base, top)
    ensures TotalPreorder(cmp) ==> Heap(cmp, a[base..top], 0, nmemb)
  {
    hide TotalPreorder, Rearranged, HeapBut;
    RearrangedSelf(a[..], base, top);
    var i := nmemb / 2;
    while i > 0
      invariant 0 <= i <= nmemb / 2
      invariant Rearranged(old(a[..]), a[..], base, top)
      invariant TotalPreorder(cmp) ==> Heap(cmp, a[base..top], i, nmemb)
    {
      i := i - 1;
      ghost var s := a[..];
      if TotalPreorder(cmp) {
        HeapGrows(cmp, a[base..top], i, nmemb);
      }
      SiftDown(a, base, top, i, nmemb, cmp);
      RearrangedTrans(old(a[..]), s, a[..], base, top);
    }
  }

  /** One round of the second loop: the root goes to place i, and its replacement is sifted down. */
  method TakeRoot<T(!new)>(a: array<T>, base: int, ghost top: int, i: int, cmp: (T, T) -> int)
    requires 0 <= base && 0 < i < top - base && top <= a.Length
    requires TotalPreorder(cmp) ==> Heap(cmp, a[base..top], 0, i + 1) && SortedFrom(cmp, a[base..top], i + 1)
    modifies a
    ensures Rearranged(old(a[..]), a[..], base, top)
    ensures TotalPreorder(cmp) ==> Heap(cmp, a[base..top], 0, i) && SortedFrom(cmp, a[base..top], i)
  {
    hide TotalPreorder, Rearranged, Swapped, HeapBut, Heap, SortedFrom;
    ghost var s := a[..];
    if TotalPreorder(cmp) {
      RootTaken(cmp, a[base..top], i);
    }
    SwapAt(a, base, top, top - base, 0, i);
    ghost var t, v := a[..], a[base..top];
    assert v == t[base..top];
    SiftDown(a, base, top, 0, i, cmp);
    RearrangedPart(t, a[..], base, base + i, top);
    assert a[base..top] == a[..][base..top];
    if TotalPreorder(cmp) {
      SortedFromKept(cmp, v, a[base..top], i);
    }
    RearrangedTrans(s, t, a[..], base, top);
  }

  /** heapsortx: for any comparison the elements are only rearranged; for a total preorder they end up sorted. */
  method Sort<T(!new)>(a: array<T>, base: int, nmemb: int, cmp: (T, T) -> int)
    requires 0 <= base && 0 <= nmemb && base + nmemb <= a.Length
    modifies a
    ensures Rearranged(old(a[..]), a[..], base, base + nmemb)
    ensures TotalPreorder(cmp) ==> Sorted(cmp, a[base..base + nmemb])
  {
    hide TotalPreorder, Rearranged;
    ghost var top := base + nmemb;
    RearrangedSelf(a[..], base, top);
    if nmemb > 1 {
      BuildHeap(a, base, top, nmemb, cmp);
      var i := nmemb - 1;
      while i > 0
        invariant 0 <= i < nmemb
        invariant Rearranged(old(a[..]), a[..], base, top)
        invariant TotalPreorder(cmp) ==> Heap(cmp, a[base..top], 0, i + 1) && SortedFrom(cmp, a[base..top], i + 1)
      {
        ghost var s := a[..];
        TakeRoot(a, base, top, i, cmp);
        RearrangedTrans(old(a[..]), s, a[..], base, top);
        i := i - 1;
      }
    }
  }

  lemma {:induction false} HeapGrows<T>(cmp: (T, T) -> int, u: seq<T>, i: int, n: int)
    requires 0 <= i && n <= |u| && Heap(cmp, u, i + 1, n)
    ensures HeapBut(cmp, u, i, n, i)
  {
  }

  lemma {:induction false} RearrangedPart<T>(s: seq<T>, t: seq<T>, base: int, mid: int, top: int)
    requires Rearranged(s, t, base, mid) && mid <= top <= |s|
    ensures Rearranged(s, t, base, top)
    ensures Rearranged(s[base..top], t[base..top], 0, mid - base)
  {
    RearrangedWider(s, t, base, mid, base, top);
    assert s[base..top][0..mid - base] == s[base..mid] && t[base..top][0..mid - base] == t[base..mid];
  }
}
