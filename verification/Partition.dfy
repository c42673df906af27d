/** The four-region partition of rqsort: elements equal to the pivot gather at both ends, and are then
    swapped into the middle. */
module Partition {
  import opened Ordering
  import opened HeapSort

  /** x compared equal to the pivot v, or is the pivot. */
  predicate Same<T(==)>(cmp: (T, T) -> int, v: T, x: T) {
    x == v || cmp(v, x) == 0
  }

  /** While the stretch is scanned: equal, smaller, not yet seen, greater, equal. */
  ghost predicate Regions<T>(cmp: (T, T) -> int, u: seq<T>, v: T, lt: int, i: int, j: int, gt: int) {
    && 1 <= lt <= i <= j <= gt <= |u| && u[0] == v
    && (forall k :: 0 <= k < lt || gt <= k < |u| ==> Same(cmp, v, u[k]))
    && (forall k :: lt <= k < i ==> cmp(v, u[k]) > 0)
    && (forall k :: j <= k < gt ==> cmp(v, u[k]) < 0)
  }

  /** In the end: smaller, equal, greater. */
  ghost predicate Parted<T>(cmp: (T, T) -> int, u: seq<T>, v: T, lt: int, gt: int) {
    && 0 <= lt < gt <= |u|
    && (forall k :: 0 <= k < lt ==> cmp(v, u[k]) > 0)
    && (forall k :: lt <= k < gt ==> Same(cmp, v, u[k]))
    && (forall k :: gt <= k < |u| ==> cmp(v, u[k]) < 0)
  }

  /** The blocks of length len at x and at y exchanged. */
  function Exchanged<T>(u: seq<T>, x: int, y: int, len: int): (r: seq<T>)
    requires 0 <= len && 0 <= x && x + len <= y && y + len <= |u|
    ensures |r| == |u|
  {
    seq(|u|, k requires 0 <= k < |u| => u[Source(x, y, len, k)])
  }

  /** Where the element at k comes from. */
  function Source(x: int, y: int, len: int, k: int): (r: int) {
    if x <= k < x + len then k - x + y else if y <= k < y + len then k - y + x else k
  }

  lemma {:induction false} ExchangedAt<T>(u: seq<T>, x: int, y: int, len: int, k: int)
    requires 0 <= len && 0 <= x && x + len <= y && y + len <= |u| && 0 <= k < |u|
    ensures 0 <= Source(x, y, len, k) < |u| && Exchanged(u, x, y, len)[k] == u[Source(x, y, len, k)]
  {
  }

  lemma {:induction false} ExchangedNone<T>(u: seq<T>, x: int, y: int)
    requires 0 <= x <= y <= |u|
    ensures Exchanged(u, x, y, 0) == u
  {
  }

  lemma {:induction false} ExchangedNext<T>(u: seq<T>, x: int, y: int, len: int)
    requires 0 <= len && 0 <= x && x + len + 1 <= y && y + len + 1 <= |u|
    ensures Swapped(Exchanged(u, x, y, len), x + len, y + len) == Exchanged(u, x, y, len + 1)
  {
  }

  /** swap_block: it exchanges one element after the other. */
  method SwapBlock<T>(a: array<T>, ptr: int, ghost top: int, x: int, y: int, len: int)
    requires 0 <= ptr <= top <= a.Length && 0 <= len && 0 <= x && x + len <= y && y + len <= top - ptr
    modifies a
    ensures a[ptr..top] == Exchanged(old(a[ptr..top]), x, y, len)
    ensures Rearranged(old(a[..]), a[..], ptr, top)
  {
    hide Rearranged, Exchanged, Swapped;
    ghost var u := a[ptr..top];
    RearrangedSelf(a[..], ptr, top);
    ExchangedNone(u, x, y);
    for k := 0 to len
      invariant a[ptr..top] == Exchanged(u, x, y, k)
      invariant Rearranged(old(a[..]), a[..], ptr, top)
    {
      ghost var s := a[..];
      SwapAt(a, ptr, top, top - ptr, x + k, y + k);
      ExchangedNext(u, x, y, k);
      assert ptr + (top - ptr) == top;
      RearrangedTrans(old(a[..]), s, a[..], ptr, top);
    }
  }

  lemma {:induction false} EqualBelow<T>(cmp: (T, T) -> int, u: seq<T>, v: T, lt: int, i: int, j: int, gt: int)
    requires Regions(cmp, u, v, lt, i, j, gt) && i < j && cmp(v, u[i]) == 0
    ensures Regions(cmp, Swapped(u, lt, i), v, lt + 1, i + 1, j, gt)
  {
  }

  lemma {:induction false} EqualAbove<T>(cmp: (T, T) -> int, u: seq<T>, v: T, lt: int, i: int, j: int, gt: int)
    requires Regions(cmp, u, v, lt, i, j + 1, gt) && i < j && cmp(v, u[j]) == 0
    ensures Regions(cmp, Swapped(u, gt - 1, j), v, lt, i, j, gt - 1)
    ensures Swapped(u, gt - 1, j)[i] == u[i]
  {
  }

  lemma {:induction false} Misplaced<T>(cmp: (T, T) -> int, u: seq<T>, v: T, lt: int, i: int, j: int, gt: int)
    requires Regions(cmp, u, v, lt, i, j + 1, gt) && i < j && cmp(v, u[i]) < 0 && cmp(v, u[j]) > 0
    ensures Regions(cmp, Swapped(u, i, j), v, lt, i + 1, j, gt)
  {
  }

  lemma {:induction false} SmallerBelow<T>(cmp: (T, T) -> int, u: seq<T>, v: T, lt: int, i: int, j: int, gt: int)
    requires Regions(cmp, u, v, lt, i, j, gt) && i < j && cmp(v, u[i]) > 0
    ensures Regions(cmp, u, v, lt, i + 1, j, gt)
  {
  }

  lemma {:induction false} GreaterAbove<T>(cmp: (T, T) -> int, u: seq<T>, v: T, lt: int, i: int, j: int, gt: int)
    requires Regions(cmp, u, v, lt, i, j + 1, gt) && i <= j && cmp(v, u[j]) < 0
    ensures Regions(cmp, u, v, lt, i, j, gt)
  {
  }

  lemma {:induction false} RegionsIn<T>(cmp: (T, T) -> int, u: seq<T>, v: T, lt: int, i: int, j: int, gt: int)
    requires Regions(cmp, u, v, lt, i, j, gt)
    ensures 1 <= lt <= i <= j <= gt <= |u| && u[0] == v
  {
  }

  /** The first inner loop: up to an element greater than the pivot. */
  method ScanUp<T>(a: array<T>, ptr: int, ghost top: int, lt: int, i: int, j: int, ghost gt: int, cmp: (T, T) -> int,
      ghost v: T)
    returns (lt1: int, i1: int)
    requires 0 <= ptr <= top <= a.Length && Regions(cmp, a[ptr..top], v, lt, i, j, gt)
    modifies a
    ensures Rearranged(old(a[..]), a[..], ptr, top)
    ensures Regions(cmp, a[ptr..top], v, lt1, i1, j, gt) && i <= i1 <= j <= top - ptr
    ensures i1 < j ==> cmp(v, a[ptr..top][i1]) < 0
  {
    hide Rearranged, Swapped, Regions;
    RegionsIn(cmp, a[ptr..top], v, lt, i, j, gt);
    RearrangedSelf(a[..], ptr, top);
    lt1, i1 := lt, i;
    while i1 < j
      invariant i <= i1 <= j <= top - ptr && Regions(cmp, a[ptr..top], v, lt1, i1, j, gt)
      invariant Rearranged(old(a[..]), a[..], ptr, top)
    {
      ghost var s, u := a[..], a[ptr..top];
      RegionsIn(cmp, u, v, lt1, i1, j, gt);
      assert u[0] == a[ptr] && u[i1] == a[ptr + i1];
      var c := cmp(a[ptr], a[ptr + i1]);
      if c < 0 {
        return;
      }
      if c == 0 {
        EqualBelow(cmp, u, v, lt1, i1, j, gt);
        SwapAt(a, ptr, top, top - ptr, lt1, i1);
        assert ptr + (top - ptr) == top;
        RearrangedTrans(old(a[..]), s, a[..], ptr, top);
        lt1 := lt1 + 1;
      } else {
        SmallerBelow(cmp, u, v, lt1, i1, j, gt);
      }
      i1 := i1 + 1;
    }
  }

  /** The second inner loop: down to an element smaller than the pivot. The index is lowered before every test,
      so it may end one below i. */
  method ScanDown<T>(a: array<T>, ptr: int, ghost top: int, ghost lt: int, i: int, j: int, gt: int, cmp: (T, T) -> int,
      ghost v: T)
    returns (j1: int, gt1: int)
    requires 0 <= ptr <= top <= a.Length && Regions(cmp, a[ptr..top], v, lt, i, j, gt)
    requires i < j ==> cmp(v, a[ptr..top][i]) < 0
    modifies a
    ensures Rearranged(old(a[..]), a[..], ptr, top)
    ensures i - 1 <= j1 < j && Regions(cmp, a[ptr..top], v, lt, i, j1 + 1, gt1)
    ensures i <= j1 ==> cmp(v, a[ptr..top][i]) < 0
    ensures i < j1 ==> cmp(v, a[ptr..top][j1]) > 0
  {
    hide Rearranged, Swapped, Regions;
    RegionsIn(cmp, a[ptr..top], v, lt, i, j, gt);
    RearrangedSelf(a[..], ptr, top);
    j1, gt1 := j - 1, gt;
    while i < j1
      invariant 0 < i && i - 1 <= j1 < j <= top - ptr && Regions(cmp, a[ptr..top], v, lt, i, j1 + 1, gt1)
      invariant i <= j1 ==> cmp(v, a[ptr..top][i]) < 0
      invariant Rearranged(old(a[..]), a[..], ptr, top)
    {
      ghost var s, u := a[..], a[ptr..top];
      RegionsIn(cmp, u, v, lt, i, j1 + 1, gt1);
      assert u[0] == a[ptr] && u[j1] == a[ptr + j1];
      var c := cmp(a[ptr], a[ptr + j1]);
      if c > 0 {
        return;
      }
      if c == 0 {
        EqualAbove(cmp, u, v, lt, i, j1, gt1);
        gt1 := gt1 - 1;
        SwapAt(a, ptr, top, top - ptr, gt1, j1);
        assert ptr + (top - ptr) == top;
        RearrangedTrans(old(a[..]), s, a[..], ptr, top);
      } else {
        GreaterAbove(cmp, u, v, lt, i, j1, gt1);
      }
      j1 := j1 - 1;
    }
  }

  /** The partition loop: in the end nothing is left between i and j. */
  method Scan<T>(a: array<T>, ptr: int, top: int, cmp: (T, T) -> int, ghost v: T) returns (lt: int, i: int, gt: int)
    requires 0 <= ptr < top <= a.Length && v == a[ptr]
    modifies a
    ensures Rearranged(old(a[..]), a[..], ptr, top)
    ensures Regions(cmp, a[ptr..top], v, lt, i, i, gt)
  {
    hide Rearranged, Swapped;
    RearrangedSelf(a[..], ptr, top);
    lt, i, gt := 1, 1, top - ptr;
    var j := top - ptr;
    while true
      invariant Regions(cmp, a[ptr..top], v, lt, i, j, gt)
      invariant Rearranged(old(a[..]), a[..], ptr, top)
      decreases j - i
    {
      ghost var s := a[..];
      lt, i := ScanUp(a, ptr, top, lt, i, j, gt, cmp, v);
      RearrangedTrans(old(a[..]), s, a[..], ptr, top);
      s := a[..];
      j, gt := ScanDown(a, ptr, top, lt, i, j, gt, cmp, v);
      RearrangedTrans(old(a[..]), s, a[..], ptr, top);
      if i >= j {
        return;
      }
      s := a[..];
      Misplaced(cmp, a[ptr..top], v, lt, i, j, gt);
      SwapAt(a, ptr, top, top - ptr, i, j);
      assert ptr + (top - ptr) == top;
      RearrangedTrans(old(a[..]), s, a[..], ptr, top);
      i := i + 1;
    }
  }

  function Min(x: int, y: int): (r: int) {
    if x > y then y else x
  }

  /** Between the swaps the equal elements of the front have been moved. */
  ghost predicate Between<T>(cmp: (T, T) -> int, w: seq<T>, v: T, lt: int, i: int, gt: int) {
    && 0 <= lt < i <= gt <= |w|
    && (forall k :: 0 <= k < lt ==> cmp(v, w[k]) > 0)
    && (forall k :: lt <= k < i || gt <= k < |w| ==> Same(cmp, v, w[k]))
    && (forall k :: i <= k < gt ==> cmp(v, w[k]) < 0)
  }

  lemma {:induction false} FirstSwap<T>(cmp: (T, T) -> int, u: seq<T>, v: T, lt: int, i: int, gt: int)
    requires Regions(cmp, u, v, lt, i, i, gt)
    ensures var span := Min(lt, i - lt); Between(cmp, Exchanged(u, 0, i - span, span), v, i - lt, i, gt)
  {
    var span := Min(lt, i - lt);
    var w := Exchanged(u, 0, i - span, span);
    hide Exchanged;
    forall k | 0 <= k < i - lt ensures cmp(v, w[k]) > 0 {
      ExchangedAt(u, 0, i - span, span, k);
      assert lt <= Source(0, i - span, span, k) < i;
    }
    forall k | i - lt <= k < i || gt <= k < |w| ensures Same(cmp, v, w[k]) {
      ExchangedAt(u, 0, i - span, span, k);
      var k0 := Source(0, i - span, span, k);
      assert 0 <= k0 < lt || gt <= k0;
    }
    forall k | i <= k < gt ensures cmp(v, w[k]) < 0 {
      ExchangedAt(u, 0, i - span, span, k);
    }
  }

  /** Both block swaps together move the equal elements into the middle. */
  lemma {:induction false} SwapsPart<T>(cmp: (T, T) -> int, u: seq<T>, v: T, lt: int, i: int, gt: int)
    requires Regions(cmp, u, v, lt, i, i, gt)
    ensures var n := |u|;
      var span, span2 := Min(lt, i - lt), Min(n - gt, gt - i);
      Parted(cmp, Exchanged(Exchanged(u, 0, i - span, span), i, n - span2, span2), v, i - lt, n - (gt - i))
  {
    hide Exchanged;
    var span := Min(lt, i - lt);
    FirstSwap(cmp, u, v, lt, i, gt);
    SecondSwap(cmp, Exchanged(u, 0, i - span, span), v, i - lt, i, gt);
  }

  lemma {:induction false} SecondSwap<T>(cmp: (T, T) -> int, w: seq<T>, v: T, lt: int, i: int, gt: int)
    requires Between(cmp, w, v, lt, i, gt)
    ensures var span := Min(|w| - gt, gt - i);
      Parted(cmp, Exchanged(w, i, |w| - span, span), v, lt, |w| - (gt - i))
  {
    var n := |w|;
    var span := Min(n - gt, gt - i);
    var u := Exchanged(w, i, n - span, span);
    hide Exchanged;
    forall k | 0 <= k < lt ensures cmp(v, u[k]) > 0 {
      ExchangedAt(w, i, n - span, span, k);
    }
    forall k | lt <= k < n - (gt - i) ensures Same(cmp, v, u[k]) {
      ExchangedAt(w, i, n - span, span, k);
      var k0 := Source(i, n - span, span, k);
      assert lt <= k0 < i || gt <= k0;
    }
    forall k | n - (gt - i) <= k < n ensures cmp(v, u[k]) < 0 {
      ExchangedAt(w, i, n - span, span, k);
      assert i <= Source(i, n - span, span, k) < gt;
    }
  }

  /** med3 */
  method Med3<T(!new)>(x: array<T>, a: int, b: int, c: int, cmp: (T, T) -> int) returns (m: int)
    requires 0 <= a < x.Length && 0 <= b < x.Length && 0 <= c < x.Length
    ensures m == a || m == b || m == c
    ensures TotalPreorder(cmp) ==> Median(cmp, x[m], x[a], x[b], x[c])
  {
    m := if cmp(x[a], x[b]) < 0 then
             (if cmp(x[b], x[c]) < 0 then b else if cmp(x[a], x[c]) < 0 then c else a)
           else
             (if cmp(x[b], x[c]) > 0 then b else if cmp(x[a], x[c]) < 0 then a else c);
    if TotalPreorder(cmp) {
      Total(cmp, x[a], x[b]);
      Total(cmp, x[b], x[c]);
      Total(cmp, x[a], x[c]);
    }
  }

  /** At least one of the other two is not greater than m, and at least one is not smaller. */
  predicate Median<T>(cmp: (T, T) -> int, m: T, a: T, b: T, c: T) {
    || (cmp(a, m) <= 0 && cmp(m, c) <= 0) || (cmp(c, m) <= 0 && cmp(m, a) <= 0)
    || (cmp(a, m) <= 0 && cmp(m, b) <= 0) || (cmp(b, m) <= 0 && cmp(m, a) <= 0)
    || (cmp(b, m) <= 0 && cmp(m, c) <= 0) || (cmp(c, m) <= 0 && cmp(m, b) <= 0)
  }

  /** One partition step, on a stretch of at least four elements. */
  method PartitionStep<T(!new)>(a: array<T>, ptr: int, nmemb: int, cmp: (T, T) -> int) returns (lt: int, gt: int,
      ghost v: T)
    requires 4 <= nmemb && 0 <= ptr && ptr + nmemb <= a.Length
    modifies a
    ensures Rearranged(old(a[..]), a[..], ptr, ptr + nmemb)
    ensures Parted(cmp, a[ptr..ptr + nmemb], v, lt, gt)
  {
    hide Rearranged, Swapped, Exchanged, Regions, Parted, Median, TotalPreorder;
    var top := ptr + nmemb;
    var m4 := nmemb / 4;
    var m := Med3(a, ptr + m4, ptr + 2 * m4, ptr + 3 * m4, cmp);
    SwapAt(a, ptr, top, nmemb, 0, m - ptr);
    v := a[ptr];
    ghost var s := a[..];
    var i;
    lt, i, gt := Scan(a, ptr, top, cmp, v);
    RearrangedTrans(old(a[..]), s, a[..], ptr, top);
    ghost var u := a[ptr..top];
    RegionBounds(cmp, u, v, lt, i, gt);
    SwapsPart(cmp, u, v, lt, i, gt);
    s := a[..];
    var span := Min(lt, i - lt);
    lt := i - lt;
    SwapBlock(a, ptr, top, 0, i - span, span);
    RearrangedTrans(old(a[..]), s, a[..], ptr, top);
    s := a[..];
    span := Min(nmemb - gt, gt - i);
    gt := nmemb - (gt - i);
    SwapBlock(a, ptr, top, i, nmemb - span, span);
    RearrangedTrans(old(a[..]), s, a[..], ptr, top);
  }

  lemma {:induction false} RegionBounds<T>(cmp: (T, T) -> int, u: seq<T>, v: T, lt: int, i: int, gt: int)
    requires Regions(cmp, u, v, lt, i, i, gt)
    ensures 1 <= lt <= i <= gt <= |u|
  {
  }
}
