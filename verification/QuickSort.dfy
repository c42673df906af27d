/** rqsort: its explicit stack holds the stretches still to be sorted. */
module QuickSort {
  import opened Ordering
  import opened HeapSort
  import opened Partition

  /** A stretch that is still to be sorted, and how many partitions led to it. */
  datatype Entry = Entry(base: int, count: int, depth: int) {
    ghost predicate Inside(c: int) {
      base < c < base + count
    }

    ghost predicate Within(n: int) {
      0 <= base && 0 <= count && base + count <= n
    }

    ghost predicate Apart(e: Entry) {
      base + count <= e.base || e.base + e.count <= base
    }
  }

  /** No pending stretch reaches across c. */
  ghost predicate Free(pend: seq<Entry>, c: int) {
    forall k :: 0 <= k < |pend| ==> !pend[k].Inside(c)
  }

  /** The pending stretches do not overlap, and everything outside them is in order already. */
  ghost predicate Pending<T(!new)>(cmp: (T, T) -> int, s: seq<T>, pend: seq<Entry>) {
    && (forall k :: 0 <= k < |pend| ==> pend[k].Within(|s|))
    && (forall k, l :: 0 <= k < l < |pend| ==> pend[k].Apart(pend[l]))
    && (TotalPreorder(cmp) ==> forall c :: 0 <= c <= |s| && Free(pend, c) ==> Cut(cmp, s, c))
  }

  /** The total length of the pending stretches. */
  ghost function Total(pend: seq<Entry>): (r: int) {
    if pend == [] then 0 else Total(pend[..|pend| - 1]) + pend[|pend| - 1].count
  }

  lemma {:induction false} TotalPush(pend: seq<Entry>, e: Entry)
    ensures Total(pend + [e]) == Total(pend) + e.count
  {
    assert (pend + [e])[..|pend|] == pend;
  }

  lemma {:induction false} TotalNat(pend: seq<Entry>)
    requires forall k :: 0 <= k < |pend| ==> pend[k].count >= 0
    ensures Total(pend) >= 0
    decreases |pend|
  {
    if pend != [] {
      TotalNat(pend[..|pend| - 1]);
    }
  }

  lemma {:induction false} FreePush(pend: seq<Entry>, e: Entry, c: int)
    ensures Free(pend + [e], c) <==> Free(pend, c) && !e.Inside(c)
  {
    assert forall k :: 0 <= k < |pend| ==> (pend + [e])[k] == pend[k];
    assert (pend + [e])[|pend|] == e;
  }

  /** The ends of the newest stretch are not inside any other. */
  lemma {:induction false} EndsFree<T(!new)>(cmp: (T, T) -> int, s: seq<T>, pend: seq<Entry>, e: Entry)
    requires Pending(cmp, s, pend + [e])
    ensures e.Within(|s|) && Free(pend + [e], e.base) && Free(pend + [e], e.base + e.count)
    ensures forall k :: 0 <= k < |pend| ==> pend[k].Within(|s|) && pend[k].Apart(e)
    ensures forall k, l :: 0 <= k < l < |pend| ==> pend[k].Apart(pend[l])
  {
    var all := pend + [e];
    assert all[|pend|] == e;
    forall k | 0 <= k < |pend| ensures pend[k].Within(|s|) && pend[k].Apart(e) {
      assert all[k] == pend[k];
    }
    forall k, l | 0 <= k < l < |pend| ensures pend[k].Apart(pend[l]) {
      assert all[k] == pend[k] && all[l] == pend[l];
    }
    forall k | 0 <= k < |all| ensures !all[k].Inside(e.base) && !all[k].Inside(e.base + e.count) {
      if k < |pend| {
        assert all[k] == pend[k];
      }
    }
  }

  /** Cuts of a sequence whose newest pending stretch has been rearranged, away from that stretch. */
  lemma {:induction false} CutsAway<T(!new)>(cmp: (T, T) -> int, s: seq<T>, t: seq<T>, pend: seq<Entry>, e: Entry,
      c: int)
    requires Pending(cmp, s, pend + [e]) && Rearranged(s, t, e.base, e.base + e.count) && TotalPreorder(cmp)
    requires 0 <= c <= |s| && Free(pend, c) && !e.Inside(c)
    ensures Cut(cmp, t, c)
  {
    FreePush(pend, e, c);
    CutRearranged(cmp, s, t, e.base, e.base + e.count, c);
  }

  lemma {:induction false} EndCuts<T(!new)>(cmp: (T, T) -> int, s: seq<T>, t: seq<T>, pend: seq<Entry>, e: Entry)
    requires Pending(cmp, s, pend + [e]) && Rearranged(s, t, e.base, e.base + e.count) && TotalPreorder(cmp)
    ensures Cut(cmp, t, e.base) && Cut(cmp, t, e.base + e.count)
  {
    EndsFree(cmp, s, pend, e);
    FreePush(pend, e, e.base);
    FreePush(pend, e, e.base + e.count);
    CutsAway(cmp, s, t, pend, e, e.base);
    CutsAway(cmp, s, t, pend, e, e.base + e.count);
  }

  /** Inside a parted stretch there are cuts from lt to gt. */
  lemma {:induction false} PartedCut<T(!new)>(cmp: (T, T) -> int, t: seq<T>, lo: int, hi: int, v: T, lt: int, gt: int,
      c: int)
    requires TotalPreorder(cmp) && 0 <= lo <= hi <= |t| && Parted(cmp, t[lo..hi], v, lt, gt)
    requires Cut(cmp, t, lo) && Cut(cmp, t, hi) && lo + lt <= c <= lo + gt
    ensures Cut(cmp, t, c)
  {
    forall i, j | 0 <= i < c <= j < |t| ensures cmp(t[i], t[j]) <= 0 {
      if lo <= i && j < hi {
        var u := t[lo..hi];
        assert u[i - lo] == t[i] && u[j - lo] == t[j];
        Ordering.Total(cmp, v, t[i]);
        Ordering.Total(cmp, v, t[j]);
        Trans(cmp, t[i], v, t[j]);
      }
    }
  }

  /** The newest stretch has been parted: its two outer parts are pending instead. */
  lemma {:induction false} PendingParted<T(!new)>(cmp: (T, T) -> int, s: seq<T>, t: seq<T>, pend: seq<Entry>, e: Entry,
                                                  v: T, lt: int, gt: int, x: Entry, y: Entry)
    requires Pending(cmp, s, pend + [e]) && Rearranged(s, t, e.base, e.base + e.count)
    requires Parted(cmp, t[e.base..e.base + e.count], v, lt, gt)
    requires (x.base == e.base && x.count == lt && y.base == e.base + gt && y.count == e.count - gt)
          || (y.base == e.base && y.count == lt && x.base == e.base + gt && x.count == e.count - gt)
    ensures Pending(cmp, t, pend + [x] + [y])
  {
    var all := pend + [x] + [y];
    EndsFree(cmp, s, pend, e);
    assert x.Within(|t|) && y.Within(|t|) && x.Apart(y);
    forall k, l | 0 <= k < l < |all| ensures all[k].Apart(all[l]) {
      if k < |pend| {
        assert all[k] == pend[k] && pend[k].Apart(e);
      }
    }
    if TotalPreorder(cmp) {
      EndCuts(cmp, s, t, pend, e);
      forall c | 0 <= c <= |t| && Free(all, c) ensures Cut(cmp, t, c) {
        FreePush(pend + [x], y, c);
        FreePush(pend, x, c);
        if e.Inside(c) {
          PartedCut(cmp, t, e.base, e.base + e.count, v, lt, gt, c);
        } else {
          CutsAway(cmp, s, t, pend, e, c);
        }
      }
    }
  }

  /** The newest stretch has been sorted: what is left of it is as good as empty. */
  lemma {:induction false} PendingSorted<T(!new)>(cmp: (T, T) -> int, s: seq<T>, t: seq<T>, pend: seq<Entry>, e: Entry)
    requires Pending(cmp, s, pend + [e]) && Rearranged(s, t, e.base, e.base + e.count)
    requires TotalPreorder(cmp) ==> Sorted(cmp, t[e.base..e.base + e.count])
    ensures Pending(cmp, t, pend)
    ensures Pending(cmp, t, pend + [e.(count := 0)])
  {
    EndsFree(cmp, s, pend, e);
    var none := e.(count := 0);
    var all := pend + [none];
    forall k, l | 0 <= k < l < |all| ensures all[k].Apart(all[l]) {
      assert all[k] == pend[k] && pend[k].Apart(e);
    }
    if TotalPreorder(cmp) {
      EndCuts(cmp, s, t, pend, e);
      var lo, hi := e.base, e.base + e.count;
      forall i, j | lo <= i < j < hi ensures cmp(t[i], t[j]) <= 0 {
        assert t[lo..hi][i - lo] == t[i] && t[lo..hi][j - lo] == t[j];
      }
      forall c | 0 <= c <= |t| && Free(pend, c) ensures Cut(cmp, t, c) {
        if e.Inside(c) {
          CutSorted(cmp, t, lo, hi, c);
        } else {
          CutsAway(cmp, s, t, pend, e, c);
        }
      }
      forall c | 0 <= c <= |t| && Free(all, c) ensures Cut(cmp, t, c) {
        FreePush(pend, none, c);
      }
    }
  }

  /** While x sinks: the first i elements but the one at j are in order, and the one at j is not greater
      than those after it. */
  ghost predicate Sinking<T>(cmp: (T, T) -> int, u: seq<T>, i: int, j: int)
    requires i < |u|
  {
    && (forall k, l :: 0 <= k < l <= i && k != j && l != j ==> cmp(u[k], u[l]) <= 0)
    && (forall l :: 0 <= j < l <= i ==> cmp(u[j], u[l]) <= 0)
  }

  ghost predicate SortedTo<T>(cmp: (T, T) -> int, u: seq<T>, i: int)
    requires i <= |u|
  {
    forall k, l :: 0 <= k < l < i ==> cmp(u[k], u[l]) <= 0
  }

  lemma {:induction false} SinkOne<T(!new)>(cmp: (T, T) -> int, u: seq<T>, i: int, j: int)
    requires TotalPreorder(cmp) && 0 < j <= i < |u| && Sinking(cmp, u, i, j) && cmp(u[j - 1], u[j]) > 0
    ensures Sinking(cmp, Swapped(u, j, j - 1), i, j - 1)
  {
    var t := Swapped(u, j, j - 1);
    Ordering.Total(cmp, u[j - 1], u[j]);
    forall k, l | 0 <= k < l <= i && k != j - 1 && l != j - 1 ensures cmp(t[k], t[l]) <= 0 {
      var k0, l0 := if k == j then j - 1 else k, if l == j then j - 1 else l;
      assert t[k] == u[k0] && t[l] == u[l0];
    }
    forall l | j - 1 < l <= i ensures cmp(t[j - 1], t[l]) <= 0 {
      assert t[l] == if l == j then u[j - 1] else u[l];
    }
  }

  lemma {:induction false} SinkDone<T(!new)>(cmp: (T, T) -> int, u: seq<T>, i: int, j: int)
    requires TotalPreorder(cmp) && 0 <= j <= i < |u| && Sinking(cmp, u, i, j)
    requires j > 0 ==> cmp(u[j - 1], u[j]) <= 0
    ensures SortedTo(cmp, u, i + 1)
  {
    forall k, l | 0 <= k < l < i + 1 ensures cmp(u[k], u[l]) <= 0 {
      if l == j && k < j - 1 {
        Trans(cmp, u[k], u[j - 1], u[j]);
      }
    }
  }

  /** One exchange of the inner loop. */
  method SinkStep<T(!new)>(a: array<T>, ptr: int, ghost top: int, ghost i: int, j: int, ghost cmp: (T, T) -> int)
    requires 0 <= ptr && 0 < j <= i < top - ptr && top <= a.Length && cmp(a[ptr + j - 1], a[ptr + j]) > 0
    requires TotalPreorder(cmp) ==> Sinking(cmp, a[ptr..top], i, j)
    modifies a
    ensures TotalPreorder(cmp) ==> Sinking(cmp, a[ptr..top], i, j - 1)
    ensures Rearranged(old(a[..]), a[..], ptr, top)
  {
    hide Rearranged, Swapped, TotalPreorder, Sinking;
    ghost var u := a[ptr..top];
    assert u[j - 1] == a[ptr + j - 1] && u[j] == a[ptr + j];
    if TotalPreorder(cmp) {
      SinkOne(cmp, u, i, j);
    }
    SwapAt(a, ptr, top, top - ptr, j, j - 1);
    assert ptr + (top - ptr) == top;
  }

  /** The inner loop of the insertion sort. */
  method Sink<T(!new)>(a: array<T>, ptr: int, ghost top: int, i: int, cmp: (T, T) -> int)
    requires 0 <= ptr && 0 < i < top - ptr && top <= a.Length
    requires TotalPreorder(cmp) ==> SortedTo(cmp, a[ptr..top], i)
    modifies a
    ensures Rearranged(old(a[..]), a[..], ptr, top)
    ensures TotalPreorder(cmp) ==> SortedTo(cmp, a[ptr..top], i + 1)
  {
    hide Rearranged, Swapped, TotalPreorder;
    RearrangedSelf(a[..], ptr, top);
    var j := i;
    while j > 0
      invariant 0 <= j <= i
      invariant TotalPreorder(cmp) ==> Sinking(cmp, a[ptr..top], i, j)
      invariant Rearranged(old(a[..]), a[..], ptr, top)
    {
      hide Sinking, SortedTo;
      if cmp(a[ptr + j - 1], a[ptr + j]) <= 0 {
        break;
      }
      ghost var s := a[..];
      SinkStep(a, ptr, top, i, j, cmp);
      RearrangedTrans(old(a[..]), s, a[..], ptr, top);
      j := j - 1;
    }
    if TotalPreorder(cmp) {
      SinkDone(cmp, a[ptr..top], i, j);
    }
  }

  /** The insertion sort of small fragments. */
  method InsertionSort<T(!new)>(a: array<T>, ptr: int, nmemb: int, cmp: (T, T) -> int)
    requires 0 <= ptr && 0 <= nmemb && ptr + nmemb <= a.Length
    modifies a
    ensures Rearranged(old(a[..]), a[..], ptr, ptr + nmemb)
    ensures TotalPreorder(cmp) ==> Sorted(cmp, a[ptr..ptr + nmemb])
  {
    hide Rearranged, TotalPreorder;
    ghost var top := ptr + nmemb;
    RearrangedSelf(a[..], ptr, top);
    var i := 1;
    while i < nmemb
      invariant 1 <= i
      invariant TotalPreorder(cmp) ==> SortedTo(cmp, a[ptr..top], if i <= nmemb then i else nmemb)
      invariant Rearranged(old(a[..]), a[..], ptr, top)
    {
      ghost var s := a[..];
      Sink(a, ptr, top, i, cmp);
      RearrangedTrans(old(a[..]), s, a[..], ptr, top);
      i := i + 1;
    }
  }

  const STACK_SIZE := 50

  /** The entry in place k has seen at least k partitions: this is what bounds the stack. */
  ghost predicate Deep(stack: seq<Entry>, sp: int) {
    && 0 <= sp <= |stack| == STACK_SIZE
    && forall k :: 0 <= k < sp ==> k <= stack[k].depth
  }

  lemma {:induction false} DeepPush(stack: seq<Entry>, sp: int, e: Entry)
    requires Deep(stack, sp) && sp < e.depth <= STACK_SIZE
    ensures sp < |stack| && Deep(stack[sp := e], sp + 1) && stack[sp := e][..sp + 1] == stack[..sp] + [e]
  {
  }

  /** The work left is what is on the stack and in the current stretch. */
  ghost function Work(stack: seq<Entry>, sp: int, nmemb: int): (r: int)
    requires 0 <= sp <= |stack|
  {
    Total(stack[..sp]) + nmemb
  }

  /** One round of the inner loop after a partition: the larger part is pushed, the smaller one goes on. */
  method PushLarger(stack: array<Entry>, sp: int, ptr: int, nmemb: int, depth: int, lt: int, gt: int)
    returns (sp1: int, ptr1: int, nmemb1: int)
    requires 0 <= sp < depth <= STACK_SIZE == stack.Length && Deep(stack[..], sp) && 0 <= lt < gt <= nmemb
    modifies stack
    ensures 0 <= sp1 <= STACK_SIZE && Deep(stack[..], sp1) && sp1 <= depth && 0 <= nmemb1 < nmemb
    ensures Work(stack[..], sp1, nmemb1) < Work(old(stack[..]), sp, nmemb)
    ensures exists x: Entry ::
      && stack[..sp1] == old(stack[..sp]) + [x]
      && ((x.base == ptr && x.count == lt && ptr1 == ptr + gt && nmemb1 == nmemb - gt)
          || (ptr1 == ptr && nmemb1 == lt && x.base == ptr + gt && x.count == nmemb - gt))
  {
    hide Deep, Total;
    ghost var x := if lt > nmemb - gt then Entry(ptr, lt, depth) else Entry(ptr + gt, nmemb - gt, depth);
    DeepPush(stack[..], sp, x);
    TotalPush(stack[..sp], x);
    assert stack[..][..sp] == stack[..sp];
    if lt > nmemb - gt {
      stack[sp] := Entry(ptr, lt, depth);
      ptr1, nmemb1 := ptr + gt, nmemb - gt;
    } else {
      stack[sp] := Entry(ptr + gt, nmemb - gt, depth);
      ptr1, nmemb1 := ptr, lt;
    }
    sp1 := sp + 1;
    assert stack[..] == old(stack[..])[sp := x];
    assert stack[..sp1] == stack[..][..sp1];
  }

  /** The inner loop: large stretches are parted, until what is left is small, or is handed to heapsortx because
      the depth has been used up. */
  method Narrow<T(!new)>(a: array<T>, stack: array<Entry>, sp0: int, ptr0: int, nmemb0: int, depth0: int, cmp: (T,
      T) -> int)
    returns (sp: int, ptr: int, nmemb: int)
    requires (a as object) != stack
    requires 0 <= sp0 <= STACK_SIZE == stack.Length && Deep(stack[..], sp0) && sp0 <= depth0 && nmemb0 >= 0
    requires Pending(cmp, a[..], stack[..sp0] + [Entry(ptr0, nmemb0, depth0)])
    modifies a, stack
    ensures 0 <= sp <= STACK_SIZE && Deep(stack[..], sp) && 0 <= nmemb <= 6
    ensures Pending(cmp, a[..], stack[..sp] + [Entry(ptr, nmemb, depth0)])
    ensures Rearranged(old(a[..]), a[..], 0, a.Length)
    ensures Work(stack[..], sp, nmemb) < Work(old(stack[..]), sp0, nmemb0)
         || (sp == sp0 && Work(stack[..], sp, nmemb) <= Work(old(stack[..]), sp0, nmemb0))
  {
    hide Deep, Work, Pending, Rearranged;
    RearrangedSelf(a[..], 0, a.Length);
    sp, ptr, nmemb := sp0, ptr0, nmemb0;
    var depth := depth0;
    while nmemb > 6
      invariant 0 <= sp <= STACK_SIZE && Deep(stack[..], sp) && sp <= depth && nmemb >= 0
      invariant Pending(cmp, a[..], stack[..sp] + [Entry(ptr, nmemb, depth0)])
      invariant Rearranged(old(a[..]), a[..], 0, a.Length)
      invariant Work(stack[..], sp, nmemb) < Work(old(stack[..]), sp0, nmemb0)
             || (sp == sp0 && Work(stack[..], sp, nmemb) <= Work(old(stack[..]), sp0, nmemb0))
      decreases nmemb
    {
      ghost var s, pend, e := a[..], stack[..sp], Entry(ptr, nmemb, depth0);
      EndsFree(cmp, s, pend, e);
      depth := depth + 1;
      if depth > STACK_SIZE {
        HeapSort.Sort(a, ptr, nmemb, cmp);
        PendingSorted(cmp, s, a[..], pend, e);
        RearrangedWider(s, a[..], ptr, ptr + nmemb, 0, a.Length);
        RearrangedTrans(old(a[..]), s, a[..], 0, a.Length);
        WorkLess(stack[..], sp, nmemb);
        nmemb := 0;
        break;
      }
      var lt, gt;
      ghost var v;
      lt, gt, v := PartitionStep(a, ptr, nmemb, cmp);
      PartedBounds(cmp, a[ptr..ptr + nmemb], v, lt, gt);
      RearrangedWider(s, a[..], ptr, ptr + nmemb, 0, a.Length);
      RearrangedTrans(old(a[..]), s, a[..], 0, a.Length);
      assert a[ptr..ptr + nmemb] == a[..][ptr..ptr + nmemb];
      sp, ptr, nmemb := PushLarger(stack, sp, ptr, nmemb, depth, lt, gt);
      ghost var x: Entry :|
        && stack[..sp] == pend + [x]
        && ((x.base == e.base && x.count == lt && ptr == e.base + gt && nmemb == e.count - gt)
            || (ptr == e.base && nmemb == lt && x.base == e.base + gt && x.count == e.count - gt));
      PendingParted(cmp, s, a[..], pend, e, v, lt, gt, x, Entry(ptr, nmemb, depth0));
    }
  }

  lemma {:induction false} WorkLess(stack: seq<Entry>, sp: int, nmemb: int)
    requires 0 <= sp <= |stack| && nmemb > 0
    ensures Work(stack, sp, 0) < Work(stack, sp, nmemb)
  {
  }

  lemma {:induction false} PartedBounds<T>(cmp: (T, T) -> int, u: seq<T>, v: T, lt: int, gt: int)
    requires Parted(cmp, u, v, lt, gt)
    ensures 0 <= lt < gt <= |u|
  {
  }

  /** rqsort: with any comparison it ends, stays within its stack and rearranges the elements; with a total
      preorder it sorts them. */
  method Rqsort<T(!new)>(a: array<T>, cmp: (T, T) -> int)
    modifies a
    ensures multiset(a[..]) == multiset(old(a[..]))
    ensures TotalPreorder(cmp) ==> Sorted(cmp, a[..])
  {
    hide Deep, Pending, Rearranged, Total;
    if a.Length < 2 {
      return;
    }
    var stack := new Entry[STACK_SIZE](_ => Entry(0, 0, 0));
    stack[0] := Entry(0, a.Length, 0);
    var sp := 1;
    RearrangedSelf(a[..], 0, a.Length);
    PendingStarts(cmp, a[..], stack[..]);
    while sp > 0
      invariant 0 <= sp <= STACK_SIZE && Deep(stack[..], sp) && fresh(stack)
      invariant Pending(cmp, a[..], stack[..sp])
      invariant Rearranged(old(a[..]), a[..], 0, a.Length)
      decreases Work(stack[..], sp, 0), sp
    {
      PendingTotal(cmp, a[..], stack[..], sp);
      sp := sp - 1;
      var e := stack[sp];
      Popped(stack[..], sp);
      assert stack[..sp + 1] == stack[..sp] + [e];
      ghost var s := a[..];
      EndsFree(cmp, s, stack[..sp], e);
      var ptr, nmemb;
      sp, ptr, nmemb := Narrow(a, stack, sp, e.base, e.count, e.depth, cmp);
      RearrangedTrans(old(a[..]), s, a[..], 0, a.Length);
      s := a[..];
      ghost var f := Entry(ptr, nmemb, e.depth);
      EndsFree(cmp, s, stack[..sp], f);
      InsertionSort(a, ptr, nmemb, cmp);
      assert a[ptr..ptr + nmemb] == a[..][ptr..ptr + nmemb];
      PendingSorted(cmp, s, a[..], stack[..sp], f);
      RearrangedWider(s, a[..], ptr, ptr + nmemb, 0, a.Length);
      RearrangedTrans(old(a[..]), s, a[..], 0, a.Length);
    }
    Finished(cmp, old(a[..]), a[..], stack[..sp]);
  }

  lemma {:induction false} PendingTotal<T(!new)>(cmp: (T, T) -> int, s: seq<T>, stack: seq<Entry>, sp: int)
    requires 0 < sp <= |stack| && Pending(cmp, s, stack[..sp])
    ensures Total(stack[..sp]) >= 0 && Total(stack[..sp]) == Total(stack[..sp - 1]) + stack[sp - 1].count
  {
    forall k | 0 <= k < sp ensures stack[..sp][k].count >= 0 {
      assert stack[..sp][k].Within(|s|);
    }
    TotalNat(stack[..sp]);
    assert stack[..sp][..sp - 1] == stack[..sp - 1];
  }

  lemma {:induction false} Popped(stack: seq<Entry>, sp: int)
    requires Deep(stack, sp + 1) && 0 <= sp
    ensures Deep(stack, sp) && sp <= stack[sp].depth
  {
  }

  lemma {:induction false} PendingStarts<T(!new)>(cmp: (T, T) -> int, s: seq<T>, stack: seq<Entry>)
    requires |stack| == STACK_SIZE && stack[0] == Entry(0, |s|, 0)
    ensures Deep(stack, 1) && Pending(cmp, s, stack[..1])
  {
    assert stack[..1] == [Entry(0, |s|, 0)];
    forall c | 0 <= c <= |s| && Free([Entry(0, |s|, 0)], c) ensures Cut(cmp, s, c) {
      assert !Entry(0, |s|, 0).Inside(c);
    }
  }

  lemma {:induction false} Finished<T(!new)>(cmp: (T, T) -> int, s: seq<T>, t: seq<T>, pend: seq<Entry>)
    requires Rearranged(s, t, 0, |s|) && Pending(cmp, t, pend) && pend == []
    ensures multiset(t) == multiset(s)
    ensures TotalPreorder(cmp) ==> Sorted(cmp, t)
  {
    assert s[0..|s|] == s && t[0..|t|] == t;
    if TotalPreorder(cmp) {
      forall c | 0 <= c <= |t| ensures Cut(cmp, t, c) {
        assert Free(pend, c);
      }
      CutsSort(cmp, t);
    }
  }
}
