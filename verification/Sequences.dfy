/** Facts about concatenation, kept apart so that they are proved in a small context. */
module Sequences {

  lemma {:induction false} ConsAppend<T>(xs: seq<T>, ys: seq<T>)
    requires xs != []
    ensures xs + ys == [xs[0]] + (xs[1..] + ys)
    ensures (xs + ys)[0] == xs[0] && (xs + ys)[1..] == xs[1..] + ys
  {
  }

  lemma {:induction false} Assoc<T>(a: seq<T>, b: seq<T>, c: seq<T>)
    ensures a + b + c == a + (b + c)
  {
  }

  lemma {:induction false} TailOne<T>(x: T)
    ensures [x][1..] == []
  {
  }

  lemma {:induction false} SliceSlice<T>(b: seq<T>, pc: nat, n: nat, i: nat, j: nat)
    requires pc + n <= |b| && i <= j <= n
    ensures b[pc..pc + n][i..j] == b[pc + i..pc + j]
  {
    var s, t := b[pc..pc + n][i..j], b[pc + i..pc + j];
    forall k | 0 <= k < |s| ensures s[k] == t[k] {
      assert s[k] == b[pc..pc + n][i + k];
    }
  }
}
