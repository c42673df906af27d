/** Little-endian limb sequences and the numbers they stand for. */
module Limbs {
  import opened Powers
  import opened Reciprocal

  function Val(s: seq<Limb>): (r: nat) {
    if s == [] then 0 else s[0] as nat + 0x1_0000_0000 * Val(s[1..])
  }

  /** The weight of limb n. */
  function Weight(n: nat): (r: nat) {
    Pow(0x1_0000_0000, n)
  }

  lemma {:induction false} WeightNext(n: nat)
    ensures Weight(n + 1) == 0x1_0000_0000 * Weight(n) && Weight(n) > 0 && Weight(0) == 1
  {
    PowPos(0x1_0000_0000, n);
  }

  lemma {:induction false} ValConcat(a: seq<Limb>, b: seq<Limb>)
    ensures Val(a + b) == Val(a) + Weight(|a|) * Val(b)
  {
    if a == [] {
      assert a + b == b;
      WeightNext(0);
    } else {
      assert (a + b)[0] == a[0] && (a + b)[1..] == a[1..] + b;
      ValConcat(a[1..], b);
      WeightNext(|a| - 1);
      MulAssoc(0x1_0000_0000, Weight(|a| - 1), Val(b));
    }
  }

  lemma {:induction false} ValOne(x: Limb)
    ensures Val([x]) == x && Val([]) == 0
  {
    assert [x][1..] == [];
  }

  lemma {:induction false} ValSplit(s: seq<Limb>, i: nat)
    requires i <= |s|
    ensures Val(s) == Val(s[..i]) + Weight(i) * Val(s[i..])
  {
    assert s == s[..i] + s[i..];
    ValConcat(s[..i], s[i..]);
  }

  lemma {:induction false} ValSnoc(s: seq<Limb>, x: Limb)
    ensures Val(s + [x]) == Val(s) + Weight(|s|) * x
  {
    ValConcat(s, [x]);
    ValOne(x);
  }

  lemma {:induction false} ValPrefix(s: seq<Limb>, i: nat)
    requires i < |s|
    ensures Val(s[..i + 1]) == Val(s[..i]) + Weight(i) * s[i]
  {
    assert s[..i + 1] == s[..i] + [s[i]];
    ValSnoc(s[..i], s[i]);
  }

  lemma {:induction false} ValSuffix(s: seq<Limb>, i: nat)
    requires i < |s|
    ensures Val(s[i..]) == s[i] + 0x1_0000_0000 * Val(s[i + 1..])
  {
    assert s[i..][1..] == s[i + 1..];
  }

  lemma {:induction false} ValBound(s: seq<Limb>)
    ensures Val(s) < Weight(|s|)
  {
    if s == [] {
      WeightNext(0);
    } else {
      ValBound(s[1..]);
      WeightNext(|s| - 1);
    }
  }

  /** The limbs from l on are the quotient by their weight, those below it the remainder. */
  lemma {:induction false} ValDiv(s: seq<Limb>, l: nat)
    requires l <= |s|
    ensures Weight(l) > 0 && Val(s) / Weight(l) == Val(s[l..]) && Val(s) % Weight(l) == Val(s[..l])
  {
    ValSplit(s, l);
    ValBound(s[..l]);
    WeightNext(l);
    DivUnique(Val(s), Weight(l), Val(s[l..]), Val(s[..l]));
  }

  predicate AllZero(s: seq<Limb>) {
    forall i :: 0 <= i < |s| ==> s[i] == 0
  }

  lemma {:induction false} ValZero(s: seq<Limb>)
    ensures Val(s) == 0 <==> AllZero(s)
  {
    if s != [] {
      ValZero(s[1..]);
      if AllZero(s) {
        assert forall i :: 0 <= i < |s[1..]| ==> s[1..][i] == s[i + 1];
      }
      if Val(s) == 0 {
        forall i | 0 <= i < |s| ensures s[i] == 0 {
          if i > 0 {
            assert s[i] == s[1..][i - 1];
          }
        }
      }
    }
  }

  /** No leading zero limb, except in zero itself. */
  predicate Normal(s: seq<Limb>) {
    |s| >= 1 && (|s| > 1 ==> s[|s| - 1] != 0)
  }

  lemma {:induction false} DropZero(s: seq<Limb>)
    requires |s| > 0 && s[|s| - 1] == 0
    ensures Val(s[..|s| - 1]) == Val(s)
  {
    ValPrefix(s, |s| - 1);
    assert s[..|s| - 1 + 1] == s;
  }

  /** A normal number of n limbs is at least the weight of its last limb. */
  lemma {:induction false} NormalBound(s: seq<Limb>)
    requires |s| >= 1
    ensures Val(s) == Val(s[..|s| - 1]) + Weight(|s| - 1) * s[|s| - 1]
    ensures Val(s) >= Weight(|s| - 1) * s[|s| - 1]
    ensures Val(s) < Weight(|s| - 1) * (s[|s| - 1] as int + 1)
  {
    ValPrefix(s, |s| - 1);
    assert s[..|s| - 1 + 1] == s;
    ValBound(s[..|s| - 1]);
  }
}
