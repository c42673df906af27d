/** The bignum operations of dtoa.c that are built from the limb loops. */
module BignumOps {
  import opened Powers
  import opened Reciprocal
  import opened Limbs
  import opened Rounding
  import opened Bignum
  import opened Bits

  /** mpb_get_bit */
  method GetBit(r: Mpb, k: nat) returns (bit: nat)
    ensures Pow(2, k) > 0 && bit == r.Value() / Pow(2, k) % 2
  {
    PowPos(2, k);
    var l := k / 32;
    if l >= |r.tab| {
      BitPast(r.tab, k);
      return 0;
    }
    BitAt(r.tab, k);
    PowPos(2, k % 32);
    return r.tab[l] as int / Pow(2, k % 32) % 2;
  }

  /** The bits below bit k, or-ed together. */
  method LowBits(r: Mpb, k: nat) returns (bit2: bool)
    ensures Pow(2, k) > 0 && (bit2 <==> r.Value() % Pow(2, k) != 0)
  {
    PowPos(2, k);
    PowPos(2, k % 32);
    var l := k / 32;
    bit2 := false;
    var i := 0;
    while i < l && i < |r.tab|
      invariant 0 <= i <= l && i <= |r.tab|
      invariant bit2 <==> !AllZero(r.tab[..i])
    {
      if r.tab[i] != 0 {
        bit2 := true;
      }
      assert r.tab[..i + 1] == r.tab[..i] + [r.tab[i]];
      i := i + 1;
    }
    if l < |r.tab| {
      if r.tab[l] as int % Pow(2, k % 32) != 0 {
        bit2 := true;
      }
      LowBitsAt(r.tab, k);
    } else {
      assert r.tab[..i] == r.tab;
      ValZero(r.tab);
      BitPast(r.tab, k);
    }
  }

  /** Whether r / 2^shift is rounded up. */
  method AddOne(r: Mpb, shift: nat, mode: Mode) returns (addOne: nat)
    requires shift > 0
    ensures Pow(2, shift) > 0 && addOne <= 1
    ensures RoundShift(r.Value(), shift, mode) == r.Value() / Pow(2, shift) + addOne
  {
    hide Pow;
    TwoHalves(shift);
    RoundByBits(r.Value(), Pow(2, shift - 1), mode);
    addOne := 0;
    if mode != RNDZ {
      var bit1 := GetBit(r, shift - 1);
      if bit1 != 0 {
        var bit2 := true;
        if mode == RNDN {
          bit2 := LowBits(r, shift - 1);
        }
        if bit2 {
          addOne := 1;
        } else {
          addOne := GetBit(r, shift);
        }
      }
    }
  }

  lemma {:induction false} TwoHalves(shift: nat)
    requires shift > 0
    ensures Pow(2, shift) == 2 * Pow(2, shift - 1) && Pow(2, shift - 1) > 0
  {
    PowPos(2, shift - 1);
  }

  /** The loops that move all limbs up by l places. */
  method LimbsUp(r: Mpb, l: nat)
    requires |r.tab| >= 1
    modifies r
    ensures r.Value() == old(r.Value()) * Weight(l) && |r.tab| == |old(r.tab)| + l
    ensures Normal(old(r.tab)) && old(r.Value()) > 0 ==> Normal(r.tab)
  {
    hide Val, Weight, Normal;
    ghost var was := r.tab;
    var len := |r.tab|;
    r.tab := r.tab + seq(l, _ => 0);
    var i := len - 1;
    while i >= 0
      invariant -1 <= i < len && |r.tab| == len + l
      invariant forall k :: 0 <= k <= i ==> r.tab[k] == was[k]
      invariant forall k :: i < k < len ==> r.tab[k + l] == was[k]
    {
      r.tab := r.tab[i + l := r.tab[i]];
      i := i - 1;
    }
    i := 0;
    while i < l
      invariant 0 <= i <= l && |r.tab| == len + l
      invariant forall k :: 0 <= k < i ==> r.tab[k] == 0
      invariant forall k :: 0 <= k < len ==> r.tab[k + l] == was[k]
    {
      r.tab := r.tab[i := 0];
      i := i + 1;
    }
    UpValue(r.tab, was, l);
  }

  lemma {:induction false} UpValue(tab: seq<Limb>, was: seq<Limb>, l: nat)
    requires |was| >= 1 && |tab| == |was| + l
    requires forall k :: 0 <= k < l ==> tab[k] == 0
    requires forall k :: 0 <= k < |was| ==> tab[k + l] == was[k]
    ensures Val(tab) == Val(was) * Weight(l)
    ensures Normal(was) && Val(was) > 0 ==> Normal(tab)
  {
    hide Val, Weight;
    var low, high := tab[..l], tab[l..];
    assert high == was;
    ValZero(low);
    ValSplit(tab, l);
    if Normal(was) && Val(was) > 0 {
      assert tab[|was| - 1 + l] == was[|was| - 1];
      ValZero(was);
    }
  }

  /** The multiplication by 2^shift of mpb_shr_round. */
  method ShiftUp(r: Mpb, shift: nat)
    requires |r.tab| >= 1
    modifies r
    ensures r.Value() == old(r.Value()) * Pow(2, shift) && |r.tab| >= 1
    ensures Normal(old(r.tab)) && old(r.Value()) > 0 ==> Normal(r.tab)
  {
    hide Pow, Val, Weight, Normal;
    ghost var v := r.Value();
    var l, s := shift / 32, shift % 32;
    BitPow(shift);
    if s != 0 {
      PowPos(2, s);
      var carry := r.ShiftLeftBits(s, 0);
      ValSnoc(r.tab, carry);
      r.tab := r.tab + [carry];
      r.Renorm();
    } else {
      PowOne(2);
    }
    assert r.Value() == v * Pow(2, s);
    ghost var v1 := r.Value();
    if v > 0 {
      PowPos(2, s);
      MulPos(v, Pow(2, s));
    }
    if l > 0 {
      LimbsUp(r, l);
      assert r.Value() == v * Pow(2, shift) by {
        MulAssoc(v, Pow(2, s), Weight(l));
      }
    } else {
      WeightNext(0);
    }
  }

  /** The division by 2^shift of mpb_shr_round, when some limb is left. */
  method ShiftDown(r: Mpb, shift: nat)
    requires shift / 32 < |r.tab| && Normal(r.tab)
    modifies r
    ensures Pow(2, shift) > 0 && r.Value() == old(r.Value()) / Pow(2, shift) && Normal(r.tab)
  {
    hide Pow, Val, Weight;
    PowPos(2, shift);
    var l, s := shift / 32, shift % 32;
    BitPow(shift);
    ValDiv(r.tab, l);
    PowPos(2, s);
    DivDiv(r.Value(), Weight(l), Pow(2, s));
    if l > 0 {
      LimbsDown(r, l);
    } else {
      assert r.tab[0..] == r.tab;
    }
    if s != 0 {
      ghost var w, v := Weight(|r.tab|), r.Value();
      DivUnique(0, Pow(2, s), 0, 0);
      var _ := r.ShiftRightBits(s, 0);
      assert 0 * w + v == v;
      r.Renorm();
    } else {
      PowOne(2);
    }
  }

  /** The loop that moves the limbs from l on down. */
  method LimbsDown(r: Mpb, l: nat)
    requires l < |r.tab| && Normal(r.tab)
    modifies r
    ensures r.tab == old(r.tab)[l..] && Normal(r.tab)
  {
    ghost var was := r.tab;
    var len := |r.tab| - l;
    var i := 0;
    while i < len
      invariant 0 <= i <= len && |r.tab| == |was|
      invariant forall k :: 0 <= k < i ==> r.tab[k] == was[k + l]
      invariant forall k :: i <= k < |was| ==> r.tab[k] == was[k]
    {
      r.tab := r.tab[i := r.tab[i + l]];
      i := i + 1;
    }
    r.tab := r.tab[..len];
    assert r.tab == was[l..];
  }

  /** mpb_shr_round: r / 2^shift, rounded, for any shift. */
  method ShrRound(r: Mpb, shift: int, mode: Mode)
    requires Normal(r.tab)
    modifies r
    ensures r.Value() == RoundShift(old(r.Value()), shift, mode) && |r.tab| >= 1
    ensures shift >= 0 || old(r.Value()) > 0 ==> Normal(r.tab)
  {
    assert |r.tab| >= 1;
    hide Pow, Val, Normal, Weight;
    ghost var v := r.Value();
    if shift == 0 {
      PowOne(2);
    } else if shift < 0 {
      ShiftUp(r, -shift);
    } else {
      var addOne := AddOne(r, shift, mode);
      if shift / 32 >= |r.tab| {
        BitPast(r.tab, shift);
        r.tab := [addOne];
        ValOne(addOne);
        SingleNormal(addOne);
      } else {
        ShiftDown(r, shift);
        if addOne != 0 {
          Increment(r);
        }
      }
    }
  }

  lemma {:induction false} SingleNormal(x: Limb)
    ensures Normal([x])
  {
  }

  /** The final carry may need one more limb. */
  method Increment(r: Mpb)
    requires Normal(r.tab)
    modifies r
    ensures r.Value() == old(r.Value()) + 1 && Normal(r.tab)
  {
    ghost var was := r.tab;
    var n := |r.tab|;
    var a := r.AddSmall(1);
    if a != 0 {
      ValSnoc(r.tab, a);
      r.tab := r.tab + [a];
    } else {
      if n > 1 {
        NormalAtLeast(was);
      }
      NormalWhen(r.tab);
    }
  }

  /** mpb_floor_log2: the position of the highest bit, or -1 for zero. */
  method FloorLog2(a: Mpb) returns (k: int)
    requires Normal(a.tab)
    ensures k == -1 <==> a.Value() == 0
    ensures k >= -1 && (k >= 0 ==> Pow(2, k) <= a.Value() < Pow(2, k + 1))
  {
    var len := |a.tab|;
    var v := a.tab[len - 1];
    ValZero(a.tab);
    if v == 0 {
      return -1;
    }
    TopBit(a.tab);
    var clz32 := 32 - BitLength(v);
    return len * 32 - 1 - clz32;
  }

  /** mpb_set_u64 */
  method SetU64(r: Mpb, m: nat)
    requires m < 0x1_0000_0000_0000_0000
    modifies r
    ensures r.Value() == m && Normal(r.tab)
  {
    DivMod(m, 0x1_0000_0000);
    DivNat(m, 0x1_0000_0000);
    var low: Limb, high: Limb := m % 0x1_0000_0000, m / 0x1_0000_0000;
    ValOne(low);
    if high == 0 {
      r.tab := [low];
    } else {
      r.tab := [low, high];
      assert [low, high] == [low] + [high];
      ValSnoc([low], high);
      WeightNext(0);
    }
  }

  /** mpb_get_u64: the number must fit 64 bits, as it does for mantissas. */
  method GetU64(r: Mpb) returns (m: nat)
    requires Normal(r.tab) && r.Value() < 0x1_0000_0000_0000_0000
    ensures m == r.Value()
  {
    WeightNext(0);
    WeightNext(1);
    if |r.tab| > 2 {
      NormalAtLeast(r.tab);
      PowGrows(0x1_0000_0000, 2, |r.tab| - 1);
    }
    if |r.tab| == 1 {
      assert r.tab == [r.tab[0]];
      ValOne(r.tab[0]);
      return r.tab[0];
    }
    assert r.tab == [r.tab[0]] + [r.tab[1]];
    ValSnoc([r.tab[0]], r.tab[1]);
    ValOne(r.tab[0]);
    return r.tab[0] as int + 0x1_0000_0000 * r.tab[1] as int;
  }

  /** mpb_cmp */
  method Cmp(a: Mpb, b: Mpb) returns (c: int)
    requires Normal(a.tab) && Normal(b.tab)
    ensures c == if a.Value() < b.Value() then -1 else if a.Value() > b.Value() then 1 else 0
  {
    if |a.tab| < |b.tab| {
      ShorterLess(a.tab, b.tab);
      return -1;
    } else if |a.tab| > |b.tab| {
      ShorterLess(b.tab, a.tab);
      return 1;
    }
    var i := |a.tab| - 1;
    hide Val, Normal;
    while i >= 0
      invariant -1 <= i < |a.tab| == |b.tab| && a.tab[i + 1..] == b.tab[i + 1..]
    {
      if a.tab[i] != b.tab[i] {
        if a.tab[i] < b.tab[i] {
          HigherLimb(a.tab, b.tab, i);
          return -1;
        } else {
          HigherLimb(b.tab, a.tab, i);
          return 1;
        }
      }
      assert a.tab[i..] == [a.tab[i]] + a.tab[i + 1..] && b.tab[i..] == [b.tab[i]] + b.tab[i + 1..];
      i := i - 1;
    }
    assert a.tab[0..] == a.tab && b.tab[0..] == b.tab;
    return 0;
  }

  lemma {:induction false} ShorterLess(s: seq<Limb>, t: seq<Limb>)
    requires Normal(s) && Normal(t) && |s| < |t|
    ensures Val(s) < Val(t)
  {
    ValBound(s);
    NormalAtLeast(t);
    PowGrows(0x1_0000_0000, |s|, |t| - 1);
  }

  lemma {:induction false} HigherLimb(s: seq<Limb>, t: seq<Limb>, i: nat)
    requires i < |s| == |t| && s[i + 1..] == t[i + 1..] && s[i] < t[i]
    ensures Val(s) < Val(t)
  {
    hide Val, Weight;
    ValSplit(s, i + 1);
    ValSplit(t, i + 1);
    ValPrefix(s, i);
    ValPrefix(t, i);
    ValBound(s[..i]);
    var w, x, y := Weight(i), s[i] as int, t[i] as int;
    MulLe(w, x + 1, y);
    assert w * (x + 1) == w * x + w;
  }

  /** mpb_mul1_base: r * base + a, where the base 0 stands for 2^32. */
  method MulBase(r: Mpb, radixBase: Limb, a: Limb)
    requires Normal(r.tab)
    modifies r
    ensures r.Value() == old(r.Value()) * (if radixBase == 0 then 0x1_0000_0000 else radixBase) + a && Normal(r.tab)
  {
    ghost var was := r.tab;
    if r.tab[0] == 0 && |r.tab| == 1 {
      assert was == [was[0]];
      ValOne(was[0]);
      ValOne(a);
      r.tab := [a];
      assert 0 * (if radixBase == 0 then 0x1_0000_0000 else radixBase as int) == 0;
    } else {
      if radixBase == 0 {
        var len := |r.tab|;
        r.tab := r.tab + [0];
        var i := len;
        while i > 0
          invariant 0 <= i <= len && |r.tab| == len + 1
          invariant forall k :: 0 <= k < i ==> r.tab[k] == was[k]
          invariant forall k :: i <= k < len ==> r.tab[k + 1] == was[k]
        {
          r.tab := r.tab[i := r.tab[i - 1]];
          i := i - 1;
        }
        r.tab := r.tab[0 := a];
        assert r.tab == [a] + was by {
          assert forall k :: 0 <= k < len ==> r.tab[k + 1] == was[k];
        }
        assert r.tab[1..] == was;
      } else {
        var l := r.MulSmall(radixBase, a);
        ValSnoc(r.tab, l);
        r.tab := r.tab + [l];
      }
      r.Renorm();
    }
  }
}
