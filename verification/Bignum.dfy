/** Bignums: the limb loops of dtoa.c, which work in place. */
module Bignum {
  import opened Powers
  import opened Reciprocal
  import opened Limbs

  /** One step of a loop from the low end: the word t = x * b + l is split into a limb and a carry. */
  lemma {:induction false} LowStep(w: nat, x: nat, b: nat, l: nat, a: nat, c: nat, l0: nat, t: nat)
    requires a + l * w == c * b + l0 && t == x * b + l
    ensures a + w * (t % 0x1_0000_0000) + (t / 0x1_0000_0000) * (0x1_0000_0000 * w) == (c + w * x) * b + l0
  {
    DivMod(t, 0x1_0000_0000);
    var h, m := t / 0x1_0000_0000, t % 0x1_0000_0000;
    assert w * m + h * (0x1_0000_0000 * w) == w * t by {
      assert h * (0x1_0000_0000 * w) == w * (h * 0x1_0000_0000);
      assert w * (h * 0x1_0000_0000 + m) == w * (h * 0x1_0000_0000) + w * m;
    }
    assert w * t == w * (x * b) + w * l;
    assert (c + w * x) * b == c * b + w * (x * b) by {
      assert (c + w * x) * b == c * b + (w * x) * b;
      MulAssoc(w, x, b);
    }
  }

  /** One step of a division loop from the high end. */
  lemma {:induction false} HighStep(b: nat, r: nat, v: nat, q: nat, x: nat, t: nat)
    requires b > 0 && v == q * b + r && r < b && t == r * 0x1_0000_0000 + x && x < 0x1_0000_0000
    ensures 0 <= t / b < 0x1_0000_0000
    ensures x + 0x1_0000_0000 * v == (t / b + 0x1_0000_0000 * q) * b + t % b
  {
    DivMod(t, b);
    DivNat(t, b);
    if t / b >= 0x1_0000_0000 {
      MulLe(b, 0x1_0000_0000, t / b);
    }
    assert (t / b + 0x1_0000_0000 * q) * b == (t / b) * b + 0x1_0000_0000 * (q * b);
  }

  /** The carry of a product is a limb. */
  lemma {:induction false} CarryFits(x: Limb, b: Limb, l: Limb)
    ensures 0 <= (x * b + l) / 0x1_0000_0000 < 0x1_0000_0000
  {
    MulLe(x, 0, b);
    MulLe(b, x, 0xffff_ffff);
    var t := x * b + l;
    DivNat(t, 0x1_0000_0000);
    DivMod(t, 0x1_0000_0000);
  }

  /** What a loop from the low end keeps: i limbs are done, with carry l. */
  ghost predicate FromLow(tab: seq<Limb>, was: seq<Limb>, i: nat, b: nat, l: nat, l0: nat) {
    && i <= |tab| == |was| && tab[i..] == was[i..]
    && Val(tab[..i]) + l * Weight(i) == Val(was[..i]) * b + l0
  }

  lemma {:induction false} FromLowStarts(was: seq<Limb>, b: nat, l: nat)
    ensures FromLow(was, was, 0, b, l, l)
  {
    WeightNext(0);
    assert was[..0] == [];
  }

  lemma {:induction false} FromLowNext(tab: seq<Limb>, was: seq<Limb>, i: nat, b: nat, l: nat, l0: nat, t: nat)
    requires i < |tab| && FromLow(tab, was, i, b, l, l0) && t == was[i] * b + l
    ensures tab[i] == was[i] && FromLow(tab[i := Lo(t)], was, i + 1, b, t / 0x1_0000_0000, l0)
  {
    assert tab[i] == tab[i..][0] == was[i];
    DivNat(t, 0x1_0000_0000);
    var next := tab[i := Lo(t)];
    ValPrefix(was, i);
    assert next[..i + 1] == tab[..i] + [Lo(t)];
    ValSnoc(tab[..i], Lo(t));
    WeightNext(i);
    LowStep(Weight(i), was[i], b, l, Val(tab[..i]), Val(was[..i]), l0, t);
    assert next[i + 1..] == tab[i..][1..] && was[i + 1..] == was[i..][1..];
  }

  lemma {:induction false} FromLowEnds(tab: seq<Limb>, was: seq<Limb>, b: nat, l: nat, l0: nat)
    requires FromLow(tab, was, |tab|, b, l, l0)
    ensures Val(tab) + l * Weight(|tab|) == Val(was) * b + l0
  {
    assert tab[..|tab|] == tab && was[..|was|] == was;
  }

  /** What a division loop from the high end keeps: the limbs from i on are done, with remainder r. */
  ghost predicate FromHigh(tab: seq<Limb>, was: seq<Limb>, i: nat, b: nat, r: nat, r0: nat) {
    && i <= |tab| == |was| && tab[..i] == was[..i] && r < b
    && r0 * Weight(|tab| - i) + Val(was[i..]) == Val(tab[i..]) * b + r
  }

  lemma {:induction false} FromHighStarts(was: seq<Limb>, b: nat, r: nat)
    requires r < b
    ensures FromHigh(was, was, |was|, b, r, r)
  {
    WeightNext(0);
    assert was[|was|..] == [];
  }

  lemma {:induction false} FromHighNext(tab: seq<Limb>, was: seq<Limb>, i: nat, b: nat, r: nat, r0: nat, t: nat)
    requires i < |tab| && FromHigh(tab, was, i + 1, b, r, r0) && t == r * 0x1_0000_0000 + was[i]
    ensures tab[i] == was[i] && 0 <= t / b < 0x1_0000_0000 && FromHigh(tab[i := t / b], was, i, b, t % b, r0)
  {
    assert tab[i] == tab[..i + 1][i] == was[i];
    var n := |tab| - (i + 1);
    var v := r0 * Weight(n) + Val(was[i + 1..]);
    HighStep(b, r, v, Val(tab[i + 1..]), was[i], t);
    var next := tab[i := t / b];
    ValSuffix(was, i);
    ValSuffix(next, i);
    assert next[i + 1..] == tab[i + 1..];
    WeightNext(n);
    assert r0 * (0x1_0000_0000 * Weight(n)) == 0x1_0000_0000 * (r0 * Weight(n));
    assert next[..i] == tab[..i + 1][..i] && was[..i] == was[..i + 1][..i];
    DivMod(t, b);
  }

  lemma {:induction false} FromHighEnds(tab: seq<Limb>, was: seq<Limb>, b: nat, r: nat, r0: nat)
    requires FromHigh(tab, was, 0, b, r, r0)
    ensures b > 0 && (r0 * Weight(|was|) + Val(was)) / b == Val(tab) && (r0 * Weight(|was|) + Val(was)) % b == r
  {
    assert tab[0..] == tab && was[0..] == was;
    DivUnique(r0 * Weight(|was|) + Val(was), b, Val(tab), r);
  }

  lemma {:induction false} Pow32(shift: nat)
    requires shift <= 32
    ensures Pow(2, shift) > 0 && Pow(2, 32 - shift) > 0 && Pow(2, shift) * Pow(2, 32 - shift) == 0x1_0000_0000
  {
    PowAdd(2, shift, 32 - shift);
    PowPos(2, shift);
    PowPos(2, 32 - shift);
    PowAdd(2, 16, 16);
    PowAdd(2, 8, 8);
    PowAdd(2, 4, 4);
    assert Pow(2, 4) == 16;
  }

  /** Shifting a limb left splits it between this limb and the next: with p = 2^shift and h = 2^(32 - shift),
      the low part is (a << shift) | l and the high part is a >> (32 - shift). */
  lemma {:induction false} ShiftLeft(a: Limb, l: nat, p: nat, h: nat)
    requires p > 0 && h > 0 && p * h == 0x1_0000_0000 && l < p
    ensures Lo(a * p) + l < 0x1_0000_0000 && Lo(a * p + l) == Lo(a * p) + l
    ensures 0 <= a / h < p && (a * p + l) / 0x1_0000_0000 == a / h
  {
    DivMod(a, h);
    DivNat(a, h);
    var q, m := a / h, a % h;
    Distribute(q, h, m, p);
    assert (q * h + m) * p == q * (p * h) + p * m;
    MulLe(p, m, h - 1);
    assert p * (h - 1) == 0x1_0000_0000 - p;
    ShiftedWord(a * p, l, q, p * m);
    if q >= p {
      MulLe(h, p, q);
    }
  }

  lemma {:induction false} ShiftedWord(t: int, l: int, q: int, m: int)
    requires t == q * 0x1_0000_0000 + m && 0 <= m && 0 <= l && m + l < 0x1_0000_0000
    ensures t % 0x1_0000_0000 == m && (t + l) % 0x1_0000_0000 == m + l && (t + l) / 0x1_0000_0000 == q
  {
  }

  /** Shifting two limbs right is dividing them by a power of two: the result is
      (a >> shift) | (l << (32 - shift)). */
  lemma {:induction false} ShiftRight(l: Limb, a: Limb, p: nat, h: nat)
    requires p > 0 && h > 0 && p * h == 0x1_0000_0000
    ensures (l % p * 0x1_0000_0000 + a) / p == a / p + Lo(l * h)
    ensures (l % p * 0x1_0000_0000 + a) % p == a % p
  {
    DivMod(l, p);
    var k, m := l / p, l % p;
    assert m * 0x1_0000_0000 == (m * h) * p by {
      assert (m * h) * p == m * (p * h);
    }
    DivAdd(a, m * h, p);
    Distribute(k, p, m, h);
    assert (k * p + m) * h == k * (p * h) + h * m;
    MulLe(h, m, p - 1);
    assert h * (p - 1) == 0x1_0000_0000 - h;
    ShiftedWord(l * h, 0, k, h * m);
  }

  lemma {:induction false} RightStep(tab: seq<Limb>, was: seq<Limb>, i: nat, l: Limb, p: nat, h: nat, r0: nat)
    requires p > 0 && h > 0 && p * h == 0x1_0000_0000 && i < |tab| && FromHigh(tab, was, i + 1, p, l % p, r0)
    ensures 0 <= tab[i] / p + Lo(l * h) < 0x1_0000_0000
    ensures FromHigh(tab[i := tab[i] / p + Lo(l * h)], was, i, p, tab[i] % p, r0)
  {
    hide Lo;
    DivMod(l, p);
    assert tab[i] == tab[..i + 1][i] == was[i];
    ShiftRight(l, tab[i], p, h);
    FromHighNext(tab, was, i, p, l % p, r0, l % p * 0x1_0000_0000 + tab[i]);
  }

  class Mpb {
    /** The limbs in use, low limb first; there is at least one. */
    var tab: seq<Limb>

    constructor ()
      ensures tab == [0]
    {
      tab := [0];
    }

    ghost function Value(): (r: nat)
      reads this
    {
      Val(tab)
    }

    /** mp_add_ui */
    method AddSmall(b: Limb) returns (k: Limb)
      modifies this
      ensures |tab| == |old(tab)| && Value() + k * Weight(|tab|) == old(Value()) + b
    {
      ghost var was := tab;
      k := b;
      var i := 0;
      FromLowStarts(was, 1, b);
      while i < |tab|
        invariant 0 <= i <= |tab| && FromLow(tab, was, i, 1, k, b)
      {
        if k == 0 {
          FromLowRest(tab, was, i, b);
          return;
        }
        FromLowNext(tab, was, i, 1, k, b, was[i] + k);
        var a := Lo(tab[i] as int + k);
        AddCarry(tab[i], k);
        k := if a < k then 1 else 0;
        tab := tab[i := a];
        i := i + 1;
      }
      FromLowEnds(tab, was, 1, k, b);
    }

    /** mp_mul1: the carry out of the top limb is returned. */
    method MulSmall(b: Limb, l0: Limb) returns (l: Limb)
      modifies this
      ensures |tab| == |old(tab)| && Value() + l * Weight(|tab|) == old(Value()) * b + l0
    {
      ghost var was := tab;
      l := l0;
      FromLowStarts(was, b, l);
      for i := 0 to |tab|
        invariant |tab| == |was| && FromLow(tab, was, i, b, l, l0)
      {
        assert tab[i] == tab[i..][0] == was[i];
        var t := tab[i] as int * b + l;
        FromLowNext(tab, was, i, b, l, l0, t);
        CarryFits(tab[i], b, l);
        tab := tab[i := Lo(t)];
        l := t / 0x1_0000_0000;
      }
      FromLowEnds(tab, was, b, l, l0);
    }

    /** mp_div1: plain long division by a limb; the remainder is returned. */
    method DivSmall(b: Limb, r0: Limb) returns (r: Limb)
      requires r0 < b
      modifies this
      ensures |tab| == |old(tab)|
      ensures Value() == (r0 * Weight(|tab|) + old(Value())) / b && r == (r0 * Weight(|tab|) + old(Value())) % b
    {
      ghost var was := tab;
      r := r0;
      FromHighStarts(was, b, r);
      var i := |tab|;
      while i > 0
        invariant 0 <= i <= |tab| == |was| && FromHigh(tab, was, i, b, r, r0)
      {
        i := i - 1;
        assert tab[i] == tab[..i + 1][i] == was[i];
        var a1 := r as int * 0x1_0000_0000 + tab[i];
        FromHighNext(tab, was, i, b, r, r0, a1);
        tab := tab[i := a1 / b];
        r := a1 % b;
      }
      FromHighEnds(tab, was, b, r, r0);
    }

    /** mp_shl */
    method ShiftLeftBits(shift: nat, low: Limb) returns (l: Limb)
      requires 1 <= shift < 32 && low < Pow(2, shift)
      modifies this
      ensures |tab| == |old(tab)| && l < Pow(2, shift) && Value() + l * Weight(|tab|) == old(Value()) * Pow(2,
          shift) + low
    {
      hide Pow;
      ghost var was, p := tab, Pow(2, shift);
      l := low;
      Pow32(shift);
      FromLowStarts(was, p, l);
      for i := 0 to |tab|
        invariant |tab| == |was| && l < p && FromLow(tab, was, i, p, l, low)
      {
        var a := tab[i];
        assert a == tab[i..][0] == was[i];
        ShiftLeft(a, l, p, Pow(2, 32 - shift));
        FromLowNext(tab, was, i, p, l, low, a * p + l);
        tab := tab[i := Lo(a as int * Pow(2, shift)) + l];
        l := a / Pow(2, 32 - shift);
      }
      FromLowEnds(tab, was, p, l, low);
    }

    /** mp_shr */
    method ShiftRightBits(shift: nat, high: Limb) returns (r: Limb)
      requires 1 <= shift < 32
      modifies this
      ensures |tab| == |old(tab)| && Pow(2, shift) > 0
      ensures Value() == (high % Pow(2, shift) * Weight(|tab|) + old(Value())) / Pow(2, shift)
      ensures r == (high % Pow(2, shift) * Weight(|tab|) + old(Value())) % Pow(2, shift)
    {
      hide Pow, Val, Weight, Lo, FromHigh;
      ghost var was, p := tab, Pow(2, shift);
      Pow32(shift);
      DivMod(high, p);
      var l: Limb := high;
      FromHighStarts(was, p, high % p);
      var i := |tab|;
      while i > 0
        invariant 0 <= i <= |tab| == |was| && p > 0 && FromHigh(tab, was, i, p, l % p, high % p)
      {
        i := i - 1;
        var a := tab[i];
        RightStep(tab, was, i, l, p, Pow(2, 32 - shift), high % p);
        tab := tab[i := a / Pow(2, shift) + Lo(l as int * Pow(2, 32 - shift))];
        l := a;
      }
      DivMod(l, p);
      FromHighEnds(tab, was, p, l % p, high % p);
      r := l % Pow(2, shift);
    }

    /** mp_div1norm: division by d = b / 2^shift with the reciprocal of the normalized divisor b. It does what
        mp_div1 does with d. */
    method DivNorm(b: Limb, r0: Limb, bInv: Limb, shift: nat, ghost d: Limb) returns (r: Limb)
      requires shift < 32 && b == d * Pow(2, shift) && b >= 0x8000_0000 && bInv == ReciprocalOf(b) && r0 < d
      modifies this
      ensures |tab| == |old(tab)|
      ensures Value() == (r0 * Weight(|tab|) + old(Value())) / d && r == (r0 * Weight(|tab|) + old(Value())) % d
    {
      hide Pow, Val, Weight, FromHigh, ReciprocalOf;
      ghost var was, p := tab, Pow(2, shift);
      Pow32(shift);
      r := r0;
      if shift != 0 {
        var carry := ShiftLeftBits(shift, 0);
        ShiftedIn(r0, carry, d, p, b, Weight(|tab|), Val(tab), Val(was));
        r := r0 as int * Pow(2, shift) + carry;
      } else {
        PowOne(2);
      }
      ghost var tab1, r1 := tab, r;
      assert r1 * Weight(|tab|) + Val(tab1) == (r0 * Weight(|tab|) + Val(was)) * p && r1 < b;
      FromHighStarts(tab1, b, r);
      var i := |tab|;
      while i > 0
        invariant 0 <= i <= |tab| == |tab1| && r < b && FromHigh(tab, tab1, i, b, r, r1)
      {
        i := i - 1;
        FromHighLimb(tab, tab1, i, b, r, r1);
        FromHighNext(tab, tab1, i, b, r, r1, r as int * 0x1_0000_0000 + tab[i]);
        var q;
        q, r := UDiv1Norm(r, tab[i], b, bInv);
        tab := tab[i := q];
      }
      FromHighEnds(tab, tab1, b, r, r1);
      DivScale(r0 * Weight(|was|) + Val(was), d, p);
      ghost var m := (r0 * Weight(|was|) + Val(was)) % d;
      DivUnique(r, p, m, 0);
      r := r / Pow(2, shift);
    }

    /** mpb_renorm */
    method Renorm()
      requires |tab| >= 1
      modifies this
      ensures Normal(tab) && Value() == old(Value()) && |tab| <= |old(tab)|
    {
      while |tab| > 1 && tab[|tab| - 1] == 0
        invariant 1 <= |tab| <= |old(tab)| && Value() == old(Value())
      {
        DropZero(tab);
        tab := tab[..|tab| - 1];
      }
    }
  }

  lemma {:induction false} FromHighLimb(tab: seq<Limb>, was: seq<Limb>, i: nat, b: nat, r: nat, r0: nat)
    requires i < |tab| && FromHigh(tab, was, i + 1, b, r, r0)
    ensures tab[i] == was[i]
  {
    assert tab[i] == tab[..i + 1][i] == was[i];
  }

  lemma {:induction false} ShiftedIn(r0: nat, carry: nat, d: nat, p: nat, b: nat, w: nat, v1: nat, v0: nat)
    requires p > 0 && b == d * p && r0 < d && carry < p && v1 + carry * w == v0 * p
    ensures 0 <= r0 * p + carry < b && (r0 * p + carry) * w + v1 == (r0 * w + v0) * p
  {
    MulLe(p, r0, d - 1);
    assert p * (d - 1) == d * p - p;
    assert (r0 * p + carry) * w == (r0 * p) * w + carry * w;
    assert (r0 * p) * w == (r0 * w) * p;
    assert (r0 * w + v0) * p == (r0 * w) * p + v0 * p;
  }

  lemma {:induction false} FromLowRest(tab: seq<Limb>, was: seq<Limb>, i: nat, l0: nat)
    requires FromLow(tab, was, i, 1, 0, l0)
    ensures Val(tab) == Val(was) + l0
  {
    ValSplit(tab, i);
    ValSplit(was, i);
  }

  lemma {:induction false} AddCarry(x: Limb, k: Limb)
    ensures (x + k) / 0x1_0000_0000 == if Lo(x as int + k) < k then 1 else 0
  {
    var t := x as int + k;
    if t >= 0x1_0000_0000 {
      DivUnique(t, 0x1_0000_0000, 1, t - 0x1_0000_0000);
    } else {
      DivUnique(t, 0x1_0000_0000, 0, t);
    }
  }
}
