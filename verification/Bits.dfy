/** Bits of bignums, and how they decide a rounding. */
module Bits {
  import opened Powers
  import opened Reciprocal
  import opened Limbs
  import opened Rounding
  import opened Bignum

  lemma {:induction false} WeightPow(l: nat)
    ensures Weight(l) == Pow(2, 32 * l)
  {
    Pow32(32);
    PowOne(2);
    PowPow(2, 32, l);
  }

  lemma {:induction false} BitPow(k: nat)
    ensures Pow(2, k) == Weight(k / 32) * Pow(2, k % 32)
  {
    WeightPow(k / 32);
    PowAdd(2, 32 * (k / 32), k % 32);
  }

  /** The bits of the limbs from l on, cut at bit j of the first of them. */
  lemma {:induction false} LimbBits(x: nat, y: nat, p: nat, h: nat)
    requires p > 0 && h > 0 && h % 2 == 0 && p * h == 0x1_0000_0000
    ensures (x + 0x1_0000_0000 * y) / p % 2 == x / p % 2
    ensures (x + 0x1_0000_0000 * y) % p == x % p
  {
    var g := h / 2;
    assert h * y == (g * y) * 2 by {
      MulAssoc(2, g, y);
    }
    assert 0x1_0000_0000 * y == (h * y) * p by {
      MulAssoc(p, h, y);
    }
    DivAdd(x, h * y, p);
    DivNat(x, p);
    DivAdd(x / p, g * y, 2);
  }

  lemma {:induction false} HalfWord(j: nat)
    requires j < 32
    ensures Pow(2, j) > 0 && Pow(2, 32 - j) > 0 && Pow(2, 32 - j) % 2 == 0 && Pow(2, j) * Pow(2,
        32 - j) == 0x1_0000_0000
  {
    Pow32(j);
    assert Pow(2, 32 - j) == 2 * Pow(2, 31 - j);
  }

  /** Bit k of a number that has a limb for it. */
  lemma {:induction false} BitAt(s: seq<Limb>, k: nat)
    requires k / 32 < |s|
    ensures Pow(2, k % 32) > 0 && Pow(2, k) > 0
    ensures Val(s) / Pow(2, k) % 2 == s[k / 32] as int / Pow(2, k % 32) % 2
  {
    var l, j := k / 32, k % 32;
    HalfWord(j);
    BitPow(k);
    ValDiv(s, l);
    ValSuffix(s, l);
    PowPos(2, k);
    DivDiv(Val(s), Weight(l), Pow(2, j));
    LimbBits(s[l], Val(s[l + 1..]), Pow(2, j), Pow(2, 32 - j));
  }

  /** Above the last limb all bits are zero. */
  lemma {:induction false} BitPast(s: seq<Limb>, k: nat)
    requires k / 32 >= |s|
    ensures Pow(2, k) > 0 && Val(s) < Pow(2, k) && Val(s) / Pow(2, k) == 0 && Val(s) % Pow(2, k) == Val(s)
  {
    var l, j := k / 32, k % 32;
    BitPow(k);
    PowPos(2, j);
    ValBound(s);
    PowGrows(0x1_0000_0000, |s|, l);
    MulLe(Weight(l), 1, Pow(2, j));
    DivUnique(Val(s), Pow(2, k), 0, Val(s));
  }

  /** The bits below bit k are all zero when the limbs below it are, and the low bits of its limb. */
  lemma {:induction false} LowBitsAt(s: seq<Limb>, k: nat)
    requires k / 32 < |s|
    ensures Pow(2, k) > 0 && Pow(2, k % 32) > 0
    ensures Val(s) % Pow(2, k) == 0 <==> AllZero(s[..k / 32]) && s[k / 32] as int % Pow(2, k % 32) == 0
  {
    var l, j := k / 32, k % 32;
    HalfWord(j);
    BitPow(k);
    PowPos(2, k);
    ValDiv(s, l);
    ValSuffix(s, l);
    DivDiv(Val(s), Weight(l), Pow(2, j));
    LimbBits(s[l], Val(s[l + 1..]), Pow(2, j), Pow(2, 32 - j));
    ValZero(s[..l]);
    DivMod(s[l] as int, Pow(2, j));
    var m := s[l] as int % Pow(2, j);
    if m > 0 {
      MulPos(Weight(l), m);
    }
  }

  /** The first bit that is dropped and the bits below it decide the rounding. */
  lemma {:induction false} RoundByBits(v: nat, h: nat, mode: Mode)
    requires h > 0
    ensures var up := if v / h % 2 == 0 then false else mode == RNDNA || v % h != 0 || v / (2 * h) % 2 == 1;
      RoundDiv(v, 2 * h, mode) == v / (2 * h) + if mode != RNDZ && up then 1 else 0
  {
    DivNat(v, h);
    DivNat(v, 2 * h);
    DivMod(v, h);
    DivDiv(v, h, 2);
    var b := v / h % 2;
    assert h * b == if b == 0 then 0 else h;
  }

  function BitLength(v: nat): (r: nat) {
    if v == 0 then 0 else 1 + BitLength(v / 2)
  }

  lemma {:induction false} BitLengthMeaning(v: nat)
    requires v > 0
    ensures BitLength(v) >= 1 && Pow(2, BitLength(v) - 1) <= v < Pow(2, BitLength(v))
  {
    if v > 1 {
      BitLengthMeaning(v / 2);
      assert Pow(2, BitLength(v)) == 2 * Pow(2, BitLength(v) - 1);
      assert Pow(2, BitLength(v) - 1) == 2 * Pow(2, BitLength(v) - 2);
    } else {
      assert BitLength(1) == 1 + BitLength(0);
      PowOne(2);
    }
  }

  lemma {:induction false} LimbLength(v: Limb)
    ensures BitLength(v) <= 32
  {
    if v > 0 {
      BitLengthMeaning(v);
      Pow32(32);
      PowOne(2);
      if BitLength(v) > 32 {
        PowGrows(2, 32, BitLength(v) - 1);
      }
    }
  }

  lemma {:induction false} TopPositive(s: seq<Limb>)
    requires Normal(s) && Val(s) > 0
    ensures s[|s| - 1] > 0
  {
    hide Val;
    ValZero(s);
  }

  /** The highest bit of a normal number is the highest bit of its top limb. */
  lemma {:induction false} TopBit(s: seq<Limb>)
    requires Normal(s) && Val(s) > 0
    ensures s[|s| - 1] > 0
    ensures var k := 32 * (|s| - 1) + BitLength(s[|s| - 1]) - 1; Pow(2, k) <= Val(s) < Pow(2, k + 1)
  {
    TopPositive(s);
    var n := |s| - 1;
    hide Pow, Weight, Val, BitLength, Normal;
    NormalBound(s);
    WeightNext(n);
    WeightPow(n);
    TopWord(Val(s), s[n], n, BitLength(s[n]));
  }

  lemma {:induction false} TopWord(v: nat, x: nat, n: nat, c: nat)
    requires x > 0 && c == BitLength(x) && Pow(2, 32 * n) > 0
    requires Pow(2, 32 * n) * x <= v < Pow(2, 32 * n) * (x + 1)
    ensures Pow(2, 32 * n + c - 1) <= v < Pow(2, 32 * n + c)
  {
    hide Pow, BitLength;
    BitLengthMeaning(x);
    PowAdd(2, 32 * n, c - 1);
    PowAdd(2, 32 * n, c);
    Between(Pow(2, 32 * n), x, Pow(2, c - 1), Pow(2, c), v);
  }

  lemma {:induction false} Between(w: nat, x: nat, p: nat, q: nat, v: nat)
    requires w > 0 && p <= x < q && w * x <= v < w * (x + 1)
    ensures w * p <= v < w * q
  {
    MulLe(w, p, x);
    MulLe(w, x + 1, q);
  }

  /** A number is normal when it is at least the weight of its last limb. */
  lemma {:induction false} NormalWhen(s: seq<Limb>)
    requires |s| >= 1 && (|s| == 1 || Val(s) >= Weight(|s| - 1))
    ensures Normal(s)
  {
    if |s| > 1 && s[|s| - 1] == 0 {
      DropZero(s);
      ValBound(s[..|s| - 1]);
    }
  }

  lemma {:induction false} NormalAtLeast(s: seq<Limb>)
    requires Normal(s) && |s| > 1
    ensures Val(s) >= Weight(|s| - 1)
  {
    NormalBound(s);
    WeightNext(|s| - 1);
    MulLe(Weight(|s| - 1), 1, s[|s| - 1]);
  }
}
