/** Scaling a bignum by a power of the radix, with correct rounding. */
module Scaling {
  import opened Powers
  import opened Reciprocal
  import opened Limbs
  import opened Rounding
  import opened Bignum
  import opened Bits
  import opened BignumOps

  /** How often radix goes into bound. */
  function Fits(radix: nat, bound: nat): (r: nat)
    requires radix >= 2
  {
    if radix > bound then 0 else
      DivSmaller(bound, radix);
      1 + Fits(radix, bound / radix)
  }

  lemma {:induction false} DivSmaller(a: nat, d: nat)
    requires d >= 2 && a > 0
    ensures 0 <= a / d < a
  {
    DivMod(a, d);
    DivNat(a, d);
    var q := a / d;
    MulLe(q, 2, d);
  }

  lemma {:induction false} FitsMeaning(radix: nat, bound: nat)
    requires radix >= 2 && bound >= 1
    ensures Pow(radix, Fits(radix, bound)) <= bound < Pow(radix, Fits(radix, bound) + 1)
    decreases bound
  {
    if radix <= bound {
      DivSmaller(bound, radix);
      var q := bound / radix;
      QuotientBounds(bound, radix);
      FitsMeaning(radix, q);
      PowBetween(radix, Fits(radix, q), q, bound);
    } else {
      PowOne(radix);
    }
  }

  lemma {:induction false} QuotientBounds(bound: nat, radix: nat)
    requires 2 <= radix <= bound
    ensures bound / radix >= 1 && radix * (bound / radix) <= bound < radix * (bound / radix + 1)
  {
    DivMod(bound, radix);
    var q := bound / radix;
    if q <= 0 {
      MulLe(radix, q, 0);
    }
    assert radix * (q + 1) == q * radix + radix;
  }

  lemma {:induction false} PowBetween(radix: nat, k: nat, q: nat, bound: nat)
    requires radix >= 2 && Pow(radix, k) <= q < Pow(radix, k + 1) && radix * q <= bound < radix * (q + 1)
    ensures Pow(radix, k + 1) <= bound < Pow(radix, k + 2)
  {
    MulLe(radix, Pow(radix, k), q);
    MulLe(radix, q + 1, Pow(radix, k + 1));
    assert Pow(radix, k + 2) == radix * Pow(radix, k + 1);
  }

  /** digits_per_limb_table: the most digits in the radix that fit a limb. */
  function DigitsPerLimb(radix: nat): (r: nat)
    requires radix >= 2
  {
    Fits(radix, 0x1_0000_0000)
  }

  /** An odd radix: what is left of a radix once its factors of two are taken out. */
  predicate OddRadix(radix1: nat) {
    1 <= radix1 <= 36 && radix1 % 2 == 1
  }

  lemma {:induction false} OddTimes(b: nat, p: nat)
    requires b % 2 == 1 && p % 2 == 1
    ensures (b * p) % 2 == 1
  {
    var k, l := b / 2, p / 2;
    assert b == 2 * k + 1 && p == 2 * l + 1;
    assert b * p == (2 * k) * p + p;
    MulAssoc(2, k, p);
    assert b * p == 2 * (k * p + l) + 1;
  }

  lemma {:induction false} OddPower(b: nat, n: nat)
    requires b % 2 == 1
    ensures Pow(b, n) % 2 == 1
  {
    if n > 0 {
      OddPower(b, n - 1);
      OddTimes(b, Pow(b, n - 1));
    }
  }

  /** A chunk of digits is a limb. */
  lemma {:induction false} ChunkFits(radix1: nat, n: nat)
    requires OddRadix(radix1) && radix1 >= 2 && n <= DigitsPerLimb(radix1)
    ensures 0 < Pow(radix1, n) < 0x1_0000_0000 && DigitsPerLimb(radix1) >= 1
  {
    FitsMeaning(radix1, 0x1_0000_0000);
    PowGrows(radix1, n, DigitsPerLimb(radix1));
    OddPower(radix1, n);
    PowPos(radix1, n);
    PowOne(radix1);
  }

  /** The exponent, bit by bit from the top. */
  lemma {:induction false} PowBit(a: nat, b: nat, i: nat)
    ensures Pow(2, i) > 0 && Pow(2, i + 1) > 0
    ensures 0 <= b / Pow(2, i) && 0 <= b / Pow(2, i + 1)
    ensures Pow(a, b / Pow(2, i)) ==
            Pow(a, b / Pow(2, i + 1)) * Pow(a, b / Pow(2, i + 1)) * (if b / Pow(2, i) % 2 == 1 then a else 1)
  {
    PowPos(2, i);
    PowPos(2, i + 1);
    DivNat(b, Pow(2, i));
    DivNat(b, Pow(2, i + 1));
    DivDiv(b, Pow(2, i), 2);
    var x, y := b / Pow(2, i), b / Pow(2, i + 1);
    assert Pow(2, i + 1) == Pow(2, i) * 2;
    DivMod(x, 2);
    assert x == y + y + x % 2;
    PowAdd(a, y, y);
    PowAdd(a, y + y, x % 2);
    PowOne(a);
  }

  /** pow_ui, without the table of powers of five. */
  method PowUi(a: nat, b: nat) returns (r: nat)
    ensures r == Pow(a, b)
  {
    hide Pow, BitLength;
    PowOne(a);
    if b == 0 {
      return 1;
    }
    if b == 1 {
      return a;
    }
    r := a;
    var nBits := BitLength(b);
    BitLengthMeaning(b);
    TopPower(b, nBits);
    var i: int := nBits - 2;
    while i >= 0
      invariant -1 <= i <= nBits - 2
      invariant Pow(2, i + 1) > 0 && b / Pow(2, i + 1) >= 0 && r == Pow(a, b / Pow(2, i + 1))
    {
      PowBit(a, b, i);
      r := r * r;
      if b / Pow(2, i) % 2 == 1 {
        r := r * a;
      }
      i := i - 1;
    }
    PowOne(2);
  }

  lemma {:induction false} TopPower(b: nat, n: nat)
    requires b >= 2 && n >= 1 && Pow(2, n - 1) <= b < Pow(2, n)
    ensures n >= 2 && Pow(2, n - 1) > 0 && b / Pow(2, n - 1) == 1
  {
    PowOne(2);
    PowPos(2, n - 1);
    if n == 1 {
      assert false;
    }
    DivUnique(b, Pow(2, n - 1), 1, b - Pow(2, n - 1));
  }

  /** pow_ui_inv: a chunk, normalized, with its reciprocal and the shift that normalized it. */
  method PowUiInv(a: nat, b: nat) returns (r: Limb, rInv: Limb, shift: nat)
    requires OddRadix(a) && a >= 2 && b <= DigitsPerLimb(a)
    ensures shift < 32 && r == Pow(a, b) * Pow(2, shift) && r >= 0x8000_0000 && rInv == ReciprocalOf(r)
  {
    ChunkFits(a, b);
    var v := PowUi(a, b);
    var n := BitLength(v);
    LimbLength(v);
    shift := 32 - n;
    Normalize(v, n);
    r := v * Pow(2, shift);
    ReciprocalMeaning(r);
    rInv := ReciprocalOf(r);
  }

  lemma {:induction false} Normalize(v: nat, n: nat)
    requires 0 < v && n == BitLength(v) <= 32
    ensures n >= 1 && 0x8000_0000 <= v * Pow(2, 32 - n) < 0x1_0000_0000
  {
    BitLengthMeaning(v);
    Pow32(n);
    NormalizedBounds(v, Pow(2, 32 - n), Pow(2, n - 1));
  }

  lemma {:induction false} NormalizedBounds(v: nat, p: nat, h: nat)
    requires p > 0 && (2 * h) * p == 0x1_0000_0000 && h <= v < 2 * h
    ensures 0x8000_0000 <= v * p < 0x1_0000_0000
  {
    MulLe(p, h, v);
    MulLt(p, v, 2 * h);
    MulAssoc(2, h, p);
  }

  function MinNat(x: nat, y: nat): (r: nat) {
    if x < y then x else y
  }

  /** The loop of mul_pow for a positive exponent: the exact product, chunk by chunk. */
  method MulUp(a: Mpb, radix1: nat, f0: nat)
    requires OddRadix(radix1) && radix1 >= 2 && Normal(a.tab)
    modifies a
    ensures a.Value() == old(a.Value()) * Pow(radix1, f0) && Normal(a.tab)
  {
    hide Pow, Val, Normal, Weight, Fits, OddRadix;
    var d := DigitsPerLimb(radix1);
    var b: Limb, n0: nat, f: nat := 0, 0, f0;
    PowOne(radix1);
    ghost var v := a.Value();
    while f != 0
      invariant f <= f0 && Normal(a.tab) && a.Value() == v * Pow(radix1, f0 - f)
      invariant n0 != 0 ==> b == Pow(radix1, n0)
    {
      var n := MinNat(f, d);
      ChunkFits(radix1, n);
      if n != n0 {
        b := PowUi(radix1, n);
        n0 := n;
      }
      MulChunk(a, b);
      PowAdd(radix1, f0 - f, n);
      MulAssoc(v, Pow(radix1, f0 - f), Pow(radix1, n));
      f := f - n;
    }
  }

  method MulChunk(a: Mpb, b: Limb)
    requires Normal(a.tab) && b > 0
    modifies a
    ensures a.Value() == old(a.Value()) * b && Normal(a.tab)
  {
    ghost var was := a.tab;
    var h := a.MulSmall(b, 0);
    if h != 0 {
      ValSnoc(a.tab, h);
      a.tab := a.tab + [h];
    } else {
      if |was| > 1 {
        NormalAtLeast(was);
      }
      MulLe(Val(was), 1, b);
      NormalWhen(a.tab);
    }
  }

  /** The loop of mul_pow for a negative exponent: floor divisions, chunk by chunk. The or-ed remainders are zero
      exactly when the whole division is exact. */
  method DivDown(a: Mpb, radix1: nat, f0: nat) returns (inexact: bool)
    requires OddRadix(radix1) && radix1 >= 2 && |a.tab| >= 1 && f0 > 0
    modifies a
    ensures Pow(radix1, f0) > 0 && a.Value() == old(a.Value()) / Pow(radix1, f0) && Normal(a.tab)
    ensures inexact <==> old(a.Value()) % Pow(radix1, f0) != 0
  {
    hide Pow, Val, Weight, Fits, OddRadix, ReciprocalOf, Normal;
    var d := DigitsPerLimb(radix1);
    var b: Limb, bInv: Limb, shift: nat, n0: nat, f: nat := 0, 0, 0, 0, f0;
    inexact := false;
    PowOne(radix1);
    PowPos(radix1, f0);
    ghost var v := a.Value();
    DivUnique(v, 1, v, 0);
    while f != 0
      invariant f <= f0 && |a.tab| >= 1 && (f < f0 ==> Normal(a.tab)) && Pow(radix1, f0 - f) > 0
      invariant a.Value() == v / Pow(radix1, f0 - f) && (inexact <==> v % Pow(radix1, f0 - f) != 0)
      invariant n0 != 0 ==> Chunk(b, bInv, shift, Pow(radix1, n0))
    {
      hide Chunk;
      var n := MinNat(f, d);
      ChunkFits(radix1, n);
      if n != n0 {
        b, bInv, shift := PowUiInv(radix1, n);
        assert Chunk(b, bInv, shift, Pow(radix1, n)) by { ChunkIs(b, bInv, shift, Pow(radix1, n)); }
        n0 := n;
      }
      var r := DivChunk(a, b, bInv, shift, Pow(radix1, n));
      if r != 0 {
        inexact := true;
      }
      ChunkDivided(v, Pow(radix1, f0 - f), Pow(radix1, n));
      PowAdd(radix1, f0 - f, n);
      f := f - n;
    }
  }

  /** A normalized divisor with its reciprocal, for the divisor d. */
  ghost predicate Chunk(b: Limb, bInv: Limb, shift: nat, d: nat) {
    shift < 32 && b == d * Pow(2, shift) && b >= 0x8000_0000
    && bInv == ReciprocalOf(b) && 0 < d < 0x1_0000_0000
  }

  lemma {:induction false} ChunkIs(b: Limb, bInv: Limb, shift: nat, d: nat)
    requires shift < 32 && b == d * Pow(2, shift) && b >= 0x8000_0000
    requires bInv == ReciprocalOf(b) && 0 < d < 0x1_0000_0000
    ensures Chunk(b, bInv, shift, d)
  {
  }

  method DivChunk(a: Mpb, b: Limb, bInv: Limb, shift: nat, ghost d: nat) returns (r: Limb)
    requires Chunk(b, bInv, shift, d) && |a.tab| >= 1
    modifies a
    ensures d > 0 && a.Value() == old(a.Value()) / d && r == old(a.Value()) % d && Normal(a.tab) && |a.tab| >= 1
  {
    hide Pow, Val, Weight, ReciprocalOf;
    ghost var x, w := a.Value(), Weight(|a.tab|);
    r := a.DivNorm(b, 0, bInv, shift, d);
    assert 0 * w + x == x;
    a.Renorm();
  }

  /** One more chunk of a division: the remainders are zero together exactly when the whole remainder is. */
  lemma {:induction false} ChunkDivided(v: nat, p: nat, q: nat)
    requires p > 0 && q > 0
    ensures p * q > 0 && v / p >= 0 && v / p / q == v / (p * q)
    ensures v % (p * q) != 0 <==> v % p != 0 || v / p % q != 0
  {
    DivNat(v, p);
    DivDiv(v, p, q);
    DivMod(v, p);
    DivMod(v / p, q);
    var m := v / p % q;
    if m > 0 {
      MulPos(p, m);
    }
  }

  /** a->tab[0] |= 1 */
  method SetSticky(a: Mpb)
    requires Normal(a.tab)
    modifies a
    ensures a.Value() == (if old(a.Value()) % 2 == 0 then old(a.Value()) + 1 else old(a.Value())) && Normal(a.tab)
  {
    ghost var was := a.tab;
    ghost var rest := Val(was[1..]);
    assert Val(was) == was[0] + 0x1_0000_0000 * rest;
    assert Val(was) % 2 == was[0] % 2 by {
      assert 0x1_0000_0000 * rest == 2 * (0x8000_0000 * rest);
    }
    if a.tab[0] % 2 == 0 {
      a.tab := a.tab[0 := a.tab[0] + 1];
    }
    assert a.tab[1..] == was[1..];
  }

  function MaxInt(x: int, y: int): (r: int) {
    if x > y then x else y
  }

  /** The number of limbs that F digits can take, as mul_pow bounds it. */
  function LimbBound(f: nat, d: nat): (r: nat)
    requires d > 0
  {
    DivNat(f + d - 1, d);
    (f + d - 1) / d
  }

  lemma {:induction false} LimbsSuffice(radix1: nat, f: nat)
    requires OddRadix(radix1) && radix1 >= 2
    ensures DigitsPerLimb(radix1) > 0 && Pow(radix1, f) <= Pow(2, 32 * LimbBound(f, DigitsPerLimb(radix1)))
  {
    var d := DigitsPerLimb(radix1);
    ChunkFits(radix1, d);
    var l := LimbBound(f, d);
    DivMod(f + d - 1, d);
    assert f <= l * d;
    PowGrows(radix1, f, l * d);
    assert l * d == d * l;
    PowPow(radix1, d, l);
    PowMonoBase(Pow(radix1, d), 0x1_0000_0000, l);
    WeightPow(l);
  }

  /** What mul_pow leaves in a: the exact product, or the quotient with a sticky last bit. */
  ghost predicate Scaled(v: nat, w: nat, radix1: nat, f: int, up: nat)
    requires radix1 > 0
  {
    if f >= 0 || radix1 == 1 then w == v * (if f >= 0 then Pow(radix1, f) else 1) && up == 0
    else Pow(radix1, -f) > 0 && w == Sticky(v * Pow(2, up), Pow(radix1, -f))
  }

  /** mul_pow: with the radix radix1 * 2^radixShift, a * radix^f is what a becomes times 2^-eOffset, except for the
      bits below the last one. When isInt, at least two extra bits are there for rounding to a multiple of 2^-e;
      otherwise at least e bits are in the result. */
  method MulPow(a: Mpb, radix1: nat, radixShift: nat, f: int, isInt: bool, e: int)
    returns (eOffset: int, ghost up: nat)
    requires OddRadix(radix1) && Normal(a.tab) && (!isInt ==> e >= 0)
    modifies a
    ensures Normal(a.tab) && Scaled(old(a.Value()), a.Value(), radix1, f, up) && eOffset == -f * radixShift + up
    ensures f < 0 && radix1 != 1 && isInt ==> eOffset - e >= 2
    ensures f < 0 && radix1 != 1 && !isInt && old(a.Value()) > 0 ==> a.Value() >= Pow(2, e)
  {
    assert |a.tab| >= 1;
    hide Pow, Val, Normal, Weight, Fits, LimbBound;
    ghost var v := a.Value();
    eOffset := -f * radixShift;
    up := 0;
    if radix1 == 1 {
      PowOnes(f);
    } else if f >= 0 {
      MulUp(a, radix1, f);
    } else {
      LimbsSuffice(radix1, -f);
      PowPos(radix1, -f);
      var l := LimbBound(-f, DigitsPerLimb(radix1));
      eOffset := eOffset + l * 32;
      var extraBits: int;
      if !isInt {
        var k := FloorLog2(a);
        extraBits := MaxInt(e - k, 0);
        EnoughBits(v, k, e, extraBits, l, Pow(radix1, -f));
      } else {
        extraBits := MaxInt(2 + e - eOffset, 0);
      }
      eOffset := eOffset + extraBits;
      up := l * 32 + extraBits;
      ShiftUp(a, l * 32 + extraBits);
      ghost var n := a.Value();
      var inexact := DivDown(a, radix1, -f);
      if inexact {
        SetSticky(a);
      }
    }
  }

  lemma {:induction false} PowOnes(f: int)
    ensures f >= 0 ==> Pow(1, f) == 1
    decreases if f < 0 then 0 else f
  {
    if f > 0 {
      PowOnes(f - 1);
    }
  }

  /** The quotient has at least e bits. */
  lemma {:induction false} EnoughBits(v: nat, k: int, e: nat, extra: nat, l: nat, d: nat)
    requires d > 0 && d <= Pow(2, 32 * l) && extra == MaxInt(e - k, 0)
    requires k >= -1 && (k == -1 <==> v == 0) && (k >= 0 ==> Pow(2, k) <= v)
    ensures v > 0 ==> Sticky(v * Pow(2, l * 32 + extra), d) >= Pow(2, e)
  {
    hide Pow;
    if v > 0 {
      PowAdd(2, 32 * l, extra);
      PowPos(2, extra);
      PowAdd(2, k, extra);
      PowGrows(2, e, k + extra);
      MulLe(Pow(2, extra), Pow(2, k), v);
      QuotientAtLeast(v, Pow(2, extra), Pow(2, 32 * l), d, Pow(2, e));
    }
  }

  lemma {:induction false} QuotientAtLeast(v: nat, w: nat, p: nat, d: nat, m: nat)
    requires 0 < d <= p && m <= v * w
    ensures Sticky(v * (p * w), d) >= m
  {
    var n := v * (p * w);
    assert n == (v * w) * p by {
      MulAssoc(v, w, p);
      assert w * p == p * w;
    }
    MulLe(v * w, d, p);
    MulLe(d, m, v * w);
    FloorAtLeast(n, d, m);
  }

  lemma {:induction false} FloorAtLeast(n: nat, d: nat, m: nat)
    requires d > 0 && m * d <= n
    ensures n / d >= m
  {
    DivMod(n, d);
    var q := n / d;
    assert (q + 1) * d == q * d + d;
    if q < m {
      MulLe(d, q + 1, m);
    }
  }
}
