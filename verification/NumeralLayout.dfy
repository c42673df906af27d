/** How js_dtoa lays out the digits of a number, and what the number laid out is. */
module NumeralLayout {
  import opened Powers
  import opened Rounding
  import opened ScaledRounding
  import opened FloatSpec
  import opened DigitStrings
  import opened Scaling
  import opened OutputDigits
  import opened Atod

  datatype ExpMode = ExpAuto | ExpEnabled | ExpDisabled

  function Zeros(n: nat): (s: seq<nat>)
    ensures |s| == n && forall i :: 0 <= i < n ==> s[i] == 0
  {
    seq(n, i => 0)
  }

  /** The layouts of the output: with an exponent, below one, or with a point somewhere or behind the digits. */
  function Layout(digits: seq<nat>, e: int, radix: nat, radix1: nat, radixShift: nat, mode: ExpMode,
      eMax: int): (r: Numeral) {
    if mode == ExpEnabled || (mode == ExpAuto && (e <= -6 || e > eMax)) then
      if radix != 10 && radix1 == 1 && radixShift <= 4 then Numeral(digits, 1, BinaryExponent((e - 1) * radixShift))
      else Numeral(digits, 1, RadixExponent(e - 1))
    else if e <= 0 then Numeral(Zeros(1 - e) + digits, 1, NoExp)
    else if e <= |digits| then Numeral(digits, e, NoExp)
    else Numeral(digits + Zeros(e - |digits|), e, NoExp)
  }

  /** s is the number mant * radix^t, whichever of the digits behind the first kept ones are cut off. */
  ghost predicate Writes(s: Numeral, radix: nat, mant: nat, t: int, z: nat, p: nat) {
    && ValidDigits(s.digits, radix) && z + p <= |s.digits| && LeadingZeros(s.digits) >= z
    && forall k :: z + p <= k <= |s.digits| ==>
      Numer(s, radix, k) * Den(0, radix, t) == Num(mant, 0, radix, t) * Denom(s, radix, k)
  }

  /** Digits with zeros around them. */
  lemma {:induction false} PaddedValue(digits: seq<nat>, z: nat, q: nat, k: nat, radix: nat)
    requires radix > 0 && z + |digits| <= k <= z + |digits| + q
    ensures DigitsVal((Zeros(z) + digits + Zeros(q))[..k], radix) == DigitsVal(digits, radix) * Pow(radix,
        k - z - |digits|)
  {
    hide Pow, DigitsVal;
    var all, tail := Zeros(z) + digits + Zeros(q), Zeros(q)[..k - z - |digits|];
    SkipZeros(all, z, k, radix);
    assert all[z..][..k - z] == digits + tail;
    DigitsConcat(digits, tail, radix);
    DigitsZero(tail, radix);
  }

  lemma {:induction false} LeadingZerosAtLeast(digits: seq<nat>, z: nat)
    requires z <= |digits| && forall i :: 0 <= i < z ==> digits[i] == 0
    ensures LeadingZeros(digits) >= z
  {
    if z > 0 {
      LeadingZerosAtLeast(digits[1..], z - 1);
    }
  }

  /** Digits with zeros around them and an exponent of the radix. */
  lemma {:induction false} PaddedWrites(s: Numeral, digits: seq<nat>, radix: nat, t: int, z: nat, q: nat)
    requires radix > 0 && s.digits == Zeros(z) + digits + Zeros(q) && ValidDigits(digits, radix)
    requires !s.part.BinaryExponent? && s.dot + RadixExp(s) - z == t + |digits|
    ensures Writes(s, radix, DigitsVal(digits, radix), t, z, |digits|)
  {
    hide Pow, DigitsVal;
    var p, mant := |digits|, DigitsVal(digits, radix);
    LeadingZerosAtLeast(s.digits, z);
    forall k: nat | z + p <= k <= |s.digits|
      ensures Numer(s, radix, k) * Den(0, radix, t) == Num(mant, 0, radix, t) * Denom(s, radix, k)
    {
      var g := k - z - p;
      PaddedValue(digits, z, q, k, radix);
      NoBinaryPart(mant * Pow(radix, g), radix, t - g);
      NoBinaryPart(mant, radix, t);
      PowAdd(radix, g, Plus(t - g));
      PowAdd(radix, g + Plus(t - g), Minus(t));
      PowAdd(radix, Plus(t), Minus(t - g));
      assert g + Plus(t - g) + Minus(t) == Plus(t) + Minus(t - g);
      PaddedCross(mant, Pow(radix, g), Pow(radix, Plus(t - g)), Pow(radix, Minus(t)), Pow(radix, Plus(t)), Pow(radix,
          Minus(t - g)));
    }
  }

  lemma {:induction false} PaddedCross(m: int, a: int, b: int, c: int, x: int, y: int)
    requires (a * b) * c == x * y
    ensures ((m * a) * b) * c == (m * x) * y
  {
    MulAssoc(m, a, b);
    MulAssoc(m, a * b, c);
    MulAssoc(m, x, y);
  }

  /** Digits with one of them in front of the point and an exponent of two. */
  lemma {:induction false} BinaryWrites(s: Numeral, radix: nat, bits: nat, t: int)
    requires radix == Pow(2, bits) && s.digits != [] && ValidDigits(s.digits, radix)
    requires s.dot == 1 && s.part == BinaryExponent((t + |s.digits| - 1) * bits)
    ensures Writes(s, radix, DigitsVal(s.digits, radix), t, 0, |s.digits|)
  {
    hide Pow, DigitsVal;
    var p, mant, r := |s.digits|, DigitsVal(s.digits, radix), t + |s.digits| - 1;
    assert s.digits[..p] == s.digits;
    assert Plus(r * bits) == bits * Plus(r) && Minus(r * bits) == bits * Minus(r) by {
      if r >= 0 {
        MulLe(bits, 0, r);
      } else {
        MulLe(bits, r, 0);
        assert -(r * bits) == bits * -r;
      }
    }
    PowPow(2, bits, Plus(r));
    PowPow(2, bits, Minus(r));
    NoBinaryPart(mant, radix, t);
    PowAdd(radix, Plus(r), Plus(1 - p));
    PowAdd(radix, Minus(r), Minus(1 - p));
    PowAdd(radix, Plus(r) + Plus(1 - p), Minus(t));
    PowAdd(radix, Plus(t), Minus(r) + Minus(1 - p));
    MulAssoc(mant, Pow(radix, Plus(r)) * Pow(radix, Plus(1 - p)), Pow(radix, Minus(t)));
    MulAssoc(mant, Pow(radix, Plus(t)), Pow(radix, Minus(r)) * Pow(radix, Minus(1 - p)));
  }

  /** Every layout writes the number that the digits and the exponent stand for, with zeros around the digits. */
  lemma {:induction false} LayoutWrites(digits: seq<nat>, e: int, radix: nat, radix1: nat, radixShift: nat,
      mode: ExpMode, eMax: int)
    returns (z: nat, q: nat)
    requires radix == radix1 * Pow(2, radixShift) && radix > 0 && digits != [] && ValidDigits(digits, radix)
    ensures var s := Layout(digits, e, radix, radix1, radixShift, mode, eMax);
      && s.digits == Zeros(z) + digits + Zeros(q)
      && Writes(s, radix, DigitsVal(digits, radix), e - |digits|, z, |digits|)
  {
    hide Pow, DigitsVal, Writes;
    var s := Layout(digits, e, radix, radix1, radixShift, mode, eMax);
    z, q := if s.part.NoExp? && e <= 0 then 1 - e else 0, if s.part.NoExp? && e > |digits| then e - |digits| else 0;
    assert s.digits == Zeros(z) + digits + Zeros(q);
    if s.part.BinaryExponent? {
      BinaryWrites(s, radix, radixShift, e - |digits|);
    } else {
      PaddedWrites(s, digits, radix, e - |digits|, z, q);
    }
  }

  /** s is the number mant * radix^t. */
  ghost predicate IsNumber(s: Numeral, radix: nat, mant: nat, t: int) {
    Numer(s, radix, |s.digits|) * Den(0, radix, t) == Num(mant, 0, radix, t) * Denom(s, radix, |s.digits|)
  }

  /** The number s is below radix^i. */
  ghost predicate Below(s: Numeral, radix: nat, i: int) {
    Numer(s, radix, |s.digits|) * Pow(radix, Minus(i)) < Denom(s, radix, |s.digits|) * Pow(radix, Plus(i))
  }

  function WithoutTrailingZeros(digits: seq<nat>): (r: seq<nat>) {
    if digits == [] || digits[|digits| - 1] != 0 then digits else WithoutTrailingZeros(digits[..|digits| - 1])
  }

  /** The digits without the zeros in front of them and behind them. */
  function Significant(digits: seq<nat>): (r: seq<nat>) {
    WithoutTrailingZeros(digits[LeadingZeros(digits)..])
  }

  /** How a number is laid out. The exponent part is there when it is asked for, and, when that is left to the printer,
      for numbers below radix^-6 or from radix^(pMax + 4) on. Without it, there are digits in front of the point, and no
      needless zeros before them or behind the others; with it, one digit stands in front of the point, not zero unless
      the number is, and the exponent is one of two if the radix is a power of two up to sixteen. */
  ghost predicate LaidOut(s: Numeral, mode: ExpMode, radix: nat, pMax: nat, zero: bool) {
    && (mode == ExpDisabled ==> s.part.NoExp?)
    && (mode == ExpEnabled ==> !s.part.NoExp?)
    && (mode == ExpAuto ==> (!s.part.NoExp? <==> !zero && (Below(s, radix, -6) || !Below(s, radix, pMax + 4))))
    && (zero && !s.part.NoExp? ==> s.part.expn == 0)
    && 1 <= s.dot <= |s.digits| && (|s.digits| > s.dot ==> s.digits[|s.digits| - 1] != 0)
    && if s.part.NoExp? then s.dot > 1 ==> s.digits[0] != 0
       else s.dot == 1 && (s.digits[0] == 0 ==> zero) && (s.part.BinaryExponent? <==> radix in {2, 4, 8, 16})
  }

  lemma {:induction false} LeadingZerosAre(digits: seq<nat>, z: nat)
    requires z < |digits| && digits[z] != 0 && forall i :: 0 <= i < z ==> digits[i] == 0
    ensures LeadingZeros(digits) == z
  {
    if z > 0 {
      LeadingZerosAre(digits[1..], z - 1);
    }
  }

  lemma {:induction false} AllZeros(digits: seq<nat>)
    requires forall i :: 0 <= i < |digits| ==> digits[i] == 0
    ensures LeadingZeros(digits) == |digits|
  {
    if digits != [] {
      AllZeros(digits[1..]);
    }
  }

  lemma {:induction false} TrailingZerosDrop(digits: seq<nat>, q: nat)
    requires digits != [] && digits[|digits| - 1] != 0
    ensures WithoutTrailingZeros(digits + Zeros(q)) == digits
  {
    var all := digits + Zeros(q);
    if q == 0 {
      assert all == digits;
    } else {
      assert all[..|all| - 1] == digits + Zeros(q - 1);
      TrailingZerosDrop(digits, q - 1);
    }
  }

  lemma {:induction false} SignificantPadded(z: nat, digits: seq<nat>, q: nat)
    requires digits != [] && digits[0] != 0 && digits[|digits| - 1] != 0
    ensures Significant(Zeros(z) + digits + Zeros(q)) == digits
  {
    hide LeadingZeros, WithoutTrailingZeros;
    var all := Zeros(z) + digits + Zeros(q);
    LeadingZerosAre(all, z);
    assert all[z..] == digits + Zeros(q);
    TrailingZerosDrop(digits, q);
  }

  lemma {:induction false} SignificantZero(digits: seq<nat>)
    requires forall i :: 0 <= i < |digits| ==> digits[i] == 0
    ensures Significant(digits) == []
  {
    AllZeros(digits);
  }

  /** A number with a full mantissa is below the powers of the radix from its exponent on. */
  lemma {:induction false} BelowIff(s: Numeral, radix: nat, mant: nat, t: int, p: nat, i: int)
    requires radix >= 2 && p >= 1 && Pow(radix, p - 1) <= mant < Pow(radix, p) && IsNumber(s, radix, mant, t)
    requires Denom(s, radix, |s.digits|) > 0
    ensures Below(s, radix, i) <==> p + t <= i
  {
    hide Pow, Numer, Denom;
    NoBinaryPart(mant, radix, t);
    PowPos(radix, Minus(t));
    var n, d := Numer(s, radix, |s.digits|), Denom(s, radix, |s.digits|);
    SameBelow(n, d, mant * Pow(radix, Plus(t)), Pow(radix, Minus(t)), Pow(radix, Minus(i)), Pow(radix, Plus(i)));
    PowAdd(radix, Plus(t), Minus(i));
    PowAdd(radix, Minus(t), Plus(i));
    MulAssoc(mant, Pow(radix, Plus(t)), Pow(radix, Minus(i)));
    var x, y := Plus(t) + Minus(i), Minus(t) + Plus(i);
    PowPos(radix, x);
    if p + t <= i {
      PowAdd(radix, p, x);
      PowGrows(radix, p + x, y);
      MulLt(Pow(radix, x), mant, Pow(radix, p));
    } else {
      PowAdd(radix, p - 1, x);
      PowGrows(radix, y, p - 1 + x);
      MulLe(Pow(radix, x), Pow(radix, p - 1), mant);
    }
  }

  /** Which fraction a number is given as does not matter. */
  lemma {:induction false} SameBelow(n: int, d: int, n1: int, d1: int, x: int, y: int)
    requires d > 0 && d1 > 0 && n * d1 == n1 * d
    ensures n * x < d * y <==> n1 * x < d1 * y
  {
    assert (n * x) * d1 == (n1 * x) * d by {
      assert (n * x) * d1 == (n * d1) * x;
      assert (n1 * x) * d == (n1 * d) * x;
    }
    assert (d * y) * d1 == (d1 * y) * d;
    Compare(n * x, d * y, d1);
    Compare(n1 * x, d1 * y, d);
  }

  /** The layout keeps the rules, for digits without zeros at their ends, or for zero. */
  lemma {:induction false} LayoutRules(digits: seq<nat>, e: int, radix: nat, radix1: nat, radixShift: nat,
      mode: ExpMode, pMax: nat)
    requires OddRadix(radix1) && radix == radix1 * Pow(2, radixShift) && 2 <= radix <= 36
    requires digits != [] && ValidDigits(digits, radix)
    requires (digits == [0] && e == 1) || (digits[0] != 0 && digits[|digits| - 1] != 0)
    ensures var s := Layout(digits, e, radix, radix1, radixShift, mode, pMax + 4);
      && LaidOut(s, mode, radix, pMax, digits == [0])
      && IsNumber(s, radix, DigitsVal(digits, radix), e - |digits|)
      && Significant(s.digits) == if digits == [0] then [] else digits
  {
    hide Pow, DigitsVal, Writes, IsNumber, Below, Significant;
    var s := Layout(digits, e, radix, radix1, radixShift, mode, pMax + 4);
    var z, q := LayoutWrites(digits, e, radix, radix1, radixShift, mode, pMax + 4);
    WritesNumber(s, radix, DigitsVal(digits, radix), e - |digits|, z, |digits|);
    BinaryRadices(radix, radix1, radixShift);
    if digits == [0] {
      SignificantZero(s.digits);
    } else {
      SignificantPadded(z, digits, q);
      LeadingDigit(digits, radix);
      DigitsBound(digits, radix);
      BelowIff(s, radix, DigitsVal(digits, radix), e - |digits|, |digits|, -6);
      BelowIff(s, radix, DigitsVal(digits, radix), e - |digits|, |digits|, pMax + 4);
    }
  }

  lemma {:induction false} WritesNumber(s: Numeral, radix: nat, mant: nat, t: int, z: nat, p: nat)
    requires radix > 0 && Writes(s, radix, mant, t, z, p)
    ensures IsNumber(s, radix, mant, t) && Denom(s, radix, |s.digits|) > 0
  {
    DenPos(BinExp(s), radix, s.dot - |s.digits| + RadixExp(s));
  }

  lemma {:induction false} SmallPowers()
    ensures Pow(2, 0) == 1 && Pow(2, 1) == 2 && Pow(2, 2) == 4 && Pow(2, 3) == 8 && Pow(2, 4) == 16 && Pow(2, 5) == 32
  {
    assert Pow(2, 2) == 4;
    assert Pow(2, 4) == 4 * Pow(2, 2);
  }

  /** The powers of two among the radices are those without an odd factor. */
  lemma {:induction false} BinaryRadices(radix: nat, radix1: nat, radixShift: nat)
    requires 2 <= radix <= 36 && OddRadix(radix1) && radix == radix1 * Pow(2, radixShift)
    ensures radix1 == 1 <==> radix in {2, 4, 8, 16, 32}
    ensures radix1 == 1 && radixShift <= 4 <==> radix in {2, 4, 8, 16}
  {
    hide Pow;
    SmallPowers();
    if radix1 == 1 {
      SmallShift(radixShift);
    } else {
      OddFactor(radix1, radixShift, 1);
      OddFactor(radix1, radixShift, 2);
      OddFactor(radix1, radixShift, 3);
      OddFactor(radix1, radixShift, 4);
      OddFactor(radix1, radixShift, 5);
    }
  }
}
