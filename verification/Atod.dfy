/** js_atod, from the digits on: the double nearest to a number as it is written. */
module Atod {
  import opened Powers
  import opened Limbs
  import opened Rounding
  import opened Bignum
  import opened Scaling
  import opened ScaledRounding
  import opened FloatSpec
  import opened RoundToDouble
  import opened Reading
  import opened FreeDigits
  import opened Doubles
  import opened DigitStrings

  /** The exponent part of a number: after the letter p, the exponent is one of two. */
  datatype ExpPart = NoExp | RadixExponent(expn: int) | BinaryExponent(expn: int)

  /** A number as it is written: its digits, how many of them come before the point, and the exponent part. */
  datatype Numeral = Numeral(digits: seq<nat>, dot: nat, part: ExpPart)

  function RadixExp(s: Numeral): (r: int) {
    if s.part.RadixExponent? then s.part.expn else 0
  }

  function BinExp(s: Numeral): (r: int) {
    if s.part.BinaryExponent? then s.part.expn else 0
  }

  /** The number that the first k digits stand for, as a fraction. */
  function Numer(s: Numeral, radix: nat, k: nat): (r: nat)
    requires k <= |s.digits|
  {
    Num(DigitsVal(s.digits[..k], radix), BinExp(s), radix, s.dot - k + RadixExp(s))
  }

  function Denom(s: Numeral, radix: nat, k: nat): (r: nat) {
    Den(BinExp(s), radix, s.dot - k + RadixExp(s))
  }

  function LeadingZeros(digits: seq<nat>): (z: nat)
    ensures z <= |digits|
  {
    if digits == [] || digits[0] != 0 then 0 else 1 + LeadingZeros(digits[1..])
  }

  /** How many of the digits count: all of them when the radix is a power of two, otherwise at most maxDigits after the
      leading zeros. */
  function KeptDigits(digits: seq<nat>, radix1: nat, maxDigits: nat): (k: nat)
    ensures k <= |digits|
  {
    if radix1 == 1 || |digits| - LeadingZeros(digits) <= maxDigits then |digits| else LeadingZeros(digits) + maxDigits
  }

  /** What js_atod relies on: with all the digits it keeps, a bignum in a power of two has 55 bits, and beyond the
      exponents of the tables numbers overflow, or round to zero. */
  ghost predicate AtodTables(radix1: nat, radix: nat, maxDigits: nat, maxExponent: int, minExponent: int) {
    maxDigits >= 1
    && if radix1 == 1 then Pow(radix, maxDigits - 1) >= Pow(2, 55)
       else maxExponent >= 0 && minExponent <= 0 && Pow(radix, maxExponent) >= Pow(2, 1024)
            && Pow(radix, -minExponent) >= Pow(2, 1075)
  }

  /** Numbers from 2^1024 on are infinite. */
  lemma {:induction false} LargeNearest(n: nat, d: nat, p: nat)
    requires p >= Pow(2, 1024) && n >= p * d
    ensures NearestDouble(INFINITY, n, d)
  {
    hide Pow;
    Pow1023();
    PowAdd(2, 1024, 1074);
    LargeUnits(n, d, p, Pow(2, 1024), Pow(2, 1074));
    hide UnitValue;
    forall b: nat | b <= INFINITY
      ensures Abs(d * UnitValue(INFINITY) - n * Pow(2, 1074)) <= Abs(d * UnitValue(b) - n * Pow(2, 1074))
    {
      UnitValueMax(b);
      MulLe(d, UnitValue(b), Pow(2, 2098));
    }
  }

  lemma {:induction false} LargeUnits(n: nat, d: nat, p: nat, x: nat, y: nat)
    requires p >= x && n >= p * d
    ensures d * (x * y) <= n * y
  {
    MulLe(d, x, p);
    MulLe(y, d * x, n);
    MulAssoc(d, x, y);
  }

  /** Numbers up to half of 2^-1074 are zero. */
  lemma {:induction false} SmallNearest(n: nat, d: nat, p: nat)
    requires p >= Pow(2, 1075) && n * p <= d
    ensures NearestDouble(0, n, d)
  {
    assert UnitValue(0) == 0;
    assert Pow(2, 1075) == 2 * Pow(2, 1074);
    hide Pow, UnitValue;
    var v := n * Pow(2, 1074);
    assert 2 * v <= d by {
      MulLe(n, Pow(2, 1075), p);
      assert n * (2 * Pow(2, 1074)) == 2 * v;
    }
    forall b: nat | b <= INFINITY && UnitValue(b) != UnitValue(0)
      ensures Abs(d * UnitValue(0) - v) <= Abs(d * UnitValue(b) - v)
    {
      MulLe(d, 1, UnitValue(b));
    }
  }

  /** v * b^i, when v has more than c digits. */
  lemma {:induction false} ValueAtLeast(v: nat, b: nat, c: nat, i: nat, j: nat, top: nat)
    requires b > 0 && v >= Pow(b, c) && c + i >= top + j
    ensures v * Pow(b, i) >= Pow(b, top) * Pow(b, j)
  {
    hide Pow;
    PowAdd(b, c, i);
    PowAdd(b, top, j);
    PowGrows(b, top + j, c + i);
    MulLe(Pow(b, i), Pow(b, c), v);
  }

  /** v * b^i, when v has at most c digits. */
  lemma {:induction false} ValueAtMost(v: nat, b: nat, c: nat, i: nat, j: nat, top: nat)
    requires b > 0 && v < Pow(b, c) && c + i + top <= j
    ensures (v * Pow(b, i)) * Pow(b, top) <= Pow(b, j)
  {
    hide Pow;
    PowAdd(b, c, i);
    PowAdd(b, c + i, top);
    PowGrows(b, c + i + top, j);
    MulLe(Pow(b, i), v, Pow(b, c));
    MulLe(Pow(b, top), v * Pow(b, i), Pow(b, c + i));
  }

  /** w has all of v / 2^k, or its first 55 bits and a sticky last bit. */
  ghost predicate CutOff(w: nat, v: nat, k: nat) {
    Pow(2, k) > 0 && w == Sticky(v, Pow(2, k)) && w > 0 && (v % Pow(2, k) == 0 || w >= Pow(2, 55))
  }

  /** The bignum with a sticky last bit stands for all the digits. */
  lemma {:induction false} StandsForDigits(v: nat, w: nat, k: nat, i: nat, j: nat, o: int)
    requires i - j + k + o == 0 && CutOff(w, v, k)
    ensures Stands(w, o, v * Pow(2, i), Pow(2, j))
  {
    hide Pow;
    var p := Pow(2, i + Plus(o));
    PowPos(2, i + Plus(o));
    PowAdd(2, i, Plus(o));
    MulAssoc(v, Pow(2, i), Pow(2, Plus(o)));
    PowAdd(2, j, Minus(o));
    PowAdd(2, k, i + Plus(o));
    DivScale(v, Pow(2, k), p);
    var m := v % Pow(2, k);
    DivMod(v, Pow(2, k));
    if m > 0 {
      MulPos(m, p);
    }
  }

  lemma {:induction false} PositiveCut(w: nat, v: nat, k: nat)
    requires CutOff(w, v, k)
    ensures w > 0
  {
  }

  lemma {:induction false} BitCounts(bits: int, len: int, k: int)
    ensures bits * (len + k) == len * bits + bits * k && bits * (len - 1 + k) == len * bits - bits + bits * k
  {
  }

  /** The number, when the radix is a power of two. */
  method AtodBinary(tmp0: Mpb, bits: nat, expn0: int, len: nat, ghost v: nat, ghost cut: nat, ghost low: nat,
      ghost i: nat, ghost j: nat)
    returns (a: nat)
    requires Normal(tmp0.tab) && i - j == expn0 - cut && CutOff(tmp0.Value(), v, cut)
    requires low == Places(len, bits) - bits + cut && Pow(2, low) <= v < Pow(2, low + bits)
    modifies tmp0
    ensures NearestDouble(a, v * Pow(2, i), Pow(2, j))
  {
    hide Pow, CutOff, Normal, Val, Normalized, Log2, InUnits, Stands, NearestDouble, BitsOf;
    PositiveCut(tmp0.Value(), v, cut);
    var expn1 := expn0 + len * bits;
    if expn1 >= 1024 + bits {
      ValueAtLeast(v, 2, low, i, j, 1024);
      LargeNearest(v * Pow(2, i), Pow(2, j), Pow(2, 1024));
      a := INFINITY;
    } else if expn1 <= -1075 {
      ValueAtMost(v, 2, low + bits, i, j, 1075);
      SmallNearest(v * Pow(2, i), Pow(2, j), Pow(2, 1075));
      a := 0;
    } else {
      StandsForDigits(v, tmp0.Value(), cut, i, j, -expn0);
      PowPos(2, low);
      PowPos(2, i);
      PowPos(2, j);
      MulPos(v, Pow(2, i));
      var m, e;
      ghost var e0;
      m, e, e0 := RoundToD(tmp0, -expn0, v * Pow(2, i), Pow(2, j));
      RoundedNearest(v * Pow(2, i), Pow(2, j), e0, m, e);
      a := BitsOf(m, e);
    }
  }

  /** What is read is the nearest double. */
  lemma {:induction false} ReadsNearest(n: nat, d: nat, m: nat, e: int)
    requires n > 0 && d > 0 && Reads(n, d, m, e)
    ensures NearestDouble(BitsOf(m, e), n, d)
  {
    hide Log2, InUnits, Normalized, NearestDouble, BitsOf;
    var e0 :| Log2(n, d, e0) && Normalized(InUnits(n, d, Ulp(e0)), e0, m, e);
    RoundedNearest(n, d, e0, m, e);
  }

  /** The number, for the other radices. */
  method AtodOther(tmp0: Mpb, radix1: nat, radixShift: nat, expn: int, len: nat, maxDigits: nat, maxExponent: int,
      minExponent: int)
    returns (a: nat)
    requires OddRadix(radix1) && radix1 != 1 && Normal(tmp0.tab) && len >= 1
    requires var radix := radix1 * Pow(2, radixShift);
      AtodTables(radix1, radix, maxDigits, maxExponent, minExponent) && Pow(radix,
          len - 1) <= tmp0.Value() < Pow(radix, len)
    modifies tmp0
    ensures var radix := radix1 * Pow(2, radixShift); var v := old(tmp0.Value());
      Den(0, radix, expn) > 0 && NearestDouble(a, Num(v, 0, radix, expn), Den(0, radix, expn))
  {
    PowPos(2, radixShift);
    hide Pow, Sticky, Normal, Val, Normalized, Log2, InUnits, Stands, NearestDouble, BitsOf, Reads;
    MulPos(radix1, Pow(2, radixShift));
    ghost var radix, v := radix1 * Pow(2, radixShift), tmp0.Value();
    PowPos(radix, len - 1);
    DenPos(0, radix, expn);
    NumPos(v, 0, radix, expn);
    NoBinaryPart(v, radix, expn);
    var expn1 := expn + len;
    if expn1 >= maxExponent + 1 {
      ValueAtLeast(v, radix, len - 1, Plus(expn), Minus(expn), maxExponent);
      LargeNearest(v * Pow(radix, Plus(expn)), Pow(radix, Minus(expn)), Pow(radix, maxExponent));
      a := INFINITY;
    } else if expn1 <= minExponent {
      ValueAtMost(v, radix, len, Plus(expn), Minus(expn), -minExponent);
      SmallNearest(v * Pow(radix, Plus(expn)), Pow(radix, Minus(expn)), Pow(radix, -minExponent));
      a := 0;
    } else {
      var m, e := MulPowRoundToD(tmp0, radix1, radixShift, expn);
      ReadsNearest(Num(v, 0, radix, expn), Den(0, radix, expn), m, e);
      a := BitsOf(m, e);
    }
  }

  lemma {:induction false} NoBinaryPart(v: nat, radix: nat, f: int)
    ensures Num(v, 0, radix, f) == v * Pow(radix, Plus(f)) && Den(0, radix, f) == Pow(radix, Minus(f))
  {
    PowOne(2);
  }

  /** Zeros in front do not count. */
  lemma {:induction false} SkipZeros(digits: seq<nat>, z: nat, k: nat, radix: nat)
    requires radix > 0 && z <= k <= |digits| && forall i :: 0 <= i < z ==> digits[i] == 0
    ensures DigitsVal(digits[..k], radix) == DigitsVal(digits[z..][..k - z], radix)
  {
    var zeros, rest := digits[..z], digits[z..][..k - z];
    assert digits[..k] == zeros + rest;
    DigitsConcat(zeros, rest, radix);
    DigitsZero(zeros, radix);
  }

  lemma {:induction false} ZerosNext(digits: seq<nat>, z: nat)
    requires z <= |digits|
    ensures LeadingZeros(digits[z..]) == if z < |digits| && digits[z] == 0 then 1 + LeadingZeros(digits[z + 1..]) else 0
  {
    if z < |digits| {
      assert digits[z..][1..] == digits[z + 1..];
    }
  }

  /** Nothing but zeros. */
  lemma {:induction false} ZeroNearest(n: nat, d: nat)
    requires n == 0
    ensures NearestDouble(0, n, d)
  {
    assert UnitValue(0) == 0;
    hide UnitValue, Pow;
  }

  lemma {:induction false} ZeroNumeral(s: Numeral, radix: nat, k: nat)
    requires radix > 0 && k <= |s.digits| && forall i :: 0 <= i < |s.digits| ==> s.digits[i] == 0
    ensures Denom(s, radix, k) > 0 && NearestDouble(0, Numer(s, radix, k), Denom(s, radix, k))
  {
    hide Pow, DigitsVal, NearestDouble;
    DigitsZero(s.digits[..k], radix);
    DenPos(BinExp(s), radix, s.dot - k + RadixExp(s));
    ZeroNearest(Numer(s, radix, k), Denom(s, radix, k));
  }

  /** The digits kept, and what is known of the others. */
  lemma {:induction false} SplitDigits(digits: seq<nat>, count: nat, radix: nat)
    requires radix > 0 && count <= |digits| && ValidDigits(digits, radix)
    ensures var r := Pow(radix, |digits| - count);
      && r > 0 && DigitsVal(digits, radix) / r == DigitsVal(digits[..count], radix)
      && DigitsVal(digits, radix) % r == DigitsVal(digits[count..], radix)
  {
    hide Pow, DigitsVal;
    var low := digits[count..];
    assert digits == digits[..count] + low;
    DigitsConcat(digits[..count], low, radix);
    PowPos(radix, |low|);
    DigitsBound(low, radix);
    DivUnique(DigitsVal(digits, radix), Pow(radix, |low|), DigitsVal(digits[..count], radix), DigitsVal(low, radix));
  }

  /** The fraction of a numeral in a power of two, with its powers of two gathered. */
  lemma {:induction false} BinaryNumeral(s: Numeral, bits: nat, radix: nat)
    requires radix == Pow(2, bits)
    ensures var x := s.dot - |s.digits| + RadixExp(s); var y := BinExp(s);
      && Numer(s, radix, |s.digits|) == DigitsVal(s.digits, radix) * Pow(2, Plus(y) + bits * Plus(x))
      && Denom(s, radix, |s.digits|) == Pow(2, Minus(y) + bits * Minus(x))
  {
    var x, y := s.dot - |s.digits| + RadixExp(s), BinExp(s);
    hide Pow, DigitsVal;
    assert s.digits[..|s.digits|] == s.digits;
    PowPow(2, bits, Plus(x));
    PowPow(2, bits, Minus(x));
    PowAdd(2, Plus(y), bits * Plus(x));
    PowAdd(2, Minus(y), bits * Minus(x));
  }

  /** n digits, in bits. */
  function Places(n: int, bits: nat): (r: int) {
    n * bits
  }

  /** The two powers of two of a numeral, count of whose digits from z on are kept. */
  lemma {:induction false} BinaryParts(s: Numeral, bits: nat, radix: nat, z: nat, count: nat,
      cut: nat) returns (i: nat, j: nat)
    requires radix == Pow(2, bits) && z + count <= |s.digits| && cut == Places(|s.digits| - z - count, bits)
    ensures i - j == BinExp(s) + Places(RadixExp(s), bits) - Places(z + count - s.dot, bits) - cut
    ensures Numer(s, radix, |s.digits|) == DigitsVal(s.digits, radix) * Pow(2, i) && Denom(s, radix,
        |s.digits|) == Pow(2, j) > 0
  {
    hide Pow, DigitsVal, Numer, Denom;
    var x, y := s.dot - |s.digits| + RadixExp(s), BinExp(s);
    i, j := Plus(y) + bits * Plus(x), Minus(y) + bits * Minus(x);
    BinaryNumeral(s, bits, radix);
    PowPos(2, j);
    assert bits * Plus(x) - bits * Minus(x) == x * bits;
    SplitPlaces(x, RadixExp(s), z + count - s.dot, |s.digits| - z - count, bits);
  }

  lemma {:induction false} SplitPlaces(x: int, r: int, o: int, k: int, bits: int)
    requires x == r - o - k
    ensures x * bits == r * bits - o * bits - k * bits
  {
  }

  /** With the sticky bit, the bignum has what rounding needs of all the digits. */
  lemma {:induction false} StickyDigits(sig: seq<nat>, count: nat, w: nat, radix: nat, bits: nat) returns (cut: nat,
      low: nat)
    requires radix == Pow(2, bits) && bits >= 1 && 1 <= count <= |sig| && ValidDigits(sig, radix) && sig[0] != 0
    requires var low := DigitsVal(sig[count..], radix); var high := DigitsVal(sig[..count], radix);
      w == if low != 0 && high % 2 == 0 then high + 1 else high
    requires count == |sig| || Pow(radix, count - 1) >= Pow(2, 55)
    ensures cut == Places(|sig| - count, bits) && low == Places(count, bits) - bits + cut
    ensures var v := DigitsVal(sig, radix); CutOff(w, v, cut) && Pow(2, low) <= v < Pow(2, low + bits)
  {
    hide Pow, DigitsVal;
    var k := |sig| - count;
    BitCounts(bits, count, k);
    cut, low := bits * k, bits * (count - 1 + k);
    PowPos(2, bits);
    SplitDigits(sig, count, radix);
    PowPow(2, bits, k);
    PowPow(2, bits, |sig| - 1);
    PowPow(2, bits, |sig|);
    LeadingDigit(sig, radix);
    DigitsBound(sig, radix);
    LeadingDigit(sig[..count], radix);
    PowPos(radix, count - 1);
    if count == |sig| {
      assert sig[count..] == [];
      NoDigits(radix);
    }
  }

  lemma {:induction false} NoDigits(radix: nat)
    ensures DigitsVal([], radix) == 0
  {
  }

  /** The significant digits of a numeral start at z. */
  ghost predicate StartsAt(s: Numeral, z: nat, radix: nat) {
    ValidDigits(s.digits, radix) && z < |s.digits| && s.digits[z] != 0
    && forall i :: 0 <= i < z ==> s.digits[i] == 0
  }

  /** The bits of a number in a power of two. */
  lemma {:induction false} BinaryStart(s: Numeral, z: nat, count: nat, w: nat, radix: nat, bits: nat)
    returns (v: nat, cut: nat, low: nat, i: nat, j: nat)
    requires StartsAt(s, z, radix) && radix == Pow(2, bits) && bits >= 1 && 1 <= count <= |s.digits| - z
    requires count == |s.digits| - z || Pow(radix, count - 1) >= Pow(2, 55)
    requires var low := DigitsVal(s.digits[z..][count..], radix); var high := DigitsVal(s.digits[z..][..count], radix);
      w == if low != 0 && high % 2 == 0 then high + 1 else high
    ensures CutOff(w, v, cut) && low == Places(count, bits) - bits + cut && Pow(2, low) <= v < Pow(2, low + bits)
    ensures i - j == BinExp(s) + Places(RadixExp(s), bits) - Places(z + count - s.dot, bits) - cut
    ensures Numer(s, radix, |s.digits|) == v * Pow(2, i) && Denom(s, radix, |s.digits|) == Pow(2, j) > 0
  {
    hide Pow, DigitsVal, Numer, Denom, CutOff, Places;
    var sig := s.digits[z..];
    assert sig[0] != 0 && ValidDigits(sig, radix) && |sig| - count == |s.digits| - z - count;
    v := DigitsVal(sig, radix);
    cut, low := StickyDigits(sig, count, w, radix, bits);
    i, j := BinaryParts(s, bits, radix, z, count, cut);
    SkipZeros(s.digits, z, |s.digits|, radix);
    assert s.digits[..|s.digits|] == s.digits && sig[..|sig|] == sig;
  }

  /** The part of js_atod after the digits, when the radix is a power of two. */
  method FinishBinary(s: Numeral, sigPos: nat, tmp0: Mpb, digitCount: nat, extraDigits: bool, bits: nat,
      ghost radix: nat,
                      ghost maxDigits: nat)
    returns (a: nat)
    requires StartsAt(s, sigPos, radix) && radix == Pow(2, bits) && bits >= 1 && Normal(tmp0.tab)
    requires maxDigits >= 1 && Pow(radix, maxDigits - 1) >= Pow(2, 55)
    requires digitCount == if |s.digits| - sigPos < maxDigits then |s.digits| - sigPos else maxDigits
    requires tmp0.Value() == DigitsVal(s.digits[sigPos..][..digitCount], radix)
    requires extraDigits <==> DigitsVal(s.digits[sigPos..][digitCount..], radix) != 0
    modifies tmp0
    ensures Denom(s, radix, |s.digits|) > 0
    ensures NearestDouble(a, Numer(s, radix, |s.digits|), Denom(s, radix, |s.digits|))
  {
    assert sigPos < |s.digits|;
    hide Pow, DigitsVal, NearestDouble, Normal, Val, CutOff, StartsAt, Numer, Denom;
    var expnOffset := sigPos + digitCount - s.dot;
    var expn := if s.part.NoExp? then 0 else s.part.expn;
    if !s.part.BinaryExponent? {
      expn := expn * bits;
    }
    assert expn == BinExp(s) + RadixExp(s) * bits;
    expn := expn - expnOffset * bits;
    if extraDigits {
      SetSticky(tmp0);
    }
    ghost var v, cut, low, i, j := BinaryStart(s, sigPos, digitCount, tmp0.Value(), radix, bits);
    a := AtodBinary(tmp0, bits, expn, digitCount, v, cut, low, i, j);
  }

  /** The part of js_atod after the digits, for the other radices. */
  method FinishOther(s: Numeral, sigPos: nat, tmp0: Mpb, digitCount: nat, radix1: nat, radixShift: nat, maxDigits: nat,
                     maxExponent: int, minExponent: int, ghost radix: nat)
    returns (a: nat)
    requires OddRadix(radix1) && radix1 != 1 && !s.part.BinaryExponent? && Normal(tmp0.tab)
    requires 1 <= digitCount <= |s.digits| - sigPos && radix == radix1 * Pow(2, radixShift)
    requires StartsAt(s, sigPos, radix) && AtodTables(radix1, radix, maxDigits, maxExponent, minExponent)
    requires tmp0.Value() == DigitsVal(s.digits[sigPos..][..digitCount], radix)
    modifies tmp0
    ensures Denom(s, radix, sigPos + digitCount) > 0
    ensures NearestDouble(a, Numer(s, radix, sigPos + digitCount), Denom(s, radix, sigPos + digitCount))
  {
    hide Pow, DigitsVal, NearestDouble, Normal, Val, Num, Den, AtodTables;
    ghost var kept := s.digits[sigPos..][..digitCount];
    PowPos(2, radixShift);
    MulPos(radix1, Pow(2, radixShift));
    assert ValidDigits(kept, radix) && kept[0] != 0 && |kept| == digitCount;
    LeadingDigit(kept, radix);
    DigitsBound(kept, radix);
    SkipZeros(s.digits, sigPos, sigPos + digitCount, radix);
    var expn, expnOffset := if s.part.NoExp? then 0 else s.part.expn, sigPos + digitCount - s.dot;
    a := AtodOther(tmp0, radix1, radixShift, expn - expnOffset, digitCount, maxDigits, maxExponent, minExponent);
  }

  /** The loop that skips leading zeros. */
  method SkipLeadingZeros(digits: seq<nat>) returns (sigPos: nat)
    ensures sigPos == LeadingZeros(digits) <= |digits| && (sigPos < |digits| ==> digits[sigPos] != 0)
    ensures forall i :: 0 <= i < sigPos ==> digits[i] == 0
  {
    hide LeadingZeros;
    sigPos := 0;
    assert digits[0..] == digits;
    while sigPos < |digits| && digits[sigPos] == 0
      invariant 0 <= sigPos <= |digits| && forall i :: 0 <= i < sigPos ==> digits[i] == 0
      invariant LeadingZeros(digits) == sigPos + LeadingZeros(digits[sigPos..])
    {
      ZerosNext(digits, sigPos);
      sigPos := sigPos + 1;
    }
    ZerosNext(digits, sigPos);
  }

  lemma {:induction false} ValidFrom(digits: seq<nat>, z: nat, radix: nat)
    requires ValidDigits(digits, radix) && z <= |digits|
    ensures ValidDigits(digits[z..], radix)
  {
  }

  lemma {:induction false} FirstSignificant(s: Numeral, z: nat, radix: nat)
    requires ValidDigits(s.digits, radix) && z < |s.digits| && s.digits[z] != 0
    requires forall i :: 0 <= i < z ==> s.digits[i] == 0
    ensures StartsAt(s, z, radix)
  {
  }

  /** The part of js_atod after the digits, when they are not all zero. */
  method FinishNumber(s: Numeral, sigPos: nat, tmp0: Mpb, digitCount: nat, extraDigits: bool, radix1: nat,
      radixShift: nat, maxDigits: nat, maxExponent: int, minExponent: int, ghost radix: nat)
    returns (a: nat)
    requires OddRadix(radix1) && (radix1 != 1 ==> !s.part.BinaryExponent?) && Normal(tmp0.tab) && digitCount > 0
    requires radix == radix1 * Pow(2, radixShift) >= 2 && StartsAt(s, sigPos, radix) && sigPos == LeadingZeros(s.digits)
    requires AtodTables(radix1, radix, maxDigits, maxExponent, minExponent)
    requires digitCount == if |s.digits| - sigPos < maxDigits then |s.digits| - sigPos else maxDigits
    requires tmp0.Value() == DigitsVal(s.digits[sigPos..][..digitCount], radix)
    requires extraDigits <==> DigitsVal(s.digits[sigPos..][digitCount..], radix) != 0
    modifies tmp0
    ensures var k := KeptDigits(s.digits, radix1, maxDigits);
      Denom(s, radix, k) > 0 && NearestDouble(a, Numer(s, radix, k), Denom(s, radix, k))
  {
    TableDigits(radix1, radix, maxDigits, maxExponent, minExponent);
    hide Pow, DigitsVal, NearestDouble, Normal, Val, LeadingZeros, KeptDigits, Numer, Denom, AtodTables, OddRadix,
        StartsAt;
    Kept(s.digits, radix1, maxDigits, sigPos);
    if radix1 == 1 {
      BinaryShift(radixShift);
      a := FinishBinary(s, sigPos, tmp0, digitCount, extraDigits, radixShift, radix, maxDigits);
    } else {
      a := FinishOther(s, sigPos, tmp0, digitCount, radix1, radixShift, maxDigits, maxExponent, minExponent, radix);
    }
  }

  /** js_atod, for the digits and the exponent part of a number. */
  method ParseNumber(s: Numeral, radix1: nat, radixShift: nat, maxDigits: nat, maxExponent: int,
      minExponent: int) returns (a: nat)
    requires OddRadix(radix1) && 2 <= radix1 * Pow(2, radixShift) <= 36
    requires ValidDigits(s.digits, radix1 * Pow(2, radixShift)) && (radix1 != 1 ==> !s.part.BinaryExponent?)
    requires AtodTables(radix1, radix1 * Pow(2, radixShift), maxDigits, maxExponent, minExponent)
    ensures var radix := radix1 * Pow(2, radixShift); var k := KeptDigits(s.digits, radix1, maxDigits);
      Denom(s, radix, k) > 0 && NearestDouble(a, Numer(s, radix, k), Denom(s, radix, k))
  {
    var radix := radix1 * Pow(2, radixShift);
    TableDigits(radix1, radix, maxDigits, maxExponent, minExponent);
    hide Pow, DigitsVal, NearestDouble, Normal, Val, LeadingZeros, KeptDigits, Numer, Denom, AtodTables, OddRadix,
        StartsAt, ValidDigits;
    var sigPos := SkipLeadingZeros(s.digits);
    ValidFrom(s.digits, sigPos, radix);
    var tmp0 := new Mpb();
    var digitCount, extraDigits := AccumulateDigits(tmp0, s.digits[sigPos..], radix, maxDigits);
    if digitCount == 0 {
      ZeroNumeral(s, radix, KeptDigits(s.digits, radix1, maxDigits));
      return 0;
    }
    FirstSignificant(s, sigPos, radix);
    a := FinishNumber(s, sigPos, tmp0, digitCount, extraDigits, radix1, radixShift, maxDigits, maxExponent, minExponent,
                      radix);
  }

  lemma {:induction false} TableDigits(radix1: nat, radix: nat, maxDigits: nat, maxExponent: int, minExponent: int)
    requires AtodTables(radix1, radix, maxDigits, maxExponent, minExponent)
    ensures maxDigits >= 1 && (radix1 == 1 ==> Pow(radix, maxDigits - 1) >= Pow(2, 55))
  {
  }

  lemma {:induction false} Kept(digits: seq<nat>, radix1: nat, maxDigits: nat, z: nat)
    requires LeadingZeros(digits) == z
    ensures KeptDigits(digits, radix1, maxDigits) ==
      if radix1 == 1 || |digits| - z <= maxDigits then |digits| else z + maxDigits
  {
  }

  lemma {:induction false} BinaryShift(bits: nat)
    requires 1 * Pow(2, bits) >= 2
    ensures bits >= 1 && 1 * Pow(2, bits) == Pow(2, bits)
  {
  }
}
