/** js_dtoa in free format, up to the layout of the digits, and the way back through js_atod. */
module PrintParse {
  import opened Powers
  import opened Limbs
  import opened Rounding
  import opened Bignum
  import opened BignumOps
  import opened Scaling
  import opened ScaledRounding
  import opened FloatSpec
  import opened Reading
  import opened FreeDigits
  import opened MinimalDigits
  import opened FreeFormatSearch
  import opened Doubles
  import opened DigitStrings
  import opened OutputDigits
  import opened Atod
  import opened NumeralLayout
  import opened FastIntegers

  /** The bits of positive doubles are ordered as their values. */
  lemma {:induction false} UnitValueGrows(a: nat, b: nat)
    requires a < b <= INFINITY
    ensures UnitValue(a) < UnitValue(b)
  {
    hide Pow;
    DivMod(a, 0x10_0000_0000_0000);
    DivMod(b, 0x10_0000_0000_0000);
    var ex, mant, ex1, mant1 := a / 0x10_0000_0000_0000, a % 0x10_0000_0000_0000, b / 0x10_0000_0000_0000,
        b % 0x10_0000_0000_0000;
    DivNat(a, 0x10_0000_0000_0000);
    DivNat(b, 0x10_0000_0000_0000);
    assert ex <= ex1;
    if ex1 > 0 {
      PowPos(2, ex1 - 1);
      if ex == ex1 {
        MulLt(Pow(2, ex1 - 1), 0x10_0000_0000_0000 + mant, 0x10_0000_0000_0000 + mant1);
      } else {
        MulLe(Pow(2, ex1 - 1), 0x10_0000_0000_0000, 0x10_0000_0000_0000 + mant1);
        if ex == 0 {
          MulLe(0x10_0000_0000_0000, 1, Pow(2, ex1 - 1));
        } else {
          PowPos(2, ex - 1);
          PowGrows(2, ex, ex1 - 1);
          PowNext(2, ex);
          MulLt(Pow(2, ex - 1), 0x10_0000_0000_0000 + mant, 0x20_0000_0000_0000);
          MulLe(0x10_0000_0000_0000, Pow(2, ex), Pow(2, ex1 - 1));
        }
      }
    }
  }

  /** Only one double is nearest, with ties going to the even one. */
  lemma {:induction false} NearestUnique(a: nat, b: nat, n: nat, d: nat)
    requires d > 0 && NearestDouble(a, n, d) && NearestDouble(b, n, d)
    ensures a == b
  {
    if a < b {
      NearestOrdered(a, b, n, d);
    } else if b < a {
      NearestOrdered(b, a, n, d);
    }
  }

  lemma {:induction false} NearestOrdered(a: nat, b: nat, n: nat, d: nat)
    requires d > 0 && NearestDouble(a, n, d) && NearestDouble(b, n, d) && a <= b
    ensures a == b
  {
    hide Pow, UnitValue;
    if a < b {
      UnitValueGrows(a, b);
      var c := a + 1;
      if c < b {
        UnitValueGrows(a, c);
        UnitValueGrows(c, b);
        MulLt(d, UnitValue(a), UnitValue(c));
        MulLt(d, UnitValue(c), UnitValue(b));
      }
    }
  }

  /** A double is the one nearest to its own value. */
  lemma {:induction false} SelfNearest(a: nat, n: nat, d: nat)
    requires a <= INFINITY && d > 0 && d * UnitValue(a) == n * Pow(2, 1074)
    ensures NearestDouble(a, n, d)
  {
    hide Pow, UnitValue;
    forall b: nat | b <= INFINITY && UnitValue(b) != UnitValue(a)
      ensures d * UnitValue(b) != n * Pow(2, 1074)
    {
      Compare(UnitValue(a), UnitValue(b), d);
    }
  }

  /** Which fraction a number is given as does not matter. */
  lemma {:induction false} SameNearest(a: nat, n: nat, d: nat, n1: nat, d1: nat)
    requires d > 0 && d1 > 0 && n * d1 == n1 * d && NearestDouble(a, n, d)
    ensures NearestDouble(a, n1, d1)
  {
    hide Pow, UnitValue;
    var w := Pow(2, 1074);
    forall b: nat
      ensures d * Abs(d1 * UnitValue(b) - n1 * w) == d1 * Abs(d * UnitValue(b) - n * w)
    {
      SameDistance(n, d, n1, d1, UnitValue(b), w);
    }
    forall b: nat | b <= INFINITY && UnitValue(b) != UnitValue(a)
      ensures Abs(d1 * UnitValue(a) - n1 * w) <= Abs(d1 * UnitValue(b) - n1 * w)
      ensures Abs(d1 * UnitValue(a) - n1 * w) == Abs(d1 * UnitValue(b) - n1 * w) ==> a % 2 == 0
    {
      MulLe(d1, Abs(d * UnitValue(a) - n * w), Abs(d * UnitValue(b) - n * w));
      CancelLe(d, Abs(d1 * UnitValue(a) - n1 * w), Abs(d1 * UnitValue(b) - n1 * w));
      Compare(Abs(d * UnitValue(a) - n * w), Abs(d * UnitValue(b) - n * w), d1);
    }
  }

  lemma {:induction false} SameDistance(n: int, d: int, n1: int, d1: int, u: int, w: int)
    requires d > 0 && d1 > 0 && n * d1 == n1 * d
    ensures d * Abs(d1 * u - n1 * w) == d1 * Abs(d * u - n * w)
  {
    assert d * (d1 * u) == d1 * (d * u);
    assert d * (n1 * w) == d1 * (n * w) by {
      MulAssoc(d, n1, w);
      MulAssoc(d1, n, w);
    }
    ScaledAbs(d, d1 * u, n1 * w, d1, d * u, n * w);
  }

  /** The mantissa and the exponent that js_dtoa starts from give back the bits. */
  lemma {:induction false} DecomposedBits(a: nat, m: nat, e: int)
    requires 0 < a < INFINITY && IsDouble(m, e)
    requires UnitValue(a) * Pow(2, Minus(e + 1021)) == m * Pow(2, Plus(e + 1021))
    ensures BitsOf(m, e) == a
  {
    DoubleBounds(m, e);
    hide Pow, IsDouble, UnitValue, BitsOf;
    PowOne(2);
    if e >= -1021 {
      NormalBits(m, e);
    } else {
      SubnormalBits(m, e, UnitValue(a));
    }
    var b := BitsOf(m, e);
    assert UnitValue(b) == UnitValue(a) && b <= INFINITY;
    if a < b {
      UnitValueGrows(a, b);
    } else if b < a {
      UnitValueGrows(b, a);
    }
  }

  /** a is the double nearest to the number s, as far as a parser looks that keeps maxDigits digits. */
  ghost predicate Denotes(a: nat, s: Numeral, radix1: nat, radix: nat, maxDigits: nat) {
    var k := KeptDigits(s.digits, radix1, maxDigits);
    Denom(s, radix, k) > 0 && NearestDouble(a, Numer(s, radix, k), Denom(s, radix, k))
  }

  lemma {:induction false} WrittenDenotes(a: nat, s: Numeral, radix1: nat, radix: nat, mant: nat, t: int, z: nat,
      p: nat, maxDigits: nat)
    requires radix > 0 && Writes(s, radix, mant, t, z, p) && p <= maxDigits
    requires Den(0, radix, t) > 0 && NearestDouble(a, Num(mant, 0, radix, t), Den(0, radix, t))
    ensures Denotes(a, s, radix1, radix, maxDigits)
  {
    hide Pow, DigitsVal, NearestDouble, Num, Den, LeadingZeros, Numer;
    var k := KeptDigits(s.digits, radix1, maxDigits);
    DenPos(BinExp(s), radix, s.dot - k + RadixExp(s));
    SameNearest(a, Num(mant, 0, radix, t), Den(0, radix, t), Numer(s, radix, k), Denom(s, radix, k));
  }

  lemma {:induction false} FullAtMost(mant: nat, p: nat, radix: nat)
    requires radix >= 2 && (if mant == 0 then p == 1 else FullDigits(mant, p, radix))
    ensures p >= 1 && mant < Pow(radix, p)
  {
    PowOne(radix);
  }

  lemma {:induction false} RoundedMeans(m: nat, e: int, radix: nat, p: nat, mant: nat, t: int)
    requires radix >= 2 && Rounded(m, e, radix, p, mant, t)
    ensures FullDigits(mant, p, radix) && 0 < mant < Pow(radix, p)
    ensures SameNumber(radix, mant, t, NearestDigits(m, e, radix, p), DigitExponent(m, e, radix) - p)
  {
    FullPositive(mant, p, radix);
  }

  /** The first digit of a number with no fewer digits. */
  lemma {:induction false} FirstDigit(digits: seq<nat>, radix: nat)
    requires radix >= 2 && digits != [] && ValidDigits(digits, radix)
    requires Pow(radix, |digits| - 1) <= DigitsVal(digits, radix)
    ensures digits[0] != 0
  {
    if digits[0] == 0 {
      var rest := digits[1..];
      SkipZeros(digits, 1, |digits|, radix);
      assert digits[..|digits|] == digits && rest[..|digits| - 1] == rest;
      DigitsBound(rest, radix);
    }
  }

  lemma {:induction false} LastDigit(digits: seq<nat>, radix: nat)
    requires radix >= 2 && digits != [] && ValidDigits(digits, radix)
    ensures DigitsVal(digits, radix) % radix == digits[|digits| - 1]
  {
    DivUnique(DigitsVal(digits, radix), radix, DigitsVal(digits[..|digits| - 1], radix), digits[|digits| - 1]);
  }

  lemma {:induction false} DigitsAtEnds(digits: seq<nat>, mant: nat, radix: nat)
    requires radix >= 2 && digits != [] && ValidDigits(digits, radix) && DigitsVal(digits, radix) == mant
    requires if mant == 0 then |digits| == 1 else FullDigits(mant, |digits|, radix)
    ensures if mant == 0 then digits == [0] else digits[0] != 0 && digits[|digits| - 1] != 0
  {
    hide Pow, DigitsVal;
    LastDigit(digits, radix);
    if mant == 0 {
      DivUnique(0, radix, 0, 0);
    } else {
      FirstDigit(digits, radix);
    }
  }

  lemma {:induction false} BinaryPart(digits: seq<nat>, e: int, radix: nat, radix1: nat, radixShift: nat, mode: ExpMode,
      eMax: int)
    requires radix > 0 && ValidDigits(digits, radix)
    ensures var s := Layout(digits, e, radix, radix1, radixShift, mode, eMax);
      ValidDigits(s.digits, radix) && (s.part.BinaryExponent? ==> radix1 == 1)
  {
  }

  /** The numeral s has the digits that the double m * 2^(e - 53) is owed: as many significant digits as the search for
      fewer ends with, and as few as possible unless the doubles below are denser than those above; and the number is
      the double rounded to that many digits, which is a closest one. */
  ghost predicate Owed(s: Numeral, radix: nat, pMax: nat, m: nat, e: int)
    requires radix >= 2
  {
    var p := |Significant(s.digits)|;
    && IsDouble(m, e) && SearchEnds(m, e, radix, pMax, p)
    && IsNumber(s, radix, NearestDigits(m, e, radix, p), DigitExponent(m, e, radix) - p)
    && Closest(m, e, radix, p, NearestDigits(m, e, radix, p), DigitExponent(m, e, radix) - p)
    && (!Dense(m, e) ==> Shortest(m, e, radix, p))
  }

  lemma {:induction false} OwedOnce(s: Numeral, radix: nat, pMax: nat, m: nat, e: int)
    requires radix >= 2 && IsDouble(m, e)
    requires var p := |Significant(s.digits)|;
      && SearchEnds(m, e, radix, pMax, p)
      && IsNumber(s, radix, NearestDigits(m, e, radix, p), DigitExponent(m, e, radix) - p)
    ensures Owed(s, radix, pMax, m, e)
  {
    var p := |Significant(s.digits)|;
    assert p >= 1;
    DoubleBounds(m, e);
    hide Pow, IsDouble, SearchEnds, IsNumber, Significant, NearestDigits, DigitExponent, Closest, Dense, Shortest;
    NearestClosest(m, e, radix, p);
    if !Dense(m, e) {
      EvenlySpaced(m, e, radix, pMax, p);
    }
  }

  /** Another way to write the number s is. */
  lemma {:induction false} NumberTrans(s: Numeral, radix: nat, k: nat, t: int, k1: nat, t1: int)
    requires radix > 0 && IsNumber(s, radix, k, t) && SameNumber(radix, k, t, k1, t1)
    ensures IsNumber(s, radix, k1, t1)
  {
    hide Pow, Num, Den, Numer, Denom;
    DenPos(0, radix, t);
    CrossTrans(Numer(s, radix, |s.digits|), Denom(s, radix, |s.digits|), Num(k, 0, radix, t), Den(0, radix, t),
               Num(k1, 0, radix, t1), Den(0, radix, t1));
  }

  lemma {:induction false} CrossTrans(n: int, d: int, n1: int, d1: int, n2: int, d2: int)
    requires d1 > 0 && n * d1 == n1 * d && n1 * d2 == n2 * d1
    ensures n * d2 == n2 * d
  {
    assert (n * d2) * d1 == (n * d1) * d2;
    assert (n1 * d) * d2 == (n1 * d2) * d;
    assert (n2 * d1) * d == (n2 * d) * d1;
    Compare(n * d2, n2 * d, d1);
  }

  /** What js_dtoa has when it lays out the digits: the digits mant, times radix^(e - p). */
  method WriteNumeral(tmp1: Mpb, radix1: nat, radixShift: nat, p: nat, e: int, mode: ExpMode, pMax: nat, ghost a: nat)
    returns (s: Numeral)
    requires OddRadix(radix1) && 2 <= radix1 * Pow(2, radixShift) <= 36 && Normal(tmp1.tab)
    requires var radix, mant := radix1 * Pow(2, radixShift), tmp1.Value();
      && (if mant == 0 then p == 1 && e == 1 else FullDigits(mant, p, radix))
      && Den(0, radix, e - p) > 0 && NearestDouble(a, Num(mant, 0, radix, e - p), Den(0, radix, e - p))
    modifies tmp1
    ensures var radix, mant := radix1 * Pow(2, radixShift), old(tmp1.Value());
      && ValidDigits(s.digits, radix) && (s.part.BinaryExponent? ==> radix1 == 1)
      && LaidOut(s, mode, radix, pMax, mant == 0)
      && IsNumber(s, radix, mant, e - p) && |Significant(s.digits)| == (if mant == 0 then 0 else p)
      && forall maxDigits: nat :: maxDigits >= p ==> Denotes(a, s, radix1, radix, maxDigits)
  {
    hide Pow, Val, DigitsVal, Normal, NearestDouble, Num, Den, Denotes, LaidOut, IsNumber, Significant, Layout, Writes;
    ghost var radix, mant := radix1 * Pow(2, radixShift), tmp1.Value();
    FullAtMost(mant, p, radix);
    var buf := new nat[p];
    PrintDigits(buf, tmp1, radix1, radixShift);
    DivUnique(mant, Pow(radix, p), 0, mant);
    DigitsAtEnds(buf[..], mant, radix);
    s := Layout(buf[..], e, radix1 * Pow(2, radixShift), radix1, radixShift, mode, pMax + 4);
    ghost var z, q := LayoutWrites(buf[..], e, radix, radix1, radixShift, mode, pMax + 4);
    LayoutRules(buf[..], e, radix, radix1, radixShift, mode, pMax);
    BinaryPart(buf[..], e, radix, radix1, radixShift, mode, pMax + 4);
    forall maxDigits: nat | maxDigits >= p ensures Denotes(a, s, radix1, radix, maxDigits) {
      WrittenDenotes(a, s, radix1, radix, mant, e - p, z, p, maxDigits);
    }
  }

  /** The integers that js_dtoa prints without a search. */
  lemma {:induction false} SmallInteger(a: nat, m: nat, e: int, v: nat)
    requires 0 < a < INFINITY && 1 <= e <= 53 && m < 0x20_0000_0000_0000
    requires UnitValue(a) * Pow(2, Minus(e + 1021)) == m * Pow(2, Plus(e + 1021)) && m == v * Pow(2, 53 - e)
    ensures NearestDouble(a, v, 1) && v < 0x20_0000_0000_0000
  {
    hide Pow, NearestDouble, UnitValue;
    PowOne(2);
    PowAdd(2, 53 - e, e + 1021);
    PowPos(2, 53 - e);
    MulLe(v, 1, Pow(2, 53 - e));
    MulAssoc(v, Pow(2, 53 - e), Pow(2, e + 1021));
    SelfNearest(a, v, 1);
  }

  /** Without its last len - 1 digits, v is n. */
  ghost predicate Dropped(v: nat, n: nat, radix: nat, len: nat) {
    len >= 1 && Pow(radix, len - 1) > 0 && n == v / Pow(radix, len - 1) && (len > 1 ==> Pow(radix, len - 1) <= v)
  }

  lemma {:induction false} DroppedNone(v: nat, radix: nat)
    ensures Dropped(v, v, radix, 1)
  {
    PowOne(radix);
    DivUnique(v, 1, v, 0);
  }

  lemma {:induction false} DropOne(v: nat, n: nat, radix: nat, len: nat)
    requires radix >= 2 && Dropped(v, n, radix, len) && n >= radix
    ensures 0 <= n / radix < n && Dropped(v, n / radix, radix, len + 1)
  {
    PowNext(radix, len);
    hide Pow;
    DropDigit(v, n, Pow(radix, len - 1), radix);
  }

  lemma {:induction false} DropDigit(v: nat, n: nat, p: nat, radix: nat)
    requires p > 0 && radix >= 2 && n == v / p && n >= radix
    ensures 0 <= n / radix < n && p * radix > 0 && n / radix == v / (p * radix) && p * radix <= v
  {
    DivDiv(v, p, radix);
    MulPos(p, radix);
    DivNat(n, radix);
    Shrinks(n, radix);
    assert p * radix <= v by {
      DivMod(v, p);
      MulLe(p, radix, n);
    }
  }

  lemma {:induction false} Shrinks(n: nat, radix: nat)
    requires radix >= 2 && n > 0
    ensures n / radix < n
  {
    DivMod(n, radix);
    var q := n / radix;
    DivNat(n, radix);
    MulLe(q, 2, radix);
  }

  lemma {:induction false} DroppedRest(v: nat, n: nat, radix: nat, len: nat)
    requires radix >= 2 && Dropped(v, n, radix, len) && n < radix
    ensures v < Pow(radix, len) && (len > 1 ==> Pow(radix, len - 1) <= v)
  {
    var p := Pow(radix, len - 1);
    DivMod(v, p);
    MulLe(p, n + 1, radix);
    assert (n + 1) * p == n * p + p;
  }

  /** u64toa_radix: the digits of an integer. */
  method IntegerDigits(v: nat, radix: nat) returns (digits: seq<nat>)
    requires radix >= 2
    ensures ValidDigits(digits, radix) && DigitsVal(digits, radix) == v && digits != []
    ensures |digits| > 1 || v > 0 ==> Pow(radix, |digits| - 1) <= v
  {
    hide Pow, DigitsVal, Dropped;
    var n: nat, len: nat := v, 1;
    DroppedNone(v, radix);
    while n >= radix
      invariant len >= 1 && Dropped(v, n, radix, len)
    {
      DropOne(v, n, radix, len);
      n := n / radix;
      len := len + 1;
    }
    DroppedRest(v, n, radix, len);
    var buf := new nat[len];
    PutDigits(buf, 0, v, radix, len);
    assert buf[0..0 + len] == buf[..];
    DivUnique(v, Pow(radix, len), 0, v);
    digits := buf[..];
  }

  /** Digits that read back as the double have it as their nearest. */
  lemma {:induction false} DigitsDenote(a: nat, radix: nat, mant: nat, t: int, m: nat, e: int)
    requires 0 < a < INFINITY && IsDouble(m, e) && DigitsRead(radix, mant, t, m, e) && Num(mant, 0, radix, t) > 0
    requires UnitValue(a) * Pow(2, Minus(e + 1021)) == m * Pow(2, Plus(e + 1021))
    ensures Den(0, radix, t) > 0 && NearestDouble(a, Num(mant, 0, radix, t), Den(0, radix, t))
  {
    hide Pow, IsDouble, Reads, NearestDouble, Num, Den, UnitValue, BitsOf;
    DecomposedBits(a, m, e);
    ReadsNearest(Num(mant, 0, radix, t), Den(0, radix, t), m, e);
  }

  /** The digits of an integer, which are fewer than the search may need. */
  lemma {:induction false} IntegerDenotes(a: nat, digits: seq<nat>, radix1: nat, radix: nat, pMax: nat, maxDigits: nat)
    requires radix >= 2 && digits != [] && ValidDigits(digits, radix) && EnoughDigits(radix, pMax) && pMax <= maxDigits
    requires DigitsVal(digits, radix) < 0x20_0000_0000_0000 && NearestDouble(a, DigitsVal(digits, radix), 1)
    requires Pow(radix, |digits| - 1) <= DigitsVal(digits, radix)
    ensures |digits| <= pMax && Denotes(a, Numeral(digits, |digits|, NoExp), radix1, radix, maxDigits)
  {
    hide Pow, DigitsVal, NearestDouble, Num, Den, Denotes, Writes;
    var s, v := Numeral(digits, |digits|, NoExp), DigitsVal(digits, radix);
    if |digits| > pMax {
      PowGrows(radix, pMax - 1, |digits| - 1);
    }
    assert digits == Zeros(0) + digits + Zeros(0);
    PaddedWrites(s, digits, radix, 0, 0, 0);
    NoBinaryPart(v, radix, 0);
    PowOne(radix);
    WrittenDenotes(a, s, radix1, radix, v, 0, 0, |digits|, maxDigits);
  }

  /** An integer is laid out by its digits alone. */
  lemma {:induction false} IntegerLaidOut(digits: seq<nat>, radix: nat, pMax: nat, mode: ExpMode)
    requires radix >= 2 && digits != [] && ValidDigits(digits, radix) && mode != ExpEnabled && |digits| <= pMax
    requires Pow(radix, |digits| - 1) <= DigitsVal(digits, radix) && digits[0] != 0
    ensures var s := Numeral(digits, |digits|, NoExp);
      LaidOut(s, mode, radix, pMax, false) && IsNumber(s, radix, DigitsVal(digits, radix), 0)
  {
    hide Pow, DigitsVal, IsNumber, Below, Writes;
    var s, v := Numeral(digits, |digits|, NoExp), DigitsVal(digits, radix);
    assert digits == Zeros(0) + digits + Zeros(0);
    PaddedWrites(s, digits, radix, 0, 0, 0);
    WritesNumber(s, radix, v, 0, 0, |digits|);
    DigitsBound(digits, radix);
    BelowIff(s, radix, v, 0, |digits|, -6);
    BelowIff(s, radix, v, 0, |digits|, pMax + 4);
  }

  function TrailingZeros(digits: seq<nat>): (q: nat)
    ensures q <= |digits| && digits == WithoutTrailingZeros(digits) + Zeros(q)
  {
    if digits == [] || digits[|digits| - 1] != 0 then 0 else 1 + TrailingZeros(digits[..|digits| - 1])
  }

  lemma {:induction false} StrippedEnds(digits: seq<nat>)
    requires digits != [] && digits[0] != 0
    ensures var core := WithoutTrailingZeros(digits);
      core != [] && core <= digits && core[|core| - 1] != 0
  {
    if digits[|digits| - 1] == 0 {
      StrippedEnds(digits[..|digits| - 1]);
    }
  }

  /** Digits without zeros at their ends. */
  lemma {:induction false} DigitsAre(digits: seq<nat>, radix: nat)
    requires radix >= 2 && digits != [] && ValidDigits(digits, radix) && digits[0] != 0 && digits[|digits| - 1] != 0
    ensures FullDigits(DigitsVal(digits, radix), |digits|, radix) && DigitsVal(digits, radix) > 0
  {
    hide Pow, DigitsVal;
    LeadingDigit(digits, radix);
    DigitsBound(digits, radix);
    LastDigit(digits, radix);
    PowPos(radix, |digits| - 1);
  }

  lemma {:induction false} ShiftedNumber(radix: nat, mant: nat, q: nat)
    ensures SameNumber(radix, mant * Pow(radix, q), 0, mant, q)
  {
    NoBinaryPart(mant * Pow(radix, q), radix, 0);
    NoBinaryPart(mant, radix, q);
    PowOne(radix);
  }

  /** The digits of an integer are those the search would end with, and zeros. */
  lemma {:induction false} IntegerOwed(m: nat, e: int, radix: nat, digits: seq<nat>, pMax: nat)
    requires IsDouble(m, e) && 1 <= e <= 53 && radix >= 2 && EnoughDigits(radix, pMax)
    requires digits != [] && ValidDigits(digits, radix) && digits[0] != 0
    requires m == DigitsVal(digits, radix) * Pow(2, 53 - e)
    requires IsNumber(Numeral(digits, |digits|, NoExp), radix, DigitsVal(digits, radix), 0)
    ensures Owed(Numeral(digits, |digits|, NoExp), radix, pMax, m, e)
  {
    hide Pow, DigitsVal, IsNumber, Significant, EnoughDigits, IsDouble, SearchEnds, SameNumber, NearestDigits,
        DigitExponent, LeadingZeros, WithoutTrailingZeros;
    var s, core, q := Numeral(digits, |digits|, NoExp), WithoutTrailingZeros(digits), TrailingZeros(digits);
    var mant, p := DigitsVal(core, radix), |core|;
    StrippedEnds(digits);
    SignificantPadded(0, core, q);
    assert Zeros(0) + core + Zeros(q) == digits;
    PaddedValue(core, 0, q, |digits|, radix);
    assert digits[..|digits|] == digits;
    DigitsAre(core, radix);
    IntegerSearch(m, e, radix, mant, q, p, pMax);
    ShiftedNumber(radix, mant, q);
    NumberTrans(s, radix, DigitsVal(digits, radix), 0, mant, q);
    NumberTrans(s, radix, mant, q, NearestDigits(m, e, radix, p), DigitExponent(m, e, radix) - p);
    OwedOnce(s, radix, pMax, m, e);
  }

  /** The branch of js_dtoa for integers. */
  method PrintInteger(a: nat, m: nat, e: int, radix1: nat, radixShift: nat, pMax: nat, ghost mode: ExpMode)
    returns (s: Numeral)
    requires 0 < a < INFINITY && 2 <= radix1 * Pow(2, radixShift) && EnoughDigits(radix1 * Pow(2, radixShift), pMax)
    requires 1 <= e <= 53 && IsDouble(m, e) && Pow(2, 53 - e) > 0 && m % Pow(2, 53 - e) == 0 && mode != ExpEnabled
    requires UnitValue(a) * Pow(2, Minus(e + 1021)) == m * Pow(2, Plus(e + 1021))
    ensures var radix := radix1 * Pow(2, radixShift);
      && ValidDigits(s.digits, radix) && s.part.NoExp?
      && LaidOut(s, mode, radix, pMax, false) && Owed(s, radix, pMax, m, e)
      && forall maxDigits: nat :: maxDigits >= pMax ==> Denotes(a, s, radix1, radix, maxDigits)
  {
    assert 0 < m < 0x20_0000_0000_0000;
    hide Pow, DigitsVal, NearestDouble, Denotes, EnoughDigits, UnitValue, IsDouble, LaidOut, Owed, IsNumber;
    var radix := radix1 * Pow(2, radixShift);
    DivMod(m, Pow(2, 53 - e));
    DivNat(m, Pow(2, 53 - e));
    var v := m / Pow(2, 53 - e);
    SmallInteger(a, m, e, v);
    var digits := IntegerDigits(v, radix);
    FirstDigit(digits, radix);
    s := Numeral(digits, |digits|, NoExp);
    IntegerDenotes(a, digits, radix1, radix, pMax, pMax);
    IntegerLaidOut(digits, radix, pMax, mode);
    IntegerOwed(m, e, radix, digits, pMax);
    forall maxDigits: nat | maxDigits >= pMax ensures Denotes(a, s, radix1, radix, maxDigits) {
      IntegerDenotes(a, digits, radix1, radix, pMax, maxDigits);
    }
  }

  /** js_dtoa in free format, for a double that is not negative: a number that denotes it, with the digits it is owed,
      laid out by the rules. */
  method PrintFree(a: nat, radix1: nat, radixShift: nat, pMax: nat, mode: ExpMode) returns (s: Numeral)
    requires a < INFINITY && OddRadix(radix1) && 2 <= radix1 * Pow(2, radixShift) <= 36
    requires EnoughDigits(radix1 * Pow(2, radixShift), pMax)
    ensures var radix := radix1 * Pow(2, radixShift);
      && ValidDigits(s.digits, radix) && (s.part.BinaryExponent? ==> radix1 == 1)
      && forall maxDigits: nat :: maxDigits >= pMax ==> Denotes(a, s, radix1, radix, maxDigits)
    ensures if a == 0 then Significant(s.digits) == []
            else Owed(s, radix1 * Pow(2, radixShift), pMax, Mantissa(a), Exponent(a))
    ensures LaidOut(s, mode, radix1 * Pow(2, radixShift), pMax, a == 0)
  {
    var radix := radix1 * Pow(2, radixShift);
    EnoughMeans(radix, pMax);
    hide Pow, Val, DigitsVal, Normal, NearestDouble, Num, Den, Denotes, IsDouble, EnoughDigits, UnitValue, Dense,
        Shortest, Closest, SearchEnds, LaidOut, Owed, IsNumber, Significant, SameNumber, NearestDigits, DigitExponent,
        Mantissa, Exponent, FullDigits, Rounded;
    var tmp1 := new Mpb();
    if a == 0 {
      SetU64(tmp1, 0);
      DenPos(0, radix, 0);
      ZeroNearest(Num(0, 0, radix, 0), Den(0, radix, 0));
      s := WriteNumeral(tmp1, radix1, radixShift, 1, 1, mode, pMax, a);
      return;
    }
    var m, e := Decompose(a);
    DoubleBounds(m, e);
    if 1 <= e <= 53 && mode != ExpEnabled {
      PowPos(2, 53 - e);
      DivMod(m, Pow(2, 53 - e));
      if m % Pow(2, 53 - e) == 0 {
        s := PrintInteger(a, m, e, radix1, radixShift, pMax, mode);
        return;
      }
    }
    var mant, p, e1 := FreeFormat(tmp1, m, e, radix1, radixShift, pMax);
    FewerFit(radix, p, pMax);
    RoundedMeans(m, e, radix, p, mant, e1 - p);
    SetU64(tmp1, mant);
    NumPos(mant, 0, radix, e1 - p);
    DigitsDenote(a, radix, mant, e1 - p, m, e);
    s := WriteNumeral(tmp1, radix1, radixShift, p, e1, mode, pMax, a);
    NumberTrans(s, radix, mant, e1 - p, NearestDigits(m, e, radix, p), DigitExponent(m, e, radix) - p);
    OwedOnce(s, radix, pMax, m, e);
  }

  /** The parser undoes the printer: every double that is not negative comes back, in every layout of its digits. */
  method PrintAndParse(a: nat, radix1: nat, radixShift: nat, pMax: nat, mode: ExpMode, maxDigits: nat, maxExponent: int,
                       minExponent: int)
    returns (b: nat)
    requires a < INFINITY && OddRadix(radix1) && 2 <= radix1 * Pow(2, radixShift) <= 36
    requires EnoughDigits(radix1 * Pow(2, radixShift), pMax) && pMax <= maxDigits
    requires AtodTables(radix1, radix1 * Pow(2, radixShift), maxDigits, maxExponent, minExponent)
    ensures b == a
  {
    hide Pow, NearestDouble, Numer, Denom, KeptDigits, EnoughDigits, AtodTables;
    var s := PrintFree(a, radix1, radixShift, pMax, mode);
    assert Denotes(a, s, radix1, radix1 * Pow(2, radixShift), maxDigits);
    b := ParseNumber(s, radix1, radixShift, maxDigits, maxExponent, minExponent);
    ghost var radix, k := radix1 * Pow(2, radixShift), KeptDigits(s.digits, radix1, maxDigits);
    NearestUnique(a, b, Numer(s, radix, k), Denom(s, radix, k));
  }
}
