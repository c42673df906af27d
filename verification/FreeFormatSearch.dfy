/** The search of js_dtoa for the smallest number of digits. */
module FreeFormatSearch {
  import opened Powers
  import opened Limbs
  import opened Rounding
  import opened Bignum
  import opened BignumOps
  import opened Scaling
  import opened ScaledRounding
  import opened FloatSpec
  import opened Reading
  import opened ShortestDigits
  import opened FreeDigits
  import opened MinimalDigits

  /** What the printer relies on for a radix: pMax digits are enough to tell all doubles apart, and fit 64 bits. */
  predicate EnoughDigits(radix: nat, pMax: nat) {
    pMax >= 1 && Pow(radix, pMax - 1) >= 0x20_0000_0000_0000 && 2 * Pow(radix, pMax) < 0x1_0000_0000_0000_0000
  }

  /** A scale on which everything is an integer. */
  function TopFor(e0: int, p: nat, t: int): (r: nat) {
    Abs(e0) + p + Abs(t) + 2
  }

  lemma {:induction false} RoundPositive(y: nat, q: nat)
    requires q > 0 && 2 * y > q
    ensures RoundDiv(y, q, RNDN) >= 1
  {
    if y >= q {
      RoundLower(y, q, 1, RNDN);
    } else {
      DivUnique(y, q, 0, y);
    }
  }

  /** The first try is at most twice too large, and positive. */
  lemma {:induction false} FirstTry(m: nat, e: int, radix: nat, e0: int, p: nat)
    requires IsDouble(m, e) && radix >= 2 && p >= 1 && FloorLogs(radix, e - 1, e0 - 1)
    ensures Den(e - 53, radix, p - e0) > 0
    ensures 1 <= RoundDiv(Num(m, e - 53, radix, p - e0), Den(e - 53, radix, p - e0), RNDN) <= 2 * Pow(radix, p)
  {
    DoubleBounds(m, e);
    hide Pow, Num, Den, RoundDiv, Grid, OnGrid, IsDouble, FloorLogs;
    var top := TopFor(e0, p, 0);
    EstimateBounds(m, e, radix, top, e0);
    GridRound(m, e, radix, p - e0, top);
    assert -(p - e0) == e0 - p;
    var y, q := OnGrid(m, e, radix, top), Grid(radix, top, e0 - p);
    GridUp(radix, top, e0 - p, p);
    MulAssoc(2, Pow(radix, p), q);
    RoundUpper(y, q, 2 * Pow(radix, p), RNDN);
    GridUp(radix, top, e0 - p, p - 1);
    PowPos(radix, p - 1);
    MulLe(q, 1, Pow(radix, p - 1));
    RoundLower(y, q, 1, RNDN);
  }

  /** The second try fits, and is positive. */
  lemma {:induction false} SecondTry(m: nat, e: int, radix: nat, e0: int, p: nat)
    requires IsDouble(m, e) && radix >= 2 && p >= 1 && FloorLogs(radix, e - 1, e0 - 1)
    requires Den(e - 53, radix, p - e0) > 0
    requires RoundDiv(Num(m, e - 53, radix, p - e0), Den(e - 53, radix, p - e0), RNDN) >= Pow(radix, p)
    ensures Den(e - 53, radix, p - (e0 + 1)) > 0
    ensures 1 <= RoundDiv(Num(m, e - 53, radix, p - (e0 + 1)), Den(e - 53, radix, p - (e0 + 1)), RNDN) < Pow(radix, p)
  {
    DoubleBounds(m, e);
    hide Pow, Num, Den, RoundDiv, Grid, OnGrid, IsDouble, FloorLogs;
    var top := TopFor(e0, p, 0);
    EstimateBounds(m, e, radix, top, e0);
    GridRound(m, e, radix, p - e0, top);
    GridRound(m, e, radix, p - (e0 + 1), top);
    assert -(p - e0) == e0 - p && -(p - (e0 + 1)) == e0 + 1 - p;
    var y, q, q1 := OnGrid(m, e, radix, top), Grid(radix, top, e0 - p), Grid(radix, top, e0 + 1 - p);
    SecondSuffices(y, radix, top, e0, p, RoundDiv(y, q1, RNDN));
    GridUp(radix, top, e0 - p, 1);
    PowOne(radix);
    PowGrows(radix, 1, p);
    RoundHalfEven(y, q);
    LargeEnough(y, q, radix, RoundDiv(y, q, RNDN));
    RoundPositive(y, q1);
  }

  lemma {:induction false} LargeEnough(y: int, q: int, radix: int, mant: int)
    requires q > 0 && radix >= 2 && mant >= radix && HalfEven(y, q, mant)
    ensures 2 * y > radix * q
  {
    MulLe(q, radix, mant);
    MulLe(q, 2, radix);
  }

  /** The inner loop: the mantissa with p digits, and the exponent it needs. */
  method RoundToDigits(tmp1: Mpb, m: nat, e: int, radix1: nat, radixShift: nat, e0: int, p: nat) returns (mant: nat,
      e1: int)
    requires OddRadix(radix1) && radix1 * Pow(2, radixShift) >= 2
    requires IsDouble(m, e) && p >= 1 && FloorLogs(radix1 * Pow(2, radixShift), e - 1, e0 - 1)
    requires 2 * Pow(radix1 * Pow(2, radixShift), p) < 0x1_0000_0000_0000_0000
    modifies tmp1
    ensures Found(m, e, radix1 * Pow(2, radixShift), e0, p, mant, e1)
  {
    DoubleBounds(m, e);
    assert m < 0x20_0000_0000_0000;
    hide Pow, Num, Den, RoundDiv, IsDouble, FloorLogs, Normal, Val;
    var radix := radix1 * Pow(2, radixShift);
    var mantMax1 := PowUi(radix, p);
    FirstTry(m, e, radix, e0, p);
    e1 := e0;
    while true
      invariant e1 == e0 || (e1 == e0 + 1
        && RoundDiv(Num(m, e - 53, radix, p - e0), Den(e - 53, radix, p - e0), RNDN) >= Pow(radix, p))
      decreases e0 + 1 - e1
    {
      if e1 == e0 + 1 {
        SecondTry(m, e, radix, e0, p);
      }
      MulPowRound(tmp1, m, e - 53, radix1, radixShift, p - e1, RNDN);
      mant := GetU64(tmp1);
      if mant < mantMax1 {
        return;
      }
      e1 := e1 + 1;                     // at most one more round
    }
  }

  /** The loop that removes useless trailing zeros. */
  method StripZeros(mant0: nat, p0: nat, radix: nat) returns (mant: nat, p: nat)
    requires radix >= 2 && 0 < mant0 < Pow(radix, p0)
    ensures 1 <= p <= p0 && mant0 == mant * Pow(radix, p0 - p) && 0 < mant < Pow(radix, p) && mant % radix != 0
  {
    PowOne(radix);
    mant, p := mant0, p0;
    while mant % radix == 0
      invariant 1 <= p <= p0 && mant0 == mant * Pow(radix, p0 - p) && 0 < mant < Pow(radix, p)
      decreases mant
    {
      StripOne(mant, p, radix);
      MulAssoc(mant / radix, radix, Pow(radix, p0 - p));
      mant := mant / radix;
      p := p - 1;
    }
  }

  lemma {:induction false} StripOne(mant: nat, p: nat, radix: nat)
    requires radix >= 2 && p >= 1 && 0 < mant < Pow(radix, p) && mant % radix == 0
    ensures 0 < mant / radix < mant && mant == (mant / radix) * radix && mant / radix < Pow(radix, p - 1) && p >= 2
  {
    DivMod(mant, radix);
    DivSmaller(mant, radix);
    var q := mant / radix;
    PowOne(radix);
    CompareScaled(q, Pow(radix, p - 1), radix);
    assert Pow(radix, p) == radix * Pow(radix, p - 1);
  }

  /** With pMax digits the best digits, stripped, read back: the first try need not be checked. */
  lemma {:induction false} FirstReads(m: nat, e: int, radix: nat, e0: int, p: nat, mant0: nat, e1: int, mant: nat,
      p1: nat)
    requires IsDouble(m, e) && radix >= 2 && FloorLogs(radix, e - 1, e0 - 1) && EnoughDigits(radix, p)
    requires Found(m, e, radix, e0, p, mant0, e1) && p1 <= p && mant > 0 && mant0 == mant * Pow(radix, p - p1)
    ensures DigitsRead(radix, mant, e1 - p1, m, e)
  {
    DoubleBounds(m, e);
    hide Pow, IsDouble, FloorLogs, DigitsRead, Distance;
    var top := TopFor(e0, p, 0);
    FoundClose(m, e, radix, e0, p, mant0, e1, top);
    StrippedDistance(m, e, radix, top, mant, e1 - p, p - p1);
    CloseDigits(m, e, radix, top, mant, e1 - p1);
  }

  /** Converting back to binary tells whether the digits read back. */
  method ReadBack(tmp1: Mpb, m: nat, e: int, radix1: nat, radixShift: nat, mant: nat, f: int) returns (same: bool)
    requires OddRadix(radix1) && IsDouble(m, e) && 0 < mant < 0x1_0000_0000_0000_0000
    modifies tmp1
    ensures same <==> DigitsRead(radix1 * Pow(2, radixShift), mant, f, m, e)
  {
    DoubleBounds(m, e);
    hide Pow, Num, Den, IsDouble, Normal, Val, Reads;
    ghost var radix := radix1 * Pow(2, radixShift);
    PowPos(2, radixShift);
    MulPos(radix1, Pow(2, radixShift));
    NumPos(mant, 0, radix, f);
    SetU64(tmp1, mant);
    var m1, e1 := MulPowRoundToD(tmp1, radix1, radixShift, f);
    same := m1 == m && e1 == e;
    if Reads(Num(mant, 0, radix, f), Den(0, radix, f), m, e) {
      ReadsUnique(Num(mant, 0, radix, f), Den(0, radix, f), m, e, m1, e1);
    }
  }

  /** What one round settles: the nearest numbers of all the digits it makes superfluous read back together. */
  lemma {:induction false} RoundEnds(m: nat, e: int, radix: nat, e0: int, p: nat, mant0: nat, e1: int, mant: nat,
      p1: nat)
    requires IsDouble(m, e) && radix >= 2 && e0 == 1 + MulLog2Radix(e - 1, radix) && 1 <= p1 <= p && mant > 0
    requires Found(m, e, radix, e0, p, mant0, e1) && mant0 == mant * Pow(radix, p - p1)
    requires mant < Pow(radix, p1) && mant % radix != 0
    ensures Rounded(m, e, radix, p1, mant, e1 - p1)
    ensures forall q :: p1 <= q <= p ==> (NearestReads(m, e, radix, q) <==> DigitsRead(radix, mant, e1 - p1, m, e))
  {
    DoubleBounds(m, e);
    hide Pow, IsDouble, Found, NearestReads, DigitsRead, Closest, MulLog2Radix, SameNumber, NearestDigits,
        DigitExponent;
    StrippedClosest(m, e, radix, e0, p, mant0, e1, mant, p1);
    FoundFull(m, e, radix, e0, p, mant0, e1);
    StrippedFull(mant0, mant, radix, p, p1);
    StrippedReads(m, e, radix, e0, p, mant0, e1, mant, p1, p1);
    forall q | p1 <= q <= p ensures NearestReads(m, e, radix, q) <==> DigitsRead(radix, mant, e1 - p1, m, e) {
      StrippedReads(m, e, radix, e0, p, mant0, e1, mant, p1, q);
    }
  }

  /** One round of the search: the double rounded to p digits, without its trailing zeros. */
  method OneRound(tmp1: Mpb, m: nat, e: int, radix1: nat, radixShift: nat, e0: int, p: nat, ghost pMax: nat)
    returns (mant: nat, p1: nat, e1: int)
    requires OddRadix(radix1) && radix1 * Pow(2, radixShift) >= 2 && EnoughDigits(radix1 * Pow(2, radixShift), pMax)
    requires IsDouble(m, e) && e0 == 1 + MulLog2Radix(e - 1, radix1 * Pow(2, radixShift)) && 1 <= p <= pMax
    modifies tmp1
    ensures var radix := radix1 * Pow(2, radixShift);
      && 1 <= p1 <= p && Rounded(m, e, radix, p1, mant, e1 - p1)
      && (p == pMax ==> DigitsRead(radix, mant, e1 - p1, m, e))
      && forall q :: p1 <= q <= p ==> (NearestReads(m, e, radix, q) <==> DigitsRead(radix, mant, e1 - p1, m, e))
  {
    DoubleBounds(m, e);
    hide Pow, IsDouble, FloorLogs, DigitsRead, Found, EnoughDigits, NearestReads, MulLog2Radix, Rounded;
    var radix := radix1 * Pow(2, radixShift);
    MulLog2RadixMeaning(e - 1, radix);
    FewerFit(radix, p, pMax);
    var mant0;
    mant0, e1 := RoundToDigits(tmp1, m, e, radix1, radixShift, e0, p);
    FoundBounds(m, e, radix, e0, p, mant0, e1);
    mant, p1 := StripZeros(mant0, p, radix);
    RoundEnds(m, e, radix, e0, p, mant0, e1, mant, p1);
    if p == pMax {
      FirstReads(m, e, radix, e0, p, mant0, e1, mant, p1);
    }
  }

  lemma {:induction false} RoundedFits(m: nat, e: int, radix: nat, p: nat, mant: nat, t: int, pMax: nat)
    requires radix >= 2 && Rounded(m, e, radix, p, mant, t) && EnoughDigits(radix, pMax) && p <= pMax
    ensures 0 < mant < 0x1_0000_0000_0000_0000
  {
    FullPositive(mant, p, radix);
    FewerFit(radix, p, pMax);
  }

  lemma {:induction false} SearchEnded(m: nat, e: int, radix: nat, pMax: nat, p: nat)
    requires radix >= 2 && 1 <= p <= pMax && (p > 1 ==> !NearestReads(m, e, radix, p - 1))
    requires forall q :: p <= q < pMax ==> NearestReads(m, e, radix, q)
    ensures SearchEnds(m, e, radix, pMax, p)
  {
    hide NearestReads;
  }

  /** The free format of js_dtoa: digits without trailing zeros that read back as the double, the closest to it of their
      number, and where the search for fewer digits ends. Unless the doubles below are denser than those above, there
      are as few as possible; ShortestIff says exactly when there are. */
  method FreeFormat(tmp1: Mpb, m: nat, e: int, radix1: nat, radixShift: nat, pMax: nat) returns (mant: nat, p: nat,
      e1: int)
    requires OddRadix(radix1) && radix1 * Pow(2, radixShift) >= 2 && EnoughDigits(radix1 * Pow(2, radixShift), pMax)
    requires IsDouble(m, e)
    modifies tmp1
    ensures var radix := radix1 * Pow(2, radixShift);
      && Rounded(m, e, radix, p, mant, e1 - p)
      && DigitsRead(radix, mant, e1 - p, m, e)
      && SearchEnds(m, e, radix, pMax, p)
      && (!Dense(m, e) ==> Shortest(m, e, radix, p))
  {
    DoubleBounds(m, e);
    hide Pow, IsDouble, DigitsRead, EnoughDigits, Dense, Shortest, NearestReads, MulLog2Radix, Rounded, SearchEnds;
    var radix := radix1 * Pow(2, radixShift);
    var e0 := 1 + MulLog2Radix(e - 1, radix);
    EnoughMeans(radix, pMax);
    mant, p, e1 := OneRound(tmp1, m, e, radix1, radixShift, e0, pMax, pMax);
    while p > 1
      invariant 1 <= p <= pMax && Rounded(m, e, radix, p, mant, e1 - p) && DigitsRead(radix, mant, e1 - p, m, e)
      invariant forall q :: p <= q < pMax ==> NearestReads(m, e, radix, q)
      decreases p
    {
      var mantTry, pTry, eTry := OneRound(tmp1, m, e, radix1, radixShift, e0, p - 1, pMax);
      RoundedFits(m, e, radix, pTry, mantTry, eTry - pTry, pMax);
      var same := ReadBack(tmp1, m, e, radix1, radixShift, mantTry, eTry - pTry);
      if !same {
        break;
      }
      mant, p, e1 := mantTry, pTry, eTry;
    }
    SearchEnded(m, e, radix, pMax, p);
    if !Dense(m, e) {
      EvenlySpaced(m, e, radix, pMax, p);
    }
  }

  lemma {:induction false} EnoughMeans(radix: nat, pMax: nat)
    requires EnoughDigits(radix, pMax)
    ensures pMax >= 1 && 2 * Pow(radix, pMax) < 0x1_0000_0000_0000_0000
  {
  }

  lemma {:induction false} FewerFit(radix: nat, p: nat, pMax: nat)
    requires EnoughDigits(radix, pMax) && p <= pMax && radix >= 2
    ensures 2 * Pow(radix, p) < 0x1_0000_0000_0000_0000
  {
    PowGrows(radix, p, pMax);
  }

  lemma {:induction false} FoundBounds(m: nat, e: int, radix: nat, e0: int, p: nat, mant: nat, e1: int)
    requires radix > 0 && e >= -1073 && Found(m, e, radix, e0, p, mant, e1)
    ensures 0 < mant < Pow(radix, p)
  {
  }

  /** Powers of two can get a digit too many: for 2^-44 the search ends with seventeen digits, because the sixteen
      closest to it do not read back, although the next sixteen do. */
  lemma {:induction false} NotShortest(p: nat)
    requires SearchEnds(0x10_0000_0000_0000, -43, 10, 17, p)
    ensures p == 17 && !Shortest(0x10_0000_0000_0000, -43, 10, p)
    ensures IsDouble(0x10_0000_0000_0000, -43) && Dense(0x10_0000_0000_0000, -43)
    ensures !NearestReads(0x10_0000_0000_0000, -43, 10, 16) && NextReads(0x10_0000_0000_0000, -43, 10, 16)
  {
    SixteenHere();
    hide Pow, DigitsRead, NearestReads, NextReads, IsDouble;
    EndsAfter(0x10_0000_0000_0000, -43, 10, 17, p, 16);
  }

  lemma {:induction false} EndsAfter(m: nat, e: int, radix: nat, pMax: nat, p: nat, q: nat)
    requires radix >= 2 && SearchEnds(m, e, radix, pMax, p) && q < pMax && !NearestReads(m, e, radix, q)
    ensures p > q
  {
  }

  lemma {:induction false} SixteenHere()
    ensures IsDouble(0x10_0000_0000_0000, -43) && Dense(0x10_0000_0000_0000, -43)
    ensures !NearestReads(0x10_0000_0000_0000, -43, 10, 16) && NextReads(0x10_0000_0000_0000, -43, 10, 16)
    ensures !Shortest(0x10_0000_0000_0000, -43, 10, 17)
  {
    var m: nat, k: nat := 0x10_0000_0000_0000, 5684341886080802;
    PowersHere();
    ExponentHere();
    RoundedHere();
    hide Pow, DigitsRead, DigitExponent, Num, Den, RoundDiv;
    DivUnique(m, 1, m, 0);
    ReadsHere(5684341886080801);
    ReadsHere(k);
    assert 0 < k < Pow(10, 16) && DigitsRead(10, k, -29, m, -43);
  }

  lemma {:induction false} ExponentHere()
    ensures DigitExponent(0x10_0000_0000_0000, -43, 10) == -13
  {
    PowersHere();
    hide Pow, Fits;
    PowPos(2, 44);
    var f := Fits(10, Pow(2, 44) - 1);
    FitsMeaning(10, Pow(2, 44) - 1);
    if f >= 14 {
      PowGrows(10, 14, f);
    } else if f <= 12 {
      PowGrows(10, f + 1, 13);
    }
    assert MulLog2Radix(-44, 10) == -14;
  }

  lemma {:induction false} PowersHere()
    ensures Pow(2, 0) == 1 && Pow(10, 0) == 1 && Pow(10, 29) == 100_000_000_000_000_000_000_000_000_000
    ensures Pow(2, 98) == 0x4_0000_0000_0000_0000_0000_0000 && Pow(2, 96) == 0x1_0000_0000_0000_0000_0000_0000
    ensures Pow(2, 54) == 0x40_0000_0000_0000 && Pow(2, 44) == 0x1000_0000_0000
    ensures Pow(10, 13) == 10_000_000_000_000 && Pow(10, 14) == 100_000_000_000_000 && Pow(10,
        16) == 10_000_000_000_000_000
  {
    assert Pow(10, 3) == 1000 && Pow(10, 2) == 100 && Pow(2, 1) == 2 && Pow(2, 2) == 4 && Pow(2, 4) == 16 && Pow(2,
        6) == 64;
    hide Pow;
    PowAdd(10, 3, 2);
    PowAdd(10, 5, 3);
    PowAdd(10, 8, 5);
    PowAdd(10, 13, 1);
    PowAdd(10, 8, 8);
    PowAdd(10, 16, 8);
    PowAdd(10, 24, 5);
    PowAdd(2, 6, 6);
    PowAdd(2, 12, 12);
    PowAdd(2, 24, 24);
    PowAdd(2, 44, 4);
    PowAdd(2, 48, 48);
    PowAdd(2, 48, 6);
    PowAdd(2, 96, 2);
    PowOne(2);
    PowOne(10);
  }

  lemma {:induction false} RoundedHere()
    ensures Den(-96, 10, 29) > 0
    ensures RoundDiv(Num(0x10_0000_0000_0000, -96, 10, 29), Den(-96, 10, 29), RNDN) == 5684341886080801
  {
    PowersHere();
    hide Pow;
    var n: nat, d: nat := 0x10_0000_0000_0000 * 100_000_000_000_000_000_000_000_000_000,
        0x1_0000_0000_0000_0000_0000_0000;
    DivUnique(n, d, 5684341886080801, n - 5684341886080801 * d);
  }

  /** k * 10^-29 is within the rounding interval of 2^-44. */
  predicate InsideHere(k: nat) {
    var d: int, v: int := 100_000_000_000_000_000_000_000_000_000, k * 0x4_0000_0000_0000_0000_0000_0000;
    v - 0x40_0000_0000_0000 * d <= 2 * d && 0x40_0000_0000_0000 * d - v <= d
  }

  lemma {:induction false} ReadsHere(k: nat)
    requires k > 0 && IsDouble(0x10_0000_0000_0000, -43)
    ensures DigitsRead(10, k, -29, 0x10_0000_0000_0000, -43) <==> InsideHere(k)
  {
    var m: nat, d: nat := 0x10_0000_0000_0000, 100_000_000_000_000_000_000_000_000_000;
    FractionHere(k);
    hide Pow, Reads, IsDouble, Num, Den, Quarter, InInterval, Units, InsideHere;
    ReadsIff(k, d, m, -43);
    ScaleHere(k);
    IntervalHere(k, Pow(2, 1102), d);
  }

  lemma {:induction false} FractionHere(k: nat)
    ensures Num(k, 0, 10, -29) == k && Den(0, 10, -29) == 100_000_000_000_000_000_000_000_000_000
  {
    PowersHere();
    hide Pow;
  }

  lemma {:induction false} ScaleHere(k: nat)
    ensures Units(0x10_0000_0000_0000, -43) == 0x10_0000_0000_0000 && Pow(2, 1102) > 0
    ensures Quarter(100_000_000_000_000_000_000_000_000_000, -43) == 100_000_000_000_000_000_000_000_000_000 * Pow(2,
        1102)
    ensures k * Pow(2, 1200) == k * (Pow(2, 1102) * 0x4_0000_0000_0000_0000_0000_0000)
  {
    PowersHere();
    hide Pow;
    PowPos(2, 1102);
    PowAdd(2, 1102, 98);
    DivUnique(0x10_0000_0000_0000, 1, 0x10_0000_0000_0000, 0);
  }

  lemma {:induction false} IntervalHere(k: nat, p: nat, d: nat)
    requires p > 0 && d == 100_000_000_000_000_000_000_000_000_000
    ensures InInterval(k * (p * 0x4_0000_0000_0000_0000_0000_0000), d * p, 0x10_0000_0000_0000, true) <==> InsideHere(k)
  {
    var y: int := k * 0x4_0000_0000_0000_0000_0000_0000 - 18014398509481984 * d;
    assert k * (p * 0x4_0000_0000_0000_0000_0000_0000) - 4 * (d * p * 0x10_0000_0000_0000) == y * p;
    Compare(y, 2 * d, p);
    Compare(-y, d, p);
  }
}
