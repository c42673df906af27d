/** The free format of js_dtoa: the shortest digits that read back as the double they came from. */
module FreeDigits {
  import opened Powers
  import opened Limbs
  import opened Rounding
  import opened Bignum
  import opened Scaling
  import opened ScaledRounding
  import opened FloatSpec
  import opened RoundToDouble
  import opened Reading
  import opened ShortestDigits

  /** What mul_pow leaves stands for the scaled number. */
  lemma {:induction false} ScaledStands(v: nat, w: nat, radix1: nat, rs: nat, f: int, up: nat, eOffset: int)
    requires radix1 > 0 && Scaled(v, w, radix1, f, up) && eOffset == -f * rs + up
    requires f < 0 && radix1 != 1 ==> w >= Pow(2, 55)
    ensures var radix := radix1 * Pow(2, rs);
      Stands(w, eOffset, Num(v, 0, radix, f), Den(0, radix, f))
  {
    hide Pow, Num, Den, Sticky;
    var radix := radix1 * Pow(2, rs);
    Gathered(v, 0, radix1, rs, f);
    PowOne(2);
    if f >= 0 {
      assert -f * rs == -(rs * f);
      StandsExact(w, 1, rs * f);
    } else {
      assert -f * rs == rs * -f;
      PowPos(radix1, -f);
      if radix1 == 1 {
        PowOnes(-f);
        StandsExact(v, 1, rs * -f);
      } else {
        StandsSticky(v, w, Pow(radix1, -f), up, rs * -f);
      }
    }
  }

  lemma {:induction false} StandsExact(w: nat, d: nat, k: nat)
    requires d == 1
    ensures d * Pow(2, k) > 0 && Sticky(w * Pow(2, k), d * Pow(2, k)) == w && (w * Pow(2, k)) % (d * Pow(2, k)) == 0
  {
    PowPos(2, k);
    DivUnique(w * Pow(2, k), Pow(2, k), w, 0);
  }

  lemma {:induction false} StandsSticky(v: nat, w: nat, r: nat, up: nat, k: nat)
    requires r > 0 && w == Sticky(v * Pow(2, up), r)
    ensures r * Pow(2, k) > 0 && Sticky(v * Pow(2, k + up), r * Pow(2, k)) == w
  {
    PowPos(2, k);
    PowAdd(2, up, k);
    MulAssoc(v, Pow(2, up), Pow(2, k));
    DivScale(v * Pow(2, up), r, Pow(2, k));
    var m := (v * Pow(2, up)) % r;
    DivMod(v * Pow(2, up), r);
    if m > 0 {
      MulPos(m, Pow(2, k));
    }
  }

  /** mul_pow_round_to_d: a * radix^f, rounded to a double. */
  method MulPowRoundToD(a: Mpb, radix1: nat, radixShift: nat, f: int) returns (m: nat, e: int)
    requires OddRadix(radix1) && Normal(a.tab) && a.Value() > 0
    modifies a
    ensures var radix := radix1 * Pow(2, radixShift); var v := old(a.Value());
      Den(0, radix, f) > 0 && Reads(Num(v, 0, radix, f), Den(0, radix, f), m, e)
  {
    hide Pow, Num, Den, Sticky, RoundDiv, Normal, Val, Normalized, Log2, InUnits, Stands, Scaled;
    ghost var radix, v := radix1 * Pow(2, radixShift), a.Value();
    PowPos(2, radixShift);
    MulPos(radix1, Pow(2, radixShift));
    NumPos(v, 0, radix, f);
    DenPos(0, radix, f);
    var eOffset;
    ghost var up, e0;
    eOffset, up := MulPow(a, radix1, radixShift, f, false, 55);
    ScaledStands(v, a.Value(), radix1, radixShift, f, up, eOffset);
    ScaledNonZero(v, a.Value(), radix1, f, up);
    m, e, e0 := RoundToD(a, eOffset, Num(v, 0, radix, f), Den(0, radix, f));
  }

  lemma {:induction false} NumPos(m: nat, e: int, radix: nat, f: int)
    requires m > 0 && radix > 0
    ensures Num(m, e, radix, f) > 0
  {
    PowPos(2, Plus(e));
    PowPos(radix, Plus(f));
    MulPos(Pow(2, Plus(e)), Pow(radix, Plus(f)));
    MulPos(m, Pow(2, Plus(e)) * Pow(radix, Plus(f)));
  }

  lemma {:induction false} ScaledNonZero(v: nat, w: nat, radix1: nat, f: int, up: nat)
    requires radix1 > 0 && v > 0 && Scaled(v, w, radix1, f, up) && (f < 0 && radix1 != 1 ==> w >= Pow(2, 55))
    ensures w > 0
  {
    PowPos(2, 55);
    if f >= 0 {
      PowPos(radix1, f);
      MulPos(v, Pow(radix1, f));
    }
  }

  /** A fraction is read as one double only. */
  lemma {:induction false} ReadsUnique(n: nat, d: nat, m: nat, e: int, m1: nat, e1: int)
    requires d > 0 && n > 0 && Reads(n, d, m, e) && Reads(n, d, m1, e1) && m > 0
    ensures m == m1 && e == e1
  {
    hide Log2, InUnits;
    var a :| Log2(n, d, a) && Normalized(InUnits(n, d, Ulp(a)), a, m, e);
    var b :| Log2(n, d, b) && Normalized(InUnits(n, d, Ulp(b)), b, m1, e1);
    Log2Unique(n, d, a, b);
  }

  /** radix^r <= 2^a < radix^(r + 1) */
  predicate FloorLogs(radix: nat, a: int, r: int) {
    && Pow(radix, Plus(r)) * Pow(2, Minus(a)) <= Pow(2, Plus(a)) * Pow(radix, Minus(r))
    && Pow(2, Plus(a)) * Pow(radix, Minus(r + 1)) < Pow(radix, Plus(r + 1)) * Pow(2, Minus(a))
  }

  /** mul_log2_radix: the floor of a / log2(radix). */
  function MulLog2Radix(a: int, radix: nat): (r: int)
    requires radix >= 2
  {
    if a >= 0 then Fits(radix, Pow(2, a))
    else
      PowPos(2, -a);
      -(Fits(radix, Pow(2, -a) - 1) as int) - 1
  }

  lemma {:induction false} MulLog2RadixMeaning(a: int, radix: nat)
    requires radix >= 2
    ensures FloorLogs(radix, a, MulLog2Radix(a, radix))
  {
    hide Pow, Fits;
    PowOne(2);
    PowOne(radix);
    if a >= 0 {
      PowPos(2, a);
      FitsMeaning(radix, Pow(2, a));
    } else {
      PowGrows(2, 1, -a);
      FitsMeaning(radix, Pow(2, -a) - 1);
    }
  }

  /** The double x = m * 2^(e - 53), times 2^1200. */
  function Big(m: nat, e: int): (r: nat)
    requires e >= -1073
  {
    m * Pow(2, 1147 + e)
  }

  /** The double on the scale of Grid. */
  function OnGrid(m: nat, e: int, radix: nat, top: nat): (r: nat)
    requires e >= -1073
  {
    Big(m, e) * Pow(radix, top)
  }

  lemma {:induction false} BigUnits(d: nat, m: nat, e: int)
    requires IsDouble(m, e)
    ensures 4 * (Quarter(d, e) * Units(m, e)) == d * Big(m, e)
  {
    hide Pow, IsDouble, Units;
    DoubleBounds(m, e);
    UnitsOfDouble(m, e);
    var k := Units(m, e);
    FourQuarters(d, e);
    var s, p := Pow(2, 53 - Precision(e)), Pow(2, 1147 + e);
    PowAdd(2, 53 - Precision(e), 1147 + e);
    assert 53 - Precision(e) + (1147 + e) == 1200 + Ulp(e);
    assert Scale(e) == s;
    MulAssoc(k, s, p);
    var w := Pow(2, 1200 + Ulp(e));
    assert d * (k * w) == (d * w) * k;
    MulAssoc(4, Quarter(d, e), k);
  }

  /** Rounding on the grid is what mul_pow_round does. */
  lemma {:induction false} GridRound(m: nat, e: int, radix: nat, j: int, top: nat)
    requires e >= -1073 && radix > 0 && top - j >= 0
    ensures Den(e - 53, radix, j) > 0 && Grid(radix, top, -j) > 0
    ensures RoundDiv(Num(m, e - 53, radix, j), Den(e - 53, radix, j), RNDN) ==
            RoundDiv(OnGrid(m, e, radix, top), Grid(radix, top, -j), RNDN)
  {
    hide Pow, RoundDiv;
    DenPos(e - 53, radix, j);
    GridPos(radix, top, -j);
    var a, b, c, x := Pow(2, Plus(e - 53)), Pow(2, 1200), Pow(2, 1147 + e), Pow(2, Minus(e - 53));
    var r, s, t, u := Pow(radix, Plus(j)), Pow(radix, top - j), Pow(radix, top), Pow(radix, Minus(j));
    PowAdd(2, Plus(e - 53), 1200);
    PowAdd(2, 1147 + e, Minus(e - 53));
    PowAdd(radix, Plus(j), top - j);
    PowAdd(radix, top, Minus(j));
    assert a * b == c * x && r * s == t * u;
    GridCross(m, a, b, c, x, r, s, t, u);
    RoundSame(Num(m, e - 53, radix, j), Den(e - 53, radix, j), OnGrid(m, e, radix, top), Grid(radix, top, -j), RNDN);
  }

  lemma {:induction false} GridCross(m: int, a: int, b: int, c: int, x: int, r: int, s: int, t: int, u: int)
    requires a * b == c * x && r * s == t * u
    ensures (m * (a * r)) * (s * b) == ((m * c) * t) * (x * u)
  {
    assert (a * r) * (s * b) == (a * b) * (r * s) by {
      assert (a * r) * (b * s) == (a * b) * (r * s) by { Swap4(a, r, b, s); }
      assert s * b == b * s;
    }
    MulAssoc(m, a * r, s * b);
    assert (c * t) * (x * u) == (c * x) * (t * u) by { Swap4(c, t, x, u); }
    MulAssoc(m, c, t);
    MulAssoc(m, c * t, x * u);
  }

  /** The distance of the digits k * radix^t from the double, on the grid. */
  function Distance(m: nat, e: int, radix: nat, top: nat, k: nat, t: int): (r: nat)
    requires e >= -1073 && t + top >= 0
  {
    Abs(k * Grid(radix, top, t) - OnGrid(m, e, radix, top))
  }

  lemma {:induction false} GridDistance(m: nat, e: int, radix: nat, top: nat, k: nat, t: int)
    requires e >= -1073 && radix > 0 && t + top >= 0
    ensures var n, d := Num(k, 0, radix, t), Den(0, radix, t);
      && Pow(radix, top) * Abs(n * Pow(2, 1200) - d * Big(m, e)) == d * Distance(m, e, radix, top, k, t)
      && (n * Pow(2, 1200) <= d * Big(m, e) <==> k * Grid(radix, top, t) <= OnGrid(m, e, radix, top))
      && (n * Pow(2, 1200) >= d * Big(m, e) <==> k * Grid(radix, top, t) >= OnGrid(m, e, radix, top))
  {
    hide Pow;
    var n, d := Num(k, 0, radix, t), Den(0, radix, t);
    PowOne(2);
    assert n == k * Pow(radix, Plus(t)) && d == Pow(radix, Minus(t));
    PowAdd(radix, top, Plus(t));
    PowAdd(radix, Minus(t), t + top);
    PowPos(radix, top);
    PowPos(radix, Minus(t));
    var p, q, w, b := Pow(radix, top), Pow(radix, t + top), Pow(2, 1200), Big(m, e);
    assert p * (n * w) == d * (k * (q * w)) by {
      Regroup(p, k, Pow(radix, Plus(t)), w);
      Regroup(d, k, q, w);
    }
    assert p * (d * b) == d * (b * p);
    ScaledAbs(p, n * w, d * b, d, k * (q * w), b * p);
    ScaledOrder(p, n * w, d * b, d, k * (q * w), b * p);
    ScaledOrder(p, d * b, n * w, d, b * p, k * (q * w));
  }

  lemma {:induction false} ScaledOrder(p: int, x: int, y: int, d: int, z: int, w: int)
    requires p > 0 && d > 0 && p * x == d * z && p * y == d * w
    ensures x <= y <==> z <= w
  {
    Compare(x, y, p);
    Compare(z, w, d);
  }

  lemma {:induction false} Regroup(p: int, k: int, r: int, w: int)
    ensures p * ((k * r) * w) == (p * r) * (k * w)
    ensures p * (k * (r * w)) == (p * r) * (k * w)
  {
    MulAssoc(k, r, w);
    Swap4(p, r, k, w);
    assert (p * k) * (r * w) == (p * r) * (k * w) by { Swap4(p, k, r, w); }
    MulAssoc(p, k, r * w);
  }

  lemma {:induction false} ScaledAbs(p: int, x: int, y: int, d: int, z: int, w: int)
    requires p > 0 && d > 0 && p * x == d * z && p * y == d * w
    ensures p * Abs(x - y) == d * Abs(z - w)
  {
    assert p * (x - y) == d * (z - w);
    if x < y {
      MulLt(p, x, y);
      Compare(z, w, d);
    } else {
      MulLe(p, y, x);
      Compare(w, z, d);
    }
  }

  /** The digits k * radix^t read back as the double. */
  ghost predicate DigitsRead(radix: nat, k: nat, t: int, m: nat, e: int) {
    Den(0, radix, t) > 0 && Reads(Num(k, 0, radix, t), Den(0, radix, t), m, e)
  }

  /** Digits at most as far away as digits that read back, read back, unless they are on the denser side and the others
      are not. */
  lemma {:induction false} CloserDigits(m: nat, e: int, radix: nat, top: nat, k: nat, t: int, k1: nat, t1: int)
    requires IsDouble(m, e) && radix > 0 && k > 0 && k1 > 0 && t + top >= 0 && t1 + top >= 0
    requires !Dense(m, e) || k * Grid(radix, top, t) <= OnGrid(m, e, radix, top)
             || k1 * Grid(radix, top, t1) >= OnGrid(m, e, radix, top)
    requires DigitsRead(radix, k, t, m, e)
    requires Distance(m, e, radix, top, k1, t1) <= Distance(m, e, radix, top, k, t)
    ensures DigitsRead(radix, k1, t1, m, e)
  {
    DoubleBounds(m, e);
    hide Pow, IsDouble, Num, Den, Reads, Units, Quarter, Distance;
    var n, d, n1, d1 := Num(k, 0, radix, t), Den(0, radix, t), Num(k1, 0, radix, t1), Den(0, radix, t1);
    DenPos(0, radix, t1);
    NumPos(k, 0, radix, t);
    NumPos(k1, 0, radix, t1);
    GridDistance(m, e, radix, top, k, t);
    GridDistance(m, e, radix, top, k1, t1);
    BigUnits(d, m, e);
    BigUnits(d1, m, e);
    PowPos(radix, top);
    var a, a1 := Abs(n * Pow(2, 1200) - d * Big(m, e)), Abs(n1 * Pow(2, 1200) - d1 * Big(m, e));
    CrossDistance(Pow(radix, top), d, a, Distance(m, e, radix, top, k, t), d1, a1, Distance(m, e, radix, top, k1, t1));
    CloserReads(n, d, n1, d1, m, e);
  }

  lemma {:induction false} CrossDistance(p: int, d: int, a: int, x: int, d1: int, a1: int, x1: int)
    requires p > 0 && d > 0 && d1 > 0 && p * a == d * x && p * a1 == d1 * x1 && x1 <= x
    ensures d * a1 <= d1 * a
  {
    MulLe(d * d1, x1, x);
    assert p * (d * a1) == (d * d1) * x1 by {
      assert p * (d * a1) == d * (p * a1);
      MulAssoc(d, d1, x1);
    }
    assert p * (d1 * a) == (d * d1) * x by {
      assert p * (d1 * a) == d1 * (p * a);
      assert d1 * (d * x) == (d * d1) * x;
    }
    CancelLe(p, d * a1, d1 * a);
  }

  /** Digits within 2^-54 of the double read back. */
  lemma {:induction false} CloseDigits(m: nat, e: int, radix: nat, top: nat, k: nat, t: int)
    requires IsDouble(m, e) && radix > 0 && k > 0 && t + top >= 0
    requires 0x40_0000_0000_0000 * Distance(m, e, radix, top, k, t) <= OnGrid(m, e, radix, top)
    ensures DigitsRead(radix, k, t, m, e)
  {
    DoubleBounds(m, e);
    var dist, y := Distance(m, e, radix, top, k, t), OnGrid(m, e, radix, top);
    hide Pow, IsDouble, Num, Den, Reads, Units, Quarter, Distance;
    var n, d := Num(k, 0, radix, t), Den(0, radix, t);
    DenPos(0, radix, t);
    NumPos(k, 0, radix, t);
    GridDistance(m, e, radix, top, k, t);
    BigUnits(d, m, e);
    PowPos(radix, top);
    CloseCross(Pow(radix, top), d, Abs(n * Pow(2, 1200) - d * Big(m, e)), dist, Big(m, e), y);
    CloseReads(n, d, m, e);
  }

  lemma {:induction false} CloseCross(p: int, d: int, a: int, x: int, b: int, y: int)
    requires p > 0 && d > 0 && p * a == d * x && y == b * p && 0x40_0000_0000_0000 * x <= y
    ensures 0x40_0000_0000_0000 * a <= d * b
  {
    MulLe(d, 0x40_0000_0000_0000 * x, y);
    assert p * (d * b) == d * (b * p);
    CancelLe(p, 0x40_0000_0000_0000 * a, d * b);
  }

  /** The bounds the first exponent estimate gives: radix^(e0 - 1) <= x < 2 * radix^e0. */
  lemma {:induction false} EstimateBounds(m: nat, e: int, radix: nat, top: nat, e0: int)
    requires IsDouble(m, e) && radix >= 2 && FloorLogs(radix, e - 1, e0 - 1) && e0 - 1 + top >= 0
    ensures OnGrid(m, e, radix, top) >= Grid(radix, top, e0 - 1)
    ensures OnGrid(m, e, radix, top) < 2 * Grid(radix, top, e0)
    ensures radix == 2 ==> OnGrid(m, e, radix, top) < Grid(radix, top, e0)
  {
    DoubleBounds(m, e);
    hide Pow;
    Pow53();
    var p, w := Pow(radix, top), Pow(2, 1199 + e);
    // x is between 2^(e - 1) and 2^e
    PowAdd(2, 52, 1147 + e);
    PowAdd(2, 53, 1147 + e);
    PowPos(2, 1147 + e);
    MulLe(Pow(2, 1147 + e), Pow(2, 52), m);
    MulLt(Pow(2, 1147 + e), m, Pow(2, 53));
    PowPos(radix, top);
    PowNext(2, 1200 + e);
    MulLe(p, w, Big(m, e));
    MulLt(p, Big(m, e), 2 * w);
    MulAssoc(2, w, p);
    LogOnGrid(e, radix, top, e0);
    if radix == 2 {
      BinaryEstimate(e, e0);
      PowAdd(2, e + top, 1200);
      PowAdd(2, 1200 + e, top);
      assert 2 * w == Pow(2, 1200 + e);
    }
  }

  /** The two inequalities of the logarithm, on the grid. */
  lemma {:induction false} LogOnGrid(e: int, radix: nat, top: nat, e0: int)
    requires e >= -1073 && radix >= 2 && FloorLogs(radix, e - 1, e0 - 1) && e0 - 1 + top >= 0
    ensures Grid(radix, top, e0 - 1) <= Pow(2, 1199 + e) * Pow(radix, top) < Grid(radix, top, e0)
  {
    hide Pow;
    var a, r := e - 1, e0 - 1;
    OneSide(radix, a, r, top);
    OtherSide(radix, a, r + 1, top);
  }

  lemma {:induction false} OneSide(radix: nat, a: int, r: int, top: nat)
    requires radix >= 2 && a + 1200 >= 0 && r + top >= 0
    ensures Pow(radix, Plus(r)) * Pow(2, Minus(a)) <= Pow(2, Plus(a)) * Pow(radix, Minus(r))
            <==> Pow(radix, r + top) * Pow(2, 1200) <= Pow(2, 1200 + a) * Pow(radix, top)
  {
    hide Pow;
    RescaleBy(2, Pow(radix, Plus(r)), Pow(radix, Minus(r)), Minus(a), Plus(a), 1200, 1200 + a);
    RescaleBy(radix, Pow(2, 1200), Pow(2, 1200 + a), Plus(r), Minus(r), r + top, top);
    Commute(Pow(radix, Plus(r)), Pow(2, 1200));
    Commute(Pow(radix, Minus(r)), Pow(2, 1200 + a));
    Commute(Pow(radix, r + top), Pow(2, 1200));
    Commute(Pow(radix, Minus(r)), Pow(2, Plus(a)));
  }

  lemma {:induction false} OtherSide(radix: nat, a: int, r: int, top: nat)
    requires radix >= 2 && a + 1200 >= 0 && r + top >= 0
    ensures Pow(2, Plus(a)) * Pow(radix, Minus(r)) < Pow(radix, Plus(r)) * Pow(2, Minus(a))
            <==> Pow(2, 1200 + a) * Pow(radix, top) < Pow(radix, r + top) * Pow(2, 1200)
  {
    OneSide(radix, a, r, top);
  }

  lemma {:induction false} Commute(x: int, y: int)
    ensures x * y == y * x
  {
  }

  lemma {:induction false} BinaryEstimate(e: int, e0: int)
    requires FloorLogs(2, e - 1, e0 - 1)
    ensures e0 == e
  {
    hide Pow;
    var a, r := e - 1, e0 - 1;
    PowAdd(2, Plus(r), Minus(a));
    PowAdd(2, Plus(a), Minus(r));
    PowAdd(2, Plus(a), Minus(r + 1));
    PowAdd(2, Plus(r + 1), Minus(a));
    if r > a {
      PowStrict(2, Plus(a) + Minus(r), Plus(r) + Minus(a));
    } else if r + 1 <= a {
      PowGrows(2, Plus(r + 1) + Minus(a), Plus(a) + Minus(r + 1));
    }
  }

  /** What one round of the search finds with p digits, before it strips zeros. */
  ghost predicate Found(m: nat, e: int, radix: nat, e0: int, p: nat, mant: nat, e1: int)
    requires radix > 0 && e >= -1073
  {
    && 0 < mant < Pow(radix, p) && (e1 == e0 || e1 == e0 + 1)
    && Den(e - 53, radix, p - e1) > 0 && Den(e - 53, radix, p - e0) > 0
    && mant == RoundDiv(Num(m, e - 53, radix, p - e1), Den(e - 53, radix, p - e1), RNDN)
    && (e1 == e0 + 1 ==> RoundDiv(Num(m, e - 53, radix, p - e0), Den(e - 53, radix, p - e0), RNDN) >= Pow(radix, p))
  }

  lemma {:induction false} FoundBest(m: nat, e: int, radix: nat, e0: int, p: nat, mant: nat, e1: int,
      top: nat) returns (eb: int)
    requires IsDouble(m, e) && radix >= 2 && p >= 1 && FloorLogs(radix, e - 1, e0 - 1) && e0 - 1 - p + top >= 0
    requires Found(m, e, radix, e0, p, mant, e1)
    ensures e0 <= eb && Best(OnGrid(m, e, radix, top), mant * Grid(radix, top, e1 - p), radix, top, eb, p)
  {
    DoubleBounds(m, e);
    hide Pow, Num, Den, RoundDiv, Grid, OnGrid, Best, IsDouble, FloorLogs;
    EstimateBounds(m, e, radix, top, e0);
    GridRound(m, e, radix, p - e0, top);
    GridRound(m, e, radix, p - e1, top);
    assert -(p - e0) == e0 - p && -(p - e1) == e1 - p;
    var y := OnGrid(m, e, radix, top);
    if e1 == e0 {
      FirstExponent(y, radix, top, e0, p, mant);
      eb := e0;
    } else {
      assert e1 == e0 + 1;
      var mant0 := RoundDiv(y, Grid(radix, top, e0 - p), RNDN);
      SecondExponent(y, radix, top, e0, p, mant0, mant);
      if Best(y, mant * Grid(radix, top, e0 + 1 - p), radix, top, e0, p) {
        eb := e0;
      } else {
        eb := e0 + 1;
      }
    }
  }

  /** What is found is a closest number of at most p digits. */
  lemma {:induction false} FoundClosest(m: nat, e: int, radix: nat, e0: int, p: nat, mant: nat, e1: int, top: nat,
      k: nat, t: int)
    requires IsDouble(m, e) && radix >= 2 && p >= 1 && FloorLogs(radix, e - 1, e0 - 1) && e0 - 1 - p + top >= 0
    requires Found(m, e, radix, e0, p, mant, e1) && t + top >= 0 && k < Pow(radix, p)
    ensures Distance(m, e, radix, top, mant, e1 - p) <= Distance(m, e, radix, top, k, t)
  {
    DoubleBounds(m, e);
    var y, v := OnGrid(m, e, radix, top), mant * Grid(radix, top, e1 - p);
    assert Distance(m, e, radix, top, mant, e1 - p) == Abs(v - y);
    assert Distance(m, e, radix, top, k, t) == Abs(k * Grid(radix, top, t) - y);
    hide Pow, Grid, OnGrid, Best, IsDouble, FloorLogs, Found, Distance;
    var eb := FoundBest(m, e, radix, e0, p, mant, e1, top);
    BestIsClosest(y, v, radix, top, eb, p, k, t);
  }

  /** With the largest number of digits, what is found is close enough. */
  lemma {:induction false} FoundClose(m: nat, e: int, radix: nat, e0: int, p: nat, mant: nat, e1: int, top: nat)
    requires IsDouble(m, e) && radix >= 2 && p >= 1 && FloorLogs(radix, e - 1, e0 - 1) && e0 - 1 - p + top >= 0
    requires Found(m, e, radix, e0, p, mant, e1) && Pow(radix, p - 1) >= 0x20_0000_0000_0000
    ensures 0x40_0000_0000_0000 * Distance(m, e, radix, top, mant, e1 - p) <= OnGrid(m, e, radix, top)
  {
    DoubleBounds(m, e);
    var y, v := OnGrid(m, e, radix, top), mant * Grid(radix, top, e1 - p);
    assert Distance(m, e, radix, top, mant, e1 - p) == Abs(v - y);
    hide Pow, Grid, OnGrid, Best, IsDouble, FloorLogs, Found, Distance;
    var eb := FoundBest(m, e, radix, e0, p, mant, e1, top);
    BestIsClose(y, v, radix, top, eb, p);
  }

  /** Stripping zeros does not move the number. */
  lemma {:induction false} StrippedDistance(m: nat, e: int, radix: nat, top: nat, k: nat, t: int, i: nat)
    requires e >= -1073 && t + top >= 0
    ensures Distance(m, e, radix, top, k * Pow(radix, i), t) == Distance(m, e, radix, top, k, t + i)
  {
    GridUp(radix, top, t, i);
    MulAssoc(k, Pow(radix, i), Grid(radix, top, t));
  }
}
