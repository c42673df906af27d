/** When a fraction is read as a given double: exactly when it lies in the rounding interval of that double. */
module Reading {
  import opened Powers
  import opened Rounding
  import opened ScaledRounding
  import opened FloatSpec
  import opened RoundToDouble

  /** The fraction n / d is rounded to m * 2^(e - 53). */
  ghost predicate Reads(n: nat, d: nat, m: nat, e: int)
    requires d > 0
  {
    exists e0 :: Log2(n, d, e0) && Normalized(InUnits(n, d, Ulp(e0)), e0, m, e)
  }

  /** A positive double in normalized form: m * 2^(e - 53) is a multiple of 2^-1074. */
  predicate IsDouble(m: nat, e: int) {
    && 0x10_0000_0000_0000 <= m < 0x20_0000_0000_0000 && -1073 <= e <= 1024
    && m % Scale(e) == 0
  }

  /** The weight of one unit in the last place, in the normalized mantissa. */
  function Scale(e: int): (s: nat)
    ensures s > 0
  {
    PowPos(2, Plus(53 - Precision(e)));
    Pow(2, Plus(53 - Precision(e)))
  }

  /** The number of units in the last place. */
  function Units(m: nat, e: int): (r: nat) {
    DivNat(m, Scale(e));
    m / Scale(e)
  }

  lemma {:induction false} UnitsOfDouble(m: nat, e: int)
    requires IsDouble(m, e)
    ensures 1 <= Precision(e) <= 53 && m == Units(m, e) * Scale(e)
    ensures Pow(2, Precision(e) - 1) <= Units(m, e) < Pow(2, Precision(e))
    ensures m == 0x10_0000_0000_0000 <==> Units(m, e) == Pow(2, Precision(e) - 1)
  {
    hide Pow;
    var prec := Precision(e);
    Pow53();
    DivMod(m, Scale(e));
    PowAdd(2, prec - 1, 53 - prec);
    PowAdd(2, prec, 53 - prec);
    var k, s := Units(m, e), Scale(e);
    CompareScaled(Pow(2, prec - 1), k, s);
    CompareScaled(k, Pow(2, prec), s);
  }

  lemma {:induction false} CompareScaled(a: nat, b: nat, s: nat)
    requires s > 0
    ensures a * s <= b * s <==> a <= b
    ensures a * s < b * s <==> a < b
    ensures a * s == b * s <==> a == b
  {
    Compare(a, b, s);
  }

  /** Rounding to nearest even, by distance. */
  predicate HalfEven(v: int, q: int, k: int) {
    2 * Abs(v - q * k) <= q && (2 * Abs(v - q * k) == q ==> k % 2 == 0)
  }

  lemma {:induction false} RoundIff(v: nat, q: nat, k: nat)
    requires q > 0
    ensures RoundDiv(v, q, RNDN) == k <==> HalfEven(v, q, k)
  {
    RoundHalfEven(v, q);
    if HalfEven(v, q, k) {
      HalfEvenUnique(v, q, k, RoundDiv(v, q, RNDN));
    }
  }

  lemma {:induction false} RoundHalfEven(v: nat, q: nat)
    requires q > 0
    ensures HalfEven(v, q, RoundDiv(v, q, RNDN))
  {
    DivMod(v, q);
    var a := v / q;
    assert q * (a + 1) == q * a + q && q * a == a * q;
  }

  lemma {:induction false} HalfEvenUnique(v: int, q: int, a: int, b: int)
    requires q > 0 && HalfEven(v, q, a) && HalfEven(v, q, b)
    ensures a == b
  {
    if a < b {
      HalfEvenOrder(v, q, a, b);
    } else if b < a {
      HalfEvenOrder(v, q, b, a);
    }
  }

  lemma {:induction false} HalfEvenOrder(v: int, q: int, a: int, b: int)
    requires q > 0 && HalfEven(v, q, a) && HalfEven(v, q, b)
    ensures b <= a
  {
    assert q * (a + 1) == q * a + q;
    assert q * (a + 2) == q * a + 2 * q;
    if b >= a + 2 {
      MulLe(q, a + 2, b);
    }
  }

  lemma {:induction false} ScaledLog(n: nat, d: nat, e: int, s: nat)
    requires s + e - 1 >= 0
    ensures Log2(n, d, e) <==> d * Pow(2, s + e - 1) <= n * Pow(2, s) < d * Pow(2, s + e)
  {
    hide Pow;
    Rescale(d, n, Plus(e - 1), Minus(e - 1), s + e - 1, s);
    Rescale(n, d, Minus(e), Plus(e), s, s + e);
  }

  lemma {:induction false} ScaledUnits(n: nat, d: nat, u: int, s: nat)
    requires d > 0 && s + u >= 0
    ensures d * Pow(2, s + u) > 0 && InUnits(n, d, u) == RoundDiv(n * Pow(2, s), d * Pow(2, s + u), RNDN)
  {
    hide Pow, RoundDiv;
    ScaledPos(d, s + u);
    ScaledPos(d, Plus(u));
    CrossPow(n, d, Minus(u), s + u, s, Plus(u));
    RoundSame(n * Pow(2, Minus(u)), d * Pow(2, Plus(u)), n * Pow(2, s), d * Pow(2, s + u), RNDN);
  }

  /** A quarter of a unit in the last place of the doubles below 2^e, for the denominator d. */
  function Quarter(d: nat, e: int): (r: nat)
    requires e >= -1074
  {
    d * Pow(2, 1198 + Ulp(e))
  }

  lemma {:induction false} Quarters(d: nat, e: int, i: nat)
    requires e >= -1074
    ensures d * Pow(2, 1198 + Ulp(e) + i) == Quarter(d, e) * Pow(2, i)
  {
    PowAdd(2, 1198 + Ulp(e), i);
    MulAssoc(d, Pow(2, 1198 + Ulp(e)), Pow(2, i));
  }

  /** The rounding interval around k units of 4g: half a unit on either side, but only a quarter below when the doubles
      below are twice as dense. Its ends belong to it when k is even. */
  predicate InInterval(v: int, g: int, k: int, dense: bool) {
    && v - 4 * (g * k) <= 2 * g && (v - 4 * (g * k) == 2 * g ==> k % 2 == 0)
    && 4 * (g * k) - v <= (if dense then g else 2 * g) && (4 * (g * k) - v == 2 * g ==> k % 2 == 0)
  }

  /** The doubles below (m, e) are denser than those above it. */
  predicate Dense(m: nat, e: int) {
    m == 0x10_0000_0000_0000 && e > -1021
  }

  /** Above 2^(e - 1) the exponent is e, and the units are those of e. */
  lemma {:induction false} ReadsAbove(n: nat, d: nat, m: nat, e: int)
    requires d > 0 && n > 0 && IsDouble(m, e)
    ensures var v, g, k := n * Pow(2, 1200), Quarter(d, e), Units(m, e);
      Log2(n, d, e) && Normalized(InUnits(n, d, Ulp(e)), e, m, e)
      <==> v >= 4 * (g * Pow(2, Precision(e) - 1)) && HalfEven(v, 4 * g, k)
  {
    hide Pow, Log2, InUnits, HalfEven;
    var v, g, k, prec := n * Pow(2, 1200), Quarter(d, e), Units(m, e), Precision(e);
    UnitsOfDouble(m, e);
    FourQuarters(d, e);
    ScaledLog(n, d, e, 1200);
    ScaledUnits(n, d, Ulp(e), 1200);
    RoundIff(v, 4 * g, k);
    var mant := InUnits(n, d, Ulp(e));
    if Normalized(mant, e, m, e) {
      CompareScaled(mant, k, Scale(e));
    }
    if HalfEven(v, 4 * g, k) {
      BelowTop(v, g, k, Pow(2, prec));
    }
  }

  lemma {:induction false} FourQuarters(d: nat, e: int)
    requires e >= -1073
    ensures var g := Quarter(d, e); var prec := Precision(e);
      && d * Pow(2, 1200 + Ulp(e)) == 4 * g
      && d * Pow(2, 1199 + Ulp(e)) == 2 * g
      && prec >= 1
      && d * Pow(2, 1200 + e - 1) == 4 * (g * Pow(2, prec - 1))
      && d * Pow(2, 1200 + e) == 4 * (g * Pow(2, prec))
      && (d > 0 ==> g > 0)
  {
    var g, prec := Quarter(d, e), Precision(e);
    PowOne(2);
    assert Pow(2, 2) == 4;
    Quarters(d, e, 1);
    Quarters(d, e, 2);
    Quarters(d, e, prec + 1);
    Quarters(d, e, prec + 2);
    assert Pow(2, prec + 1) == 2 * (2 * Pow(2, prec - 1));
    assert Pow(2, prec + 2) == 2 * (2 * Pow(2, prec));
    Four(g, Pow(2, prec - 1));
    Four(g, Pow(2, prec));
    if d > 0 {
      ScaledPos(d, 1198 + Ulp(e));
    }
  }

  lemma {:induction false} Four(g: int, p: int)
    ensures g * (2 * (2 * p)) == 4 * (g * p)
  {
  }

  lemma {:induction false} BelowTop(v: int, g: int, k: int, p: int)
    requires HalfEven(v, 4 * g, k) && k < p && g > 0
    ensures v < 4 * (g * p)
  {
    MulLe(g, k + 1, p);
    assert g * (k + 1) == g * k + g;
    MulAssoc(4, g, k);
  }

  /** Below 2^(e - 1), where the doubles are twice as dense. */
  lemma {:induction false} ReadsBelowDense(n: nat, d: nat, m: nat, e: int)
    requires d > 0 && n > 0 && IsDouble(m, e) && e > -1021
    ensures var v, g, p := n * Pow(2, 1200), Quarter(d, e), Pow(2, Precision(e) - 1);
      Log2(n, d, e - 1) && Normalized(InUnits(n, d, Ulp(e - 1)), e - 1, m, e)
      <==> m == 0x10_0000_0000_0000 && v < 4 * (g * p) && 4 * (g * p) - v <= g
  {
    hide Pow, Log2, InUnits, HalfEven;
    var v, g, p := n * Pow(2, 1200), Quarter(d, e), Pow(2, Precision(e) - 1);
    Pow53();
    FourQuarters(d, e);
    ScaledLog(n, d, e - 1, 1200);
    ScaledUnits(n, d, Ulp(e - 1), 1200);
    Quarters(d, e, Precision(e));
    assert d * Pow(2, 1200 + e - 2) == 2 * (g * p) by {
      assert 1198 + Ulp(e) + Precision(e) == 1200 + e - 2;
      assert Pow(2, Precision(e)) == 2 * p;
    }
    PowOne(2);
    RoundIff(v, 2 * g, 2 * p);
    assert (2 * g) * (2 * p) == 4 * (g * p);
    MulLe(g, 1, p);
    NormalizedTop(InUnits(n, d, Ulp(e - 1)), e - 1, m, e);
    HalfOf(v, g, g * p, 2 * p);
  }

  lemma {:induction false} HalfOf(v: int, g: int, x: int, k: int)
    requires g > 0 && (2 * g) * k == 4 * x && k % 2 == 0
    ensures HalfEven(v, 2 * g, k) <==> -g <= v - 4 * x <= g
  {
  }

  /** A mantissa that rounds up to the next power of two. */
  lemma {:induction false} NormalizedTop(mant: nat, e: int, m: nat, e1: int)
    requires e1 == e + 1 && -1074 <= e && m > 0
    ensures Normalized(mant, e, m, e1) <==> m == 0x10_0000_0000_0000 && mant == Pow(2, Precision(e))
  {
    hide Pow;
    var prec := Precision(e);
    PowAdd(2, prec, 53 - prec);
    PowPos(2, 53 - prec);
    Pow53();
    CompareScaled(mant, Pow(2, prec), Pow(2, 53 - prec));
  }

  /** Below 2^(e - 1), where the doubles are as dense as above it. */
  lemma {:induction false} ReadsBelowEven(n: nat, d: nat, m: nat, e: int)
    requires d > 0 && n > 0 && IsDouble(m, e) && e <= -1021
    ensures var v, g, p := n * Pow(2, 1200), Quarter(d, e), Pow(2, Precision(e) - 1);
      Log2(n, d, e - 1) && Normalized(InUnits(n, d, Ulp(e - 1)), e - 1, m, e)
      <==> m == 0x10_0000_0000_0000 && v < 4 * (g * p) && HalfEven(v, 4 * g, p)
  {
    hide Pow, Log2, InUnits, HalfEven, Quarter, Normalized;
    var v, g, p := n * Pow(2, 1200), Quarter(d, e), Pow(2, Precision(e) - 1);
    FourQuarters(d, e);
    ScaledLog(n, d, e - 1, 1200);
    ScaledUnits(n, d, Ulp(e - 1), 1200);
    BinadeBelow(d, e);
    RoundIff(v, 4 * g, p);
    NormalizedTop(InUnits(n, d, Ulp(e - 1)), e - 1, m, e);
    PowPos(2, Precision(e) - 1);
    if HalfEven(v, 4 * g, p) {
      HalfAbove(v, g, p);
    }
  }

  /** 2^(e - 2), in quarters. */
  lemma {:induction false} BinadeBelow(d: nat, e: int)
    requires -1073 <= e <= -1021 && Precision(e) >= 1
    ensures d * Pow(2, 1200 + e - 2) == 2 * (Quarter(d, e) * Pow(2, Precision(e) - 1))
  {
    hide Pow, Quarter;
    Quarters(d, e, Precision(e));
    assert 1198 + Ulp(e) + Precision(e) == 1200 + e - 2;
    PowNext(2, Precision(e));
  }

  lemma {:induction false} HalfAbove(v: int, g: int, p: int)
    requires HalfEven(v, 4 * g, p) && p >= 1 && g > 0
    ensures v >= 2 * (g * p)
  {
    MulAssoc(4, g, p);
    MulLe(g, 1, p);
  }

  /** Reading gives the double (m, e) exactly on its rounding interval. */
  lemma {:induction false} ReadsIff(n: nat, d: nat, m: nat, e: int)
    requires d > 0 && n > 0 && IsDouble(m, e)
    ensures Reads(n, d, m, e) <==> InInterval(n * Pow(2, 1200), Quarter(d, e), Units(m, e), Dense(m, e))
  {
    UnitsOfDouble(m, e);
    DoubleBounds(m, e);
    hide Pow, Log2, InUnits, Normalized, IsDouble;
    var v, g, k, p := n * Pow(2, 1200), Quarter(d, e), Units(m, e), Pow(2, Precision(e) - 1);
    FourQuarters(d, e);
    ReadsAbove(n, d, m, e);
    if e > -1021 {
      ReadsBelowDense(n, d, m, e);
    } else {
      ReadsBelowEven(n, d, m, e);
    }
    if Reads(n, d, m, e) {
      var e0 :| Log2(n, d, e0) && Normalized(InUnits(n, d, Ulp(e0)), e0, m, e);
      NormalizedExponent(InUnits(n, d, Ulp(e0)), e0, m, e);
    }
    IntervalCases(v, g, k, p, m, e);
  }

  lemma {:induction false} DoubleBounds(m: nat, e: int)
    requires IsDouble(m, e)
    ensures m >= 0x10_0000_0000_0000 && -1073 <= e <= 1024
  {
  }

  lemma {:induction false} NormalizedExponent(mant: nat, e0: int, m: nat, e: int)
    requires Normalized(mant, e0, m, e) && m > 0
    ensures e0 == e || e0 == e - 1
  {
  }

  /** Above or below 2^(e - 1), the two descriptions of the interval agree. */
  lemma {:induction false} IntervalCases(v: int, g: int, k: int, p: int, m: nat, e: int)
    requires g > 0 && p <= k && (m == 0x10_0000_0000_0000 <==> k == p) && m >= 0x10_0000_0000_0000
    ensures InInterval(v, g, k, Dense(m, e)) <==>
      || (v >= 4 * (g * p) && HalfEven(v, 4 * g, k))
      || (e > -1021 && m == 0x10_0000_0000_0000 && v < 4 * (g * p) && 4 * (g * p) - v <= g)
      || (e <= -1021 && m == 0x10_0000_0000_0000 && v < 4 * (g * p) && HalfEven(v, 4 * g, p))
  {
    MulAssoc(4, g, k);
    MulAssoc(4, g, p);
    if k > p {
      MulLe(g, p + 1, k);
      assert g * (p + 1) == g * p + g;
    }
  }

  /** A fraction within 2^-54 of a double, relatively, is read as that double. */
  lemma {:induction false} CloseReads(n: nat, d: nat, m: nat, e: int)
    requires d > 0 && n > 0 && IsDouble(m, e)
    requires var x := 4 * (Quarter(d, e) * Units(m, e)); 0x40_0000_0000_0000 * Abs(n * Pow(2, 1200) - x) <= x
    ensures Reads(n, d, m, e)
  {
    hide Pow;
    var v, g, k := n * Pow(2, 1200), Quarter(d, e), Units(m, e);
    UnitsOfDouble(m, e);
    FourQuarters(d, e);
    PowGrows(2, Precision(e), 53);
    Pow53();
    MulLt(g, k, 0x20_0000_0000_0000);
    if Dense(m, e) {
      assert k == 0x10_0000_0000_0000;
    }
    ReadsIff(n, d, m, e);
  }

  /** What is no farther away than something read as (m, e) is read as (m, e) too, when the doubles on both sides are
      equally dense, or when it is not on the denser side while the other is not. */
  lemma {:induction false} CloserReads(n: nat, d: nat, n1: nat, d1: nat, m: nat, e: int)
    requires d > 0 && n > 0 && d1 > 0 && n1 > 0 && IsDouble(m, e) && Reads(n, d, m, e)
    requires !Dense(m, e) || n * Pow(2, 1200) <= 4 * (Quarter(d, e) * Units(m, e))
             || n1 * Pow(2, 1200) >= 4 * (Quarter(d1, e) * Units(m, e))
    requires d * Abs(n1 * Pow(2, 1200) - 4 * (Quarter(d1, e) * Units(m, e)))
          <= d1 * Abs(n * Pow(2, 1200) - 4 * (Quarter(d, e) * Units(m, e)))
    ensures Reads(n1, d1, m, e)
  {
    hide Pow, IsDouble, InInterval, Quarter, Units;
    DoubleBounds(m, e);
    if Dense(m, e) {
      DenseEven(m, e);
    }
    var k, g, g1 := Units(m, e), Quarter(d, e), Quarter(d1, e);
    ReadsIff(n, d, m, e);
    ReadsIff(n1, d1, m, e);
    var q := Pow(2, 1198 + Ulp(e));
    assert g == d * q && g1 == d1 * q by { QuarterIs(d, e); QuarterIs(d1, e); }
    CloserInside(n * Pow(2, 1200), g, n1 * Pow(2, 1200), g1, k, d, d1, q, Dense(m, e));
  }

  lemma {:induction false} DenseEven(m: nat, e: int)
    requires IsDouble(m, e) && Dense(m, e)
    ensures Units(m, e) % 2 == 0
  {
    PowOne(2);
    hide Pow;
    DivUnique(m, 1, m, 0);
  }

  lemma {:induction false} QuarterIs(d: nat, e: int)
    requires e >= -1074
    ensures Quarter(d, e) == d * Pow(2, 1198 + Ulp(e))
  {
  }

  lemma {:induction false} CloserInside(v: int, g: int, v1: int, g1: int, k: int, d: int, d1: int, q: int, dense: bool)
    requires d > 0 && d1 > 0 && g == d * q && g1 == d1 * q && (dense ==> k % 2 == 0)
    requires !dense || v <= 4 * (g * k) || v1 >= 4 * (g1 * k)
    requires InInterval(v, g, k, dense) && d * Abs(v1 - 4 * (g1 * k)) <= d1 * Abs(v - 4 * (g * k))
    ensures InInterval(v1, g1, k, dense)
  {
    var r := if dense && v <= 4 * (g * k) then 1 else 2;
    assert d1 * (r * g) == d * (r * g1) by {
      assert d1 * (d * q) == d * (d1 * q);
    }
    ScaledBound(Abs(v - 4 * (g * k)), Abs(v1 - 4 * (g1 * k)), r * g, r * g1, d, d1);
  }

  lemma {:induction false} ScaledBound(x: int, y: int, b: int, b1: int, d: int, d1: int)
    requires d > 0 && d1 > 0 && x <= b && d * y <= d1 * x && d1 * b == d * b1
    ensures y <= b1 && (y == b1 ==> x == b)
  {
    MulLe(d1, x, b);
    Compare(y, b1, d);
    Compare(x, b, d1);
  }
}
