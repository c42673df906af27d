/** The bits of positive binary64 numbers, and the double nearest to a fraction. */
module Doubles {
  import opened Powers
  import opened Rounding
  import opened Bits
  import opened FloatSpec
  import opened RoundToDouble
  import opened Reading
  import opened ShortestDigits

  const INFINITY: nat := 0x7ff0_0000_0000_0000

  /** The value of the double with bits a, in units of 2^-1074. Infinity stands for 2^1024. */
  function UnitValue(a: nat): (r: nat) {
    var ex, mant := a / 0x10_0000_0000_0000, a % 0x10_0000_0000_0000;
    if ex == 0 then mant else (0x10_0000_0000_0000 + mant) * Pow(2, ex - 1)
  }

  /** The double with bits a is nearest to n / d among all doubles and infinity, and even in a tie. */
  ghost predicate NearestDouble(a: nat, n: nat, d: nat) {
    a <= INFINITY
    && forall b: nat :: b <= INFINITY && UnitValue(b) != UnitValue(a) ==>
      && Abs(d * UnitValue(a) - n * Pow(2, 1074)) <= Abs(d * UnitValue(b) - n * Pow(2, 1074))
      && (Abs(d * UnitValue(a) - n * Pow(2, 1074)) == Abs(d * UnitValue(b) - n * Pow(2, 1074)) ==> a % 2 == 0)
  }

  /** The fields of the bits. */
  lemma {:induction false} Fields(a: nat)
    requires 0 < a < INFINITY
    ensures var ex, mant := a / 0x10_0000_0000_0000, a % 0x10_0000_0000_0000;
      0 <= ex < 2047 && 0 <= mant < 0x10_0000_0000_0000 && (ex == 0 ==> mant > 0)
  {
    DivMod(a, 0x10_0000_0000_0000);
    DivNat(a, 0x10_0000_0000_0000);
  }

  lemma {:induction false} NormalIsDouble(m: nat, e: int)
    requires 0x10_0000_0000_0000 <= m < 0x20_0000_0000_0000 && -1021 <= e <= 1024
    ensures IsDouble(m, e)
  {
    PowOne(2);
    DivUnique(m, 1, m, 0);
  }

  /** The mantissa of a positive finite double, with 53 bits. */
  function Mantissa(a: nat): (m: nat)
    requires 0 < a < INFINITY
  {
    Fields(a);
    var ex, mant := a / 0x10_0000_0000_0000, a % 0x10_0000_0000_0000;
    if ex == 0 then DenormalBits(mant, BitLength(mant)); mant * Pow(2, 53 - BitLength(mant))
    else mant + 0x10_0000_0000_0000
  }

  /** The exponent with that mantissa: the double is Mantissa * 2^(Exponent - 53). */
  function Exponent(a: nat): (e: int)
    requires 0 < a < INFINITY
  {
    var ex, mant := a / 0x10_0000_0000_0000, a % 0x10_0000_0000_0000;
    if ex == 0 then BitLength(mant) as int - 1074 else ex - 1022
  }

  /** js_dtoa: the mantissa, normalized, and the exponent of a positive finite double. */
  method Decompose(a: nat) returns (m: nat, e: int)
    requires 0 < a < INFINITY
    ensures IsDouble(m, e) && m == Mantissa(a) && e == Exponent(a)
    ensures UnitValue(a) * Pow(2, Minus(e + 1021)) == m * Pow(2, Plus(e + 1021))
  {
    Fields(a);
    PowOne(2);
    hide Pow, BitLength;
    e := a / 0x10_0000_0000_0000;
    m := a % 0x10_0000_0000_0000;
    if e == 0 {
      DenormalBits(m, BitLength(m));
      var l := 53 - BitLength(m);          // clz64(m) - 11
      e := e - (l - 1);
      m := m * Pow(2, l);
      e := e - 1022;
    } else {
      m := m + 0x10_0000_0000_0000;
      e := e - 1022;
      NormalIsDouble(m, e);
    }
  }

  /** The highest bit of a denormal mantissa is moved to bit 52. */
  lemma {:induction false} DenormalBits(m: nat, b: nat)
    requires 0 < m < 0x10_0000_0000_0000 && b == BitLength(m)
    ensures 1 <= b <= 52 && 0x10_0000_0000_0000 <= m * Pow(2, 53 - b) < 0x20_0000_0000_0000
    ensures Scale(-1021 - (53 - b)) == Pow(2, 53 - b) && (m * Pow(2, 53 - b)) % Pow(2, 53 - b) == 0
  {
    Pow53();
    BitLengthMeaning(m);
    if b > 52 {
      PowGrows(2, 52, b - 1);
    }
    PowPos(2, 53 - b);
    PowAdd(2, b - 1, 53 - b);
    PowAdd(2, b, 53 - b);
    MulLe(Pow(2, 53 - b), Pow(2, b - 1), m);
    MulLt(Pow(2, 53 - b), m, Pow(2, b));
    DivUnique(m * Pow(2, 53 - b), Pow(2, 53 - b), m, 0);
  }

  /** The end of js_atod: the bits of a rounded mantissa and exponent. */
  function BitsOf(m: nat, e: int): (r: nat) {
    if m == 0 then 0
    else if e > 1024 then INFINITY
    else if e < -1073 then 0
    else if e < -1021 then
      PowPos(2, -e - 1021);
      DivNat(m, Pow(2, -e - 1021));
      m / Pow(2, -e - 1021)
    else (e + 1022) * 0x10_0000_0000_0000 + m % 0x10_0000_0000_0000
  }

  /** The rounded number, in units of 2^-1074. */
  function RoundedUnits(mant: nat, e0: int): (r: nat) {
    mant * Pow(2, Ulp(e0) + 1074)
  }

  lemma {:induction false} Pow1023()
    ensures Pow(2, 2098) == 0x10_0000_0000_0000 * Pow(2, 2046) && UnitValue(INFINITY) == Pow(2, 2098)
  {
    hide Pow;
    Pow53();
    PowAdd(2, 52, 2046);
    DivUnique(INFINITY, 0x10_0000_0000_0000, 2047, 0);
  }

  /** A mantissa that is not zero, in units of 2^-1074. */
  lemma {:induction false} NormalizedUnits(mant: nat, e0: int, m: nat, e: int)
    requires Normalized(mant, e0, m, e) && mant > 0
    ensures e >= -1073 && 0x10_0000_0000_0000 <= m < 0x20_0000_0000_0000
    ensures RoundedUnits(mant, e0) * Pow(2, Minus(e + 1021)) == m * Pow(2, Plus(e + 1021))
  {
    hide Pow;
    Pow53();
    PowOne(2);
    var prec := Precision(e0);
    var s := Ulp(e0) + 1074;
    // m * 2^(e + 1021) is mant * 2^(53 - prec) * 2^(e0 + 1021)
    PowAdd(2, 53 - prec, Plus(e0 + 1021));
    PowAdd(2, s, Minus(e0 + 1021));
    MulAssoc(mant, Pow(2, 53 - prec), Pow(2, Plus(e0 + 1021)));
    MulAssoc(mant, Pow(2, s), Pow(2, Minus(e0 + 1021)));
    assert 53 - prec + Plus(e0 + 1021) == s + Minus(e0 + 1021);
    if e == e0 + 1 {
      assert 0x20_0000_0000_0000 == 0x10_0000_0000_0000 * 2;
      PowAdd(2, 1, Plus(e0 + 1021));
      PowAdd(2, 1, Minus(e + 1021));
      NextExponent(RoundedUnits(mant, e0), e0);
    }
  }

  lemma {:induction false} NextExponent(u: nat, e0: int)
    requires u * Pow(2, Minus(e0 + 1021)) == 0x20_0000_0000_0000 * Pow(2, Plus(e0 + 1021))
    ensures u * Pow(2, Minus(e0 + 1022)) == 0x10_0000_0000_0000 * Pow(2, Plus(e0 + 1022))
  {
    hide Pow;
    PowOne(2);
    PowAdd(2, 1, Plus(e0 + 1021));
    MulAssoc(0x10_0000_0000_0000, 2, Pow(2, Plus(e0 + 1021)));
    Rescale(u, 0x10_0000_0000_0000, Minus(e0 + 1021), 1 + Plus(e0 + 1021), Minus(e0 + 1022), Plus(e0 + 1022));
  }

  /** What the bits of a normalized mantissa and exponent stand for. */
  lemma {:induction false} BitsMeaning(mant: nat, e0: int, m: nat, e: int)
    requires Normalized(mant, e0, m, e)
    ensures var a, u := BitsOf(m, e), RoundedUnits(mant, e0);
      && a <= INFINITY
      && (if u >= Pow(2, 2098) then a == INFINITY else UnitValue(a) == u)
      && (mant % 2 == 0 ==> a % 2 == 0)
  {
    hide Pow, RoundedUnits, Normalized;
    Pow1023();
    var u := RoundedUnits(mant, e0);
    if mant == 0 {
      ZeroUnits(e0, m, e);
      PowPos(2, 2098);
    } else {
      NormalizedUnits(mant, e0, m, e);
      ParityKept(mant, e0, m, e);
      PowOne(2);
      if e > 1024 {
        PowGrows(2, 2046, e + 1021);
        MulLe(0x10_0000_0000_0000, Pow(2, 2046), Pow(2, e + 1021));
        MulLe(Pow(2, e + 1021), 0x10_0000_0000_0000, m);
      } else if e >= -1021 {
        NormalBits(m, e);
        PowGrows(2, e + 1021, 2045);
        PowNext(2, 2046);
        MulLe(m, Pow(2, e + 1021), Pow(2, 2045));
        PowPos(2, 2045);
        MulLt(Pow(2, 2045), m, 0x20_0000_0000_0000);
      } else {
        SubnormalBits(m, e, u);
        PowGrows(2, 52, 2098);
        Pow53();
      }
    }
  }

  lemma {:induction false} ZeroUnits(e0: int, m: nat, e: int)
    requires Normalized(0, e0, m, e)
    ensures m == 0 && RoundedUnits(0, e0) == 0
  {
  }

  lemma {:induction false} NormalBits(m: nat, e: int)
    requires 0x10_0000_0000_0000 <= m < 0x20_0000_0000_0000 && -1021 <= e <= 1024
    ensures BitsOf(m, e) < INFINITY && UnitValue(BitsOf(m, e)) == m * Pow(2, e + 1021) && BitsOf(m, e) % 2 == m % 2
  {
    hide Pow;
    var r := m - 0x10_0000_0000_0000;
    DivUnique(m, 0x10_0000_0000_0000, 1, r);
    var a := (e + 1022) * 0x10_0000_0000_0000 + r;
    DivUnique(a, 0x10_0000_0000_0000, e + 1022, r);
  }

  lemma {:induction false} SubnormalBits(m: nat, e: int, u: nat)
    requires 0 < m < 0x20_0000_0000_0000 && -1073 <= e < -1021 && u * Pow(2, -e - 1021) == m
    ensures BitsOf(m, e) == u < 0x10_0000_0000_0000 && UnitValue(u) == u
  {
    var p := Pow(2, -e - 1021);
    PowPos(2, -e - 1021);
    PowGrows(2, 1, -e - 1021);
    PowOne(2);
    MulLe(u, 2, p);
    DivUnique(m, p, u, 0);
    DivUnique(u, 0x10_0000_0000_0000, 0, u);
  }

  /** An even rounded mantissa gives even bits. */
  lemma {:induction false} ParityKept(mant: nat, e0: int, m: nat, e: int)
    requires Normalized(mant, e0, m, e) && mant > 0
    ensures mant % 2 == 0 && e >= -1021 ==> m % 2 == 0
    ensures e < -1021 ==> RoundedUnits(mant, e0) == mant
  {
    PowOne(2);
    if mant % 2 == 0 && m != 0x10_0000_0000_0000 {
      var p := Pow(2, 53 - Precision(e0));
      MulAssoc(2, mant / 2, p);
      assert mant * p == 2 * ((mant / 2) * p);
    }
  }

  lemma {:induction false} UnitValueMax(b: nat)
    requires b <= INFINITY
    ensures UnitValue(b) <= Pow(2, 2098)
  {
    hide Pow;
    Pow1023();
    if b < INFINITY {
      DivMod(b, 0x10_0000_0000_0000);
      DivNat(b, 0x10_0000_0000_0000);
      var ex, mant := b / 0x10_0000_0000_0000, b % 0x10_0000_0000_0000;
      PowNext(2, 2046);
      PowPos(2, 2045);
      if ex > 0 {
        PowGrows(2, ex - 1, 2045);
        MulLe(0x10_0000_0000_0000 + mant, Pow(2, ex - 1), Pow(2, 2045));
        MulLe(Pow(2, 2045), 0x10_0000_0000_0000 + mant, 0x20_0000_0000_0000);
      }
    }
  }

  /** A double is a multiple of 2^s units, or below 2^(52 + s) units. */
  lemma {:induction false} OnUnitGrid(b: nat, s: nat) returns (j: nat)
    ensures UnitValue(b) == j * Pow(2, s) || (s > 0 && UnitValue(b) < Pow(2, 52 + s))
  {
    hide Pow;
    Pow53();
    PowOne(2);
    DivMod(b, 0x10_0000_0000_0000);
    DivNat(b, 0x10_0000_0000_0000);
    var ex, mant := b / 0x10_0000_0000_0000, b % 0x10_0000_0000_0000;
    j := UnitValue(b);
    if ex == 0 {
      PowAdd(2, 52, s);
      PowPos(2, s);
      MulLe(0x10_0000_0000_0000, 1, Pow(2, s));
    } else if ex - 1 >= s {
      j := (0x10_0000_0000_0000 + mant) * Pow(2, ex - 1 - s);
      PowAdd(2, ex - 1 - s, s);
      MulAssoc(0x10_0000_0000_0000 + mant, Pow(2, ex - 1 - s), Pow(2, s));
    } else {
      PowAdd(2, 53, ex - 1);
      PowGrows(2, 52 + ex, 52 + s);
      PowPos(2, ex - 1);
      MulLt(Pow(2, ex - 1), 0x10_0000_0000_0000 + mant, 0x20_0000_0000_0000);
    }
  }

  /** mant units of q are nearest to v, against any y that is a multiple of q or below a multiple that v has reached. */
  lemma {:induction false} NearestAgainst(v: nat, q: nat, mant: nat, y: nat, j: nat, z: nat)
    requires q > 0 && mant == RoundDiv(v, q, RNDN) && (y == j * q || (y < z * q && z * q <= v))
    ensures Abs(mant * q - v) <= Abs(y - v)
    ensures Abs(mant * q - v) == Abs(y - v) && y != mant * q ==> mant % 2 == 0
  {
    RoundHalfEven(v, q);
    assert mant * q == q * mant;
    if y == j * q {
      NearestMultiple(v, q, mant, j);
      if j != mant && Abs(mant * q - v) == Abs(j * q - v) {
        Halfway(v, q, mant, j);
      }
    } else {
      NearestMultiple(v, q, mant, z);
    }
  }

  lemma {:induction false} Halfway(v: int, q: int, a: int, b: int)
    requires q > 0 && a != b && Abs(a * q - v) == Abs(b * q - v) && 2 * Abs(a * q - v) <= q
    ensures 2 * Abs(a * q - v) == q
  {
    if a < b {
      MulLe(q, a + 1, b);
      assert (a + 1) * q == a * q + q;
    } else {
      MulLe(q, b + 1, a);
      assert (b + 1) * q == b * q + q;
    }
  }

  /** The rounded number is the nearest double. */
  lemma {:induction false} RoundedNearest(n: nat, d: nat, e0: int, m: nat, e: int)
    requires d > 0 && n > 0 && Log2(n, d, e0) && Normalized(InUnits(n, d, Ulp(e0)), e0, m, e)
    ensures NearestDouble(BitsOf(m, e), n, d)
  {
    hide Pow, Log2, Normalized, InUnits, RoundDiv, BitsOf, UnitValue;
    var mant := InUnits(n, d, Ulp(e0));
    var a, u := BitsOf(m, e), RoundedUnits(mant, e0);
    var v := n * Pow(2, 1074);
    BitsMeaning(mant, e0, m, e);
    Pow1023();
    assert INFINITY % 2 == 0;
    forall b: nat | b <= INFINITY && UnitValue(b) != UnitValue(a)
      ensures Abs(d * UnitValue(a) - v) <= Abs(d * UnitValue(b) - v)
      ensures Abs(d * UnitValue(a) - v) == Abs(d * UnitValue(b) - v) ==> a % 2 == 0
    {
      UnitValueMax(b);
      if u > Pow(2, 2098) {
        Overflowed(n, d, e0);
        MulLt(d, UnitValue(b), Pow(2, 2098));
      } else {
        NearestOne(n, d, e0, u, b);
      }
    }
  }

  lemma {:induction false} NearestOne(n: nat, d: nat, e0: int, u: nat, b: nat)
    requires d > 0 && n > 0 && Log2(n, d, e0) && u == RoundedUnits(InUnits(n, d, Ulp(e0)), e0) && UnitValue(b) != u
    ensures Abs(d * u - n * Pow(2, 1074)) <= Abs(d * UnitValue(b) - n * Pow(2, 1074))
    ensures Abs(d * u - n * Pow(2, 1074)) == Abs(d * UnitValue(b) - n * Pow(2, 1074)) ==>
      InUnits(n, d, Ulp(e0)) % 2 == 0
  {
    hide Pow, Log2, InUnits, RoundDiv, UnitValue;
    var mant, s, y := InUnits(n, d, Ulp(e0)), Ulp(e0) + 1074, UnitValue(b);
    var v, q := n * Pow(2, 1074), d * Pow(2, s);
    ScaledUnits(n, d, Ulp(e0), 1074);
    Regroup3(d, mant, Pow(2, s));
    var j := OnUnitGrid(b, s);
    AgainstOne(n, d, e0, y, j);
    NearestAgainst(v, q, mant, d * y, j, Pow(2, 52));
    if d * y == d * u {
      CancelEq(d, y, u);
    }
  }

  lemma {:induction false} CancelEq(d: int, x: int, y: int)
    requires d > 0 && d * x == d * y
    ensures x == y
  {
    Compare(x, y, d);
  }

  lemma {:induction false} Regroup3(d: int, m: int, p: int)
    ensures d * (m * p) == m * (d * p)
  {
  }

  /** A double against which the rounded number is compared: on its grid, or below 2^(e0 - 1). */
  lemma {:induction false} AgainstOne(n: nat, d: nat, e0: int, y: nat, j: nat)
    requires d > 0 && n > 0 && Log2(n, d, e0)
    requires var s := Ulp(e0) + 1074; y == j * Pow(2, s) || (s > 0 && y < Pow(2, 52 + s))
    ensures var q := d * Pow(2, Ulp(e0) + 1074);
      d * y == j * q || (d * y < Pow(2, 52) * q && Pow(2, 52) * q <= n * Pow(2, 1074))
  {
    hide Pow;
    var s := Ulp(e0) + 1074;
    if y == j * Pow(2, s) {
      Regroup3(d, j, Pow(2, s));
    } else {
      ScaledLog(n, d, e0, 1074);
      PowAdd(2, 52, s);
      Regroup3(Pow(2, 52), d, Pow(2, s));
      assert 1074 + e0 - 1 == 52 + s;
      MulLt(d, y, Pow(2, 52 + s));
    }
  }

  lemma {:induction false} Overflowed(n: nat, d: nat, e0: int)
    requires d > 0 && n > 0 && Log2(n, d, e0) && RoundedUnits(InUnits(n, d, Ulp(e0)), e0) > Pow(2, 2098)
    ensures n * Pow(2, 1074) >= d * Pow(2, 2098)
  {
    hide Pow, InUnits;
    UnitsBounds(n, d, e0);
    var prec, s := Precision(e0), Ulp(e0) + 1074;
    if e0 <= 1024 {
      if prec >= 0 {
        PowAdd(2, prec, s);
        MulLe(Pow(2, s), InUnits(n, d, Ulp(e0)), Pow(2, prec));
        PowGrows(2, prec + s, 2098);
      } else {
        PowPos(2, 2098);
      }
      assert false;
    }
    ScaledLog(n, d, e0, 1074);
    PowGrows(2, 2098, 1074 + e0 - 1);
    MulLe(d, Pow(2, 2098), Pow(2, 1074 + e0 - 1));
  }
}
