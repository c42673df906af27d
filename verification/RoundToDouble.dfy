/** round_to_d: a bignum with a binary exponent, rounded to a binary64 mantissa and exponent. */
module RoundToDouble {
  import opened Powers
  import opened Limbs
  import opened Rounding
  import opened Bignum
  import opened BignumOps
  import opened ScaledRounding
  import opened FloatSpec

  /** The bignum w times 2^-eOffset stands for the fraction n / d: either exactly, or cut off with a sticky last bit
      below at least 55 good ones. */
  ghost predicate Stands(w: nat, eOffset: int, n: nat, d: nat) {
    && d * Pow(2, Minus(eOffset)) > 0
    && w == Sticky(n * Pow(2, Plus(eOffset)), d * Pow(2, Minus(eOffset)))
    && ((n * Pow(2, Plus(eOffset))) % (d * Pow(2, Minus(eOffset))) == 0 || w >= Pow(2, 55))
  }

  lemma {:induction false} FloorBetween(n: nat, d: nat, a: nat, b: nat)
    requires d > 0 && a <= n / d < b
    ensures a * d <= n < b * d
  {
    DivMod(n, d);
    var q := n / d;
    MulLe(d, a, q);
    MulLe(d, q + 1, b);
    assert (q + 1) * d == q * d + d;
  }

  /** The sticky quotient has as many bits as the exact one. */
  lemma {:induction false} StickyLog(n: nat, d: nat, k: nat)
    requires d > 0 && (n % d == 0 || Sticky(n, d) >= Pow(2, 55)) && Pow(2, k) <= Sticky(n, d) < Pow(2, k + 1)
    ensures Pow(2, k) * d <= n < Pow(2, k + 1) * d
  {
    hide Pow;
    DivNat(n, d);
    if Sticky(n, d) != n / d {
      if k < 55 {
        PowGrows(2, k + 1, 55);
      }
      FourDivides(k + 1);
    }
    FloorBetween(n, d, Pow(2, k), Pow(2, k + 1));
  }

  lemma {:induction false} LogOf(w: nat, o: int, n: nat, d: nat, k: nat)
    requires d > 0 && Stands(w, o, n, d) && Pow(2, k) <= w < Pow(2, k + 1)
    ensures Log2(n, d, k + 1 - o)
  {
    hide Pow, Sticky;
    StickyLog(n * Pow(2, Plus(o)), d * Pow(2, Minus(o)), k);
    Moved(d, Minus(o), k);
    Moved(d, Minus(o), k + 1);
    var e := k + 1 - o;
    Rescale(d, n, Minus(o) + k, Plus(o), Plus(e - 1), Minus(e - 1));
    Rescale(n, d, Plus(o), Minus(o) + (k + 1), Minus(e), Plus(e));
  }

  lemma {:induction false} Moved(d: nat, i: nat, k: nat)
    ensures Pow(2, k) * (d * Pow(2, i)) == d * Pow(2, i + k)
  {
    PowAdd(2, i, k);
    MulAssoc(d, Pow(2, i), Pow(2, k));
  }

  lemma {:induction false} UnitsOf(w: nat, o: int, n: nat, d: nat, u: int)
    requires d > 0 && Stands(w, o, n, d) && (w >= Pow(2, 55) ==> u + o >= 2)
    ensures RoundShift(w, u + o, RNDN) == InUnits(n, d, u)
  {
    hide Pow, Sticky, RoundShift, InUnits;
    var n1, d1 := n * Pow(2, Plus(o)), d * Pow(2, Minus(o));
    if n1 % d1 == 0 {
      ExactSticky(n1, d1, w);
      ExactUnits(w, o, n, d, u);
    } else {
      StickyUnits(w, o, n, d, u, u + o);
    }
  }

  lemma {:induction false} ExactUnits(w: nat, o: int, n: nat, d: nat, u: int)
    requires d > 0 && w * (d * Pow(2, Minus(o))) == n * Pow(2, Plus(o))
    ensures RoundShift(w, u + o, RNDN) == InUnits(n, d, u)
  {
    hide Pow, RoundDiv, RoundShift;
    var s := u + o;
    ScaledPos(d, Plus(u));
    RoundShiftDiv(w, s, RNDN);
    MulAssoc(w, d, Pow(2, Minus(o)));
    Rescale(w * d, n, Minus(o), Plus(o), Minus(s) + Plus(u), Minus(u) + Plus(s));
    ExactCross(w, d, n, Minus(s), Plus(u), Minus(u), Plus(s));
    RoundSame(w * Pow(2, Minus(s)), Pow(2, Plus(s)), n * Pow(2, Minus(u)), d * Pow(2, Plus(u)), RNDN);
  }

  lemma {:induction false} StickyUnits(w: nat, o: int, n: nat, d: nat, u: int, s: nat)
    requires d > 0 && d * Pow(2, Minus(o)) > 0 && s == u + o && s >= 2
    requires w == Sticky(n * Pow(2, Plus(o)), d * Pow(2, Minus(o)))
    ensures RoundShift(w, s, RNDN) == InUnits(n, d, u)
  {
    hide Pow, Sticky, RoundDiv;
    ScaledPos(d, Plus(u));
    StickyRound(n * Pow(2, Plus(o)), d * Pow(2, Minus(o)), s, RNDN);
    Moved(d, Minus(o), s);
    CrossPow(n, d, Plus(o), Plus(u), Minus(u), Minus(o) + s);
    RoundSame(n * Pow(2, Plus(o)), (d * Pow(2, Minus(o))) * Pow(2, s), n * Pow(2, Minus(u)), d * Pow(2, Plus(u)), RNDN);
  }

  lemma {:induction false} ExactSticky(n: nat, d: nat, w: nat)
    requires d > 0 && n % d == 0 && w == Sticky(n, d)
    ensures w * d == n
  {
    DivMod(n, d);
  }

  lemma {:induction false} ExactCross(w: nat, d: nat, n: nat, i: nat, j: nat, k: nat, l: nat)
    requires (w * d) * Pow(2, i + j) == n * Pow(2, k + l)
    ensures (w * Pow(2, i)) * (d * Pow(2, j)) == (n * Pow(2, k)) * Pow(2, l)
  {
    PowAdd(2, i, j);
    PowAdd(2, k, l);
    Swap4(w, Pow(2, i), d, Pow(2, j));
    MulAssoc(n, Pow(2, k), Pow(2, l));
  }

  /** The last steps of round_to_d: the mantissa is moved up to 53 bits, and may overflow. */
  lemma {:induction false} Normalizes(mant: nat, e: int)
    requires var prec := Precision(e);
      && (prec >= 0 ==> mant <= Pow(2, prec)) && (prec >= 1 ==> Pow(2, prec - 1) <= mant) && (prec < 0 ==> mant == 0)
    ensures mant < 0x1_0000_0000_0000_0000
    ensures var m := mant * Pow(2, 53 - Precision(e));
      if m >= 0x20_0000_0000_0000 then Normalized(mant, e, m / 2, e + 1) else Normalized(mant, e, m, e)
  {
    var prec := Precision(e);
    Pow53();
    if mant > 0 {
      var p := Pow(2, 53 - prec);
      PowAdd(2, prec, 53 - prec);
      PowPos(2, 53 - prec);
      PowGrows(2, prec, 53);
      MulLe(p, mant, Pow(2, prec));
      if prec >= 1 {
        PowAdd(2, prec - 1, 53 - prec);
        MulLe(p, Pow(2, prec - 1), mant);
      } else {
        PowOne(2);
      }
    }
  }

  lemma {:induction false} Pow53()
    ensures Pow(2, 53) == 0x20_0000_0000_0000 && Pow(2, 52) == 0x10_0000_0000_0000
  {
    PowAdd(2, 26, 26);
    PowAdd(2, 13, 13);
    assert Pow(2, 13) == 8192;
    assert Pow(2, 53) == 2 * Pow(2, 52);
  }

  /** round_to_d, for a bignum that is not zero: the fraction it stands for, rounded to a double. */
  method RoundToD(a: Mpb, eOffset: int, ghost n: nat, ghost d: nat) returns (m: nat, e: int, ghost e0: int)
    requires Normal(a.tab) && n > 0 && d > 0 && a.Value() > 0 && Stands(a.Value(), eOffset, n, d)
    modifies a
    ensures Log2(n, d, e0) && Normalized(InUnits(n, d, Ulp(e0)), e0, m, e)
  {
    hide Pow, Sticky, RoundDiv, RoundShift, Val, Normal, Normalized, Stands, InUnits, Log2;
    var k := FloorLog2(a);
    e := k + 1 - eOffset;
    e0 := e;
    LogOf(a.Value(), eOffset, n, d, k);
    var prec := if e < -1021 then 53 - (-1021 - e) else 53;
    assert prec == Precision(e);
    assert a.Value() >= Pow(2, 55) ==> Ulp(e) + eOffset >= 2 by {
      if a.Value() >= Pow(2, 55) && k < 55 {
        PowGrows(2, k + 1, 55);
      }
    }
    UnitsOf(a.Value(), eOffset, n, d, Ulp(e));
    UnitsBounds(n, d, e);
    assert e + eOffset - prec == Ulp(e) + eOffset;
    ShrRound(a, e + eOffset - prec, RNDN);
    ghost var mant := InUnits(n, d, Ulp(e));
    Normalizes(mant, e);
    m := GetU64(a);
    m := m * Pow(2, 53 - prec);
    if m >= 0x20_0000_0000_0000 {
      m := m / 2;
      e := e + 1;
    }
  }
}
