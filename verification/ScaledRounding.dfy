/** mul_pow_round: m * 2^e * radix^f, rounded to an integer, for every sign of e and f. */
module ScaledRounding {
  import opened Powers
  import opened Limbs
  import opened Rounding
  import opened Bignum
  import opened BignumOps
  import opened Scaling

  /** m * 2^e * radix^f as a fraction. */
  function Num(m: nat, e: int, radix: nat, f: int): (r: nat) {
    m * (Pow(2, Plus(e)) * Pow(radix, Plus(f)))
  }

  function Den(e: int, radix: nat, f: int): (r: nat) {
    Pow(2, Minus(e)) * Pow(radix, Minus(f))
  }

  lemma {:induction false} DenPos(e: int, radix: nat, f: int)
    requires radix > 0
    ensures Den(e, radix, f) > 0
  {
    PowPos(2, Minus(e));
    PowPos(radix, Minus(f));
    MulPos(Pow(2, Minus(e)), Pow(radix, Minus(f)));
  }

  /** A power of the radix, with its factors of two apart. */
  lemma {:induction false} RadixPow(radix1: nat, rs: nat, n: nat)
    ensures Pow(radix1 * Pow(2, rs), n) == Pow(radix1, n) * Pow(2, rs * n)
  {
    PowMul(radix1, Pow(2, rs), n);
    PowPow(2, rs, n);
  }

  /** Powers of two on both sides of a cross multiplication. */
  lemma {:induction false} CrossPow(n: nat, d: nat, i: nat, j: nat, k: nat, l: nat)
    requires i + j == k + l
    ensures (n * Pow(2, i)) * (d * Pow(2, j)) == (n * Pow(2, k)) * (d * Pow(2, l))
  {
    Swap4(n, Pow(2, i), d, Pow(2, j));
    Swap4(n, Pow(2, k), d, Pow(2, l));
    PowAdd(2, i, j);
    PowAdd(2, k, l);
  }

  /** The fraction, with its powers of two gathered. */
  lemma {:induction false} Gathered(m: nat, e: int, radix1: nat, rs: nat, f: int)
    ensures var radix := radix1 * Pow(2, rs);
      && (f >= 0 ==>
            && Num(m, e, radix, f) == (m * Pow(radix1, f)) * Pow(2, Plus(e) + rs * f)
            && Den(e, radix, f) == 1 * Pow(2, Minus(e)))
      && (f < 0 ==>
            && Num(m, e, radix, f) == m * Pow(2, Plus(e))
            && Den(e, radix, f) == Pow(radix1, -f) * Pow(2, Minus(e) + rs * -f))
  {
    var radix := radix1 * Pow(2, rs);
    PowOne(radix);
    if f >= 0 {
      RadixPow(radix1, rs, f);
      PowAdd(2, Plus(e), rs * f);
      GatherUp(m, Pow(2, Plus(e)), Pow(radix1, f), Pow(2, rs * f));
    } else {
      RadixPow(radix1, rs, -f);
      PowAdd(2, Minus(e), rs * -f);
      GatherUp(1, Pow(2, Minus(e)), Pow(radix1, -f), Pow(2, rs * -f));
    }
  }

  lemma {:induction false} GatherUp(m: nat, x: nat, r: nat, y: nat)
    ensures m * (x * (r * y)) == (m * r) * (x * y)
    ensures x * (r * y) == r * (x * y)
  {
    assert x * (r * y) == r * (x * y);
    MulAssoc(m, r, x * y);
  }

  /** Rounding what mul_pow leaves rounds the exact value. */
  lemma {:induction false} ScaledRound(m: nat, w: nat, e: int, radix1: nat, rs: nat, f: int, up: nat, shift: int,
      mode: Mode)
    requires radix1 > 0 && Scaled(m, w, radix1, f, up) && shift == -e + (-f * rs + up)
    requires f < 0 && radix1 != 1 ==> shift >= 2
    ensures var radix := radix1 * Pow(2, rs);
      && radix > 0 && Den(e, radix, f) > 0
      && RoundShift(w, shift, mode) == RoundDiv(Num(m, e, radix, f), Den(e, radix, f), mode)
  {
    hide Pow, Num, Den, Sticky;
    var radix := radix1 * Pow(2, rs);
    PowPos(2, rs);
    MulPos(radix1, Pow(2, rs));
    DenPos(e, radix, f);
    Gathered(m, e, radix1, rs, f);
    var n, d := Num(m, e, radix, f), Den(e, radix, f);
    RoundShiftDiv(w, shift, mode);
    if f >= 0 {
      assert -f * rs == -(rs * f);
      CrossPow(w, 1, Minus(shift), Minus(e), Plus(e) + rs * f, Plus(shift));
      assert 1 * Pow(2, Plus(shift)) == Pow(2, Plus(shift));
      RoundSame(w * Pow(2, Minus(shift)), Pow(2, Plus(shift)), n, d, mode);
    } else if radix1 == 1 {
      PowOnes(-f);
      assert -f * rs == rs * -f;
      CrossPow(w, 1, Minus(shift), Minus(e) + rs * -f, Plus(e), Plus(shift));
      assert 1 * Pow(2, Plus(shift)) == Pow(2, Plus(shift));
      RoundSame(w * Pow(2, Minus(shift)), Pow(2, Plus(shift)), n, d, mode);
    } else {
      StickyScaled(m, w, e, radix1, rs, f, up, shift, mode);
    }
  }

  lemma {:induction false} StickyScaled(m: nat, w: nat, e: int, radix1: nat, rs: nat, f: int, up: nat, shift: int,
      mode: Mode)
    requires radix1 > 1 && f < 0 && Scaled(m, w, radix1, f, up) && shift == -e + (-f * rs + up) && shift >= 2
    requires radix1 * Pow(2, rs) > 0 && Den(e, radix1 * Pow(2, rs), f) > 0
    ensures var radix := radix1 * Pow(2, rs);
      RoundShift(w, shift, mode) == RoundDiv(Num(m, e, radix, f), Den(e, radix, f), mode)
  {
    hide Pow, Num, Den, Sticky, RoundDiv;
    var radix, r := radix1 * Pow(2, rs), Pow(radix1, -f);
    Gathered(m, e, radix1, rs, f);
    StickyRound(m * Pow(2, up), r, shift, mode);
    assert -f * rs == rs * -f;
    CrossPow(m, r, up, Minus(e) + rs * -f, Plus(e), shift);
    RoundSame(m * Pow(2, up), r * Pow(2, shift), Num(m, e, radix, f), Den(e, radix, f), mode);
  }

  /** mul_pow_round: in every mode, the exact value rounded. */
  method MulPowRound(tmp1: Mpb, m: nat, e: int, radix1: nat, radixShift: nat, f: int, mode: Mode)
    requires OddRadix(radix1) && 0 < m < 0x1_0000_0000_0000_0000
    modifies tmp1
    ensures var radix := radix1 * Pow(2, radixShift);
      && radix > 0 && Den(e, radix, f) > 0
      && tmp1.Value() == RoundDiv(Num(m, e, radix, f), Den(e, radix, f), mode)
    ensures Normal(tmp1.tab)
  {
    hide Pow, Num, Den, Sticky, RoundDiv, RoundShift, Val, Normal;
    SetU64(tmp1, m);
    var eOffset;
    ghost var up;
    eOffset, up := MulPow(tmp1, radix1, radixShift, f, true, e);
    ScaledRound(m, tmp1.Value(), e, radix1, radixShift, f, up, -e + eOffset, mode);
    ScaledPositive(m, tmp1.Value(), radix1, f, up, eOffset, e);
    ShrRound(tmp1, -e + eOffset, mode);
  }

  lemma {:induction false} ScaledPositive(m: nat, w: nat, radix1: nat, f: int, up: nat, eOffset: int, e: int)
    requires 0 < m && radix1 > 0 && Scaled(m, w, radix1, f, up)
    requires f < 0 && radix1 != 1 ==> eOffset - e >= 2
    ensures -e + eOffset >= 0 || w > 0
  {
    if f >= 0 {
      PowPos(radix1, f);
      MulPos(m, Pow(radix1, f));
    }
  }
}
