/** Rounding of an exact quotient to an integer, in the modes of the printer and the parser. */
module Rounding {
  import opened Powers

  datatype Mode =
    | RNDN    // to nearest, ties to even
    | RNDNA   // to nearest, ties away from zero
    | RNDZ    // truncation

  /** Whether a quotient q with remainder r is rounded up. */
  predicate RoundsUp(q: nat, r: nat, d: nat, mode: Mode) {
    match mode
    case RNDN => 2 * r > d || (2 * r == d && q % 2 == 1)
    case RNDNA => 2 * r >= d
    case RNDZ => false
  }

  /** n / d, rounded. */
  function RoundDiv(n: nat, d: nat, mode: Mode): (r: nat)
    requires d > 0
  {
    DivNat(n, d);
    n / d + if RoundsUp(n / d, n % d, d, mode) then 1 else 0
  }

  /** v / 2^shift, rounded; shift may be negative. */
  function RoundShift(v: nat, shift: int, mode: Mode): (r: nat) {
    if shift <= 0 then v * Pow(2, -shift)
    else
      PowPos(2, shift);
      RoundDiv(v, Pow(2, shift), mode)
  }

  function Abs(x: int): (r: nat) {
    if x < 0 then -x else x
  }

  /** Rounding to nearest: no other integer is closer, and an equally close one means a tie, which goes to the
      even one or away from zero. */
  lemma {:induction false} RoundNearest(n: nat, d: nat, mode: Mode, k: nat)
    requires d > 0 && mode != RNDZ
    ensures var r := RoundDiv(n, d, mode);
      && Abs(r * d - n) <= Abs(k * d - n)
      && 2 * Abs(r * d - n) <= d
      && (Abs(r * d - n) == Abs(k * d - n) && k != r ==> if mode == RNDN then r % 2 == 0 else r > k)
  {
    DivMod(n, d);
    var q, m := n / d, n % d;
    var r := RoundDiv(n, d, mode);
    assert q * d - n == -m && (q + 1) * d == q * d + d;
    if k <= q - 1 {
      MulLe(d, k, q - 1);
      assert (q - 1) * d == q * d - d;
    } else if k >= q + 2 {
      MulLe(d, q + 2, k);
      assert (q + 2) * d == q * d + 2 * d;
    }
    assert k == q || k == q + 1 || k <= q - 1 || k >= q + 2;
  }

  /** Truncation. */
  lemma {:induction false} RoundDown(n: nat, d: nat)
    requires d > 0
    ensures RoundDiv(n, d, RNDZ) * d <= n < (RoundDiv(n, d, RNDZ) + 1) * d
  {
    DivMod(n, d);
    assert (n / d + 1) * d == (n / d) * d + d;
  }

  /** A common factor does not matter. */
  lemma {:induction false} RoundScale(n: nat, d: nat, k: nat, mode: Mode)
    requires d > 0 && k > 0
    ensures d * k > 0 && RoundDiv(n * k, d * k, mode) == RoundDiv(n, d, mode)
  {
    DivScale(n, d, k);
    var r := n % d;
    assert 2 * (r * k) == (2 * r) * k;
    if 2 * r < d {
      MulLt(k, 2 * r, d);
    } else if 2 * r > d {
      MulLt(k, d, 2 * r);
    }
  }

  lemma {:induction false} RoundExact(n: nat, d: nat, mode: Mode)
    requires d > 0
    ensures RoundDiv(n * d, d, mode) == n
  {
    DivUnique(n * d, d, n, 0);
  }

  /** The quotient with its last bit set when the division is not exact. */
  function Sticky(n: nat, d: nat): (r: nat)
    requires d > 0
  {
    DivNat(n, d);
    if n % d != 0 && n / d % 2 == 0 then n / d + 1 else n / d
  }

  /** Quotient and remainder of the exact division by d * p, and of the sticky quotient by p. */
  lemma {:induction false} StickyParts(n: nat, d: nat, p: nat, h: nat) returns (top: nat, low: nat, low1: nat, r: nat)
    requires d > 0 && p == 2 * h && h > 0
    ensures d * p > 0 && n / (d * p) == top && n % (d * p) == d * low + r && r < d
    ensures Sticky(n, d) / p == top && Sticky(n, d) % p == low1
    ensures low1 == if r != 0 && low % 2 == 0 then low + 1 else low
  {
    MulPos(d, p);
    DivMod(n, d);
    DivNat(n, d);
    var q := n / d;
    r := n % d;
    DivMod(q, p);
    DivNat(q, p);
    top, low := q / p, q % p;
    DivDiv(n, d, p);
    EvenPart(q, p, h);
    low1 := if r != 0 && low % 2 == 0 then low + 1 else low;
    DivUnique(Sticky(n, d), p, top, low1);
  }

  lemma {:induction false} FourDivides(s: nat)
    requires s >= 2
    ensures Pow(2, s) == 2 * Pow(2, s - 1) && Pow(2, s - 1) % 2 == 0 && Pow(2, s - 1) > 0
  {
    PowPos(2, s - 2);
    assert Pow(2, s - 1) == 2 * Pow(2, s - 2);
  }

  /** With at least two more bits below it, the sticky bit decides the rounding of the exact quotient. */
  lemma {:induction false} StickyRound(n: nat, d: nat, s: nat, mode: Mode)
    requires d > 0 && s >= 2
    ensures Pow(2, s) > 0 && d * Pow(2, s) > 0
    ensures RoundDiv(Sticky(n, d), Pow(2, s), mode) == RoundDiv(n, d * Pow(2, s), mode)
  {
    hide Sticky, Pow;
    FourDivides(s);
    var p, h := Pow(2, s), Pow(2, s - 1);
    var top, low, low1, r := StickyParts(n, d, p, h);
    StickyCompare(d, low, low1, r, h);
  }

  lemma {:induction false} EvenPart(q: nat, p: nat, h: nat)
    requires p == 2 * h && h > 0
    ensures q % p % 2 == q % 2
  {
    DivMod(q, p);
    var a, b := q / p, q % p;
    assert q == 2 * (a * h) + b by {
      assert a * (2 * h) == 2 * (a * h);
    }
  }

  lemma {:induction false} StickyCompare(d: nat, low: nat, low1: nat, r: nat, h: nat)
    requires 0 < d && r < d && h % 2 == 0 && h > 0
    requires low1 == if r != 0 && low % 2 == 0 then low + 1 else low
    ensures 2 * (d * low + r) > d * (2 * h) <==> 2 * low1 > 2 * h
    ensures 2 * (d * low + r) == d * (2 * h) <==> 2 * low1 == 2 * h
  {
    assert d * (2 * h) == 2 * (d * h);
    if low >= h + 1 {
      MulLe(d, h + 1, low);
      assert d * (h + 1) == d * h + d;
    } else if low <= h - 1 {
      MulLe(d, low, h - 1);
      assert d * (h - 1) == d * h - d;
    }
  }

  /** Equal fractions are rounded equally. */
  lemma {:induction false} RoundSame(n1: nat, d1: nat, n2: nat, d2: nat, mode: Mode)
    requires d1 > 0 && d2 > 0 && n1 * d2 == n2 * d1
    ensures RoundDiv(n1, d1, mode) == RoundDiv(n2, d2, mode)
  {
    RoundScale(n1, d1, d2, mode);
    RoundScale(n2, d2, d1, mode);
    assert d1 * d2 == d2 * d1;
  }

  function Plus(x: int): (r: nat) {
    if x > 0 then x else 0
  }

  function Minus(x: int): (r: nat) {
    if x < 0 then -x else 0
  }

  /** A shift of either sign as a fraction. */
  lemma {:induction false} RoundShiftDiv(v: nat, shift: int, mode: Mode)
    ensures Pow(2, Plus(shift)) > 0
    ensures RoundShift(v, shift, mode) == RoundDiv(v * Pow(2, Minus(shift)), Pow(2, Plus(shift)), mode)
  {
    PowPos(2, Plus(shift));
    PowOne(2);
    if shift <= 0 {
      RoundExact(v * Pow(2, -shift), 1, mode);
    }
  }
}
