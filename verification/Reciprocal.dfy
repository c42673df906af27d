/** Division of two limbs by one, by multiplication with a precomputed reciprocal. */
module Reciprocal {
  import opened Powers

  /** A limb is below 2^32; two limbs are below 2^64. */
  type Limb = x: int | 0 <= x < 0x1_0000_0000

  /** The low word of a number, with wrap-around. */
  function Lo(x: int): (r: Limb) {
    x % 0x1_0000_0000
  }

  /** The high word. */
  function Hi(x: nat): (r: nat) {
    x / 0x1_0000_0000
  }

  /** A 64-bit word, with wrap-around. */
  function Wide(x: int): (r: nat) {
    x % 0x1_0000_0000_0000_0000
  }

  /** udiv1norm_init: d is normalized, its top bit is set. */
  function ReciprocalOf(d: Limb): (r: int)
    requires d >= 0x8000_0000
  {
    var a1 := Lo(-(d as int) - 1);
    var a0 := 0xffff_ffff;
    (a1 as int * 0x1_0000_0000 + a0) / d
  }

  /** 2^32 + r is the quotient of 2^64 - 1 by d. */
  lemma {:induction false} ReciprocalMeaning(d: Limb)
    requires d >= 0x8000_0000
    ensures 0 <= ReciprocalOf(d) < 0x1_0000_0000
    ensures 0xffff_ffff_ffff_ffff - d < (0x1_0000_0000 + ReciprocalOf(d)) * d <= 0xffff_ffff_ffff_ffff
  {
    var n := (0xffff_ffff - d) * 0x1_0000_0000 + 0xffff_ffff;
    assert Lo(-(d as int) - 1) == 0xffff_ffff - d;
    DivMod(n, d);
    var m := n / d;
    assert (0x1_0000_0000 + m) * d == 0x1_0000_0000 * d + m * d;
    if m < 0 {
      MulLe(d, m, -1);
    }
    if m >= 0x1_0000_0000 {
      MulLe(d, 0x1_0000_0000, m);
    }
  }

  /** q is the quotient of a1 * 2^32 + a0 by d, or one less. */
  predicate Estimates(q: int, a1: int, a0: int, d: int) {
    q * d <= a1 * 0x1_0000_0000 + a0 < q * d + 2 * d
  }

  lemma {:induction false} Factor(d: int, m: int, u: int)
    ensures d * ((m + 0x1_0000_0000) * u) == u * ((0x1_0000_0000 + m) * d)
  {
    MulAssoc(d, m + 0x1_0000_0000, u);
  }

  lemma {:induction false} Split3(d: int, p: int, a: int, q: int, rho: int)
    requires p + a == 0x1_0000_0000 * q + rho
    ensures d * p + a * d == 0x1_0000_0000 * (q * d) + rho * d
  {
    assert d * (p + a) == d * p + a * d;
    assert d * (0x1_0000_0000 * q + rho) == 0x1_0000_0000 * (q * d) + rho * d;
  }

  /** The estimate when the top bit of a0 is clear. */
  lemma {:induction false} LowEstimate(a1: Limb, a0: Limb, d: Limb, m: int, q: int, rho: int)
    requires 0x8000_0000 <= d && a1 < d && a0 < 0x8000_0000
    requires 0xffff_ffff_ffff_ffff - d < (0x1_0000_0000 + m) * d <= 0xffff_ffff_ffff_ffff
    requires (m + 0x1_0000_0000) * a1 + a0 == 0x1_0000_0000 * q + rho
    requires 0 <= rho < 0x1_0000_0000
    ensures Estimates(q, a1, a0, d)
  {
    var w := (0x1_0000_0000 + m) * d;
    var k := 0xffff_ffff_ffff_ffff - w;
    Factor(d, m, a1);
    Split3(d, (m + 0x1_0000_0000) * a1, a0, q, rho);
    var x := a1 * (1 + k);
    assert a1 * w == 0x1_0000_0000_0000_0000 * a1 - x;
    assert a0 * (0x1_0000_0000 - d) == 0x1_0000_0000 * a0 - a0 * d;
    MulLe(a1, 0, 1 + k);
    MulLe(a0, 0, 0x1_0000_0000 - d);
    MulLe(d, 0, rho);
    LowUpper(d, a1, k, a0, rho);
  }

  lemma {:induction false} LowUpper(d: int, a1: int, k: int, a0: int, rho: int)
    requires 0x8000_0000 <= d < 0x1_0000_0000 && 0 <= a1 < d && 0 <= k < d && 0 <= a0 < 0x8000_0000
    requires 0 <= rho < 0x1_0000_0000
    ensures a1 * (1 + k) + a0 * (0x1_0000_0000 - d) + rho * d < 0x1_0000_0000 * (2 * d)
  {
    MulLe(a1, 1 + k, d);
    MulLe(d, a1, d - 1);
    MulLe(0x1_0000_0000 - d, a0, d);
    MulLe(d, rho, 0xffff_ffff);
    assert (d - 1) * d == d * d - d && d * (0x1_0000_0000 - d) == 0x1_0000_0000 * d - d * d;
  }

  /** The estimate when the top bit of a0 is set, and d has been added to it. */
  lemma {:induction false} HighEstimate(a1: Limb, a0: Limb, d: Limb, m: int, q: int, rho: int)
    requires 0x8000_0000 <= d && a1 < d && a0 >= 0x8000_0000
    requires 0xffff_ffff_ffff_ffff - d < (0x1_0000_0000 + m) * d <= 0xffff_ffff_ffff_ffff
    requires (m + 0x1_0000_0000) * (a1 + 1) + (a0 + d - 0x2_0000_0000) == 0x1_0000_0000 * q + rho
    requires 0 <= rho < 0x1_0000_0000
    ensures Estimates(q, a1, a0, d)
  {
    var w := (0x1_0000_0000 + m) * d;
    var k := 0xffff_ffff_ffff_ffff - w;
    var u := a1 + 1;
    Factor(d, m, u);
    Split3(d, (m + 0x1_0000_0000) * u, a0 + d - 0x2_0000_0000, q, rho);
    var x := u * (1 + k);
    assert u * w == 0x1_0000_0000_0000_0000 * u - x;
    assert (a0 + d - 0x2_0000_0000) * d == a0 * d + d * d - 0x2_0000_0000 * d;
    var c := 0x1_0000_0000 - d;
    assert c * (a0 - c) == 0x1_0000_0000 * a0 - a0 * d - 0x1_0000_0000_0000_0000 + 0x2_0000_0000 * d - d * d;
    MulLe(u, 0, 1 + k);
    MulLe(c, 0, a0 - c);
    MulLe(d, 0, rho);
    HighUpper(d, u, k, a0, rho);
  }

  lemma {:induction false} HighUpper(d: int, u: int, k: int, a0: int, rho: int)
    requires 0x8000_0000 <= d < 0x1_0000_0000 && 0 <= u <= d && 0 <= k < d && 0 <= a0 < 0x1_0000_0000
    requires 0 <= rho < 0x1_0000_0000
    ensures var c := 0x1_0000_0000 - d; u * (1 + k) + c * (a0 - c) + rho * d < 0x1_0000_0000 * (2 * d)
  {
    var c := 0x1_0000_0000 - d;
    MulLe(u, 1 + k, d);
    MulLe(d, u, d);
    MulLe(c, a0 - c, d - 1);
    MulLe(d, rho, 0xffff_ffff);
    assert c * (d - 1) == 0x1_0000_0000 * d - d * d - c;
  }

  /** The high word of the 64-bit product and sum p, plus a1. */
  function Raised(p: int, a1: Limb): (r: Limb) {
    Lo(Hi(Wide(p)) + a1)
  }

  /** The first step of udiv1norm. With n1m the sign of a0, it adds n1m & d to a0 and subtracts n1m from a1. */
  function Estimate(a1: Limb, a0: Limb, d: Limb, dInv: Limb): (r: Limb) {
    if a0 >= 0x8000_0000 then Raised(dInv as int * Lo(a1 as int + 1) + Lo(a0 as int + d), a1)
    else Raised(dInv as int * Lo(a1) + Lo(a0), a1)
  }

  /** The first step of udiv1norm estimates the quotient without overflow. */
  lemma {:induction false} FirstEstimate(a1: Limb, a0: Limb, d: Limb, dInv: Limb)
    requires d >= 0x8000_0000 && a1 < d && dInv == ReciprocalOf(d)
    ensures Estimates(Estimate(a1, a0, d, dInv), a1, a0, d)
  {
    hide ReciprocalOf, Lo, Raised, Estimates;
    ReciprocalMeaning(d);
    if a0 < 0x8000_0000 {
      LowWord(a0, 0);
      LowWord(a1, 0);
      LowSum(a1, a0, d, dInv, dInv * a1 + a0);
    } else {
      LowWord(a0 + d - 0x1_0000_0000, 1);
      LowWord(a1 + 1, 0);
      HighSum(a1, a0, d, dInv, dInv * (a1 + 1) + (a0 + d - 0x1_0000_0000));
    }
  }

  lemma {:induction false} LowSum(a1: Limb, a0: Limb, d: Limb, m: Limb, p: int)
    requires 0x8000_0000 <= d && a1 < d && a0 < 0x8000_0000 && p == m * a1 + a0
    requires 0xffff_ffff_ffff_ffff - d < (0x1_0000_0000 + m) * d <= 0xffff_ffff_ffff_ffff
    ensures p >= 0 && Estimates(Raised(p, a1), a1, a0, d)
  {
    ProductFits(m, a1, a0);
    DivMod(p, 0x1_0000_0000);
    assert (m + 0x1_0000_0000) * a1 == m * a1 + 0x1_0000_0000 * a1;
    LowEstimate(a1, a0, d, m, p / 0x1_0000_0000 + a1, p % 0x1_0000_0000);
    EstimateWord(p, a1, a0, d);
  }

  lemma {:induction false} HighSum(a1: Limb, a0: Limb, d: Limb, m: Limb, p: int)
    requires 0x8000_0000 <= d && a1 < d && a0 >= 0x8000_0000 && p == m * (a1 + 1) + (a0 + d - 0x1_0000_0000)
    requires 0xffff_ffff_ffff_ffff - d < (0x1_0000_0000 + m) * d <= 0xffff_ffff_ffff_ffff
    ensures p >= 0 && Estimates(Raised(p, a1), a1, a0, d)
  {
    ProductFits(m, a1 + 1, a0 + d - 0x1_0000_0000);
    DivMod(p, 0x1_0000_0000);
    assert (m + 0x1_0000_0000) * (a1 + 1) == m * (a1 + 1) + 0x1_0000_0000 * (a1 + 1);
    HighEstimate(a1, a0, d, m, p / 0x1_0000_0000 + a1, p % 0x1_0000_0000);
    EstimateWord(p, a1, a0, d);
  }

  lemma {:induction false} EstimateWord(p: int, a1: Limb, a0: Limb, d: Limb)
    requires 0 <= p < 0x1_0000_0000_0000_0000 && 0 < d && a1 < d && Estimates(p / 0x1_0000_0000 + a1, a1, a0, d)
    ensures Raised(p, a1) == p / 0x1_0000_0000 + a1
  {
    var q := p / 0x1_0000_0000 + a1;
    DivUnique(p, 0x1_0000_0000_0000_0000, 0, p);
    DivNat(p, 0x1_0000_0000);
    EstimateFits(q, a1, a0, d);
    LowWord(q, 0);
  }

  lemma {:induction false} ProductFits(x: Limb, y: int, z: Limb)
    requires 0 <= y <= 0xffff_ffff
    ensures 0 <= x * y + z < 0x1_0000_0000_0000_0000
  {
    MulLe(x, 0, y);
    MulLe(x, y, 0xffff_ffff);
  }

  /** An estimate of the quotient is a limb, since the quotient is. */
  lemma {:induction false} EstimateFits(q: int, a1: Limb, a0: Limb, d: Limb)
    requires 0 < d && a1 < d && Estimates(q, a1, a0, d)
    ensures q < 0x1_0000_0000
  {
    if q >= 0x1_0000_0000 {
      MulLe(d, 0x1_0000_0000, q);
    }
  }

  /** udiv1norm, with its 32-bit and 64-bit wrap-arounds: the exact quotient and remainder. */
  method UDiv1Norm(a1: Limb, a0: Limb, d: Limb, dInv: Limb) returns (q: Limb, r: Limb)
    requires d >= 0x8000_0000 && a1 < d && dInv == ReciprocalOf(d)
    ensures q == (a1 * 0x1_0000_0000 + a0) / d && r == (a1 * 0x1_0000_0000 + a0) % d
  {
    hide Estimate;
    FirstEstimate(a1, a0, d, dInv);
    q := Estimate(a1, a0, d, dInv);
    var n: int := a1 * 0x1_0000_0000 + a0;
    var a := Wide(n - q * d - d);
    var ah := Hi(a);
    Correction(n, q, d, a1, a0);
    q := Lo(q + 1 + ah);
    r := Lo(Lo(a) + if ah == 0 then 0 else d);
  }

  /** The correction: the sign of the wrapped difference tells whether the estimate was one too small. */
  lemma {:induction false} Correction(n: int, q: Limb, d: Limb, a1: Limb, a0: Limb)
    requires 0x8000_0000 <= d && a1 < d && n == a1 * 0x1_0000_0000 + a0 && Estimates(q, a1, a0, d)
    ensures var a := Wide(n - q * d - d);
      && Lo(q + 1 + Hi(a)) == n / d
      && Lo(Lo(a) + if Hi(a) == 0 then 0 else d) == n % d
  {
    hide Lo, Hi, Wide;
    var x := n - q * d - d;
    if x >= 0 {
      PositiveWord(x, d);
      assert (q + 1) * d == q * d + d;
      DivUnique(n, d, q + 1, x);
      EstimateFits(q + 1, a1, a0, d);
      LowWord(q + 1, 0);
    } else {
      NegativeWord(x, d);
      DivUnique(n, d, q, x + d);
      LowWord(q, 1);
    }
  }

  lemma {:induction false} LowWord(x: Limb, k: int)
    ensures Lo(x + k * 0x1_0000_0000) == x
  {
    DivUnique(x + k * 0x1_0000_0000, 0x1_0000_0000, k, x);
  }

  lemma {:induction false} PositiveWord(x: int, d: Limb)
    requires 0 <= x < d
    ensures Hi(Wide(x)) == 0 && Lo(Lo(Wide(x))) == x
  {
    DivUnique(x, 0x1_0000_0000_0000_0000, 0, x);
    DivUnique(x, 0x1_0000_0000, 0, x);
  }

  lemma {:induction false} NegativeWord(x: int, d: Limb)
    requires -(d as int) <= x < 0
    ensures Hi(Wide(x)) == 0xffff_ffff && Lo(Lo(Wide(x)) + d) == x + d
  {
    DivUnique(x, 0x1_0000_0000_0000_0000, -1, x + 0x1_0000_0000_0000_0000);
    DivUnique(x + 0x1_0000_0000_0000_0000, 0x1_0000_0000, 0xffff_ffff, x + 0x1_0000_0000);
    DivUnique(x + 0x1_0000_0000 + d, 0x1_0000_0000, 1, x + d);
  }
}
