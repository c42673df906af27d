/** What it means to round a positive fraction to a binary64 number: 53 bits, or fewer below 2^-1021
    (IEEE 754-2019, section 4.3.1, roundTiesToEven). */
module FloatSpec {
  import opened Powers
  import opened Rounding

  /** The weight of the last bit of the doubles in [2^(e - 1), 2^e). */
  function Ulp(e: int): (r: int) {
    if e < -1021 then -1074 else e - 53
  }

  /** 2^(e - 1) <= n / d < 2^e */
  predicate Log2(n: nat, d: nat, e: int) {
    && d * Pow(2, Plus(e - 1)) <= n * Pow(2, Minus(e - 1))
    && n * Pow(2, Minus(e)) < d * Pow(2, Plus(e))
  }

  /** n / d as a number of units 2^u, rounded to nearest, ties to even. */
  function InUnits(n: nat, d: nat, u: int): (r: nat)
    requires d > 0
  {
    ScaledPos(d, Plus(u));
    RoundDiv(n * Pow(2, Minus(u)), d * Pow(2, Plus(u)), RNDN)
  }

  lemma {:induction false} ScaledPos(d: nat, k: nat)
    requires d > 0
    ensures d * Pow(2, k) > 0
  {
    PowPos(2, k);
    MulPos(d, Pow(2, k));
  }

  /** Only the difference of the exponents matters in a comparison. */
  lemma {:induction false} RescaleBy(b: nat, x: nat, y: nat, i: nat, j: nat, k: nat, l: nat)
    requires b > 0 && i - j == k - l
    ensures x * Pow(b, i) <= y * Pow(b, j) <==> x * Pow(b, k) <= y * Pow(b, l)
    ensures x * Pow(b, i) < y * Pow(b, j) <==> x * Pow(b, k) < y * Pow(b, l)
    ensures x * Pow(b, i) == y * Pow(b, j) <==> x * Pow(b, k) == y * Pow(b, l)
  {
    if i <= k {
      RescaleUp(b, x, y, i, j, k - i);
    } else {
      RescaleUp(b, x, y, k, l, i - k);
    }
  }

  lemma {:induction false} Rescale(x: nat, y: nat, i: nat, j: nat, k: nat, l: nat)
    requires i - j == k - l
    ensures x * Pow(2, i) <= y * Pow(2, j) <==> x * Pow(2, k) <= y * Pow(2, l)
    ensures x * Pow(2, i) < y * Pow(2, j) <==> x * Pow(2, k) < y * Pow(2, l)
    ensures x * Pow(2, i) == y * Pow(2, j) <==> x * Pow(2, k) == y * Pow(2, l)
  {
    RescaleBy(2, x, y, i, j, k, l);
  }

  lemma {:induction false} RescaleUp(b: nat, x: nat, y: nat, i: nat, j: nat, t: nat)
    requires b > 0
    ensures x * Pow(b, i) <= y * Pow(b, j) <==> x * Pow(b, i + t) <= y * Pow(b, j + t)
    ensures x * Pow(b, i) < y * Pow(b, j) <==> x * Pow(b, i + t) < y * Pow(b, j + t)
    ensures x * Pow(b, i) == y * Pow(b, j) <==> x * Pow(b, i + t) == y * Pow(b, j + t)
  {
    PowAdd(b, i, t);
    PowAdd(b, j, t);
    PowPos(b, t);
    var p := Pow(b, t);
    MulAssoc(x, Pow(b, i), p);
    MulAssoc(y, Pow(b, j), p);
    Compare(x * Pow(b, i), y * Pow(b, j), p);
  }

  lemma {:induction false} Compare(a: int, b: int, p: int)
    requires p > 0
    ensures a <= b <==> a * p <= b * p
    ensures a < b <==> a * p < b * p
    ensures a == b <==> a * p == b * p
  {
    if a < b {
      MulLt(p, a, b);
    } else if b < a {
      MulLt(p, b, a);
    }
  }

  lemma {:induction false} RoundUpper(n: nat, d: nat, k: nat, mode: Mode)
    requires d > 0 && n <= k * d
    ensures RoundDiv(n, d, mode) <= k
  {
    DivMod(n, d);
    var q := n / d;
    assert (k + 1) * d == k * d + d;
    if q > k {
      MulLe(d, k + 1, q);
    } else if q == k {
      assert n % d == 0;
    }
  }

  lemma {:induction false} RoundLower(n: nat, d: nat, k: nat, mode: Mode)
    requires d > 0 && k * d <= n
    ensures RoundDiv(n, d, mode) >= k
  {
    DivMod(n, d);
    var q := n / d;
    assert (q + 1) * d == q * d + d;
    if q < k {
      MulLe(d, q + 1, k);
    }
  }

  lemma {:induction false} RoundZero(n: nat, d: nat)
    requires d > 0 && 2 * n < d
    ensures RoundDiv(n, d, RNDN) == 0
  {
    DivUnique(n, d, 0, n);
  }

  /** How many bits the doubles around 2^e have; not positive below the smallest of them. */
  function Precision(e: int): (r: int) {
    e - Ulp(e)
  }

  /** The bounds of the rounded number of units. */
  lemma {:induction false} UnitsBounds(n: nat, d: nat, e: int)
    requires d > 0 && n > 0 && Log2(n, d, e)
    ensures var m := InUnits(n, d, Ulp(e)); var prec := Precision(e);
      && (prec >= 0 ==> m <= Pow(2, prec))
      && (prec >= 1 ==> Pow(2, prec - 1) <= m)
      && (prec < 0 ==> m == 0)
  {
    hide Pow, Log2, InUnits;
    var prec := Precision(e);
    if prec >= 0 {
      UnitsUpper(n, d, e, Ulp(e), prec);
    } else {
      UnitsNone(n, d, e, Ulp(e));
    }
    if prec >= 1 {
      UnitsLower(n, d, e, Ulp(e), prec - 1);
    }
  }

  lemma {:induction false} UnitsUpper(n: nat, d: nat, e: int, u: int, p: nat)
    requires d > 0 && Log2(n, d, e) && e == u + p
    ensures InUnits(n, d, u) <= Pow(2, p)
  {
    hide Pow, RoundDiv;
    ScaledPos(d, Plus(u));
    Rescale(n, d, Minus(e), Plus(e), Minus(u), Plus(u) + p);
    PowAdd(2, Plus(u), p);
    MulAssoc(d, Pow(2, Plus(u)), Pow(2, p));
    var x, y, w := n * Pow(2, Minus(u)), d * Pow(2, Plus(u)), Pow(2, p);
    assert x <= w * y by {
      assert w * y == y * w;
    }
    RoundUpper(x, y, w, RNDN);
  }

  lemma {:induction false} UnitsLower(n: nat, d: nat, e: int, u: int, p: nat)
    requires d > 0 && Log2(n, d, e) && e - 1 == u + p
    ensures InUnits(n, d, u) >= Pow(2, p)
  {
    hide Pow, RoundDiv;
    ScaledPos(d, Plus(u));
    Rescale(d, n, Plus(e - 1), Minus(e - 1), Plus(u) + p, Minus(u));
    PowAdd(2, Plus(u), p);
    MulAssoc(d, Pow(2, Plus(u)), Pow(2, p));
    var x, y, w := n * Pow(2, Minus(u)), d * Pow(2, Plus(u)), Pow(2, p);
    assert w * y <= x by {
      assert w * y == y * w;
    }
    RoundLower(x, y, w, RNDN);
  }

  lemma {:induction false} UnitsNone(n: nat, d: nat, e: int, u: int)
    requires d > 0 && Log2(n, d, e) && e < u
    ensures InUnits(n, d, u) == 0
  {
    hide Pow, RoundDiv;
    ScaledPos(d, Plus(u));
    // n / d < 2^e <= 2^(u - 1)
    var k := Plus(-e) + Plus(-u) + 1;
    Rescale(n, d, Minus(e), Plus(e), k, e + k);
    PowGrows(2, e + k, u - 1 + k);
    MulLe(d, Pow(2, e + k), Pow(2, u - 1 + k));
    Rescale(n, d, k, u - 1 + k, Minus(u) + 1, Plus(u));
    PowAdd(2, 1, Minus(u));
    PowOne(2);
    MulAssoc(n, 2, Pow(2, Minus(u)));
    var x, y := n * Pow(2, Minus(u)), d * Pow(2, Plus(u));
    assert n * (2 * Pow(2, Minus(u))) == 2 * x;
    RoundZero(x, y);
  }

  /** The exponent is determined by the fraction. */
  lemma {:induction false} Log2Unique(n: nat, d: nat, e: int, e1: int)
    requires d > 0 && n > 0 && Log2(n, d, e) && Log2(n, d, e1)
    ensures e == e1
  {
    if e < e1 {
      Log2Order(n, d, e, e1);
    } else if e1 < e {
      Log2Order(n, d, e1, e);
    }
  }

  lemma {:induction false} Log2Order(n: nat, d: nat, e: int, e1: int)
    requires d > 0 && Log2(n, d, e) && Log2(n, d, e1)
    ensures e1 <= e
  {
    hide Pow;
    if e < e1 {
      // d * 2^(e1 - 1) <= n < d * 2^e, and e <= e1 - 1
      var k := Minus(e) + Minus(e1 - 1);
      var a, b := e1 - 1 + k, e + k;
      Rescale(d, n, Plus(e1 - 1), Minus(e1 - 1), a, k);
      Rescale(n, d, Minus(e), Plus(e), k, b);
      PowGrows(2, b, a);
      MulLe(d, Pow(2, b), Pow(2, a));
    }
  }

  /** The normalized mantissa and exponent of m units of the binade below 2^e: m1 * 2^(e1 - 53) is the same number,
      and m1 has exactly 53 bits, unless it is zero. */
  predicate Normalized(m: nat, e: int, m1: nat, e1: int) {
    if m == 0 then m1 == 0
    else
      && 0 <= Precision(e) <= 53
      && var shifted := m * Pow(2, 53 - Precision(e));
         if shifted >= 0x20_0000_0000_0000 then
           m1 == 0x10_0000_0000_0000 && e1 == e + 1 && shifted == 0x20_0000_0000_0000
         else m1 == shifted && e1 == e && m1 >= 0x10_0000_0000_0000
  }
}
