/** The arithmetic behind the free-format search: rounding to P digits gives a closest number of P digits. All
    numbers are integers on a common scale: Y stands for the double x, and Grid(t) for radix^t. */
module ShortestDigits {
  import opened Powers
  import opened Rounding
  import opened Reading

  /** radix^t on the scale radix^top * 2^1200. */
  function Grid(radix: nat, top: nat, t: int): (r: nat)
    requires t + top >= 0
  {
    Pow(radix, t + top) * Pow(2, 1200)
  }

  lemma {:induction false} GridUp(radix: nat, top: nat, t: int, i: nat)
    requires t + top >= 0
    ensures Grid(radix, top, t + i) == Pow(radix, i) * Grid(radix, top, t)
  {
    PowAdd(radix, t + top, i);
    var a, b, c := Pow(radix, t + top), Pow(radix, i), Pow(2, 1200);
    MulAssoc(b, a, c);
    assert a * b == b * a;
  }

  lemma {:induction false} GridPos(radix: nat, top: nat, t: int)
    requires radix > 0 && t + top >= 0
    ensures Grid(radix, top, t) > 0
  {
    PowPos(radix, t + top);
    PowPos(2, 1200);
    MulPos(Pow(radix, t + top), Pow(2, 1200));
  }

  /** a * q is a nearest multiple of q. */
  lemma {:induction false} NearestMultiple(y: int, q: int, a: int, j: int)
    requires q > 0 && 2 * Abs(a * q - y) <= q
    ensures Abs(a * q - y) <= Abs(j * q - y)
  {
    if j < a {
      MulLe(q, j + 1, a);
      assert (j + 1) * q == j * q + q;
    } else if j > a {
      MulLe(q, a + 1, j);
      assert (a + 1) * q == a * q + q;
    }
  }

  /** v is a nearest multiple of radix^(e - p), and x is at least radix^(e - 1). */
  ghost predicate Best(y: nat, v: nat, radix: nat, top: nat, e: int, p: nat)
    requires e - p + top >= 0 && p >= 1
  {
    && 2 * Abs(v - y) <= Grid(radix, top, e - p)
    && y >= Grid(radix, top, e - 1)
    && Multiple(v, Grid(radix, top, e - p))
  }

  ghost predicate Multiple(v: nat, q: nat) {
    exists a: nat :: IsMultiple(v, q, a)
  }

  predicate IsMultiple(v: nat, q: nat, a: nat) {
    v == a * q
  }

  /** No number of p digits is closer. */
  lemma {:induction false} BestIsClosest(y: nat, v: nat, radix: nat, top: nat, e: int, p: nat, k: nat, t: int)
    requires radix >= 2 && p >= 1 && e - p + top >= 0 && t + top >= 0 && Best(y, v, radix, top, e, p) && k < Pow(radix,
        p)
    ensures Abs(v - y) <= Abs(k * Grid(radix, top, t) - y)
  {
    hide Grid, Pow;
    var q := Grid(radix, top, e - p);
    var a: nat :| IsMultiple(v, q, a);
    GridPos(radix, top, e - p);
    if t >= e - p {
      GridUp(radix, top, e - p, t - (e - p));
      MulAssoc(k, Pow(radix, t - (e - p)), q);
      NearestMultiple(y, q, a, k * Pow(radix, t - (e - p)));
    } else {
      // k * radix^t < radix^(p + t) <= radix^(e - 1) <= x
      GridUp(radix, top, e - p, p - 1);
      NearestMultiple(y, q, a, Pow(radix, p - 1));
      GridPos(radix, top, t);
      GridUp(radix, top, t, p);
      GridUp(radix, top, p + t, e - 1 - (p + t));
      PowPos(radix, e - 1 - (p + t));
      GridPos(radix, top, p + t);
      MulLe(Grid(radix, top, p + t), 1, Pow(radix, e - 1 - (p + t)));
      MulLe(Grid(radix, top, t), k, Pow(radix, p));
    }
  }

  /** With enough digits the closest number is within 2^-54 of x. */
  lemma {:induction false} BestIsClose(y: nat, v: nat, radix: nat, top: nat, e: int, p: nat)
    requires radix >= 2 && p >= 1 && e - p + top >= 0 && Best(y, v, radix, top, e, p)
    requires Pow(radix, p - 1) >= 0x20_0000_0000_0000
    ensures 0x40_0000_0000_0000 * Abs(v - y) <= y
  {
    hide Grid, Pow;
    var q := Grid(radix, top, e - p);
    GridUp(radix, top, e - p, p - 1);
    MulLe(q, 0x20_0000_0000_0000, Pow(radix, p - 1));
  }

  /** When p digits at exponent e suffice. */
  lemma {:induction false} FirstExponent(y: nat, radix: nat, top: nat, e: int, p: nat, mant: nat)
    requires radix >= 2 && p >= 1 && e - p + top >= 0 && y >= Grid(radix, top, e - 1)
    requires Grid(radix, top, e - p) > 0 && mant == RoundDiv(y, Grid(radix, top, e - p), RNDN)
    ensures Best(y, mant * Grid(radix, top, e - p), radix, top, e, p)
  {
    hide Grid, Pow;
    var q := Grid(radix, top, e - p);
    RoundHalfEven(y, q);
    assert q * mant == mant * q;
    assert IsMultiple(mant * q, q, mant);
  }

  /** When they do not, the next exponent is tried: either x has reached it, or it has been rounded up to it. */
  lemma {:induction false} SecondExponent(y: nat, radix: nat, top: nat, e: int, p: nat, mant0: nat, mant: nat)
    requires radix >= 2 && p >= 1 && e - p + top >= 0 && y >= Grid(radix, top, e - 1)
    requires Grid(radix, top, e - p) > 0 && mant0 == RoundDiv(y, Grid(radix, top, e - p), RNDN) && mant0 >= Pow(radix,
        p)
    requires Grid(radix, top, e + 1 - p) > 0 && mant == RoundDiv(y, Grid(radix, top, e + 1 - p), RNDN)
    ensures var v := mant * Grid(radix, top, e + 1 - p);
      Best(y, v, radix, top, e, p) || Best(y, v, radix, top, e + 1, p)
  {
    hide Grid, Pow, RoundDiv;
    var q, q1 := Grid(radix, top, e - p), Grid(radix, top, e + 1 - p);
    GridUp(radix, top, e - p, 1);
    PowOne(radix);
    GridUp(radix, top, e - p, p);
    if y >= Grid(radix, top, e) {
      FirstExponent(y, radix, top, e + 1, p, mant);
    } else {
      var top0 := Pow(radix, p);
      RoundHalfEven(y, q);
      RoundedUp(y, q, top0, mant0);
      GridUp(radix, top, e + 1 - p, p - 1);
      var k := Pow(radix, p - 1);
      MulLe(q, 2, radix);
      assert q1 * k == top0 * q;
      RoundIff(y, q1, k);
      assert mant == k;
      assert IsMultiple(mant * q1, q, top0);
    }
  }

  /** What is below top0 * q but rounds to at least top0 is within half a unit of top0 * q. */
  lemma {:induction false} RoundedUp(y: nat, q: nat, top0: nat, mant0: nat)
    requires q > 0 && y < top0 * q && mant0 >= top0 && HalfEven(y, q, mant0)
    ensures 2 * Abs(top0 * q - y) <= q
  {
    MulLe(q, top0, mant0);
  }

  /** The second exponent always suffices. */
  lemma {:induction false} SecondSuffices(y: nat, radix: nat, top: nat, e: int, p: nat, mant: nat)
    requires radix >= 2 && p >= 1 && e - p + top >= 0 && y < 2 * Grid(radix, top, e)
    requires radix == 2 ==> y < Grid(radix, top, e)
    requires Grid(radix, top, e + 1 - p) > 0 && mant == RoundDiv(y, Grid(radix, top, e + 1 - p), RNDN)
    ensures mant < Pow(radix, p)
  {
    hide Grid, Pow, RoundDiv;
    var q1, k := Grid(radix, top, e + 1 - p), Pow(radix, p - 1);
    GridUp(radix, top, e + 1 - p, p - 1);
    RoundHalfEven(y, q1);
    GridPos(radix, top, e);
    PowPos(radix, p - 1);
    PowNext(radix, p);
    NotTooLarge(y, q1, k, radix, mant);
  }

  lemma {:induction false} NotTooLarge(y: int, q: int, k: int, radix: int, mant: int)
    requires q > 0 && k >= 1 && radix >= 2 && y < 2 * (k * q) && (radix == 2 ==> y < k * q) && HalfEven(y, q, mant)
    ensures mant < radix * k
  {
    hide HalfEven;
    MulLe(q, 1, k);
    if radix == 2 {
      assert q * (2 * k) == 2 * (k * q);
      NotAtLeast(y, q, mant, 2 * k);
    } else {
      assert q * (3 * k) == 3 * (k * q);
      NotAtLeast(y, q, mant, 3 * k);
      MulLe(k, 3, radix);
    }
  }

  lemma {:induction false} NotAtLeast(y: int, q: int, mant: int, least: int)
    requires q > 0 && HalfEven(y, q, mant) && 2 * (q * least) > 2 * y + q
    ensures mant < least
  {
    if mant >= least {
      MulLe(q, least, mant);
    }
  }
}
