/** Why js_dtoa may print integers below 2^53 without a search: it would end with the same digits. */
module FastIntegers {
  import opened Powers
  import opened Rounding
  import opened ScaledRounding
  import opened FloatSpec
  import opened Reading
  import opened ShortestDigits
  import opened FreeDigits
  import opened MinimalDigits
  import opened FreeFormatSearch

  /** The double m * 2^(e - 53) is the integer mant * radix^t, and mant has p digits, the last of which is not zero. */
  ghost predicate IntegerWith(m: nat, e: int, radix: nat, mant: nat, t: nat, p: nat) {
    && IsDouble(m, e) && 1 <= e <= 53 && radix >= 2 && p >= 1
    && Pow(radix, p - 1) <= mant < Pow(radix, p) && mant > 0 && mant % radix != 0
    && m == (mant * Pow(radix, t)) * Pow(2, 53 - e)
  }

  lemma {:induction false} IntegerBig(m: nat, e: int, radix: nat, mant: nat, t: nat, p: nat)
    requires IntegerWith(m, e, radix, mant, t, p)
    ensures e >= -1073 && Big(m, e) == (mant * Pow(radix, t)) * Pow(2, 1200)
  {
    hide Pow;
    PowAdd(2, 53 - e, 1147 + e);
    MulAssoc(mant * Pow(radix, t), Pow(2, 53 - e), Pow(2, 1147 + e));
  }

  lemma {:induction false} IntegerOnGrid(m: nat, e: int, radix: nat, mant: nat, t: nat, p: nat, top: nat)
    requires IntegerWith(m, e, radix, mant, t, p)
    ensures e >= -1073 && OnGrid(m, e, radix, top) == mant * Grid(radix, top, t)
  {
    IntegerBig(m, e, radix, mant, t, p);
    hide Pow, Big;
    PowAdd(radix, t, top);
    Gather(mant, Pow(radix, t), Pow(2, 1200), Pow(radix, top));
  }

  lemma {:induction false} Gather(k: int, a: int, b: int, c: int)
    ensures ((k * a) * b) * c == k * ((a * c) * b)
  {
    MulAssoc(k * a, b, c);
    Swap4(k, a, b, c);
    assert (k * a) * (b * c) == k * (a * (b * c)) by { MulAssoc(k, a, b * c); }
    assert a * (b * c) == (a * c) * b by { MulAssoc(a, c, b); assert b * c == c * b; }
  }

  lemma {:induction false} GridOrder(radix: nat, top: nat, i: int, j: int)
    requires radix >= 2 && i + top >= 0 && i <= j
    ensures Grid(radix, top, i) <= Grid(radix, top, j)
  {
    hide Pow, Grid;
    GridUp(radix, top, i, j - i);
    GridPos(radix, top, i);
    PowPos(radix, j - i);
    MulLe(Grid(radix, top, i), 1, Pow(radix, j - i));
  }

  lemma {:induction false} IntegerExponent(m: nat, e: int, radix: nat, mant: nat, t: nat, p: nat)
    requires IntegerWith(m, e, radix, mant, t, p)
    ensures DigitExponent(m, e, radix) == p + t
  {
    var ex := DigitExponent(m, e, radix);
    var top: nat := Abs(ex) + 2;
    IntegerOnGrid(m, e, radix, mant, t, p, top);
    hide Pow, Grid, OnGrid, IsDouble, DigitExponent;
    ExponentOnGrid(m, e, radix, top);
    GridPos(radix, top, t);
    GridUp(radix, top, t, p);
    GridUp(radix, top, t, p - 1);
    MulLe(Grid(radix, top, t), Pow(radix, p - 1), mant);
    MulLt(Grid(radix, top, t), mant, Pow(radix, p));
    if ex < p + t {
      GridOrder(radix, top, ex, p + t - 1);
    } else if ex > p + t {
      GridOrder(radix, top, p + t, ex - 1);
    }
  }

  /** With p digits or more, the integer is its own nearest number. */
  lemma {:induction false} IntegerNearest(m: nat, e: int, radix: nat, mant: nat, t: nat, p: nat, q: nat)
    requires IntegerWith(m, e, radix, mant, t, p) && q >= p
    ensures SameNumber(radix, mant, t, NearestDigits(m, e, radix, q), DigitExponent(m, e, radix) - q)
    ensures NearestReads(m, e, radix, q)
  {
    IntegerExponent(m, e, radix, mant, t, p);
    var top := q;
    IntegerOnGrid(m, e, radix, mant, t, p, top);
    hide Pow, Grid, IsDouble, DigitExponent, NearestDigits, HalfEven, RoundDiv, SameNumber, DigitsRead, OnGrid;
    var ex, y := p + t, OnGrid(m, e, radix, top);
    var u, j, a := Grid(radix, top, ex - q), mant * Pow(radix, q - p), NearestDigits(m, e, radix, q);
    NearestOnGrid(m, e, radix, top, q);
    GridUp(radix, top, ex - q, q - p);
    MulAssoc(mant, Pow(radix, q - p), u);
    NearMultiple(y, u, j);
    GridSame(radix, top, mant, t, a, ex - q);
    assert Distance(m, e, radix, top, a, ex - q) == 0;
    CloseDigits(m, e, radix, top, a, ex - q);
  }

  /** Only the integer itself is an integer that reads as it. */
  lemma {:induction false} IntegerReads(m: nat, e: int, radix: nat, mant: nat, t: nat, p: nat, n: nat)
    requires IntegerWith(m, e, radix, mant, t, p) && n > 0 && Reads(n, 1, m, e)
    ensures n == mant * Pow(radix, t)
  {
    IntegerBig(m, e, radix, mant, t, p);
    hide Pow, Reads, Units, Big;
    var v, g := mant * Pow(radix, t), Quarter(1, e);
    ReadsIff(n, 1, m, e);
    BigUnits(1, m, e);
    FourQuarters(1, e);
    PowGrows(2, 1199 + Ulp(e), 1199);
    PowNext(2, 1200);
    PowPos(2, 1199);
    Apart(n, v, Pow(2, 1200), 2 * g);
  }

  lemma {:induction false} Apart(n: int, v: int, w: int, b: int)
    requires Abs(n * w - v * w) <= b < w
    ensures n == v
  {
    if n != v {
      Distinct(n, v, w);
    }
  }

  lemma {:induction false} Distinct(n: int, v: int, w: int)
    requires n != v && w > 0
    ensures Abs(n * w - v * w) >= w
  {
    if n < v {
      MulLe(w, n + 1, v);
      assert (n + 1) * w == n * w + w;
    } else {
      MulLe(w, v + 1, n);
      assert (v + 1) * w == v * w + w;
    }
  }

  /** With fewer digits it is not. */
  lemma {:induction false} IntegerNeeds(m: nat, e: int, radix: nat, mant: nat, t: nat, p: nat)
    requires IntegerWith(m, e, radix, mant, t, p) && p > 1
    ensures !NearestReads(m, e, radix, p - 1)
  {
    IntegerExponent(m, e, radix, mant, t, p);
    hide Pow, Grid, IsDouble, DigitExponent, NearestDigits, HalfEven, RoundDiv, OnGrid, Reads, Num, Den;
    NearestOnGrid(m, e, radix, p, p - 1);
    var k := NearestDigits(m, e, radix, p - 1);
    if NearestReads(m, e, radix, p - 1) {
      WholeNumber(k, radix, t + 1);
      PowPos(radix, t + 1);
      MulPos(k, Pow(radix, t + 1));
      IntegerReads(m, e, radix, mant, t, p, k * Pow(radix, t + 1));
      NotMultiple(mant, radix, t, k);
    }
  }

  lemma {:induction false} WholeNumber(k: nat, radix: nat, t: nat)
    ensures Num(k, 0, radix, t) == k * Pow(radix, t) && Den(0, radix, t) == 1
  {
    PowOne(2);
    PowOne(radix);
  }

  lemma {:induction false} NotMultiple(mant: nat, radix: nat, t: nat, k: nat)
    requires radix >= 2 && mant % radix != 0
    ensures k * Pow(radix, t + 1) != mant * Pow(radix, t)
  {
    hide Pow;
    if k * Pow(radix, t + 1) == mant * Pow(radix, t) {
      PowNext(radix, t + 1);
      PowPos(radix, t);
      MulAssoc(k, radix, Pow(radix, t));
      Compare(mant, k * radix, Pow(radix, t));
      DivUnique(mant, radix, k, 0);
    }
  }

  /** The search would end with the digits of the integer. */
  lemma {:induction false} IntegerSearch(m: nat, e: int, radix: nat, mant: nat, t: nat, p: nat, pMax: nat)
    requires IntegerWith(m, e, radix, mant, t, p) && EnoughDigits(radix, pMax)
    ensures SearchEnds(m, e, radix, pMax, p)
    ensures SameNumber(radix, mant, t, NearestDigits(m, e, radix, p), DigitExponent(m, e, radix) - p)
  {
    assert p <= pMax by { IntegerFits(m, e, radix, mant, t, p, pMax); }
    hide Pow, IntegerWith, EnoughDigits, NearestReads, SameNumber, NearestDigits, DigitExponent;
    IntegerNearest(m, e, radix, mant, t, p, p);
    forall q | p <= q < pMax ensures NearestReads(m, e, radix, q) {
      IntegerNearest(m, e, radix, mant, t, p, q);
    }
    if p > 1 {
      IntegerNeeds(m, e, radix, mant, t, p);
    }
  }

  lemma {:induction false} IntegerFits(m: nat, e: int, radix: nat, mant: nat, t: nat, p: nat, pMax: nat)
    requires IntegerWith(m, e, radix, mant, t, p) && EnoughDigits(radix, pMax)
    ensures p <= pMax
  {
    hide Pow;
    PowPos(radix, t);
    PowPos(2, 53 - e);
    MulLe(mant, 1, Pow(radix, t));
    MulLe(mant * Pow(radix, t), 1, Pow(2, 53 - e));
    if p > pMax {
      PowGrows(radix, pMax - 1, p - 1);
    }
  }
}
