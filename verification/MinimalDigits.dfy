/** How many digits a double needs, and how many the search of js_dtoa settles for. The search rounds the double to
    fewer and fewer digits, and stops when the rounded number does not read back. */
module MinimalDigits {
  import opened Powers
  import opened Rounding
  import opened ScaledRounding
  import opened FloatSpec
  import opened Reading
  import opened ShortestDigits
  import opened FreeDigits

  /** The exponent of the double x in the radix: radix^(ex - 1) <= x < radix^ex. */
  function DigitExponent(m: nat, e: int, radix: nat): (ex: int)
    requires radix >= 2
  {
    var e0 := 1 + MulLog2Radix(e - 1, radix);
    if Num(m, e - 53, radix, -e0) < Den(e - 53, radix, -e0) then e0 else e0 + 1
  }

  /** The double rounded to q digits: NearestDigits * radix^(DigitExponent - q). */
  function NearestDigits(m: nat, e: int, radix: nat, q: nat): (k: nat)
    requires radix >= 2
  {
    var f := q - DigitExponent(m, e, radix);
    DenPos(e - 53, radix, f);
    RoundDiv(Num(m, e - 53, radix, f), Den(e - 53, radix, f), RNDN)
  }

  /** The number of q digits nearest to the double reads back. */
  ghost predicate NearestReads(m: nat, e: int, radix: nat, q: nat)
    requires radix >= 2
  {
    DigitsRead(radix, NearestDigits(m, e, radix, q), DigitExponent(m, e, radix) - q, m, e)
  }

  /** The number of q digits after the nearest one reads back. */
  ghost predicate NextReads(m: nat, e: int, radix: nat, q: nat)
    requires radix >= 2
  {
    DigitsRead(radix, NearestDigits(m, e, radix, q) + 1, DigitExponent(m, e, radix) - q, m, e)
  }

  /** No digits with fewer than p digits read back. */
  ghost predicate Shortest(m: nat, e: int, radix: nat, p: nat)
    requires p >= 1
  {
    forall k: nat, t: int :: 0 < k < Pow(radix, p - 1) ==> !DigitsRead(radix, k, t, m, e)
  }

  /** Where the search ends: from p digits on the nearest numbers read back, with one digit less the nearest one does
      not. */
  ghost predicate SearchEnds(m: nat, e: int, radix: nat, pMax: nat, p: nat)
    requires radix >= 2
  {
    && 1 <= p <= pMax && (p > 1 ==> !NearestReads(m, e, radix, p - 1))
    && forall q :: p <= q < pMax ==> NearestReads(m, e, radix, q)
  }

  /** The exponent, on the grid. */
  lemma {:induction false} ExponentOnGrid(m: nat, e: int, radix: nat, top: nat)
    requires IsDouble(m, e) && radix >= 2
    requires var ex := DigitExponent(m, e, radix); ex - 2 + top >= 0
    ensures var ex := DigitExponent(m, e, radix);
      Grid(radix, top, ex - 1) <= OnGrid(m, e, radix, top) < Grid(radix, top, ex)
    ensures var e0 := 1 + MulLog2Radix(e - 1, radix);
      FloorLogs(radix, e - 1, e0 - 1) && e0 <= DigitExponent(m, e, radix) <= e0 + 1
  {
    DoubleBounds(m, e);
    hide Pow, Num, Den, Grid, OnGrid, IsDouble, FloorLogs, MulLog2Radix;
    var e0 := 1 + MulLog2Radix(e - 1, radix);
    MulLog2RadixMeaning(e - 1, radix);
    EstimateBounds(m, e, radix, top, e0);
    BelowPower(m, e, radix, top, e0);
    GridUp(radix, top, e0, 1);
    PowOne(radix);
    GridPos(radix, top, e0);
    MulLe(Grid(radix, top, e0), 2, radix);
  }

  /** The comparison with a power of the radix, on the grid. */
  lemma {:induction false} BelowPower(m: nat, e: int, radix: nat, top: nat, e0: int)
    requires IsDouble(m, e) && radix >= 2 && e0 + top >= 0 && e >= -1073
    ensures Num(m, e - 53, radix, -e0) < Den(e - 53, radix, -e0) <==> OnGrid(m, e, radix, top) < Grid(radix, top, e0)
  {
    hide Pow, IsDouble;
    DenPos(e - 53, radix, -e0);
    GridPos(radix, top, e0);
    var a, b, c, x := Pow(2, Plus(e - 53)), Pow(2, 1200), Pow(2, 1147 + e), Pow(2, Minus(e - 53));
    var r, s, t, u := Pow(radix, Plus(-e0)), Pow(radix, top + e0), Pow(radix, top), Pow(radix, Minus(-e0));
    PowAdd(2, Plus(e - 53), 1200);
    PowAdd(2, 1147 + e, Minus(e - 53));
    PowAdd(radix, Plus(-e0), top + e0);
    PowAdd(radix, top, Minus(-e0));
    assert a * b == c * x && r * s == t * u;
    GridCross(m, a, b, c, x, r, s, t, u);
    SameOrder(Num(m, e - 53, radix, -e0), Den(e - 53, radix, -e0), OnGrid(m, e, radix, top), Grid(radix, top, e0));
  }

  lemma {:induction false} SameOrder(n: int, d: int, n1: int, d1: int)
    requires d > 0 && d1 > 0 && n * d1 == n1 * d
    ensures n < d <==> n1 < d1
  {
    if n < d {
      MulLt(d1, n, d);
      Compare(n1, d1, d);
    } else {
      MulLe(d1, d, n);
      Compare(d1, n1, d);
    }
  }

  /** The nearest number of q digits, on the grid. */
  lemma {:induction false} NearestOnGrid(m: nat, e: int, radix: nat, top: nat, q: nat)
    requires IsDouble(m, e) && radix >= 2 && q >= 1
    requires var ex := DigitExponent(m, e, radix); ex - q + top >= 0 && ex - 2 + top >= 0
    ensures var ex := DigitExponent(m, e, radix); var u := Grid(radix, top, ex - q);
      && u > 0 && NearestDigits(m, e, radix, q) == RoundDiv(OnGrid(m, e, radix, top), u, RNDN)
      && HalfEven(OnGrid(m, e, radix, top), u, NearestDigits(m, e, radix, q))
      && 1 <= NearestDigits(m, e, radix, q) <= Pow(radix, q)
  {
    DoubleBounds(m, e);
    hide Pow, Num, Den, Grid, OnGrid, IsDouble, RoundDiv, DigitExponent, HalfEven;
    var ex := DigitExponent(m, e, radix);
    var y, u := OnGrid(m, e, radix, top), Grid(radix, top, ex - q);
    ExponentOnGrid(m, e, radix, top);
    GridRound(m, e, radix, q - ex, top);
    assert -(q - ex) == ex - q;
    RoundHalfEven(y, u);
    GridUp(radix, top, ex - q, q);
    GridUp(radix, top, ex - q, q - 1);
    PowPos(radix, q - 1);
    MulLe(u, 1, Pow(radix, q - 1));
    RoundLower(y, u, 1, RNDN);
    RoundUpper(y, u, Pow(radix, q), RNDN);
  }

  /** Two ways to write a number read alike. */
  lemma {:induction false} SameReads(m: nat, e: int, radix: nat, top: nat, k: nat, t: int, k1: nat, t1: int)
    requires IsDouble(m, e) && radix >= 2 && k > 0 && k1 > 0 && t + top >= 0 && t1 + top >= 0
    requires k * Grid(radix, top, t) == k1 * Grid(radix, top, t1)
    ensures DigitsRead(radix, k, t, m, e) <==> DigitsRead(radix, k1, t1, m, e)
  {
    DoubleBounds(m, e);
    hide Pow, IsDouble, Grid, OnGrid, DigitsRead, Dense;
    if DigitsRead(radix, k, t, m, e) {
      CloserDigits(m, e, radix, top, k, t, k1, t1);
    }
    if DigitsRead(radix, k1, t1, m, e) {
      CloserDigits(m, e, radix, top, k1, t1, k, t);
    }
  }

  /** A number of q digits is a multiple of the last place, or below the first one. */
  lemma {:induction false} DigitsOnGrid(radix: nat, top: nat, ex: int, q: nat, k: nat, t: int) returns (j: nat)
    requires radix >= 2 && q >= 1 && ex - q + top >= 0 && t + top >= 0 && k < Pow(radix, q)
    ensures var w, v := k * Grid(radix, top, t), j * Grid(radix, top, ex - q);
      w == v || (w <= v && v == Grid(radix, top, ex - 1))
  {
    hide Grid, Pow;
    j := Pow(radix, q - 1);
    GridUp(radix, top, ex - q, q - 1);
    if t >= ex - q {
      GridUp(radix, top, ex - q, t - (ex - q));
      j := k * Pow(radix, t - (ex - q));
      MulAssoc(k, Pow(radix, t - (ex - q)), Grid(radix, top, ex - q));
    } else {
      GridUp(radix, top, t, q);
      GridUp(radix, top, q + t, ex - 1 - (q + t));
      PowPos(radix, ex - 1 - (q + t));
      GridPos(radix, top, q + t);
      GridPos(radix, top, t);
      MulLe(Grid(radix, top, q + t), 1, Pow(radix, ex - 1 - (q + t)));
      MulLe(Grid(radix, top, t), k, Pow(radix, q));
    }
  }

  /** CloserDigits, for values on the grid. */
  lemma {:induction false} CloserValue(m: nat, e: int, radix: nat, top: nat, k: nat, t: int, w: int, k1: nat, t1: int,
      w1: int, y: int)
    requires IsDouble(m, e) && radix >= 2 && k > 0 && k1 > 0 && t + top >= 0 && t1 + top >= 0 && DigitsRead(radix, k,
        t, m, e)
    requires w == k * Grid(radix, top, t) && w1 == k1 * Grid(radix, top, t1) && y == OnGrid(m, e, radix, top)
    requires Abs(w1 - y) <= Abs(w - y) && (w <= y || w1 >= y)
    ensures DigitsRead(radix, k1, t1, m, e)
  {
    DoubleBounds(m, e);
    hide Pow, IsDouble, Grid, OnGrid, DigitsRead, Dense;
    CloserDigits(m, e, radix, top, k, t, k1, t1);
  }

  /** Of a multiple a of u nearest to y and the next one, one is a better choice than the multiple j: it is not farther
      from y, and above y whenever j is. */
  lemma {:induction false} Candidates(y: int, u: int, a: int, j: int)
    requires u > 0 && 2 * Abs(a * u - y) <= u
    ensures j * u <= y || j <= a ==> Abs(a * u - y) <= Abs(j * u - y) && (j * u <= y || a * u >= y)
    ensures j * u > y && j > a ==> Abs((a + 1) * u - y) <= Abs(j * u - y) && (a + 1) * u >= y
  {
    NearestMultiple(y, u, a, j);
    assert (a + 1) * u == a * u + u;
    if j <= a {
      MulLe(u, j, a);
    } else {
      MulLe(u, a + 1, j);
    }
  }

  /** A number w that reads back, at the multiple j of u or below it and the double: one of two candidates does too. */
  lemma {:induction false} CandidateReads(m: nat, e: int, radix: nat, top: nat, k: nat, t: int, w: int, a: nat,
      t1: int, u: int, j: int, y: int)
    requires IsDouble(m, e) && radix >= 2 && k > 0 && a > 0 && t + top >= 0 && t1 + top >= 0 && DigitsRead(radix, k, t,
        m, e)
    requires w == k * Grid(radix, top, t) && u == Grid(radix, top, t1) > 0 && y == OnGrid(m, e, radix, top)
    requires 2 * Abs(a * u - y) <= u && (w == j * u || w <= j * u <= y)
    ensures DigitsRead(radix, a, t1, m, e) || DigitsRead(radix, a + 1, t1, m, e)
  {
    hide Pow, IsDouble, Grid, OnGrid, DigitsRead;
    var x, v, v1 := j * u, a * u, (a + 1) * u;
    Candidates(y, u, a, j);
    if x <= y || j <= a {
      CloserValue(m, e, radix, top, k, t, w, a, t1, v, y);
    } else {
      CloserValue(m, e, radix, top, k, t, w, a + 1, t1, v1, y);
    }
  }

  /** A number of q digits that reads back, and the two candidates of the last place. */
  lemma {:induction false} OneReads(m: nat, e: int, radix: nat, q: nat, k: nat, t: int)
    requires IsDouble(m, e) && radix >= 2 && q >= 1 && 0 < k < Pow(radix, q) && DigitsRead(radix, k, t, m, e)
    ensures NearestReads(m, e, radix, q) || NextReads(m, e, radix, q)
  {
    hide Pow, IsDouble, Grid, OnGrid, DigitsRead, DigitExponent, NearestDigits, HalfEven, RoundDiv;
    DoubleBounds(m, e);
    var ex := DigitExponent(m, e, radix);
    var top: nat := Abs(ex) + q + Abs(t) + 2;
    var y, u, a := OnGrid(m, e, radix, top), Grid(radix, top, ex - q), NearestDigits(m, e, radix, q);
    ExponentOnGrid(m, e, radix, top);
    NearestOnGrid(m, e, radix, top, q);
    HalfUnit(y, u, a);
    var j := DigitsOnGrid(radix, top, ex, q, k, t);
    CandidateReads(m, e, radix, top, k, t, k * Grid(radix, top, t), a, ex - q, u, j, y);
  }

  lemma {:induction false} HalfUnit(y: nat, u: nat, a: nat)
    requires u > 0 && HalfEven(y, u, a)
    ensures 2 * Abs(a * u - y) <= u
  {
    assert a * u == u * a;
  }

  /** If the number after the nearest one reads back, digits with as few digits do, or the nearest one does. */
  lemma {:induction false} NextIsShort(m: nat, e: int, radix: nat, q: nat, p: nat)
    requires IsDouble(m, e) && radix >= 2 && 1 <= q < p && NextReads(m, e, radix, q) && Shortest(m, e, radix, p)
    ensures NearestReads(m, e, radix, q)
  {
    hide Pow, IsDouble, Grid, OnGrid, DigitsRead, Dense, DigitExponent, NearestDigits, HalfEven, RoundDiv, Shortest,
        Distance;
    DoubleBounds(m, e);
    var ex, a := DigitExponent(m, e, radix), NearestDigits(m, e, radix, q);
    var top: nat := Abs(ex) + q + 2;
    var next: nat := a + 1;
    NearestOnGrid(m, e, radix, top, q);
    PowGrows(radix, q, p - 1);
    if a == Pow(radix, q) {
      RoundedUpReads(m, e, radix, top, q);
    } else if next == Pow(radix, q) {
      PowerReads(m, e, radix, ex, q);
      PowGrows(radix, 1, q);
      PowOne(radix);
      ShortestNot(m, e, radix, p, 1, ex);
    } else {
      ShortestNot(m, e, radix, p, next, ex - q);
    }
  }

  /** A power of the radix is a number of one digit. */
  lemma {:induction false} PowerReads(m: nat, e: int, radix: nat, ex: int, q: nat)
    requires IsDouble(m, e) && radix >= 2 && DigitsRead(radix, Pow(radix, q), ex - q, m, e)
    ensures DigitsRead(radix, 1, ex, m, e)
  {
    hide Pow, IsDouble, Grid, DigitsRead;
    var top: nat := Abs(ex) + q;
    PowPos(radix, q);
    GridUp(radix, top, ex - q, q);
    assert ex - q + q == ex && 1 * Grid(radix, top, ex) == Grid(radix, top, ex);
    SameReads(m, e, radix, top, Pow(radix, q), ex - q, 1, ex);
  }

  lemma {:induction false} ShortestNot(m: nat, e: int, radix: nat, p: nat, k: nat, t: int)
    requires p >= 1 && Shortest(m, e, radix, p) && 0 < k < Pow(radix, p - 1)
    ensures !DigitsRead(radix, k, t, m, e)
  {
  }

  /** A nearest number that is a power of the radix is above the double, and so is the next one. */
  lemma {:induction false} RoundedUpReads(m: nat, e: int, radix: nat, top: nat, q: nat)
    requires IsDouble(m, e) && radix >= 2 && q >= 1 && NextReads(m, e, radix, q)
    requires var ex := DigitExponent(m, e, radix); ex - q + top >= 0 && ex - 2 + top >= 0
    requires NearestDigits(m, e, radix, q) == Pow(radix, q)
    ensures NearestReads(m, e, radix, q)
  {
    hide Pow, IsDouble, Grid, OnGrid, DigitsRead, Dense, DigitExponent, NearestDigits;
    DoubleBounds(m, e);
    var ex, a := DigitExponent(m, e, radix), NearestDigits(m, e, radix, q);
    ExponentOnGrid(m, e, radix, top);
    GridPos(radix, top, ex - q);
    PowPos(radix, q);
    GridUp(radix, top, ex - q, q);
    assert ex - q + q == ex;
    Between(m, e, radix, top, a + 1, a, ex - q);
  }

  /** A number between the double and one above it that reads back, reads back. */
  lemma {:induction false} Between(m: nat, e: int, radix: nat, top: nat, k: nat, k1: nat, t: int)
    requires IsDouble(m, e) && radix > 0 && 0 < k1 <= k && t + top >= 0 && DigitsRead(radix, k, t, m, e)
    requires k1 * Grid(radix, top, t) >= OnGrid(m, e, radix, top)
    ensures DigitsRead(radix, k1, t, m, e)
  {
    DoubleBounds(m, e);
    hide Pow, IsDouble, Grid, OnGrid, DigitsRead, Dense;
    GridPos(radix, top, t);
    MulLe(Grid(radix, top, t), k1, k);
    CloserDigits(m, e, radix, top, k, t, k1, t);
  }

  /** The search ends with the fewest digits exactly when no number of digits fails only because the nearest number does
      not read back although the next one does. */
  lemma {:induction false} ShortestIff(m: nat, e: int, radix: nat, pMax: nat, p: nat)
    requires IsDouble(m, e) && radix >= 2 && SearchEnds(m, e, radix, pMax, p)
    ensures Shortest(m, e, radix, p) <==>
      forall q :: 1 <= q < pMax && NextReads(m, e, radix, q) ==> NearestReads(m, e, radix, q)
  {
    hide Pow, IsDouble, NearestReads, NextReads, DigitsRead, Shortest;
    if Shortest(m, e, radix, p) {
      forall q | 1 <= q < pMax && NextReads(m, e, radix, q) ensures NearestReads(m, e, radix, q) {
        if q < p {
          NextIsShort(m, e, radix, q, p);
        }
      }
    } else {
      var k, t := AShorterOne(m, e, radix, p);
      OneReads(m, e, radix, p - 1, k, t);
    }
  }

  lemma {:induction false} AShorterOne(m: nat, e: int, radix: nat, p: nat) returns (k: nat, t: int)
    requires p >= 1 && !Shortest(m, e, radix, p)
    ensures p > 1 && 0 < k < Pow(radix, p - 1) && DigitsRead(radix, k, t, m, e)
  {
    PowOne(radix);
    hide DigitsRead;
    k, t :| 0 < k < Pow(radix, p - 1) && DigitsRead(radix, k, t, m, e);
  }

  /** When the doubles on both sides are equally dense, the nearest number reads back if the next one does. */
  lemma {:induction false} EvenlySpaced(m: nat, e: int, radix: nat, pMax: nat, p: nat)
    requires IsDouble(m, e) && radix >= 2 && SearchEnds(m, e, radix, pMax, p) && !Dense(m, e)
    ensures Shortest(m, e, radix, p)
  {
    DoubleBounds(m, e);
    hide Pow, IsDouble, Grid, OnGrid, DigitsRead, Dense, DigitExponent, NearestDigits, HalfEven, RoundDiv;
    forall q | 1 <= q < pMax && NextReads(m, e, radix, q) ensures NearestReads(m, e, radix, q) {
      var ex, a := DigitExponent(m, e, radix), NearestDigits(m, e, radix, q);
      var top: nat := Abs(ex) + q + 2;
      NearestOnGrid(m, e, radix, top, q);
      HalfUnit(OnGrid(m, e, radix, top), Grid(radix, top, ex - q), a);
      NearestMultiple(OnGrid(m, e, radix, top), Grid(radix, top, ex - q), a, a + 1);
      CloserDigits(m, e, radix, top, a + 1, ex - q, a, ex - q);
    }
    ShortestIff(m, e, radix, pMax, p);
  }

  /** What one round of the search finds is the nearest number of p digits. */
  lemma {:induction false} FoundNearest(m: nat, e: int, radix: nat, e0: int, p: nat, mant: nat, e1: int, top: nat)
    requires IsDouble(m, e) && radix >= 2 && p >= 1 && e0 == 1 + MulLog2Radix(e - 1, radix)
    requires Found(m, e, radix, e0, p, mant, e1) && e0 - 2 - p + top >= 0
    ensures var ex := DigitExponent(m, e, radix);
      e1 >= ex >= e0 && mant * Grid(radix, top, e1 - p) == NearestDigits(m, e, radix, p) * Grid(radix, top, ex - p)
  {
    DoubleBounds(m, e);
    hide Pow, Num, Den, RoundDiv, Grid, OnGrid, IsDouble, FloorLogs, MulLog2Radix, DigitExponent, NearestDigits,
        HalfEven;
    var ex, y := DigitExponent(m, e, radix), OnGrid(m, e, radix, top);
    ExponentAbove(m, e, radix);
    ExponentOnGrid(m, e, radix, top);
    NearestOnGrid(m, e, radix, top, p);
    GridRound(m, e, radix, p - e0, top);
    GridRound(m, e, radix, p - e1, top);
    assert -(p - e0) == e0 - p && -(p - e1) == e1 - p;
    var u, a := Grid(radix, top, e0 - p), RoundDiv(y, Grid(radix, top, e0 - p), RNDN);
    GridUp(radix, top, e0 - p, p);
    if ex == e0 + 1 {
      RoundLower(y, u, Pow(radix, p), RNDN);
    } else if e1 == e0 + 1 {
      assert a == Pow(radix, p);
      HalfUnit(y, u, a);
      RoundedToPower(y, radix, top, e0, p, mant);
    }
  }

  lemma {:induction false} ExponentAbove(m: nat, e: int, radix: nat)
    requires radix >= 2
    ensures var e0 := 1 + MulLog2Radix(e - 1, radix); e0 <= DigitExponent(m, e, radix) <= e0 + 1
  {
    hide MulLog2Radix, Num, Den;
  }

  /** A double that rounds up to a power of the radix with p digits at one exponent rounds to it at the next one too. */
  lemma {:induction false} RoundedToPower(y: nat, radix: nat, top: nat, e0: int, p: nat, mant: nat)
    requires radix >= 2 && p >= 1 && e0 - p + top >= 0
    requires 2 * Abs(Pow(radix, p) * Grid(radix, top, e0 - p) - y) <= Grid(radix, top, e0 - p)
    requires Grid(radix, top, e0 + 1 - p) > 0 && mant == RoundDiv(y, Grid(radix, top, e0 + 1 - p), RNDN)
    ensures mant * Grid(radix, top, e0 + 1 - p) == Pow(radix, p) * Grid(radix, top, e0 - p)
  {
    hide Grid, Pow, RoundDiv;
    var u, v := Grid(radix, top, e0 - p), Grid(radix, top, e0 + 1 - p);
    GridPos(radix, top, e0 - p);
    GridUp(radix, top, e0 - p, 1);
    PowOne(radix);
    GridUp(radix, top, e0 - p, p);
    GridUp(radix, top, e0 + 1 - p, p - 1);
    MulLe(u, 2, radix);
    NearMultiple(y, v, Pow(radix, p - 1));
  }

  /** What is less than half a unit away is what is rounded to. */
  lemma {:induction false} NearMultiple(y: nat, u: nat, j: nat)
    requires u > 0 && 2 * Abs(j * u - y) < u
    ensures RoundDiv(y, u, RNDN) == j
  {
    hide RoundDiv;
    assert u * j == j * u;
    RoundIff(y, u, j);
  }

  /** With zeros stripped, the number found is still nearest, for every number of digits it has room for. */
  lemma {:induction false} StrippedNearest(m: nat, e: int, radix: nat, e0: int, p: nat, mant0: nat, e1: int, mant: nat,
      p1: nat, q: nat, top: nat)
    requires IsDouble(m, e) && radix >= 2 && e0 == 1 + MulLog2Radix(e - 1, radix) && 1 <= p1 <= q <= p && mant > 0
    requires Found(m, e, radix, e0, p, mant0, e1) && mant0 == mant * Pow(radix, p - p1) && top == Abs(e0) + p + 3
    ensures var ex := DigitExponent(m, e, radix);
      && e0 <= ex <= e0 + 1 && ex - q + top >= 0 && e1 - p1 + top >= 0 && NearestDigits(m, e, radix, q) > 0
      && NearestDigits(m, e, radix, q) * Grid(radix, top, ex - q) == mant * Grid(radix, top, e1 - p1)
  {
    hide Pow, Grid, OnGrid, IsDouble, MulLog2Radix, DigitExponent, NearestDigits, HalfEven, Found, RoundDiv;
    DoubleBounds(m, e);
    var ex := DigitExponent(m, e, radix);
    ExponentAbove(m, e, radix);
    FoundNearest(m, e, radix, e0, p, mant0, e1, top);
    NearestOnGrid(m, e, radix, top, p);
    NearestOnGrid(m, e, radix, top, q);
    GridUp(radix, top, e1 - p, p - p1);
    MulAssoc(mant, Pow(radix, p - p1), Grid(radix, top, e1 - p));
    var y := OnGrid(m, e, radix, top);
    HalfUnit(y, Grid(radix, top, ex - p), NearestDigits(m, e, radix, p));
    if q < p {
      StrippedValue(radix, top, y, ex, q, p, mant, e1 - p1);
    }
  }

  /** The nearest numbers of all the digits that what was found has room for are that number, and read alike. */
  lemma {:induction false} StrippedReads(m: nat, e: int, radix: nat, e0: int, p: nat, mant0: nat, e1: int, mant: nat,
      p1: nat, q: nat)
    requires IsDouble(m, e) && radix >= 2 && e0 == 1 + MulLog2Radix(e - 1, radix) && 1 <= p1 <= q <= p && mant > 0
    requires Found(m, e, radix, e0, p, mant0, e1) && mant0 == mant * Pow(radix, p - p1)
    ensures SameNumber(radix, mant, e1 - p1, NearestDigits(m, e, radix, q), DigitExponent(m, e, radix) - q)
    ensures NearestReads(m, e, radix, q) <==> DigitsRead(radix, mant, e1 - p1, m, e)
  {
    hide Pow, Grid, IsDouble, MulLog2Radix, DigitExponent, NearestDigits, Found, DigitsRead, SameNumber;
    var ex, top := DigitExponent(m, e, radix), Abs(e0) + p + 3;
    StrippedNearest(m, e, radix, e0, p, mant0, e1, mant, p1, q, top);
    SameReads(m, e, radix, top, mant, e1 - p1, NearestDigits(m, e, radix, q), ex - q);
    GridSame(radix, top, mant, e1 - p1, NearestDigits(m, e, radix, q), ex - q);
  }

  /** mant has p digits, and the last one is not zero. */
  predicate FullDigits(mant: nat, p: nat, radix: nat)
    requires radix > 0
  {
    p >= 1 && Pow(radix, p - 1) <= mant < Pow(radix, p) && mant % radix != 0
  }

  lemma {:induction false} FullPositive(mant: nat, p: nat, radix: nat)
    requires radix >= 2 && FullDigits(mant, p, radix)
    ensures 0 < mant < Pow(radix, p)
  {
    PowPos(radix, p - 1);
  }

  /** Two ways to write a number, by cross multiplication. */
  predicate SameNumber(radix: nat, k: nat, t: int, k1: nat, t1: int) {
    Num(k, 0, radix, t) * Den(0, radix, t1) == Num(k1, 0, radix, t1) * Den(0, radix, t)
  }

  lemma {:induction false} GridSame(radix: nat, top: nat, k: nat, t: int, k1: nat, t1: int)
    requires radix >= 2 && t + top >= 0 && t1 + top >= 0
    requires k * Grid(radix, top, t) == k1 * Grid(radix, top, t1)
    ensures SameNumber(radix, k, t, k1, t1)
  {
    hide Pow;
    PowOne(2);
    PowPos(2, 1200);
    MulAssoc(k, Pow(radix, t + top), Pow(2, 1200));
    MulAssoc(k1, Pow(radix, t1 + top), Pow(2, 1200));
    Compare(k * Pow(radix, t + top), k1 * Pow(radix, t1 + top), Pow(2, 1200));
    RescaleBy(radix, k, k1, t + top, t1 + top, Plus(t) + Minus(t1), Plus(t1) + Minus(t));
    PowAdd(radix, Plus(t), Minus(t1));
    PowAdd(radix, Plus(t1), Minus(t));
    MulAssoc(k, Pow(radix, Plus(t)), Pow(radix, Minus(t1)));
    MulAssoc(k1, Pow(radix, Plus(t1)), Pow(radix, Minus(t)));
  }

  /** A number with room in q digits that is nearest among those of p digits is nearest among those of q digits. */
  lemma {:induction false} StrippedValue(radix: nat, top: nat, y: nat, ex: int, q: nat, p: nat, mant: nat, t: int)
    requires radix >= 2 && q < p && ex - p + top >= 0 && t >= ex - q
    requires 2 * Abs(mant * Grid(radix, top, t) - y) <= Grid(radix, top, ex - p)
    ensures Grid(radix, top, ex - q) > 0
    ensures RoundDiv(y, Grid(radix, top, ex - q), RNDN) * Grid(radix, top, ex - q) == mant * Grid(radix, top, t)
  {
    hide Pow, Grid, RoundDiv;
    var u := Grid(radix, top, ex - q);
    GridUp(radix, top, ex - q, t - (ex - q));
    MulAssoc(mant, Pow(radix, t - (ex - q)), u);
    Coarser(radix, top, ex, q, p);
    NearMultiple(y, u, mant * Pow(radix, t - (ex - q)));
  }

  lemma {:induction false} Coarser(radix: nat, top: nat, ex: int, q: nat, p: nat)
    requires radix >= 2 && q < p && ex - p + top >= 0
    ensures Grid(radix, top, ex - p) < Grid(radix, top, ex - q)
  {
    hide Pow, Grid;
    GridPos(radix, top, ex - p);
    GridUp(radix, top, ex - p, p - q);
    PowGrows(radix, 1, p - q);
    PowOne(radix);
    MulLe(Grid(radix, top, ex - p), 2, Pow(radix, p - q));
  }

  /** Of two numbers of digits, the first is not farther from the double, by cross multiplication. */
  predicate NotFarther(m: nat, e: int, radix: nat, k: nat, t: int, k1: nat, t1: int)
    requires e >= -1073
  {
    var n, d, n1, d1 := Num(k, 0, radix, t), Den(0, radix, t), Num(k1, 0, radix, t1), Den(0, radix, t1);
    d1 * Abs(n * Pow(2, 1200) - d * Big(m, e)) <= d * Abs(n1 * Pow(2, 1200) - d1 * Big(m, e))
  }

  /** No number of p digits is closer to the double. */
  ghost predicate Closest(m: nat, e: int, radix: nat, p: nat, k: nat, t: int)
    requires e >= -1073
  {
    forall k1: nat, t1: int :: k1 < Pow(radix, p) ==> NotFarther(m, e, radix, k, t, k1, t1)
  }

  lemma {:induction false} StrippedClosest(m: nat, e: int, radix: nat, e0: int, p: nat, mant0: nat, e1: int, mant: nat,
      p1: nat)
    requires IsDouble(m, e) && radix >= 2 && e0 == 1 + MulLog2Radix(e - 1, radix) && 1 <= p1 <= p && mant > 0
    requires Found(m, e, radix, e0, p, mant0, e1) && mant0 == mant * Pow(radix, p - p1)
    ensures e >= -1073 && Closest(m, e, radix, p1, mant, e1 - p1)
  {
    DoubleBounds(m, e);
    hide Pow, IsDouble, MulLog2Radix, Found, FloorLogs, NotFarther, Distance;
    MulLog2RadixMeaning(e - 1, radix);
    PowGrows(radix, p1, p);
    var t0 := e1 - p1;
    forall k: nat, t: int | k < Pow(radix, p1) ensures NotFarther(m, e, radix, mant, t0, k, t) {
      var top := Abs(e0) + p + Abs(t) + 2;
      FoundClosest(m, e, radix, e0, p, mant0, e1, top, k, t);
      StrippedDistance(m, e, radix, top, mant, e1 - p, p - p1);
      DistanceNotFarther(m, e, radix, top, mant, t0, k, t);
    }
  }

  lemma {:induction false} DistanceNotFarther(m: nat, e: int, radix: nat, top: nat, k: nat, t: int, k1: nat, t1: int)
    requires e >= -1073 && radix >= 2 && t + top >= 0 && t1 + top >= 0
    requires Distance(m, e, radix, top, k, t) <= Distance(m, e, radix, top, k1, t1)
    ensures NotFarther(m, e, radix, k, t, k1, t1)
  {
    hide Pow, Num, Den, Distance, Big, Grid, OnGrid;
    var n, d, n1, d1 := Num(k, 0, radix, t), Den(0, radix, t), Num(k1, 0, radix, t1), Den(0, radix, t1);
    DenPos(0, radix, t);
    DenPos(0, radix, t1);
    GridDistance(m, e, radix, top, k, t);
    GridDistance(m, e, radix, top, k1, t1);
    PowPos(radix, top);
    CrossDistance(Pow(radix, top), d1, Abs(n1 * Pow(2, 1200) - d1 * Big(m, e)), Distance(m, e, radix, top, k1, t1), d,
                  Abs(n * Pow(2, 1200) - d * Big(m, e)), Distance(m, e, radix, top, k, t));
  }

  /** The nearest number of p digits is a closest one. */
  lemma {:induction false} NearestClosest(m: nat, e: int, radix: nat, p: nat)
    requires IsDouble(m, e) && radix >= 2 && p >= 1
    ensures e >= -1073 && Closest(m, e, radix, p, NearestDigits(m, e, radix, p), DigitExponent(m, e, radix) - p)
  {
    DoubleBounds(m, e);
    hide Pow, IsDouble, NotFarther, DigitExponent, NearestDigits, HalfEven, RoundDiv;
    var t0, a := DigitExponent(m, e, radix) - p, NearestDigits(m, e, radix, p);
    forall k: nat, t: int | k < Pow(radix, p) ensures NotFarther(m, e, radix, a, t0, k, t) {
      var top: nat := Abs(t0 + p) + p + Abs(t) + 2;
      NearestDistance(m, e, radix, p, top, k, t);
      DistanceNotFarther(m, e, radix, top, a, t0, k, t);
    }
  }

  lemma {:induction false} NearestDistance(m: nat, e: int, radix: nat, p: nat, top: nat, k: nat, t: int)
    requires IsDouble(m, e) && radix >= 2 && p >= 1 && e >= -1073 && k < Pow(radix, p)
    requires var ex := DigitExponent(m, e, radix); top == Abs(ex) + p + Abs(t) + 2
    ensures Distance(m, e, radix, top, NearestDigits(m, e, radix, p), DigitExponent(m, e, radix) - p)
         <= Distance(m, e, radix, top, k, t)
  {
    hide Pow, IsDouble, Grid, OnGrid, DigitExponent, NearestDigits, HalfEven, RoundDiv;
    var ex, a := DigitExponent(m, e, radix), NearestDigits(m, e, radix, p);
    var y, u := OnGrid(m, e, radix, top), Grid(radix, top, ex - p);
    ExponentOnGrid(m, e, radix, top);
    NearestOnGrid(m, e, radix, top, p);
    HalfUnit(y, u, a);
    assert IsMultiple(a * u, u, a);
    BestIsClosest(y, a * u, radix, top, ex, p, k, t);
  }

  /** What one round finds has all its digits. */
  lemma {:induction false} FoundFull(m: nat, e: int, radix: nat, e0: int, p: nat, mant: nat, e1: int)
    requires IsDouble(m, e) && radix >= 2 && p >= 1 && e0 == 1 + MulLog2Radix(e - 1, radix)
    requires Found(m, e, radix, e0, p, mant, e1)
    ensures Pow(radix, p - 1) <= mant
  {
    DoubleBounds(m, e);
    hide Pow, IsDouble, Grid, OnGrid, MulLog2Radix, FloorLogs, RoundDiv, Num, Den, HalfEven;
    var top := Abs(e0) + p + 3;
    MulLog2RadixMeaning(e - 1, radix);
    EstimateBounds(m, e, radix, top, e0);
    GridRound(m, e, radix, p - e0, top);
    GridRound(m, e, radix, p - e1, top);
    assert -(p - e0) == e0 - p && -(p - e1) == e1 - p;
    var y, u, v := OnGrid(m, e, radix, top), Grid(radix, top, e0 - p), Grid(radix, top, e1 - p);
    GridUp(radix, top, e0 - p, p - 1);
    if e1 == e0 {
      RoundLower(y, u, Pow(radix, p - 1), RNDN);
    } else {
      GridUp(radix, top, e0 - p, 1);
      PowOne(radix);
      PowNext(radix, p);
      RoundHalfEven(y, u);
      RoundHalfEven(y, v);
      FullAbove(y, u, radix, Pow(radix, p - 1), RoundDiv(y, u, RNDN), mant);
    }
  }

  lemma {:induction false} FullAbove(y: int, u: int, radix: int, k: int, a: int, b: int)
    requires u > 0 && radix >= 2 && k > 0 && a >= radix * k && HalfEven(y, u, a) && HalfEven(y, radix * u, b)
    ensures b >= k
  {
    MulLe(u, radix * k, a);
    MulAssoc(radix, u, k);
    assert (radix * u) * k == u * (radix * k);
    if b < k {
      MulLe(radix * u, b, k - 1);
      assert (radix * u) * (k - 1) == (radix * u) * k - radix * u;
      MulLe(u, 2, radix);
    }
  }

  /** Without its trailing zeros too. */
  lemma {:induction false} StrippedFull(mant0: nat, mant: nat, radix: nat, p: nat, p1: nat)
    requires radix >= 2 && 1 <= p1 <= p && Pow(radix, p - 1) <= mant0 == mant * Pow(radix, p - p1)
    ensures Pow(radix, p1 - 1) <= mant
  {
    hide Pow;
    PowAdd(radix, p1 - 1, p - p1);
    PowPos(radix, p - p1);
    Compare(Pow(radix, p1 - 1), mant, Pow(radix, p - p1));
  }

  /** mant * radix^t is the double rounded to p digits, and a closest number of p digits; mant has p digits, and the
      last one is not zero. */
  ghost predicate Rounded(m: nat, e: int, radix: nat, p: nat, mant: nat, t: int)
    requires radix >= 2
  {
    && e >= -1073 && FullDigits(mant, p, radix)
    && SameNumber(radix, mant, t, NearestDigits(m, e, radix, p), DigitExponent(m, e, radix) - p)
    && Closest(m, e, radix, p, mant, t)
  }
}
