/** Powers, and the facts about integer division that the bignum code rests on. */
module Powers {

  function Pow(b: nat, n: nat): (r: nat) {
    if n == 0 then 1 else b * Pow(b, n - 1)
  }

  lemma {:induction false} PowAdd(b: nat, m: nat, n: nat)
    ensures Pow(b, m + n) == Pow(b, m) * Pow(b, n)
  {
    if m > 0 {
      PowAdd(b, m - 1, n);
      MulAssoc(b, Pow(b, m - 1), Pow(b, n));
    }
  }

  lemma {:induction false} PowOne(b: nat)
    ensures Pow(b, 0) == 1 && Pow(b, 1) == b
  {
    assert Pow(b, 1) == b * Pow(b, 0);
  }

  lemma {:induction false} PowNext(b: nat, n: nat)
    requires n >= 1
    ensures Pow(b, n) == b * Pow(b, n - 1)
  {
  }

  lemma {:induction false} PowPos(b: nat, n: nat)
    requires b > 0
    ensures Pow(b, n) > 0
  {
    if n > 0 {
      PowPos(b, n - 1);
      MulPos(b, Pow(b, n - 1));
    }
  }

  lemma {:induction false} PowGrows(b: nat, m: nat, n: nat)
    requires b > 0 && m <= n
    ensures Pow(b, m) <= Pow(b, n)
  {
    PowAdd(b, m, n - m);
    PowPos(b, n - m);
    MulLe(Pow(b, m), 1, Pow(b, n - m));
  }

  lemma {:induction false} PowStrict(b: nat, m: nat, n: nat)
    requires b > 1 && m < n
    ensures Pow(b, m) < Pow(b, n)
  {
    PowGrows(b, m, n - 1);
    PowPos(b, n - 1);
    MulLe(Pow(b, n - 1), 2, b);
    assert Pow(b, n) == b * Pow(b, n - 1);
  }

  lemma {:induction false} PowMul(a: nat, b: nat, n: nat)
    ensures Pow(a * b, n) == Pow(a, n) * Pow(b, n)
  {
    if n > 0 {
      PowMul(a, b, n - 1);
      var x, y := Pow(a, n - 1), Pow(b, n - 1);
      Swap4(a, b, x, y);
    }
  }

  lemma {:induction false} PowPow(b: nat, m: nat, n: nat)
    ensures Pow(Pow(b, m), n) == Pow(b, m * n)
  {
    if n > 0 {
      PowPow(b, m, n - 1);
      PowAdd(b, m, m * (n - 1));
      assert m + m * (n - 1) == m * n;
    } else {
      assert m * 0 == 0;
    }
  }

  lemma {:induction false} PowMonoBase(a: nat, b: nat, n: nat)
    requires a <= b
    ensures Pow(a, n) <= Pow(b, n)
  {
    if n > 0 {
      PowMonoBase(a, b, n - 1);
      MulLe(a, Pow(a, n - 1), Pow(b, n - 1));
      MulLe(Pow(b, n - 1), a, b);
    }
  }

  lemma {:induction false} MulAssoc(x: int, y: int, z: int)
    ensures (x * y) * z == x * (y * z)
  {
  }

  lemma {:induction false} Swap4(a: int, b: int, x: int, y: int)
    ensures (a * b) * (x * y) == (a * x) * (b * y)
  {
    assert (a * b) * (x * y) == a * (b * (x * y));
    assert b * (x * y) == x * (b * y);
    assert a * (x * (b * y)) == (a * x) * (b * y);
  }

  lemma {:induction false} MulPos(x: int, y: int)
    requires x > 0 && y > 0
    ensures x * y > 0
  {
  }

  lemma {:induction false} MulLe(x: int, y: int, z: int)
    requires 0 <= x && y <= z
    ensures x * y <= x * z && y * x <= z * x
  {
  }

  lemma {:induction false} MulLt(x: int, y: int, z: int)
    requires 0 < x && y < z
    ensures x * y < x * z && y * x < z * x
  {
  }

  /** Cancelling a positive factor. */
  lemma {:induction false} CancelLe(x: int, y: int, z: int)
    requires 0 < x && x * y <= x * z
    ensures y <= z
  {
  }

  lemma {:induction false} DivMod(a: int, d: int)
    requires d > 0
    ensures a == (a / d) * d + a % d && 0 <= a % d < d
  {
  }

  /** A quotient and a remainder in range are the quotient and the remainder. */
  lemma {:induction false} DivUnique(a: int, d: int, q: int, r: int)
    requires d > 0 && a == q * d + r && 0 <= r < d
    ensures a / d == q && a % d == r
  {
    DivMod(a, d);
    var q1, r1 := a / d, a % d;
    assert (q - q1) * d == r1 - r;
    if q > q1 {
      MulLe(d, 1, q - q1);
    } else if q < q1 {
      MulLe(d, 1, q1 - q);
    }
  }

  lemma {:induction false} DivNat(a: nat, d: nat)
    requires d > 0
    ensures 0 <= a / d <= a
  {
    DivMod(a, d);
    if a / d < 0 {
      MulLe(d, a / d, -1);
    } else {
      MulLe(a / d, 1, d);
    }
  }

  /** Floor divisions compose. */
  lemma {:induction false} DivDiv(a: nat, b: nat, c: nat)
    requires b > 0 && c > 0
    ensures b * c > 0 && (a / b) / c == a / (b * c)
    ensures a % (b * c) == b * ((a / b) % c) + a % b
  {
    MulPos(b, c);
    DivMod(a, b);
    DivMod(a / b, c);
    var q, r, s := a / b / c, (a / b) % c, a % b;
    assert a == (q * c + r) * b + s;
    Distribute(q, c, r, b);
    assert a == q * (b * c) + (b * r + s);
    MulLe(b, r, c - 1);
    assert b * (c - 1) == b * c - b;
    DivUnique(a, b * c, q, b * r + s);
  }

  lemma {:induction false} Distribute(q: int, c: int, r: int, b: int)
    ensures (q * c + r) * b == q * (b * c) + b * r
  {
    assert (q * c + r) * b == (q * c) * b + r * b;
    MulAssoc(q, c, b);
  }

  /** A common factor drops out of a division. */
  lemma {:induction false} DivScale(a: nat, d: nat, k: nat)
    requires d > 0 && k > 0
    ensures d * k > 0 && (a * k) / (d * k) == a / d && (a * k) % (d * k) == (a % d) * k
  {
    MulPos(d, k);
    DivMod(a, d);
    var q, r := a / d, a % d;
    assert a * k == (q * d + r) * k;
    assert (q * d + r) * k == q * (d * k) + r * k by {
      assert (q * d + r) * k == (q * d) * k + r * k;
      MulAssoc(q, d, k);
    }
    MulLt(k, r, d);
    DivUnique(a * k, d * k, q, r * k);
  }

  /** A multiple of the divisor only shifts the quotient. */
  lemma {:induction false} DivAdd(a: nat, k: nat, d: nat)
    requires d > 0
    ensures (k * d + a) / d == k + a / d && (k * d + a) % d == a % d
  {
    DivMod(a, d);
    assert (k + a / d) * d == k * d + (a / d) * d;
    DivUnique(k * d + a, d, k + a / d, a % d);
  }
}
