/** Printing a bignum with a given number of digits, and reading the digits back. */
module OutputDigits {
  import opened Powers
  import opened Reciprocal
  import opened Limbs
  import opened Rounding
  import opened Bignum
  import opened BignumOps
  import opened Scaling
  import opened DigitStrings

  /** The digits from nd on are those of v, and a is what is left of it. */
  ghost predicate Printed(v: nat, a: nat, digits: seq<nat>, radix: nat)
  {
    ValidDigits(digits, radix) && Pow(radix, |digits|) > 0
    && a == v / Pow(radix, |digits|) && DigitsVal(digits, radix) == v % Pow(radix, |digits|)
  }

  /** Another chunk of digits in front of those already there. */
  lemma {:induction false} PrintedMore(v: nat, a: nat, digits: seq<nat>, chunk: seq<nat>, radix: nat)
    requires Printed(v, a, digits, radix) && radix >= 2 && ValidDigits(chunk, radix)
    requires Pow(radix, |chunk|) > 0 && DigitsVal(chunk, radix) == a % Pow(radix, |chunk|)
    ensures Printed(v, a / Pow(radix, |chunk|), chunk + digits, radix)
  {
    hide Pow, DigitsVal;
    var p, q := Pow(radix, |digits|), Pow(radix, |chunk|);
    DigitsConcat(chunk, digits, radix);
    DivDiv(v, p, q);
    PowAdd(radix, |digits|, |chunk|);
    PowPos(radix, |digits| + |chunk|);
    assert |chunk + digits| == |digits| + |chunk|;
  }

  lemma {:induction false} PrintedNone(v: nat, radix: nat)
    ensures Printed(v, v, [], radix)
  {
    PowOne(radix);
    DivUnique(v, 1, v, 0);
  }

  lemma {:induction false} PrintedDigit(v: nat, n: nat, rest: seq<nat>, radix: nat)
    requires Printed(v, n, rest, radix) && radix >= 2
    ensures 0 <= n % radix < radix && Printed(v, n / radix, [n % radix] + rest, radix)
  {
    hide Printed;
    DivMod(n, radix);
    OneDigit(n % radix, radix);
    PrintedMore(v, n, rest, [n % radix], radix);
  }

  lemma {:induction false} OneDigit(digit: nat, radix: nat)
    ensures Pow(radix, 1) == radix && DigitsVal([digit], radix) == digit
  {
    PowOne(radix);
    assert [digit][..0] == [];
    assert DigitsVal([digit], radix) == DigitsVal([], radix) * radix + digit;
  }

  lemma {:induction false} PrintedAll(v: nat, a: nat, digits: seq<nat>, radix: nat)
    requires Printed(v, a, digits, radix)
    ensures ValidDigits(digits, radix) && Pow(radix, |digits|) > 0 && DigitsVal(digits, radix) == v % Pow(radix,
        |digits|)
  {
  }

  /** u64toa_bin_len and limb_to_a: the last len digits of v, least significant last. */
  method PutDigits(buf: array<nat>, at: nat, v: nat, radix: nat, len: nat)
    requires radix >= 2 && at + len <= buf.Length
    modifies buf
    ensures ValidDigits(buf[at..at + len], radix) && Pow(radix, len) > 0
    ensures DigitsVal(buf[at..at + len], radix) == v % Pow(radix, len)
    ensures buf[..at] == old(buf[..at]) && buf[at + len..] == old(buf[at + len..])
  {
    PrintedNone(v, radix);
    hide Pow, DigitsVal, Printed;
    var n: nat := v;
    var i := len;
    assert buf[at + len..at + len] == [];
    while i > 0
      invariant 0 <= i <= len
      invariant Printed(v, n, buf[at + i..at + len], radix)
      invariant buf[..at] == old(buf[..at]) && buf[at + len..] == old(buf[at + len..])
    {
      i := i - 1;
      ghost var rest := buf[at + i + 1..at + len];
      PrintedDigit(v, n, rest, radix);
      DivNat(n, radix);
      DivMod(n, radix);
      buf[at + i] := n % radix;
      assert buf[at + i..at + len] == [n % radix] + rest;
      n := n / radix;
    }
    PrintedAll(v, n, buf[at..at + len], radix);
  }

  /** The lowest limb has the low bits of the number. */
  lemma {:induction false} LowLimb(s: seq<Limb>, radix: nat, bits: nat, n: nat)
    requires radix == Pow(2, bits) && |s| >= 1 && bits * n <= 32
    ensures Pow(radix, n) == Pow(2, bits * n) > 0
    ensures Val(s) % Pow(radix, n) == s[0] as int % Pow(radix, n)
  {
    hide Pow;
    PowPow(2, bits, n);
    Pow32(bits * n);
    assert Val(s) == s[0] as int + 0x1_0000_0000 * Val(s[1..]);
    hide Val;
    LowWordMod(s[0], Val(s[1..]), Pow(2, bits * n), Pow(2, 32 - bits * n));
  }

  lemma {:induction false} LowWordMod(x: nat, y: nat, p: nat, h: nat)
    requires p > 0 && p * h == 0x1_0000_0000
    ensures (x + 0x1_0000_0000 * y) % p == x % p
  {
    assert 0x1_0000_0000 * y == (h * y) * p by {
      MulAssoc(p, h, y);
    }
    DivAdd(x, h * y, p);
  }

  /** The radix has bits bits, and a chunk of its digits fits in a limb. */
  ghost predicate BinaryRadix(radix: nat, bits: nat) {
    1 <= bits <= 5 && radix == Pow(2, bits)
  }

  lemma {:induction false} BinaryRadixSmall(radix: nat, bits: nat)
    requires BinaryRadix(radix, bits)
    ensures 2 <= radix <= 36
  {
    hide Pow;
    PowGrows(2, bits, 5);
    PowGrows(2, 1, bits);
    PowOne(2);
    assert Pow(2, 5) == 32 by {
      ThirtyTwo();
    }
  }

  lemma {:induction false} ThirtyTwo()
    ensures Pow(2, 5) == 32
  {
    assert Pow(2, 3) == 8;
  }

  lemma {:induction false} ChunkBits(radix: nat, bits: nat)
    requires BinaryRadix(radix, bits)
    ensures 2 <= radix <= 36 && DigitsPerLimb(radix) >= 1 && bits * DigitsPerLimb(radix) <= 32
  {
    BinaryRadixSmall(radix, bits);
    hide Pow, DigitsPerLimb, RadixBase;
    RadixBaseMeaning(radix);
    var d := DigitsPerLimb(radix);
    PowPow(2, bits, d);
    Pow32(32);
    if bits * d > 32 {
      PowStrict(2, 32, bits * d);
    }
  }

  /** output_digits, for a radix that is a power of two. */
  method OutputBinary(buf: array<nat>, a: Mpb, radix: nat, bits: nat)
    requires BinaryRadix(radix, bits) && Normal(a.tab)
    modifies buf, a
    ensures ValidDigits(buf[..], radix) && Pow(radix, buf.Length) > 0
    ensures DigitsVal(buf[..], radix) == old(a.Value()) % Pow(radix, buf.Length)
  {
    ChunkBits(radix, bits);
    hide BinaryRadix, Pow, Val, DigitsVal, Normal, DigitsPerLimb, Printed;
    var digitsPerLimb := DigitsPerLimb(radix);
    ghost var v := a.Value();
    var nDigits := buf.Length;
    PrintedNone(v, radix);
    assert buf[nDigits..] == [];
    while true
      invariant 0 <= nDigits <= buf.Length && Normal(a.tab) && Printed(v, a.Value(), buf[nDigits..], radix)
      decreases nDigits
    {
      var n := MinNat(nDigits, digitsPerLimb);
      nDigits := nDigits - n;
      ghost var left := BinaryChunk(buf, nDigits, a, radix, bits, n, digitsPerLimb, v);
      if nDigits == 0 {
        assert buf[0..] == buf[..];
        PrintedAll(v, left, buf[..], radix);
        return;
      }
      ShiftOut(a, radix, bits, n);
    }
  }

  /** The digits of the lowest limb, in front of those already printed; left is the number without them. */
  method BinaryChunk(buf: array<nat>, at: nat, a: Mpb, radix: nat, bits: nat, n: nat, ghost d: nat, ghost v: nat)
    returns (ghost left: nat)
    requires BinaryRadix(radix, bits) && Normal(a.tab) && at + n <= buf.Length && n <= d && bits * d <= 32
    requires Printed(v, a.Value(), buf[at + n..], radix)
    modifies buf
    ensures Pow(radix, n) > 0 && left == a.Value() / Pow(radix, n) && Printed(v, left, buf[at..], radix)
  {
    BinaryRadixSmall(radix, bits);
    LimbOf(a.tab);
    SmallerChunk(bits, n, d);
    LowLimb(a.tab, radix, bits, n);
    hide BinaryRadix, Pow, Val, DigitsVal, Normal, Printed;
    ghost var done := buf[at + n..];
    PutDigits(buf, at, a.tab[0], radix, n);
    assert buf[at..] == buf[at..at + n] + done;
    PrintedMore(v, a.Value(), done, buf[at..at + n], radix);
    DivNat(a.Value(), Pow(radix, n));
    left := a.Value() / Pow(radix, n);
  }

  /** Shifting out the n digits just printed. */
  method ShiftOut(a: Mpb, radix: nat, bits: nat, n: nat)
    requires BinaryRadix(radix, bits) && Normal(a.tab)
    modifies a
    ensures Normal(a.tab) && Pow(radix, n) > 0 && a.Value() == old(a.Value()) / Pow(radix, n)
  {
    hide Pow, Val, Normal, RoundShift;
    ShiftIsDivision(a.Value(), n * bits);
    PowPow(2, bits, n);
    assert n * bits == bits * n;
    ShrRound(a, n * bits, RNDZ);
  }

  lemma {:induction false} LimbOf(s: seq<Limb>)
    requires Normal(s)
    ensures |s| >= 1
  {
  }

  lemma {:induction false} SmallerChunk(bits: nat, n: nat, d: nat)
    requires bits * d <= 32 && n <= d
    ensures bits * n <= 32
  {
    MulLe(bits, n, d);
  }

  lemma {:induction false} ShiftIsDivision(v: nat, shift: nat)
    ensures Pow(2, shift) > 0 && RoundShift(v, shift, RNDZ) == v / Pow(2, shift)
  {
    PowPos(2, shift);
    PowOne(2);
    DivUnique(v, 1, v, 0);
  }

  /** output_digits, for the other radices. */
  method OutputOther(buf: array<nat>, a: Mpb, radix: nat)
    requires 3 <= radix <= 36 && RadixBase(radix) > 0 && Normal(a.tab)
    modifies buf, a
    ensures ValidDigits(buf[..], radix) && Pow(radix, buf.Length) > 0
    ensures DigitsVal(buf[..], radix) == old(a.Value()) % Pow(radix, buf.Length)
  {
    hide Pow, Val, DigitsVal, DigitsPerLimb, RadixBase, Printed, Weight;
    RadixBaseMeaning(radix);
    var digitsPerLimb := DigitsPerLimb(radix);
    ghost var v := a.Value();
    var nDigits := buf.Length;
    PrintedNone(v, radix);
    assert buf[nDigits..] == [];
    ghost var left: nat := v;
    while nDigits != 0
      invariant 0 <= nDigits <= buf.Length && Normal(a.tab)
      invariant nDigits > 0 ==> Printed(v, a.Value(), buf[nDigits..], radix)
      invariant Printed(v, left, buf[nDigits..], radix)
      decreases nDigits
    {
      var n := MinNat(nDigits, digitsPerLimb);
      ghost var done, x, w := buf[nDigits..], a.Value(), Weight(|a.tab|);
      nDigits := nDigits - n;
      var r := a.DivSmall(RadixBase(radix), 0);
      assert 0 * w + x == x;
      a.Renorm();
      PutDigits(buf, nDigits, r, radix, n);
      assert buf[nDigits..] == buf[nDigits..nDigits + n] + done;
      ChunkModulus(x, radix, n, digitsPerLimb);
      PrintedMore(v, x, done, buf[nDigits..nDigits + n], radix);
      DivNat(x, Pow(radix, n));
      left := x / Pow(radix, n);
    }
    assert buf[0..] == buf[..];
    PrintedAll(v, left, buf[..], radix);
  }

  /** The last n digits of a chunk are the last n digits of the number. */
  lemma {:induction false} ChunkModulus(x: nat, radix: nat, n: nat, d: nat)
    requires radix >= 2 && n <= d
    ensures Pow(radix, d) > 0 && Pow(radix, n) > 0
    ensures x % Pow(radix, d) % Pow(radix, n) == x % Pow(radix, n)
  {
    PowPos(radix, d);
    PowPos(radix, n);
    PowPos(radix, d - n);
    PowAdd(radix, n, d - n);
    var p, q := Pow(radix, n), Pow(radix, d - n);
    DivDiv(x, p, q);
    DivNat(x, p);
    DivMod(x, p);
    DivMod(x / p, q);
    DivAdd(x % p, x / p % q, p);
    DivUnique(x % p, p, 0, x % p);
  }

  /** output_digits: the last digits of a number, as many as there is room for. */
  method PrintDigits(buf: array<nat>, a: Mpb, radix1: nat, radixShift: nat)
    requires OddRadix(radix1) && 2 <= radix1 * Pow(2, radixShift) <= 36 && Normal(a.tab)
    modifies buf, a
    ensures var radix := radix1 * Pow(2, radixShift);
      && ValidDigits(buf[..], radix) && Pow(radix, buf.Length) > 0
      && DigitsVal(buf[..], radix) == old(a.Value()) % Pow(radix, buf.Length)
  {
    hide Pow, Val, DigitsVal, Normal, RadixBase;
    var radix := radix1 * Pow(2, radixShift);
    if radix1 == 1 {
      BinaryRadixOf(radix, radixShift);
      OutputBinary(buf, a, radix, radixShift);
    } else {
      OtherBase(radix1, radixShift);
      OutputOther(buf, a, radix);
    }
  }

  /** Printing a bignum below radix^n with n digits, and reading the digits, gives the bignum back. */
  method PrintAndRead(a: Mpb, radix1: nat, radixShift: nat, nDigits: nat) returns (b: Mpb)
    requires OddRadix(radix1) && 2 <= radix1 * Pow(2, radixShift) <= 36 && Normal(a.tab)
    requires a.Value() < Pow(radix1 * Pow(2, radixShift), nDigits)
    modifies a
    ensures fresh(b) && Normal(b.tab) && b.Value() == old(a.Value())
  {
    hide Pow, Val, DigitsVal, Normal, RadixBase;
    var radix := radix1 * Pow(2, radixShift);
    ghost var v := a.Value();
    var buf := new nat[nDigits];
    PrintDigits(buf, a, radix1, radixShift);
    DivUnique(v, Pow(radix, nDigits), 0, v);
    b := new Mpb();
    var count, extra := AccumulateDigits(b, buf[..], radix, nDigits);
    assert buf[..][..count] == buf[..];
  }

  lemma {:induction false} BinaryRadixOf(radix: nat, rs: nat)
    requires radix == 1 * Pow(2, rs) && 2 <= radix <= 36
    ensures BinaryRadix(radix, rs)
  {
    hide Pow;
    SmallShift(rs);
  }

  lemma {:induction false} SmallShift(rs: nat)
    requires 2 <= Pow(2, rs) <= 36
    ensures 1 <= rs <= 5
  {
    PowOne(2);
    assert Pow(2, 6) == 64;
    if rs > 5 {
      PowGrows(2, 6, rs);
    }
  }

  /** A radix with an odd factor never fills a limb exactly. */
  lemma {:induction false} OtherBase(radix1: nat, rs: nat)
    requires OddRadix(radix1) && radix1 >= 2 && 2 <= radix1 * Pow(2, rs) <= 36
    ensures radix1 * Pow(2, rs) >= 3 && RadixBase(radix1 * Pow(2, rs)) > 0
  {
    var radix := radix1 * Pow(2, rs);
    PowPos(2, rs);
    MulLe(radix1, 1, Pow(2, rs));
    RadixBaseMeaning(radix);
    NotPowerOfTwo(radix1, rs, DigitsPerLimb(radix));
  }

  lemma {:induction false} NotPowerOfTwo(radix1: nat, rs: nat, d: nat)
    requires OddRadix(radix1) && radix1 >= 2 && d >= 1
    ensures Pow(radix1 * Pow(2, rs), d) != 0x1_0000_0000
  {
    hide Pow;
    PowMul(radix1, Pow(2, rs), d);
    PowPow(2, rs, d);
    OddPower(radix1, d);
    PowGrows(radix1, 1, d);
    PowOne(radix1);
    Pow32(32);
    PowOne(2);
    OddFactor(Pow(radix1, d), rs * d, 32);
  }

  /** A power of two has no odd factor but one. */
  lemma {:induction false} OddFactor(x: nat, i: nat, n: nat)
    requires x % 2 == 1 && x > 1 && n <= 32
    ensures x * Pow(2, i) != Pow(2, n)
    decreases n
  {
    if x * Pow(2, i) == Pow(2, n) {
      PowPos(2, i);
      if n == 0 {
        MulLe(Pow(2, i), 2, x);
      } else if i > 0 {
        assert x * Pow(2, i) == 2 * (x * Pow(2, i - 1));
        OddFactor(x, i - 1, n - 1);
      }
    }
  }
}
