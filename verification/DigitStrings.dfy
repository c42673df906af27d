/** Digit strings and their values; reading them into a bignum, chunk by chunk, and printing one. */
module DigitStrings {
  import opened Powers
  import opened Reciprocal
  import opened Limbs
  import opened Bignum
  import opened BignumOps
  import opened Scaling

  /** The value of a digit string, most significant digit first. */
  function DigitsVal(s: seq<nat>, radix: nat): (r: nat) {
    if s == [] then 0 else DigitsVal(s[..|s| - 1], radix) * radix + s[|s| - 1]
  }

  predicate ValidDigits(s: seq<nat>, radix: nat) {
    forall i :: 0 <= i < |s| ==> s[i] < radix
  }

  lemma {:induction false} DigitsBound(s: seq<nat>, radix: nat)
    requires ValidDigits(s, radix) && radix > 0
    ensures DigitsVal(s, radix) < Pow(radix, |s|)
    decreases |s|
  {
    if s != [] {
      DigitsBound(s[..|s| - 1], radix);
      OneMoreDigit(DigitsVal(s[..|s| - 1], radix), s[|s| - 1], radix, Pow(radix, |s| - 1));
    }
  }

  lemma {:induction false} OneMoreDigit(v: nat, c: nat, radix: nat, p: nat)
    requires v < p && c < radix
    ensures v * radix + c < radix * p
  {
    MulLe(radix, v + 1, p);
    assert radix * (v + 1) == v * radix + radix;
  }

  lemma {:induction false} DigitsConcat(a: seq<nat>, b: seq<nat>, radix: nat)
    ensures DigitsVal(a + b, radix) == DigitsVal(a, radix) * Pow(radix, |b|) + DigitsVal(b, radix)
    decreases |b|
  {
    if b == [] {
      assert a + b == a;
      PowOne(radix);
    } else {
      var c := b[..|b| - 1];
      assert (a + b)[..|a + b| - 1] == a + c && (a + b)[|a + b| - 1] == b[|b| - 1];
      DigitsConcat(a, c, radix);
      ShiftedSum(DigitsVal(a, radix), Pow(radix, |c|), DigitsVal(c, radix), radix);
      assert Pow(radix, |b|) == radix * Pow(radix, |c|);
    }
  }

  lemma {:induction false} ShiftedSum(x: int, p: int, y: int, radix: int)
    ensures (x * p + y) * radix == x * (radix * p) + y * radix
  {
    assert (x * p) * radix == x * (radix * p) by {
      MulAssoc(x, p, radix);
    }
  }

  /** A number whose first digit is not zero. */
  lemma {:induction false} LeadingDigit(s: seq<nat>, radix: nat)
    requires s != [] && s[0] > 0 && radix > 0
    ensures DigitsVal(s, radix) >= Pow(radix, |s| - 1)
    decreases |s|
  {
    if |s| == 1 {
      assert s[..0] == [];
      PowOne(radix);
    } else {
      LeadingDigit(s[..|s| - 1], radix);
      MulLe(radix, Pow(radix, |s| - 2), DigitsVal(s[..|s| - 1], radix));
    }
  }

  lemma {:induction false} DigitsZero(s: seq<nat>, radix: nat)
    requires radix > 0
    ensures DigitsVal(s, radix) == 0 <==> forall i :: 0 <= i < |s| ==> s[i] == 0
    decreases |s|
  {
    if s != [] {
      var t := s[..|s| - 1];
      DigitsZero(t, radix);
      if DigitsVal(t, radix) > 0 {
        MulPos(DigitsVal(t, radix), radix);
      }
      assert forall i :: 0 <= i < |t| ==> s[i] == t[i];
    }
  }

  /** radix_base_table: the weight of a full chunk; 0 stands for 2^32. */
  function RadixBase(radix: nat): (r: Limb)
    requires radix >= 2
  {
    Lo(Pow(radix, DigitsPerLimb(radix)))
  }

  lemma {:induction false} RadixBaseMeaning(radix: nat)
    requires 2 <= radix <= 36
    ensures DigitsPerLimb(radix) >= 1
    ensures Pow(radix, DigitsPerLimb(radix)) == if RadixBase(radix) == 0 then 0x1_0000_0000 else RadixBase(radix)
    ensures Pow(radix, DigitsPerLimb(radix)) <= 0x1_0000_0000
    ensures forall n: nat :: n < DigitsPerLimb(radix) ==> Pow(radix, n) < 0x1_0000_0000
  {
    hide Pow;
    FitsMeaning(radix, 0x1_0000_0000);
    PowOne(radix);
    var p := Pow(radix, DigitsPerLimb(radix));
    PowPos(radix, DigitsPerLimb(radix));
    if p < 0x1_0000_0000 {
      DivUnique(p, 0x1_0000_0000, 0, p);
    }
    forall n: nat | n < DigitsPerLimb(radix) ensures Pow(radix, n) < 0x1_0000_0000 {
      PowStrict(radix, n, DigitsPerLimb(radix));
    }
  }

  /** The digits read so far: full chunks are in the bignum, the rest is in a limb. */
  ghost predicate Accumulated(v: nat, cur: nat, n: nat, digits: seq<nat>, radix: nat) {
    v * Pow(radix, n) + cur == DigitsVal(digits, radix) && cur < Pow(radix, n)
  }

  lemma {:induction false} AccumulateDigit(v: nat, cur: nat, n: nat, digits: seq<nat>, radix: nat, c: nat)
    requires Accumulated(v, cur, n, digits, radix) && c < radix
    ensures Accumulated(v, cur * radix + c, n + 1, digits + [c], radix)
  {
    assert (digits + [c])[..|digits|] == digits;
    var p := Pow(radix, n);
    assert v * (radix * p) == (v * p) * radix;
    assert (v * p + cur) * radix == (v * p) * radix + cur * radix;
    MulLe(radix, cur + 1, p);
  }

  lemma {:induction false} AccumulateChunk(v: nat, cur: nat, n: nat, digits: seq<nat>, radix: nat)
    requires Accumulated(v, cur, n, digits, radix)
    ensures Accumulated(v * Pow(radix, n) + cur, 0, 0, digits, radix)
  {
    PowOne(radix);
  }

  /** The digit loop of js_atod: at most maxDigits digits are kept; of the others it is remembered whether one was
      not zero. */
  method AccumulateDigits(tmp0: Mpb, digits: seq<nat>, radix: nat, maxDigits: nat) returns (digitCount: nat,
      extraDigits: bool)
    requires 2 <= radix <= 36 && ValidDigits(digits, radix)
    modifies tmp0
    ensures digitCount == (if |digits| < maxDigits then |digits| else maxDigits) && Normal(tmp0.tab)
    ensures tmp0.Value() == DigitsVal(digits[..digitCount], radix)
    ensures extraDigits <==> DigitsVal(digits[digitCount..], radix) != 0
  {
    hide Pow, Val, DigitsVal, Accumulated, RadixBase, DigitsPerLimb, Normal;
    RadixBaseMeaning(radix);
    PowOne(radix);
    var digitsPerLimb, radixBase := DigitsPerLimb(radix), RadixBase(radix);
    tmp0.tab := [0];
    ZeroStart(radix);
    var curLimb: nat, limbDigitCount: nat := 0, 0;
    digitCount := 0;
    extraDigits := false;
    var i := 0;
    assert digits[..0] == [];
    while i < |digits|
      invariant 0 <= i <= |digits| && digitCount == (if i < maxDigits then i else maxDigits)
      invariant Normal(tmp0.tab) && limbDigitCount < digitsPerLimb
      invariant Accumulated(tmp0.Value(), curLimb, limbDigitCount, digits[..digitCount], radix)
      invariant extraDigits <==> exists k :: digitCount <= k < i && digits[k] != 0
    {
      var c := digits[i];
      if digitCount < maxDigits {
        assert digits[..i + 1] == digits[..i] + [c];
        AccumulateDigit(tmp0.Value(), curLimb, limbDigitCount, digits[..i], radix, c);
        curLimb := curLimb * radix + c;
        limbDigitCount := limbDigitCount + 1;
        AccumulatedLimb(tmp0.Value(), curLimb, limbDigitCount, digits[..i + 1], radix);
        if limbDigitCount == digitsPerLimb {
          AccumulateChunk(tmp0.Value(), curLimb, limbDigitCount, digits[..i + 1], radix);
          MulBase(tmp0, radixBase, curLimb);
          curLimb, limbDigitCount := 0, 0;
        }
        digitCount := digitCount + 1;
      } else if c != 0 {
        extraDigits := true;
      }
      i := i + 1;
    }
    AccumulatedLimb(tmp0.Value(), curLimb, limbDigitCount, digits[..digitCount], radix);
    if limbDigitCount != 0 {
      AccumulateChunk(tmp0.Value(), curLimb, limbDigitCount, digits[..digitCount], radix);
      var b := PowUi(radix, limbDigitCount);
      PowPos(radix, limbDigitCount);
      MulBase(tmp0, b, curLimb);
    }
    AccumulatedDone(tmp0.Value(), digits[..digitCount], radix);
    DigitsZero(digits[digitCount..], radix);
    assert forall k :: digitCount <= k < |digits| ==> digits[k] == digits[digitCount..][k - digitCount];
    assert forall k :: 0 <= k < |digits| - digitCount ==> digits[digitCount..][k] == digits[digitCount + k];
  }

  lemma {:induction false} ZeroStart(radix: nat)
    ensures Normal([0]) && Accumulated(Val([0]), 0, 0, [], radix)
  {
    ValOne(0);
    PowOne(radix);
  }

  lemma {:induction false} AccumulatedLimb(v: nat, cur: nat, n: nat, digits: seq<nat>, radix: nat)
    requires Accumulated(v, cur, n, digits, radix)
    ensures cur < Pow(radix, n)
  {
  }

  lemma {:induction false} AccumulatedDone(v: nat, digits: seq<nat>, radix: nat)
    requires Accumulated(v, 0, 0, digits, radix)
    ensures v == DigitsVal(digits, radix)
  {
    PowOne(radix);
  }
}
