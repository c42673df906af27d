/** The tables of js_dtoa and js_atod, for every radix: what printing and parsing rely on holds of all their entries, so
    that the round trip holds for every radix. */
module ConversionTables {
  import opened Powers
  import opened Scaling
  import opened FreeFormatSearch
  import opened Atod
  import opened NumeralLayout

  /** dtoa_max_digits_table */
  const DTOA_MAX_DIGITS: seq<nat> := [
    54, 35, 28, 24, 22, 20, 19, 18, 17, 17, 16, 16,
    15, 15, 15, 14, 14, 14, 14, 14, 13, 13, 13, 13,
    13, 13, 13, 12, 12, 12, 12, 12, 12, 12, 12
  ]

  /** atod_max_digits_table */
  const ATOD_MAX_DIGITS: seq<nat> := [
    64, 80, 32, 55, 49, 45, 21, 40, 38, 37, 35, 34,
    33, 32, 16, 31, 30, 30, 29, 29, 28, 28, 27, 27,
    27, 26, 26, 26, 26, 25, 12, 25, 25, 24, 24
  ]

  /** max_exponent */
  const MAX_EXPONENT: seq<int> := [
    1024, 647, 512, 442, 397, 365, 342, 324, 309, 297, 286, 277,
    269, 263, 256, 251, 246, 242, 237, 234, 230, 227, 224, 221,
    218, 216, 214, 211, 209, 207, 205, 203, 202, 200, 199
  ]

  /** min_exponent */
  const MIN_EXPONENT: seq<int> := [
    -1075, -679, -538, -463, -416, -383, -359, -340, -324, -311, -300, -291,
    -283, -276, -269, -263, -258, -254, -249, -245, -242, -238, -235, -232,
    -229, -227, -224, -222, -220, -217, -215, -214, -212, -210, -208
  ]

  function IfOdd(n: nat, x: int): (r: int) {
    if n % 2 == 1 then x else 1
  }

  /** Powers with exponents below 64, by squaring without recursion: the verifier computes them. */
  function Squaring(b: int, n: nat): (r: int) {
    var b2 := b * b;
    var b4 := b2 * b2;
    var b8 := b4 * b4;
    var b16 := b8 * b8;
    var b32 := b16 * b16;
    IfOdd(n, b) * (IfOdd(n / 2, b2) * (IfOdd(n / 4, b4) * (IfOdd(n / 8, b8) * (IfOdd(n / 16, b16)
    * IfOdd(n / 32, b32)))))
  }

  /** Powers of two with exponents below 256. */
  function Two(n: nat): (r: int) {
    IfOdd(n, 2) * (IfOdd(n / 2, 4) * (IfOdd(n / 4, 0x10) * (IfOdd(n / 8, 0x100) * (IfOdd(n / 16, 0x1_0000)
    * (IfOdd(n / 32, 0x1_0000_0000) * (IfOdd(n / 64, 0x1_0000_0000_0000_0000)
    * IfOdd(n / 128, 0x1_0000_0000_0000_0000_0000_0000_0000_0000)))))))
  }

  lemma {:induction false} Halve(b: nat, n: nat)
    ensures Pow(b, n) == IfOdd(n, b) * Pow(b * b, n / 2)
  {
    PowPow(b, 2, n / 2);
    PowOne(b);
    PowNext(b, 2);
    if n % 2 == 1 {
      PowNext(b, n);
    }
  }

  lemma {:induction false} SquaringIs(b: nat, n: nat)
    requires n < 64
    ensures Squaring(b, n) == Pow(b, n)
  {
    hide Pow, IfOdd;
    var b2 := b * b;
    var b4 := b2 * b2;
    var b8 := b4 * b4;
    var b16 := b8 * b8;
    var b32 := b16 * b16;
    Halve(b, n);
    Halve(b2, n / 2);
    Halve(b4, n / 4);
    Halve(b8, n / 8);
    Halve(b16, n / 16);
    Halve(b32, n / 32);
    PowOne(b32 * b32);
  }

  lemma {:induction false} TwoIs(n: nat)
    requires n < 256
    ensures Two(n) == Pow(2, n)
  {
    hide Pow, IfOdd;
    Halve(2, n);
    Halve(4, n / 2);
    Halve(0x10, n / 4);
    Halve(0x100, n / 8);
    Halve(0x1_0000, n / 16);
    Halve(0x1_0000_0000, n / 32);
    Halve(0x1_0000_0000_0000_0000, n / 64);
    Halve(0x1_0000_0000_0000_0000_0000_0000_0000_0000, n / 128);
    PowOne(0x1_0000_0000_0000_0000_0000_0000_0000_0000 * 0x1_0000_0000_0000_0000_0000_0000_0000_0000);
  }

  /** The power b^32 is at least c * 2^p. */
  ghost predicate Chunk(b: nat, c: nat, p: nat) {
    Pow(b, 32) >= c * Pow(2, p)
  }

  lemma {:induction false} ChunkIs(b: nat, c: nat, p: nat)
    requires p < 256 && Squaring(b, 32) >= c * Two(p)
    ensures Chunk(b, c, p)
  {
    hide Squaring, Two;
    SquaringIs(b, 32);
    TwoIs(p);
  }

  /** By chunks of 32 factors, b^(32 k + j) is seen to be at least 2^(p k + rest). */
  lemma {:induction false} Reaches(b: nat, c: nat, p: nat, k: nat, j: nat, rest: nat, n: nat, t: nat)
    requires Chunk(b, c, p) && k < 64 && j < 64 && rest < 256 && n == 32 * k + j && t == p * k + rest
    requires Squaring(c, k) * Squaring(b, j) >= Two(rest)
    ensures Pow(b, n) >= Pow(2, t)
  {
    hide Pow, Squaring, Two;
    SquaringIs(c, k);
    SquaringIs(b, j);
    TwoIs(rest);
    PowPow(b, 32, k);
    PowAdd(b, 32 * k, j);
    PowMonoBase(c * Pow(2, p), Pow(b, 32), k);
    PowMul(c, Pow(2, p), k);
    PowPow(2, p, k);
    PowAdd(2, rest, p * k);
    Assemble(Pow(b, 32 * k), Pow(b, j), Pow(c, k), Pow(2, p * k), Pow(2, rest));
  }

  lemma {:induction false} Assemble(x: int, y: int, u: int, v: int, w: int)
    requires x >= u * v && u * y >= w && v >= 0 && y >= 0
    ensures x * y >= w * v
  {
    MulLe(y, u * v, x);
    MulLe(v, w, u * y);
    assert (u * v) * y == (u * y) * v;
  }

  /** What js_atod relies on for a radix that is no power of two. */
  ghost predicate Exceeds(radix: nat, max: int, min: int) {
    max >= 0 && min <= 0 && Pow(radix, max) >= Pow(2, 1024) && Pow(radix, -min) >= Pow(2, 1075)
  }

  /** What is computed for the digits of a radix. */
  lemma {:induction false} Enough(radix: nat, p: nat)
    requires 1 <= p < 64 && Squaring(radix, p - 1) >= 0x20_0000_0000_0000
    requires 2 * Squaring(radix, p) < 0x1_0000_0000_0000_0000
    ensures EnoughDigits(radix, p)
  {
    hide Squaring;
    SquaringIs(radix, p - 1);
    SquaringIs(radix, p);
  }

  /** What is computed for a radix: b^32 is at least c * 2^p, which is enough for both of its exponents. */
  lemma {:induction false} Exponents(b: nat, c: nat, p: nat, k: nat, j: nat, rest: nat, k1: nat, j1: nat, rest1: nat)
    requires p < 256 && Squaring(b, 32) >= c * Two(p)
    requires k < 64 && j < 64 && rest < 256 && Squaring(c, k) * Squaring(b, j) >= Two(rest) && p * k + rest == 1024
    requires k1 < 64 && j1 < 64 && rest1 < 256 && Squaring(c, k1) * Squaring(b, j1) >= Two(rest1)
    requires p * k1 + rest1 == 1075
    ensures Exceeds(b, 32 * k + j, -(32 * k1 + j1))
  {
    hide Squaring, Two, Chunk, Pow;
    ChunkIs(b, c, p);
    Reaches(b, c, p, k, j, rest, 32 * k + j, 1024);
    Reaches(b, c, p, k1, j1, rest1, 32 * k1 + j1, 1075);
  }

  lemma {:induction false} Exceeds3()
    ensures Exceeds(3, 647, -679)
  {
    hide Exceeds;
    Exponents(3, 13, 47, 20, 7, 84, 21, 7, 88);
  }

  lemma {:induction false} Exceeds5()
    ensures Exceeds(5, 442, -463)
  {
    hide Exceeds;
    Exponents(5, 315, 66, 13, 26, 166, 14, 15, 151);
  }

  lemma {:induction false} Exceeds6()
    ensures Exceeds(6, 397, -416)
  {
    hide Exceeds;
    Exponents(6, 13, 79, 12, 13, 76, 13, 0, 48);
  }

  lemma {:induction false} Exceeds7()
    ensures Exceeds(7, 365, -383)
  {
    hide Exceeds;
    Exponents(7, 57, 84, 11, 13, 100, 11, 31, 151);
  }

  lemma {:induction false} Exceeds9()
    ensures Exceeds(9, 324, -340)
  {
    hide Exceeds;
    Exponents(9, 5, 99, 10, 4, 34, 10, 20, 85);
  }

  lemma {:induction false} Exceeds10()
    ensures Exceeds(10, 309, -324)
  {
    hide Exceeds;
    Exponents(10, 19, 102, 9, 21, 106, 10, 4, 55);
  }

  lemma {:induction false} Exceeds11()
    ensures Exceeds(11, 297, -311)
  {
    hide Exceeds;
    Exponents(11, 13, 107, 9, 9, 61, 9, 23, 112);
  }

  lemma {:induction false} Exceeds12()
    ensures Exceeds(12, 286, -300)
  {
    hide Exceeds;
    Exponents(12, 13, 111, 8, 30, 136, 9, 12, 76);
  }

  lemma {:induction false} Exceeds13()
    ensures Exceeds(13, 277, -291)
  {
    hide Exceeds;
    Exponents(13, 5, 116, 8, 21, 96, 9, 3, 31);
  }

  lemma {:induction false} Exceeds14()
    ensures Exceeds(14, 269, -283)
  {
    hide Exceeds;
    Exponents(14, 57, 116, 8, 13, 96, 8, 27, 147);
  }

  lemma {:induction false} Exceeds15()
    ensures Exceeds(15, 263, -276)
  {
    hide Exceeds;
    Exponents(15, 1, 125, 8, 7, 24, 8, 20, 75);
  }

  lemma {:induction false} Exceeds17()
    ensures Exceeds(17, 251, -263)
  {
    hide Exceeds;
    Exponents(17, 1781, 120, 7, 27, 184, 8, 7, 115);
  }

  lemma {:induction false} Exceeds18()
    ensures Exceeds(18, 246, -258)
  {
    hide Exceeds;
    Exponents(18, 21, 129, 7, 22, 121, 8, 2, 43);
  }

  lemma {:induction false} Exceeds19()
    ensures Exceeds(19, 242, -254)
  {
    hide Exceeds;
    Exponents(19, 3, 134, 7, 18, 86, 7, 30, 137);
  }

  lemma {:induction false} Exceeds20()
    ensures Exceeds(20, 237, -249)
  {
    hide Exceeds;
    Exponents(20, 39, 133, 7, 13, 93, 7, 25, 144);
  }

  lemma {:induction false} Exceeds21()
    ensures Exceeds(21, 234, -245)
  {
    hide Exceeds;
    Exponents(21, 11, 137, 7, 10, 65, 7, 21, 116);
  }

  lemma {:induction false} Exceeds22()
    ensures Exceeds(22, 230, -242)
  {
    hide Exceeds;
    Exponents(22, 3, 141, 7, 6, 37, 7, 18, 88);
  }

  lemma {:induction false} Exceeds23()
    ensures Exceeds(23, 227, -238)
  {
    hide Exceeds;
    Exponents(23, 3, 143, 7, 3, 23, 7, 14, 74);
  }

  lemma {:induction false} Exceeds24()
    ensures Exceeds(24, 224, -235)
  {
    hide Exceeds;
    Exponents(24, 3, 145, 7, 0, 9, 7, 11, 60);
  }

  lemma {:induction false} Exceeds25()
    ensures Exceeds(25, 221, -232)
  {
    hide Exceeds;
    Exponents(25, 3, 147, 6, 29, 142, 7, 8, 46);
  }

  lemma {:induction false} Exceeds26()
    ensures Exceeds(26, 218, -229)
  {
    hide Exceeds;
    Exponents(26, 5, 148, 6, 26, 136, 7, 5, 39);
  }

  lemma {:induction false} Exceeds27()
    ensures Exceeds(27, 216, -227)
  {
    hide Exceeds;
    Exponents(27, 1, 152, 6, 24, 112, 7, 3, 11);
  }

  lemma {:induction false} Exceeds28()
    ensures Exceeds(28, 214, -224)
  {
    hide Exceeds;
    Exponents(28, 3, 152, 6, 22, 112, 7, 0, 11);
  }

  lemma {:induction false} Exceeds29()
    ensures Exceeds(29, 211, -222)
  {
    hide Exceeds;
    Exponents(29, 5, 153, 6, 19, 106, 6, 30, 157);
  }

  lemma {:induction false} Exceeds30()
    ensures Exceeds(30, 209, -220)
  {
    hide Exceeds;
    Exponents(30, 1, 157, 6, 17, 82, 6, 28, 133);
  }

  lemma {:induction false} Exceeds31()
    ensures Exceeds(31, 207, -217)
  {
    hide Exceeds;
    Exponents(31, 185, 151, 6, 15, 118, 6, 25, 169);
  }

  lemma {:induction false} Exceeds33()
    ensures Exceeds(33, 203, -214)
  {
    hide Exceeds;
    Exponents(33, 685, 152, 6, 11, 112, 6, 22, 163);
  }

  lemma {:induction false} Exceeds34()
    ensures Exceeds(34, 202, -212)
  {
    hide Exceeds;
    Exponents(34, 3, 161, 6, 10, 58, 6, 20, 109);
  }

  lemma {:induction false} Exceeds35()
    ensures Exceeds(35, 200, -210)
  {
    hide Exceeds;
    Exponents(35, 1, 164, 6, 8, 40, 6, 18, 91);
  }

  lemma {:induction false} Exceeds36()
    ensures Exceeds(36, 199, -208)
  {
    hide Exceeds;
    Exponents(36, 21, 161, 6, 7, 58, 6, 16, 109);
  }

  lemma {:induction false} ExceedsAll(radix: nat)
    requires 2 <= radix <= 36 && radix !in {2, 4, 8, 16, 32}
    ensures Exceeds(radix, MAX_EXPONENT[radix - 2], MIN_EXPONENT[radix - 2])
  {
    hide Exceeds;
    match radix
    case 3 => Exceeds3();
    case 5 => Exceeds5();
    case 6 => Exceeds6();
    case 7 => Exceeds7();
    case 9 => Exceeds9();
    case 10 => Exceeds10();
    case 11 => Exceeds11();
    case 12 => Exceeds12();
    case 13 => Exceeds13();
    case 14 => Exceeds14();
    case 15 => Exceeds15();
    case 17 => Exceeds17();
    case 18 => Exceeds18();
    case 19 => Exceeds19();
    case 20 => Exceeds20();
    case 21 => Exceeds21();
    case 22 => Exceeds22();
    case 23 => Exceeds23();
    case 24 => Exceeds24();
    case 25 => Exceeds25();
    case 26 => Exceeds26();
    case 27 => Exceeds27();
    case 28 => Exceeds28();
    case 29 => Exceeds29();
    case 30 => Exceeds30();
    case 31 => Exceeds31();
    case 33 => Exceeds33();
    case 34 => Exceeds34();
    case 35 => Exceeds35();
    case 36 => Exceeds36();
  }

  lemma {:induction false} Enough2()
    ensures EnoughDigits(2, 54)
  {
    hide EnoughDigits;
    Enough(2, 54);
  }

  lemma {:induction false} Enough3()
    ensures EnoughDigits(3, 35)
  {
    hide EnoughDigits;
    Enough(3, 35);
  }

  lemma {:induction false} Enough4()
    ensures EnoughDigits(4, 28)
  {
    hide EnoughDigits;
    Enough(4, 28);
  }

  lemma {:induction false} Enough5()
    ensures EnoughDigits(5, 24)
  {
    hide EnoughDigits;
    Enough(5, 24);
  }

  lemma {:induction false} Enough6()
    ensures EnoughDigits(6, 22)
  {
    hide EnoughDigits;
    Enough(6, 22);
  }

  lemma {:induction false} Enough7()
    ensures EnoughDigits(7, 20)
  {
    hide EnoughDigits;
    Enough(7, 20);
  }

  lemma {:induction false} Enough8()
    ensures EnoughDigits(8, 19)
  {
    hide EnoughDigits;
    Enough(8, 19);
  }

  lemma {:induction false} Enough9()
    ensures EnoughDigits(9, 18)
  {
    hide EnoughDigits;
    Enough(9, 18);
  }

  lemma {:induction false} Enough10()
    ensures EnoughDigits(10, 17)
  {
    hide EnoughDigits;
    Enough(10, 17);
  }

  lemma {:induction false} Enough11()
    ensures EnoughDigits(11, 17)
  {
    hide EnoughDigits;
    Enough(11, 17);
  }

  lemma {:induction false} Enough12()
    ensures EnoughDigits(12, 16)
  {
    hide EnoughDigits;
    Enough(12, 16);
  }

  lemma {:induction false} Enough13()
    ensures EnoughDigits(13, 16)
  {
    hide EnoughDigits;
    Enough(13, 16);
  }

  lemma {:induction false} EnoughTo17(radix: nat)
    requires 14 <= radix <= 17
    ensures EnoughDigits(radix, DTOA_MAX_DIGITS[radix - 2])
  {
    hide EnoughDigits;
    match radix
    case 14 => Enough(14, 15);
    case 15 => Enough(15, 15);
    case 16 => Enough(16, 15);
    case 17 => Enough(17, 14);
  }

  lemma {:induction false} EnoughTo21(radix: nat)
    requires 18 <= radix <= 21
    ensures EnoughDigits(radix, DTOA_MAX_DIGITS[radix - 2])
  {
    hide EnoughDigits;
    match radix
    case 18 => Enough(18, 14);
    case 19 => Enough(19, 14);
    case 20 => Enough(20, 14);
    case 21 => Enough(21, 14);
  }

  lemma {:induction false} EnoughTo25(radix: nat)
    requires 22 <= radix <= 25
    ensures EnoughDigits(radix, DTOA_MAX_DIGITS[radix - 2])
  {
    hide EnoughDigits;
    match radix
    case 22 => Enough(22, 13);
    case 23 => Enough(23, 13);
    case 24 => Enough(24, 13);
    case 25 => Enough(25, 13);
  }

  lemma {:induction false} EnoughTo29(radix: nat)
    requires 26 <= radix <= 29
    ensures EnoughDigits(radix, DTOA_MAX_DIGITS[radix - 2])
  {
    hide EnoughDigits;
    match radix
    case 26 => Enough(26, 13);
    case 27 => Enough(27, 13);
    case 28 => Enough(28, 13);
    case 29 => Enough(29, 12);
  }

  lemma {:induction false} EnoughTo33(radix: nat)
    requires 30 <= radix <= 33
    ensures EnoughDigits(radix, DTOA_MAX_DIGITS[radix - 2])
  {
    hide EnoughDigits;
    match radix
    case 30 => Enough(30, 12);
    case 31 => Enough(31, 12);
    case 32 => Enough(32, 12);
    case 33 => Enough(33, 12);
  }

  lemma {:induction false} EnoughTo36(radix: nat)
    requires 34 <= radix <= 36
    ensures EnoughDigits(radix, DTOA_MAX_DIGITS[radix - 2])
  {
    hide EnoughDigits;
    match radix
    case 34 => Enough(34, 12);
    case 35 => Enough(35, 12);
    case 36 => Enough(36, 12);
  }

  lemma {:induction false} EnoughAll(radix: nat)
    requires 2 <= radix <= 36
    ensures EnoughDigits(radix, DTOA_MAX_DIGITS[radix - 2])
  {
    hide EnoughDigits, Pow;
    match radix
    case 2 => Enough2();
    case 3 => Enough3();
    case 4 => Enough4();
    case 5 => Enough5();
    case 6 => Enough6();
    case 7 => Enough7();
    case 8 => Enough8();
    case 9 => Enough9();
    case 10 => Enough10();
    case 11 => Enough11();
    case 12 => Enough12();
    case 13 => Enough13();
    case 14 => EnoughTo17(14);
    case 15 => EnoughTo17(15);
    case 16 => EnoughTo17(16);
    case 17 => EnoughTo17(17);
    case 18 => EnoughTo21(18);
    case 19 => EnoughTo21(19);
    case 20 => EnoughTo21(20);
    case 21 => EnoughTo21(21);
    case 22 => EnoughTo25(22);
    case 23 => EnoughTo25(23);
    case 24 => EnoughTo25(24);
    case 25 => EnoughTo25(25);
    case 26 => EnoughTo29(26);
    case 27 => EnoughTo29(27);
    case 28 => EnoughTo29(28);
    case 29 => EnoughTo29(29);
    case 30 => EnoughTo33(30);
    case 31 => EnoughTo33(31);
    case 32 => EnoughTo33(32);
    case 33 => EnoughTo33(33);
    case 34 => EnoughTo36(34);
    case 35 => EnoughTo36(35);
    case 36 => EnoughTo36(36);
  }

  /** In a power of two, the digits kept have 55 bits. */
  lemma {:induction false} DigitsOfBits(radix: nat)
    requires radix in {2, 4, 8, 16, 32}
    ensures Pow(radix, ATOD_MAX_DIGITS[radix - 2] - 1) >= Pow(2, 55)
  {
    hide Pow;
    PowPow(2, 1, 63);
    PowPow(2, 2, 31);
    PowPow(2, 3, 20);
    PowPow(2, 4, 15);
    PowPow(2, 5, 11);
    SmallPowers();
    PowGrows(2, 55, 63);
    PowGrows(2, 55, 62);
    PowGrows(2, 55, 60);
  }

  lemma {:induction false} ParserTables(radix1: nat, radix: nat, maxDigits: nat, max: int, min: int)
    requires maxDigits >= 1 && (radix1 == 1 ==> Pow(radix, maxDigits - 1) >= Pow(2, 55))
    requires radix1 != 1 ==> Exceeds(radix, max, min)
    ensures AtodTables(radix1, radix, maxDigits, max, min)
  {
    hide Pow;
  }

  /** The parser keeps all the digits that the printer may need. */
  lemma {:induction false} DigitsKept(radix: nat)
    requires 2 <= radix <= 36
    ensures 1 <= DTOA_MAX_DIGITS[radix - 2] <= ATOD_MAX_DIGITS[radix - 2]
  {
  }

  /** What printing and parsing rely on holds of the entries for every radix. */
  lemma {:induction false} TablesHold(radix: nat, radix1: nat, radixShift: nat)
    requires 2 <= radix <= 36 && OddRadix(radix1) && radix == radix1 * Pow(2, radixShift)
    ensures EnoughDigits(radix, DTOA_MAX_DIGITS[radix - 2]) && DTOA_MAX_DIGITS[radix - 2] <= ATOD_MAX_DIGITS[radix - 2]
    ensures AtodTables(radix1, radix, ATOD_MAX_DIGITS[radix - 2], MAX_EXPONENT[radix - 2], MIN_EXPONENT[radix - 2])
  {
    hide Pow, EnoughDigits, AtodTables, Exceeds;
    EnoughAll(radix);
    DigitsKept(radix);
    BinaryRadices(radix, radix1, radixShift);
    if radix1 == 1 {
      DigitsOfBits(radix);
    } else {
      ExceedsAll(radix);
    }
    ParserTables(radix1, radix, ATOD_MAX_DIGITS[radix - 2], MAX_EXPONENT[radix - 2], MIN_EXPONENT[radix - 2]);
  }
}
