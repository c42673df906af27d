/** js_dtoa in free format and js_atod, for any radix from 2 to 36, with their tables. */
module Conversions {
  import opened Powers
  import opened Scaling
  import opened FreeFormatSearch
  import opened Doubles
  import opened DigitStrings
  import opened Atod
  import opened NumeralLayout
  import opened PrintParse
  import opened ConversionTables

  /** ctz32 and the shift: the odd factor of the radix, and its factor two. */
  method SplitRadix(radix: nat) returns (radix1: nat, radixShift: nat)
    requires 2 <= radix <= 36
    ensures OddRadix(radix1) && radix == radix1 * Pow(2, radixShift)
  {
    PowOne(2);
    radix1, radixShift := radix, 0;
    while radix1 % 2 == 0
      invariant 1 <= radix1 <= 36 && radix == radix1 * Pow(2, radixShift)
      decreases radix1
    {
      MulAssoc(radix1 / 2, 2, Pow(2, radixShift));
      radix1, radixShift := radix1 / 2, radixShift + 1;
    }
  }

  /** js_dtoa in free format: the digits a double is owed, laid out by the rules. */
  method FormatDouble(a: nat, radix: nat, mode: ExpMode) returns (s: Numeral)
    requires a < INFINITY && 2 <= radix <= 36
    ensures ValidDigits(s.digits, radix)
    ensures if a == 0 then Significant(s.digits) == []
            else Owed(s, radix, DTOA_MAX_DIGITS[radix - 2], Mantissa(a), Exponent(a))
    ensures LaidOut(s, mode, radix, DTOA_MAX_DIGITS[radix - 2], a == 0)
  {
    hide Pow, Significant, Owed, LaidOut, Mantissa, Exponent, EnoughDigits, AtodTables;
    var radix1, radixShift := SplitRadix(radix);
    TablesHold(radix, radix1, radixShift);
    s := PrintFree(a, radix1, radixShift, DTOA_MAX_DIGITS[radix - 2], mode);
  }

  /** Formatting and parsing: every double that is not negative comes back. */
  method FormatAndParse(a: nat, radix: nat, mode: ExpMode) returns (b: nat)
    requires a < INFINITY && 2 <= radix <= 36
    ensures b == a
  {
    hide Pow, EnoughDigits, AtodTables;
    var radix1, radixShift := SplitRadix(radix);
    TablesHold(radix, radix1, radixShift);
    b := PrintAndParse(a, radix1, radixShift, DTOA_MAX_DIGITS[radix - 2], mode, ATOD_MAX_DIGITS[radix - 2],
                       MAX_EXPONENT[radix - 2], MIN_EXPONENT[radix - 2]);
  }
}
