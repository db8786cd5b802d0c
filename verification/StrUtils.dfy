/**
 Printing and parsing numbers: itoa, atoi and swap of CommonLib/src/strutils.c. A character is a byte;
 a number is given by its 32 or 64 bits, read as signed or unsigned.
 */
module StrUtils {
  import opened Basics
  import opened MachineWords
  import opened Products

  const NUL: bv8 := 0
  const MINUS: bv8 := 45

  // ---------------------------------------------------------------------------------------------
  // Digits
  // ---------------------------------------------------------------------------------------------

  /** A base in which every number has finitely many digits. */
  type Radix = b: Positive | 2 <= b < DWORD_VALUES witness 10

  /** A base for which there are digits 0-9 and A-Z. */
  type Base = b: Radix | b <= 36 witness 10

  function ToChar(x: nat): bv8 {
    (x % BYTE_VALUES) as bv8
  }

  /** The character stored for a remainder of the base; as an int, a remainder from 2^31 on is negative. */
  function DigitChar(digit: nat): bv8 {
    if 9 < digit < DWORD_VALUES / 2 then ToChar(digit - 10 + 65) else ToChar(digit + 48)
  }

  function ToLower(c: bv8): bv8 {
    c | 0x20
  }

  predicate IsAscii(c: bv8) {
    0x1F < c < 0x80
  }

  /** currentCharValue: MAX_BYTE when the character is no digit in any base. */
  function CharValue(c: bv8): nat {
    var l := ToLower(c);
    if 48 <= l <= 57 then (l - 48) as nat
    else if 97 <= l <= 122 then (l - 97) as nat + 10
    else 255
  }

  lemma DigitHasItsValue(digit: nat)
    requires digit < 36
    ensures CharValue(DigitChar(digit)) == digit
  {
    if digit <= 9 {
      DecimalDigit(digit);
    } else {
      LetterDigit(digit);
    }
  }

  lemma DecimalDigit(digit: nat)
    requires digit <= 9
    ensures CharValue(ToChar(digit + 48)) == digit && 48 <= ToChar(digit + 48) <= 57
  {
    hide CharValue;
    OfDecimal(ToChar(digit + 48));
  }

  lemma OfDecimal(c: bv8)
    requires 48 <= c <= 57
    ensures CharValue(c) == c as nat - 48
  {
  }

  lemma LetterDigit(digit: nat)
    requires 10 <= digit < 36
    ensures CharValue(ToChar(digit - 10 + 65)) == digit && 65 <= ToChar(digit - 10 + 65) <= 90
  {
    hide CharValue;
    OfLetter(ToChar(digit - 10 + 65));
  }

  lemma OfLetter(c: bv8)
    requires 65 <= c <= 90
    ensures CharValue(c) == c as nat - 55
  {
    assert ToLower(c) == c + 32;
  }

  lemma DigitIsPrintable(digit: nat)
    requires digit < 36
    ensures IsAscii(DigitChar(digit)) && DigitChar(digit) != MINUS && DigitChar(digit) != NUL
  {
    hide ToChar;
    hide IsAscii;
    PrintableFrom48(if digit > 9 then digit + 55 else digit + 48);
  }

  lemma PrintableFrom48(x: nat)
    requires 48 <= x < 128
    ensures IsAscii(ToChar(x)) && ToChar(x) != MINUS && ToChar(x) != NUL
  {
  }

  /** The digits of a positive number, most significant first; none for zero. */
  function DigitsOf(value: nat, base: Radix): seq<bv8> {
    if value == 0 then []
    else
      QuotientDecreases(value, base);
      DigitsOf(Quotient(value, base), base) + [DigitChar(Remainder(value, base))]
  }

  /** The digits of a number; in base 1 only zero has any. */
  function Numeral(value: nat, base: Positive): seq<bv8>
    requires base < DWORD_VALUES && (base == 1 ==> value == 0)
  {
    if value == 0 then [DigitChar(0)] else DigitsOf(value, base)
  }

  lemma QuotientDecreases(value: nat, base: Positive)
    requires value > 0 && base > 1
    ensures Quotient(value, base) < value
  {
    Division(value, base);
    TimesGrows(2, base, Quotient(value, base));
  }

  // ---------------------------------------------------------------------------------------------
  // Numbers in machine words
  // ---------------------------------------------------------------------------------------------

  /** The raw bits of a number that is 32 or 64 bits wide. */
  predicate IsRaw(raw: nat, is64BitValue: bool) {
    raw < if is64BitValue then QWORD_VALUES else DWORD_VALUES
  }

  predicate IsNegative(raw: nat, signedValue: bool, is64BitValue: bool) {
    signedValue && raw >= if is64BitValue then QWORD_VALUES / 2 else DWORD_VALUES / 2
  }

  /** The number that the raw bits stand for. */
  function NumberOf(raw: nat, signedValue: bool, is64BitValue: bool): int {
    if !IsNegative(raw, signedValue, is64BitValue) then raw
    else if is64BitValue then raw - QWORD_VALUES else raw - DWORD_VALUES
  }

  function ToQword(x: int): nat {
    x % QWORD_VALUES
  }

  function ToDword(x: int): nat {
    x % DWORD_VALUES
  }

  /** Negation of an INT32, which leaves the least one as it is. */
  function NegateInt32(x: int): int {
    if x == -(DWORD_VALUES / 2) then x else -x
  }

  /** The QWORD whose digits are printed. */
  function Magnitude(raw: nat, signedValue: bool, is64BitValue: bool): nat {
    if !IsNegative(raw, signedValue, is64BitValue) then raw
    else if is64BitValue then ToQword(-(raw - QWORD_VALUES))
    else ToQword(NegateInt32(raw - DWORD_VALUES))
  }

  /** What itoa prints, without the terminator. */
  function Printed(raw: nat, signedValue: bool, base: Positive, is64BitValue: bool): seq<bv8>
    requires base < DWORD_VALUES && (base == 1 ==> raw == 0)
  {
    (if IsNegative(raw, signedValue, is64BitValue) then [MINUS] else [])
    + Numeral(Magnitude(raw, signedValue, is64BitValue), base)
  }

  // ---------------------------------------------------------------------------------------------
  // What a text means, and what atoi makes of it
  // ---------------------------------------------------------------------------------------------

  /** The natural number that a string of digits denotes. */
  function ValueOfDigits(digits: seq<bv8>, base: Positive): nat {
    if digits == [] then 0
    else Times(ValueOfDigits(digits[..|digits| - 1], base), base) + CharValue(digits[|digits| - 1])
  }

  function Denoted(text: seq<bv8>, base: Positive): int {
    if text != [] && text[0] == MINUS then 0 - ValueOfDigits(text[1..], base) as int
    else ValueOfDigits(text, base)
  }

  /** The loop of atoi on a QWORD; None when one of its ASSERTs fires. */
  function Accumulate(digits: seq<bv8>, base: nat): Option<nat> {
    if digits == [] then Some(0)
    else
      var before := Accumulate(digits[..|digits| - 1], base);
      var c := digits[|digits| - 1];
      if before.None? || !IsAscii(c) || CharValue(c) >= base then None
      else Some(ToQword(Times(before.value, base) + CharValue(c)))
  }

  /** atoi; None when it is stopped. */
  function Parsed(text: seq<bv8>, base: nat, is64BitValue: bool): Option<nat> {
    var negative := text != [] && text[0] == MINUS;
    var value := Accumulate(if negative then text[1..] else text, base);
    if base == 0 || value.None? then None
    else
      var qword := if negative then ToQword(0 - value.value) else value.value;
      if is64BitValue then Some(qword)
      else if !negative && qword > MAX_DWORD then None
      else Some(ToDword(qword))
  }

  // ---------------------------------------------------------------------------------------------
  // Round trips
  // ---------------------------------------------------------------------------------------------

  lemma {:induction false} DigitsDenoteTheValue(value: nat, base: Base)
    ensures ValueOfDigits(DigitsOf(value, base), base) == value
    ensures value < QWORD_VALUES ==> Accumulate(DigitsOf(value, base), base) == Some(value)
  {
    hide Times;
    hide Quotient;
    hide Remainder;
    hide DigitChar;
    hide CharValue;
    hide ToQword;
    WordArithmetic(value);
    if value == 0 {
    } else {
      QuotientDecreases(value, base);
      var q, r := Quotient(value, base), Remainder(value, base);
      var digits := DigitsOf(value, base);
      assert digits[..|digits| - 1] == DigitsOf(q, base);
      DigitsDenoteTheValue(q, base);
      DigitHasItsValue(r);
      DigitIsPrintable(r);
      Division(value, base);
    }
  }

  lemma NumeralDenotesTheValue(value: nat, base: Base)
    requires value < QWORD_VALUES
    ensures ValueOfDigits(Numeral(value, base), base) == value
    ensures Accumulate(Numeral(value, base), base) == Some(value)
    ensures |Numeral(value, base)| > 0 && Numeral(value, base)[0] != MINUS
  {
    hide DigitChar;
    hide CharValue;
    hide ToQword;
    WordArithmetic(0);
    DigitsDenoteTheValue(value, base);
    if value == 0 {
      DigitHasItsValue(0);
      DigitIsPrintable(0);
      assert Numeral(value, base)[..0] == [];
      TimesZero(base);
    } else {
      NoLeadingZero(value, base);
      DigitHasItsValue(0);
    }
  }

  /** The digit string of a positive number does not start with a zero, or with anything but a digit. */
  lemma {:induction false} NoLeadingZero(value: nat, base: Base)
    requires value > 0
    ensures DigitsOf(value, base) != []
    ensures CharValue(DigitsOf(value, base)[0]) != 0 && DigitsOf(value, base)[0] != DigitChar(0)
    ensures DigitsOf(value, base)[0] != MINUS
  {
    hide Times;
    hide DigitChar;
    hide CharValue;
    QuotientDecreases(value, base);
    var q := Quotient(value, base);
    DigitHasItsValue(Remainder(value, base));
    DigitIsPrintable(Remainder(value, base));
    DigitHasItsValue(0);
    Division(value, base);
    if q > 0 {
      NoLeadingZero(q, base);
    } else {
      TimesZero(base);
    }
  }

  lemma WordArithmetic(x: int)
    ensures 0 <= x < QWORD_VALUES ==> ToQword(x) == x
    ensures -QWORD_VALUES <= x < 0 ==> ToQword(x) == x + QWORD_VALUES
    ensures 0 <= x < DWORD_VALUES ==> ToDword(x) == x
  {
  }

  lemma LowDword(x: int)
    requires 0 <= x < DWORD_VALUES
    ensures ToDword(x + (QWORD_VALUES - DWORD_VALUES)) == x
  {
  }

  /** The magnitude is that of the number, but for the least INT32; and negating it gives the bits back. */
  lemma SignIsRestored(raw: nat, signedValue: bool, is64BitValue: bool)
    requires IsRaw(raw, is64BitValue)
    ensures raw == 0 ==> Magnitude(raw, signedValue, is64BitValue) == 0
    ensures
      var magnitude := Magnitude(raw, signedValue, is64BitValue);
      var number := NumberOf(raw, signedValue, is64BitValue);
      if IsNegative(raw, signedValue, is64BitValue) then
        && 0 < magnitude < QWORD_VALUES
        && (magnitude == -number <==> is64BitValue || raw != DWORD_VALUES / 2)
        && ToQword(0 - magnitude) < QWORD_VALUES
        && (if is64BitValue then ToQword(0 - magnitude) else ToDword(ToQword(0 - magnitude))) == raw
      else magnitude == raw && number == raw && (!is64BitValue ==> ToDword(raw) == raw)
  {
    hide ToQword;
    hide ToDword;
    var magnitude := Magnitude(raw, signedValue, is64BitValue);
    var signed: int := magnitude;
    WordArithmetic(raw);
    if IsNegative(raw, signedValue, is64BitValue) {
      if is64BitValue {
        WordArithmetic(QWORD_VALUES - raw);
      } else {
        WordArithmetic(NegateInt32(raw - DWORD_VALUES));
        if raw != DWORD_VALUES / 2 {
          LowDword(raw);
        }
      }
      WordArithmetic(-signed);
    }
  }

  /** atoi undoes itoa for all 32- and 64-bit values, signed and unsigned, in every base. */
  lemma AtoiUndoesItoa(raw: nat, signedValue: bool, base: Base, is64BitValue: bool)
    requires IsRaw(raw, is64BitValue)
    ensures Parsed(Printed(raw, signedValue, base, is64BitValue), base, is64BitValue) == Some(raw)
  {
    hide Numeral;
    hide Accumulate;
    hide Magnitude;
    hide ToQword;
    hide ToDword;
    SignIsRestored(raw, signedValue, is64BitValue);
    var magnitude := Magnitude(raw, signedValue, is64BitValue);
    NumeralDenotesTheValue(magnitude, base);
    var text := Printed(raw, signedValue, base, is64BitValue);
    if IsNegative(raw, signedValue, is64BitValue) {
      assert text[1..] == Numeral(magnitude, base);
    } else {
      assert text == Numeral(magnitude, base);
    }
  }

  /**
   What is printed denotes the number, except for the least 32-bit signed number: its negation overflows
   and is widened with its sign.
   */
  lemma PrintsTheNumber(raw: nat, signedValue: bool, base: Base, is64BitValue: bool)
    requires IsRaw(raw, is64BitValue)
    ensures Denoted(Printed(raw, signedValue, base, is64BitValue), base) == NumberOf(raw, signedValue, is64BitValue)
            <==> !(signedValue && !is64BitValue && raw == DWORD_VALUES / 2)
  {
    hide Numeral;
    hide ValueOfDigits;
    hide Magnitude;
    hide NumberOf;
    SignIsRestored(raw, signedValue, is64BitValue);
    var magnitude := Magnitude(raw, signedValue, is64BitValue);
    NumeralDenotesTheValue(magnitude, base);
    var text := Printed(raw, signedValue, base, is64BitValue);
    if IsNegative(raw, signedValue, is64BitValue) {
      assert text[1..] == Numeral(magnitude, base);
    } else {
      assert text == Numeral(magnitude, base);
    }
  }

  /** 36 is the first number whose digit is misread, in every base that has such a digit. */
  lemma NoDigitFor36(base: Radix, is64BitValue: bool)
    requires base > 36
    ensures Parsed(Printed(36, false, base, is64BitValue), base, is64BitValue) != Some(36)
  {
    hide ToChar;
    hide CharValue;
    hide IsAscii;
    hide Times;
    hide Quotient;
    hide Remainder;
    hide ToQword;
    hide ToDword;
    TimesZero(base);
    DivideExactly(0, 36, base);
    var bracket := ToChar(91);
    assert Printed(36, false, base, is64BitValue) == [bracket] by {
      assert DigitsOf(0, base) == [];
    }
    BracketIsNoDigit();
    OneCharacter(bracket, base);
    WordArithmetic(255);
  }

  lemma OneCharacter(c: bv8, base: nat)
    ensures Accumulate([c], base) == if !IsAscii(c) || CharValue(c) >= base then None else Some(CharValue(c))
  {
    hide CharValue;
    hide IsAscii;
    assert [c][..0] == [];
    TimesZero(base);
    CharValueIsSmall(c);
    WordArithmetic(CharValue(c));
  }

  lemma CharValueIsSmall(c: bv8)
    ensures CharValue(c) < BYTE_VALUES
  {
  }

  lemma BracketIsNoDigit()
    ensures CharValue(ToChar(91)) == 255 && ToChar(91) != MINUS
  {
  }

  /** The round trip needs a character of its own for every digit: it holds for all values up to base 36 only. */
  lemma RoundTripExactly(signedValue: bool, base: Radix, is64BitValue: bool)
    ensures (forall raw: nat | IsRaw(raw, is64BitValue) ::
               Parsed(Printed(raw, signedValue, base, is64BitValue), base, is64BitValue) == Some(raw))
            <==> base <= 36
  {
    hide Parsed;
    hide Printed;
    if base <= 36 {
      forall raw: nat | IsRaw(raw, is64BitValue)
        ensures Parsed(Printed(raw, signedValue, base, is64BitValue), base, is64BitValue) == Some(raw)
      {
        AtoiUndoesItoa(raw, signedValue, base, is64BitValue);
      }
    } else {
      SmallNumbersHaveNoSign(36, signedValue, base, is64BitValue);
      NoDigitFor36(base, is64BitValue);
    }
  }

  lemma SmallNumbersHaveNoSign(raw: nat, signedValue: bool, base: Radix, is64BitValue: bool)
    requires raw < DWORD_VALUES / 2
    ensures Printed(raw, signedValue, base, is64BitValue) == Printed(raw, false, base, is64BitValue)
  {
  }

  /** The value after n rounds of the digit loop. */
  function AfterRounds(value: nat, base: Positive, n: nat): nat
    decreases n
  {
    if n == 0 then value else AfterRounds(Quotient(value, base), base, n - 1)
  }

  /** The digit loop of itoa ends for every value in every base but 1, where it ends for zero only. */
  lemma DigitLoopEndsExactly(value: nat, base: Positive)
    ensures (exists n: nat :: AfterRounds(value, base, n) == 0) <==> value == 0 || base > 1
  {
    hide Quotient;
    if value == 0 {
      assert AfterRounds(value, base, 0) == 0;
    } else if base > 1 {
      EnoughRounds(value, base, value);
    } else {
      forall n: nat
        ensures AfterRounds(value, base, n) == value
      {
        NoRoundChangesIt(value, n);
      }
    }
  }

  lemma {:induction false} EnoughRounds(value: nat, base: Positive, n: nat)
    requires base > 1 && value <= n
    ensures AfterRounds(value, base, n) == 0
    decreases n
  {
    hide Times;
    hide Quotient;
    if n == 0 {
    } else {
      QuotientIsSmaller(value, base);
      if value > 0 {
        QuotientDecreases(value, base);
      }
      EnoughRounds(Quotient(value, base), base, n - 1);
    }
  }

  lemma {:induction false} NoRoundChangesIt(value: nat, n: nat)
    ensures AfterRounds(value, 1, n) == value
  {
    if n == 0 {
    } else {
      NoRoundChangesIt(value, n - 1);
    }
  }

  /** What itoa prints: a minus sign in front of a negative number, and otherwise digits and capital letters. */
  lemma {:induction false} DigitsAreCharacters(value: nat, base: Base, i: nat)
    requires i < |DigitsOf(value, base)|
    ensures 48 <= DigitsOf(value, base)[i] <= 57 || 65 <= DigitsOf(value, base)[i] <= 90
    decreases value
  {
    hide Quotient;
    hide Remainder;
    QuotientDecreases(value, base);
    if i == |DigitsOf(Quotient(value, base), base)| {
      DigitInNumbers(Remainder(value, base));
    } else {
      DigitsAreCharacters(Quotient(value, base), base, i);
    }
  }

  lemma DigitInNumbers(digit: nat)
    requires digit < 36
    ensures if digit < 10 then 48 <= DigitChar(digit) <= 57 else 65 <= DigitChar(digit) <= 90
  {
    hide ToChar;
    if digit < 10 {
      DecimalDigit(digit);
    } else {
      LetterDigit(digit);
    }
  }

  lemma PrintedCharacters(raw: nat, signedValue: bool, base: Base, is64BitValue: bool, i: nat)
    requires IsRaw(raw, is64BitValue) && i < |Printed(raw, signedValue, base, is64BitValue)|
    ensures
      var c := Printed(raw, signedValue, base, is64BitValue)[i];
      if i == 0 && NumberOf(raw, signedValue, is64BitValue) < 0 then c == 45
      else 48 <= c <= 57 || 65 <= c <= 90
  {
    hide Magnitude;
    var negative := IsNegative(raw, signedValue, is64BitValue);
    var magnitude := Magnitude(raw, signedValue, is64BitValue);
    if magnitude > 0 && (i > 0 || !negative) {
      DigitsAreCharacters(magnitude, base, if negative then i - 1 else i);
    }
    DigitInNumbers(0);
  }

  /** As an int, a remainder from 2^31 on is negative, and no letter is made of it. */
  lemma WideDigits(digit: nat)
    requires digit < DWORD_VALUES
    ensures DigitChar(digit) == ((if 10 <= digit < 0x8000_0000 then digit + 55 else digit + 48) % 256) as bv8
  {
  }

  /** Base 0 stops; in any other base no digits are 0. */
  lemma NothingParsed(text: seq<bv8>, base: nat, is64BitValue: bool)
    ensures Parsed(text, 0, is64BitValue).None?
    ensures base > 0 ==> Parsed([], base, is64BitValue) == Some(0) && Parsed([45], base, is64BitValue) == Some(0)
  {
    assert [MINUS][1..] == [];
    WordArithmetic(0);
  }

  /** The printable characters that atoi takes, with their values; 255 for all others. */
  lemma DigitsInNumbers(c: bv8)
    requires 0x20 <= c < 0x80
    ensures 48 <= c <= 57 ==> CharValue(c) == c as nat - 48
    ensures 65 <= c <= 90 ==> CharValue(c) == c as nat - 55
    ensures 97 <= c <= 122 ==> CharValue(c) == c as nat - 87
    ensures !(48 <= c <= 57 || 65 <= c <= 90 || 97 <= c <= 122) ==> CharValue(c) == 255
  {
    if 48 <= c <= 57 {
      OfDecimal(c);
    } else if 65 <= c <= 90 {
      OfLetter(c);
    }
  }

  lemma PrintableInNumbers(c: bv8)
    ensures IsAscii(c) <==> 0x20 <= c < 0x80
  {
  }

  lemma SameDigit(c: bv8)
    requires 65 <= c <= 90
    ensures CharValue(c + 32) == CharValue(c) && IsAscii(c + 32) && IsAscii(c) && c + 32 != MINUS
  {
    OfLetter(c);
  }

  lemma {:induction false} CaseIsIgnored(upper: seq<bv8>, lower: seq<bv8>, base: nat)
    requires |upper| == |lower|
    requires forall i :: 0 <= i < |upper|
                         ==> lower[i] == upper[i] || (65 <= upper[i] <= 90 && lower[i] == upper[i] + 32)
    ensures Accumulate(lower, base) == Accumulate(upper, base)
  {
    hide CharValue;
    hide IsAscii;
    hide Times;
    hide ToQword;
    if upper == [] {
    } else {
      var n := |upper| - 1;
      CaseIsIgnored(upper[..n], lower[..n], base);
      if lower[n] != upper[n] {
        SameDigit(upper[n]);
      }
    }
  }

  /** atoi makes no difference between an upper case letter and the lower case one, 32 above it. */
  lemma ParsedIgnoresCase(upper: seq<bv8>, lower: seq<bv8>, base: nat, is64BitValue: bool)
    requires |upper| == |lower|
    requires forall i :: 0 <= i < |upper|
                         ==> lower[i] == upper[i] || (65 <= upper[i] <= 90 && lower[i] == upper[i] + 32)
    ensures Parsed(lower, base, is64BitValue) == Parsed(upper, base, is64BitValue)
  {
    hide Accumulate;
    hide ToQword;
    hide ToDword;
    CaseIsIgnored(upper, lower, base);
    if upper != [] {
      CaseIsIgnored(upper[1..], lower[1..], base);
      if lower[0] != upper[0] {
        SameDigit(upper[0]);
      }
    }
  }

  /** A numeral as itoa writes it: digits of the base, and no zero in front of others. */
  predicate Canonical(digits: seq<bv8>, base: Base) {
    && |digits| > 0 && (|digits| > 1 ==> digits[0] != DigitChar(0))
    && forall i :: 0 <= i < |digits| ==> IsDigitOf(digits[i], base)
  }

  predicate IsDigitOf(c: bv8, base: Base) {
    CharValue(c) < base && c == DigitChar(CharValue(c))
  }

  /** itoa undoes atoi: every numeral in that form is the one that is printed for its value. */
  lemma {:induction false} CanonicalIsPrinted(digits: seq<bv8>, base: Base)
    requires Canonical(digits, base)
    ensures Numeral(ValueOfDigits(digits, base), base) == digits
  {
    hide Times;
    hide Quotient;
    hide Remainder;
    hide DigitChar;
    hide CharValue;
    var front, last := digits[..|digits| - 1], digits[|digits| - 1];
    assert IsDigitOf(last, base);
    var value := ValueOfDigits(digits, base);
    DivideExactly(ValueOfDigits(front, base), CharValue(last), base);
    DigitHasItsValue(0);
    TimesZero(base);
    if front == [] {
      if value > 0 {
        assert DigitsOf(0, base) == [];
      }
    } else {
      CanonicalIsPrinted(front, base);
      assert ValueOfDigits(front, base) > 0 by {
        assert IsDigitOf(front[0], base);
      }
      TimesPositive(ValueOfDigits(front, base), base);
    }
  }

  function Power(b: nat, k: nat): nat {
    if k == 0 then 1 else b * Power(b, k - 1)
  }

  /** A number below radix^k has at most k digits in any base that is not smaller than the radix. */
  lemma {:induction false} DigitCount(value: nat, base: Base, radix: nat, k: nat)
    requires 0 < radix <= base && value < Power(radix, k)
    ensures |DigitsOf(value, base)| <= k
    decreases k
  {
    hide Times;
    hide Quotient;
    hide Remainder;
    hide Power;
    if value == 0 {
    } else {
      PowerStep(radix, k);
      var q, below := Quotient(value, base), Power(radix, k - 1);
      TimesGrows(radix, base, below);
      TimesCommutes(base, below);
      QuotientBelow(value, below, base);
      DigitCount(q, base, radix, k - 1);
    }
  }

  lemma PowerStep(b: nat, k: nat)
    ensures Power(b, k) == if k == 0 then 1 else Times(b, Power(b, k - 1))
  {
  }

  lemma QwordIsAPower()
    ensures Power(2, 64) == QWORD_VALUES && Power(4, 32) == QWORD_VALUES
  {
    assert Power(2, 1) == 2 && Power(4, 1) == 4;
    PowerOfSum(2, 1, 1);
    PowerOfSum(2, 2, 2);
    PowerOfSum(2, 4, 4);
    PowerOfSum(2, 8, 8);
    PowerOfSum(2, 16, 16);
    PowerOfSum(2, 32, 32);
    PowerOfSum(4, 1, 1);
    PowerOfSum(4, 2, 2);
    PowerOfSum(4, 4, 4);
    PowerOfSum(4, 8, 8);
    PowerOfSum(4, 16, 16);
  }

  lemma {:induction false} PowerOfSum(b: nat, j: nat, k: nat)
    ensures Power(b, j + k) == Power(b, j) * Power(b, k)
  {
    if j == 0 {
    } else {
      PowerOfSum(b, j - 1, k);
      assert b * (Power(b, j - 1) * Power(b, k)) == (b * Power(b, j - 1)) * Power(b, k);
    }
  }

  /** In memory a number takes at most 65 bytes, and in a base from 4 on at most 34. */
  lemma PrintedLength(raw: nat, signedValue: bool, base: Base, is64BitValue: bool)
    requires IsRaw(raw, is64BitValue)
    ensures |Printed(raw, signedValue, base, is64BitValue)| <= 64 + (if signedValue then 1 else 0)
    ensures base >= 4 ==> |Printed(raw, signedValue, base, is64BitValue)| <= 33
  {
    hide Power;
    hide Magnitude;
    SignIsRestored(raw, signedValue, is64BitValue);
    QwordIsAPower();
    var magnitude := Magnitude(raw, signedValue, is64BitValue);
    DigitCount(magnitude, base, 2, 64);
    if base >= 4 {
      DigitCount(magnitude, base, 4, 32);
    }
  }

  lemma {:induction false} DigitsAreNotNul(value: nat, base: Base)
    ensures NUL !in DigitsOf(value, base)
  {
    hide DigitChar;
    if value == 0 {
    } else {
      QuotientDecreases(value, base);
      DigitIsPrintable(Remainder(value, base));
      DigitsAreNotNul(Quotient(value, base), base);
    }
  }

  lemma PrintedHasNoTerminator(raw: nat, signedValue: bool, base: Base, is64BitValue: bool)
    ensures NUL !in Printed(raw, signedValue, base, is64BitValue)
  {
    hide DigitChar;
    hide Magnitude;
    DigitIsPrintable(0);
    DigitsAreNotNul(Magnitude(raw, signedValue, is64BitValue), base);
  }

  // ---------------------------------------------------------------------------------------------
  // swap, itoa and atoi on memory
  // ---------------------------------------------------------------------------------------------

  function Reversed(s: seq<bv8>): (r: seq<bv8>)
    ensures |r| == |s|
  {
    seq(|s|, i requires 0 <= i < |s| => s[|s| - 1 - i])
  }

  lemma ReversedOneMore(s: seq<bv8>, c: bv8)
    ensures Reversed(s + [c]) == [c] + Reversed(s)
  {
  }

  function Xor(x: bv8, y: bv8): bv8 {
    x ^ y
  }

  lemma ExclusiveOrThrice(x: bv8, y: bv8)
    ensures Xor(y, Xor(x, y)) == x && Xor(Xor(x, y), x) == y && Xor(x, x) == 0
  {
  }

  /** swap: exchanges two bytes with exclusive ors; on one and the same byte it would leave 0. */
  method Swap(buffer: array<bv8>, i: nat, j: nat)
    requires i < buffer.Length && j < buffer.Length
    modifies buffer
    ensures i != j ==> buffer[i] == old(buffer[j]) && buffer[j] == old(buffer[i])
    ensures i == j ==> buffer[i] == 0
    ensures forall k :: 0 <= k < buffer.Length && k != i && k != j ==> buffer[k] == old(buffer[k])
  {
    hide Xor;
    ExclusiveOrThrice(buffer[i], buffer[j]);
    ExclusiveOrThrice(0, 0);
    buffer[i] := Xor(buffer[i], buffer[j]);
    buffer[j] := Xor(buffer[j], buffer[i]);
    buffer[i] := Xor(buffer[i], buffer[j]);
  }

  /** The last loop of itoa: the operands of swap are never the same byte. */
  method ReversePrefix(buffer: array<bv8>, index: nat)
    requires index <= buffer.Length
    modifies buffer
    ensures buffer[..index] == Reversed(old(buffer[..index]))
    ensures forall k :: index <= k < buffer.Length ==> buffer[k] == old(buffer[k])
  {
    for i := 0 to index / 2
      invariant forall k :: 0 <= k < i || index - i <= k < index ==> buffer[k] == old(buffer[index - 1 - k])
      invariant forall k :: i <= k < index - i || index <= k < buffer.Length ==> buffer[k] == old(buffer[k])
    {
      assert i != index - i - 1;
      Swap(buffer, i, index - i - 1);
    }
  }

  /** The digits that are still to be put. */
  function DigitsLeft(value: nat, base: Positive): seq<bv8>
    requires base < DWORD_VALUES && (base == 1 ==> value == 0)
  {
    if value == 0 then [] else DigitsOf(value, base)
  }

  lemma OneMoreDigit(value: nat, base: Positive, put: seq<bv8>)
    requires 1 < base < DWORD_VALUES && value > 0
    ensures DigitsLeft(value, base) + Reversed(put)
            == DigitsLeft(Quotient(value, base), base) + Reversed(put + [DigitChar(Remainder(value, base))])
  {
    hide Quotient;
    hide Remainder;
    hide DigitChar;
    hide Reversed;
    var front, digit := DigitsOf(Quotient(value, base), base), DigitChar(Remainder(value, base));
    ReversedOneMore(put, digit);
    assert front == DigitsLeft(Quotient(value, base), base);
    assert (front + [digit]) + Reversed(put) == front + ([digit] + Reversed(put));
  }

  lemma AllDigits(value: nat, base: Positive)
    requires base < DWORD_VALUES && (base == 1 ==> value == 0)
    ensures DigitsLeft(0, base) == []
    ensures Numeral(value, base) == if value == 0 then [DigitChar(0)] else DigitsLeft(value, base) + Reversed([])
    ensures Reversed([DigitChar(0)]) == [DigitChar(0)]
  {
    hide DigitChar;
    hide Quotient;
    hide Remainder;
  }

  /** The digit loop of itoa: the digits from the last to the first. */
  method PutDigits(number: nat, buffer: array<bv8>, base: Positive) returns (index: nat)
    requires base < DWORD_VALUES && (base == 1 ==> number == 0)
    requires |Numeral(number, base)| <= buffer.Length
    modifies buffer
    ensures index == |Numeral(number, base)| && Reversed(buffer[..index]) == Numeral(number, base)
    ensures forall k :: index <= k < buffer.Length ==> buffer[k] == old(buffer[k])
  {
    hide Quotient;
    hide Remainder;
    hide DigitChar;
    hide DigitsLeft;
    hide Numeral;
    hide Reversed;
    AllDigits(number, base);
    SomethingLeft(number, base);
    index := 0;
    var value := number;
    ghost var numeral := Numeral(number, base);
    if value == 0 {
      buffer[index] := DigitChar(0);
      index := index + 1;
      assert buffer[..index] == [DigitChar(0)];
    }
    while value != 0
      invariant index <= |numeral|
      invariant value != 0 ==> base > 1 && index < |numeral|
      invariant numeral == DigitsLeft(value, base) + Reversed(buffer[..index])
      invariant forall k :: |numeral| <= k < buffer.Length ==> buffer[k] == old(buffer[k])
      decreases value
    {
      QuotientDecreases(value, base);
      OneMoreDigit(value, base, buffer[..index]);
      var digit := Remainder(value, base);
      buffer[index] := DigitChar(digit);
      value := Quotient(value, base);
      index := index + 1;
      assert buffer[..index] == buffer[..index - 1] + [DigitChar(digit)];
      SomethingLeft(value, base);
    }
  }

  lemma SomethingLeft(value: nat, base: Positive)
    requires base < DWORD_VALUES && (base == 1 ==> value == 0)
    ensures value > 0 <==> DigitsLeft(value, base) != []
  {
    hide DigitChar;
    hide Quotient;
    hide Remainder;
  }

  /** itoa; base 0 is stopped, and in base 1 the loop ends only for zero. */
  method Itoa(raw: nat, signedValue: bool, buffer: array<bv8>, base: nat, is64BitValue: bool) returns (stopped: bool)
    requires IsRaw(raw, is64BitValue) && base < DWORD_VALUES && (base == 1 ==> raw == 0)
    requires base != 0 ==> |Printed(raw, signedValue, base, is64BitValue)| < buffer.Length
    modifies buffer
    ensures stopped <==> base == 0
    ensures stopped ==> buffer[..] == old(buffer[..])
    ensures
      !stopped
      ==> var text := Printed(raw, signedValue, base, is64BitValue);
          && buffer[..|text|] == text && buffer[|text|] == 0
          && forall k :: |text| < k < buffer.Length ==> buffer[k] == old(buffer[k])
  {
    hide Numeral;
    hide Magnitude;
    hide IsNegative;
    hide Reversed;
    if base == 0 {
      return true;
    }
    SignIsRestored(raw, signedValue, is64BitValue);
    var negative := IsNegative(raw, signedValue, is64BitValue);
    var value := Magnitude(raw, signedValue, is64BitValue);
    var index := PutDigits(value, buffer, base);
    if negative {
      buffer[index] := MINUS;
      index := index + 1;
      ReversedOneMore(buffer[..index - 1], MINUS);
      assert buffer[..index] == buffer[..index - 1] + [MINUS];
    }
    assert Reversed(buffer[..index]) == Printed(raw, signedValue, base, is64BitValue);
    buffer[index] := NUL;
    ReversePrefix(buffer, index);
    stopped := false;
  }

  /** The text in a buffer that holds a terminator. */
  function TextOf(bytes: seq<bv8>): seq<bv8> {
    if bytes == [] || bytes[0] == NUL then [] else [bytes[0]] + TextOf(bytes[1..])
  }

  lemma {:induction false} TextEndsAtTheTerminator(bytes: seq<bv8>)
    ensures |TextOf(bytes)| <= |bytes| && TextOf(bytes) == bytes[..|TextOf(bytes)|]
    ensures 0 !in TextOf(bytes)
    ensures |TextOf(bytes)| < |bytes| ==> bytes[|TextOf(bytes)|] == 0
    ensures 0 in bytes ==> |TextOf(bytes)| < |bytes|
  {
    if bytes == [] || bytes[0] == NUL {
    } else {
      TextEndsAtTheTerminator(bytes[1..]);
    }
  }

  lemma {:induction false} TextBeforeTerminator(text: seq<bv8>, rest: seq<bv8>)
    requires NUL !in text
    ensures TextOf(text + [NUL] + rest) == text
  {
    if text == [] {
    } else {
      assert (text + [NUL] + rest)[1..] == text[1..] + [NUL] + rest;
      TextBeforeTerminator(text[1..], rest);
    }
  }

  method Atoi(buffer: array<bv8>, base: nat, is64BitValue: bool) returns (value: Option<nat>)
    requires 0 in buffer[..] && base < DWORD_VALUES
    ensures value == Parsed(TextOf(buffer[..]), base, is64BitValue)
  {
    hide Times;
    hide CharValue;
    hide IsAscii;
    hide ToQword;
    hide ToDword;
    hide TextOf;
    hide Accumulate;
    if base == 0 {
      return None;
    }
    ghost var text := TextOf(buffer[..]);
    TextEndsAtTheTerminator(buffer[..]);
    var i, qword, negative := 0, 0, false;
    if buffer[0] == MINUS {
      negative := true;
      i := 1;
    }
    ghost var start := i;
    ghost var digits := text[start..];
    AccumulateNothing(base);
    assert digits[..0] == [] && text[0..] == text;
    assert forall k :: 0 <= k < |digits| ==> digits[k] == buffer[start + k];
    while buffer[i] != NUL
      invariant start <= i <= start + |digits|
      invariant Accumulate(digits[..i - start], base) == Some(qword)
      decreases |text| - i
    {
      AccumulateOneMore(digits, i - start, base);
      if !IsAscii(buffer[i]) || CharValue(buffer[i]) >= base {
        return None;
      }
      qword := ToQword(Times(qword, base) + CharValue(buffer[i]));
      i := i + 1;
    }
    assert digits[..i - start] == digits;
    if negative {
      qword := ToQword(0 - qword);
    }
    if is64BitValue {
      return Some(qword);
    }
    if !negative && qword > MAX_DWORD {
      return None;
    }
    value := Some(ToDword(qword));
  }

  lemma AccumulateNothing(base: nat)
    ensures Accumulate([], base) == Some(0)
  {
  }

  /** One step of the loop; once stopped, the rest of the text makes no difference. */
  lemma AccumulateOneMore(digits: seq<bv8>, k: nat, base: nat)
    requires k < |digits| && Accumulate(digits[..k], base).Some?
    ensures
      var c := digits[k];
      if !IsAscii(c) || CharValue(c) >= base then Accumulate(digits, base).None?
      else Accumulate(digits[..k + 1], base)
           == Some(ToQword(Times(Accumulate(digits[..k], base).value, base) + CharValue(c)))
  {
    assert digits[..k + 1][..k] == digits[..k];
    if Accumulate(digits[..k + 1], base).None? {
      AccumulateStops(digits, k + 1, base);
    }
  }

  lemma {:induction false} AccumulateStops(digits: seq<bv8>, k: nat, base: nat)
    requires k <= |digits| && Accumulate(digits[..k], base).None?
    ensures Accumulate(digits, base).None?
  {
    if k == |digits| {
      assert digits[..k] == digits;
    } else {
      var front := digits[..|digits| - 1];
      assert front[..k] == digits[..k];
      AccumulateStops(front, k, base);
    }
  }
}
