/**
 The formatter of CommonLib/src/string.c: vsnprintf, with strlen and strncpy. The format and its
 arguments are taken apart into pieces; a pure rendering of the pieces says what is written.
 */
module Format {
  import opened Basics
  import opened MachineWords
  import opened StrUtils

  const PERCENT: bv8 := 37
  const SPACE: bv8 := 32
  const ZERO: bv8 := 48
  const NINE: bv8 := 57

  const VSNPRINTF_BUFFER_SIZE: nat := 65

  // ---------------------------------------------------------------------------------------------
  // Conversions and arguments
  // ---------------------------------------------------------------------------------------------

  datatype Specifier =
    | Number(signedValue: bool, base: Base, is64BitValue: bool)
    | Character
    | String(truncates: bool)

  /** The characters b, B, u, U, d, D, x, X, c, s and S. */
  function SpecifierOf(c: bv8): Option<Specifier> {
    if c == 98 then Some(Number(false, 2, false))
    else if c == 66 then Some(Number(false, 2, true))
    else if c == 117 then Some(Number(false, 10, false))
    else if c == 85 then Some(Number(false, 10, true))
    else if c == 100 then Some(Number(true, 10, false))
    else if c == 68 then Some(Number(true, 10, true))
    else if c == 120 then Some(Number(false, 16, false))
    else if c == 88 then Some(Number(false, 16, true))
    else if c == 99 then Some(Character)
    else if c == 115 then Some(String(false))
    else if c == 83 then Some(String(true))
    else None
  }

  /** A variadic argument: a DWORD or QWORD, a char, or a pointer to memory (of a string, or NULL). */
  datatype Argument = Raw(raw: nat, is64BitValue: bool) | Char(c: bv8) | Pointer(memory: seq<bv8>) | Null

  datatype Text = Bytes(bytes: seq<bv8>) | NullPointer | Mismatch

  /** The text that a conversion makes of an argument; Mismatch when the argument is not of its kind. */
  function ArgumentText(s: Specifier, arg: Argument): Text {
    match (s, arg)
    case (Number(signedValue, base, wide), Raw(raw, rawWide)) =>
      if wide == rawWide && IsRaw(raw, wide) then Bytes(Printed(raw, signedValue, base, wide)) else Mismatch
    case (Character, Char(c)) => Bytes(if c == NUL then [] else [c])
    case (String(_), Pointer(memory)) => if NUL in memory then Bytes(TextOf(memory)) else Mismatch
    case (String(_), Null) => NullPointer
    case _ => Mismatch
  }

  // ---------------------------------------------------------------------------------------------
  // A format as pieces
  // ---------------------------------------------------------------------------------------------

  datatype Piece =
    | Literal(c: bv8)
    | Conversion(width: nat, fill: bv8, truncates: bool, text: Text)
    | Malformed

  predicate IsDigit(c: bv8) {
    ZERO <= c <= NINE
  }

  /** How many digits a text starts with. */
  function DigitsAhead(text: seq<bv8>): (n: nat)
    ensures n <= |text|
  {
    if text == [] || !IsDigit(text[0]) then 0 else 1 + DigitsAhead(text[1..])
  }

  /** The decimal number that a string of digits stands for. */
  function Width(digits: seq<bv8>): nat {
    if digits == [] then 0
    else 10 * Width(digits[..|digits| - 1]) + DigitValue(digits[|digits| - 1])
  }

  function DigitValue(c: bv8): nat {
    if IsDigit(c) then (c - ZERO) as nat else 0
  }

  function FillOf(digits: seq<bv8>): bv8 {
    if digits != [] && digits[0] == ZERO then ZERO else SPACE
  }

  /** A format without its terminator, with its arguments. Nothing is read past a malformed conversion. */
  function Parse(text: seq<bv8>, args: seq<Argument>): seq<Piece>
    decreases |text|
  {
    if text == [] then []
    else if text[0] != PERCENT then [Literal(text[0])] + Parse(text[1..], args)
    else
      var n := DigitsAhead(text[1..]);
      var digits := text[1..n + 1];
      if n + 1 == |text| || SpecifierOf(text[n + 1]).None? then [Malformed]
      else
        var s := SpecifierOf(text[n + 1]).value;
        var argText := if args == [] then Mismatch else ArgumentText(s, args[0]);
        [Conversion(ToDword(Width(digits)), FillOf(digits), s.String? && s.truncates, argText)]
        + if args == [] then [] else Parse(text[n + 2..], args[1..])
  }

  // ---------------------------------------------------------------------------------------------
  // Rendering
  // ---------------------------------------------------------------------------------------------

  function Filled(c: bv8, count: nat): (r: seq<bv8>)
    ensures |r| == count
  {
    seq(count, _ => c)
  }

  /** %S shows no more than `width` characters; everything else is padded to the width on the left. */
  function PieceText(p: Piece): seq<bv8> {
    match p
    case Literal(c) => [c]
    case Conversion(width, fill, truncates, Bytes(t)) =>
      Filled(fill, if width > |t| then width - |t| else 0) + if truncates then t[..Min(width, |t|)] else t
    case _ => []
  }

  function Render(pieces: seq<Piece>): seq<bv8> {
    if pieces == [] then [] else PieceText(pieces[0]) + Render(pieces[1..])
  }

  function Conversions(pieces: seq<Piece>): nat {
    if pieces == [] then 0 else (if pieces[0].Conversion? then 1 else 0) + Conversions(pieces[1..])
  }

  /** The room that must be left for a piece; for %S, for the text before it is cut. */
  function Need(p: Piece): nat {
    match p
    case Literal(_) => 1
    case Conversion(width, _, _, Bytes(t)) => Max(width, |t|)
    case _ => 0
  }

  /** How far into the buffer the checks of a whole rendering reach. */
  function Demand(pieces: seq<Piece>): nat {
    if pieces == [] then 0 else Max(Need(pieces[0]), |PieceText(pieces[0])| + Demand(pieces[1..]))
  }

  datatype Outcome =
    | InvalidParameter
    | ParseFailed
    | BufferTooSmall
    | Stopped            // the ASSERT on the length of a string
    | Overrun            // a check wrapped, and more is written than the buffer holds
    | Converted(count: nat)

  /** The ASSERT on strlen, whose result for NULL is MAX_DWORD. */
  predicate IsAsserted(text: Text) {
    text.Bytes? ==> |text.bytes| == MAX_DWORD
  }

  lemma NullIsAsserted()
    ensures IsAsserted(NullPointer)
  {
  }

  /** The checks before a piece is written; the sums are DWORDs. */
  predicate IsRefused(p: Piece, offset: nat, buffSize: nat) {
    match p
    case Conversion(width, _, _, Bytes(t)) =>
      ToDword(offset + |t|) >= buffSize || ToDword(offset + Max(width, |t|)) >= buffSize
    case _ => offset + Need(p) >= buffSize
  }

  /** The outcome of working through the pieces from an offset in the buffer on. */
  function Verdict(pieces: seq<Piece>, offset: nat, buffSize: nat, count: nat): Outcome {
    if pieces == [] then Converted(count)
    else
      var p := pieces[0];
      if p.Malformed? then ParseFailed
      else if p.Conversion? && IsAsserted(p.text) then Stopped
      else if IsRefused(p, offset, buffSize) then BufferTooSmall
      else if offset + |PieceText(p)| >= buffSize then Overrun
      else Verdict(pieces[1..], offset + |PieceText(p)|, buffSize, count + if p.Conversion? then 1 else 0)
  }

  predicate IsSound(p: Piece) {
    p.Literal? || (p.Conversion? && !IsAsserted(p.text))
  }

  predicate AllSound(pieces: seq<Piece>) {
    forall i :: 0 <= i < |pieces| ==> IsSound(pieces[i])
  }

  /** The checks of a piece do not wrap past the buffer, wherever it stands. */
  predicate IsModest(p: Piece, buffSize: nat) {
    p.Conversion? && p.text.Bytes?
    ==> |p.text.bytes| + buffSize <= DWORD_VALUES && p.width + buffSize <= DWORD_VALUES + |p.text.bytes|
  }

  predicate AllModest(pieces: seq<Piece>, buffSize: nat) {
    forall i :: 0 <= i < |pieces| ==> IsModest(pieces[i], buffSize)
  }

  /** Within these sizes the checks refuse exactly what does not fit. */
  lemma RefusedExactly(p: Piece, offset: nat, buffSize: nat)
    requires offset < buffSize && IsModest(p, buffSize)
    ensures IsRefused(p, offset, buffSize) <==> offset + Need(p) >= buffSize
  {
    hide ToDword;
    if p.Conversion? && p.text.Bytes? {
      WordArithmetic(offset + |p.text.bytes|);
      WordArithmetic(offset + Max(p.width, |p.text.bytes|));
    }
  }

  predicate Overruns(p: Piece, offset: nat, buffSize: nat) {
    !IsRefused(p, offset, buffSize) && offset + |PieceText(p)| >= buffSize
  }

  /** At some place in the buffer a conversion passes its checks and does not fit, exactly beyond these sizes. */
  lemma OverrunsExactly(width: nat, fill: bv8, truncates: bool, t: seq<bv8>, buffSize: nat)
    requires width < DWORD_VALUES && |t| < MAX_DWORD && 0 < buffSize < DWORD_VALUES
    ensures
      var p := Conversion(width, fill, truncates, Bytes(t));
      (exists offset: nat :: offset < buffSize && Overruns(p, offset, buffSize))
      <==> !IsModest(p, buffSize) && (truncates && |t| >= width ==> width > 0)
  {
    hide ToDword;
    var p := Conversion(width, fill, truncates, Bytes(t));
    var n := Max(width, |t|);
    OfConversion(width, fill, truncates, t);
    forall offset: nat | offset < buffSize && Overruns(p, offset, buffSize)
      ensures !IsModest(p, buffSize) && (truncates && |t| >= width ==> width > 0)
    {
      WrapsOnce(offset + |t|);
      WrapsOnce(offset + n);
    }
    if !IsModest(p, buffSize) && (truncates && |t| >= width ==> width > 0) {
      var offset := if |t| + buffSize > DWORD_VALUES then buffSize - 1 else DWORD_VALUES - width;
      WrapsOnce(offset + |t|);
      WrapsOnce(offset + n);
      assert Overruns(p, offset, buffSize);
    }
  }

  lemma WrapsOnce(x: nat)
    requires x < 2 * DWORD_VALUES
    ensures ToDword(x) == if x < DWORD_VALUES then x else x - DWORD_VALUES
  {
  }

  /** A rendering succeeds exactly when every piece is sound and the demand fits; it counts conversions. */
  lemma {:induction false} SucceedsExactly(pieces: seq<Piece>, offset: nat, buffSize: nat, count: nat)
    requires offset < buffSize && AllModest(pieces, buffSize)
    ensures Verdict(pieces, offset, buffSize, count).Converted?
            <==> AllSound(pieces) && offset + Demand(pieces) < buffSize
    ensures Verdict(pieces, offset, buffSize, count).Converted?
            ==> Verdict(pieces, offset, buffSize, count) == Converted(count + Conversions(pieces))
    ensures !Verdict(pieces, offset, buffSize, count).Overrun?
  {
    hide IsRefused;
    hide IsModest;
    if pieces == [] {
    } else if IsSound(pieces[0]) {
      var p := pieces[0];
      PieceFitsItsNeed(p);
      RefusedExactly(p, offset, buffSize);
      assert AllSound(pieces) <==> AllSound(pieces[1..]) by {
        assert pieces == [p] + pieces[1..];
      }
      if offset + Need(p) < buffSize {
        SucceedsExactly(pieces[1..], offset + |PieceText(p)|, buffSize, count + if p.Conversion? then 1 else 0);
      }
    }
  }

  predicate CutsOff(p: Piece) {
    p.Conversion? && p.truncates && p.text.Bytes? && |p.text.bytes| > p.width
  }

  lemma PieceFitsItsNeed(p: Piece)
    ensures |PieceText(p)| <= Need(p) && (!CutsOff(p) ==> |PieceText(p)| == Need(p))
  {
  }

  /** What is written is never longer than the demand, and as long when %S cuts nothing off. */
  lemma {:induction false} DemandIsTheLength(pieces: seq<Piece>)
    ensures |Render(pieces)| <= Demand(pieces)
    ensures (forall i :: 0 <= i < |pieces| ==> !CutsOff(pieces[i])) ==> |Render(pieces)| == Demand(pieces)
  {
    if pieces == [] {
    } else {
      PieceFitsItsNeed(pieces[0]);
      DemandIsTheLength(pieces[1..]);
    }
  }

  /** It is as long exactly when what follows each cut text makes up for what was cut off. */
  lemma {:induction false} DemandIsTheLengthExactly(pieces: seq<Piece>)
    ensures Demand(pieces) == |Render(pieces)|
            <==> forall k :: 0 <= k < |pieces| && CutsOff(pieces[k]) ==>
                               |pieces[k].text.bytes| <= |Render(pieces[k..])|
  {
    hide CutsOff;
    if pieces == [] {
    } else {
      var first, rest := pieces[0], pieces[1..];
      PieceFitsItsNeed(first);
      CutNeed(first);
      DemandIsTheLength(rest);
      DemandIsTheLengthExactly(rest);
      assert pieces[0..] == pieces;
      assert forall k :: 0 <= k < |rest| ==> rest[k] == pieces[k + 1] && rest[k..] == pieces[k + 1..];
    }
  }

  lemma CutNeed(p: Piece)
    ensures CutsOff(p) ==> Need(p) == |p.text.bytes| && |PieceText(p)| == p.width
  {
  }

  /** %S is refused although its text has room, exactly when there is room for the cut text but not for the whole. */
  lemma CutTextNeedsItsWholeLength(p: Piece, offset: nat, buffSize: nat)
    requires CutsOff(p) && |p.text.bytes| + buffSize <= DWORD_VALUES && |p.text.bytes| < MAX_DWORD
    requires offset < buffSize
    ensures Verdict([p], offset, buffSize, 0).BufferTooSmall? && offset + |PieceText(p)| < buffSize
            <==> offset + p.width < buffSize <= offset + |p.text.bytes|
  {
    hide ToDword;
    CutNeed(p);
    RefusedExactly(p, offset, buffSize);
    assert [p][1..] == [];
  }

  /** A format without conversions is its own rendering. */
  lemma {:induction false} LiteralsRenderThemselves(text: seq<bv8>, args: seq<Argument>)
    requires 37 !in text
    ensures Render(Parse(text, args)) == text
  {
    if text == [] {
    } else {
      assert text == [text[0]] + text[1..];
      LiteralsRenderThemselves(text[1..], args);
    }
  }

  lemma {:induction false} LeadingZeros(n: nat, digits: seq<bv8>, base: Base)
    ensures Accumulate(Filled(ZERO, n) + digits, base) == Accumulate(digits, base)
    decreases |digits|, n
  {
    hide ToQword;
    var text := Filled(ZERO, n) + digits;
    if digits != [] {
      assert text[..|text| - 1] == Filled(ZERO, n) + digits[..|digits| - 1];
      LeadingZeros(n, digits[..|digits| - 1], base);
    } else if n > 0 {
      assert text[..|text| - 1] == Filled(ZERO, n - 1) + [];
      LeadingZeros(n - 1, [], base);
      WordArithmetic(0);
    }
  }

  lemma StopsAt(text: seq<bv8>, k: nat, base: Base)
    requires k < |text| && CharValue(text[k]) >= base
    ensures Accumulate(text, base).None?
  {
    assert text[..k + 1][|text[..k + 1]| - 1] == text[k];
    AccumulateStops(text, k + 1, base);
  }

  /**
   A number that was printed into a field of some width is read back by atoi exactly when the field adds
   nothing, or adds zeros in front of a number without a sign.
   */
  lemma PaddedNumberParsesBack(raw: nat, signedValue: bool, base: Base, is64BitValue: bool, width: nat, fill: bv8)
    requires IsRaw(raw, is64BitValue) && (fill == ZERO || fill == SPACE)
    ensures
      var t := Printed(raw, signedValue, base, is64BitValue);
      var field := PieceText(Conversion(width, fill, false, Bytes(t)));
      Parsed(field, base, is64BitValue) == Some(raw)
      <==> width <= |t| || (fill == ZERO && !IsNegative(raw, signedValue, is64BitValue))
  {
    hide Accumulate;
    hide Numeral;
    var t := Printed(raw, signedValue, base, is64BitValue);
    AtoiUndoesItoa(raw, signedValue, base, is64BitValue);
    if width <= |t| {
      assert Filled(fill, 0) + t == t;
    } else {
      var n := width - |t|;
      var field := Filled(fill, n) + t;
      if fill == SPACE {
        StopsAt(field, 0, base);
      } else if IsNegative(raw, signedValue, is64BitValue) {
        assert field[n] == MINUS;
        StopsAt(field, n, base);
      } else {
        LeadingZeros(n, t, base);
        NumeralDenotesTheValue(raw, base);
      }
    }
  }

  // ---------------------------------------------------------------------------------------------
  // What the conversions mean
  // ---------------------------------------------------------------------------------------------

  predicate AllDigits(digits: seq<bv8>) {
    forall i :: 0 <= i < |digits| ==> 48 <= digits[i] <= 57
  }

  /** A format of one conversion: a percent sign, a width and a letter. */
  lemma OneConversion(digits: seq<bv8>, c: bv8, arg: Argument)
    requires AllDigits(digits) && SpecifierOf(c).Some?
    ensures
      var s := SpecifierOf(c).value;
      Parse([PERCENT] + digits + [c], [arg])
      == [Conversion(ToDword(Width(digits)), FillOf(digits), s.String? && s.truncates, ArgumentText(s, arg))]
  {
    SpecifierIsNoDigit(c);
    DigitsEnd(digits, c);
    hide ArgumentText, Width, FillOf, ToDword, SpecifierOf, IsDigit, DigitsAhead, AllDigits;
    var text := [PERCENT] + digits + [c];
    assert text[1..] == digits + [c];
    assert text[1..|digits| + 1] == digits;
    assert text[|digits| + 2..] == [] && [arg][1..] == [];
    assert Parse([], []) == [];
  }

  lemma SpecifierIsNoDigit(c: bv8)
    requires SpecifierOf(c).Some?
    ensures !IsDigit(c)
  {
  }

  lemma {:induction false} DigitsEnd(digits: seq<bv8>, c: bv8)
    requires AllDigits(digits) && !IsDigit(c)
    ensures DigitsAhead(digits + [c]) == |digits|
  {
    if digits == [] {
      assert digits + [c] == [c];
    } else {
      assert (digits + [c])[1..] == digits[1..] + [c];
      DigitsEnd(digits[1..], c);
    }
  }

  lemma RenderedAlone(p: Piece)
    ensures Render([p]) == PieceText(p)
  {
    assert [p][1..] == [];
  }

  /**
   The numbers: b, u, d and x stand for the bases 2, 10, 10 and 16 and a DWORD, the capitals for a QWORD, and
   d and D alone are signed. What is printed denotes the number, but for the least signed DWORD.
   */
  lemma NumbersMean(c: bv8, raw: nat)
    requires c in [98, 117, 100, 120, 66, 85, 68, 88]
    requires raw < if c in [66, 85, 68, 88] then 0x1_0000_0000_0000_0000 else 0x1_0000_0000
    ensures
      var wide, signed := c in [66, 85, 68, 88], c in [100, 68];
      var base := if c in [98, 66] then 2 else if c in [120, 88] then 16 else 10;
      var number := if !signed then raw
                    else if wide then (if raw < 0x8000_0000_0000_0000 then raw else raw - 0x1_0000_0000_0000_0000)
                    else if raw < 0x8000_0000 then raw else raw - 0x1_0000_0000;
      Denoted(Render(Parse([37, c], [Raw(raw, wide)])), base) == number
      <==> !(c == 100 && raw == 0x8000_0000)
  {
    hide Printed;
    hide Denoted;
    var wide, signed := c in [66, 85, 68, 88], c in [100, 68];
    var base: Base := if c in [98, 66] then 2 else if c in [120, 88] then 16 else 10;
    assert SpecifierOf(c) == Some(Number(signed, base, wide));
    assert [PERCENT] + [] + [c] == [PERCENT, c];
    OneConversion([], c, Raw(raw, wide));
    var t := Printed(raw, signed, base, wide);
    RenderedAlone(Conversion(0, SPACE, false, Bytes(t)));
    PlainText(t);
    WordArithmetic(0);
    PrintsTheNumber(raw, signed, base, wide);
  }

  lemma PlainText(t: seq<bv8>)
    ensures PieceText(Conversion(0, SPACE, false, Bytes(t))) == t
  {
    assert Filled(SPACE, 0) + t == t;
  }

  /** A padded text: the letter s shows the whole string, S no more of it than the width. */
  lemma TextsMean(digits: seq<bv8>, memory: seq<bv8>)
    requires AllDigits(digits) && NUL in memory
    ensures
      var width, t := ToDword(Width(digits)), TextOf(memory);
      var padding := Filled(FillOf(digits), if width > |t| then width - |t| else 0);
      && Render(Parse([37] + digits + [115], [Pointer(memory)])) == padding + t
      && Render(Parse([37] + digits + [83], [Pointer(memory)])) == padding + t[..Min(width, |t|)]
  {
    hide AllDigits, Width, FillOf, TextOf, ToDword, Parse, Render, Filled;
    var width, fill, t := ToDword(Width(digits)), FillOf(digits), TextOf(memory);
    OneConversion(digits, 115, Pointer(memory));
    OneConversion(digits, 83, Pointer(memory));
    RenderedAlone(Conversion(width, fill, false, Bytes(t)));
    RenderedAlone(Conversion(width, fill, true, Bytes(t)));
  }

  /** The letter c shows the character, which for NUL is nothing. */
  lemma CharactersMean(c: bv8)
    ensures Render(Parse([37, 99], [Char(c)])) == if c == NUL then [] else [c]
  {
    var t := if c == NUL then [] else [c];
    assert [PERCENT] + [] + [99] == [PERCENT, 99];
    OneConversion([], 99, Char(c));
    RenderedAlone(Conversion(0, SPACE, false, Bytes(t)));
    PlainText(t);
    WordArithmetic(0);
  }

  /** A NULL string is a proper argument, and stops the system. */
  lemma NullStringStops(digits: seq<bv8>, c: bv8, offset: nat, buffSize: nat)
    requires AllDigits(digits) && c in [115, 83]
    ensures
      var pieces := Parse([37] + digits + [c], [Null]);
      AllAdmissible(pieces) && Verdict(pieces, offset, buffSize, 0) == Stopped
  {
    hide Width, FillOf, ToDword, AllDigits;
    OneConversion(digits, c, Null);
  }

  /** After a percent sign and a width, no other letter is accepted. */
  lemma OtherLettersFail(digits: seq<bv8>, c: bv8, rest: seq<bv8>, args: seq<Argument>)
    requires AllDigits(digits) && !(48 <= c <= 57)
    requires c !in [98, 66, 117, 85, 100, 68, 120, 88, 99, 115, 83]
    ensures Parse([37] + digits + [c] + rest, args) == [Malformed] == Parse([37] + digits, args)
  {
    var text := [PERCENT] + digits + [c] + rest;
    assert SpecifierOf(c).None?;
    assert text[1..] == digits + [c] + rest && ([PERCENT] + digits)[1..] == digits;
    DigitsEndBefore(digits, c, rest);
    DigitsToTheEnd(digits);
    hide SpecifierOf, IsDigit, DigitsAhead, AllDigits;
  }

  lemma {:induction false} DigitsEndBefore(digits: seq<bv8>, c: bv8, rest: seq<bv8>)
    requires AllDigits(digits) && !IsDigit(c)
    ensures DigitsAhead(digits + [c] + rest) == |digits|
  {
    if digits == [] {
      assert digits + [c] + rest == [c] + rest;
    } else {
      assert (digits + [c] + rest)[1..] == digits[1..] + [c] + rest;
      DigitsEndBefore(digits[1..], c, rest);
    }
  }

  lemma {:induction false} DigitsToTheEnd(digits: seq<bv8>)
    requires AllDigits(digits)
    ensures DigitsAhead(digits) == |digits|
  {
    if digits == [] {
    } else {
      DigitsToTheEnd(digits[1..]);
    }
  }

  /** The first piece that cannot be written decides the outcome. */
  lemma {:induction false} FirstFailureDecides(pieces: seq<Piece>, k: nat, offset: nat, buffSize: nat, count: nat)
    requires k < |pieces| && offset < buffSize && IsModest(pieces[k], buffSize)
    requires Verdict(pieces[..k], offset, buffSize, count).Converted?
    ensures
      var p, at := pieces[k], offset + |Render(pieces[..k])|;
      var r := Verdict(pieces, offset, buffSize, count);
      && (p.Malformed? ==> r == ParseFailed)
      && (p.Conversion? && (!p.text.Bytes? || |p.text.bytes| == 0xFFFF_FFFF) ==> r == Stopped)
      && (IsSound(p) && at + Need(p) >= buffSize ==> r == BufferTooSmall)
  {
    hide IsRefused, PieceText, Need, IsModest;
    if k == 0 {
      RefusedExactly(pieces[0], offset, buffSize);
    } else {
      var p := pieces[0];
      assert pieces[..k][0] == p && pieces[..k][1..] == pieces[1..][..k - 1];
      FirstFailureDecides(pieces[1..], k - 1, offset + |PieceText(p)|, buffSize,
                          count + if p.Conversion? then 1 else 0);
    }
  }

  /** The width is the decimal number of the digits, and 0 without any. */
  lemma WidthMeans(digits: seq<bv8>, d: bv8)
    requires 48 <= d <= 57
    ensures Width([]) == 0 && Width(digits + [d]) == 10 * Width(digits) + (d as nat - 48)
    ensures FillOf(digits) == if digits != [] && digits[0] == 48 then 48 else 32
  {
    assert (digits + [d])[..|digits|] == digits;
  }

  // ---------------------------------------------------------------------------------------------
  // strlen and strncpy
  // ---------------------------------------------------------------------------------------------

  method Strlen(str: seq<bv8>) returns (length: nat)
    requires NUL in str
    ensures length == |TextOf(str)|
  {
    TextEndsAtTheTerminator(str);
    length := 0;
    while str[length] != NUL
      invariant length <= |TextOf(str)|
      decreases |TextOf(str)| - length
    {
      assert str[length] == TextOf(str)[length];
      length := length + 1;
    }
  }

  /** Copies up to `length` characters behind `at`, and a terminator. */
  method Strncpy(dst: array<bv8>, at: nat, src: seq<bv8>, length: nat)
    requires length > 0 && (length <= |src| || NUL in src)
    requires at + Min(length, |TextOf(src)|) < dst.Length
    modifies dst
    ensures
      var n := Min(length, |TextOf(src)|);
      && dst[at..at + n] == TextOf(src)[..n] && dst[at + n] == NUL
      && forall k :: 0 <= k < at || at + n < k < dst.Length ==> dst[k] == old(dst[k])
  {
    hide TextOf;
    TextEndsAtTheTerminator(src);
    var i := 0;
    while i < length && src[i] != NUL
      invariant i <= Min(length, |TextOf(src)|)
      invariant dst[at..at + i] == TextOf(src)[..i]
      invariant forall k :: 0 <= k < at || at + i <= k < dst.Length ==> dst[k] == old(dst[k])
    {
      assert src[i] == TextOf(src)[i];
      dst[at + i] := src[i];
      i := i + 1;
    }
    dst[at + i] := NUL;
  }

  // ---------------------------------------------------------------------------------------------
  // vsnprintf
  // ---------------------------------------------------------------------------------------------

  /** inputBuffer[i], for a string given without its terminator. */
  function CharAt(text: seq<bv8>, i: nat): bv8
    requires i <= |text|
  {
    if i < |text| then text[i] else NUL
  }

  lemma {:induction false} DigitsAheadExact(text: seq<bv8>, k: nat)
    requires k <= DigitsAhead(text)
    ensures IsDigit(CharAt(text, k)) <==> k < DigitsAhead(text)
  {
    if text == [] || !IsDigit(text[0]) || k == 0 {
    } else {
      DigitsAheadExact(text[1..], k - 1);
    }
  }

  lemma WrappedWidth(width: nat, digit: nat)
    ensures ToDword(ToDword(width) * 10 + digit) == ToDword(10 * width + digit)
  {
    var q := width / DWORD_VALUES;
    assert 10 * width + digit == width % DWORD_VALUES * 10 + digit + DWORD_VALUES * (10 * q);
  }

  /** The inner loop: a width, in a DWORD, and its fill character. */
  method ReadWidth(text: seq<bv8>, start: nat) returns (next: nat, digits: nat, fillChar: bv8)
    requires start <= |text|
    ensures next == start + DigitsAhead(text[start..])
    ensures digits == ToDword(Width(text[start..next])) && fillChar == FillOf(text[start..next])
  {
    hide DigitsAhead;
    hide IsDigit;
    hide DigitValue;
    hide ToDword;
    WordArithmetic(0);
    ghost var n := DigitsAhead(text[start..]);
    next, digits, fillChar := start, 0, SPACE;
    var firstSpecificator := true;
    DigitsAheadExact(text[start..], 0);
    while IsDigit(CharAt(text, next))
      invariant start <= next <= start + n
      invariant IsDigit(CharAt(text, next)) <==> next < start + n
      invariant firstSpecificator <==> next == start
      invariant digits == ToDword(Width(text[start..next])) && fillChar == FillOf(text[start..next])
      decreases start + n - next
    {
      if firstSpecificator {
        firstSpecificator := false;
        if CharAt(text, next) == ZERO {
          fillChar := ZERO;
        }
      }
      assert text[start..next + 1] == text[start..next] + [text[next]];
      WrappedWidth(Width(text[start..next]), DigitValue(text[next]));
      digits := ToDword(digits * 10 + DigitValue(CharAt(text, next)));
      next := next + 1;
      DigitsAheadExact(text[start..], next - start);
      assert CharAt(text[start..], next - start) == CharAt(text, next);
    }
  }

  /** The switch on the specifier: the memory at temp_str afterwards. */
  method ConvertArgument(temp: array<bv8>, s: Specifier, arg: Argument) returns (tempStr: Option<seq<bv8>>)
    requires temp.Length == VSNPRINTF_BUFFER_SIZE
    requires s.Number? ==> (s.base == 2 ==> !s.signedValue) && (s.base == 2 || s.base >= 4)
    requires !ArgumentText(s, arg).Mismatch?
    modifies temp
    ensures tempStr.None? <==> ArgumentText(s, arg).NullPointer?
    ensures tempStr.Some? ==> NUL in tempStr.value && ArgumentText(s, arg) == Bytes(TextOf(tempStr.value))
  {
    hide Printed;
    hide TextOf;
    match s
    case Number(signedValue, base, is64BitValue) =>
      PrintedLength(arg.raw, signedValue, base, is64BitValue);
      PrintedHasNoTerminator(arg.raw, signedValue, base, is64BitValue);
      ghost var printed := Printed(arg.raw, signedValue, base, is64BitValue);
      var stopped := Itoa(arg.raw, signedValue, temp, base, is64BitValue);
      assert temp[..] == printed + [NUL] + temp[|printed| + 1..];
      TextBeforeTerminator(printed, temp[|printed| + 1..]);
      assert temp[..][|printed|] == NUL;
      tempStr := Some(temp[..]);
    case Character =>
      TextOfOne(arg.c);
      Strncpy(temp, 0, [arg.c], 1);
      ghost var t := if arg.c == NUL then [] else [arg.c];
      assert temp[..] == t + [NUL] + temp[|t| + 1..];
      TextBeforeTerminator(t, temp[|t| + 1..]);
      assert temp[..][|t|] == NUL;
      tempStr := Some(temp[..]);
    case String(_) =>
      tempStr := if arg.Null? then None else Some(arg.memory);
  }

  lemma TextOfOne(c: bv8)
    ensures TextOf([c]) == if c == NUL then [] else [c]
  {
    assert TextOf([]) == [];
  }

  /** Padding and copying: what follows the switch. */
  method PutConversion(output: array<bv8>, buffSize: nat, offset: nat, digits: nat, fillChar: bv8,
                       truncates: bool, tempStr: seq<bv8>)
    returns (failed: Option<Outcome>, next: nat)
    requires NUL in tempStr && offset < buffSize <= output.Length && |TextOf(tempStr)| < DWORD_VALUES
    modifies output
    ensures
      var p := Conversion(digits, fillChar, truncates, Bytes(TextOf(tempStr)));
      && failed == (if IsAsserted(p.text) then Some(Stopped)
                    else if IsRefused(p, offset, buffSize) then Some(BufferTooSmall)
                    else if offset + |PieceText(p)| >= buffSize then Some(Overrun)
                    else None)
      && (failed.Some? ==> output[..] == old(output[..]))
      && (failed.None? ==>
            && next == offset + |PieceText(p)| < buffSize
            && output[offset..next] == PieceText(p)
            && forall k :: 0 <= k < offset || next < k < output.Length ==> output[k] == old(output[k]))
  {
    hide TextOf;
    hide PieceText;
    hide Filled;
    hide ToDword;
    var tempLen := Strlen(tempStr);
    ghost var t := TextOf(tempStr);
    OfConversion(digits, fillChar, truncates, t);
    if tempLen == MAX_DWORD {
      return Some(Stopped), offset;
    }
    var charsToCopy := if truncates then Min(digits, tempLen) else tempLen;
    if ToDword(offset + tempLen) >= buffSize {
      return Some(BufferTooSmall), offset;
    }
    var fillSpaces := if digits > tempLen then digits - tempLen else 0;
    if ToDword(offset + tempLen + fillSpaces) >= buffSize {
      return Some(BufferTooSmall), offset;
    }
    if offset + fillSpaces + charsToCopy >= buffSize {
      return Some(Overrun), offset;
    }
    failed := None;
    next := PadAndCopy(output, offset, fillChar, fillSpaces, tempStr, charsToCopy);
  }

  method PadAndCopy(output: array<bv8>, offset: nat, fillChar: bv8, fillSpaces: nat, tempStr: seq<bv8>,
                    charsToCopy: nat)
    returns (next: nat)
    requires NUL in tempStr && charsToCopy <= |TextOf(tempStr)| && offset + fillSpaces + charsToCopy < output.Length
    modifies output
    ensures next == offset + fillSpaces + charsToCopy
    ensures output[offset..next] == Filled(fillChar, fillSpaces) + TextOf(tempStr)[..charsToCopy]
    ensures forall k :: 0 <= k < offset || next < k < output.Length ==> output[k] == old(output[k])
  {
    hide TextOf;
    hide Filled;
    next := offset;
    if fillSpaces != 0 {
      Memset(output, next, fillChar, fillSpaces);
      next := next + fillSpaces;
    }
    ghost var padding := output[offset..next];
    assert padding == Filled(fillChar, fillSpaces);
    TextEndsAtTheTerminator(tempStr);
    if charsToCopy != 0 {
      Strncpy(output, next, tempStr, charsToCopy);
    }
    next := next + charsToCopy;
    assert output[offset..next] == padding + TextOf(tempStr)[..charsToCopy];
  }

  method Memset(dst: array<bv8>, at: nat, c: bv8, count: nat)
    requires at + count <= dst.Length
    modifies dst
    ensures dst[at..at + count] == Filled(c, count)
    ensures forall k :: 0 <= k < at || at + count <= k < dst.Length ==> dst[k] == old(dst[k])
  {
    for i := 0 to count
      invariant forall k :: at <= k < at + i ==> dst[k] == c
      invariant forall k :: 0 <= k < at || at + i <= k < dst.Length ==> dst[k] == old(dst[k])
    {
      dst[at + i] := c;
    }
  }

  lemma OfConversion(width: nat, fill: bv8, truncates: bool, t: seq<bv8>)
    ensures
      var p := Conversion(width, fill, truncates, Bytes(t));
      && Need(p) == Max(width, |t|)
      && PieceText(p) == Filled(fill, if width > |t| then width - |t| else 0)
                         + t[..if truncates then Min(width, |t|) else |t|]
  {
  }

  /** The arguments are of the kinds that the format names, and strlen ends on the strings. */
  predicate Admissible(p: Piece) {
    p.Conversion? ==> !p.text.Mismatch? && (p.text.Bytes? ==> |p.text.bytes| < DWORD_VALUES)
  }

  predicate AllAdmissible(pieces: seq<Piece>) {
    forall i :: 0 <= i < |pieces| ==> Admissible(pieces[i])
  }

  /** The first piece of a format, and what is left after it. */
  lemma NextPiece(text: seq<bv8>, args: seq<Argument>)
    requires text != []
    ensures SpecifierOf(NUL).None?
    ensures
      var pieces := Parse(text, args);
      if text[0] != PERCENT then pieces == [Literal(text[0])] + Parse(text[1..], args)
      else
        var n := DigitsAhead(text[1..]);
        if SpecifierOf(CharAt(text, n + 1)).None? then pieces == [Malformed]
        else
          var s := SpecifierOf(text[n + 1]).value;
          && pieces != [] && pieces[0].Conversion? && pieces[0].width == ToDword(Width(text[1..n + 1]))
          && pieces[0].fill == FillOf(text[1..n + 1]) && pieces[0].truncates == (s.String? && s.truncates)
          && (!pieces[0].text.Mismatch? ==>
                && args != [] && pieces[0].text == ArgumentText(s, args[0])
                && pieces[1..] == Parse(text[n + 2..], args[1..]))
  {
    hide Width;
    hide FillOf;
    hide ArgumentText;
    hide IsDigit;
    hide SpecifierOf;
    NulIsNoSpecifier();
  }

  lemma NulIsNoSpecifier()
    ensures SpecifierOf(NUL).None?
  {
  }

  /** The bases of the specifiers are those whose numbers fit the temporary buffer. */
  lemma SpecifierBases(c: bv8)
    requires SpecifierOf(c).Some? && SpecifierOf(c).value.Number?
    ensures
      var s := SpecifierOf(c).value;
      (s.base == 2 ==> !s.signedValue) && (s.base == 2 || s.base >= 4)
  {
  }

  lemma FirstOf(pieces: seq<Piece>, offset: nat, buffSize: nat, count: nat)
    requires pieces != []
    ensures Render(pieces) == PieceText(pieces[0]) + Render(pieces[1..])
    ensures
      var p := pieces[0];
      Verdict(pieces, offset, buffSize, count)
      == if p.Malformed? then ParseFailed
         else if p.Conversion? && IsAsserted(p.text) then Stopped
         else if IsRefused(p, offset, buffSize) then BufferTooSmall
         else if offset + |PieceText(p)| >= buffSize then Overrun
         else Verdict(pieces[1..], offset + |PieceText(p)|, buffSize, count + if p.Conversion? then 1 else 0)
  {
  }

  lemma NoPieces(offset: nat, buffSize: nat, count: nat, args: seq<Argument>)
    ensures Parse([], args) == [] && Render([]) == [] && Verdict([], offset, buffSize, count) == Converted(count)
  {
  }

  lemma OfLiteral(c: bv8, offset: nat, buffSize: nat)
    ensures PieceText(Literal(c)) == [c]
    ensures IsRefused(Literal(c), offset, buffSize) <==> offset + 1 >= buffSize
  {
  }

  /** One conversion of the main loop; `failed` when the loop is left. */
  method ConvertPiece(output: array<bv8>, temp: array<bv8>, buffSize: nat, offset: nat, format: seq<bv8>, index: nat,
                      args: seq<Argument>, used: nat)
    returns (failed: Option<Outcome>, nextIndex: nat, nextOffset: nat)
    requires offset < buffSize <= output.Length && temp.Length == VSNPRINTF_BUFFER_SIZE && temp != output
    requires index < |format| && format[index] == PERCENT && used <= |args|
    requires AllAdmissible(Parse(format[index..], args[used..]))
    modifies output, temp
    ensures
      var pieces := Parse(format[index..], args[used..]);
      && pieces != []
      && (failed.Some? ==> Verdict(pieces, offset, buffSize, used) == failed.value && !failed.value.Converted?)
      && (failed.None? ==>
            && index < nextIndex <= |format| && used < |args| && offset <= nextOffset < buffSize
            && pieces[1..] == Parse(format[nextIndex..], args[used + 1..])
            && Verdict(pieces, offset, buffSize, used) == Verdict(pieces[1..], nextOffset, buffSize, used + 1)
            && Render(pieces) == output[offset..nextOffset] + Render(pieces[1..]))
    ensures forall k :: 0 <= k < offset || buffSize <= k < output.Length ==> output[k] == old(output[k])
  {
    hide Verdict;
    hide Render;
    hide Parse;
    hide PieceText;
    hide IsRefused;
    hide IsAsserted;
    hide DigitsAhead;
    hide Width;
    hide FillOf;
    hide SpecifierOf;
    hide ArgumentText;
    hide TextOf;
    hide ToDword;
    hide ToQword;
    ghost var here, left := format[index..], args[used..];
    ghost var pieces := Parse(here, left);
    NextPiece(here, left);
    NullIsAsserted();
    FirstOf(pieces, offset, buffSize, used);
    assert here[1..] == format[index + 1..];
    var next, digits, fillChar := ReadWidth(format, index + 1);
    assert here[1..next - index] == format[index + 1..next];
    var specifier := SpecifierOf(CharAt(format, next));
    if specifier.None? {
      return Some(ParseFailed), index, offset;
    }
    var s := specifier.value;
    ghost var p := pieces[0];
    assert Admissible(p);
    if s.Number? {
      SpecifierBases(CharAt(format, next));
    }
    assert p.text == ArgumentText(s, args[used]) && digits == p.width;
    var tempStr := ConvertArgument(temp, s, args[used]);
    if tempStr.None? {
      return Some(Stopped), index, offset;
    }
    failed, nextOffset := PutConversion(output, buffSize, offset, digits, fillChar, s.String? && s.truncates,
                                        tempStr.value);
    if failed.Some? {
      return failed, index, offset;
    }
    failed, nextIndex := None, next + 1;
    assert here[next - index + 1..] == format[nextIndex..] && left[1..] == args[used + 1..];
  }

  /** One character of the main loop that starts no conversion. */
  method PutLiteral(output: array<bv8>, buffSize: nat, offset: nat, c: bv8, ghost pieces: seq<Piece>, ghost used: nat)
    returns (tooSmall: bool)
    requires offset < buffSize <= output.Length && pieces != [] && pieces[0] == Literal(c)
    modifies output
    ensures tooSmall ==> Verdict(pieces, offset, buffSize, used) == BufferTooSmall
    ensures !tooSmall
            ==> && offset + 1 < buffSize
                && Verdict(pieces, offset, buffSize, used) == Verdict(pieces[1..], offset + 1, buffSize, used)
                && Render(pieces) == [output[offset]] + Render(pieces[1..])
    ensures forall k :: 0 <= k < offset || offset < k < output.Length ==> output[k] == old(output[k])
  {
    hide Verdict;
    hide Render;
    hide PieceText;
    hide IsRefused;
    FirstOf(pieces, offset, buffSize, used);
    OfLiteral(c, offset, buffSize);
    tooSmall := offset + 1 >= buffSize;
    output[offset] := if tooSmall then NUL else c;
  }

  /**
   On success the buffer holds the rendering and a terminator, and the result is the number of
   conversions. Nothing is ever written from buffSize on.
   */
  method Vsnprintf(output: array<bv8>, buffSize: nat, format: seq<bv8>, args: seq<Argument>) returns (r: Outcome)
    requires NUL !in format && |format| < DWORD_VALUES && buffSize <= output.Length && buffSize < DWORD_VALUES
    requires AllAdmissible(Parse(format, args))
    modifies output
    ensures r == if buffSize == 0 then InvalidParameter else Verdict(Parse(format, args), 0, buffSize, 0)
    ensures r.Converted?
            ==> var text := Render(Parse(format, args));
                |text| < buffSize && output[..|text|] == text && output[|text|] == 0
    ensures forall k :: buffSize <= k < output.Length ==> output[k] == old(output[k])
  {
    hide Verdict;
    hide Render;
    hide Parse;
    hide PieceText;
    hide Admissible;
    hide Width;
    hide FillOf;
    hide DigitsAhead;
    hide SpecifierOf;
    hide ArgumentText;
    if buffSize == 0 {
      return InvalidParameter;
    }
    var temp := new bv8[VSNPRINTF_BUFFER_SIZE];
    ghost var pieces := Parse(format, args);
    ghost var rest := pieces;
    var index, used, outBufferOffset := 0, 0, 0;
    assert format[0..] == format && args[0..] == args;
    while index < |format|
      invariant index <= |format| && outBufferOffset < buffSize && used <= |args|
      invariant rest == Parse(format[index..], args[used..]) && AllAdmissible(rest)
      invariant Verdict(pieces, 0, buffSize, 0) == Verdict(rest, outBufferOffset, buffSize, used)
      invariant Render(pieces) == output[..outBufferOffset] + Render(rest)
      invariant forall k :: buffSize <= k < output.Length ==> output[k] == old(output[k])
      decreases |format| - index
    {
      if format[index] == PERCENT {
        ghost var before := output[..outBufferOffset];
        var failed, nextIndex, nextOffset :=
          ConvertPiece(output, temp, buffSize, outBufferOffset, format, index, args, used);
        if failed.Some? {
          return failed.value;
        }
        assert output[..nextOffset] == before + output[outBufferOffset..nextOffset];
        index, used, outBufferOffset, rest := nextIndex, used + 1, nextOffset, rest[1..];
      } else {
        NextPiece(format[index..], args[used..]);
        ghost var before := output[..outBufferOffset];
        var tooSmall := PutLiteral(output, buffSize, outBufferOffset, format[index], rest, used);
        if tooSmall {
          return BufferTooSmall;
        }
        assert format[index..][1..] == format[index + 1..];
        assert output[..outBufferOffset + 1] == before + [output[outBufferOffset]];
        index, outBufferOffset, rest := index + 1, outBufferOffset + 1, rest[1..];
      }
    }
    assert format[index..] == [];
    NoPieces(outBufferOffset, buffSize, used, args[used..]);
    output[outBufferOffset] := NUL;
    r := Converted(used);
  }
}
