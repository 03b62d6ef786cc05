/** What `vsnprintf` would print if its buffer had no end. */
module Formatting {
  import opened Arithmetic
  import opened Bits
  import opened Options
  import opened Numerals

  /** One argument slot: the machine word it holds, and the string a pointer in it leads to. */
  datatype Slot = Slot(word: nat, text: Option<CString>)

  /** The argument area; reading past the arguments passed yields whatever is there. */
  type Arguments = nat -> Slot

  const UINT_LIMIT: int := 0x1_0000_0000
  const INT_LIMIT: int := 0x8000_0000

  function AsUnsigned(word: nat): nat { word % UINT_LIMIT }
  function AsInt(word: nat): int {
    if AsUnsigned(word) < INT_LIMIT then AsUnsigned(word) else AsUnsigned(word) - UINT_LIMIT
  }
  function AsUlong(word: nat): nat { word % ULONG_LIMIT }
  function AsLongWord(word: nat): int { AsLong(AsUlong(word)) }
  function AsChar(word: nat): char { (word % 256) as char }

  datatype Length = NoLength | Long | LongLong

  /** A conversion specification with its `*` arguments filled in; a precision below zero
      counts as none.  `next` is the format position after it and `arg` the argument its
      conversion takes. */
  datatype Directive = Directive(
    zeroPad: bool, leftAlign: bool, plus: bool, width: int, precision: int, length: Length,
    conversion: char, next: nat, arg: nat)

  predicate IsFlag(c: char) { c in {'0', '-', '+', ' ', '#'} }

  predicate IsDecimal(c: char) { '0' <= c <= '9' }

  /** A `*` takes an argument, else the run of decimal digits is read, as zero if empty. */
  function StarOrNumber(f: CString, i: nat, args: Arguments, arg: nat): (r: (int, nat, nat))
    requires i <= |f|
    ensures i <= r.1 <= |f|
  {
    if At(f, i) == '*' then (AsInt(args(arg).word), i + 1, arg + 1)
    else
      var end := RunEnd(f, i, IsDecimal);
      (Value(f[i..end], 10), end, arg)
  }

  function LengthModifier(f: CString, i: nat): (r: (Length, nat))
    requires i <= |f|
    ensures i <= r.1 <= |f|
  {
    if At(f, i) == 'l' then
      if At(f, i + 1) == 'l' then (LongLong, i + 2) else (Long, i + 1)
    else if At(f, i) in {'z', 't', 'j'} then (LongLong, i + 1)
    else if At(f, i) == 'h' then (NoLength, if At(f, i + 1) == 'h' then i + 2 else i + 1)
    else (NoLength, i)
  }

  datatype Field = Field(width: int, precision: int, next: nat, arg: nat)

  /** The width, then the precision if a dot follows. */
  function FieldSize(f: CString, i: nat, args: Arguments, arg: nat): (r: Field)
    requires i <= |f|
    ensures i <= r.next <= |f|
  {
    var (width, widthEnd, arg1) := StarOrNumber(f, i, args, arg);
    if At(f, widthEnd) != '.' then Field(width, -1, widthEnd, arg1)
    else
      var (precision, precisionEnd, arg2) := StarOrNumber(f, widthEnd + 1, args, arg1);
      Field(width, precision, precisionEnd, arg2)
  }

  /** The specification whose text starts at `i`, just after the percent sign. */
  function ParseDirective(f: CString, i: nat, args: Arguments, arg: nat): (d: Directive)
    requires i <= |f|
    ensures i <= d.next <= |f|
  {
    var flagsEnd := RunEnd(f, i, IsFlag);
    var flags := f[i..flagsEnd];
    var field := FieldSize(f, flagsEnd, args, arg);
    var (length, lengthEnd) := LengthModifier(f, field.next);
    Directive('0' in flags, '-' in flags, '+' in flags, field.width, field.precision, length,
              At(f, lengthEnd), if lengthEnd < |f| then lengthEnd + 1 else lengthEnd, field.arg)
  }

  predicate TakesArgument(conversion: char) {
    conversion in {'s', 'c', 'd', 'i', 'u', 'x', 'X', 'o', 'p', 'f', 'F', 'e', 'g'}
  }

  function SignedArgument(length: Length, word: nat): int {
    if length == NoLength then AsInt(word) else AsLongWord(word)
  }

  function UnsignedArgument(length: Length, word: nat): nat {
    if length == NoLength then AsUnsigned(word) else AsUlong(word)
  }

  function Base(conversion: char): (b: nat)
    ensures b in {8, 10, 16}
  {
    if conversion == 'o' then 8 else if conversion == 'u' then 10 else 16
  }

  function PrintString(text: CString, width: int, precision: int, leftAlign: bool): seq<char> {
    var shown := if 0 <= precision < |text| then text[..precision] else text;
    var padding := Repeat(' ', width - |shown|);
    if leftAlign then shown + padding else padding + shown
  }

  predicate IsInteger(conversion: char) { conversion in {'d', 'i', 'u', 'x', 'X', 'o'} }

  /** What an integer conversion prints for the argument `slot`. */
  function ExpandInteger(d: Directive, slot: Slot): seq<char> {
    if d.conversion == 'd' || d.conversion == 'i' then
      PrintSigned(SignedArgument(d.length, slot.word), d.plus, d.width, d.zeroPad)
    else
      PrintUnsigned(UnsignedArgument(d.length, slot.word), Base(d.conversion), d.conversion == 'X', d.width, d.zeroPad)
  }

  const HEX_PREFIX: CString := "0x"
  const FLOAT_TEXT: CString := "<float>"

  /** What pointers, the floating-point conversions and unknown ones print. */
  function ExpandOther(conversion: char, slot: Slot): seq<char> {
    if conversion == 'p' then HEX_PREFIX + PrintUnsigned(AsUlong(slot.word), 16, false, 16, true)
    else if conversion in {'f', 'F', 'e', 'g'} then FLOAT_TEXT
    else if conversion != '\0' then ['%', conversion]
    else []
  }

  /** What a specification prints for the argument `slot`. */
  function Expand(d: Directive, slot: Slot): seq<char> {
    var c := d.conversion;
    if c == 's' then
      PrintString(if slot.text.Some? then slot.text.value else "(null)", d.width, d.precision, d.leftAlign)
    else if c == 'c' then [AsChar(slot.word)]
    else if IsInteger(c) then ExpandInteger(d, slot)
    else ExpandOther(c, slot)
  }

  /** A stretch of the format and what it prints: a plain character, `%%`, or a conversion.
      `next` and `arg` are where the format and the arguments go on. */
  datatype Piece = Piece(printed: seq<char>, next: nat, arg: nat)

  function NextPiece(f: CString, i: nat, args: Arguments, arg: nat): (p: Piece)
    requires i < |f|
    ensures i < p.next <= |f|
  {
    if f[i] != '%' then Piece([f[i]], i + 1, arg)
    else if At(f, i + 1) == '%' then Piece(['%'], i + 2, arg)
    else
      var d := ParseDirective(f, i + 1, args, arg);
      Piece(Expand(d, args(d.arg)), d.next, if TakesArgument(d.conversion) then d.arg + 1 else d.arg)
  }

  /** The whole output for the format text from `i` on. */
  function Render(f: CString, i: nat, args: Arguments, arg: nat): seq<char>
    requires i <= |f|
    decreases |f| - i
  {
    if i == |f| then []
    else var p := NextPiece(f, i, args, arg); p.printed + Render(f, p.next, args, p.arg)
  }

  lemma {:induction false} ExpandUnsigned(d: Directive, slot: Slot, v: nat)
    requires d.conversion in {'u', 'x', 'X', 'o'} && v == UnsignedArgument(d.length, slot.word)
    ensures v < ULONG_LIMIT
    ensures Expand(d, slot) == PrintUnsigned(v, Base(d.conversion), d.conversion == 'X', d.width, d.zeroPad)
  {
  }

  /** Every unsigned conversion of `vsnprintf` prints a text that `strtoul` reads back: `%u` in
      base 10, `%o` in base 8, `%x` and `%X` in base 16, as an `unsigned int` or, with a length
      modifier, an `unsigned long`. */
  lemma {:induction false} UnsignedConversionReadsBack(d: Directive, slot: Slot)
    requires d.conversion in {'u', 'x', 'X', 'o'}
    ensures '\0' !in Expand(d, slot)
    ensures var text := Expand(d, slot);
      var v := if d.length == NoLength then slot.word % 0x1_0000_0000 else slot.word % 0x1_0000_0000_0000_0000;
      && (d.conversion == 'u' ==> ParseUnsigned(text, 0, 10) == (v, |text|))
      && (d.conversion == 'o' ==> ParseUnsigned(text, 0, 8) == (v, |text|))
      && (d.conversion == 'x' || d.conversion == 'X' ==> ParseUnsigned(text, 0, 16) == (v, |text|))
  {
    var v := UnsignedArgument(d.length, slot.word);
    ExpandUnsigned(d, slot, v);
    UnsignedRoundTrip(v, Base(d.conversion), d.conversion == 'X', d.width, d.zeroPad);
  }

  /** Every signed conversion prints a text that `strtol` reads back, as an `int` or, with a
      length modifier, a `long`, but for the minimum of `long`, which comes out one past the
      maximum. */
  lemma {:induction false} SignedConversionReadsBack(d: Directive, slot: Slot)
    requires d.conversion in {'d', 'i'}
    ensures '\0' !in Expand(d, slot)
    ensures var text := Expand(d, slot);
      var limit := if d.length == NoLength then 0x8000_0000 else 0x8000_0000_0000_0000;
      var word := if d.length == NoLength then slot.word % 0x1_0000_0000 else slot.word % 0x1_0000_0000_0000_0000;
      var v := if word < limit then word else word - 2 * limit;
      ParseSigned(text, 10) == (if v == -0x8000_0000_0000_0000 then 0x8000_0000_0000_0000 else v, |text|)
  {
    SignedArgumentIs(d.length, slot.word);
    SignedRoundTrip(SignedArgument(d.length, slot.word), d.plus, d.width, d.zeroPad);
  }

  lemma {:induction false} SignedArgumentIs(length: Length, all: nat)
    ensures var limit := if length == NoLength then 0x8000_0000 else 0x8000_0000_0000_0000;
      var word := if length == NoLength then all % 0x1_0000_0000 else all % 0x1_0000_0000_0000_0000;
      SignedArgument(length, all) == if word < limit then word else word - 2 * limit
  {
  }

  // --- the digit array -------------------------------------------------------

  /** A 64-bit value has at most 22 digits in any base from 8 up. */
  lemma {:induction false} NumeralIsShort(v: nat, base: nat, upper: bool)
    requires v < ULONG_LIMIT && 8 <= base <= 16
    ensures |Numeral(v, base, upper)| <= 22
  {
    OctalDigits(v, base, upper, 22);
    SixtySixBits();
  }

  lemma {:induction false} SixtySixBits()
    ensures ULONG_LIMIT <= Pow2(66)
  {
    assert Pow2(2) == 4 && Pow2(4) == 16;
    Pow2Sum(4, 4);
    Pow2Sum(8, 8);
    Pow2Sum(16, 16);
    Pow2Sum(32, 32);
    Pow2Sum(64, 2);
  }

  lemma {:induction false} OctalDigits(v: nat, base: nat, upper: bool, k: nat)
    requires 8 <= base <= 16 && k > 0
    ensures v < Pow2(3 * k) ==> |Numeral(v, base, upper)| <= k
    decreases k
  {
    if v >= base && v < Pow2(3 * k) {
      assert Pow2(2) == 4;
      Pow2Sum(3, 3 * k - 3);
      OctalStep(v, base, Pow2(3 * k - 3));
      assert k > 1;
      OctalDigits(v / base, base, upper, k - 1);
    }
  }

  lemma {:induction false} OctalStep(v: nat, base: nat, p: nat)
    requires base >= 8 && v < 8 * p
    ensures v / base < p
  {
    var q := v / base;
    if q >= p {
      assert v == q * base + v % base;
      MulMono(q, 8, base);
      assert false;
    }
  }
}
