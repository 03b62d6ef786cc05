/** Printed numbers and their parsers: `output_unsigned` and the integer conversions of
    `vsnprintf` on one side, `strtoul` and `strtol` on the other. */
module Numerals {

  const ULONG_LIMIT: int := 0x1_0000_0000_0000_0000
  const LONG_LIMIT: int := 0x8000_0000_0000_0000

  /** A C string: its bytes up to, and without, the terminating NUL. */
  type CString = s: seq<char> | '\0' !in s

  /** What reading byte `i` of a C string yields; the byte after the last is the NUL. */
  function At(s: CString, i: nat): char {
    if i < |s| then s[i] else '\0'
  }

  // --- printing --------------------------------------------------------------

  function Digit(d: nat, upper: bool): char
    requires d < 16
  {
    if upper then "0123456789ABCDEF"[d] else "0123456789abcdef"[d]
  }

  /** The shortest numeral of `v`, most significant digit first. */
  function Numeral(v: nat, base: nat, upper: bool): (text: seq<char>)
    requires 2 <= base <= 16
    ensures |text| >= 1
  {
    if v < base then [Digit(v, upper)] else Numeral(v / base, base, upper) + [Digit(v % base, upper)]
  }

  function Repeat(c: char, count: int): seq<char> {
    if count <= 0 then [] else seq(count, _ => c)
  }

  /** Right-aligned in `width` columns. */
  function PadLeft(pad: char, numeral: seq<char>, width: int): seq<char> {
    Repeat(pad, width - |numeral|) + numeral
  }

  /** `output_unsigned`. */
  function PrintUnsigned(v: nat, base: nat, upper: bool, width: int, zeroPad: bool): seq<char>
    requires 2 <= base <= 16
  {
    PadLeft(if zeroPad then '0' else ' ', Numeral(v, base, upper), width)
  }

  function SignText(v: int, plus: bool): seq<char> {
    if v < 0 then "-" else if plus then "+" else ""
  }

  /** Spaces go before the sign, zeros after it. */
  function Padded(sign: seq<char>, numeral: seq<char>, width: int, zeroPad: bool): seq<char> {
    var pad := width - |sign| - |numeral|;
    if zeroPad then sign + PadLeft('0', numeral, width - |sign|) else Repeat(' ', pad) + sign + numeral
  }

  function Magnitude(v: int): nat { if v < 0 then -v else v }

  /** `%d` and `%i`. */
  function PrintSigned(v: int, plus: bool, width: int, zeroPad: bool): seq<char> {
    Padded(SignText(v, plus), Numeral(Magnitude(v), 10, false), width, zeroPad)
  }

  // --- parsing ---------------------------------------------------------------

  function DigitValue(c: char): int {
    if '0' <= c <= '9' then c as int - '0' as int
    else if 'a' <= c <= 'z' then c as int - 'a' as int + 10
    else if 'A' <= c <= 'Z' then c as int - 'A' as int + 10
    else -1
  }

  predicate IsDigitIn(c: char, base: nat) {
    0 <= DigitValue(c) < base
  }

  predicate IsSpace(c: char) {
    c == ' ' || c == '\t' || c == '\n' || c == '\r' || c == '\U{0C}' || c == '\U{0B}'
  }

  /** The end of the longest run of characters satisfying `p` from `i` on. */
  function RunEnd(s: CString, i: nat, p: char -> bool): (end: nat)
    requires i <= |s|
    ensures i <= end <= |s|
    ensures forall k :: i <= k < end ==> p(s[k])
    ensures end < |s| ==> !p(s[end])
    decreases |s| - i
  {
    if i == |s| || !p(s[i]) then i else RunEnd(s, i + 1, p)
  }

  function SpaceEnd(s: CString, i: nat): nat
    requires i <= |s|
  {
    RunEnd(s, i, IsSpace)
  }

  function DigitsEnd(s: CString, i: nat, base: nat): nat
    requires i <= |s|
  {
    RunEnd(s, i, c => IsDigitIn(c, base))
  }

  /** The number a digit string denotes, without any bound. */
  function Value(digits: seq<char>, base: nat): int {
    if digits == [] then 0
    else Value(digits[..|digits| - 1], base) * base + DigitValue(digits[|digits| - 1])
  }

  /** The base and first digit position after an optional `0x` prefix. */
  function Prefix(s: CString, i: nat, base: nat): (nat, nat) {
    if (base == 0 || base == 16) && At(s, i) == '0' && (At(s, i + 1) == 'x' || At(s, i + 1) == 'X') then (16, i + 2)
    else if base == 0 then (if At(s, i) == '0' then 8 else 10, i)
    else (base, i)
  }

  /** The position after an optional sign. */
  function AfterSign(s: CString, i: nat): (next: nat)
    requires i <= |s|
    ensures i <= next <= |s|
  {
    if At(s, i) == '+' || At(s, i) == '-' then i + 1 else i
  }

  function Wrapped(negative: bool, magnitude: int): nat {
    (if negative then -magnitude else magnitude) % ULONG_LIMIT
  }

  /** What `strtoul` returns for the text from `start` on: the value reduced to the machine
      word, and where it stopped, which is `start` again when there was no digit. */
  function ParseUnsigned(s: CString, start: nat, base: nat): (nat, nat)
    requires start <= |s|
  {
    var signAt := SpaceEnd(s, start);
    var (b, digits) := Prefix(s, AfterSign(s, signAt), base);
    var end := DigitsEnd(s, digits, b);
    (Wrapped(At(s, signAt) == '-', Value(s[digits..end], b)), if end == digits then start else end)
  }

  function AsLong(word: nat): int {
    if word < LONG_LIMIT then word else word - ULONG_LIMIT
  }

  /** What `strtol` returns.  It reads its own sign first and hands the rest to `strtoul`. */
  function ParseSigned(s: CString, base: nat): (int, nat) {
    var signAt := SpaceEnd(s, 0);
    var cursor := AfterSign(s, signAt);
    var (magnitude, end) := ParseUnsigned(s, cursor, base);
    (Signed(At(s, signAt) == '-', magnitude), if end == cursor then 0 else end)
  }

  function Signed(negative: bool, magnitude: nat): int {
    if negative then -AsLong(magnitude) else AsLong(magnitude)
  }

  // --- printing and parsing undo each other ----------------------------------

  lemma {:induction false} DigitReadsBack(d: nat, upper: bool)
    requires d < 16
    ensures DigitValue(Digit(d, upper)) == d
    ensures forall base: nat :: d < base ==> Plain(Digit(d, upper), base)
  {
  }

  predicate Plain(c: char, base: nat) {
    IsDigitIn(c, base) && c !in {'\0', '+', '-', 'x', 'X'} && !IsSpace(c)
  }

  predicate AllDigits(t: seq<char>, base: nat) {
    forall i :: 0 <= i < |t| ==> Plain(t[i], base)
  }

  lemma {:induction false} ValueOfAppend(t: seq<char>, c: char, base: nat)
    ensures Value(t + [c], base) == Value(t, base) * base + DigitValue(c)
  {
    assert (t + [c])[..|t|] == t;
  }

  lemma {:induction false} DivMod(v: nat, base: nat)
    requires base > 0
    ensures v / base * base + v % base == v
    ensures base >= 2 && v >= base ==> v / base < v
  {
  }

  lemma {:induction false} NumeralReadsBack(v: nat, base: nat, upper: bool)
    requires 2 <= base <= 16
    ensures AllDigits(Numeral(v, base, upper), base)
    ensures Value(Numeral(v, base, upper), base) == v
  {
    if v < base {
      DigitReadsBack(v, upper);
      ValueOfAppend([], Digit(v, upper), base);
      assert [] + [Digit(v, upper)] == Numeral(v, base, upper);
    } else {
      DivMod(v, base);
      NumeralReadsBack(v / base, base, upper);
      DigitReadsBack(v % base, upper);
      OneMoreDigit(Numeral(v / base, base, upper), v / base, v % base, base, upper);
    }
  }

  lemma {:induction false} OneMoreDigit(t: seq<char>, high: int, low: nat, base: nat, upper: bool)
    requires AllDigits(t, base) && Value(t, base) == high && low < 16 && low < base
    ensures AllDigits(t + [Digit(low, upper)], base)
    ensures Value(t + [Digit(low, upper)], base) == high * base + low
  {
    DigitReadsBack(low, upper);
    ValueOfAppend(t, Digit(low, upper), base);
  }

  lemma {:induction false} LeadingZeros(count: nat, t: seq<char>, base: nat)
    requires base >= 2 && AllDigits(t, base)
    ensures AllDigits(Repeat('0', count) + t, base) && Value(Repeat('0', count) + t, base) == Value(t, base)
    decreases |t|
  {
    var z := Repeat('0', count);
    if t == [] {
      assert z + t == z;
      ValueOfZeros(count, base);
    } else {
      var front := t[..|t| - 1];
      LeadingZeros(count, front, base);
      assert (z + t)[..|z + t| - 1] == z + front;
    }
  }

  lemma {:induction false} ValueOfZeros(count: nat, base: nat)
    ensures Value(Repeat('0', count), base) == 0
  {
    if count > 0 {
      ValueOfZeros(count - 1, base);
      assert Repeat('0', count)[..count - 1] == Repeat('0', count - 1);
    }
  }

  lemma {:induction false} RunCovers(s: CString, i: nat, end: nat, p: char -> bool)
    requires i <= end <= |s| && forall k :: i <= k < end ==> p(s[k])
    requires end < |s| ==> !p(s[end])
    ensures RunEnd(s, i, p) == end
    decreases end - i
  {
    if i < end {
      RunCovers(s, i + 1, end, p);
    }
  }

  lemma {:induction false} DigitsHaveNoNul(t: seq<char>, base: nat)
    requires AllDigits(t, base)
    ensures '\0' !in t
  {
    assert forall i :: 0 <= i < |t| ==> Plain(t[i], base) && t[i] != '\0';
  }

  /** From a position where only digits follow there is no space, sign or prefix to skip. */
  lemma {:induction false} OnlyDigitsFollow(s: CString, from: nat, base: nat)
    requires base in {8, 10, 16} && from < |s| && AllDigits(s[from..], base)
    ensures s[from] !in {'+', '-'} && !IsSpace(s[from])
    ensures SpaceEnd(s, from) == from && Prefix(s, from, base) == (base, from) && DigitsEnd(s, from, base) == |s|
  {
    assert s[from] == s[from..][0];
    assert At(s, from + 1) == '\0' || At(s, from + 1) == s[from..][1];
    RunCovers(s, from, from, IsSpace);
    forall k | from <= k < |s| ensures IsDigitIn(s[k], base) { assert s[k] == s[from..][k - from]; }
    RunCovers(s, from, |s|, c => IsDigitIn(c, base));
  }

  lemma {:induction false} ParsesDigits(s: CString, from: nat, base: nat, v: nat)
    requires base in {8, 10, 16} && from < |s| && AllDigits(s[from..], base)
    requires Value(s[from..], base) == v < ULONG_LIMIT
    ensures ParseUnsigned(s, from, base) == (v, |s|)
    ensures s[from] !in {'+', '-'} && !IsSpace(s[from])
  {
    OnlyDigitsFollow(s, from, base);
    assert s[from..|s|] == s[from..];
    ParsedFrom(s, from, base, v);
  }

  lemma {:induction false} ParsedFrom(s: CString, from: nat, base: nat, v: nat)
    requires from < |s| && s[from] !in {'+', '-'} && SpaceEnd(s, from) == from
    requires Prefix(s, from, base) == (base, from) && DigitsEnd(s, from, base) == |s|
    requires Value(s[from..|s|], base) == v < ULONG_LIMIT
    ensures ParseUnsigned(s, from, base) == (v, |s|)
  {
  }

  /** Leading spaces do not matter to `strtoul`. */
  lemma {:induction false} SkipsSpaces(s: CString, spaces: nat, base: nat, v: nat)
    requires spaces < |s| && forall i :: 0 <= i < spaces ==> s[i] == ' '
    requires !IsSpace(s[spaces]) && ParseUnsigned(s, spaces, base) == (v, |s|)
    ensures SpaceEnd(s, 0) == spaces
    ensures ParseUnsigned(s, 0, base) == (v, |s|)
  {
    RunCovers(s, 0, spaces, IsSpace);
    RunCovers(s, spaces, spaces, IsSpace);
  }

  lemma {:induction false} ZeroPadded(v: nat, numeral: seq<char>, base: nat, padding: nat)
    requires base in {8, 10, 16} && numeral != [] && AllDigits(numeral, base)
    requires Value(numeral, base) == v < ULONG_LIMIT
    ensures var text := Repeat('0', padding) + numeral;
      '\0' !in text && ParseUnsigned(text, 0, base) == (v, |text|)
  {
    var text := Repeat('0', padding) + numeral;
    LeadingZeros(padding, numeral, base);
    DigitsHaveNoNul(text, base);
    assert text[0..] == text;
    ParsesDigits(text, 0, base, v);
  }

  lemma {:induction false} SpacePadded(v: nat, numeral: seq<char>, base: nat, padding: nat)
    requires base in {8, 10, 16} && numeral != [] && AllDigits(numeral, base)
    requires Value(numeral, base) == v < ULONG_LIMIT
    ensures var text := Repeat(' ', padding) + numeral;
      '\0' !in text && ParseUnsigned(text, 0, base) == (v, |text|)
  {
    var text := Repeat(' ', padding) + numeral;
    DigitsHaveNoNul(numeral, base);
    assert text[padding..] == numeral;
    ParsesDigits(text, padding, base, v);
    SkipsSpaces(text, padding, base, v);
  }

  lemma {:induction false} RepeatNegative(c: char, count: int)
    ensures Repeat(c, count) == Repeat(c, if count > 0 then count else 0)
  {
  }

  /** Main result for unsigned numbers: any 64-bit value, base 8, 10 or 16, either case,
      any field width, padded with spaces or zeros. */
  lemma {:induction false} UnsignedRoundTrip(v: nat, base: nat, upper: bool, width: int, zeroPad: bool)
    requires v < ULONG_LIMIT && base in {8, 10, 16}
    ensures var text := PrintUnsigned(v, base, upper, width, zeroPad);
      '\0' !in text && ParseUnsigned(text, 0, base) == (v, |text|)
  {
    var numeral := Numeral(v, base, upper);
    NumeralReadsBack(v, base, upper);
    RepeatNegative(if zeroPad then '0' else ' ', width - |numeral|);
    var padding := if width > |numeral| then width - |numeral| else 0;
    if zeroPad {
      ZeroPadded(v, numeral, base, padding);
    } else {
      SpacePadded(v, numeral, base, padding);
    }
  }

  /** Spaces, an optional sign, digits: `strtol` reads the signed value. */
  lemma {:induction false} ParsesSignedText(spaces: nat, sign: seq<char>, digits: seq<char>, magnitude: nat)
    requires sign in {"", "+", "-"} && digits != [] && AllDigits(digits, 10)
    requires Value(digits, 10) == magnitude < ULONG_LIMIT
    ensures var text := Repeat(' ', spaces) + sign + digits;
      && '\0' !in text
      && ParseSigned(text, 10) == (Signed(sign == "-", magnitude), |text|)
  {
    var text := Repeat(' ', spaces) + sign + digits;
    SignedTextParts(spaces, sign, digits);
    ReadsSigned(text, spaces, spaces + |sign|, magnitude);
  }

  lemma {:induction false} ReadsSigned(s: CString, spaces: nat, from: nat, magnitude: nat)
    requires spaces <= from < |s| && forall i :: 0 <= i < spaces ==> s[i] == ' '
    requires from == if s[spaces] in {'+', '-'} then spaces + 1 else spaces
    requires AllDigits(s[from..], 10) && Value(s[from..], 10) == magnitude < ULONG_LIMIT
    ensures ParseSigned(s, 10) == (Signed(s[spaces] == '-', magnitude), |s|)
  {
    ParsesDigits(s, from, 10, magnitude);
    RunCovers(s, 0, spaces, IsSpace);
    SignedFromUnsigned(s, spaces, from, magnitude);
  }

  lemma {:induction false} SignedTextParts(spaces: nat, sign: seq<char>, digits: seq<char>)
    requires sign in {"", "+", "-"} && digits != [] && AllDigits(digits, 10)
    ensures var text := Repeat(' ', spaces) + sign + digits;
      && '\0' !in text && |text| == spaces + |sign| + |digits|
      && (forall i :: 0 <= i < spaces ==> text[i] == ' ')
      && (text[spaces] in {'+', '-'} <==> sign != "") && (text[spaces] == '-' <==> sign == "-")
      && text[spaces + |sign|..] == digits
  {
    DigitsHaveNoNul(digits, 10);
    assert Plain(digits[0], 10);
  }

  lemma {:induction false} SignedFromUnsigned(s: CString, spaces: nat, from: nat, magnitude: nat)
    requires spaces <= from < |s| && SpaceEnd(s, 0) == spaces
    requires ParseUnsigned(s, from, 10) == (magnitude, |s|)
    requires from == if s[spaces] in {'+', '-'} then spaces + 1 else spaces
    ensures ParseSigned(s, 10) == (Signed(s[spaces] == '-', magnitude), |s|)
  {
  }

  /** A padded number is spaces, its sign, and digits of the same value. */
  lemma {:induction false} PaddedShape(sign: seq<char>, numeral: seq<char>, width: int, zeroPad: bool)
    returns (spaces: nat, digits: seq<char>)
    requires numeral != [] && AllDigits(numeral, 10)
    ensures digits != [] && AllDigits(digits, 10) && Value(digits, 10) == Value(numeral, 10)
    ensures Padded(sign, numeral, width, zeroPad) == Repeat(' ', spaces) + sign + digits
  {
    var pad := width - |sign| - |numeral|;
    var padding := if pad > 0 then pad else 0;
    if zeroPad {
      LeadingZeros(padding, numeral, 10);
      ZerosAfterSign(sign, numeral, pad);
      spaces, digits := 0, Repeat('0', padding) + numeral;
    } else {
      RepeatNegative(' ', pad);
      spaces, digits := padding, numeral;
    }
  }

  lemma {:induction false} ZerosAfterSign(sign: seq<char>, numeral: seq<char>, pad: int)
    ensures sign + (Repeat('0', pad) + numeral) ==
            Repeat(' ', 0) + sign + (Repeat('0', if pad > 0 then pad else 0) + numeral)
  {
    RepeatNegative('0', pad);
    assert Repeat(' ', 0) + sign == sign;
  }

  /** Main result for signed numbers: a printed `long`, with or without `+`, reads back
      exactly unless it is the minimum, whose negation `strtol` cannot represent. */
  lemma {:induction false} SignedRoundTrip(v: int, plus: bool, width: int, zeroPad: bool)
    requires -LONG_LIMIT <= v < LONG_LIMIT
    ensures var text := PrintSigned(v, plus, width, zeroPad);
      && '\0' !in text
      && ParseSigned(text, 10) == (if v == -LONG_LIMIT then LONG_LIMIT else v, |text|)
  {
    NumeralReadsBack(Magnitude(v), 10, false);
    SignAndMagnitude(v, plus);
    PaddedReadsBack(SignText(v, plus), Numeral(Magnitude(v), 10, false), width, zeroPad, Magnitude(v));
  }

  lemma {:induction false} SignAndMagnitude(v: int, plus: bool)
    requires -LONG_LIMIT <= v < LONG_LIMIT
    ensures SignText(v, plus) in {"", "+", "-"} && (SignText(v, plus) == "-" <==> v < 0)
    ensures Signed(v < 0, Magnitude(v)) == if v == -LONG_LIMIT then LONG_LIMIT else v
  {
  }

  lemma {:induction false} PaddedReadsBack(sign: seq<char>, numeral: seq<char>, width: int,
                                           zeroPad: bool, magnitude: nat)
    requires sign in {"", "+", "-"} && numeral != [] && AllDigits(numeral, 10)
    requires Value(numeral, 10) == magnitude < ULONG_LIMIT
    ensures var text := Padded(sign, numeral, width, zeroPad);
      && '\0' !in text
      && ParseSigned(text, 10) == (Signed(sign == "-", magnitude), |text|)
  {
    var spaces, digits := PaddedShape(sign, numeral, width, zeroPad);
    ParsesSignedText(spaces, sign, digits, magnitude);
  }

  /** The bound on signed values is exact: the negation in `strtol` stays within `long`
      unless the text denotes the minimum. */
  lemma {:induction false} NegationFitsExactly(s: CString, base: nat)
    ensures var (v, _) := ParseSigned(s, base);
            -LONG_LIMIT <= v <= LONG_LIMIT
    ensures var signAt := SpaceEnd(s, 0);
            ParseSigned(s, base).0 < LONG_LIMIT <==>
            !(At(s, signAt) == '-' && ParseUnsigned(s, AfterSign(s, signAt), base).0 == LONG_LIMIT)
  {
  }
}
