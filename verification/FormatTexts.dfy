/** What `vsnprintf` makes of any format, in terms of the parts the format is made of. */
module FormatTexts {
  import opened Options
  import opened Arithmetic
  import opened Numerals
  import opened Formatting
  import opened NumberTexts
  import opened Sequences

  /** A width, or a precision after its dot: an argument, or digits, possibly none. */
  datatype Amount = Star | Given(digits: string)

  datatype Modifier = NoModifier | H | HH | L | LL | Z | T | J

  /** A conversion specification by its parts; the conversion itself is missing where the
      format ends too soon. */
  datatype Spec = Spec(flags: string, width: Amount, precision: Option<Amount>, modifier: Modifier,
                       conversion: Option<char>)

  datatype Item = Plain(c: char) | Percent | Convert(spec: Spec)

  predicate IsFlagCharacter(c: char) { c == '0' || c == '-' || c == '+' || c == ' ' || c == '#' }

  predicate Decimal(digits: string) { forall i | 0 <= i < |digits| :: '0' <= digits[i] <= '9' }

  predicate IsAmount(a: Amount) { a.Given? ==> Decimal(a.digits) }

  function AmountSize(a: Amount): nat { if a.Star? then 1 else |a.digits| }

  function PrecisionSize(p: Option<Amount>): nat { if p.None? then 0 else 1 + AmountSize(p.value) }

  function ModifierSize(m: Modifier): nat {
    match m
    case NoModifier => 0
    case HH => 2
    case LL => 2
    case _ => 1
  }

  // --- the parts in the format -------------------------------------------------------------

  predicate There(f: CString, i: nat, t: string) { i + |t| <= |f| && forall k | 0 <= k < |t| :: f[i + k] == t[k] }

  predicate FlagsAt(f: CString, i: nat, flags: string) {
    && There(f, i, flags)
    && (forall k | 0 <= k < |flags| :: IsFlagCharacter(flags[k]))
    && !IsFlagCharacter(At(f, i + |flags|))
  }

  predicate DigitsAt(f: CString, i: nat, digits: string) {
    There(f, i, digits) && Decimal(digits) && At(f, i) != '*' && !('0' <= At(f, i + |digits|) <= '9')
  }

  predicate AmountAt(f: CString, i: nat, a: Amount) {
    match a
    case Star => At(f, i) == '*'
    case Given(digits) => DigitsAt(f, i, digits)
  }

  predicate PrecisionAt(f: CString, i: nat, p: Option<Amount>) {
    match p
    case None => At(f, i) != '.'
    case Some(a) => At(f, i) == '.' && AmountAt(f, i + 1, a)
  }

  predicate ModifierAt(f: CString, i: nat, m: Modifier) {
    var c, d := At(f, i), At(f, i + 1);
    match m
    case NoModifier => c != 'h' && c != 'l' && c != 'z' && c != 't' && c != 'j'
    case H => c == 'h' && d != 'h'
    case HH => c == 'h' && d == 'h'
    case L => c == 'l' && d != 'l'
    case LL => c == 'l' && d == 'l'
    case Z => c == 'z'
    case T => c == 't'
    case J => c == 'j'
  }

  predicate ConversionAt(f: CString, i: nat, conversion: Option<char>) {
    match conversion
    case None => i == |f|
    case Some(c) => i < |f| && f[i] == c
  }

  predicate FieldAt(f: CString, i: nat, spec: Spec) {
    AmountAt(f, i, spec.width) && PrecisionAt(f, i + AmountSize(spec.width), spec.precision)
  }

  function ModifierStart(spec: Spec, i: nat): nat {
    i + |spec.flags| + AmountSize(spec.width) + PrecisionSize(spec.precision)
  }

  function ConversionStart(spec: Spec, i: nat): nat { ModifierStart(spec, i) + ModifierSize(spec.modifier) }

  function SpecEnd(spec: Spec, i: nat): nat {
    ConversionStart(spec, i) + if spec.conversion.None? then 0 else 1
  }

  /** The specification stands at `i`, just after its percent sign, and each of its parts is
      all of what it could be. */
  predicate SpecAt(f: CString, i: nat, spec: Spec) {
    && FlagsAt(f, i, spec.flags)
    && FieldAt(f, i + |spec.flags|, spec)
    && ModifierAt(f, ModifierStart(spec, i), spec.modifier)
    && ConversionAt(f, ConversionStart(spec, i), spec.conversion)
  }

  // --- what the parts mean -----------------------------------------------------------------

  /** A machine word as an `int`. */
  function Int32(word: nat): int {
    var low := word % 0x1_0000_0000;
    if low < 0x8000_0000 then low else low - 0x1_0000_0000
  }

  function DecimalDigits(digits: string): seq<nat>
    requires Decimal(digits)
  {
    seq(|digits|, i requires 0 <= i < |digits| => digits[i] as int - '0' as int)
  }

  function AmountValue(a: Amount, args: Arguments, arg: nat): int
    requires IsAmount(a)
  {
    if a.Star? then Int32(args(arg).word) else PlaceValue(DecimalDigits(a.digits), 10)
  }

  function StarsIn(a: Amount): nat { if a.Star? then 1 else 0 }

  function WidthOf(spec: Spec, args: Arguments, arg: nat): int
    requires IsAmount(spec.width)
  {
    AmountValue(spec.width, args, arg)
  }

  /** The precision, or -1 without one. */
  function PrecisionOf(spec: Spec, args: Arguments, arg: nat): int
    requires spec.precision.Some? ==> IsAmount(spec.precision.value)
  {
    if spec.precision.None? then -1 else AmountValue(spec.precision.value, args, arg + StarsIn(spec.width))
  }

  /** The argument the conversion itself takes. */
  function OwnArgument(spec: Spec, arg: nat): nat {
    arg + StarsIn(spec.width) + if spec.precision.Some? then StarsIn(spec.precision.value) else 0
  }

  function LengthOf(m: Modifier): Length {
    match m
    case L => Long
    case LL => LongLong
    case Z => LongLong
    case T => LongLong
    case J => LongLong
    case _ => NoLength
  }

  // --- the specification read back -----------------------------------------------------------

  lemma {:induction false} Cut(f: CString, i: nat, t: string)
    requires There(f, i, t)
    ensures f[i..i + |t|] == t
  {
  }

  lemma {:induction false} ReadsFlags(f: CString, i: nat, flags: string)
    requires FlagsAt(f, i, flags)
    ensures RunEnd(f, i, IsFlag) == i + |flags| && f[i..i + |flags|] == flags
  {
    forall k | i <= k < i + |flags|
      ensures IsFlag(f[k])
    {
      assert f[i + (k - i)] == flags[k - i];
    }
    RunCovers(f, i, i + |flags|, IsFlag);
    Cut(f, i, flags);
  }

  lemma {:induction false} DecimalShows(digits: string)
    requires Decimal(digits)
    ensures ShowsAll(digits, DecimalDigits(digits), 10)
  {
    forall i | 0 <= i < |digits|
      ensures Shows(digits[i], DecimalDigits(digits)[i])
    {
      LowerDigit(digits[i] as int - '0' as int);
    }
  }

  lemma {:induction false} DecimalValue(digits: string)
    requires Decimal(digits)
    ensures Value(digits, 10) == PlaceValue(DecimalDigits(digits), 10)
  {
    DecimalShows(digits);
    ValueIsPlaceValue(digits, DecimalDigits(digits), 10);
  }

  lemma {:induction false} ReadsDigits(f: CString, i: nat, digits: string, args: Arguments, arg: nat)
    requires DigitsAt(f, i, digits)
    ensures StarOrNumber(f, i, args, arg) == (PlaceValue(DecimalDigits(digits), 10), i + |digits|, arg)
  {
    forall k | i <= k < i + |digits|
      ensures IsDecimal(f[k])
    {
      assert f[i + (k - i)] == digits[k - i];
    }
    RunCovers(f, i, i + |digits|, IsDecimal);
    Cut(f, i, digits);
    DecimalValue(digits);
  }

  lemma {:induction false} SameInt32(word: nat)
    ensures AsInt(word) == Int32(word)
  {
  }

  lemma {:induction false} ReadsAmount(f: CString, i: nat, a: Amount, args: Arguments, arg: nat)
    requires i <= |f| && AmountAt(f, i, a)
    ensures StarOrNumber(f, i, args, arg) == (AmountValue(a, args, arg), i + AmountSize(a), arg + StarsIn(a))
  {
    if a.Star? {
      SameInt32(args(arg).word);
    } else {
      ReadsDigits(f, i, a.digits, args, arg);
    }
  }

  lemma {:induction false} FieldWithoutDot(f: CString, i: nat, args: Arguments, arg: nat, w: int, end: nat, arg1: nat)
    requires i <= |f| && StarOrNumber(f, i, args, arg) == (w, end, arg1) && At(f, end) != '.'
    ensures FieldSize(f, i, args, arg) == Field(w, -1, end, arg1)
  {
  }

  lemma {:induction false} FieldWithDot(f: CString, i: nat, args: Arguments, arg: nat, w: int, dot: nat, arg1: nat,
                                        p: int, end: nat, arg2: nat)
    requires i <= |f| && StarOrNumber(f, i, args, arg) == (w, dot, arg1) && At(f, dot) == '.' && dot < |f|
    requires StarOrNumber(f, dot + 1, args, arg1) == (p, end, arg2)
    ensures FieldSize(f, i, args, arg) == Field(w, p, end, arg2)
  {
  }

  /** What the width and the precision that begin at `i` are read as. */
  function FieldOf(spec: Spec, args: Arguments, arg: nat, i: nat): Field
    requires IsAmount(spec.width) && (spec.precision.Some? ==> IsAmount(spec.precision.value))
  {
    Field(WidthOf(spec, args, arg), PrecisionOf(spec, args, arg),
          i + AmountSize(spec.width) + PrecisionSize(spec.precision), OwnArgument(spec, arg))
  }

  lemma {:induction false} ReadsWidth(f: CString, i: nat, spec: Spec, args: Arguments, arg: nat)
    requires i <= |f| && FieldAt(f, i, spec) && spec.precision.None?
    ensures FieldSize(f, i, args, arg) == FieldOf(spec, args, arg, i)
  {
    ReadsAmount(f, i, spec.width, args, arg);
    FieldWithoutDot(f, i, args, arg, WidthOf(spec, args, arg), i + AmountSize(spec.width), arg + StarsIn(spec.width));
  }

  lemma {:induction false} ReadsPrecision(f: CString, i: nat, args: Arguments, arg: nat, w: int, dot: nat, arg1: nat,
                                          p: Amount)
    requires i <= |f| && StarOrNumber(f, i, args, arg) == (w, dot, arg1) && At(f, dot) == '.' && dot < |f|
    requires AmountAt(f, dot + 1, p)
    ensures FieldSize(f, i, args, arg) ==
            Field(w, AmountValue(p, args, arg1), dot + 1 + AmountSize(p), arg1 + StarsIn(p))
  {
    ReadsAmount(f, dot + 1, p, args, arg1);
    FieldWithDot(f, i, args, arg, w, dot, arg1, AmountValue(p, args, arg1), dot + 1 + AmountSize(p),
                 arg1 + StarsIn(p));
  }

  lemma {:induction false} ReadsField(f: CString, i: nat, spec: Spec, args: Arguments, arg: nat)
    requires i <= |f| && FieldAt(f, i, spec)
    ensures FieldSize(f, i, args, arg) == FieldOf(spec, args, arg, i)
  {
    if spec.precision.None? {
      ReadsWidth(f, i, spec, args, arg);
    } else {
      ReadsAmount(f, i, spec.width, args, arg);
      ReadsPrecision(f, i, args, arg, WidthOf(spec, args, arg), i + AmountSize(spec.width), arg + StarsIn(spec.width),
                     spec.precision.value);
    }
  }

  lemma {:induction false} ReadsModifier(f: CString, i: nat, m: Modifier)
    requires i <= |f| && ModifierAt(f, i, m)
    ensures LengthModifier(f, i) == (LengthOf(m), i + ModifierSize(m))
  {
  }

  /** The directive means what the specification says. */
  predicate Means(d: Directive, spec: Spec, args: Arguments, arg: nat, i: nat)
    requires IsAmount(spec.width) && (spec.precision.Some? ==> IsAmount(spec.precision.value))
  {
    && (d.zeroPad <==> '0' in spec.flags) && (d.leftAlign <==> '-' in spec.flags) && (d.plus <==> '+' in spec.flags)
    && d.width == WidthOf(spec, args, arg) && d.precision == PrecisionOf(spec, args, arg)
    && d.length == LengthOf(spec.modifier)
    && d.conversion == (if spec.conversion.None? then '\0' else spec.conversion.value)
    && d.next == SpecEnd(spec, i) && d.arg == OwnArgument(spec, arg)
  }

  lemma {:induction false} ReadsRest(f: CString, i: nat, spec: Spec, args: Arguments, arg: nat, fieldAt: nat,
                                     field: Field)
    requires i <= fieldAt <= |f| && RunEnd(f, i, IsFlag) == fieldAt && f[i..fieldAt] == spec.flags
    requires FieldSize(f, fieldAt, args, arg) == field && ModifierAt(f, field.next, spec.modifier)
    requires ConversionAt(f, field.next + ModifierSize(spec.modifier), spec.conversion)
    ensures var d := ParseDirective(f, i, args, arg);
      && (d.zeroPad <==> '0' in spec.flags) && (d.leftAlign <==> '-' in spec.flags) && (d.plus <==> '+' in spec.flags)
      && d.width == field.width && d.precision == field.precision && d.length == LengthOf(spec.modifier)
      && d.conversion == (if spec.conversion.None? then '\0' else spec.conversion.value)
      && d.next == field.next + ModifierSize(spec.modifier) + (if spec.conversion.None? then 0 else 1)
      && d.arg == field.arg
  {
    ReadsModifier(f, field.next, spec.modifier);
  }

  predicate FieldMeans(field: Field, spec: Spec, args: Arguments, arg: nat, i: nat) {
    && IsAmount(spec.width) && (spec.precision.Some? ==> IsAmount(spec.precision.value))
    && field.width == WidthOf(spec, args, arg) && field.precision == PrecisionOf(spec, args, arg)
    && field.next == ModifierStart(spec, i) && field.arg == OwnArgument(spec, arg)
  }

  /** The flags and the field are read; what is left stands where it should. */
  ghost predicate HeadRead(f: CString, i: nat, spec: Spec, args: Arguments, arg: nat, fieldAt: nat) {
    && i <= fieldAt <= |f| && RunEnd(f, i, IsFlag) == fieldAt && f[i..fieldAt] == spec.flags
    && FieldMeans(FieldSize(f, fieldAt, args, arg), spec, args, arg, i)
    && ModifierAt(f, ModifierStart(spec, i), spec.modifier)
    && ConversionAt(f, ConversionStart(spec, i), spec.conversion)
  }

  lemma {:induction false} FieldIs(f: CString, i: nat, spec: Spec, args: Arguments, arg: nat, fieldAt: nat)
    requires fieldAt == i + |spec.flags| <= |f| && FieldAt(f, fieldAt, spec)
    ensures FieldMeans(FieldSize(f, fieldAt, args, arg), spec, args, arg, i)
  {
    ReadsField(f, fieldAt, spec, args, arg);
  }

  lemma {:induction false} ReadsHead(f: CString, i: nat, spec: Spec, args: Arguments, arg: nat)
    requires SpecAt(f, i, spec)
    ensures HeadRead(f, i, spec, args, arg, i + |spec.flags|)
  {
    FieldIs(f, i, spec, args, arg, i + |spec.flags|);
    ReadsFlags(f, i, spec.flags);
  }

  lemma {:induction false} ReadsMeaning(f: CString, i: nat, spec: Spec, args: Arguments, arg: nat, fieldAt: nat)
    requires HeadRead(f, i, spec, args, arg, fieldAt)
    ensures Means(ParseDirective(f, i, args, arg), spec, args, arg, i)
  {
    ReadsRest(f, i, spec, args, arg, fieldAt, FieldSize(f, fieldAt, args, arg));
  }

  lemma {:induction false} ReadsSpec(f: CString, i: nat, spec: Spec, args: Arguments, arg: nat)
    requires SpecAt(f, i, spec)
    ensures Means(ParseDirective(f, i, args, arg), spec, args, arg, i)
  {
    ReadsHead(f, i, spec, args, arg);
    ReadsMeaning(f, i, spec, args, arg, i + |spec.flags|);
  }

  // --- what is printed ------------------------------------------------------------------------

  predicate AllAre(t: string, c: char) { forall k | 0 <= k < |t| :: t[k] == c }

  function Wider(width: int, size: nat): nat { if width > size then width else size }

  /** The body at the right end of a field that is as wide as asked, or as the body. */
  predicate AtRight(out: string, body: string, width: int, pad: char) {
    && |out| == Wider(width, |body|)
    && out[|out| - |body|..] == body && AllAre(out[..|out| - |body|], pad)
  }

  predicate AtLeft(out: string, body: string, width: int, pad: char) {
    && |out| == Wider(width, |body|)
    && out[..|body|] == body && AllAre(out[|body|..], pad)
  }

  /** The text shows the digits in the alphabet. */
  predicate Writes(t: string, digits: seq<nat>, base: nat, alphabet: string) {
    && |t| == |digits| >= 1
    && forall k | 0 <= k < |t| :: digits[k] < base && digits[k] < |alphabet| && t[k] == alphabet[digits[k]]
  }

  /** The shortest text whose digits have that value. */
  ghost predicate IsNumeral(t: string, v: int, base: nat, alphabet: string) {
    exists digits: seq<nat> ::
      Writes(t, digits, base, alphabet) && PlaceValue(digits, base) == v && (|t| > 1 ==> digits[0] > 0)
  }

  /** A number: spaces go before the sign, zeros after it, and both before the digits. */
  ghost predicate IsNumber(out: string, sign: string, v: int, base: nat, alphabet: string, width: int, zeros: bool) {
    exists body: string ::
      && IsNumeral(body, v, base, alphabet)
      && if zeros then sign <= out && AtRight(out[|sign|..], body, width - |sign|, '0')
         else AtRight(out, sign + body, width, ' ')
  }

  predicate IsText(out: string, text: string, width: int, precision: int, left: bool) {
    var shown := if 0 <= precision < |text| then text[..precision] else text;
    if left then AtLeft(out, shown, width, ' ') else AtRight(out, shown, width, ' ')
  }

  predicate IsWide(m: Modifier) { m == L || m == LL || m == Z || m == T || m == J }

  function UnsignedValue(m: Modifier, word: nat): nat {
    if IsWide(m) then word % 0x1_0000_0000_0000_0000 else word % 0x1_0000_0000
  }

  function SignedValue(m: Modifier, word: nat): int {
    var limit := if IsWide(m) then 0x8000_0000_0000_0000 else 0x8000_0000;
    if UnsignedValue(m, word) < limit then UnsignedValue(m, word) else UnsignedValue(m, word) - 2 * limit
  }

  /** What the C standard has the conversion print, but for the flags this one ignores: a
      minus sign for anything but strings, space and `#` for all. */
  ghost predicate Prints(spec: Spec, width: int, precision: int, slot: Slot, out: string) {
    var zeros := '0' in spec.flags;
    match spec.conversion
    case None => out == ""
    case Some('s') =>
      IsText(out, if slot.text.Some? then slot.text.value else "(null)", width, precision, '-' in spec.flags)
    case Some('c') => out == [(slot.word % 0x100) as char]
    case Some('d') => PrintsSigned(spec, width, slot.word, out)
    case Some('i') => PrintsSigned(spec, width, slot.word, out)
    case Some('u') => IsNumber(out, "", UnsignedValue(spec.modifier, slot.word), 10, LOWER, width, zeros)
    case Some('o') => IsNumber(out, "", UnsignedValue(spec.modifier, slot.word), 8, LOWER, width, zeros)
    case Some('x') => IsNumber(out, "", UnsignedValue(spec.modifier, slot.word), 16, LOWER, width, zeros)
    case Some('X') => IsNumber(out, "", UnsignedValue(spec.modifier, slot.word), 16, UPPER, width, zeros)
    case Some('p') => IsNumber(out, "0x", slot.word % 0x1_0000_0000_0000_0000, 16, LOWER, 18, true)
    case Some(c) => out == if c in "fFeg" then "<float>" else ['%', c]
  }

  ghost predicate PrintsSigned(spec: Spec, width: int, word: nat, out: string) {
    var v := SignedValue(spec.modifier, word);
    var sign := if v < 0 then "-" else if '+' in spec.flags then "+" else "";
    IsNumber(out, sign, if v < 0 then -v else v, 10, LOWER, width, '0' in spec.flags)
  }

  // --- and is ---------------------------------------------------------------------------------

  lemma {:induction false} DigitOfAlphabet(d: nat, upper: bool)
    requires d < 16
    ensures Digit(d, upper) == (if upper then UPPER else LOWER)[d]
  {
  }

  lemma {:induction false} WritesOneMore(t: string, digits: seq<nat>, base: nat, alphabet: string, d: nat)
    requires Writes(t, digits, base, alphabet) && d < base && d < |alphabet|
    ensures Writes(t + [alphabet[d]], digits + [d], base, alphabet)
  {
  }

  lemma {:induction false} OneDigit(d: nat, base: nat, upper: bool)
    requires d < base <= 16
    ensures Writes([Digit(d, upper)], [d], base, if upper then UPPER else LOWER) && PlaceValue([d], base) == d
  {
    DigitOfAlphabet(d, upper);
    PlaceOfOneMore([], d, base);
    assert [] + [d] == [d];
  }

  lemma {:induction false} DigitAppended(t: string, digits: seq<nat>, base: nat, upper: bool, high: nat, d: nat)
    requires Writes(t, digits, base, if upper then UPPER else LOWER) && PlaceValue(digits, base) == high
    requires d < base <= 16
    ensures Writes(t + [Digit(d, upper)], digits + [d], base, if upper then UPPER else LOWER)
    ensures PlaceValue(digits + [d], base) == high * base + d
  {
    DigitOfAlphabet(d, upper);
    PlaceOfOneMore(digits, d, base);
    WritesOneMore(t, digits, base, if upper then UPPER else LOWER, d);
  }

  lemma {:induction false} NumeralDigits(v: nat, base: nat, upper: bool) returns (digits: seq<nat>)
    requires 2 <= base <= 16
    ensures Writes(Numeral(v, base, upper), digits, base, if upper then UPPER else LOWER)
    ensures PlaceValue(digits, base) == v && (v > 0 ==> digits[0] > 0) && (v == 0 ==> |digits| == 1)
    decreases v
  {
    if v < base {
      digits := [v];
      OneDigit(v, base, upper);
    } else {
      var high, d := v / base, v % base;
      DivMod(v, base);
      digits := NumeralDigits(high, base, upper);
      DigitAppended(Numeral(high, base, upper), digits, base, upper, high, d);
      digits := digits + [d];
    }
  }

  lemma {:induction false} NumeralIsOne(v: nat, base: nat, upper: bool)
    requires 2 <= base <= 16
    ensures IsNumeral(Numeral(v, base, upper), v, base, if upper then UPPER else LOWER)
  {
    var digits := NumeralDigits(v, base, upper);
  }

  lemma {:induction false} PaddedLeft(pad: char, body: string, width: int)
    ensures AtRight(PadLeft(pad, body, width), body, width, pad)
  {
    var out := PadLeft(pad, body, width);
    assert out[..|out| - |body|] == Repeat(pad, width - |body|);
  }

  lemma {:induction false} UnsignedIsNumber(v: nat, base: nat, upper: bool, width: int, zeros: bool)
    requires 2 <= base <= 16
    ensures IsNumber(PrintUnsigned(v, base, upper, width, zeros), "", v, base, if upper then UPPER else LOWER, width,
                     zeros)
  {
    var body := Numeral(v, base, upper);
    var out := PrintUnsigned(v, base, upper, width, zeros);
    NumeralIsOne(v, base, upper);
    PaddedLeft(if zeros then '0' else ' ', body, width);
    assert out[0..] == out && "" + body == body;
  }

  lemma {:induction false} ZerosAfterSign(sign: string, body: string, width: int, out: string)
    requires out == Padded(sign, body, width, true)
    ensures sign <= out && AtRight(out[|sign|..], body, width - |sign|, '0')
  {
    PaddedLeft('0', body, width - |sign|);
    assert out[|sign|..] == PadLeft('0', body, width - |sign|);
  }

  lemma {:induction false} SpacesBeforeSign(sign: string, body: string, width: int, out: string)
    requires out == Padded(sign, body, width, false)
    ensures AtRight(out, sign + body, width, ' ')
  {
    PaddedLeft(' ', sign + body, width);
    Regroup(Repeat(' ', width - |sign| - |body|), sign, body);
  }

  lemma {:induction false} SignedIsNumber(sign: string, v: nat, width: int, zeros: bool)
    ensures IsNumber(Padded(sign, Numeral(v, 10, false), width, zeros), sign, v, 10, LOWER, width, zeros)
  {
    var body := Numeral(v, 10, false);
    NumeralIsOne(v, 10, false);
    if zeros {
      ZerosAfterSign(sign, body, width, Padded(sign, body, width, true));
    } else {
      SpacesBeforeSign(sign, body, width, Padded(sign, body, width, false));
    }
  }

  lemma {:induction false} PointerIsNumber(v: nat)
    ensures IsNumber(HEX_PREFIX + PrintUnsigned(v, 16, false, 16, true), "0x", v, 16, LOWER, 18, true)
  {
    var body := Numeral(v, 16, false);
    NumeralIsOne(v, 16, false);
    PaddedLeft('0', body, 16);
    assert (HEX_PREFIX + PadLeft('0', body, 16))[2..] == PadLeft('0', body, 16);
  }

  lemma {:induction false} StringIsText(text: CString, width: int, precision: int, left: bool)
    ensures IsText(PrintString(text, width, precision, left), text, width, precision, left)
  {
    var shown := if 0 <= precision < |text| then text[..precision] else text;
    if left {
      var out := PrintString(text, width, precision, left);
      assert out[|shown|..] == Repeat(' ', width - |shown|);
    } else {
      PaddedLeft(' ', shown, width);
    }
  }

  lemma {:induction false} SignedMeans(m: Modifier, word: nat)
    ensures SignedArgument(LengthOf(m), word) == SignedValue(m, word)
    ensures UnsignedArgument(LengthOf(m), word) == UnsignedValue(m, word)
  {
  }

  lemma {:induction false} ExpandsNumber(d: Directive, spec: Spec, slot: Slot)
    requires d.conversion in {'d', 'i', 'u', 'x', 'X', 'o'} && spec.conversion == Some(d.conversion)
    requires d.length == LengthOf(spec.modifier)
    requires (d.zeroPad <==> '0' in spec.flags) && (d.plus <==> '+' in spec.flags)
    ensures Prints(spec, d.width, d.precision, slot, Expand(d, slot))
  {
    SignedMeans(spec.modifier, slot.word);
    if d.conversion in {'d', 'i'} {
      var v := SignedValue(spec.modifier, slot.word);
      SignedIsNumber(SignText(v, d.plus), Magnitude(v), d.width, d.zeroPad);
    } else {
      UnsignedIsNumber(UnsignedValue(spec.modifier, slot.word), Base(d.conversion), d.conversion == 'X', d.width,
                       d.zeroPad);
    }
  }

  lemma {:induction false} ExpandsText(d: Directive, spec: Spec, slot: Slot)
    requires d.conversion == 's' && spec.conversion == Some('s') && (d.leftAlign <==> '-' in spec.flags)
    ensures Prints(spec, d.width, d.precision, slot, Expand(d, slot))
  {
    StringIsText(if slot.text.Some? then slot.text.value else "(null)", d.width, d.precision, d.leftAlign);
  }

  lemma {:induction false} ExpandsPointer(d: Directive, spec: Spec, slot: Slot)
    requires d.conversion == 'p' && spec.conversion == Some('p')
    ensures Prints(spec, d.width, d.precision, slot, Expand(d, slot))
  {
    PointerIsNumber(slot.word % ULONG_LIMIT);
  }

  lemma {:induction false} ExpandsOther(d: Directive, spec: Spec, slot: Slot)
    requires d.conversion !in {'d', 'i', 'u', 'x', 'X', 'o', 's', 'p'}
    requires d.conversion == (if spec.conversion.None? then '\0' else spec.conversion.value)
    requires spec.conversion != Some('\0')
    ensures Prints(spec, d.width, d.precision, slot, Expand(d, slot))
  {
  }

  /** Every conversion prints what its specification asks for. */
  lemma {:induction false} ExpandPrints(d: Directive, spec: Spec, slot: Slot, args: Arguments, arg: nat, i: nat)
    requires IsAmount(spec.width) && (spec.precision.Some? ==> IsAmount(spec.precision.value))
    requires Means(d, spec, args, arg, i) && spec.conversion != Some('\0')
    ensures Prints(spec, WidthOf(spec, args, arg), PrecisionOf(spec, args, arg), slot, Expand(d, slot))
  {
    if d.conversion in {'d', 'i', 'u', 'x', 'X', 'o'} {
      ExpandsNumber(d, spec, slot);
    } else if d.conversion == 's' {
      ExpandsText(d, spec, slot);
    } else if d.conversion == 'p' {
      ExpandsPointer(d, spec, slot);
    } else {
      ExpandsOther(d, spec, slot);
    }
  }

  // --- whole formats ----------------------------------------------------------------------------

  predicate ItemAt(f: CString, i: nat, item: Item) {
    match item
    case Plain(c) => i < |f| && f[i] == c != '%'
    case Percent => At(f, i) == '%' && At(f, i + 1) == '%'
    case Convert(spec) => At(f, i) == '%' && At(f, i + 1) != '%' && SpecAt(f, i + 1, spec)
  }

  function ItemEnd(item: Item, i: nat): nat {
    match item
    case Plain(_) => i + 1
    case Percent => i + 2
    case Convert(spec) => SpecEnd(spec, i + 1)
  }

  /** The format from `i` on is these items, one after the other. */
  predicate ItemsAt(f: CString, i: nat, items: seq<Item>)
    decreases |items|
  {
    if items == [] then i == |f| else ItemAt(f, i, items[0]) && ItemsAt(f, ItemEnd(items[0], i), items[1..])
  }

  predicate IsItem(item: Item) {
    item.Convert? ==>
      && IsAmount(item.spec.width) && (item.spec.precision.Some? ==> IsAmount(item.spec.precision.value))
  }

  function NextArgument(item: Item, arg: nat): nat {
    if !item.Convert? then arg
    else
      OwnArgument(item.spec, arg) +
      if item.spec.conversion.Some? && item.spec.conversion.value in "scdiuxXopfFeg" then 1 else 0
  }

  ghost predicate ItemPrints(item: Item, args: Arguments, arg: nat, out: string) {
    match item
    case Plain(c) => out == [c]
    case Percent => out == "%"
    case Convert(spec) =>
      && IsItem(item)
      && Prints(spec, WidthOf(spec, args, arg), PrecisionOf(spec, args, arg), args(OwnArgument(spec, arg)), out)
  }

  /** The items print the text, in order, each taking the arguments after its predecessors'. */
  ghost predicate AllPrint(items: seq<Item>, args: Arguments, arg: nat, out: string)
    decreases |items|
  {
    if items == [] then out == ""
    else
      exists first: string ::
        && first <= out && ItemPrints(items[0], args, arg, first)
        && AllPrint(items[1..], args, NextArgument(items[0], arg), out[|first|..])
  }

  lemma {:induction false} SpecIsItem(f: CString, i: nat, spec: Spec)
    requires SpecAt(f, i, spec)
    ensures IsItem(Convert(spec)) && SpecEnd(spec, i) <= |f| && spec.conversion != Some('\0')
  {
  }

  lemma {:induction false} TakesAnArgument(c: char)
    ensures TakesArgument(c) <==> c in "scdiuxXopfFeg"
  {
  }

  lemma {:induction false} DirectivePrints(spec: Spec, d: Directive, args: Arguments, arg: nat, i: nat)
    requires IsItem(Convert(spec)) && spec.conversion != Some('\0') && Means(d, spec, args, arg, i)
    ensures ItemPrints(Convert(spec), args, arg, Expand(d, args(d.arg)))
    ensures (if TakesArgument(d.conversion) then d.arg + 1 else d.arg) == NextArgument(Convert(spec), arg)
  {
    ExpandPrints(d, spec, args(d.arg), args, arg, i);
    TakesAnArgument(d.conversion);
  }

  lemma {:induction false} ItemIsPrinted(f: CString, i: nat, item: Item, args: Arguments, arg: nat)
    requires i < |f| && ItemAt(f, i, item)
    ensures var p := NextPiece(f, i, args, arg);
      ItemPrints(item, args, arg, p.printed) && p.next == ItemEnd(item, i) && p.arg == NextArgument(item, arg)
  {
    if item.Convert? {
      var d := ParseDirective(f, i + 1, args, arg);
      SpecIsItem(f, i + 1, item.spec);
      ReadsSpec(f, i + 1, item.spec, args, arg);
      DirectivePrints(item.spec, d, args, arg, i + 1);
      assert NextPiece(f, i, args, arg) == Piece(Expand(d, args(d.arg)), d.next, NextArgument(item, arg));
    }
  }

  /** Main result: whatever items a format is made of, its output is what they print. */
  lemma {:induction false} RenderPrints(f: CString, i: nat, items: seq<Item>, args: Arguments, arg: nat)
    requires i <= |f| && ItemsAt(f, i, items)
    ensures AllPrint(items, args, arg, Render(f, i, args, arg))
    decreases |items|
  {
    if items != [] {
      ItemIsPrinted(f, i, items[0], args, arg);
      var p := NextPiece(f, i, args, arg);
      RenderPrints(f, p.next, items[1..], args, p.arg);
      var out, rest := Render(f, i, args, arg), Render(f, p.next, args, p.arg);
      assert out == p.printed + rest && out[|p.printed|..] == rest;
    }
  }

  // --- every format has its items -----------------------------------------------------------------

  lemma {:induction false} TakeFlags(f: CString, i: nat) returns (flags: string)
    requires i <= |f|
    ensures FlagsAt(f, i, flags)
  {
    var end := RunEnd(f, i, IsFlag);
    flags := f[i..end];
    forall k | 0 <= k < |flags|
      ensures IsFlagCharacter(flags[k])
    {
      assert IsFlag(f[i + k]);
    }
  }

  lemma {:induction false} TakeAmount(f: CString, i: nat) returns (a: Amount)
    requires i <= |f|
    ensures AmountAt(f, i, a) && i + AmountSize(a) <= |f|
  {
    if At(f, i) == '*' {
      a := Star;
    } else {
      var end := RunEnd(f, i, IsDecimal);
      a := Given(f[i..end]);
      forall k | 0 <= k < |a.digits|
        ensures '0' <= a.digits[k] <= '9'
      {
        assert IsDecimal(f[i + k]);
      }
    }
  }

  lemma {:induction false} TakeModifier(f: CString, i: nat) returns (m: Modifier)
    requires i <= |f|
    ensures ModifierAt(f, i, m) && i + ModifierSize(m) <= |f|
  {
    var c, d := At(f, i), At(f, i + 1);
    m := if c == 'h' then (if d == 'h' then HH else H) else if c == 'l' then (if d == 'l' then LL else L)
         else if c == 'z' then Z else if c == 't' then T else if c == 'j' then J else NoModifier;
  }

  lemma {:induction false} TakePrecision(f: CString, i: nat) returns (p: Option<Amount>)
    requires i <= |f|
    ensures PrecisionAt(f, i, p) && i + PrecisionSize(p) <= |f|
  {
    p := None;
    if At(f, i) == '.' {
      var a := TakeAmount(f, i + 1);
      p := Some(a);
    }
  }

  lemma {:induction false} TakeSpec(f: CString, i: nat) returns (spec: Spec)
    requires i <= |f|
    ensures SpecAt(f, i, spec)
  {
    var flags := TakeFlags(f, i);
    var width := TakeAmount(f, i + |flags|);
    var precision := TakePrecision(f, i + |flags| + AmountSize(width));
    var modifierAt := i + |flags| + AmountSize(width) + PrecisionSize(precision);
    var modifier := TakeModifier(f, modifierAt);
    var conversionAt := modifierAt + ModifierSize(modifier);
    spec := Spec(flags, width, precision, modifier, if conversionAt == |f| then None else Some(f[conversionAt]));
  }

  /** So the result above is about every format there is. */
  lemma {:induction false} EveryFormatHasItems(f: CString, i: nat) returns (items: seq<Item>)
    requires i <= |f|
    ensures ItemsAt(f, i, items)
    decreases |f| - i
  {
    items := [];
    if i < |f| {
      var item := Plain(f[i]);
      if f[i] == '%' && At(f, i + 1) == '%' {
        item := Percent;
      } else if f[i] == '%' {
        var spec := TakeSpec(f, i + 1);
        SpecIsItem(f, i + 1, spec);
        item := Convert(spec);
      }
      var rest := EveryFormatHasItems(f, ItemEnd(item, i));
      items := [item] + rest;
      assert items[1..] == rest;
    }
  }
}
