/** `vsnprintf` writing through a bounded output buffer. */
module Vsnprintf {
  import opened Arithmetic
  import opened Numerals
  import opened Formatting
  import opened Sequences

  /** `struct output_buffer`.  `text` is everything output so far, kept or not. */
  class OutputBuffer {
    const bytes: array<char>
    const capacity: nat
    var position: nat
    var total: nat
    ghost var text: seq<char>
    ghost const initial: seq<char>

    /** How many characters of the output have found room before the terminator. */
    ghost function Kept(): nat
      reads this
    {
      if capacity == 0 then 0 else Min(|text|, capacity - 1)
    }

    ghost predicate Valid()
      reads this, bytes
    {
      && capacity <= bytes.Length == |initial|
      && position == total == |text|
      && (forall k :: 0 <= k < Kept() ==> bytes[k] == text[k])
      && (forall k :: Kept() <= k < bytes.Length ==> bytes[k] == initial[k])
    }

    constructor (bytes: array<char>, capacity: nat)
      requires capacity <= bytes.Length
      ensures Valid() && text == [] && this.bytes == bytes && this.capacity == capacity && initial == bytes[..]
    {
      this.bytes, this.capacity := bytes, capacity;
      position, total := 0, 0;
      text, initial := [], bytes[..];
    }

    method OutputCharacter(c: char)
      requires Valid()
      modifies this, bytes
      ensures Valid() && text == old(text) + [c]
    {
      if capacity > 0 && position + 1 < capacity {
        bytes[position] := c;
      }
      position := position + 1;
      total := total + 1;
      text := text + [c];
    }

    /** The end of `vsnprintf`: the NUL goes after the last character kept. */
    method Terminate()
      requires Valid()
      modifies bytes
      ensures capacity == 0 ==> bytes[..] == initial
      ensures capacity > 0 ==> bytes[..] == text[..Kept()] + ['\0'] + initial[Kept() + 1..]
    {
      if capacity > 0 {
        var terminator := if position < capacity then position else capacity - 1;
        bytes[terminator] := '\0';
      }
    }

    method OutputRepeat(c: char, count: int)
      requires Valid()
      modifies this, bytes
      ensures Valid() && text == old(text) + Repeat(c, count)
    {
      var left := count;
      ghost var written := 0;
      while left > 0
        invariant Valid() && text == old(text) + Repeat(c, written)
        invariant written == if count > left then count - left else 0
        invariant left >= 0 || left == count
      {
        OutputCharacter(c);
        assert Repeat(c, written + 1) == Repeat(c, written) + [c];
        left, written := left - 1, written + 1;
      }
    }

    method OutputString(s: CString, maximum: int)
      requires Valid()
      modifies this, bytes
      ensures Valid() && text == old(text) + (if 0 <= maximum < |s| then s[..maximum] else s)
    {
      var count := 0;
      while At(s, count) != '\0' && (maximum < 0 || count < maximum)
        invariant 0 <= count <= |s| && (maximum < 0 || count <= maximum)
        invariant Valid() && text == old(text) + s[..count]
        decreases |s| - count
      {
        OutputCharacter(s[count]);
        assert s[..count + 1] == s[..count] + [s[count]];
        count := count + 1;
      }
      assert s[..|s|] == s;
    }

    method OutputUnsigned(value: nat, base: nat, uppercase: bool, width: int, zeroPad: bool)
      requires Valid() && value < ULONG_LIMIT && base in {8, 10, 16}
      modifies this, bytes
      ensures Valid() && text == old(text) + PrintUnsigned(value, base, uppercase, width, zeroPad)
    {
      var digits, length := DigitArray(value, base, uppercase);
      OutputField(digits, length, digits[..length], if zeroPad then '0' else ' ', width);
    }

    /** Padding, then the digits of the array. */
    method OutputField(digits: array<char>, length: nat, ghost numeral: seq<char>, pad: char, width: int)
      requires Valid() && length <= digits.Length && digits != bytes && digits[..length] == numeral
      modifies this, bytes
      ensures Valid() && text == old(text) + PadLeft(pad, numeral, width)
    {
      OutputRepeat(pad, width - length);
      ghost var before := text;
      for index := 0 to length
        invariant Valid() && digits[..length] == numeral
        invariant text == before + numeral[..index]
      {
        OutputCharacter(digits[index]);
        assert numeral[..index + 1] == numeral[..index] + [digits[index]];
      }
      assert numeral[..length] == numeral;
      Regroup(old(text), Repeat(pad, width - length), numeral);
    }
  }

  /** The digits of `output_unsigned`, filled from the back into its 32-byte array. */
  method DigitArray(value: nat, base: nat, uppercase: bool) returns (digits: array<char>, length: nat)
    requires value < ULONG_LIMIT && base in {8, 10, 16}
    ensures fresh(digits) && digits.Length == 32 && length <= 32
    ensures digits[..length] == Numeral(value, base, uppercase)
  {
    ghost var numeral := Numeral(value, base, uppercase);
    NumeralIsShort(value, base, uppercase);
    digits := new char[32];
    length := UnsignedLength(value, base, uppercase);
    var index := length;
    var rest: nat := value;
    while index > 0
      invariant 0 <= index <= length == |numeral| <= 22
      invariant index > 0 ==> Numeral(rest, base, uppercase) == numeral[..index]
      invariant forall k :: index <= k < length ==> digits[k] == numeral[k]
    {
      NextDigit(numeral, index, rest, base, uppercase);
      index := index - 1;
      StoreDigit(digits, index, Digit(rest % base, uppercase), numeral);
      QuotientIsNatural(rest, base);
      rest := rest / base;
    }
  }

  method StoreDigit(digits: array<char>, index: nat, d: char, ghost numeral: seq<char>)
    requires index < |numeral| <= digits.Length && d == numeral[index]
    requires forall k :: index < k < |numeral| ==> digits[k] == numeral[k]
    modifies digits
    ensures forall k :: index <= k < |numeral| ==> digits[k] == numeral[k]
  {
    digits[index] := d;
  }

  /** Taking a digit off the end of what is left of the value. */
  lemma {:induction false} NextDigit(numeral: seq<char>, index: nat, rest: nat, base: nat, upper: bool)
    requires base in {8, 10, 16} && 0 < index <= |numeral|
    requires Numeral(rest, base, upper) == numeral[..index]
    ensures numeral[index - 1] == Digit(rest % base, upper)
    ensures index > 1 ==> Numeral(rest / base, base, upper) == numeral[..index - 1]
  {
    LastDigit(rest, base, upper);
    assert numeral[..index][..index - 1] == numeral[..index - 1];
  }

  lemma {:induction false} LastDigit(v: nat, base: nat, upper: bool)
    requires base in {8, 10, 16}
    ensures var n := Numeral(v, base, upper);
      && n[|n| - 1] == Digit(v % base, upper)
      && (v < base ==> |n| == 1)
      && (v >= base ==> |n| > 1 && n[..|n| - 1] == Numeral(v / base, base, upper))
  {
  }

  /** `unsigned_length`. */
  method UnsignedLength(value: nat, base: nat, ghost upper: bool) returns (length: nat)
    requires base in {8, 10, 16}
    ensures length == |Numeral(value, base, upper)|
  {
    length := 1;
    var rest: nat := value;
    while rest >= base
      invariant length - 1 + |Numeral(rest, base, upper)| == |Numeral(value, base, upper)|
      decreases rest
    {
      LastDigit(rest, base, upper);
      DivMod(rest, base);
      rest := rest / base;
      length := length + 1;
    }
  }
  // --- reading a conversion specification ------------------------------------

  method ReadFlags(f: CString, start: nat) returns (zeroPad: bool, leftAlign: bool, plus: bool, i: nat)
    requires start <= |f|
    ensures i == RunEnd(f, start, IsFlag)
    ensures zeroPad == ('0' in f[start..i]) && leftAlign == ('-' in f[start..i]) && plus == ('+' in f[start..i])
  {
    zeroPad, leftAlign, plus, i := false, false, false, start;
    while IsFlag(At(f, i))
      invariant start <= i <= |f| && forall k :: start <= k < i ==> IsFlag(f[k])
      invariant zeroPad == ('0' in f[start..i]) && leftAlign == ('-' in f[start..i]) && plus == ('+' in f[start..i])
      decreases |f| - i
    {
      if At(f, i) == '0' {
        zeroPad := true;
      } else if At(f, i) == '-' {
        leftAlign := true;
      } else if At(f, i) == '+' {
        plus := true;
      }
      assert f[start..i + 1] == f[start..i] + [f[i]];
      i := i + 1;
    }
    RunCovers(f, start, i, IsFlag);
  }

  method ReadNumber(f: CString, start: nat) returns (number: int, i: nat)
    requires start <= |f|
    ensures i == RunEnd(f, start, IsDecimal) && number == Value(f[start..i], 10)
  {
    number, i := 0, start;
    while IsDecimal(At(f, i))
      invariant start <= i <= |f| && forall k :: start <= k < i ==> IsDecimal(f[k])
      invariant number == Value(f[start..i], 10)
      decreases |f| - i
    {
      ValueOfAppend(f[start..i], f[i], 10);
      assert f[start..i + 1] == f[start..i] + [f[i]];
      number := number * 10 + (At(f, i) as int - '0' as int);
      i := i + 1;
    }
    RunCovers(f, start, i, IsDecimal);
  }

  method ReadStarOrNumber(f: CString, start: nat, args: Arguments, arg: nat)
    returns (number: int, i: nat, arg': nat)
    requires start <= |f|
    ensures (number, i, arg') == StarOrNumber(f, start, args, arg)
  {
    if At(f, start) == '*' {
      number, i, arg' := AsInt(args(arg).word), start + 1, arg + 1;
    } else {
      number, i := ReadNumber(f, start);
      arg' := arg;
    }
  }

  method ReadField(f: CString, start: nat, args: Arguments, arg: nat) returns (field: Field)
    requires start <= |f|
    ensures field == FieldSize(f, start, args, arg)
  {
    var width, i, arg1 := ReadStarOrNumber(f, start, args, arg);
    var precision := -1;
    if At(f, i) == '.' {
      precision, i, arg1 := ReadStarOrNumber(f, i + 1, args, arg1);
    }
    field := Field(width, precision, i, arg1);
  }

  method ReadLength(f: CString, start: nat) returns (length: Length, i: nat)
    requires start <= |f|
    ensures (length, i) == LengthModifier(f, start)
  {
    length, i := NoLength, start;
    if At(f, i) == 'l' {
      length, i := Long, i + 1;
      if At(f, i) == 'l' {
        length, i := LongLong, i + 1;
      }
    } else if At(f, i) == 'z' || At(f, i) == 't' || At(f, i) == 'j' {
      length, i := LongLong, i + 1;
    } else if At(f, i) == 'h' {
      i := i + 1;
      if At(f, i) == 'h' {
        i := i + 1;
      }
    }
  }

  method ReadDirective(f: CString, start: nat, args: Arguments, arg: nat) returns (d: Directive)
    requires start <= |f|
    ensures d == ParseDirective(f, start, args, arg)
  {
    var zeroPad, leftAlign, plus, flagsEnd := ReadFlags(f, start);
    var field := ReadField(f, flagsEnd, args, arg);
    var length, lengthEnd := ReadLength(f, field.next);
    d := Directive(zeroPad, leftAlign, plus, field.width, field.precision, length, At(f, lengthEnd),
                   if At(f, lengthEnd) == '\0' then lengthEnd else lengthEnd + 1, field.arg);
  }

  // --- the conversions -------------------------------------------------------

  method OutputText(output: OutputBuffer, text: CString, width: int, precision: int, leftAlign: bool)
    requires output.Valid()
    modifies output, output.bytes
    ensures output.Valid() && output.text == old(output.text) + PrintString(text, width, precision, leftAlign)
  {
    var textLength := |text|;
    if precision >= 0 && textLength > precision {
      textLength := precision;
    }
    ghost var shown, padding := text[..textLength], Repeat(' ', width - textLength);
    assert shown == if 0 <= precision < |text| then text[..precision] else text;
    OutputShown(output, text, textLength, width - textLength, leftAlign);
    assert |shown| == textLength;
  }

  /** The first characters of a string, with padding on one side. */
  method OutputShown(output: OutputBuffer, text: CString, length: nat, padding: int, leftAlign: bool)
    requires output.Valid() && length <= |text|
    modifies output, output.bytes
    ensures output.Valid()
    ensures output.text == old(output.text) + (if leftAlign then text[..length] + Repeat(' ', padding)
                                               else Repeat(' ', padding) + text[..length])
  {
    ghost var before := output.text;
    if !leftAlign {
      output.OutputRepeat(' ', padding);
    }
    output.OutputString(text, length);
    assert length == |text| ==> text[..length] == text;
    if leftAlign {
      output.OutputRepeat(' ', padding);
      Regroup(before, text[..length], Repeat(' ', padding));
    } else {
      Regroup(before, Repeat(' ', padding), text[..length]);
    }
  }

  method OutputSigned(output: OutputBuffer, value: int, plus: bool, width: int, zeroPad: bool)
    requires output.Valid() && -LONG_LIMIT <= value < LONG_LIMIT
    modifies output, output.bytes
    ensures output.Valid() && output.text == old(output.text) + PrintSigned(value, plus, width, zeroPad)
  {
    var negative := value < 0;
    // the minimum has no negation, so one is added back after negating
    var magnitude: nat := if negative then -(value + 1) + 1 else value;
    var signLength := if negative || plus then 1 else 0;
    var numberLength := UnsignedLength(magnitude, 10, false);
    OutputParts(output, magnitude, negative, plus, width - numberLength - signLength,
                if zeroPad then width - signLength else numberLength, zeroPad);
    SignedParts(value, plus, width, zeroPad, numberLength, signLength);
  }

  method OutputParts(output: OutputBuffer, magnitude: nat, negative: bool, plus: bool,
                     spaces: int, fieldWidth: int, zeroPad: bool)
    requires output.Valid() && magnitude < ULONG_LIMIT
    modifies output, output.bytes
    ensures output.Valid()
    ensures output.text == old(output.text) + Parts(magnitude, negative, plus, spaces, fieldWidth, zeroPad)
  {
    ghost var lead := if zeroPad then [] else Repeat(' ', spaces);
    if !zeroPad {
      output.OutputRepeat(' ', spaces);
    }
    assert output.text == old(output.text) + lead;
    OutputSign(output, negative, plus);
    ghost var sign := if negative then "-" else if plus then "+" else "";
    output.OutputUnsigned(magnitude, 10, false, fieldWidth, zeroPad);
    ghost var field := PrintUnsigned(magnitude, 10, false, fieldWidth, zeroPad);
    Regroup(old(output.text), lead, sign);
    Regroup(old(output.text), lead + sign, field);
  }

  method OutputSign(output: OutputBuffer, negative: bool, plus: bool)
    requires output.Valid()
    modifies output, output.bytes
    ensures output.Valid()
    ensures output.text == old(output.text) + (if negative then "-" else if plus then "+" else "")
  {
    if negative {
      output.OutputCharacter('-');
    } else if plus {
      output.OutputCharacter('+');
    }
  }

  /** The three parts of a printed signed number, in the order they are output. */
  ghost function Parts(magnitude: nat, negative: bool, plus: bool, spaces: int,
                       fieldWidth: int, zeroPad: bool): seq<char> {
    (if zeroPad then [] else Repeat(' ', spaces)) +
    (if negative then "-" else if plus then "+" else "") +
    PrintUnsigned(magnitude, 10, false, fieldWidth, zeroPad)
  }

  lemma {:induction false} SignedParts(value: int, plus: bool, width: int, zeroPad: bool, length: nat, signLength: int)
    requires length == |Numeral(Magnitude(value), 10, false)| && signLength == |SignText(value, plus)|
    ensures Parts(Magnitude(value), value < 0, plus, width - length - signLength,
                  if zeroPad then width - signLength else length, zeroPad)
            == PrintSigned(value, plus, width, zeroPad)
  {
    var fieldWidth := if zeroPad then width - signLength else length;
    PaddedParts(SignText(value, plus), Numeral(Magnitude(value), 10, false),
                PrintUnsigned(Magnitude(value), 10, false, fieldWidth, zeroPad), width, zeroPad);
  }

  lemma {:induction false} PaddedParts(sign: seq<char>, numeral: seq<char>, field: seq<char>, width: int, zeroPad: bool)
    requires field == if zeroPad then Repeat('0', width - |sign| - |numeral|) + numeral
                      else Repeat(' ', |numeral| - |numeral|) + numeral
    ensures (if zeroPad then [] else Repeat(' ', width - |numeral| - |sign|)) + sign + field
            == Padded(sign, numeral, width, zeroPad)
  {
    assert [] + sign == sign;
  }

  method OutputConversion(output: OutputBuffer, d: Directive, slot: Slot)
    requires output.Valid()
    modifies output, output.bytes
    ensures output.Valid() && output.text == old(output.text) + Expand(d, slot)
  {
    var c := d.conversion;
    if c == 's' {
      var text := if slot.text.None? then "(null)" else slot.text.value;
      OutputText(output, text, d.width, d.precision, d.leftAlign);
    } else if c == 'c' {
      output.OutputCharacter(AsChar(slot.word));
    } else if IsInteger(c) {
      OutputInteger(output, d, slot);
    } else {
      OutputOther(output, c, slot);
    }
  }

  method OutputOther(output: OutputBuffer, c: char, slot: Slot)
    requires output.Valid()
    modifies output, output.bytes
    ensures output.Valid() && output.text == old(output.text) + ExpandOther(c, slot)
  {
    if c == 'p' {
      output.OutputString(HEX_PREFIX, -1);
      output.OutputUnsigned(AsUlong(slot.word), 16, false, 16, true);
      Regroup(old(output.text), HEX_PREFIX, PrintUnsigned(AsUlong(slot.word), 16, false, 16, true));
    } else if c == 'f' || c == 'F' || c == 'e' || c == 'g' {
      output.OutputString(FLOAT_TEXT, -1);
    } else if c != '\0' {
      output.OutputCharacter('%');
      output.OutputCharacter(c);
    }
  }

  method OutputInteger(output: OutputBuffer, d: Directive, slot: Slot)
    requires output.Valid() && IsInteger(d.conversion)
    modifies output, output.bytes
    ensures output.Valid() && output.text == old(output.text) + ExpandInteger(d, slot)
  {
    var c := d.conversion;
    if c == 'd' || c == 'i' {
      OutputSigned(output, SignedArgument(d.length, slot.word), d.plus, d.width, d.zeroPad);
    } else {
      output.OutputUnsigned(UnsignedArgument(d.length, slot.word), Base(c), c == 'X', d.width, d.zeroPad);
    }
  }

  // --- the whole function ----------------------------------------------------

  /** Main result.  For every format, every argument area and every capacity: the result
      is the length of the unbounded output, the buffer holds its longest prefix that
      leaves room for the NUL, then the NUL, and no other byte changes. */
  method Vsnprintf(buffer: array<char>, length: nat, format: CString, args: Arguments) returns (r: int)
    requires length <= buffer.Length
    modifies buffer
    ensures r == |Render(format, 0, args, 0)|
    ensures length == 0 ==> buffer[..] == old(buffer[..])
    ensures length > 0 ==>
              var kept := Min(r, length - 1);
              && buffer[..kept] == Render(format, 0, args, 0)[..kept]
              && buffer[kept] == '\0'
              && buffer[kept + 1..] == old(buffer[kept + 1..])
  {
    var output := new OutputBuffer(buffer, length);
    ghost var full := Render(format, 0, args, 0);
    var i, arg: nat := 0, 0;
    while At(format, i) != '\0'
      invariant i <= |format| && output.Valid() && fresh(output)
      invariant output.bytes == buffer && output.capacity == length && output.initial == old(buffer[..])
      invariant output.text + Render(format, i, args, arg) == full
      decreases |format| - i
    {
      ghost var before, piece := output.text, NextPiece(format, i, args, arg);
      i, arg := OutputPiece(output, format, i, args, arg);
      Regroup(before, piece.printed, Render(format, i, args, arg));
    }
    assert output.text == full;
    output.Terminate();
    r := output.total;
  }

  /** One turn of the main loop. */
  method OutputPiece(output: OutputBuffer, f: CString, i: nat, args: Arguments, arg: nat)
    returns (next: nat, arg': nat)
    requires i < |f| && output.Valid()
    modifies output, output.bytes
    ensures output.Valid() && next == NextPiece(f, i, args, arg).next && arg' == NextPiece(f, i, args, arg).arg
    ensures output.text == old(output.text) + NextPiece(f, i, args, arg).printed
  {
    next, arg' := i + 1, arg;
    if f[i] != '%' {
      output.OutputCharacter(f[i]);
    } else if At(f, i + 1) == '%' {
      output.OutputCharacter('%');
      next := i + 2;
    } else {
      var d := ReadDirective(f, i + 1, args, arg);
      OutputConversion(output, d, args(d.arg));
      next, arg' := d.next, if TakesArgument(d.conversion) then d.arg + 1 else d.arg;
    }
  }
}
