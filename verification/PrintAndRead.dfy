/** A number through a buffer and back: printed by `vsnprintf`, read by `strtoul` or `strtol`. */
module PrintAndRead {
  import opened Arithmetic
  import opened Formatting
  import opened Numerals
  import opened StringToNumber
  import opened Vsnprintf

  /** The format is one conversion specification, with any flags, width and length. */
  predicate IsOneConversion(f: CString, args: Arguments) {
    && f != "" && f[0] == '%' && At(f, 1) != '%'
    && ParseDirective(f, 1, args, 0).next == |f|
  }

  function Conversion(f: CString, args: Arguments): Directive
    requires IsOneConversion(f, args)
  {
    ParseDirective(f, 1, args, 0)
  }

  lemma {:induction false} PrintsOneConversion(f: CString, args: Arguments)
    requires IsOneConversion(f, args)
    ensures var d := Conversion(f, args); Render(f, 0, args, 0) == Expand(d, args(d.arg))
  {
    var p := NextPiece(f, 0, args, 0);
    assert Render(f, p.next, args, p.arg) == [];
    assert p.printed + [] == p.printed;
  }

  /** `%lu` and `%ld` are such formats. */
  lemma {:induction false} LongFormats(args: Arguments)
    ensures IsOneConversion("%lu", args) && Conversion("%lu", args).conversion == 'u'
    ensures IsOneConversion("%ld", args) && Conversion("%ld", args).conversion == 'd'
    ensures Conversion("%lu", args).length == Long && Conversion("%lu", args).arg == 0
    ensures Conversion("%ld", args).length == Long && Conversion("%ld", args).arg == 0
  {
  }

  /** The C string at the start of a buffer. */
  method TextIn(buffer: array<char>) returns (text: CString)
    requires '\0' in buffer[..]
    ensures |text| < buffer.Length && text == buffer[..|text|] && buffer[|text|] == '\0'
  {
    var length := 0;
    while buffer[length] != '\0'
      invariant 0 <= length < buffer.Length && '\0' !in buffer[..length] && '\0' in buffer[length..]
      decreases buffer.Length - length
    {
      length := length + 1;
    }
    text := buffer[..length];
  }

  /** The text in the buffer is the whole output when that fits and holds no NUL. */
  lemma {:induction false} WholeText(bytes: seq<char>, text: CString, output: seq<char>)
    requires |text| < |bytes| && text == bytes[..|text|] && bytes[|text|] == '\0'
    requires '\0' !in output && |output| < |bytes| && bytes[..|output|] == output && bytes[|output|] == '\0'
    ensures text == output
  {
    assert forall k | 0 <= k < |text| :: bytes[k] == text[k] && text[k] != '\0';
    assert forall k | 0 <= k < |output| :: bytes[k] == output[k] && output[k] != '\0';
  }

  /** Prints into the buffer and returns what the buffer then holds. */
  method Print(buffer: array<char>, length: nat, f: CString, args: Arguments) returns (printed: int, text: CString)
    requires 0 < length <= buffer.Length && IsOneConversion(f, args)
    modifies buffer
    ensures var d := Conversion(f, args);
      && printed == |Expand(d, args(d.arg))|
      && (printed < length && '\0' !in Expand(d, args(d.arg)) ==> text == Expand(d, args(d.arg)))
  {
    printed := Vsnprintf.Vsnprintf(buffer, length, f, args);
    PrintsOneConversion(f, args);
    assert buffer[Min(printed, length - 1)] in buffer[..];
    text := TextIn(buffer);
    ghost var output := Expand(Conversion(f, args), args(Conversion(f, args).arg));
    if printed < length && '\0' !in output {
      assert output[..printed] == output;
      WholeText(buffer[..], text, output);
    }
  }

  /** Every unsigned conversion that fits its buffer reads back from it, in the base that the C
      standard gives it. */
  method PrintAndReadUnsigned(buffer: array<char>, length: nat, f: CString, args: Arguments, base: nat)
    returns (printed: int, value: nat, end: nat)
    requires 0 < length <= buffer.Length && IsOneConversion(f, args)
    requires match Conversion(f, args).conversion
             case 'u' => base == 10
             case 'o' => base == 8
             case 'x' => base == 16
             case 'X' => base == 16
             case _ => false
    modifies buffer
    ensures var d := Conversion(f, args);
      var all := args(d.arg).word;
      var v := if d.length == NoLength then all % 0x1_0000_0000 else all % 0x1_0000_0000_0000_0000;
      printed < length ==> value == v && end == printed
  {
    var text;
    printed, text := Print(buffer, length, f, args);
    var d := Conversion(f, args);
    UnsignedConversionReadsBack(d, args(d.arg));
    value, end := Strtoul(text, 0, base);
  }

  /** Every signed conversion that fits its buffer reads back from it, but for the minimum. */
  method PrintAndReadSigned(buffer: array<char>, length: nat, f: CString, args: Arguments)
    returns (printed: int, value: int, end: nat)
    requires 0 < length <= buffer.Length && IsOneConversion(f, args)
    requires Conversion(f, args).conversion in {'d', 'i'}
    modifies buffer
    ensures var d := Conversion(f, args);
      var limit := if d.length == NoLength then 0x8000_0000 else 0x8000_0000_0000_0000;
      var all := args(d.arg).word;
      var word := if d.length == NoLength then all % 0x1_0000_0000 else all % 0x1_0000_0000_0000_0000;
      var v := if word < limit then word else word - 2 * limit;
      printed < length ==>
        value == (if v == -0x8000_0000_0000_0000 then 0x8000_0000_0000_0000 else v) && end == printed
  {
    var text;
    printed, text := Print(buffer, length, f, args);
    var d := Conversion(f, args);
    SignedConversionReadsBack(d, args(d.arg));
    value, end := Strtol(text, 10);
  }
}
