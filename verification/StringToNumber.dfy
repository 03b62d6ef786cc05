/** `strtoul`, `strtol` and `skip_space` as the loops they are. */
module StringToNumber {
  import opened Numerals

  method SkipSpace(s: CString, start: nat) returns (i: nat)
    requires start <= |s|
    ensures i == SpaceEnd(s, start)
    ensures start <= i <= |s|
  {
    i := start;
    while IsSpace(At(s, i))
      invariant start <= i <= |s|
      invariant forall k :: start <= k < i ==> IsSpace(s[k])
      decreases |s| - i
    {
      i := i + 1;
    }
    RunCovers(s, start, i, IsSpace);
  }

  /** Reducing at every digit is reducing once at the end. */
  lemma {:induction false} WrapsOnce(x: int, base: int, d: int)
    ensures ((x % ULONG_LIMIT) * base + d) % ULONG_LIMIT == (x * base + d) % ULONG_LIMIT
  {
    var q, r := x / ULONG_LIMIT, x % ULONG_LIMIT;
    assert x * base + d == (q * base) * ULONG_LIMIT + (r * base + d) by {
      assert x == q * ULONG_LIMIT + r;
      assert x * base == (q * ULONG_LIMIT) * base + r * base;
    }
    AddMultiple(r * base + d, q * base);
  }

  lemma {:induction false} AddMultiple(y: int, k: int)
    ensures (k * ULONG_LIMIT + y) % ULONG_LIMIT == y % ULONG_LIMIT
  {
  }

  method SkipSign(s: CString, i: nat) returns (negative: bool, next: nat)
    requires i <= |s|
    ensures negative == (At(s, i) == '-') && next == AfterSign(s, i)
  {
    negative, next := false, i;
    if At(s, i) == '+' || At(s, i) == '-' {
      negative := At(s, i) == '-';
      next := i + 1;
    }
  }

  method Strtoul(s: CString, start: nat, base: nat) returns (value: nat, end: nat)
    requires start <= |s|
    ensures (value, end) == ParseUnsigned(s, start, base)
  {
    var signAt := SkipSpace(s, start);
    var negative, unsigned := SkipSign(s, signAt);
    var b, digits := SkipPrefix(s, unsigned, base);
    var result, cursor := ReadDigits(s, digits, b);
    end := if cursor == digits then start else cursor;
    value := if negative then (0 - result) % ULONG_LIMIT else result;
    WrappedTwice(negative, Value(s[digits..cursor], b));
  }

  lemma {:induction false} WrappedTwice(negative: bool, x: int)
    ensures Wrapped(negative, x) == if negative then (0 - x % ULONG_LIMIT) % ULONG_LIMIT else x % ULONG_LIMIT
  {
    if negative {
      AddMultiple(-(x % ULONG_LIMIT), -(x / ULONG_LIMIT));
    }
  }

  method SkipPrefix(s: CString, cursor: nat, base: nat) returns (b: nat, digits: nat)
    requires cursor <= |s|
    ensures (b, digits) == Prefix(s, cursor, base) && digits <= |s|
  {
    b, digits := base, cursor;
    if (base == 0 || base == 16) && At(s, cursor) == '0' && (At(s, cursor + 1) == 'x' || At(s, cursor + 1) == 'X') {
      b := 16;
      digits := cursor + 2;
    } else if base == 0 {
      b := if At(s, cursor) == '0' then 8 else 10;
    }
  }

  lemma {:induction false} OneDigitMore(s: CString, digits: nat, cursor: nat, base: nat, digit: int)
    requires digits <= cursor < |s| && digit == DigitValue(s[cursor])
    ensures (Value(s[digits..cursor], base) % ULONG_LIMIT * base + digit) % ULONG_LIMIT ==
            Value(s[digits..cursor + 1], base) % ULONG_LIMIT
  {
    WrapsOnce(Value(s[digits..cursor], base), base, digit);
    ValueOfAppend(s[digits..cursor], s[cursor], base);
    assert s[digits..cursor + 1] == s[digits..cursor] + [s[cursor]];
  }

  /** The digit loop of `strtoul`, with its wrap-around. */
  method ReadDigits(s: CString, digits: nat, base: nat) returns (result: nat, cursor: nat)
    requires digits <= |s|
    ensures cursor == DigitsEnd(s, digits, base)
    ensures result == Value(s[digits..cursor], base) % ULONG_LIMIT
  {
    result, cursor := 0, digits;
    var digit := DigitValue(At(s, cursor));
    while digit >= 0 && digit < base
      invariant digits <= cursor <= |s| && digit == DigitValue(At(s, cursor))
      invariant forall k :: digits <= k < cursor ==> IsDigitIn(s[k], base)
      invariant result == Value(s[digits..cursor], base) % ULONG_LIMIT
      decreases |s| - cursor
    {
      OneDigitMore(s, digits, cursor, base, digit);
      result := (result * base + digit) % ULONG_LIMIT;
      cursor := cursor + 1;
      digit := DigitValue(At(s, cursor));
    }
    RunCovers(s, digits, cursor, c => IsDigitIn(c, base));
  }

  method Strtol(s: CString, base: nat) returns (value: int, end: nat)
    ensures (value, end) == ParseSigned(s, base)
  {
    var signAt := SkipSpace(s, 0);
    var negative, cursor := SkipSign(s, signAt);
    var magnitude, parsedEnd := Strtoul(s, cursor, base);
    end := if parsedEnd == cursor then 0 else parsedEnd;
    value := if negative then -AsLong(magnitude) else AsLong(magnitude);
  }
}
