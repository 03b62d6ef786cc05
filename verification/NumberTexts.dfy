/** What `strtoul` and `strtol` make of any text, in terms of the parts it is made of. */
module NumberTexts {
  import opened Numerals

  const WHITE: string := " \t\n\r\U{0C}\U{0B}"
  const LOWER: string := "0123456789abcdefghijklmnopqrstuvwxyz"
  const UPPER: string := "0123456789ABCDEFGHIJKLMNOPQRSTUVWXYZ"

  predicate Shows(c: char, d: nat) {
    d < 36 && (c == LOWER[d] || c == UPPER[d])
  }

  function Power(base: nat, k: nat): nat {
    if k == 0 then 1 else base * Power(base, k - 1)
  }

  /** Each digit times the base to the power of its place. */
  function PlaceValue(digits: seq<nat>, base: nat): nat {
    if digits == [] then 0 else digits[0] * Power(base, |digits| - 1) + PlaceValue(digits[1..], base)
  }

  /** The text shows the digits, all of the base. */
  predicate ShowsAll(text: string, digits: seq<nat>, base: nat) {
    |text| == |digits| && forall i | 0 <= i < |text| :: digits[i] < base && Shows(text[i], digits[i])
  }

  /** White space, a sign, a prefix, digits and whatever follows, each of which may be missing. */
  datatype Parts = Parts(white: string, sign: string, prefix: string, text: string, digits: seq<nat>, tail: string)

  function Whole(p: Parts): string { p.white + (p.sign + (p.prefix + (p.text + p.tail))) }

  predicate StartsWith0x(s: string) { |s| >= 2 && s[0] == '0' && s[1] in {'x', 'X'} }

  /** The base the digits are in: base 0 is 16 after `0x`, 8 after a leading 0, and else 10. */
  function BaseOf(p: Parts, base: nat): nat {
    if p.prefix != "" then 16
    else if base != 0 then base
    else if p.text + p.tail != "" && (p.text + p.tail)[0] == '0' then 8
    else 10
  }

  ghost predicate GoesOn(tail: string, base: nat) {
    tail != "" && exists d: nat | d < base :: Shows(tail[0], d)
  }

  /** Each part is all of what it could be. */
  ghost predicate Divided(p: Parts, base: nat) {
    && (forall i | 0 <= i < |p.white| :: p.white[i] in WHITE)
    && p.sign in {"", "+", "-"}
    && p.prefix in {"", "0x", "0X"}
    && (p.prefix != "" ==> base == 0 || base == 16)
    && (p.prefix == "" && (base == 0 || base == 16) ==> !StartsWith0x(p.text + p.tail))
    && ShowsAll(p.text, p.digits, BaseOf(p, base))
    && !GoesOn(p.tail, BaseOf(p, base))
    && (p.sign == p.prefix == p.text == "" ==> p.tail == "" || (p.tail[0] !in WHITE && p.tail[0] !in {'+', '-'}))
  }

  // --- digits ------------------------------------------------------------------------

  lemma {:induction false} LowerDigit(d: nat)
    requires d < 36
    ensures LOWER[d] as int == if d < 10 then 48 + d else 87 + d
  {
  }

  lemma {:induction false} UpperDigit(d: nat)
    requires d < 36
    ensures UPPER[d] as int == if d < 10 then 48 + d else 55 + d
  {
  }

  lemma {:induction false} ShownDigit(c: char, d: nat)
    requires Shows(c, d)
    ensures DigitValue(c) == d && !IsSpace(c) && c !in {'+', '-', '\0'} && c !in WHITE
  {
    LowerDigit(d);
    UpperDigit(d);
    DigitCode(c, d);
  }

  lemma {:induction false} DigitCode(c: char, d: nat)
    requires d < 36
    requires c as int == (if d < 10 then 48 + d else 87 + d) || c as int == if d < 10 then 48 + d else 55 + d
    ensures DigitValue(c) == d && !IsSpace(c) && c !in {'+', '-', '\0'} && c !in WHITE
  {
  }

  lemma {:induction false} EveryDigitIsShown(c: char)
    requires DigitValue(c) >= 0
    ensures Shows(c, DigitValue(c))
  {
    LowerDigit(DigitValue(c));
    UpperDigit(DigitValue(c));
  }

  lemma {:induction false} GoesOnIsADigit(tail: string, base: nat)
    ensures GoesOn(tail, base) <==> tail != "" && IsDigitIn(tail[0], base)
  {
    if tail != "" {
      if d: nat :| d < base && Shows(tail[0], d) { ShownDigit(tail[0], d); }
      if DigitValue(tail[0]) >= 0 { EveryDigitIsShown(tail[0]); }
    }
  }

  lemma {:induction false} PowerUp(base: nat, k: nat)
    ensures Power(base, k + 1) == Power(base, k) * base
  {
  }

  lemma {:induction false} PlaceOfOneMore(digits: seq<nat>, d: nat, base: nat)
    ensures PlaceValue(digits + [d], base) == PlaceValue(digits, base) * base + d
  {
    if digits == [] {
      assert [] + [d] == [d];
      assert PlaceValue([d], base) == d * Power(base, 0) + PlaceValue([d][1..], base);
    } else {
      assert (digits + [d])[1..] == digits[1..] + [d];
      PlaceOfOneMore(digits[1..], d, base);
      PowerUp(base, |digits| - 1);
      Distribute(digits[0], Power(base, |digits| - 1), base, PlaceValue(digits[1..], base));
    }
  }

  lemma {:induction false} Distribute(x: nat, y: nat, base: nat, z: nat)
    ensures x * (y * base) + z * base == (x * y + z) * base
  {
  }

  /** The parsers' running value is the value by place. */
  lemma {:induction false} ValueIsPlaceValue(text: string, digits: seq<nat>, base: nat)
    requires ShowsAll(text, digits, base)
    ensures Value(text, base) == PlaceValue(digits, base)
  {
    if text != "" {
      var n := |text| - 1;
      ValueIsPlaceValue(text[..n], digits[..n], base);
      ShownDigit(text[n], digits[n]);
      PlaceOfOneMore(digits[..n], digits[n], base);
      assert digits == digits[..n] + [digits[n]];
    }
  }

  // --- the parts one after the other ---------------------------------------------------

  /** The rest of `s` from `at` on is `t`. */
  predicate Left(s: CString, at: nat, t: string) { at <= |s| && s[at..] == t }

  lemma {:induction false} LeftAt(s: CString, at: nat, t: string)
    requires Left(s, at, t)
    ensures At(s, at) == if t == "" then '\0' else t[0]
    ensures At(s, at + 1) == if |t| < 2 then '\0' else t[1]
    ensures '\0' !in t
  {
  }

  lemma {:induction false} LeftAfter(s: CString, at: nat, head: string, t: string)
    requires Left(s, at, head + t)
    ensures Left(s, at + |head|, t) && s[at..at + |head|] == head
    ensures forall k :: at <= k < at + |head| ==> s[k] == head[k - at]
  {
    assert forall k :: at <= k < |s| ==> s[k] == s[at..][k - at];
  }

  lemma {:induction false} SkipsWhite(s: CString, at: nat, white: string, t: string)
    requires Left(s, at, white + t) && (forall i | 0 <= i < |white| :: white[i] in WHITE)
    requires t != "" ==> t[0] !in WHITE
    ensures SpaceEnd(s, at) == at + |white|
  {
    LeftAfter(s, at, white, t);
    LeftAt(s, at + |white|, t);
    RunCovers(s, at, at + |white|, IsSpace);
  }

  lemma {:induction false} SkipsSign(s: CString, at: nat, sign: string, t: string)
    requires Left(s, at, sign + t) && sign in {"", "+", "-"}
    requires sign == "" && t != "" ==> t[0] !in {'+', '-'}
    ensures AfterSign(s, at) == at + |sign| && (At(s, at) == '-' <==> sign == "-")
  {
    LeftAt(s, at, sign + t);
  }

  lemma {:induction false} SkipsPrefix(s: CString, at: nat, p: Parts, base: nat)
    requires Left(s, at, p.prefix + (p.text + p.tail)) && Divided(p, base)
    ensures Prefix(s, at, base) == (BaseOf(p, base), at + |p.prefix|)
  {
    LeftAt(s, at, p.prefix + (p.text + p.tail));
    if p.prefix == "" {
      assert p.prefix + (p.text + p.tail) == p.text + p.tail;
    }
  }

  lemma {:induction false} SkipsDigits(s: CString, at: nat, text: string, digits: seq<nat>, tail: string, base: nat)
    requires Left(s, at, text + tail) && ShowsAll(text, digits, base) && !GoesOn(tail, base)
    ensures DigitsEnd(s, at, base) == at + |text| == |s| - |tail|
    ensures Value(s[at..at + |text|], base) == PlaceValue(digits, base)
  {
    ValueIsPlaceValue(text, digits, base);
    LeftAfter(s, at, text, tail);
    LeftAt(s, at + |text|, tail);
    GoesOnIsADigit(tail, base);
    forall k | at <= k < at + |text|
      ensures IsDigitIn(s[k], base)
    {
      ShownDigit(text[k - at], digits[k - at]);
    }
    RunCovers(s, at, at + |text|, c => IsDigitIn(c, base));
  }

  /** What comes after the white space is no white space, and after the sign no sign. */
  lemma {:induction false} PartsBegin(p: Parts, base: nat)
    requires Divided(p, base)
    ensures var t := p.prefix + (p.text + p.tail);
      && (p.sign == "" && t != "" ==> t[0] !in WHITE && t[0] !in {'+', '-'})
      && (p.sign + t != "" ==> p.sign == "" || (p.sign + t)[0] in {'+', '-'})
  {
    if p.text != "" { ShownDigit(p.text[0], p.digits[0]); }
  }

  /** White space and sign are where they should be. */
  ghost predicate SignFound(s: CString, start: nat, p: Parts, signAt: nat, unsigned: nat) {
    && start <= signAt <= unsigned <= |s| && SpaceEnd(s, start) == signAt
    && AfterSign(s, signAt) == unsigned && (At(s, signAt) == '-' <==> p.sign == "-")
    && Left(s, unsigned, p.prefix + (p.text + p.tail))
  }

  lemma {:induction false} FindsSign(s: CString, start: nat, p: Parts, base: nat)
    requires Left(s, start, Whole(p)) && Divided(p, base)
    ensures SignFound(s, start, p, start + |p.white|, start + |p.white| + |p.sign|)
  {
    var t := p.prefix + (p.text + p.tail);
    PartsBegin(p, base);
    FindsSignIn(s, start, p.white, p.sign, t);
  }

  lemma {:induction false} FindsSignIn(s: CString, start: nat, white: string, sign: string, t: string)
    requires Left(s, start, white + (sign + t))
    requires (forall i | 0 <= i < |white| :: white[i] in WHITE) && sign in {"", "+", "-"}
    requires sign == "" && t != "" ==> t[0] !in WHITE && t[0] !in {'+', '-'}
    ensures SpaceEnd(s, start) == start + |white| && AfterSign(s, start + |white|) == start + |white| + |sign|
    ensures At(s, start + |white|) == '-' <==> sign == "-"
    ensures Left(s, start + |white| + |sign|, t)
  {
    SkipsWhite(s, start, white, sign + t);
    LeftAfter(s, start, white, sign + t);
    SkipsSign(s, start + |white|, sign, t);
    LeftAfter(s, start + |white|, sign, t);
  }

  /** Everything up to the digits is where it should be. */
  ghost predicate Found(s: CString, start: nat, base: nat, p: Parts, signAt: nat, digits: nat, b: nat) {
    && start <= signAt <= digits <= |s|
    && SpaceEnd(s, start) == signAt && (At(s, signAt) == '-' <==> p.sign == "-")
    && Prefix(s, AfterSign(s, signAt), base) == (b, digits)
    && Left(s, digits, p.text + p.tail)
    && ShowsAll(p.text, p.digits, b) && !GoesOn(p.tail, b)
  }

  lemma {:induction false} FindsDigits(s: CString, start: nat, base: nat, p: Parts, signAt: nat, unsigned: nat)
    requires SignFound(s, start, p, signAt, unsigned) && Divided(p, base)
    ensures Found(s, start, base, p, signAt, unsigned + |p.prefix|, BaseOf(p, base))
  {
    SkipsPrefix(s, unsigned, p, base);
    LeftAfter(s, unsigned, p.prefix, p.text + p.tail);
  }

  function Signed64(negative: bool, magnitude: int): int {
    (if negative then -magnitude else magnitude) % 0x1_0000_0000_0000_0000
  }

  lemma {:induction false} Assembled(s: CString, start: nat, base: nat, signAt: nat, b: nat, digits: nat, end: nat,
                                     word: int)
    requires start <= |s| && SpaceEnd(s, start) == signAt <= |s|
    requires Prefix(s, AfterSign(s, signAt), base) == (b, digits) && digits <= |s|
    requires DigitsEnd(s, digits, b) == end && Wrapped(At(s, signAt) == '-', Value(s[digits..end], b)) == word
    ensures ParseUnsigned(s, start, base).0 == word
    ensures ParseUnsigned(s, start, base).1 == if end == digits then start else end
  {
  }

  lemma {:induction false} SameWord64(negative: bool, magnitude: int)
    ensures Wrapped(negative, magnitude) == Signed64(negative, magnitude)
  {
  }

  lemma {:induction false} ReadsWhatIsFound(s: CString, start: nat, base: nat, p: Parts, signAt: nat, digits: nat,
                                            b: nat)
    requires Found(s, start, base, p, signAt, digits, b)
    ensures ParseUnsigned(s, start, base).0 == Signed64(p.sign == "-", PlaceValue(p.digits, b))
    ensures ParseUnsigned(s, start, base).1 == if p.text == "" then start else |s| - |p.tail|
  {
    SkipsDigits(s, digits, p.text, p.digits, p.tail, b);
    SameWord64(p.sign == "-", PlaceValue(p.digits, b));
    Assembled(s, start, base, signAt, b, digits, digits + |p.text|, Signed64(p.sign == "-", PlaceValue(p.digits, b)));
  }

  /** The value of the digits by place, signed, modulo 2^64. */
  function WordOf(p: Parts, base: nat): int {
    Signed64(p.sign == "-", PlaceValue(p.digits, BaseOf(p, base)))
  }

  /** Main result for `strtoul`: for every text and base, the value of the digits in the base
      the text and the caller give, negated after a minus sign, modulo 2^64; the end is just
      past the digits, or the start of the text if there is none. */
  lemma {:induction false} StrtoulReads(s: CString, start: nat, p: Parts, base: nat)
    requires start <= |s| && s[start..] == Whole(p) && Divided(p, base)
    ensures ParseUnsigned(s, start, base).0 == WordOf(p, base)
    ensures ParseUnsigned(s, start, base).1 == if p.text == "" then start else |s| - |p.tail|
  {
    var signAt := start + |p.white|;
    FindsSign(s, start, p, base);
    FindsDigits(s, start, base, p, signAt, signAt + |p.sign|);
    ReadsWhatIsFound(s, start, base, p, signAt, signAt + |p.sign| + |p.prefix|, BaseOf(p, base));
  }

  /** The word as a `long`, negated after a minus sign. */
  function LongOf(negative: bool, word: int): int {
    var signed := if word < 0x8000_0000_0000_0000 then word else word - 0x1_0000_0000_0000_0000;
    if negative then -signed else signed
  }

  /** Main result for `strtol`: after white space and a sign of its own it reads like `strtoul`,
      takes the word as a `long` and negates it after a minus sign.  What it hands on may
      again begin with white space and a sign. */
  lemma {:induction false} StrtolReads(s: CString, white: string, sign: string, p: Parts, base: nat)
    requires s == white + (sign + Whole(p)) && Divided(p, base)
    requires (forall i | 0 <= i < |white| :: white[i] in WHITE) && sign in {"", "+", "-"}
    requires sign == "" ==> p.white == "" && p.sign == ""
    ensures ParseSigned(s, base).0 == LongOf(sign == "-", WordOf(p, base))
    ensures ParseSigned(s, base).1 == if p.text == "" then 0 else |s| - |p.tail|
  {
    if sign == "" { WholeBegins(p, base); }
    assert Left(s, 0, white + (sign + Whole(p)));
    FindsSignIn(s, 0, white, sign, Whole(p));
    StrtolReadsRest(s, |white|, |white| + |sign|, sign == "-", p, base);
  }

  /** Once its own sign is found. */
  lemma {:induction false} StrtolReadsRest(s: CString, signAt: nat, cursor: nat, negative: bool, p: Parts, base: nat)
    requires SpaceEnd(s, 0) == signAt && AfterSign(s, signAt) == cursor && (At(s, signAt) == '-' <==> negative)
    requires Left(s, cursor, Whole(p)) && Divided(p, base)
    ensures ParseSigned(s, base).0 == LongOf(negative, WordOf(p, base))
    ensures ParseSigned(s, base).1 == if p.text == "" then 0 else |s| - |p.tail|
  {
    StrtoulReads(s, cursor, p, base);
    if p.text != "" { EndIsPastDigits(s, cursor, p); }
    AssembledSigned(s, base, signAt, cursor, negative, WordOf(p, base), p.text == "", |s| - |p.tail|);
  }

  lemma {:induction false} AssembledSigned(s: CString, base: nat, signAt: nat, cursor: nat, negative: bool,
                                           word: int, none: bool, end: int)
    requires SpaceEnd(s, 0) == signAt && AfterSign(s, signAt) == cursor && (At(s, signAt) == '-' <==> negative)
    requires cursor <= |s| && ParseUnsigned(s, cursor, base).0 == word
    requires if none then ParseUnsigned(s, cursor, base).1 == cursor
             else cursor < end && ParseUnsigned(s, cursor, base).1 == end
    ensures ParseSigned(s, base).0 == LongOf(negative, word)
    ensures ParseSigned(s, base).1 == if none then 0 else end
  {
  }

  lemma {:induction false} WholeBegins(p: Parts, base: nat)
    requires Divided(p, base) && p.white == "" && p.sign == ""
    ensures Whole(p) != "" ==> Whole(p)[0] !in WHITE && Whole(p)[0] !in {'+', '-'}
  {
    PartsBegin(p, base);
    assert Whole(p) == p.prefix + (p.text + p.tail);
  }

  lemma {:induction false} EndIsPastDigits(s: CString, start: nat, p: Parts)
    requires Left(s, start, Whole(p)) && p.text != ""
    ensures |s| - |p.tail| > start
  {
  }

  // --- every text has its parts ------------------------------------------------------------

  lemma {:induction false} TakeDigits(t: CString, base: nat) returns (text: string, digits: seq<nat>, tail: string)
    ensures t == text + tail && ShowsAll(text, digits, base) && !GoesOn(tail, base)
  {
    var end := DigitsEnd(t, 0, base);
    text, tail := t[..end], t[end..];
    digits := seq(end, i requires 0 <= i < end => Digit36(t[i]));
    forall i | 0 <= i < |text|
      ensures digits[i] < base && Shows(text[i], digits[i])
    {
      EveryDigitIsShown(t[i]);
    }
    GoesOnIsADigit(tail, base);
  }

  function Digit36(c: char): nat { if DigitValue(c) < 0 then 0 else DigitValue(c) }

  lemma {:induction false} TakeWhite(t: CString) returns (white: string, rest: CString)
    ensures t == white + rest && (forall i | 0 <= i < |white| :: white[i] in WHITE)
    ensures rest == "" || rest[0] !in WHITE
  {
    var n := SpaceEnd(t, 0);
    white, rest := t[..n], t[n..];
  }

  lemma {:induction false} TakeSign(t: CString) returns (sign: string, rest: CString)
    ensures t == sign + rest && sign in {"", "+", "-"}
    ensures sign == "" && rest != "" ==> rest[0] !in {'+', '-'}
  {
    var n := AfterSign(t, 0);
    sign, rest := t[..n], t[n..];
    assert n == 1 ==> sign == [t[0]];
  }

  lemma {:induction false} TakePrefix(t: CString, base: nat) returns (prefix: string, rest: CString)
    ensures t == prefix + rest && prefix in {"", "0x", "0X"} && (prefix != "" ==> base == 0 || base == 16)
    ensures prefix == "" && (base == 0 || base == 16) ==> !StartsWith0x(rest)
  {
    var n := if (base == 0 || base == 16) && StartsWith0x(t) then 2 else 0;
    prefix, rest := t[..n], t[n..];
    assert n == 2 ==> prefix == [t[0], t[1]];
    assert n == 0 ==> rest == t;
  }

  /** So the two results above are about every text there is. */
  lemma {:induction false} EveryTextHasParts(s: CString, base: nat) returns (p: Parts)
    ensures s == Whole(p) && Divided(p, base)
  {
    var white, afterWhite := TakeWhite(s);
    var sign, afterSign := TakeSign(afterWhite);
    var prefix, rest := TakePrefix(afterSign, base);
    var b := if prefix != "" then 16 else if base != 0 then base else if rest != "" && rest[0] == '0' then 8 else 10;
    var text, digits, tail := TakeDigits(rest, b);
    p := Parts(white, sign, prefix, text, digits, tail);
    assert BaseOf(p, base) == b;
  }
}
