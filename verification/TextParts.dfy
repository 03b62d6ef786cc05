/** Lines, words and rows in terms of the parts a text is put together from. */
module TextParts {
  import opened Sequences
  import opened TextWords

  const WHITE_SPACE: string :=
    "\t\n\U{0B}\U{0C}\r \U{85}\U{A0}\U{1680}" +
    "\U{2000}\U{2001}\U{2002}\U{2003}\U{2004}\U{2005}\U{2006}\U{2007}\U{2008}\U{2009}\U{200A}" +
    "\U{2028}\U{2029}\U{202F}\U{205F}\U{3000}"

  lemma {:induction false} WhiteSpaceIs(c: char)
    ensures IsSpace(c) <==> c in WHITE_SPACE
  {
  }

  // --- words -----------------------------------------------------------------------------

  /** A line: white space, a word, white space, a word, ..., white space. */
  function Woven(gaps: seq<string>, words: seq<string>): string
    requires |gaps| == |words| + 1
  {
    if words == [] then gaps[0] else gaps[0] + (words[0] + Woven(gaps[1..], words[1..]))
  }

  /** The first and the last gap may be empty, but not those between two words. */
  predicate AreGaps(gaps: seq<string>) {
    && (forall i | 0 <= i < |gaps| :: Blank(gaps[i]))
    && (forall i | 0 < i < |gaps| - 1 :: gaps[i] != "")
  }

  lemma {:induction false} GapIsSkipped(gap: string, rest: string)
    requires Blank(gap)
    ensures Words(gap + rest) == Words(rest)
    decreases |gap|
  {
    if gap == "" {
      assert gap + rest == rest;
    } else {
      assert (gap + rest)[1..] == gap[1..] + rest;
      GapIsSkipped(gap[1..], rest);
    }
  }

  lemma {:induction false} WordEndsAtSpace(w: string, rest: string)
    requires (forall i | 0 <= i < |w| :: !IsSpace(w[i])) && (rest == "" || IsSpace(rest[0]))
    ensures WordEnd(w + rest) == |w|
  {
    if w == "" {
      assert w + rest == rest;
    } else {
      assert (w + rest)[1..] == w[1..] + rest;
      WordEndsAtSpace(w[1..], rest);
    }
  }

  lemma {:induction false} WordIsTaken(w: string, rest: string)
    requires IsWord(w) && (rest == "" || IsSpace(rest[0]))
    ensures Words(w + rest) == [w] + Words(rest)
  {
    WordEndsAtSpace(w, rest);
    assert (w + rest)[..|w|] == w && (w + rest)[|w|..] == rest;
  }

  lemma {:induction false} WovenBegins(gaps: seq<string>, words: seq<string>)
    requires |gaps| == |words| + 1 && Blank(gaps[0]) && (words != [] ==> gaps[0] != "")
    ensures Woven(gaps, words) == "" || IsSpace(Woven(gaps, words)[0])
  {
  }

  /** Main result on words: whatever white space stands between them, the words that a line
      is put together from are what it is split into. */
  lemma {:induction false} WordsOfWoven(gaps: seq<string>, words: seq<string>)
    requires |gaps| == |words| + 1 && AreGaps(gaps) && AreWords(words)
    ensures Words(Woven(gaps, words)) == words
    decreases |words|
  {
    if words == [] {
      GapIsSkipped(gaps[0], "");
      assert gaps[0] + "" == gaps[0];
    } else {
      var rest := Woven(gaps[1..], words[1..]);
      GapIsSkipped(gaps[0], words[0] + rest);
      WovenBegins(gaps[1..], words[1..]);
      WordIsTaken(words[0], rest);
      WordsOfWoven(gaps[1..], words[1..]);
    }
  }

  lemma {:induction false} TakeGap(line: string) returns (gap: string, rest: string)
    ensures line == gap + rest && Blank(gap) && (rest == "" || !IsSpace(rest[0]))
    decreases |line|
  {
    gap, rest := "", line;
    if line != "" && IsSpace(line[0]) {
      var more;
      more, rest := TakeGap(line[1..]);
      gap := [line[0]] + more;
    }
  }

  /** And every line is put together in that way. */
  lemma {:induction false} EveryLineIsWoven(line: string) returns (gaps: seq<string>, words: seq<string>)
    ensures |gaps| == |words| + 1 && AreGaps(gaps) && AreWords(words) && line == Woven(gaps, words)
    ensures line != "" && !IsSpace(line[0]) ==> gaps[0] == ""
    ensures line != "" && IsSpace(line[0]) ==> gaps[0] != ""
    decreases |line|
  {
    var gap, rest := TakeGap(line);
    gaps, words := [gap], [];
    if rest == "" {
      assert gap + rest == gap;
    } else {
      var n := WordEnd(rest);
      var more, others := EveryLineIsWoven(rest[n..]);
      gaps, words := [gap] + more, [rest[..n]] + others;
      assert gaps[1..] == more && words[1..] == others;
      assert rest == rest[..n] + rest[n..];
    }
  }

  // --- rows ------------------------------------------------------------------------------

  function Joined(words: seq<string>): string {
    if words == [] then "" else if |words| == 1 then words[0] else words[0] + (" " + Joined(words[1..]))
  }

  lemma {:induction false} JoinedOneMore(words: seq<string>, w: string)
    requires words != []
    ensures Joined(words + [w]) == Joined(words) + " " + w
  {
    if |words| > 1 {
      JoinedOneMore(words[1..], w);
      assert (words + [w])[1..] == words[1..] + [w];
    }
  }

  lemma {:induction false} RowOfOne(words: seq<string>, a: nat, b: nat)
    requires b == a + 1 <= |words|
    ensures Row(words, a, b) == Joined(words[a..b])
  {
    assert words[a..b] == [words[a]];
  }

  lemma {:induction false} RowGrows(words: seq<string>, a: nat, b: nat)
    requires a < b - 1 < |words| && Row(words, a, b - 1) == Joined(words[a..b - 1])
    ensures Row(words, a, b) == Joined(words[a..b])
  {
    OneWordMore(words, a, b);
    JoinedOneMore(words[a..b - 1], words[b - 1]);
  }

  /** A row is its words with one blank between each two. */
  lemma {:induction false} RowIsJoined(words: seq<string>, a: nat, b: nat)
    requires a < b <= |words|
    ensures Row(words, a, b) == Joined(words[a..b])
    decreases b
  {
    if a + 1 < b {
      RowIsJoined(words, a, b - 1);
      RowGrows(words, a, b);
    } else {
      RowOfOne(words, a, b);
    }
  }

  // --- lines -----------------------------------------------------------------------------

  /** A line that is ended, by a newline with or without a carriage return before it. */
  datatype Ended = Ended(text: string, end: string)

  predicate IsEnded(line: Ended) {
    && (forall i | 0 <= i < |line.text| :: line.text[i] != '\n')
    && (line.end == "\r\n" ||
        (line.end == "\n" && (line.text == "" || line.text[|line.text| - 1] != '\r')))
  }

  function Text(lines: seq<Ended>, last: string): string {
    if lines == [] then last else lines[0].text + (lines[0].end + Text(lines[1..], last))
  }

  function Texts(lines: seq<Ended>): seq<string> {
    seq(|lines|, i requires 0 <= i < |lines| => lines[i].text)
  }

  lemma {:induction false} NewlineIs(text: string, from: nat, k: nat)
    requires from <= k <= |text| && (k < |text| ==> text[k] == '\n')
    requires forall i | from <= i < k :: text[i] != '\n'
    ensures NewlineIndex(text, from) == k
    decreases k - from
  {
    if from < k {
      NewlineIs(text, from + 1, k);
    }
  }

  lemma {:induction false} EndIsFound(line: Ended, rest: string, text: string, k: nat)
    requires IsEnded(line) && text == line.text + (line.end + rest) && k == |line.text| + |line.end| - 1
    ensures k < |text| && text[k] == '\n' && NewlineIndex(text, 0) == k
    ensures text[..k] == line.text + line.end[..|line.end| - 1] && text[k + 1..] == rest
  {
    NewlineIs(text, 0, k);
  }

  lemma {:induction false} FirstLine(text: string, k: nat)
    requires k < |text| && NewlineIndex(text, 0) == k
    ensures Lines(text) == [StripReturn(text[..k])] + Lines(text[k + 1..])
  {
  }

  lemma {:induction false} LineIsTaken(line: Ended, rest: string)
    requires IsEnded(line)
    ensures Lines(line.text + (line.end + rest)) == [line.text] + Lines(rest)
  {
    var text, k := line.text + (line.end + rest), |line.text| + |line.end| - 1;
    EndIsFound(line, rest, text, k);
    FirstLine(text, k);
    Stripped(line, text[..k]);
  }

  lemma {:induction false} Stripped(line: Ended, taken: string)
    requires IsEnded(line) && taken == line.text + line.end[..|line.end| - 1]
    ensures StripReturn(taken) == line.text
  {
    if line.end == "\r\n" {
      assert taken == line.text + "\r";
    } else {
      assert taken == line.text;
    }
  }

  /** Main result on lines: splitting a text gives the lines it was put together from, without
      their ends; what follows the last end is a line if it is not empty. */
  lemma {:induction false} LinesOfText(lines: seq<Ended>, last: string)
    requires (forall i | 0 <= i < |lines| :: IsEnded(lines[i])) && forall i | 0 <= i < |last| :: last[i] != '\n'
    ensures Lines(Text(lines, last)) == Texts(lines) + if last == "" then [] else [last]
    decreases |lines|
  {
    var tail := if last == "" then [] else [last];
    if lines == [] {
      LastLine(last);
      assert Texts(lines) + tail == tail;
    } else {
      LineIsTaken(lines[0], Text(lines[1..], last));
      LinesOfText(lines[1..], last);
      TextsOfOneMore(lines);
      Regroup([lines[0].text], Texts(lines[1..]), tail);
    }
  }

  lemma {:induction false} LastLine(last: string)
    requires forall i | 0 <= i < |last| :: last[i] != '\n'
    ensures Lines(last) == if last == "" then [] else [last]
  {
    NewlineIs(last, 0, |last|);
  }

  lemma {:induction false} TextsOfOneMore(lines: seq<Ended>)
    requires lines != []
    ensures Texts(lines) == [lines[0].text] + Texts(lines[1..])
  {
  }

  lemma {:induction false} TakeLine(text: string, k: nat) returns (line: Ended, rest: string)
    requires k < |text| && text[k] == '\n' && forall i | 0 <= i < k :: text[i] != '\n'
    ensures IsEnded(line) && text == line.text + (line.end + rest) && |rest| < |text|
  {
    rest := text[k + 1..];
    if k > 0 && text[k - 1] == '\r' {
      line := Ended(text[..k - 1], "\r\n");
      assert text == text[..k - 1] + text[k - 1..k + 1] + text[k + 1..] && text[k - 1..k + 1] == "\r\n";
    } else {
      line := Ended(text[..k], "\n");
      assert text == text[..k] + text[k..k + 1] + text[k + 1..] && text[k..k + 1] == "\n";
    }
  }

  /** And every text is put together in that way. */
  lemma {:induction false} EveryTextHasLines(text: string) returns (lines: seq<Ended>, last: string)
    ensures (forall i | 0 <= i < |lines| :: IsEnded(lines[i])) && forall i | 0 <= i < |last| :: last[i] != '\n'
    ensures text == Text(lines, last)
    decreases |text|
  {
    var k := NewlineIndex(text, 0);
    lines, last := [], text;
    if k < |text| {
      var line, rest := TakeLine(text, k);
      lines, last := EveryTextHasLines(rest);
      assert ([line] + lines)[1..] == lines;
      lines := [line] + lines;
    }
  }
}
