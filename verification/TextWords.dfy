/** Lines and words of a text, and words joined back into rows by single spaces. */
module TextWords {

  /** The characters Unicode calls white space. */
  predicate IsSpace(c: char) {
    var n := c as int;
    || 0x09 <= n <= 0x0D || n == 0x20 || n == 0x85 || n == 0xA0 || n == 0x1680 || 0x2000 <= n <= 0x200A
    || n == 0x2028 || n == 0x2029 || n == 0x202F || n == 0x205F || n == 0x3000
  }

  predicate IsWord(w: string) {
    w != "" && forall i | 0 <= i < |w| :: !IsSpace(w[i])
  }

  predicate AreWords(ws: seq<string>) {
    forall i | 0 <= i < |ws| :: IsWord(ws[i])
  }

  predicate Blank(line: string) {
    forall i | 0 <= i < |line| :: IsSpace(line[i])
  }

  function NewlineIndex(text: string, from: nat): (k: nat)
    requires from <= |text|
    ensures from <= k <= |text|
    ensures k < |text| ==> text[k] == '\n'
    ensures forall i | from <= i < k :: text[i] != '\n'
    decreases |text| - from
  {
    if from == |text| || text[from] == '\n' then from else NewlineIndex(text, from + 1)
  }

  function StripReturn(line: string): string {
    if line != "" && line[|line| - 1] == '\r' then line[..|line| - 1] else line
  }

  /** The lines of a text, without their line ends; the last may lack one. */
  function Lines(text: string): (lines: seq<string>)
    decreases |text|
  {
    var k := NewlineIndex(text, 0);
    if text == "" then []
    else if k == |text| then [text]
    else [StripReturn(text[..k])] + Lines(text[k + 1..])
  }

  function WordEnd(line: string): (n: nat)
    ensures n <= |line|
    ensures forall i | 0 <= i < n :: !IsSpace(line[i])
    ensures n < |line| ==> IsSpace(line[n])
  {
    if line == "" || IsSpace(line[0]) then 0 else 1 + WordEnd(line[1..])
  }

  /** The maximal runs without white space, in order. */
  function Words(line: string): (ws: seq<string>)
    decreases |line|
  {
    if line == "" then []
    else if IsSpace(line[0]) then Words(line[1..])
    else [line[..WordEnd(line)]] + Words(line[WordEnd(line)..])
  }

  lemma {:induction false} WordsAreWords(line: string)
    ensures AreWords(Words(line))
    ensures Words(line) == [] <==> Blank(line)
    decreases |line|
  {
    if line != "" {
      if IsSpace(line[0]) {
        WordsAreWords(line[1..]);
        assert forall i | 0 < i < |line| :: line[i] == line[1..][i - 1];
      } else {
        WordsAreWords(line[WordEnd(line)..]);
        assert IsWord(line[..WordEnd(line)]);
      }
    }
  }

  /** The words from `a` to `b`, joined by single spaces. */
  function Row(ws: seq<string>, a: nat, b: nat): string
    decreases b
  {
    if b <= a || b > |ws| then "" else if b == a + 1 then ws[a] else Row(ws, a, b - 1) + " " + ws[b - 1]
  }

  lemma {:induction false} WordEndWithin(x: string, w: string)
    ensures WordEnd(x + " " + w) == WordEnd(x)
  {
    if x != "" && !IsSpace(x[0]) {
      WordEndWithin(x[1..], w);
      assert (x + " " + w)[1..] == x[1..] + " " + w;
    }
  }

  lemma {:induction false} WholeWord(w: string)
    requires IsWord(w)
    ensures WordEnd(w) == |w| && Words(w) == [w]
  {
    assert WordEnd(w) == |w|;
    assert w[..|w|] == w && w[|w|..] == [];
  }

  lemma {:induction false} WordsOfOneMore(x: string, w: string)
    requires IsWord(w)
    ensures Words(x + " " + w) == Words(x) + [w]
    decreases |x|
  {
    var line := x + " " + w;
    if x == "" {
      assert line[1..] == w;
      WholeWord(w);
    } else if IsSpace(x[0]) {
      assert line[1..] == x[1..] + " " + w;
      WordsOfOneMore(x[1..], w);
    } else {
      var n := WordEnd(x);
      WordEndWithin(x, w);
      assert line[..n] == x[..n] && line[n..] == x[n..] + " " + w;
      WordsOfOneMore(x[n..], w);
    }
  }

  lemma {:induction false} OneWordMore(ws: seq<string>, a: nat, b: nat)
    requires a < b - 1 < b <= |ws|
    ensures Row(ws, a, b) == Row(ws, a, b - 1) + " " + ws[b - 1]
    ensures ws[a..b] == ws[a..b - 1] + [ws[b - 1]]
  {
  }

  lemma {:induction false} RowOfOneWord(ws: seq<string>, a: nat)
    requires a < |ws| && IsWord(ws[a])
    ensures Words(Row(ws, a, a + 1)) == ws[a..a + 1]
  {
    WholeWord(ws[a]);
  }

  /** Splitting undoes joining. */
  lemma {:induction false} WordsOfRow(ws: seq<string>, a: nat, b: nat)
    requires a < b <= |ws| && AreWords(ws)
    ensures Words(Row(ws, a, b)) == ws[a..b]
    decreases b
  {
    if b == a + 1 {
      RowOfOneWord(ws, a);
    } else {
      WordsOfRow(ws, a, b - 1);
      OneWordMore(ws, a, b);
      WordsOfOneMore(Row(ws, a, b - 1), ws[b - 1]);
    }
  }

  lemma {:induction false} RowHasNoLineEnds(ws: seq<string>, a: nat, b: nat)
    requires a < b <= |ws| && AreWords(ws)
    ensures var row := Row(ws, a, b); row != "" && forall i | 0 <= i < |row| :: row[i] != '\n' && row[i] != '\r'
    decreases b
  {
    if b > a + 1 {
      RowHasNoLineEnds(ws, a, b - 1);
    }
    var last := ws[b - 1];
    assert forall i | 0 <= i < |last| :: !IsSpace(last[i]);
  }

  lemma {:induction false} RowIsOneLine(ws: seq<string>, a: nat, b: nat)
    requires a < b <= |ws| && AreWords(ws)
    ensures Lines(Row(ws, a, b)) == [Row(ws, a, b)]
  {
    RowHasNoLineEnds(ws, a, b);
  }

  /** Fewer words are never wider. */
  lemma {:induction false} FewerWordsAreNarrower(ws: seq<string>, a: nat, a': nat, b': nat, b: nat)
    requires a <= a' < b' <= b <= |ws|
    ensures |Row(ws, a', b')| <= |Row(ws, a, b)|
    decreases b
  {
    if b' < b {
      FewerWordsAreNarrower(ws, a, a', b', b - 1);
    } else if a' < b' - 1 {
      FewerWordsAreNarrower(ws, a, a', b' - 1, b - 1);
    }
  }

  lemma {:induction false} RowOfSlice(ws: seq<string>, a: nat, b: nat, n: nat)
    requires a <= a + n <= b <= |ws|
    ensures Row(ws[a..b], 0, n) == Row(ws, a, a + n)
    decreases n
  {
    if n > 1 {
      RowOfSlice(ws, a, b, n - 1);
    }
  }
}
