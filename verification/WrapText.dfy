/** Greedy line filling: each source line is split between words into as few rows as the
    width allows. */
module WrapText {
  import opened Sequences
  import opened TextWords

  predicate Before(cuts: seq<nat>, i: nat, j: nat)
    requires i < |cuts| && j < |cuts|
  {
    cuts[i] < cuts[j]
  }

  /** Places, in order, at which to break a sequence of words. */
  predicate Increasing(cuts: seq<nat>) {
    |cuts| >= 1 && cuts[0] == 0 && forall i: nat, j: nat | i < j < |cuts| :: Before(cuts, i, j)
  }

  /** A way to split `n` words into rows: where each row starts, and the end. */
  predicate IsSplit(cuts: seq<nat>, n: nat) {
    Increasing(cuts) && |cuts| >= 2 && cuts[|cuts| - 1] == n
  }

  function Rows(ws: seq<string>, cuts: seq<nat>): seq<string>
    requires |cuts| >= 1
  {
    seq(|cuts| - 1, i requires 0 <= i < |cuts| - 1 => Row(ws, cuts[i], cuts[i + 1]))
  }

  /** A row fits, or is one word that cannot be broken. */
  predicate Fits(ws: seq<string>, a: nat, b: nat, maximum: nat) {
    |Row(ws, a, b)| <= maximum || b == a + 1
  }

  predicate RowFits(ws: seq<string>, cuts: seq<nat>, i: nat, maximum: nat)
    requires i < |cuts| - 1
  {
    Fits(ws, cuts[i], cuts[i + 1], maximum)
  }

  /** The row could not have taken the next word. */
  predicate RowIsFull(ws: seq<string>, cuts: seq<nat>, i: nat, maximum: nat)
    requires i < |cuts| - 1
  {
    cuts[i + 1] < |ws| && |Row(ws, cuts[i], cuts[i + 1] + 1)| > maximum
  }

  predicate AllFit(ws: seq<string>, cuts: seq<nat>, maximum: nat) {
    forall i: nat | i < |cuts| - 1 :: RowFits(ws, cuts, i, maximum)
  }

  /** All rows but the last `open` ones are full. */
  predicate AllFull(ws: seq<string>, cuts: seq<nat>, maximum: nat, open: nat) {
    forall i: nat | i < |cuts| - 1 - open :: RowIsFull(ws, cuts, i, maximum)
  }

  /** The greedy split. */
  predicate Filled(ws: seq<string>, cuts: seq<nat>, maximum: nat) {
    IsSplit(cuts, |ws|) && AllFit(ws, cuts, maximum) && AllFull(ws, cuts, maximum, 1)
  }

  /** The rows of the greedy split. */
  ghost predicate GreedyRows(ws: seq<string>, maximum: nat, rows: seq<string>) {
    exists cuts: seq<nat> :: Filled(ws, cuts, maximum) && rows == Rows(ws, cuts)
  }

  /** What one source line becomes. */
  ghost predicate LineBecomes(line: string, maximum: nat, rows: seq<string>) {
    if Blank(line) then rows == [""] else GreedyRows(Words(line), maximum, rows)
  }

  function Flatten(pieces: seq<seq<string>>): seq<string> {
    if pieces == [] then [] else Flatten(pieces[..|pieces| - 1]) + pieces[|pieces| - 1]
  }

  /** What each source line becomes, one after the other. */
  ghost predicate LinesBecome(lines: seq<string>, maximum: nat, pieces: seq<seq<string>>) {
    |pieces| == |lines| && forall i | 0 <= i < |lines| :: LineBecomes(lines[i], maximum, pieces[i])
  }

  function Limit(maximumCharacters: nat): nat {
    if maximumCharacters == 0 then 1 else maximumCharacters
  }

  /** What a whole text becomes. */
  ghost predicate TextBecomes(text: string, maximumCharacters: nat, output: seq<string>) {
    exists pieces: seq<seq<string>> ::
      LinesBecome(Lines(text), Limit(maximumCharacters), pieces) && output == Flatten(pieces)
  }

  // --- the loops ---------------------------------------------------------------

  /** Rows up to the last cut are final; the words from there to `i` fill the next. */
  predicate Filling(ws: seq<string>, maximum: nat, cuts: seq<nat>, i: nat) {
    && Increasing(cuts) && AllFit(ws, cuts, maximum) && AllFull(ws, cuts, maximum, 0)
    && var start := cuts[|cuts| - 1];
       && start <= i <= |ws| && (start == i ==> i == 0)
       && (start < i ==> Fits(ws, start, i, maximum))
  }

  lemma {:induction false} Take(ws: seq<string>, maximum: nat, cuts: seq<nat>, i: nat)
    requires Filling(ws, maximum, cuts, i) && i < |ws|
    requires cuts[|cuts| - 1] == i || |Row(ws, cuts[|cuts| - 1], i + 1)| <= maximum
    ensures Filling(ws, maximum, cuts, i + 1)
  {
  }

  lemma {:induction false} RowsOfOneCutMore(ws: seq<string>, cuts: seq<nat>, cut: nat)
    requires |cuts| >= 1
    ensures Rows(ws, cuts + [cut]) == Rows(ws, cuts) + [Row(ws, cuts[|cuts| - 1], cut)]
  {
    var more := cuts + [cut];
    forall i: nat | i < |cuts|
      ensures Rows(ws, more)[i] == (Rows(ws, cuts) + [Row(ws, cuts[|cuts| - 1], cut)])[i]
    {
      assert more[i] == cuts[i];
    }
  }

  lemma {:induction false} IncreasingWithOneMore(cuts: seq<nat>, cut: nat)
    requires Increasing(cuts) && cuts[|cuts| - 1] < cut
    ensures Increasing(cuts + [cut])
  {
    var more, last := cuts + [cut], |cuts| - 1;
    forall i: nat, j: nat | i < j < |more|
      ensures Before(more, i, j)
    {
      if j < |cuts| {
        assert Before(cuts, i, j);
      } else {
        assert i < last ==> Before(cuts, i, last);
      }
    }
  }

  lemma {:induction false} OneCutMore(ws: seq<string>, maximum: nat, cuts: seq<nat>, cut: nat)
    requires |cuts| >= 1 && AllFit(ws, cuts, maximum) && AllFull(ws, cuts, maximum, 0)
    requires Fits(ws, cuts[|cuts| - 1], cut, maximum)
    ensures AllFit(ws, cuts + [cut], maximum) && AllFull(ws, cuts + [cut], maximum, 1)
    ensures RowIsFull(ws, cuts + [cut], |cuts| - 1, maximum) ==> AllFull(ws, cuts + [cut], maximum, 0)
  {
    var more := cuts + [cut];
    forall i: nat | i < |more| - 1
      ensures RowFits(ws, more, i, maximum)
      ensures i < |cuts| - 1 ==> RowIsFull(ws, more, i, maximum)
    {
      if i < |cuts| - 1 {
        assert RowFits(ws, cuts, i, maximum) && RowIsFull(ws, cuts, i, maximum);
      }
    }
  }

  lemma {:induction false} Break(ws: seq<string>, maximum: nat, cuts: seq<nat>, i: nat)
    requires Filling(ws, maximum, cuts, i) && i < |ws|
    requires cuts[|cuts| - 1] < i && |Row(ws, cuts[|cuts| - 1], i + 1)| > maximum
    ensures Increasing(cuts + [i]) && AllFit(ws, cuts + [i], maximum) && AllFull(ws, cuts + [i], maximum, 0)
    ensures Rows(ws, cuts + [i]) == Rows(ws, cuts) + [Row(ws, cuts[|cuts| - 1], i)]
  {
    OneCutMore(ws, maximum, cuts, i);
    IncreasingWithOneMore(cuts, i);
    RowsOfOneCutMore(ws, cuts, i);
  }

  lemma {:induction false} LastRow(ws: seq<string>, maximum: nat, cuts: seq<nat>)
    requires ws != [] && Filling(ws, maximum, cuts, |ws|)
    ensures GreedyRows(ws, maximum, Rows(ws, cuts) + [Row(ws, cuts[|cuts| - 1], |ws|)])
  {
    OneCutMore(ws, maximum, cuts, |ws|);
    IncreasingWithOneMore(cuts, |ws|);
    RowsOfOneCutMore(ws, cuts, |ws|);
    assert Filled(ws, cuts + [|ws|], maximum);
  }

  /** Fills rows with the words of one line. */
  method FillRows(ws: seq<string>, maximum: nat) returns (output: seq<string>)
    requires ws != [] && AreWords(ws)
    ensures GreedyRows(ws, maximum, output)
  {
    var current := "";
    output := [];
    ghost var cuts: seq<nat> := [0];
    for i := 0 to |ws|
      invariant Filling(ws, maximum, cuts, i) && output == Rows(ws, cuts)
      invariant current == Row(ws, cuts[|cuts| - 1], i)
    {
      var word := ws[i];
      var separator := if current == "" then 0 else 1;
      ghost var start := cuts[|cuts| - 1];
      if start < i { RowHasNoLineEnds(ws, start, i); }
      if current != "" && |current| + separator + |word| > maximum {
        Break(ws, maximum, cuts, i);
        output := output + [current];
        cuts := cuts + [i];
        current := "";
      } else {
        Take(ws, maximum, cuts, i);
      }
      if current != "" {
        current := current + " ";
      }
      current := current + word;
    }
    LastRow(ws, maximum, cuts);
    output := output + [current];
  }

  lemma {:induction false} OnePieceMore(lines: seq<string>, maximum: nat, pieces: seq<seq<string>>,
                                        i: nat, rows: seq<string>)
    requires i < |lines| && LinesBecome(lines[..i], maximum, pieces) && LineBecomes(lines[i], maximum, rows)
    ensures LinesBecome(lines[..i + 1], maximum, pieces + [rows])
    ensures Flatten(pieces + [rows]) == Flatten(pieces) + rows
  {
    assert (pieces + [rows])[..|pieces|] == pieces;
    forall k | 0 <= k < i + 1
      ensures LineBecomes(lines[..i + 1][k], maximum, (pieces + [rows])[k])
    {
      assert k < i ==> lines[..i + 1][k] == lines[..i][k];
    }
  }

  method WrapLine(line: string, maximum: nat) returns (rows: seq<string>)
    ensures LineBecomes(line, maximum, rows)
  {
    var words := Words(line);
    WordsAreWords(line);
    if words == [] {
      rows := [""];
    } else {
      rows := FillRows(words, maximum);
    }
  }

  method WrapText(text: string, maximumCharacters: nat) returns (output: seq<string>)
    ensures TextBecomes(text, maximumCharacters, output)
  {
    var maximum := Limit(maximumCharacters);
    var lines := Lines(text);
    output := [];
    ghost var pieces: seq<seq<string>> := [];
    for i := 0 to |lines|
      invariant LinesBecome(lines[..i], maximum, pieces) && output == Flatten(pieces)
    {
      var rows := WrapLine(lines[i], maximum);
      OnePieceMore(lines, maximum, pieces, i, rows);
      output := output + rows;
      pieces := pieces + [rows];
    }
    assert lines[..|lines|] == lines;
  }

  // --- what the split is worth -----------------------------------------------------

  lemma {:induction false} InsideSplit(cuts: seq<nat>, n: nat, k: nat)
    requires IsSplit(cuts, n) && k < |cuts|
    ensures cuts[k] <= n && (k < |cuts| - 1 ==> cuts[k] < cuts[k + 1] <= n)
  {
    var last := |cuts| - 1;
    assert k < last ==> Before(cuts, k, k + 1);
    assert k < last - 1 ==> Before(cuts, k + 1, last);
  }

  /** The greedy rows stay ahead of those of any other split that fits. */
  lemma {:induction false} GreedyStaysAhead(ws: seq<string>, greedy: seq<nat>, other: seq<nat>, maximum: nat, k: nat)
    requires Filled(ws, greedy, maximum)
    requires IsSplit(other, |ws|) && AllFit(ws, other, maximum)
    requires k < |greedy| && k < |other|
    ensures other[k] <= greedy[k]
  {
    if k > 0 {
      GreedyStaysAhead(ws, greedy, other, maximum, k - 1);
      InsideSplit(greedy, |ws|, k - 1);
      InsideSplit(other, |ws|, k - 1);
      if other[k] > greedy[k] {
        assert RowFits(ws, other, k - 1, maximum);
        assert RowIsFull(ws, greedy, k - 1, maximum);
        FewerWordsAreNarrower(ws, other[k - 1], greedy[k - 1], greedy[k] + 1, other[k]);
        assert false;
      }
    }
  }

  /** Main result: no split into rows that fit uses fewer rows than the greedy one. */
  lemma {:induction false} FewestRows(ws: seq<string>, greedy: seq<nat>, other: seq<nat>, maximum: nat)
    requires Filled(ws, greedy, maximum)
    requires IsSplit(other, |ws|) && AllFit(ws, other, maximum)
    ensures |greedy| <= |other|
  {
    if |other| < |greedy| {
      InsideSplit(greedy, |ws|, |other| - 1);
      GreedyStaysAhead(ws, greedy, other, maximum, |other| - 1);
    }
  }

  /** There is only one greedy split, so the rows of a line are determined. */
  lemma {:induction false} OnlyOneGreedySplit(ws: seq<string>, a: seq<nat>, b: seq<nat>, maximum: nat)
    requires Filled(ws, a, maximum) && Filled(ws, b, maximum)
    ensures a == b
  {
    FewestRows(ws, a, b, maximum);
    FewestRows(ws, b, a, maximum);
    forall k: nat | k < |a|
      ensures a[k] == b[k]
    {
      GreedyStaysAhead(ws, a, b, maximum, k);
      GreedyStaysAhead(ws, b, a, maximum, k);
    }
  }

  function AllWords(rows: seq<string>): seq<string> {
    if rows == [] then [] else AllWords(rows[..|rows| - 1]) + Words(rows[|rows| - 1])
  }

  /** The rows carry the words of the line, in order. */
  lemma {:induction false} RowsCarryTheWords(ws: seq<string>, cuts: seq<nat>, n: nat)
    requires AreWords(ws)
    requires IsSplit(cuts, |ws|) && n < |cuts|
    ensures cuts[n] <= |ws| && AllWords(Rows(ws, cuts)[..n]) == ws[..cuts[n]]
  {
    InsideSplit(cuts, |ws|, n);
    if n > 0 {
      RowsCarryTheWords(ws, cuts, n - 1);
      InsideSplit(cuts, |ws|, n - 1);
      WordsOfRow(ws, cuts[n - 1], cuts[n]);
      AllWordsOfOneMore(Rows(ws, cuts), n);
      Adjacent(ws, cuts[n - 1], cuts[n]);
    }
  }

  lemma {:induction false} AllWordsOfOneMore(rows: seq<string>, n: nat)
    requires 0 < n <= |rows|
    ensures AllWords(rows[..n]) == AllWords(rows[..n - 1]) + Words(rows[n - 1])
  {
    assert rows[..n][..n - 1] == rows[..n - 1];
  }

  lemma {:induction false} Adjacent(ws: seq<string>, a: nat, b: nat)
    requires a <= b <= |ws|
    ensures ws[..a] + ws[a..b] == ws[..b]
  {
  }

  /** Where in the words a row of the greedy split comes from. */
  lemma {:induction false} OriginOfRow(ws: seq<string>, maximum: nat, rows: seq<string>, i: nat)
    returns (a: nat, b: nat)
    requires GreedyRows(ws, maximum, rows) && i < |rows|
    ensures a < b <= |ws| && rows[i] == Row(ws, a, b) && Fits(ws, a, b, maximum)
  {
    var cuts: seq<nat> :| Filled(ws, cuts, maximum) && rows == Rows(ws, cuts);
    InsideSplit(cuts, |ws|, i);
    assert RowFits(ws, cuts, i, maximum);
    a, b := cuts[i], cuts[i + 1];
  }

  lemma {:induction false} GreedyIsFaithful(ws: seq<string>, maximum: nat, rows: seq<string>)
    requires AreWords(ws) && GreedyRows(ws, maximum, rows)
    ensures AllWords(rows) == ws
    ensures forall i | 0 <= i < |rows| :: |rows[i]| <= maximum || |Words(rows[i])| == 1
  {
    var cuts: seq<nat> :| Filled(ws, cuts, maximum) && rows == Rows(ws, cuts);
    RowsCarryTheWords(ws, cuts, |rows|);
    assert rows[..|rows|] == rows && ws[..|ws|] == ws;
    forall i: nat | i < |rows|
      ensures |rows[i]| <= maximum || |Words(rows[i])| == 1
    {
      var a, b := OriginOfRow(ws, maximum, rows, i);
      WordsOfRow(ws, a, b);
    }
  }

  lemma {:induction false} GreedyIsOptimal(ws: seq<string>, maximum: nat, rows: seq<string>, other: seq<nat>)
    requires GreedyRows(ws, maximum, rows) && IsSplit(other, |ws|) && AllFit(ws, other, maximum)
    ensures |rows| <= |Rows(ws, other)|
  {
    var cuts: seq<nat> :| Filled(ws, cuts, maximum) && rows == Rows(ws, cuts);
    FewestRows(ws, cuts, other, maximum);
  }

  /** Main result: what a line becomes has its words in order, each row fits or is a single
      word, and no other way to do so has fewer rows. */
  lemma {:induction false} WrappingIsFaithfulAndOptimal(line: string, maximum: nat, rows: seq<string>, other: seq<nat>)
    requires LineBecomes(line, maximum, rows)
    ensures AllWords(rows) == Words(line)
    ensures Blank(line) ==> rows == [""]
    ensures forall i | 0 <= i < |rows| :: |rows[i]| <= maximum || |Words(rows[i])| == 1
    ensures IsSplit(other, |Words(line)|) && AllFit(Words(line), other, maximum) ==>
              |rows| <= |Rows(Words(line), other)|
  {
    WordsAreWords(line);
    if Blank(line) {
    } else {
      GreedyIsFaithful(Words(line), maximum, rows);
      if IsSplit(other, |Words(line)|) && AllFit(Words(line), other, maximum) {
        GreedyIsOptimal(Words(line), maximum, rows, other);
      }
    }
  }

  // --- whole texts ---------------------------------------------------------------

  lemma {:induction false} AllWordsJoin(a: seq<string>, b: seq<string>)
    ensures AllWords(a + b) == AllWords(a) + AllWords(b)
    decreases |b|
  {
    if b == [] {
      assert a + b == a;
    } else {
      var last := |b| - 1;
      AllWordsJoin(a, b[..last]);
      InitOfJoined(a, b);
      AllWordsAtEnd(a + b);
      AllWordsAtEnd(b);
      Regroup(AllWords(a), AllWords(b[..last]), Words(b[last]));
    }
  }

  lemma {:induction false} InitOfJoined(a: seq<string>, b: seq<string>)
    requires b != []
    ensures (a + b)[..|a + b| - 1] == a + b[..|b| - 1] && (a + b)[|a + b| - 1] == b[|b| - 1]
  {
  }

  lemma {:induction false} AllWordsAtEnd(rows: seq<string>)
    requires rows != []
    ensures AllWords(rows) == AllWords(rows[..|rows| - 1]) + Words(rows[|rows| - 1])
  {
  }

  lemma {:induction false} FlattenOneMore(pieces: seq<seq<string>>, n: nat)
    requires n < |pieces|
    ensures Flatten(pieces[..n + 1]) == Flatten(pieces[..n]) + pieces[n]
  {
    assert pieces[..n + 1][..n] == pieces[..n];
  }

  predicate RowFitsIn(row: string, width: nat) { |row| <= width || |Words(row)| == 1 }

  predicate RowsFitIn(rows: seq<string>, width: nat) {
    forall i | 0 <= i < |rows| :: RowFitsIn(rows[i], width)
  }

  lemma {:induction false} PieceIsFaithful(line: string, width: nat, rows: seq<string>)
    requires LineBecomes(line, width, rows)
    ensures AllWords(rows) == Words(line) && RowsFitIn(rows, width)
  {
    WrappingIsFaithfulAndOptimal(line, width, rows, []);
  }

  lemma {:induction false} PiecesAreFaithful(lines: seq<string>, width: nat, pieces: seq<seq<string>>, n: nat)
    requires LinesBecome(lines, width, pieces) && n <= |lines|
    ensures AllWords(Flatten(pieces[..n])) == AllWords(lines[..n]) && RowsFitIn(Flatten(pieces[..n]), width)
  {
    if n > 0 {
      PiecesAreFaithful(lines, width, pieces, n - 1);
      PieceIsFaithful(lines[n - 1], width, pieces[n - 1]);
      FlattenOneMore(pieces, n - 1);
      AllWordsJoin(Flatten(pieces[..n - 1]), pieces[n - 1]);
      AllWordsOfOneMore(lines, n);
    }
  }

  /** The rows of a whole text carry the words of its lines in order, and each is no longer
      than the width asked for, or than one character, or is a single word. */
  lemma {:induction false} TextIsFaithful(text: string, maximumCharacters: nat, output: seq<string>)
    requires TextBecomes(text, maximumCharacters, output)
    ensures AllWords(output) == AllWords(Lines(text))
    ensures forall i | 0 <= i < |output| ::
              |output[i]| <= maximumCharacters || |output[i]| <= 1 || |Words(output[i])| == 1
  {
    var width := Limit(maximumCharacters);
    var pieces: seq<seq<string>> :| LinesBecome(Lines(text), width, pieces) && output == Flatten(pieces);
    PiecesAreFaithful(Lines(text), width, pieces, |pieces|);
    assert pieces[..|pieces|] == pieces && Lines(text)[..|pieces|] == Lines(text);
    assert forall i | 0 <= i < |output| :: RowFitsIn(output[i], width);
  }

  // --- rows wrapped again ----------------------------------------------------------

  lemma {:induction false} OneRow(ws: seq<string>, maximum: nat, cuts: seq<nat>)
    requires ws != [] && cuts == [0, |ws|] && Fits(ws, 0, |ws|, maximum)
    ensures Filled(ws, cuts, maximum) && Rows(ws, cuts) == [Row(ws, 0, |ws|)]
  {
    assert Before(cuts, 0, 1);
  }

  lemma {:induction false} LineThatFits(line: string, maximum: nat, rows: seq<string>)
    requires LineBecomes(line, maximum, rows) && !Blank(line)
    requires Fits(Words(line), 0, |Words(line)|, maximum)
    ensures rows == [Row(Words(line), 0, |Words(line)|)]
  {
    var ws := Words(line);
    WordsAreWords(line);
    OneRow(ws, maximum, [0, |ws|]);
    var cuts: seq<nat> :| Filled(ws, cuts, maximum) && rows == Rows(ws, cuts);
    OnlyOneGreedySplit(ws, cuts, [0, |ws|], maximum);
  }

  lemma {:induction false} RowAsALine(ws: seq<string>, a: nat, b: nat, maximum: nat)
    requires a < b <= |ws| && AreWords(ws) && Fits(ws, a, b, maximum)
    ensures var row := Row(ws, a, b);
      && !Blank(row) && Row(Words(row), 0, |Words(row)|) == row && Fits(Words(row), 0, |Words(row)|, maximum)
  {
    WordsOfRow(ws, a, b);
    RowOfSlice(ws, a, b, b - a);
    FitsAgain(ws, a, b, maximum, ws[a..b]);
    WordsAreWords(Row(ws, a, b));
  }

  lemma {:induction false} FitsAgain(ws: seq<string>, a: nat, b: nat, maximum: nat, again: seq<string>)
    requires a < b && |again| == b - a && Row(again, 0, |again|) == Row(ws, a, b)
    requires Fits(ws, a, b, maximum)
    ensures Fits(again, 0, |again|, maximum)
  {
  }

  lemma {:induction false} RowAgain(ws: seq<string>, a: nat, b: nat, maximum: nat, again: seq<string>)
    requires a < b <= |ws| && AreWords(ws) && Fits(ws, a, b, maximum) && maximum > 0
    requires TextBecomes(Row(ws, a, b), maximum, again)
    ensures again == [Row(ws, a, b)]
  {
    var row := Row(ws, a, b);
    var pieces: seq<seq<string>> :| LinesBecome(Lines(row), maximum, pieces) && again == Flatten(pieces);
    RowIsOneLine(ws, a, b);
    RowAsALine(ws, a, b, maximum);
    assert LineBecomes(Lines(row)[0], maximum, pieces[0]);
    LineThatFits(row, maximum, pieces[0]);
    assert pieces[..0] == [] && Flatten([]) == [];
    assert Flatten(pieces) == [] + pieces[0];
  }

  lemma {:induction false} NothingFromNothing(maximum: nat, again: seq<string>)
    requires TextBecomes("", maximum, again)
    ensures again == []
  {
  }

  /** Wrapping a row again gives that row back, unless it is the empty row of a blank line, which
      has no lines and so gives no rows. */
  lemma {:induction false} RewrappingARow(line: string, maximum: nat, rows: seq<string>, i: nat,
                                          again: seq<string>)
    requires LineBecomes(line, maximum, rows) && i < |rows|
    requires maximum > 0 && TextBecomes(rows[i], maximum, again)
    ensures again == if Blank(line) then [] else [rows[i]]
  {
    if Blank(line) {
      NothingFromNothing(maximum, again);
    } else {
      var a, b := OriginOfRow(Words(line), maximum, rows, i);
      WordsAreWords(line);
      RowAgain(Words(line), a, b, maximum, again);
    }
  }
}
