/** `strtok_r`: destructive tokenising, one call at a time. */
module Tokenizer {
  import opened Options
  import opened Numerals
  import opened Sequences

  /** `is_delimiter`.  Like `strchr` it also finds the terminating NUL of the set. */
  predicate IsDelimiter(c: char, delimiters: CString) {
    c in delimiters || c == '\0'
  }

  /** The C string in `text` from `from` on ends at `n`. */
  predicate EndsAt(text: seq<char>, from: nat, n: nat) {
    from <= n < |text| && text[n] == '\0' && forall k :: from <= k < n ==> text[k] != '\0'
  }

  /** The first position from `c` on, `n` at the latest, where being a delimiter is `stop`. */
  function Scan(text: seq<char>, c: nat, n: nat, delimiters: CString, stop: bool): (k: nat)
    requires EndsAt(text, c, n)
    ensures c <= k <= n
    ensures forall i :: c <= i < k ==> IsDelimiter(text[i], delimiters) != stop
    ensures k < n ==> IsDelimiter(text[k], delimiters) == stop
    decreases n - c
  {
    if c == n || IsDelimiter(text[c], delimiters) == stop then c else Scan(text, c + 1, n, delimiters, stop)
  }

  /** One call: the token found, as a range, the text it leaves and the saved position. */
  datatype Call = Call(token: Option<(nat, nat)>, text: seq<char>, state: nat)

  function OneCall(text: seq<char>, cursor: nat, n: nat, delimiters: CString): (r: Call)
    requires EndsAt(text, cursor, n)
    ensures cursor <= r.state <= n && EndsAt(r.text, r.state, n) && |r.text| == |text|
    ensures r.token.Some? ==> cursor < r.state
  {
    var start := Scan(text, cursor, n, delimiters, false);
    if start == n then Call(None, text, n)
    else
      var end := Scan(text, start, n, delimiters, true);
      if end == n then Call(Some((start, end)), text, n)
      else Call(Some((start, end)), text[end := '\0'], end + 1)
  }

  method StrtokR(memory: array<char>, source: Option<nat>, delimiters: CString, state: nat, ghost n: nat)
    returns (token: Option<nat>, state': nat)
    requires EndsAt(memory[..], if source.Some? then source.value else state, n)
    modifies memory
    ensures var cursor := if source.Some? then source.value else state;
      var call := OneCall(old(memory[..]), cursor, n, delimiters);
      && memory[..] == call.text && state' == call.state
      && token == (if call.token.Some? then Some(call.token.value.0) else None)
  {
    var cursor := if source.Some? then source.value else state;
    ghost var from, text := cursor, memory[..];
    while memory[cursor] != '\0' && IsDelimiter(memory[cursor], delimiters)
      invariant from <= cursor <= n && memory[..] == text
      invariant Scan(text, from, n, delimiters, false) == Scan(text, cursor, n, delimiters, false)
      decreases n - cursor
    {
      cursor := cursor + 1;
    }
    if memory[cursor] == '\0' {
      return None, cursor;
    }
    var start := cursor;
    while memory[cursor] != '\0' && !IsDelimiter(memory[cursor], delimiters)
      invariant start <= cursor <= n && memory[..] == text
      invariant Scan(text, start, n, delimiters, true) == Scan(text, cursor, n, delimiters, true)
      decreases n - cursor
    {
      cursor := cursor + 1;
    }
    if memory[cursor] != '\0' {
      memory[cursor] := '\0';
      assert memory[..] == text[cursor := '\0'];
      cursor := cursor + 1;
    }
    token, state' := Some(start), cursor;
  }

  // --- repeated calls --------------------------------------------------------

  /** A maximal delimiter-free run of the string `s` of length `n`. */
  predicate IsRun(s: seq<char>, n: nat, delimiters: CString, i: nat, j: nat) {
    && i < j <= n <= |s|
    && (forall k :: i <= k < j ==> !IsDelimiter(s[k], delimiters))
    && (i > 0 ==> IsDelimiter(s[i - 1], delimiters))
    && (j < n ==> IsDelimiter(s[j], delimiters))
  }

  /** Calls repeated with the saved position until one finds no token. */
  function Repeated(text: seq<char>, cursor: nat, n: nat, delimiters: CString): (r: (seq<(nat, nat)>, seq<char>))
    requires EndsAt(text, cursor, n)
    ensures |r.1| == |text|
    decreases n - cursor
  {
    var call := OneCall(text, cursor, n, delimiters);
    if call.token.None? then ([], call.text)
    else
      var (tokens, left) := Repeated(call.text, call.state, n, delimiters);
      ([call.token.value] + tokens, left)
  }

  predicate InOrder(tokens: seq<(nat, nat)>) {
    forall a, b | 0 <= a < b < |tokens| :: tokens[a].1 <= tokens[b].0
  }

  /** A place where a call may resume: the start of the string or just past a delimiter. */
  predicate Resumable(s: seq<char>, cursor: nat, n: nat, delimiters: CString) {
    cursor <= n <= |s| && (cursor == 0 || cursor == n || IsDelimiter(s[cursor - 1], delimiters))
  }

  /** The first token after a resumable place is the first maximal run there. */
  lemma {:induction false} FirstRun(s: seq<char>, cursor: nat, n: nat, delimiters: CString)
    requires EndsAt(s, cursor, n) && Resumable(s, cursor, n, delimiters)
    ensures var token := OneCall(s, cursor, n, delimiters).token;
      if token.None? then forall i: nat, j: nat | cursor <= i :: !IsRun(s, n, delimiters, i, j)
      else
        && IsRun(s, n, delimiters, token.value.0, token.value.1)
        && cursor <= token.value.0
        && forall i: nat, j: nat | cursor <= i && IsRun(s, n, delimiters, i, j) ::
             (i, j) == token.value || token.value.1 < i
  {
    var start := Scan(s, cursor, n, delimiters, false);
    forall i: nat, j: nat | cursor <= i && IsRun(s, n, delimiters, i, j)
      ensures start <= i
    {
      assert !IsDelimiter(s[i], delimiters);
    }
    if start < n {
      var end := Scan(s, start, n, delimiters, true);
      forall i: nat, j: nat | cursor <= i && IsRun(s, n, delimiters, i, j)
        ensures (i, j) == (start, end) || end < i
      {
      }
    }
  }

  lemma {:induction false} ScanSame(s: seq<char>, t: seq<char>, c: nat, n: nat, delimiters: CString, stop: bool)
    requires EndsAt(s, c, n) && EndsAt(t, c, n) && |s| == |t| && forall k :: c <= k < |s| ==> t[k] == s[k]
    ensures Scan(t, c, n, delimiters, stop) == Scan(s, c, n, delimiters, stop)
    decreases n - c
  {
    if c < n {
      ScanSame(s, t, c + 1, n, delimiters, stop);
    }
  }

  /** Some token ends at `k`. */
  predicate EndsToken(tokens: seq<(nat, nat)>, k: nat) {
    exists x :: 0 <= x < |tokens| && tokens[x].1 == k
  }

  /** What repeated calls from a resumable place find and leave, where `text` is the
      original string `s` with earlier delimiters overwritten. */
  ghost predicate Tokenised(s: seq<char>, text: seq<char>, cursor: nat, n: nat, delimiters: CString,
                            tokens: seq<(nat, nat)>, left: seq<char>)
  {
    && InOrder(tokens)
    && |left| == |text| == |s|
    && (forall i: nat, j: nat :: (i, j) in tokens <==> cursor <= i && IsRun(s, n, delimiters, i, j))
    && (forall k :: 0 <= k < cursor && k < |s| ==> left[k] == text[k])
    && (forall k :: cursor <= k < |s| ==> left[k] == if k < n && EndsToken(tokens, k) then '\0' else s[k])
  }

  lemma {:induction false} RepeatedFindsRuns(s: seq<char>, text: seq<char>, cursor: nat, n: nat, delimiters: CString)
    requires EndsAt(s, 0, n) && EndsAt(text, cursor, n) && |s| == |text|
    requires forall k :: cursor <= k < |s| ==> text[k] == s[k]
    requires Resumable(s, cursor, n, delimiters)
    ensures var (tokens, left) := Repeated(text, cursor, n, delimiters);
            Tokenised(s, text, cursor, n, delimiters, tokens, left)
    decreases n - cursor
  {
    var call := OneCall(text, cursor, n, delimiters);
    CallOnRest(s, text, cursor, n, delimiters);
    if call.token.Some? {
      RepeatedFindsRuns(s, call.text, call.state, n, delimiters);
      var (rest, left) := Repeated(call.text, call.state, n, delimiters);
      OneMoreToken(s, text, cursor, n, delimiters, rest, left);
    } else {
      FirstRun(s, cursor, n, delimiters);
    }
  }

  /** Only the unread suffix decides a call, and it leaves a resumable place. */
  lemma {:induction false} CallOnRest(s: seq<char>, text: seq<char>, cursor: nat, n: nat, delimiters: CString)
    requires EndsAt(s, 0, n) && EndsAt(text, cursor, n) && |s| == |text|
    requires forall k :: cursor <= k < |s| ==> text[k] == s[k]
    ensures var call := OneCall(text, cursor, n, delimiters);
      && call.token == OneCall(s, cursor, n, delimiters).token
      && Resumable(s, call.state, n, delimiters)
      && forall k :: call.state <= k < |s| ==> call.text[k] == s[k]
  {
    ScanSame(s, text, cursor, n, delimiters, false);
    ScanSame(s, text, Scan(s, cursor, n, delimiters, false), n, delimiters, true);
  }

  lemma {:induction false} EndsOneMore(token: (nat, nat), rest: seq<(nat, nat)>, k: nat)
    ensures EndsToken([token] + rest, k) <==> token.1 == k || EndsToken(rest, k)
  {
    var tokens := [token] + rest;
    assert tokens[0] == token;
    if x :| 0 <= x < |rest| && rest[x].1 == k {
      assert tokens[x + 1].1 == k;
    }
    if x :| 0 < x < |tokens| && tokens[x].1 == k {
      assert rest[x - 1].1 == k;
    }
  }

  lemma {:induction false} RunsInOrder(token: (nat, nat), rest: seq<(nat, nat)>)
    requires InOrder(rest) && forall i: nat, j: nat :: (i, j) in rest ==> token.1 <= i
    ensures InOrder([token] + rest)
  {
    forall b | 0 <= b < |rest|
      ensures token.1 <= rest[b].0
    {
      var (i, j) := rest[b];
      assert (i, j) in rest;
    }
  }

  lemma {:induction false} LaterEnds(rest: seq<(nat, nat)>, from: nat, k: nat)
    requires forall i: nat, j: nat :: (i, j) in rest ==> from <= i < j
    ensures EndsToken(rest, k) ==> from < k
  {
    if x :| 0 <= x < |rest| && rest[x].1 == k {
      var (i, j) := rest[x];
      assert (i, j) in rest;
    }
  }

  lemma {:induction false} OneMoreToken(s: seq<char>, text: seq<char>, cursor: nat, n: nat, delimiters: CString,
                                        rest: seq<(nat, nat)>, left: seq<char>)
    requires EndsAt(s, 0, n) && EndsAt(text, cursor, n) && |s| == |text|
    requires forall k :: cursor <= k < |s| ==> text[k] == s[k]
    requires Resumable(s, cursor, n, delimiters)
    requires var call := OneCall(text, cursor, n, delimiters);
      && call.token == OneCall(s, cursor, n, delimiters).token && call.token.Some?
      && Tokenised(s, call.text, call.state, n, delimiters, rest, left)
    ensures var token := OneCall(text, cursor, n, delimiters).token.value;
            Tokenised(s, text, cursor, n, delimiters, [token] + rest, left)
  {
    FirstRun(s, cursor, n, delimiters);
    var call := OneCall(text, cursor, n, delimiters);
    var token, tokens := call.token.value, [call.token.value] + rest;
    forall i: nat, j: nat
      ensures (i, j) in tokens <==> cursor <= i && IsRun(s, n, delimiters, i, j)
    {
      assert (i, j) in tokens <==> (i, j) == token || (i, j) in rest;
    }
    RunsInOrder(token, rest);
    forall k: nat | cursor <= k < |s|
      ensures left[k] == if k < n && EndsToken(tokens, k) then '\0' else s[k]
    {
      EndsOneMore(token, rest, k);
      LaterEnds(rest, call.state, k);
    }
  }

  /** Main result.  Repeated calls return, in order, exactly the maximal delimiter-free
      runs of the original string; they change only the delimiter after each run, to NUL. */
  lemma {:induction false} RepeatedCallsTokenise(s: seq<char>, n: nat, delimiters: CString)
    requires EndsAt(s, 0, n)
    ensures var (tokens, left) := Repeated(s, 0, n, delimiters);
      && InOrder(tokens)
      && (forall i: nat, j: nat :: (i, j) in tokens <==> IsRun(s, n, delimiters, i, j))
      && |left| == |s|
      && (forall k :: 0 <= k < |s| ==> left[k] == if k < n && EndsToken(tokens, k) then '\0' else s[k])
  {
    RepeatedFindsRuns(s, s, 0, n, delimiters);
  }

  /** Once a call has found no token, every later call finds none and changes nothing. */
  lemma {:induction false} NoTokenForEver(text: seq<char>, cursor: nat, n: nat, delimiters: CString, later: CString)
    requires EndsAt(text, cursor, n) && OneCall(text, cursor, n, delimiters).token == None
    ensures var call := OneCall(text, cursor, n, delimiters);
      call.text == text && OneCall(call.text, call.state, n, later) == call
  {
  }

  /** Where the tokens begin. */
  function Starts(tokens: seq<(nat, nat)>): seq<nat> {
    seq(|tokens|, i requires 0 <= i < |tokens| => tokens[i].0)
  }

  /** Of all the runs in `s`, `runs` have been found, and the calls that are still to come on
      `text` from `cursor` on find the rest. */
  predicate Underway(s: seq<char>, n: nat, delimiters: CString, runs: seq<(nat, nat)>, text: seq<char>, cursor: nat) {
    && EndsAt(s, 0, n) && EndsAt(text, cursor, n) && |text| == |s|
    && Repeated(s, 0, n, delimiters).0 == runs + Repeated(text, cursor, n, delimiters).0
    && Repeated(s, 0, n, delimiters).1 == Repeated(text, cursor, n, delimiters).1
  }

  /** One call more. */
  lemma {:induction false} CallsGoOn(s: seq<char>, n: nat, delimiters: CString, runs: seq<(nat, nat)>,
                                     text: seq<char>, cursor: nat)
    requires Underway(s, n, delimiters, runs, text, cursor)
    ensures var call := OneCall(text, cursor, n, delimiters);
      if call.token.None? then runs == Repeated(s, 0, n, delimiters).0 && call.text == Repeated(s, 0, n, delimiters).1
      else Underway(s, n, delimiters, runs + [call.token.value], call.text, call.state)
  {
    var call := OneCall(text, cursor, n, delimiters);
    if call.token.Some? {
      var (rest, _) := Repeated(call.text, call.state, n, delimiters);
      Regroup(runs, [call.token.value], rest);
    }
  }

  /** What `RepeatedCallsTokenise` promises. */
  predicate TokenisedAll(s: seq<char>, n: nat, delimiters: CString, runs: seq<(nat, nat)>, left: seq<char>) {
    && InOrder(runs) && |left| == |s|
    && forall k :: 0 <= k < |s| ==> left[k] == if k < n && EndsToken(runs, k) then '\0' else s[k]
  }

  /** The loop in which `strtok_r` is meant to be called: the string first, then NULL until
      no token is left.  It finds exactly the maximal delimiter-free runs, in order, and
      changes only the delimiter after each, to NUL. */
  method Tokenise(memory: array<char>, delimiters: CString, ghost n: nat)
    returns (tokens: seq<nat>, ghost runs: seq<(nat, nat)>)
    requires EndsAt(memory[..], 0, n)
    modifies memory
    ensures tokens == Starts(runs) && TokenisedAll(old(memory[..]), n, delimiters, runs, memory[..])
    ensures forall i: nat, j: nat :: (i, j) in runs <==> IsRun(old(memory[..]), n, delimiters, i, j)
  {
    ghost var s := memory[..];
    tokens, runs := CallRepeatedly(memory, delimiters, n);
    RepeatedCallsTokenise(s, n, delimiters);
  }

  method CallRepeatedly(memory: array<char>, delimiters: CString, ghost n: nat)
    returns (tokens: seq<nat>, ghost runs: seq<(nat, nat)>)
    requires EndsAt(memory[..], 0, n)
    modifies memory
    ensures tokens == Starts(runs) && (runs, memory[..]) == Repeated(old(memory[..]), 0, n, delimiters)
  {
    ghost var s, cursor := memory[..], 0;
    var source, state := Some(0), 0;
    tokens, runs := [], [];
    while true
      invariant cursor == (if source.Some? then source.value else state)
      invariant Underway(s, n, delimiters, runs, memory[..], cursor) && tokens == Starts(runs)
      decreases n - cursor
    {
      CallsGoOn(s, n, delimiters, runs, memory[..], cursor);
      ghost var call := OneCall(memory[..], cursor, n, delimiters);
      var token;
      token, state := StrtokR(memory, source, delimiters, state, n);
      if token.None? {
        return;
      }
      tokens, runs := tokens + [token.value], runs + [call.token.value];
      source, cursor := None, state;
    }
  }
}
