/** The tokenizer (`lsh_split_line`): `strtok` over the line with the
    delimiter set LSH_TOK_DELIM, each token recorded in a NULL-terminated
    table that starts at 64 entries and grows by 64 at a time. */
module Tokenizer {
  import opened CStrings

  /** LSH_TOK_BUFSIZE: the initial size of the token table and its growth step. */
  const TokBufSize: nat := 64

  /** Membership in LSH_TOK_DELIM: space, tab, carriage return, line feed and bell. */
  predicate IsDelim(c: char) {
    c == ' ' || c == '\t' || c == '\r' || c == '\n' || c == '\U{7}'
  }

  /** A token: non-empty and free of delimiters. */
  predicate IsWord(w: seq<char>) {
    w != [] && forall k | 0 <= k < |w| :: !IsDelim(w[k])
  }

  /** The length of the run of non-delimiters at the start of `s`. */
  function RunLength(s: seq<char>): (k: nat)
    ensures k <= |s|
    ensures forall i | 0 <= i < k :: !IsDelim(s[i])
    ensures k < |s| ==> IsDelim(s[k])
  {
    if s == [] || IsDelim(s[0]) then 0 else 1 + RunLength(s[1..])
  }

  /** Reference definition of the tokens of a line: its maximal runs of
      non-delimiters, left to right. */
  function Split(s: seq<char>): seq<seq<char>>
    decreases |s|
  {
    if s == [] then []
    else if IsDelim(s[0]) then Split(s[1..])
    else
      var k := RunLength(s);
      [s[..k]] + Split(s[k..])
  }

  // ---------------------------------------------------------------------
  // Properties of Split

  /** No token is empty or contains a delimiter. */
  lemma {:induction false} SplitYieldsWords(s: seq<char>)
    ensures forall i | 0 <= i < |Split(s)| :: IsWord(Split(s)[i])
    decreases |s|
  {
    if s == [] {
    } else if IsDelim(s[0]) {
      SplitYieldsWords(s[1..]);
    } else {
      SplitYieldsWords(s[RunLength(s)..]);
    }
  }

  /** A delimiter separates: what lies on either side is split on its own. */
  lemma {:induction false} SplitAppend(a: seq<char>, d: char, b: seq<char>)
    requires IsDelim(d)
    ensures Split(a + [d] + b) == Split(a) + Split(b)
    decreases |a|
  {
    var s := a + [d] + b;
    if a == [] {
      assert s[1..] == b;
    } else if IsDelim(a[0]) {
      assert s[1..] == a[1..] + [d] + b;
      SplitAppend(a[1..], d, b);
    } else {
      var k := RunLength(a);
      RunLengthAppend(a, d, b);
      assert s[..k] == a[..k];
      assert s[k..] == a[k..] + [d] + b;
      SplitAppend(a[k..], d, b);
    }
  }

  lemma {:induction false} RunLengthAppend(a: seq<char>, d: char, b: seq<char>)
    requires IsDelim(d)
    ensures RunLength(a + [d] + b) == RunLength(a)
    decreases |a|
  {
    if a != [] && !IsDelim(a[0]) {
      assert (a + [d] + b)[1..] == a[1..] + [d] + b;
      RunLengthAppend(a[1..], d, b);
    }
  }

  /** A line has no tokens exactly when it is empty or all delimiters. */
  lemma {:induction false} SplitEmptyIffAllDelims(s: seq<char>)
    ensures Split(s) == [] <==> forall k | 0 <= k < |s| :: IsDelim(s[k])
    decreases |s|
  {
    if s != [] && IsDelim(s[0]) {
      SplitEmptyIffAllDelims(s[1..]);
      assert forall k | 1 <= k < |s| :: s[k] == s[1..][k - 1];
    }
  }

  /** The characters that are not delimiters, in order. */
  function NonDelims(s: seq<char>): (r: seq<char>)
    ensures |r| <= |s|
  {
    if s == [] then [] else (if IsDelim(s[0]) then [] else [s[0]]) + NonDelims(s[1..])
  }

  function Concat(ts: seq<seq<char>>): seq<char> {
    if ts == [] then [] else ts[0] + Concat(ts[1..])
  }

  /** Nothing but the delimiters is lost: the tokens, put end to end, are the
      line's non-delimiter characters in order. */
  lemma {:induction false} SplitKeepsNonDelims(s: seq<char>)
    ensures Concat(Split(s)) == NonDelims(s)
    decreases |s|
  {
    if s == [] {
    } else if IsDelim(s[0]) {
      SplitKeepsNonDelims(s[1..]);
    } else {
      var k := RunLength(s);
      SplitKeepsNonDelims(s[k..]);
      NonDelimsOfRun(s, k);
      assert Split(s)[1..] == Split(s[k..]);
    }
  }

  lemma {:induction false} NonDelimsOfRun(s: seq<char>, k: nat)
    requires k <= |s| && forall i | 0 <= i < k :: !IsDelim(s[i])
    ensures NonDelims(s) == s[..k] + NonDelims(s[k..])
    decreases k
  {
    if k > 0 {
      NonDelimsOfRun(s[1..], k - 1);
      assert s[1..][k - 1..] == s[k..];
      assert s[..k] == [s[0]] + s[1..][..k - 1];
    }
  }

  /** Tokens joined by single spaces. */
  function Unwords(ts: seq<seq<char>>): seq<char> {
    if ts == [] then [] else if |ts| == 1 then ts[0] else ts[0] + [' '] + Unwords(ts[1..])
  }

  /** Round trip: splitting tokens joined by spaces gives the tokens back. */
  lemma {:induction false} SplitUnwords(ts: seq<seq<char>>)
    requires forall i | 0 <= i < |ts| :: IsWord(ts[i])
    ensures Split(Unwords(ts)) == ts
    decreases |ts|
  {
    if ts == [] {
    } else if |ts| == 1 {
      SplitWord(ts[0]);
    } else {
      SplitAppend(ts[0], ' ', Unwords(ts[1..]));
      SplitWord(ts[0]);
      SplitUnwords(ts[1..]);
    }
  }

  /** A single token splits to itself. */
  lemma SplitWord(w: seq<char>)
    requires IsWord(w)
    ensures Split(w) == [w]
  {
    assert RunLength(w) == |w|;
    assert w[..|w|] == w && w[|w|..] == [];
    assert Split(w) == [w] + Split([]);
  }

  /** Delimiters at the start produce nothing. */
  lemma {:induction false} SplitLeadingDelims(ds: seq<char>, b: seq<char>)
    requires forall k | 0 <= k < |ds| :: IsDelim(ds[k])
    ensures Split(ds + b) == Split(b)
    decreases |ds|
  {
    if ds != [] {
      assert (ds + b)[0] == ds[0] && (ds + b)[1..] == ds[1..] + b;
      SplitLeadingDelims(ds[1..], b);
    } else {
      assert ds + b == b;
    }
  }

  /** A run of delimiters of any length separates like a single one, so
      repeated and trailing delimiters produce nothing either. */
  lemma SplitAcrossDelims(a: seq<char>, ds: seq<char>, b: seq<char>)
    requires ds != [] && forall k | 0 <= k < |ds| :: IsDelim(ds[k])
    ensures Split(a + ds + b) == Split(a) + Split(b)
  {
    assert a + ds + b == a + [ds[0]] + (ds[1..] + b);
    SplitAppend(a, ds[0], ds[1..] + b);
    SplitLeadingDelims(ds[1..], b);
  }

  // ---------------------------------------------------------------------
  // strtok, as section 7.24.5.8 of ISO C11 describes it

  /** The first index at or after `i` that does not hold a delimiter. */
  function SkipDelims(a: seq<char>, i: nat): (j: nat)
    requires i <= |a|
    ensures i <= j <= |a|
    ensures j < |a| ==> !IsDelim(a[j])
    decreases |a| - i
  {
    if i == |a| || !IsDelim(a[i]) then i else SkipDelims(a, i + 1)
  }

  /** Everything `SkipDelims` passes over is a delimiter. */
  lemma {:induction false} SkipDelimsSkips(a: seq<char>, i: nat)
    requires i <= |a|
    ensures forall k | i <= k < SkipDelims(a, i) :: IsDelim(a[k])
    decreases |a| - i
  {
    if i < |a| && IsDelim(a[i]) {
      SkipDelimsSkips(a, i + 1);
    }
  }

  /** The first index at or after `j` that holds a delimiter or the NUL. */
  function TokenEnd(a: seq<char>, j: nat): (e: nat)
    requires j <= |a|
    ensures j <= e <= |a|
    ensures e < |a| ==> IsDelim(a[e]) || a[e] == Nul
    decreases |a| - j
  {
    if j == |a| || IsDelim(a[j]) || a[j] == Nul then j else TokenEnd(a, j + 1)
  }

  /** Everything `TokenEnd` passes over belongs to the token. */
  lemma {:induction false} TokenEndRun(a: seq<char>, j: nat)
    requires j <= |a|
    ensures forall k | j <= k < TokenEnd(a, j) :: !IsDelim(a[k]) && a[k] != Nul
    decreases |a| - j
  {
    if j < |a| && !IsDelim(a[j]) && a[j] != Nul {
      TokenEndRun(a, j + 1);
    }
  }

  /** An entry of the token table: a pointer into the line, or NULL. */
  datatype Entry = Null | Ptr(at: nat)

  /** Delimiters before the first token contribute nothing. */
  lemma {:induction false} SplitSkipsDelims(a: seq<char>, i: nat, j: nat, n: nat)
    requires i <= j <= n <= |a|
    requires forall k | i <= k < j :: IsDelim(a[k])
    ensures Split(a[i..n]) == Split(a[j..n])
    decreases j - i
  {
    if i < j {
      assert a[i..n][1..] == a[i + 1..n];
      SplitSkipsDelims(a, i + 1, j, n);
    }
  }

  /** One `strtok` step yields the first token of what is left of the line,
      and what it leaves behind splits into the remaining tokens. */
  lemma {:induction false} StrTokStep(a: seq<char>, i: nat, n: nat)
    requires i <= n < |a| && a[n] == Nul
    requires forall k | i <= k < n :: a[k] != Nul
    ensures SkipDelims(a, i) <= n
    ensures SkipDelims(a, i) == n ==> Split(a[i..n]) == []
    ensures SkipDelims(a, i) < n ==>
              var j := SkipDelims(a, i);
              var e := TokenEnd(a, j);
              j < e <= n && Split(a[i..n]) == [a[j..e]] + Split(a[(if e < n then e + 1 else e)..n])
  {
    var j := SkipDelims(a, i);
    SkipDelimsSkips(a, i);
    assert !IsDelim(a[n]);
    assert j <= n;
    SplitSkipsDelims(a, i, j, n);
    if j < n {
      var e := TokenEnd(a, j);
      TokenEndRun(a, j);
      assert e <= n;
      var s := a[j..n];
      RunLengthIs(s, e - j);
      assert s[..e - j] == a[j..e];
      assert s[e - j..] == a[e..n];
      if e < n {
        assert a[e..n][1..] == a[e + 1..n];
      }
    }
  }

  /** The run at the start of `s` ends at the first delimiter. */
  lemma RunLengthIs(s: seq<char>, k: nat)
    requires k <= |s| && forall i | 0 <= i < k :: !IsDelim(s[i])
    requires k < |s| ==> IsDelim(s[k])
    ensures RunLength(s) == k
  {
  }

  /** One call of `strtok` on the buffer `a` with saved position `save`:
      the token found (or NULL), the new saved position and the buffer
      afterwards. Delimiters are skipped; at the NUL there is no token and
      nothing changes; otherwise the token runs up to the next delimiter or
      NUL, a delimiter there is overwritten with a NUL and the saved
      position moves past it, while a NUL there stays and becomes the saved
      position. */
  function StrTokCall(a: seq<char>, save: nat): (r: (Entry, nat, seq<char>))
    requires save <= |a|
    ensures save <= r.1 <= |a| && |r.2| == |a|
    ensures r.0.Ptr? ==> save <= r.0.at < r.1
    ensures r.0 == Null ==> r.2 == a
    decreases |a| - save
  {
    if save < |a| && IsDelim(a[save]) then StrTokCall(a, save + 1)
    else if save == |a| || a[save] == Nul then (Null, save, a)
    else
      var e := TokenEnd(a, save);
      if e < |a| && a[e] != Nul then (Ptr(save), e + 1, a[e := Nul])
      else (Ptr(save), e, a)
  }

  /** The same call, described by where the token starts and ends, for a
      buffer whose first NUL from `save` on is at `n`. */
  ghost predicate StrTokDone(a: seq<char>, save: nat, n: nat, token: Entry, next: nat, after: seq<char>) {
    save <= n < |a|
    && var j := SkipDelims(a, save);
    j <= n
    && (j == n ==> token == Null && next == n && after == a)
    && (j < n ==>
          var e := TokenEnd(a, j);
          j < e <= n && token == Ptr(j) && next == (if e < n then e + 1 else n) && after == a[e := Nul])
  }

  lemma {:induction false} StrTokCallDone(a: seq<char>, save: nat, n: nat)
    requires save <= n < |a| && a[n] == Nul
    requires forall k | save <= k < n :: a[k] != Nul
    ensures var r := StrTokCall(a, save); StrTokDone(a, save, n, r.0, r.1, r.2)
    decreases n - save
  {
    if IsDelim(a[save]) {
      StrTokCallDone(a, save + 1, n);
    } else if save < n {
      var e := TokenEnd(a, save);
      TokenEndRun(a, save);
      assert e <= n;
      if e == n {
        assert a[e := Nul] == a;
      }
    }
  }

  /** `strtok(line, LSH_TOK_DELIM)` when `save == 0`, and `strtok(NULL, ...)`
      afterwards, `save` being strtok's saved position. */
  method StrTok(line: array<char>, save: nat) returns (token: Entry, next: nat)
    requires save <= line.Length
    modifies line
    ensures (token, next, line[..]) == StrTokCall(old(line[..]), save)
  {
    var j := save;
    while j < line.Length && IsDelim(line[j])
      invariant save <= j <= line.Length
      invariant StrTokCall(line[..], j) == StrTokCall(line[..], save)
    {
      j := j + 1;
    }
    if j == line.Length || line[j] == Nul {
      return Null, j;
    }
    var e := j;
    while e < line.Length && !IsDelim(line[e]) && line[e] != Nul
      invariant j <= e <= line.Length
      invariant TokenEnd(line[..], e) == TokenEnd(line[..], j)
    {
      e := e + 1;
    }
    token := Ptr(j);
    if e < line.Length && line[e] != Nul {
      line[e] := Nul;
      next := e + 1;
    } else {
      next := e;
    }
  }

  /** The strtok loop of `lsh_split_line` run to the end from buffer `a` and
      saved position `save`: the tokens it returns, in order, and the buffer
      it leaves. */
  function Tokenize(a: seq<char>, save: nat): (r: (seq<Entry>, seq<char>))
    requires save <= |a|
    ensures |r.1| == |a|
    decreases |a| - save, 1
  {
    var c := StrTokCall(a, save);
    Pending(c.0, c.2, c.1)
  }

  /** What is still to come when strtok last returned `token` and left
      buffer `a` and saved position `save`: nothing after NULL, otherwise
      that token and the rest of the loop. */
  function Pending(token: Entry, a: seq<char>, save: nat): (r: (seq<Entry>, seq<char>))
    requires save <= |a|
    requires token.Ptr? ==> token.at < save
    ensures |r.1| == |a|
    decreases |a| - save + (if token.Ptr? then 1 else 0), 0
  {
    if token == Null then ([], a)
    else
      var rest := Tokenize(a, save);
      ([token] + rest.0, rest.1)
  }

  // ---------------------------------------------------------------------
  // The token table

  /** What a table entry points at, read as a C string. */
  function Deref(line: seq<char>, at: nat): seq<char> {
    if at < |line| then CStr(line[at..]) else []
  }

  /** The argument vector a NULL-terminated table denotes: the C strings its
      entries point at, up to the first NULL. */
  function Argv(line: seq<char>, table: seq<Entry>): seq<seq<char>> {
    if table == [] || table[0] == Null then [] else [Deref(line, table[0].at)] + Argv(line, table[1..])
  }

  /** `lsh_split_line`: splits a NUL-terminated line in place and returns a
      table whose first `count` entries point at the tokens, followed by NULL. */
  method SplitLine(line: array<char>) returns (tokens: array<Entry>, ghost count: nat)
    requires Nul in line[..]
    modifies line
    ensures fresh(tokens) && tokens.Length > 0 && tokens.Length % TokBufSize == 0
    ensures count < tokens.Length && tokens[count] == Null
    ensures Tokenize(old(line[..]), 0) == (tokens[..count], line[..])
  {
    ghost var orig := line[..];
    var bufsize := TokBufSize;
    var position := 0;
    tokens := new Entry[bufsize];
    var token, save := StrTok(line, 0);
    ghost var total := Tokenize(orig, 0);
    assert [] + Pending(token, line[..], save).0 == Pending(token, line[..], save).0;
    while token != Null
      invariant fresh(tokens) && tokens.Length == bufsize
      invariant bufsize > 0 && bufsize % TokBufSize == 0 && position < bufsize
      invariant save <= line.Length && (token.Ptr? ==> token.at < save)
      invariant var p := Pending(token, line[..], save); total == (tokens[..position] + p.0, p.1)
      decreases line.Length - save + (if token.Ptr? then 1 else 0)
    {
      ghost var found, tok, before, save0 := tokens[..position], token, line[..], save;
      tokens, bufsize := Push(tokens, position, bufsize, token);
      position := position + 1;
      token, save := StrTok(line, save);
      ghost var p := Pending(token, line[..], save);
      assert Pending(tok, before, save0) == ([tok] + p.0, p.1);
      assert found + [tok] + p.0 == found + ([tok] + p.0);
    }
    ghost var found := tokens[..position];
    assert total == (found + [], line[..]);
    assert found + [] == found;
    tokens[position] := Null;
    count := position;
    assert tokens[..count] == found;
  }

  /** One round of the table loop: `token` goes in at `position`; when
      `position` then reaches `bufsize`, the table grows by LSH_TOK_BUFSIZE. */
  method Push(tokens: array<Entry>, position: nat, bufsize: nat, token: Entry) returns (grown: array<Entry>, newsize: nat)
    requires bufsize == tokens.Length && position < bufsize && bufsize % TokBufSize == 0
    modifies tokens
    ensures grown == tokens || fresh(grown)
    ensures newsize == grown.Length && newsize % TokBufSize == 0 && position + 1 < newsize
    ensures newsize == if position + 1 >= bufsize then bufsize + TokBufSize else bufsize
    ensures grown[..position + 1] == old(tokens[..position]) + [token]
  {
    tokens[position] := token;
    grown, newsize := tokens, bufsize;
    if position + 1 >= bufsize {
      newsize := bufsize + TokBufSize;
      grown := Realloc(tokens, newsize);
    }
    assert grown[..position + 1] == tokens[..position + 1];
  }

  // ---------------------------------------------------------------------
  // The invariant of the strtok loop, over the buffer `line` as strtok has
  // left it, the original line `orig` whose first NUL is at `n`, its tokens
  // `words`, the entries `found` so far and strtok's saved position `save`

  /** The line ends at `n`: a NUL there and none before. */
  ghost predicate EndsAt(orig: seq<char>, n: nat) {
    n < |orig| && orig[n] == Nul && Nul !in orig[..n]
  }

  /** strtok has changed nothing from its saved position on, and before it
      has only turned delimiters into NULs. */
  ghost predicate Untouched(line: seq<char>, orig: seq<char>, save: nat, n: nat) {
    save <= n < |orig| && Overwritten(line, orig) && line[save..] == orig[save..]
  }

  /** The entries found so far, then the tokens of the rest of the line,
      account for all the tokens. */
  ghost predicate Counted(orig: seq<char>, words: seq<seq<char>>, found: seq<Entry>, save: nat, n: nat) {
    save <= n < |orig| && |found| <= |words| && words[|found|..] == Split(orig[save..n])
  }

  /** Every entry found points at its token, NUL-terminated in place. */
  ghost predicate AllPlaced(line: seq<char>, orig: seq<char>, words: seq<seq<char>>, found: seq<Entry>, save: nat, n: nat) {
    |found| <= |words| && forall i | 0 <= i < |found| :: found[i].Ptr? && Placed(line, orig, found[i].at, words[i], save, n)
  }

  /** Before the first strtok call nothing is found and the whole line is ahead. */
  lemma SettledAtStart(orig: seq<char>, words: seq<seq<char>>, n: nat)
    requires n == StrLen(orig) < |orig| && words == Split(orig[..n])
    ensures EndsAt(orig, n) && Untouched(orig, orig, 0, n)
    ensures Counted(orig, words, [], 0, n) && AllPlaced(orig, orig, words, [], 0, n)
  {
    assert orig[0..] == orig && orig[0..n] == orig[..n];
  }

  /** One strtok call keeps the invariant, with the token it finds (if any)
      added to those found; when it finds none, all tokens have been found
      and the saved position is at the NUL. */
  lemma SettledStep(before: seq<char>, after: seq<char>, orig: seq<char>, words: seq<seq<char>>, found: seq<Entry>,
                    save0: nat, token: Entry, save: nat, n: nat)
    requires EndsAt(orig, n) && Untouched(before, orig, save0, n)
    requires Counted(orig, words, found, save0, n) && AllPlaced(before, orig, words, found, save0, n)
    requires (token, save, after) == StrTokCall(before, save0)
    ensures Untouched(after, orig, save, n)
    ensures Counted(orig, words, found + if token.Ptr? then [token] else [], save, n)
    ensures AllPlaced(after, orig, words, found + if token.Ptr? then [token] else [], save, n)
    ensures token == Null ==> |found| == |words| && save == n
  {
    SuffixAgrees(before, orig, save0, n);
    StrTokCallDone(before, save0, n);
    UntouchedStep(before, after, orig, save0, token, save, n);
    CountedStep(before, after, orig, words, found, save0, token, save, n);
    PlacedStep(before, after, orig, words, found, save0, token, save, n);
  }

  /** strtok's write keeps the buffer agreeing with the line past the new
      saved position. */
  lemma UntouchedStep(before: seq<char>, after: seq<char>, orig: seq<char>, save0: nat, token: Entry, save: nat, n: nat)
    requires Untouched(before, orig, save0, n) && StrTokDone(before, save0, n, token, save, after)
    requires before[n] == Nul && forall k | save0 <= k < n :: before[k] != Nul
    ensures Untouched(after, orig, save, n)
  {
    if token.Ptr? {
      var e := TokenEnd(before, token.at);
      assert orig[e] == before[save0..][e - save0];
      assert e < n ==> before[e] != Nul && IsDelim(before[e]);
      OverwriteDelim(before, orig, e, save0, save, n);
    } else {
      SliceAgrees(before, orig, save0, n, |orig|);
      assert before[n..] == before[n..|orig|] && orig[n..] == orig[n..|orig|];
    }
  }

  /** The token strtok returns is the next of the line's tokens. */
  lemma CountedStep(before: seq<char>, after: seq<char>, orig: seq<char>, words: seq<seq<char>>, found: seq<Entry>,
                    save0: nat, token: Entry, save: nat, n: nat)
    requires Untouched(before, orig, save0, n) && Counted(orig, words, found, save0, n)
    requires StrTokDone(before, save0, n, token, save, after)
    requires before[n] == Nul && forall k | save0 <= k < n :: before[k] != Nul
    ensures Counted(orig, words, found + if token.Ptr? then [token] else [], save, n)
    ensures token.Ptr? ==> |found| < |words| && words[|found|] == orig[token.at..TokenEnd(before, token.at)]
    ensures token == Null ==> |found| == |words|
  {
    StrTokStep(before, save0, n);
    SliceAgrees(before, orig, save0, save0, n);
    if token.Ptr? {
      var j := token.at;
      var e := TokenEnd(before, j);
      SliceAgrees(before, orig, save0, j, e);
      SliceAgrees(before, orig, save0, save, n);
      assert words[|found|..] == [orig[j..e]] + Split(orig[save..n]);
      assert words[|found|..][1..] == words[|found| + 1..];
      assert |found + [token]| == |found| + 1;
    } else {
      assert orig[n..n] == [];
      assert found + [] == found;
    }
  }

  /** The token strtok returns is NUL-terminated in place, and those found
      before stay so. */
  lemma PlacedStep(before: seq<char>, after: seq<char>, orig: seq<char>, words: seq<seq<char>>, found: seq<Entry>,
                   save0: nat, token: Entry, save: nat, n: nat)
    requires Untouched(before, orig, save0, n) && AllPlaced(before, orig, words, found, save0, n)
    requires StrTokDone(before, save0, n, token, save, after) && before[n] == Nul
    requires token.Ptr? ==> |found| < |words| && words[|found|] == orig[token.at..TokenEnd(before, token.at)]
    ensures AllPlaced(after, orig, words, found + if token.Ptr? then [token] else [], save, n)
  {
    if token.Ptr? {
      var e := TokenEnd(before, token.at);
      forall i | 0 <= i < |found|
        ensures Placed(after, orig, found[i].at, words[i], save, n)
      {
        PlacedKept(before, orig, found[i].at, words[i], save0, save, n, e);
      }
      assert Placed(after, orig, token.at, words[|found|], save, n);
    } else {
      assert found + [] == found;
    }
  }

  /** Past strtok's saved position the buffer still holds the original line. */
  lemma SuffixAgrees(line: seq<char>, orig: seq<char>, save: nat, n: nat)
    requires save <= n < |orig| && |line| == |orig| && line[save..] == orig[save..]
    requires orig[n] == Nul && Nul !in orig[..n]
    ensures line[n] == Nul && forall k | save <= k < n :: line[k] != Nul
  {
    assert line[n] == line[save..][n - save];
    forall k | save <= k < n
      ensures line[k] != Nul
    {
      assert line[k] == line[save..][k - save] && orig[k] == orig[..n][k];
    }
  }

  /** Any slice past the saved position reads the same in both. */
  lemma SliceAgrees(line: seq<char>, orig: seq<char>, save: nat, i: nat, j: nat)
    requires save <= i <= j <= |orig| == |line| && line[save..] == orig[save..]
    ensures line[i..j] == orig[i..j]
  {
    forall k | i <= k < j
      ensures line[k] == orig[k]
    {
      assert line[k] == line[save..][k - save];
    }
  }

  /** The split line differs from the original only where a delimiter was
      overwritten with a NUL. */
  ghost predicate Overwritten(line: seq<char>, orig: seq<char>) {
    |line| == |orig| && forall k | 0 <= k < |line| :: line[k] == orig[k] || (IsDelim(orig[k]) && line[k] == Nul)
  }

  /** Token `w` of the original line starts at `at` and is NUL-terminated in
      the split line, at or before strtok's saved position. */
  ghost predicate Placed(line: seq<char>, orig: seq<char>, at: nat, w: seq<char>, save: nat, n: nat) {
    var e := at + |w|;
    e <= n < |orig| == |line| && orig[at..e] == w && line[e] == Nul && (e < save || e == n)
  }

  /** strtok's write: a delimiter past the saved position becomes a NUL. */
  lemma OverwriteDelim(line: seq<char>, orig: seq<char>, e: nat, save0: nat, save: nat, n: nat)
    requires save0 <= e <= n < |line| && save == (if e < n then e + 1 else n)
    requires Overwritten(line, orig) && line[save0..] == orig[save0..]
    requires (e < n ==> IsDelim(orig[e])) && (e == n ==> line[e] == Nul)
    ensures Overwritten(line[e := Nul], orig)
    ensures line[e := Nul][save..] == orig[save..]
  {
    forall k | save <= k < |line|
      ensures line[e := Nul][k] == orig[k]
    {
      assert line[k] == line[save0..][k - save0];
    }
  }

  /** A token already placed stays placed when strtok writes past it. */
  lemma PlacedKept(line: seq<char>, orig: seq<char>, at: nat, w: seq<char>, save0: nat, save: nat, n: nat, e: nat)
    requires Placed(line, orig, at, w, save0, n) && save0 <= e < |line| && save0 <= save
    requires e == n ==> line[e] == Nul
    ensures Placed(line[e := Nul], orig, at, w, save, n)
  {
  }

  /** From any point of the loop on, the invariant holds to the end, where
      every token has been found. */
  lemma {:induction false} TokenizeSettled(line: seq<char>, orig: seq<char>, words: seq<seq<char>>, found: seq<Entry>,
                                           save: nat, n: nat)
    requires EndsAt(orig, n) && Untouched(line, orig, save, n)
    requires Counted(orig, words, found, save, n) && AllPlaced(line, orig, words, found, save, n)
    ensures var r := Tokenize(line, save);
            Overwritten(r.1, orig) && AllPlaced(r.1, orig, words, found + r.0, n, n) && |found| + |r.0| == |words|
    decreases |line| - save
  {
    var c := StrTokCall(line, save);
    SettledStep(line, c.2, orig, words, found, save, c.0, c.1, n);
    if c.0 != Null {
      TokenizeSettled(c.2, orig, words, found + [c.0], c.1, n);
      var rest := Tokenize(c.2, c.1);
      assert found + [c.0] + rest.0 == found + ([c.0] + rest.0);
    } else {
      assert found + [] == found;
    }
  }

  /** The strtok loop finds exactly the tokens of the line (the part before
      its first NUL): a table holding the entries it returns, then NULL,
      reads back as those tokens in the buffer it leaves, which differs from
      the line only where a delimiter became a NUL. */
  lemma TokenizeSplits(orig: seq<char>, line: seq<char>, table: seq<Entry>, count: nat)
    requires Nul in orig && count <= |table| && Tokenize(orig, 0) == (table[..count], line)
    requires count < |table| && table[count] == Null
    ensures count == |Split(CStr(orig))| && Argv(line, table) == Split(CStr(orig)) && Overwritten(line, orig)
    ensures forall i | 0 <= i < count :: table[i].Ptr?
  {
    var n := StrLen(orig);
    var words := Split(orig[..n]);
    assert CStr(orig) == orig[..n];
    SettledAtStart(orig, words, n);
    TokenizeSettled(orig, orig, words, [], 0, n);
    var r := Tokenize(orig, 0);
    assert [] + r.0 == r.0;
    SettledSpells(line, orig, words, r.0, table, n);
  }

  /** Once every token is found, the NULL-terminated table spells them. */
  lemma SettledSpells(line: seq<char>, orig: seq<char>, words: seq<seq<char>>, found: seq<Entry>, table: seq<Entry>, n: nat)
    requires EndsAt(orig, n) && words == Split(orig[..n]) && Overwritten(line, orig)
    requires AllPlaced(line, orig, words, found, n, n) && |found| == |words|
    requires |found| < |table| && table[..|found|] == found && table[|found|] == Null
    ensures Argv(line, table) == words
    ensures forall i | 0 <= i < |found| :: table[i].Ptr?
  {
    SplitYieldsWords(orig[..n]);
    forall k | 0 <= k < n
      ensures orig[k] != Nul
    {
      assert orig[k] == orig[..n][k];
    }
    forall i | 0 <= i < |found|
      ensures table[i].Ptr? && Placed(line, orig, table[i].at, words[i], n, n)
    {
      assert table[i] == table[..|found|][i];
    }
    TableSpellsWords(line, orig, table, words, |found|, n, n);
  }

  /** The table's entries, read as C strings in the split line, spell the
      tokens: each token's characters are intact and a NUL follows them. */
  lemma {:induction false} TableSpellsWords(line: seq<char>, orig: seq<char>, table: seq<Entry>,
                                            words: seq<seq<char>>, count: nat, save: nat, n: nat)
    requires |line| == |orig| && n < |orig|
    requires forall k | 0 <= k < n :: orig[k] != Nul
    requires count < |table| && table[count] == Null && count == |words|
    requires forall i | 0 <= i < |words| :: IsWord(words[i])
    requires Overwritten(line, orig)
    requires forall i | 0 <= i < count :: table[i].Ptr? && Placed(line, orig, table[i].at, words[i], save, n)
    ensures Argv(line, table) == words
    decreases count
  {
    if count > 0 {
      var at, w := table[0].at, words[0];
      assert line[at..][..|w|] == w by {
        forall k | 0 <= k < |w|
          ensures line[at + k] == w[k]
        {
          assert orig[at + k] == w[k];
        }
      }
      assert Nul !in w by {
        forall k | 0 <= k < |w|
          ensures w[k] != Nul
        {
          assert orig[at + k] == w[k];
        }
      }
      CStrOfTerminated(line[at..], w);
      TableSpellsWords(line, orig, table[1..], words[1..], count - 1, save, n);
    }
  }

  /** A line that is empty, or holds nothing but delimiters before its
      first NUL, gives a table whose very first entry is NULL, and only
      such a line does. */
  lemma TokenizeNothing(orig: seq<char>, line: seq<char>, table: seq<Entry>, count: nat)
    requires Nul in orig && count <= |table| && Tokenize(orig, 0) == (table[..count], line)
    requires count < |table| && table[count] == Null
    ensures table[0] == Null <==> forall k | 0 <= k < StrLen(orig) :: IsDelim(orig[k])
  {
    TokenizeSplits(orig, line, table, count);
    var s := CStr(orig);
    SplitEmptyIffAllDelims(s);
    assert forall k | 0 <= k < |s| :: s[k] == orig[k];
  }
}
