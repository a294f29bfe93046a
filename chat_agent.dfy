/**
 * The chat helpers that work on the frame itself: finding the column a
 * question mentions, and the statistics of a non-numeric column that go
 * along with the question.
 */
module ChatAgent {
  import opened Wrappers
  import opened Seqs
  import opened Text
  import opened Frame

  // ---------------------------------------------------------------------
  // Column-name detection
  // ---------------------------------------------------------------------

  /** `{c.lower(): c for c in columns}`: a later name overwrites an earlier one with the same key. */
  function LowerColumns(names: seq<string>): map<string, string> {
    if names == [] then map[]
    else
      var last := names[|names| - 1];
      LowerColumns(names[..|names| - 1])[Lower(last) := last]
  }

  /** The keys are exactly the lower-cased names. */
  lemma {:induction false} LowerColumnsKeys(names: seq<string>, k: string)
    ensures k in LowerColumns(names) <==> exists i :: 0 <= i < |names| && Lower(names[i]) == k
  {
    if names != [] {
      var init := names[..|names| - 1];
      LowerColumnsKeys(init, k);
      if exists i :: 0 <= i < |init| && Lower(init[i]) == k {
        var i :| 0 <= i < |init| && Lower(init[i]) == k;
        assert names[i] == init[i];
      }
      if exists i :: 0 <= i < |names| && Lower(names[i]) == k {
        var i :| 0 <= i < |names| && Lower(names[i]) == k;
        if i < |init| {
          assert names[i] == init[i];
        }
      }
    }
  }

  /** Each key maps to one of the names, and to one that lower-cases to the key. */
  lemma {:induction false} LowerColumnsValues(names: seq<string>, k: string)
    requires k in LowerColumns(names)
    ensures LowerColumns(names)[k] in names && Lower(LowerColumns(names)[k]) == k
  {
    var init := names[..|names| - 1];
    if k != Lower(names[|names| - 1]) {
      LowerColumnsValues(init, k);
    }
  }

  /** Of several names with the same lower-cased form, the last one in column order is kept. */
  lemma {:induction false} LowerColumnsLaterWins(names: seq<string>, i: nat)
    requires i < |names|
    requires forall j :: i < j < |names| ==> Lower(names[j]) != Lower(names[i])
    ensures Lower(names[i]) in LowerColumns(names)
    ensures LowerColumns(names)[Lower(names[i])] == names[i]
  {
    var init := names[..|names| - 1];
    if i < |init| {
      assert init[i] == names[i];
      LowerColumnsLaterWins(init, i);
    }
  }

  /** Length of the run of `[A-Za-z0-9_]` characters that starts `s`. */
  function WordRun(s: string): (n: nat)
    ensures n <= |s|
    ensures forall i :: 0 <= i < n ==> IsWordChar(s[i])
    ensures n < |s| ==> !IsWordChar(s[n])
  {
    if s == [] || !IsWordChar(s[0]) then 0 else 1 + WordRun(s[1..])
  }

  /** `re.findall(r"[A-Za-z0-9_]+", s)`: the maximal runs of word characters, left to right. */
  function Tokens(s: string): seq<string>
    decreases |s|
  {
    if s == [] then []
    else if !IsWordChar(s[0]) then Tokens(s[1..])
    else
      var n := WordRun(s);
      [s[..n]] + Tokens(s[n..])
  }

  /** `s[i..j]` is a non-empty run of word characters that no word character precedes or follows. */
  predicate MaximalRun(s: string, i: nat, j: nat) {
    i < j <= |s| && (forall k :: i <= k < j ==> IsWordChar(s[k])) &&
    (i == 0 || !IsWordChar(s[i - 1])) && (j == |s| || !IsWordChar(s[j]))
  }

  /** A maximal run of a suffix `s[m..]` is one of `s` when it does not start the suffix or the suffix follows a non-word character. */
  lemma {:induction false} SuffixRun(s: string, m: nat, i: nat, j: nat)
    requires m <= |s| && MaximalRun(s[m..], i, j)
    requires i > 0 || m == 0 || !IsWordChar(s[m - 1])
    ensures MaximalRun(s, m + i, m + j) && s[m..][i..j] == s[m + i..m + j]
  {
    assert forall k :: 0 <= k < |s| - m ==> s[m..][k] == s[m + k];
  }

  /**
   * Every token is a maximal run of `s`, so a column named `id` is never a
   * token of the word `valid_id`.
   */
  lemma {:induction false} TokensAreMaximalRuns(s: string, t: string)
    requires t in Tokens(s)
    ensures exists i: nat, j: nat :: MaximalRun(s, i, j) && t == s[i..j]
    decreases |s|
  {
    if !IsWordChar(s[0]) {
      TokensAreMaximalRuns(s[1..], t);
      var i: nat, j: nat :| MaximalRun(s[1..], i, j) && t == s[1..][i..j];
      SuffixRun(s, 1, i, j);
    } else {
      var n := WordRun(s);
      if t == s[..n] {
        assert MaximalRun(s, 0, n) && s[..n] == s[0..n];
      } else {
        assert t in Tokens(s[n..]);
        TokensAreMaximalRuns(s[n..], t);
        var i: nat, j: nat :| MaximalRun(s[n..], i, j) && t == s[n..][i..j];
        assert n < |s| && s[n..][0] == s[n];
        SuffixRun(s, n, i, j);
      }
    }
  }

  /** Every token is a non-empty string of word characters. */
  lemma TokensAreWords(s: string)
    ensures forall t :: t in Tokens(s) ==> t != [] && forall i :: 0 <= i < |t| ==> IsWordChar(t[i])
  {
    forall t | t in Tokens(s)
      ensures t != [] && forall i :: 0 <= i < |t| ==> IsWordChar(t[i])
    {
      TokensAreMaximalRuns(s, t);
      var i: nat, j: nat :| MaximalRun(s, i, j) && t == s[i..j];
      assert forall k :: 0 <= k < |t| ==> t[k] == s[i + k];
    }
  }

  /** Position `p` does not split a run of word characters. */
  predicate Boundary(s: string, p: nat) {
    p <= |s| && (p == 0 || p == |s| || !IsWordChar(s[p - 1]) || !IsWordChar(s[p]))
  }

  /** Where each token of `s[p..]` starts and ends in `s`, listed as `Tokens` lists the tokens. */
  function SpansFrom(s: string, p: nat): seq<(nat, nat)>
    requires p <= |s|
    decreases |s| - p
  {
    if p == |s| then []
    else if !IsWordChar(s[p]) then SpansFrom(s, p + 1)
    else
      var n := WordRun(s[p..]);
      [(p, p + n)] + SpansFrom(s, p + n)
  }

  function TokenSpans(s: string): seq<(nat, nat)> {
    SpansFrom(s, 0)
  }

  /** A non-word character at `p` yields no token. */
  lemma TokensSkip(s: string, p: nat)
    requires p < |s| && !IsWordChar(s[p])
    ensures Tokens(s[p..]) == Tokens(s[p + 1..])
  {
    assert s[p..][0] == s[p] && s[p..][1..] == s[p + 1..];
  }

  /** A word character at `p` starts the token that runs to the end of its run. */
  lemma TokensTake(s: string, p: nat)
    requires p < |s| && IsWordChar(s[p])
    ensures Tokens(s[p..]) == [s[p..p + WordRun(s[p..])]] + Tokens(s[p + WordRun(s[p..])..])
  {
    var t := s[p..];
    var n := WordRun(t);
    assert t[0] == s[p];
    assert t[..n] == s[p..p + n] && t[n..] == s[p + n..];
  }

  /** A word character at `p` starts the span that runs to the end of its run. */
  lemma SpansFromTake(s: string, p: nat)
    requires p < |s| && IsWordChar(s[p])
    ensures SpansFrom(s, p) == [(p, p + WordRun(s[p..]))] + SpansFrom(s, p + WordRun(s[p..]))
  {
  }

  /** The word run at a position `p` that starts a run is a maximal run of `s`. */
  lemma RunAt(s: string, p: nat)
    requires p < |s| && IsWordChar(s[p]) && Boundary(s, p)
    ensures MaximalRun(s, p, p + WordRun(s[p..]))
  {
    assert forall k :: 0 <= k < |s| - p ==> s[p..][k] == s[p + k];
  }

  /** The text of a span, or nothing for positions that are not a slice of `s`. */
  function Slice(s: string, sp: (nat, nat)): string {
    if sp.0 <= sp.1 <= |s| then s[sp.0..sp.1] else []
  }

  /** The texts of a list of spans. */
  function SpanTexts(s: string, spans: seq<(nat, nat)>): (r: seq<string>)
    ensures |r| == |spans|
  {
    if spans == [] then [] else [Slice(s, spans[0])] + SpanTexts(s, spans[1..])
  }

  lemma {:induction false} SpanTextsAt(s: string, spans: seq<(nat, nat)>, m: nat)
    requires m < |spans|
    ensures SpanTexts(s, spans)[m] == Slice(s, spans[m])
  {
    if m > 0 {
      SpanTextsAt(s, spans[1..], m - 1);
    }
  }

  /** The texts of a span list that starts with the slice `x`. */
  lemma SpanTextsCons(s: string, x: (nat, nat), rest: seq<(nat, nat)>)
    requires x.0 <= x.1 <= |s|
    ensures SpanTexts(s, [x] + rest) == [s[x.0..x.1]] + SpanTexts(s, rest)
  {
    assert ([x] + rest)[0] == x && ([x] + rest)[1..] == rest;
  }

  /** The tokens of `s[p..]` are the texts of its spans. */
  lemma {:induction false} TokensFromSpans(s: string, p: nat)
    requires p <= |s|
    ensures Tokens(s[p..]) == SpanTexts(s, SpansFrom(s, p))
    decreases |s| - p
  {
    if p == |s| {
      assert s[p..] == [];
    } else if !IsWordChar(s[p]) {
      TokensSkip(s, p);
      TokensFromSpans(s, p + 1);
    } else {
      var n := WordRun(s[p..]);
      TokensTake(s, p);
      SpansFromTake(s, p);
      TokensFromSpans(s, p + n);
      SpanTextsCons(s, (p, p + n), SpansFrom(s, p + n));
    }
  }

  /** A word run ends at a boundary. */
  lemma RunEnd(s: string, p: nat)
    requires p < |s|
    ensures Boundary(s, p + WordRun(s[p..]))
  {
    var n := WordRun(s[p..]);
    if p + n < |s| { assert s[p..][n] == s[p + n]; }
  }

  /** Each span of `s[p..]`, for a boundary `p`, is a maximal run of `s`. */
  lemma {:induction false} SpanMaximal(s: string, p: nat, m: nat)
    requires Boundary(s, p) && m < |SpansFrom(s, p)|
    ensures MaximalRun(s, SpansFrom(s, p)[m].0, SpansFrom(s, p)[m].1)
    decreases |s| - p
  {
    if !IsWordChar(s[p]) {
      SpanMaximal(s, p + 1, m);
    } else {
      var n := WordRun(s[p..]);
      SpansFromTake(s, p);
      if m == 0 {
        RunAt(s, p);
      } else {
        RunEnd(s, p);
        SpanMaximal(s, p + n, m - 1);
        assert SpansFrom(s, p)[m] == SpansFrom(s, p + n)[m - 1];
      }
    }
  }

  /** The tokens are the texts of the spans, each span a maximal run. */
  lemma TokenSpansAreTokens(s: string)
    ensures |TokenSpans(s)| == |Tokens(s)|
    ensures forall m :: 0 <= m < |Tokens(s)| ==>
      MaximalRun(s, TokenSpans(s)[m].0, TokenSpans(s)[m].1) &&
      Tokens(s)[m] == s[TokenSpans(s)[m].0..TokenSpans(s)[m].1]
  {
    assert s[0..] == s;
    TokensFromSpans(s, 0);
    forall m | 0 <= m < |Tokens(s)|
      ensures MaximalRun(s, TokenSpans(s)[m].0, TokenSpans(s)[m].1) &&
        Tokens(s)[m] == s[TokenSpans(s)[m].0..TokenSpans(s)[m].1]
    {
      SpanMaximal(s, 0, m);
      SpanTextsAt(s, TokenSpans(s), m);
    }
  }

  /** Two maximal runs, the first starting earlier, do not touch. */
  lemma RunsApart(s: string, i: nat, j: nat, i2: nat, j2: nat)
    requires MaximalRun(s, i, j) && MaximalRun(s, i2, j2) && i < i2
    ensures j < i2
  {
    assert !IsWordChar(s[i2 - 1]);
  }

  /** Every span of `s[p..]` starts at `p` or later. */
  lemma {:induction false} SpansFromAfter(s: string, p: nat)
    requires p <= |s|
    ensures forall m :: 0 <= m < |SpansFrom(s, p)| ==> p <= SpansFrom(s, p)[m].0
    decreases |s| - p
  {
    if p < |s| {
      if !IsWordChar(s[p]) {
        SpansFromAfter(s, p + 1);
      } else {
        SpansFromAfter(s, p + WordRun(s[p..]));
      }
    }
  }

  /** The spans start at strictly increasing positions. */
  lemma {:induction false} SpansFromStartsIncrease(s: string, p: nat)
    requires p <= |s|
    ensures forall m :: 0 < m < |SpansFrom(s, p)| ==> SpansFrom(s, p)[m - 1].0 < SpansFrom(s, p)[m].0
    decreases |s| - p
  {
    if p < |s| {
      if !IsWordChar(s[p]) {
        SpansFromStartsIncrease(s, p + 1);
      } else {
        var n := WordRun(s[p..]);
        assert n > 0 by { assert s[p..][0] == s[p]; }
        SpansFromStartsIncrease(s, p + n);
        SpansFromAfter(s, p + n);
      }
    }
  }

  /** Each span ends before the next one starts: the tokens come out left to right. */
  lemma TokenSpansIncrease(s: string)
    ensures forall m :: 0 < m < |TokenSpans(s)| ==> TokenSpans(s)[m - 1].1 < TokenSpans(s)[m].0
  {
    SpansFromStartsIncrease(s, 0);
    TokenSpansAreTokens(s);
    forall m | 0 < m < |TokenSpans(s)|
      ensures TokenSpans(s)[m - 1].1 < TokenSpans(s)[m].0
    {
      RunsApart(s, TokenSpans(s)[m - 1].0, TokenSpans(s)[m - 1].1, TokenSpans(s)[m].0, TokenSpans(s)[m].1);
    }
  }

  /** A maximal run that starts at a run's head is that whole word run. */
  lemma RunAtHead(s: string, p: nat, j: nat)
    requires MaximalRun(s, p, j)
    ensures j == p + WordRun(s[p..])
  {
    var n := WordRun(s[p..]);
    assert forall k :: 0 <= k < |s| - p ==> s[p..][k] == s[p + k];
    assert forall k :: p <= k < p + n ==> IsWordChar(s[k]);
    assert p + n == |s| || !IsWordChar(s[p + n]);
    assert j == |s| || !IsWordChar(s[j]);
  }

  /** Every maximal run of `s` at or after a boundary `p` is one of the spans of `s[p..]`. */
  lemma {:induction false} SpansFromComplete(s: string, p: nat, i: nat, j: nat)
    requires Boundary(s, p) && MaximalRun(s, i, j) && p <= i
    ensures (i, j) in SpansFrom(s, p)
    decreases |s| - p
  {
    if !IsWordChar(s[p]) {
      assert i != p by { assert IsWordChar(s[i]); }
      SpansFromComplete(s, p + 1, i, j);
    } else {
      var n := WordRun(s[p..]);
      if i == p {
        RunAtHead(s, p, j);
      } else {
        RunAt(s, p);
        RunsApart(s, p, p + n, i, j);
        SpansFromComplete(s, p + n, i, j);
      }
    }
  }

  /** Every maximal run of `s` is one of the spans: `Tokens` misses none. */
  lemma TokenSpansComplete(s: string, i: nat, j: nat)
    requires MaximalRun(s, i, j)
    ensures (i, j) in TokenSpans(s)
  {
    SpansFromComplete(s, 0, i, j);
  }

  /**
   * `spans` lists every maximal run of `s`, each once, left to right: the
   * positions `re.findall` reports, in the order it reports them.
   */
  ghost predicate RunsInOrder(s: string, spans: seq<(nat, nat)>) {
    (forall m :: 0 <= m < |spans| ==> MaximalRun(s, spans[m].0, spans[m].1)) &&
    (forall m :: 0 < m < |spans| ==> spans[m - 1].1 < spans[m].0) &&
    (forall i: nat, j: nat :: MaximalRun(s, i, j) ==> (i, j) in spans)
  }

  lemma TokenSpansInOrder(s: string)
    ensures RunsInOrder(s, TokenSpans(s))
  {
    TokenSpansAreTokens(s);
    TokenSpansIncrease(s);
    forall i: nat, j: nat | MaximalRun(s, i, j)
      ensures (i, j) in TokenSpans(s)
    {
      TokenSpansComplete(s, i, j);
    }
  }

  /** Start positions strictly increase along the whole list. */
  predicate StartsIncrease(a: seq<(nat, nat)>) {
    forall i, j :: 0 <= i < j < |a| ==> a[i].0 < a[j].0
  }

  lemma {:induction false} StartsIncreaseFrom(a: seq<(nat, nat)>, i: nat, j: nat)
    requires forall m :: 0 < m < |a| ==> a[m - 1].0 < a[m].0
    requires i < j < |a|
    ensures a[i].0 < a[j].0
    decreases j - i
  {
    if i + 1 < j {
      StartsIncreaseFrom(a, i + 1, j);
    }
  }

  lemma RunsInOrderStarts(s: string, a: seq<(nat, nat)>)
    requires RunsInOrder(s, a)
    ensures StartsIncrease(a)
  {
    forall m | 0 < m < |a|
      ensures a[m - 1].0 < a[m].0
    {
      assert MaximalRun(s, a[m - 1].0, a[m - 1].1);
    }
    forall i, j | 0 <= i < j < |a|
      ensures a[i].0 < a[j].0
    {
      StartsIncreaseFrom(a, i, j);
    }
  }

  /** With equal heads and the same elements, a later element of one list is a later element of the other. */
  lemma TailMember(a: seq<(nat, nat)>, b: seq<(nat, nat)>, x: (nat, nat))
    requires StartsIncrease(a) && a != [] && b != [] && a[0] == b[0]
    requires (forall y :: y in a <==> y in b) && x in a[1..]
    ensures x in b[1..]
  {
    var i :| 0 <= i < |a[1..]| && a[1..][i] == x;
    assert a[i + 1] == x && a[0].0 < x.0;
    assert x in b;
    var j :| 0 <= j < |b| && b[j] == x;
    assert j > 0 && b[1..][j - 1] == x;
  }

  /** A non-empty sequence contains its first element. */
  lemma HeadMember<T>(b: seq<T>)
    ensures b != [] ==> b[0] in b
  {
  }

  /** Two lists ordered by start that hold the same elements are equal. */
  lemma {:induction false} SameStartsEqual(a: seq<(nat, nat)>, b: seq<(nat, nat)>)
    requires StartsIncrease(a) && StartsIncrease(b)
    requires forall x :: x in a <==> x in b
    ensures a == b
    decreases |a|
  {
    if a == [] {
      HeadMember(b);
    } else {
      assert a[0] in b && b != [] && b[0] in a;
      var k :| 0 <= k < |b| && b[k] == a[0];
      var l :| 0 <= l < |a| && a[l] == b[0];
      assert a[0].0 <= a[l].0 && b[0].0 <= b[k].0;
      assert k == 0;
      forall x
        ensures x in a[1..] <==> x in b[1..]
      {
        if x in a[1..] { TailMember(a, b, x); }
        if x in b[1..] { TailMember(b, a, x); }
      }
      SameStartsEqual(a[1..], b[1..]);
      assert a == [a[0]] + a[1..] && b == [b[0]] + b[1..];
    }
  }

  /**
   * The tokens are determined by their positions: any list of texts of
   * every maximal run, left to right, is `Tokens(s)`.
   */
  lemma TokensUnique(s: string, ts: seq<string>, spans: seq<(nat, nat)>)
    requires RunsInOrder(s, spans) && |ts| == |spans|
    requires forall m :: 0 <= m < |ts| ==> Slice(s, spans[m]) == ts[m]
    ensures spans == TokenSpans(s) && ts == Tokens(s)
  {
    TokenSpansInOrder(s);
    RunsInOrderStarts(s, spans);
    RunsInOrderStarts(s, TokenSpans(s));
    forall x
      ensures x in spans <==> x in TokenSpans(s)
    {
      if x in spans {
        var m :| 0 <= m < |spans| && spans[m] == x;
        assert MaximalRun(s, x.0, x.1);
      }
      if x in TokenSpans(s) {
        var m :| 0 <= m < |TokenSpans(s)| && TokenSpans(s)[m] == x;
        assert MaximalRun(s, x.0, x.1);
      }
    }
    SameStartsEqual(spans, TokenSpans(s));
    TokenSpansAreTokens(s);
    forall m | 0 <= m < |ts|
      ensures ts[m] == Tokens(s)[m]
    {
      assert MaximalRun(s, spans[m].0, spans[m].1);
    }
  }

  function Concat(ts: seq<string>): string {
    FlatMap(ts, (t: string) => t)
  }

  lemma {:induction false} ConcatCons(t: string, ts: seq<string>)
    ensures Concat([t] + ts) == t + Concat(ts)
  {
    FlatMapSplit([t] + ts, (t: string) => t, 1);
    assert ([t] + ts)[..1] == [t] && ([t] + ts)[1..] == ts;
    FlatMapOne(t, (t: string) => t);
  }

  /** `s` with every character outside `[A-Za-z0-9_]` removed. */
  function WordChars(s: string): string {
    if s == [] then [] else (if IsWordChar(s[0]) then [s[0]] else []) + WordChars(s[1..])
  }

  lemma {:induction false} WordCharsOfRun(s: string, n: nat)
    requires n <= |s| && forall i :: 0 <= i < n ==> IsWordChar(s[i])
    ensures WordChars(s) == s[..n] + WordChars(s[n..])
  {
    if n == 0 {
      assert s[..0] == [] && s[0..] == s;
    } else {
      var t := s[1..];
      WordCharsOfRun(t, n - 1);
      assert t[..n - 1] == s[1..n] && t[n - 1..] == s[n..];
      assert [s[0]] + s[1..n] == s[..n];
    }
  }

  /** The tokens, run together, are the string with every non-word character removed. */
  lemma {:induction false} TokensKeepWordChars(s: string)
    ensures Concat(Tokens(s)) == WordChars(s)
    decreases |s|
  {
    if s == [] {
    } else if !IsWordChar(s[0]) {
      TokensKeepWordChars(s[1..]);
    } else {
      var n := WordRun(s);
      TokensKeepWordChars(s[n..]);
      ConcatCons(s[..n], Tokens(s[n..]));
      WordCharsOfRun(s, n);
    }
  }

  /** None of `words` is the lower-cased form of one of `names`. */
  predicate NamesNoColumn(words: seq<string>, names: seq<string>) {
    forall i, j :: 0 <= i < |words| && 0 <= j < |names| ==> words[i] != Lower(names[j])
  }

  /**
   * A scan of `words` against the lower-cased names finds nothing exactly
   * when no word is a lower-cased name, and what it finds is a name.
   */
  lemma {:induction false} ScanOverNames(names: seq<string>, words: seq<string>, r: Option<string>)
    requires r.None? <==> forall i :: 0 <= i < |words| ==> words[i] !in LowerColumns(names)
    requires r.Some? ==> exists i :: 0 <= i < |words| && words[i] in LowerColumns(names) &&
                                     r.value == LowerColumns(names)[words[i]]
    ensures r.None? <==> NamesNoColumn(words, names)
    ensures r.Some? ==> r.value in names && exists i :: 0 <= i < |words| && Lower(r.value) == words[i]
  {
    forall i | 0 <= i < |words| {
      LowerColumnsKeys(names, words[i]);
    }
    if r.Some? {
      var i :| 0 <= i < |words| && words[i] in LowerColumns(names) && r.value == LowerColumns(names)[words[i]];
      LowerColumnsValues(names, words[i]);
    }
  }

  /** The value of the first of `words` that is a key of `m`, scanning left to right. */
  method FirstKnownWord(words: seq<string>, m: map<string, string>) returns (r: Option<string>)
    ensures r.None? <==> forall i :: 0 <= i < |words| ==> words[i] !in m
    ensures r.Some? ==> exists i :: 0 <= i < |words| && words[i] in m && r.value == m[words[i]] &&
                                   (forall j :: 0 <= j < i ==> words[j] !in m)
  {
    var i := 0;
    while i < |words|
      invariant 0 <= i <= |words|
      invariant forall j :: 0 <= j < i ==> words[j] !in m
    {
      if words[i] in m {
        return Some(m[words[i]]);
      }
      i := i + 1;
    }
    return None;
  }

  /**
   * `extract_column_name`: the column whose lower-cased name is the first
   * token of the lower-cased question that names any column. A name whose
   * lower-cased form holds a character outside `[A-Za-z0-9_]` (a space, say)
   * is never a token, so it is never returned.
   */
  method ExtractColumnName(question: string, columns: seq<string>) returns (r: Option<string>)
    ensures r.None? <==> NamesNoColumn(Tokens(Lower(question)), columns)
    ensures var words, m := Tokens(Lower(question)), LowerColumns(columns);
      r.Some? ==> exists i :: 0 <= i < |words| && words[i] in m && r.value == m[words[i]] &&
                             (forall j :: 0 <= j < i ==> words[j] !in m)
    ensures r.Some? ==> r.value in columns
    ensures r.Some? ==> forall i :: 0 <= i < |r.value| ==> IsWordChar(Lower(r.value)[i])
  {
    var m := LowerColumns(columns);
    var words := Tokens(Lower(question));
    r := FirstKnownWord(words, m);
    ScanOverNames(columns, words, r);
    if r.Some? {
      var i :| 0 <= i < |words| && Lower(r.value) == words[i];
      TokensAreWords(Lower(question));
      assert words[i] in words;
    }
  }

  // ---------------------------------------------------------------------
  // Statistics of a non-numeric column
  // ---------------------------------------------------------------------

  /** How many distinct values `get_column_stats` lists (`s.unique()[:10]`). */
  const UniqueSampleLimit: nat := 10

  datatype CategoricalStats = CategoricalStats(uniqueValues: nat, sampleValues: seq<string>)

  /** The `stats` dict; the numeric entries and the dtype string are not modelled. */
  datatype ColumnStats = ColumnStats(categorical: Option<CategoricalStats>, nulls: nat)

  /** The first distinct present values, in order of first appearance. */
  function DistinctSample(c: Column): seq<Cell> {
    Take(Unique(NonNull(c.cells)), UniqueSampleLimit)
  }

  /** `get_column_stats`, without the numeric branch. */
  function GetColumnStats(c: Column): (st: ColumnStats)
    ensures st.nulls == NullCount(c.cells)
    ensures st.categorical.Some? <==> c.kind == OtherKind
    ensures st.categorical.Some? ==>
      st.categorical.value.uniqueValues == Distinct(NonNull(c.cells)) &&
      st.categorical.value.sampleValues == Texts(DistinctSample(c))
  {
    var s := NonNull(c.cells);
    var nulls := NullCount(c.cells);
    match c.kind
    case NumericKind => ColumnStats(None, nulls)
    case OtherKind => ColumnStats(Some(CategoricalStats(Distinct(s), Texts(DistinctSample(c)))), nulls)
  }

  /**
   * The listed values are distinct present values, as many as there are up
   * to ten, in order of first appearance, and no value that first appears
   * before a listed one is left out.
   */
  lemma {:induction false} DistinctSampleFacts(c: Column)
    ensures var s, u := NonNull(c.cells), DistinctSample(c);
      NoDup(u) && (forall x :: x in u ==> Some(x) in c.cells) &&
      |u| == (if Distinct(s) <= UniqueSampleLimit then Distinct(s) else UniqueSampleLimit) &&
      (forall i, j :: 0 <= i < j < |u| ==> IndexOf(s, u[i]) < IndexOf(s, u[j])) &&
      (forall x, k :: x in s && 0 <= k < |u| && IndexOf(s, x) < IndexOf(s, u[k]) ==> x in u)
  {
    TakeUnique(NonNull(c.cells), UniqueSampleLimit);
  }
}
