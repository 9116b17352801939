/** checkSpelling's scan of a document: the bytes are read one at a time,
    keeping a line counter, a column counter, the token being collected and
    the column where it started; a token is handed on when a byte that cannot
    continue it arrives, and once more at the end of the input. The state
    survives from one read to the next.

    Besides the scan itself the module gives a reference description by
    position in the document: which bytes belong to tokens, where a token
    starts, and the line and column counters in closed form. */
module Tokenizer {
  import opened Ascii
  import opened Strings

  /** sizeof(wordBuffer) - 1: a token reaching this length stops the read loop. */
  const MaxToken: nat := 1023

  /** A raw token as handed to the checker, with the line and column it is
      reported at. */
  datatype Token = Token(text: string, line: nat, column: nat)

  /** The loop state: the token being collected, the counters, the column
      where the current token started, and the tokens handed on so far. */
  datatype Scan = Scan(word: string, line: nat, column: nat, startColumn: nat, out: seq<Token>)

  const Start: Scan := Scan([], 1, 1, 1, [])

  predicate IsJoiner(c: char) { c == '\'' || c == '-' }

  /** A letter or digit always belongs to a token; an apostrophe or a hyphen
      only when a token is already under way. */
  predicate Extends(word: string, c: char)
  {
    IsAlnum(c) || (word != [] && IsJoiner(c))
  }

  /** One byte: the counters move first (a newline increments the line and
      sets the column to 0, anything else increments the column), then the
      byte either extends the token or ends it. */
  function Step(st: Scan, c: char): (r: Scan)
    ensures r.out == st.out || r.out == st.out + [Token(st.word, r.line, st.startColumn)]
    ensures |r.out| == |st.out| + 1 <==> st.word != [] && !Extends(st.word, c)
    ensures r.word != [] <==> Extends(st.word, c)
    ensures r.word != [] ==> r.word == st.word + [c]
  {
    var line := if c == '\n' then st.line + 1 else st.line;
    var column := if c == '\n' then 0 else st.column + 1;
    if Extends(st.word, c) then
      Scan(st.word + [c], line, column, if st.word == [] then column else st.startColumn, st.out)
    else if st.word != [] then
      Scan([], line, column, st.startColumn, st.out + [Token(st.word, line, st.startColumn)])
    else
      Scan([], line, column, st.startColumn, st.out)
  }

  /** The loop over some bytes. Tokens already handed on are never taken
      back, so each can be judged as soon as it is handed on. */
  function Feed(st: Scan, s: string): (r: Scan)
    ensures st.out <= r.out
    decreases |s|
  {
    if s == [] then st else Feed(Step(st, s[0]), s[1..])
  }

  /** After the last read a token still under way is handed on as well. */
  function Finish(st: Scan): (r: seq<Token>)
    ensures |r| == |st.out| + (if st.word != [] then 1 else 0) && r[..|st.out|] == st.out
    ensures st.word != [] ==> r[|st.out|] == Token(st.word, st.line, st.startColumn)
  {
    if st.word != [] then st.out + [Token(st.word, st.line, st.startColumn)] else st.out
  }

  /** The tokens of a whole document: no more than it has bytes. */
  function Tokens(doc: string): (r: seq<Token>)
    ensures |r| <= |doc|
  {
    FeedCount(Start, doc);
    Finish(Feed(Start, doc))
  }

  /** Counting the token under way, every byte yields at most one token. */
  lemma {:induction false} FeedCount(st: Scan, s: string)
    ensures |Feed(st, s).out| + (if Feed(st, s).word != [] then 1 else 0) <=
      |st.out| + (if st.word != [] then 1 else 0) + |s|
    decreases |s|
  {
    if s != [] {
      FeedCount(Step(st, s[0]), s[1..]);
    }
  }

  function FeedChunks(st: Scan, chunks: seq<string>): (r: Scan)
    ensures r == Feed(st, Concat(chunks))
    decreases |chunks|
  {
    if chunks == [] then st
    else
      var r := FeedChunks(Feed(st, chunks[0]), chunks[1..]);
      FeedAppend(st, chunks[0], Concat(chunks[1..]));
      r
  }

  /** The tokens of a document delivered by successive reads: the same as
      for the whole content at once. */
  function TokensOfChunks(chunks: seq<string>): (r: seq<Token>)
    ensures r == Tokens(Concat(chunks))
  {
    Finish(FeedChunks(Start, chunks))
  }

  lemma {:induction false} FeedAppend(st: Scan, a: string, b: string)
    ensures Feed(st, a + b) == Feed(Feed(st, a), b)
    decreases |a|
  {
    if a == [] {
      assert a + b == b;
    } else {
      assert (a + b)[1..] == a[1..] + b;
      FeedAppend(Step(st, a[0]), a[1..], b);
    }
  }

  lemma FeedPrefix(doc: string, k: nat)
    requires k < |doc|
    ensures Feed(Start, doc[..k + 1]) == Step(Feed(Start, doc[..k]), doc[k])
  {
    assert doc[..k + 1] == doc[..k] + [doc[k]];
    FeedAppend(Start, doc[..k], [doc[k]]);
    assert [doc[k]][1..] == [];
  }

  // ---------------------------------------------------------------------
  // Reference description by position

  /** Does byte `p` of the document belong to a token? */
  predicate InToken(doc: string, p: nat)
    requires p < |doc|
    decreases p
  {
    IsAlnum(doc[p]) || (IsJoiner(doc[p]) && p > 0 && InToken(doc, p - 1))
  }

  /** Where the token holding byte `p` starts: a letter or digit that no token
      byte precedes, with token bytes all the way from there to `p`. */
  function TokenStart(doc: string, p: nat): (s: nat)
    requires p < |doc| && InToken(doc, p)
    ensures s <= p
    ensures IsAlnum(doc[s])
    ensures s == 0 || !InToken(doc, s - 1)
    ensures forall q :: s <= q <= p ==> InToken(doc, q)
    decreases p
  {
    if p > 0 && InToken(doc, p - 1) then TokenStart(doc, p - 1) else p
  }

  /** The line counter after `k` bytes: one more than the newlines among them. */
  function LineAt(doc: string, k: nat): nat
    requires k <= |doc|
  {
    1 + multiset(doc[..k])['\n']
  }

  /** The column counter after `k` bytes: on the first line it is k + 1 (it
      starts at 1 and grows before it is used), after the last newline at q
      it is the number of bytes since then, k - 1 - q. */
  function ColumnAt(doc: string, k: nat): nat
    requires k <= |doc|
  {
    match LastIndexOf(doc[..k], '\n')
    case None => k + 1
    case Some(q) => k - 1 - q
  }

  /** The token whose last byte is `e - 1`, with the line counter as it is
      when the token is handed on and the column of its first byte. */
  function TokenEndingAt(doc: string, e: nat): Token
    requires 0 < e <= |doc| && InToken(doc, e - 1)
  {
    var s := TokenStart(doc, e - 1);
    Token(doc[s..e], LineAt(doc, if e < |doc| then e + 1 else e), ColumnAt(doc, s + 1))
  }

  /** The tokens ended by one of the first `k` bytes, in order. */
  function Ended(doc: string, k: nat): seq<Token>
    requires k <= |doc|
  {
    if k == 0 then []
    else
      var last := if k >= 2 && InToken(doc, k - 2) && !InToken(doc, k - 1) then [TokenEndingAt(doc, k - 1)] else [];
      Ended(doc, k - 1) + last
  }

  /** Every maximal run of token bytes, in document order. */
  function ReferenceTokens(doc: string): seq<Token>
  {
    Ended(doc, |doc|) +
      (if |doc| > 0 && InToken(doc, |doc| - 1) then [TokenEndingAt(doc, |doc|)] else [])
  }

  /** The scan state after `k` bytes, described by position. */
  ghost predicate Tracks(doc: string, k: nat, st: Scan)
    requires k <= |doc|
  {
    && st.line == LineAt(doc, k)
    && st.column == ColumnAt(doc, k)
    && st.out == Ended(doc, k)
    && (st.word != [] <==> k > 0 && InToken(doc, k - 1))
    && (st.word != [] ==>
          var s := TokenStart(doc, k - 1);
          st.word == doc[s..k] && st.startColumn == ColumnAt(doc, s + 1))
  }

  lemma SliceSnoc(doc: string, s: nat, j: nat)
    requires s <= j < |doc|
    ensures doc[s..j + 1] == doc[s..j] + [doc[j]]
  {
  }

  lemma LineStep(doc: string, k: nat)
    requires k < |doc|
    ensures LineAt(doc, k + 1) == LineAt(doc, k) + (if doc[k] == '\n' then 1 else 0)
  {
    assert doc[..k + 1] == doc[..k] + [doc[k]];
  }

  lemma ColumnStep(doc: string, k: nat)
    requires k < |doc|
    ensures ColumnAt(doc, k + 1) == if doc[k] == '\n' then 0 else ColumnAt(doc, k) + 1
  {
    var pre := doc[..k + 1];
    assert pre[..k] == doc[..k];
    assert pre[k] == doc[k];
  }

  /** One byte keeps the description true. */
  lemma StepTracks(doc: string, j: nat, st: Scan)
    requires j < |doc| && Tracks(doc, j, st)
    ensures Tracks(doc, j + 1, Step(st, doc[j]))
  {
    LineStep(doc, j);
    ColumnStep(doc, j);
    var c := doc[j];
    var next := Step(st, c);
    assert Extends(st.word, c) <==> InToken(doc, j);
    if InToken(doc, j) {
      ExtendTracks(doc, j, st);
    } else if st.word != [] {
      assert next.out == st.out + [TokenEndingAt(doc, j)];
      assert Ended(doc, j + 1) == Ended(doc, j) + [TokenEndingAt(doc, j)];
    } else {
      assert Ended(doc, j + 1) == Ended(doc, j) + [];
    }
  }

  lemma ExtendTracks(doc: string, j: nat, st: Scan)
    requires j < |doc| && Tracks(doc, j, st) && InToken(doc, j)
    ensures Tracks(doc, j + 1, Step(st, doc[j]))
  {
    if st.word == [] {
      StartTracks(doc, j, st);
    } else {
      ContinueTracks(doc, j, st);
    }
  }

  /** A byte that extends the token moves the counters and hands nothing on. */
  lemma ExtendCounters(doc: string, j: nat, st: Scan)
    requires j < |doc| && Tracks(doc, j, st) && InToken(doc, j)
    ensures Step(st, doc[j]).line == LineAt(doc, j + 1)
    ensures Step(st, doc[j]).column == ColumnAt(doc, j + 1)
    ensures Step(st, doc[j]).out == Ended(doc, j + 1)
  {
    LineStep(doc, j);
    ColumnStep(doc, j);
    assert Extends(st.word, doc[j]);
    assert Ended(doc, j + 1) == Ended(doc, j) + [];
  }

  /** The first byte of a token starts it. */
  lemma StartTracks(doc: string, j: nat, st: Scan)
    requires j < |doc| && Tracks(doc, j, st) && InToken(doc, j) && st.word == []
    ensures Tracks(doc, j + 1, Step(st, doc[j]))
  {
    ExtendCounters(doc, j, st);
    assert TokenStart(doc, j) == j;
    assert Step(st, doc[j]).word == doc[j..j + 1];
  }

  /** A later byte of a token continues it. */
  lemma ContinueTracks(doc: string, j: nat, st: Scan)
    requires j < |doc| && Tracks(doc, j, st) && InToken(doc, j) && st.word != []
    ensures Tracks(doc, j + 1, Step(st, doc[j]))
  {
    ExtendCounters(doc, j, st);
    ContinueWord(doc, j, st);
    ContinueColumn(doc, j, st);
  }

  /** A byte inside a token continues the token under way ... */
  lemma ContinueWord(doc: string, j: nat, st: Scan)
    requires j < |doc| && Tracks(doc, j, st) && InToken(doc, j) && st.word != []
    ensures Step(st, doc[j]).word == doc[TokenStart(doc, j)..j + 1]
  {
    var s := TokenStart(doc, j);
    assert s == TokenStart(doc, j - 1);
    SliceSnoc(doc, s, j);
  }

  /** ... and keeps the column where that token started. */
  lemma ContinueColumn(doc: string, j: nat, st: Scan)
    requires j < |doc| && Tracks(doc, j, st) && InToken(doc, j) && st.word != []
    ensures Step(st, doc[j]).startColumn == ColumnAt(doc, TokenStart(doc, j) + 1)
  {
    assert TokenStart(doc, j) == TokenStart(doc, j - 1);
  }

  lemma {:induction false} FeedTracks(doc: string, k: nat)
    requires k <= |doc|
    ensures Tracks(doc, k, Feed(Start, doc[..k]))
  {
    if k == 0 {
      assert doc[..0] == [];
      assert LastIndexOf(doc[..0], '\n') == None;
    } else {
      FeedTracks(doc, k - 1);
      FeedPrefix(doc, k - 1);
      StepTracks(doc, k - 1, Feed(Start, doc[..k - 1]));
    }
  }

  /** The scan hands on exactly the maximal runs of token bytes, each with the
      line counter at its end and the column of its first byte. */
  lemma TokensAreReference(doc: string)
    ensures Tokens(doc) == ReferenceTokens(doc)
  {
    FeedTracks(doc, |doc|);
    assert doc[..|doc|] == doc;
  }

  // ---------------------------------------------------------------------
  // Properties of the tokens

  /** A token starts with a letter or digit and holds only letters, digits,
      apostrophes and hyphens. */
  predicate WellShaped(w: string)
  {
    && w != []
    && IsAlnum(w[0])
    && forall i :: 0 <= i < |w| ==> IsAlnum(w[i]) || IsJoiner(w[i])
  }

  lemma EndingShape(doc: string, e: nat)
    requires 0 < e <= |doc| && InToken(doc, e - 1)
    ensures WellShaped(TokenEndingAt(doc, e).text)
  {
    var s := TokenStart(doc, e - 1);
    var w := doc[s..e];
    forall i | 0 <= i < |w|
      ensures IsAlnum(w[i]) || IsJoiner(w[i])
    {
      assert InToken(doc, s + i);
    }
  }

  lemma {:induction false} EndedShape(doc: string, k: nat)
    requires k <= |doc|
    ensures forall t :: t in Ended(doc, k) ==> WellShaped(t.text)
  {
    if k > 0 {
      EndedShape(doc, k - 1);
      if k >= 2 && InToken(doc, k - 2) && !InToken(doc, k - 1) {
        EndingShape(doc, k - 1);
      }
    }
  }

  /** Every token handed on is well shaped; the tokens never overlap and
      each one is maximal, so none is a piece of a longer one. */
  lemma TokenShape(doc: string)
    ensures forall t :: t in Tokens(doc) ==> WellShaped(t.text)
  {
    TokensAreReference(doc);
    EndedShape(doc, |doc|);
    if |doc| > 0 && InToken(doc, |doc| - 1) {
      EndingShape(doc, |doc|);
    }
  }

  /** A token at the very end of the input, with no byte after it, is handed
      on all the same. */
  lemma LastTokenKept(doc: string)
    requires |doc| > 0 && InToken(doc, |doc| - 1)
    ensures |Tokens(doc)| > 0 && Tokens(doc)[|Tokens(doc)| - 1] == TokenEndingAt(doc, |doc|)
  {
    TokensAreReference(doc);
  }

  /** The first byte of the input, unless a newline, is at column 2. */
  lemma FirstColumn(doc: string)
    requires |doc| > 0
    ensures doc[0] != '\n' ==> ColumnAt(doc, 1) == 2
  {
    ColumnStep(doc, 0);
    assert doc[..0] == [];
  }

  /** The byte after a newline, unless a newline itself, is at column 1. */
  lemma ColumnAfterNewline(doc: string, q: nat)
    requires q + 1 < |doc|
    ensures doc[q] == '\n' && doc[q + 1] != '\n' ==> ColumnAt(doc, q + 2) == 1
  {
    ColumnStep(doc, q);
    ColumnStep(doc, q + 1);
  }

  /** A token ended by a newline is reported with the line after its own. */
  lemma NewlineEndsOnNextLine(doc: string, e: nat)
    requires 0 < e < |doc| && InToken(doc, e - 1) && doc[e] == '\n'
    ensures TokenEndingAt(doc, e).line == LineAt(doc, e) + 1
  {
    LineStep(doc, e);
  }

  // ---------------------------------------------------------------------
  // The token buffer limit

  /** No token reaches MaxToken bytes, so the read loop never stops early on
      a full buffer. */
  predicate TokensFit(doc: string)
  {
    forall p :: 0 <= p < |doc| && InToken(doc, p) ==> p + 1 - TokenStart(doc, p) < MaxToken
  }

  /** Under TokensFit the buffer of the scan stays below the limit at every
      step, which is what makes the scan a faithful account of the loop. */
  lemma BufferFits(doc: string, k: nat)
    requires TokensFit(doc) && k <= |doc|
    ensures |Feed(Start, doc[..k]).word| < MaxToken
  {
    FeedTracks(doc, k);
  }
}
