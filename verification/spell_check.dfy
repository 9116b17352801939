/** checkSpelling's decisions: every raw token is cleaned, looked up (piece
    by piece when it holds a hyphen) and, when not accepted, reported with
    the line and column the scan gave it, in document order. */
module SpellCheck {
  import opened Strings
  import opened WordSet
  import opened Tokenizer
  import Normalize
  import Hyphen

  /** One line of output, without the file path in front of it. */
  datatype Mismatch = Mismatch(line: nat, column: nat, word: string)

  /** The lookup for a cleaned word: the hyphen check when it holds a hyphen,
      isWordInDictionary otherwise. On a valid table it accepts exactly the
      known words. */
  predicate Accepted(t: Table, w: string)
    requires WellFormed(t)
    ensures Valid(t) ==> (Accepted(t, w) <==> Known(t, w))
  {
    if Hyphen.IsHyphenated(w) then Hyphen.CheckHyphenated(t, w) else Find(t, w)
  }

  /** What the dictionary accepts, stated on the stored set. */
  ghost predicate Known(t: Table, w: string)
  {
    || w in Contents(t)
    || (Hyphen.IsHyphenated(w) && forall p :: p in Hyphen.Pieces(w) ==> p in Contents(t))
  }

  /** The report for a token: its position and its cleaned text. */
  function Report(tok: Token): Mismatch
  {
    Mismatch(tok.line, tok.column, Normalize.Strip(tok.text))
  }

  /** The reports for a sequence of tokens, one for each rejected token. */
  function Judge(t: Table, toks: seq<Token>): (r: seq<Mismatch>)
    requires WellFormed(t)
    ensures |r| <= |toks|
    ensures forall m :: m in r ==> !Accepted(t, m.word)
  {
    if toks == [] then []
    else
      var m := Report(toks[0]);
      var rest := Judge(t, toks[1..]);
      if Accepted(t, m.word) then rest else [m] + rest
  }

  /** One token more in front: its report, when rejected, comes before the
      reports of the rest. */
  lemma JudgeCons(t: Table, toks: seq<Token>)
    requires WellFormed(t) && toks != []
    ensures Judge(t, toks) ==
      (if Accepted(t, Report(toks[0]).word) then [] else [Report(toks[0])]) + Judge(t, toks[1..])
  {
  }

  /** Every report is the report of one of the tokens. */
  lemma {:induction false} JudgeFrom(t: Table, toks: seq<Token>)
    requires WellFormed(t)
    ensures forall m :: m in Judge(t, toks) ==> exists k :: 0 <= k < |toks| && m == Report(toks[k])
  {
    if toks != [] {
      var rest := toks[1..];
      JudgeFrom(t, rest);
      JudgeCons(t, toks);
      forall m | m in Judge(t, toks)
        ensures exists k :: 0 <= k < |toks| && m == Report(toks[k])
      {
        if m in Judge(t, rest) {
          var k :| 0 <= k < |rest| && m == Report(rest[k]);
          assert rest[k] == toks[k + 1];
        } else {
          assert m == Report(toks[0]);
        }
      }
    }
  }

  /** Every token whose cleaned word is rejected is reported. */
  lemma {:induction false} JudgeAll(t: Table, toks: seq<Token>)
    requires WellFormed(t)
    ensures forall k :: 0 <= k < |toks| && !Accepted(t, Report(toks[k]).word) ==> Report(toks[k]) in Judge(t, toks)
  {
    forall k | 0 <= k < |toks| && !Accepted(t, Report(toks[k]).word)
      ensures Report(toks[k]) in Judge(t, toks)
    {
      JudgeKeeps(t, toks, k);
    }
  }

  /** The token at index `k`, when rejected, is reported. */
  lemma {:induction false} JudgeKeeps(t: Table, toks: seq<Token>, k: nat)
    requires WellFormed(t) && k < |toks| && !Accepted(t, Report(toks[k]).word)
    ensures Report(toks[k]) in Judge(t, toks)
    decreases k
  {
    if k == 0 {
      JudgeHead(t, toks);
    } else {
      assert toks[1..][k - 1] == toks[k];
      JudgeKeeps(t, toks[1..], k - 1);
      JudgeTail(t, toks, Report(toks[k]));
    }
  }

  /** The first token, when rejected, is reported. */
  lemma JudgeHead(t: Table, toks: seq<Token>)
    requires WellFormed(t) && toks != [] && !Accepted(t, Report(toks[0]).word)
    ensures Report(toks[0]) in Judge(t, toks)
  {
    JudgeCons(t, toks);
  }

  /** A report for the later tokens is a report for the whole sequence. */
  lemma JudgeTail(t: Table, toks: seq<Token>, m: Mismatch)
    requires WellFormed(t) && toks != [] && m in Judge(t, toks[1..])
    ensures m in Judge(t, toks)
  {
    JudgeCons(t, toks);
  }

  /** Judging two runs of tokens one after the other gives the reports of
      the first run followed by those of the second. */
  lemma {:induction false} JudgeAppend(t: Table, a: seq<Token>, b: seq<Token>)
    requires WellFormed(t)
    ensures Judge(t, a + b) == Judge(t, a) + Judge(t, b)
    decreases |a|
  {
    if a == [] {
      assert a + b == b;
    } else {
      assert (a + b)[0] == a[0];
      assert (a + b)[1..] == a[1..] + b;
      JudgeAppend(t, a[1..], b);
    }
  }

  /** A single token is reported exactly when its cleaned text is rejected. */
  lemma JudgeOne(t: Table, tok: Token)
    requires WellFormed(t)
    ensures Judge(t, [tok]) == if Accepted(t, Report(tok).word) then [] else [Report(tok)]
  {
    assert [tok][1..] == [];
  }

  /** The reports for a whole document. */
  function CheckDocument(t: Table, doc: string): (r: seq<Mismatch>)
    requires WellFormed(t) && TokensFit(doc)
    ensures |r| <= |Tokens(doc)|
    ensures forall m :: m in r ==> m.word != [] && !Accepted(t, m.word)
  {
    ReportsNonEmpty(t, doc);
    Judge(t, Tokens(doc))
  }

  /** One byte of the read loop: the scan takes a step, and a token it
      hands on is judged at once. */
  method Consume(t: Table, st: Scan, r: seq<Mismatch>, c: char) returns (next: Scan, r': seq<Mismatch>)
    requires WellFormed(t) && r == Judge(t, st.out)
    ensures next == Step(st, c)
    ensures r' == Judge(t, next.out)
  {
    next := Step(st, c);
    r' := r;
    if |next.out| > |st.out| {
      var tok := next.out[|next.out| - 1];
      assert next.out == st.out + [tok];
      JudgeAppend(t, st.out, [tok]);
      JudgeOne(t, tok);
      if !Accepted(t, Normalize.Strip(tok.text)) {
        r' := r + [Report(tok)];
      }
    }
  }

  /** After the last read: the token still under way is judged too. */
  method Flush(t: Table, st: Scan, r: seq<Mismatch>) returns (r': seq<Mismatch>)
    requires WellFormed(t) && r == Judge(t, st.out)
    ensures r' == Judge(t, Finish(st))
  {
    r' := r;
    if st.word != [] {
      var tok := Token(st.word, st.line, st.startColumn);
      JudgeAppend(t, st.out, [tok]);
      JudgeOne(t, tok);
      if !Accepted(t, Normalize.Strip(tok.text)) {
        r' := r + [Report(tok)];
      }
    }
  }

  lemma FeedSnoc(before: string, chunk: string, j: nat)
    requires j < |chunk|
    ensures Feed(Start, before + chunk[..j + 1]) == Step(Feed(Start, before + chunk[..j]), chunk[j])
  {
    FeedAppend(Start, before + chunk[..j], [chunk[j]]);
    assert before + chunk[..j + 1] == (before + chunk[..j]) + [chunk[j]];
    assert [chunk[j]][1..] == [];
  }

  /** Under TokensFit the token buffer never fills up during the reads, so
      the loop's early exit on a full buffer is never taken. */
  lemma FitsWhileReading(chunks: seq<string>, i: nat, j: nat)
    requires TokensFit(Concat(chunks)) && i < |chunks| && j <= |chunks[i]|
    ensures |Feed(Start, Concat(chunks[..i]) + chunks[i][..j]).word| < MaxToken
  {
    ConcatPrefix(chunks, i, j);
    BufferFits(Concat(chunks), |Concat(chunks[..i])| + j);
  }

  /** One read of checkSpelling's loop: every byte of read `i` is scanned,
      and each token it ends is judged at once. */
  /** One byte of a read: it is scanned and any token it ends is judged, and
      the token under way stays shorter than the buffer. */
  method ReadByte(t: Table, chunks: seq<string>, i: nat, j: nat, st: Scan, r: seq<Mismatch>)
    returns (st': Scan, r': seq<Mismatch>)
    requires WellFormed(t) && TokensFit(Concat(chunks)) && i < |chunks| && j < |chunks[i]|
    requires st == Feed(Start, Concat(chunks[..i]) + chunks[i][..j]) && r == Judge(t, st.out)
    ensures st' == Feed(Start, Concat(chunks[..i]) + chunks[i][..j + 1])
    ensures r' == Judge(t, st'.out)
    ensures |st'.word| < MaxToken
  {
    st', r' := Consume(t, st, r, chunks[i][j]);
    FeedSnoc(Concat(chunks[..i]), chunks[i], j);
    FitsWhileReading(chunks, i, j + 1);
  }

  method ReadChunk(t: Table, chunks: seq<string>, i: nat, st: Scan, r: seq<Mismatch>)
    returns (st': Scan, r': seq<Mismatch>)
    requires WellFormed(t) && TokensFit(Concat(chunks)) && i < |chunks|
    requires st == Feed(Start, Concat(chunks[..i])) && r == Judge(t, st.out)
    ensures st' == Feed(Start, Concat(chunks[..i + 1]))
    ensures r' == Judge(t, st'.out)
  {
    ChunkBegun(chunks, i);
    st', r' := st, r;
    var j := 0;
    while j < |chunks[i]|
      invariant 0 <= j <= |chunks[i]|
      invariant st' == Feed(Start, Concat(chunks[..i]) + chunks[i][..j])
      invariant r' == Judge(t, st'.out)
    {
      st', r' := ReadByte(t, chunks, i, j, st', r');
      j := j + 1;
    }
    ChunkDone(chunks, i);
  }

  /** Before the first byte of a read the scan is where the earlier reads left it ... */
  lemma ChunkBegun(chunks: seq<string>, i: nat)
    requires i < |chunks|
    ensures Concat(chunks[..i]) + chunks[i][..0] == Concat(chunks[..i])
  {
  }

  /** ... and after its last byte it has seen one read more. */
  lemma ChunkDone(chunks: seq<string>, i: nat)
    requires i < |chunks|
    ensures Concat(chunks[..i]) + chunks[i][..|chunks[i]|] == Concat(chunks[..i + 1])
  {
    assert chunks[i][..|chunks[i]|] == chunks[i];
    ConcatSnoc(chunks, i);
  }

  /** The read loop of checkSpelling over the reads `chunks`: the scan state
      and the reports so far survive from one read to the next, each token is
      judged as soon as it ends, and the token still under way after the last
      read is judged last. */
  method CheckSpelling(t: Table, chunks: seq<string>) returns (r: seq<Mismatch>)
    requires WellFormed(t) && TokensFit(Concat(chunks))
    ensures r == CheckDocument(t, Concat(chunks))
  {
    var st := Start;
    r := [];
    var i := 0;
    while i < |chunks|
      invariant 0 <= i <= |chunks|
      invariant st == Feed(Start, Concat(chunks[..i]))
      invariant r == Judge(t, st.out)
    {
      st, r := ReadChunk(t, chunks, i, st, r);
      i := i + 1;
    }
    assert chunks[..i] == chunks;
    r := Flush(t, st, r);
  }

  /** For any run of tokens: a report is produced exactly when it is the
      report of one of them and the dictionary does not know its word. */
  lemma JudgeMeans(t: Table, toks: seq<Token>, m: Mismatch)
    requires Valid(t)
    ensures m in Judge(t, toks) <==> (exists tok :: tok in toks && m == Report(tok)) && !Known(t, m.word)
  {
    JudgeFrom(t, toks);
    JudgeAll(t, toks);
    if (exists tok :: tok in toks && m == Report(tok)) && !Known(t, m.word) {
      var tok :| tok in toks && m == Report(tok);
      var k :| 0 <= k < |toks| && toks[k] == tok;
      assert !Accepted(t, Report(toks[k]).word);
    }
    if m in Judge(t, toks) {
      var k :| 0 <= k < |toks| && m == Report(toks[k]);
      assert toks[k] in toks;
    }
  }

  /** Every report names a token of the reference description whose cleaned
      text the dictionary does not know, and every such token is reported. */
  lemma Mismatches(t: Table, doc: string, m: Mismatch)
    requires Valid(t) && TokensFit(doc)
    ensures m in CheckDocument(t, doc) <==>
      (exists tok :: tok in ReferenceTokens(doc) && m == Report(tok)) && !Known(t, m.word)
  {
    TokensAreReference(doc);
    JudgeMeans(t, Tokens(doc), m);
  }

  /** Cleaning a raw token only drops trailing apostrophes and hyphens: the
      result is a non-empty prefix of the token. */
  lemma CleanToken(w: string)
    requires WellShaped(w)
    ensures Normalize.Strip(w) != []
    ensures Normalize.Strip(w) == w[..|Normalize.Strip(w)|]
    ensures forall k :: |Normalize.Strip(w)| <= k < |w| ==> IsJoiner(w[k])
  {
    assert Normalize.FirstAlnum(w) == 0;
    var e := Normalize.EndAlnum(w);
    assert Normalize.Strip(w) == w[0..e];
  }

  /** No report carries an empty word: every token starts with a letter or
      digit, which survives the cleaning. */
  lemma ReportsNonEmpty(t: Table, doc: string)
    requires WellFormed(t)
    ensures forall m :: m in Judge(t, Tokens(doc)) ==> m.word != []
  {
    TokenShape(doc);
    var toks := Tokens(doc);
    JudgeFrom(t, toks);
    forall m | m in Judge(t, toks)
      ensures m.word != []
    {
      var k :| 0 <= k < |toks| && m == Report(toks[k]);
      CleanToken(toks[k].text);
    }
  }

  /** A document shorter than the token buffer cannot overflow it. */
  lemma ShortFits(doc: string)
    requires |doc| < MaxToken
    ensures TokensFit(doc)
  {
  }
}
