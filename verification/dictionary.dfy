/** loadDictionary: the dictionary bytes are cut into words at spaces,
    newlines and NUL bytes; each word, cut to its first 100 characters, is
    inserted together with two case variants. The loop state is the partly
    read word and the table, and it survives from one read to the next. */
module Dictionary {
  import opened Strings
  import opened WordSet
  import opened Casing

  /** MAX_WORD_LENGTH less the terminator: characters kept of one word. */
  const MaxWordLength: nat := 100

  predicate IsBoundary(c: char) { c == ' ' || c == '\n' || c == '\0' }

  /** The three table entries a word contributes: itself, its initial-capital
      variant and its all-caps form. */
  function Entries(w: string): set<string>
  {
    {w, CapitalizeFirst(w), ToAllCaps(w)}
  }

  /** The insertions done for one finished word, in the program's order. */
  function InsertEntries(t: Table, w: string): (r: Table)
    requires WellFormed(t)
    ensures WellFormed(r)
    ensures Valid(t) ==> Valid(r)
  {
    Insert(Insert(Insert(t, w), CapitalizeFirst(w)), ToAllCaps(w))
  }

  lemma InsertEntriesContents(t: Table, w: string)
    requires WellFormed(t)
    ensures Contents(InsertEntries(t, w)) == Contents(t) + Entries(w)
  {
    var t1 := Insert(t, w);
    var t2 := Insert(t1, CapitalizeFirst(w));
    InsertContents(t, w);
    InsertContents(t1, CapitalizeFirst(w));
    InsertContents(t2, ToAllCaps(w));
  }

  /** The word being read and the table built so far. */
  datatype Loader = Loader(word: string, table: Table)

  const Start: Loader := Loader([], Empty())

  /** One byte of the read loop: a boundary finishes a non-empty word, any
      other byte is appended while the word is shorter than the limit and
      dropped after that. */
  function Step(st: Loader, c: char): (r: Loader)
    requires WellFormed(st.table)
    ensures WellFormed(r.table) && (Valid(st.table) ==> Valid(r.table))
    ensures IsBoundary(c) ==> r.word == []
    ensures !IsBoundary(c) && |st.word| <= MaxWordLength ==>
      r.word == Truncate(st.word + [c]) && r.table == st.table
    ensures Contents(r.table) ==
      Contents(st.table) + (if IsBoundary(c) && st.word != [] then Entries(st.word) else {})
  {
    if IsBoundary(c) then
      if st.word != [] then
        InsertEntriesContents(st.table, st.word);
        Loader([], InsertEntries(st.table, st.word))
      else st
    else if |st.word| < MaxWordLength then st.(word := st.word + [c])
    else if |st.word| == MaxWordLength then
      assert (st.word + [c])[..MaxWordLength] == st.word;
      st
    else st
  }

  /** The read loop over some bytes. */
  function Feed(st: Loader, s: string): (r: Loader)
    requires WellFormed(st.table) && |st.word| <= MaxWordLength
    ensures WellFormed(r.table) && |r.word| <= MaxWordLength
    ensures Valid(st.table) ==> Valid(r.table)
    decreases |s|
  {
    if s == [] then st else Feed(Step(st, s[0]), s[1..])
  }

  /** After the last read: a word with no boundary after it is inserted too. */
  function Finish(st: Loader): (t: Table)
    requires WellFormed(st.table)
    ensures WellFormed(t) && (Valid(st.table) ==> Valid(t))
    ensures Contents(t) == Contents(st.table) + (if st.word != [] then Entries(st.word) else {})
  {
    if st.word != [] then
      InsertEntriesContents(st.table, st.word);
      InsertEntries(st.table, st.word)
    else st.table
  }

  /** The word set loaded from the whole dictionary content. */
  function LoadDictionary(s: string): (t: Table)
    ensures Valid(t)
  {
    Finish(Feed(Start, s))
  }

  /** The read loop fed one read result after another. */
  function FeedChunks(st: Loader, chunks: seq<string>): (r: Loader)
    requires WellFormed(st.table) && |st.word| <= MaxWordLength
    ensures WellFormed(r.table) && |r.word| <= MaxWordLength
    ensures r == Feed(st, Concat(chunks))
    decreases |chunks|
  {
    if chunks == [] then st
    else
      var r := FeedChunks(Feed(st, chunks[0]), chunks[1..]);
      FeedAppend(st, chunks[0], Concat(chunks[1..]));
      r
  }

  /** loadDictionary over the successive results of `read`. */
  function LoadChunks(chunks: seq<string>): (t: Table)
    ensures Valid(t)
    ensures t == LoadDictionary(Concat(chunks))
  {
    Finish(FeedChunks(Start, chunks))
  }

  lemma {:induction false} FeedAppend(st: Loader, a: string, b: string)
    requires WellFormed(st.table) && |st.word| <= MaxWordLength
    ensures Feed(st, a + b) == Feed(Feed(st, a), b)
    decreases |a|
  {
    if a == [] {
      assert a + b == b;
    } else {
      assert (a + b)[1..] == a[1..] + b;
      FeedAppend(Step(st, a[0]), a[1..], b);
    }
  }

  // ---------------------------------------------------------------------
  // What ends up in the table

  /** A dictionary word as stored: its first MaxWordLength characters. */
  function Truncate(w: string): (r: string)
    ensures |r| <= MaxWordLength
  {
    if |w| <= MaxWordLength then w else w[..MaxWordLength]
  }

  /** The maximal runs of non-boundary bytes, in order. */
  function Runs(s: string): (r: seq<string>)
    ensures forall k :: 0 <= k < |r| ==> r[k] != []
    ensures forall k, i :: 0 <= k < |r| && 0 <= i < |r[k]| ==> !IsBoundary(r[k][i])
  {
    var f := Fields(s, IsBoundary);
    var r := NonEmpty(f);
    assert forall k :: 0 <= k < |r| ==> r[k] in f;
    r
  }

  /** The entries contributed by the non-empty pieces of `ws`. */
  ghost function Vocabulary(ws: seq<string>): set<string>
  {
    if ws == [] then {}
    else (if ws[0] == [] then {} else Entries(Truncate(ws[0]))) + Vocabulary(ws[1..])
  }

  lemma {:induction false} VocabularyMembers(ws: seq<string>, x: string)
    ensures x in Vocabulary(ws) <==> exists w :: w in ws && w != [] && x in Entries(Truncate(w))
  {
    if ws != [] {
      VocabularyMembers(ws[1..], x);
      assert ws == [ws[0]] + ws[1..];
    }
  }

  lemma {:induction false} VocabularyNonEmpty(ws: seq<string>)
    ensures Vocabulary(NonEmpty(ws)) == Vocabulary(ws)
  {
    forall x
      ensures x in Vocabulary(NonEmpty(ws)) <==> x in Vocabulary(ws)
    {
      VocabularyMembers(ws, x);
      VocabularyMembers(NonEmpty(ws), x);
    }
  }

  /** Cutting the partial word `cur` (already within the limit) plus more
      characters gives the same word as cutting the whole of it. */
  lemma TruncateExtend(cur: string, c: char, rest: string)
    requires |cur| <= MaxWordLength
    ensures Truncate((if |cur| < MaxWordLength then cur + [c] else cur) + rest) == Truncate(cur + ([c] + rest))
  {
    if |cur| < MaxWordLength {
      assert cur + [c] + rest == cur + ([c] + rest);
    } else {
      assert (cur + rest)[..MaxWordLength] == cur;
      assert (cur + ([c] + rest))[..MaxWordLength] == cur;
    }
  }

  lemma VocabularyCons(w: string, ws: seq<string>)
    ensures Vocabulary([w] + ws) == (if w == [] then {} else Entries(Truncate(w))) + Vocabulary(ws)
  {
    assert ([w] + ws)[1..] == ws;
  }

  /** The loop from any state: what the table gains is the vocabulary of the
      remaining pieces, the first of them continuing the partial word. */
  lemma {:induction false} FeedContents(st: Loader, s: string)
    requires WellFormed(st.table) && |st.word| <= MaxWordLength
    ensures var f := Fields(s, IsBoundary);
      Contents(Finish(Feed(st, s))) == Contents(st.table) + Vocabulary([st.word + f[0]] + f[1..])
    decreases |s|
  {
    var f := Fields(s, IsBoundary);
    if s == [] {
      assert f == [[]];
      assert st.word + f[0] == st.word;
      VocabularyCons(st.word, []);
      if st.word != [] {
        InsertEntriesContents(st.table, st.word);
      }
    } else if IsBoundary(s[0]) {
      FeedContentsBoundary(st, s);
    } else {
      FeedContentsLetter(st, s);
    }
  }

  lemma {:induction false} FeedContentsBoundary(st: Loader, s: string)
    requires WellFormed(st.table) && |st.word| <= MaxWordLength
    requires s != [] && IsBoundary(s[0])
    ensures var f := Fields(s, IsBoundary);
      Contents(Finish(Feed(st, s))) == Contents(st.table) + Vocabulary([st.word + f[0]] + f[1..])
    decreases |s|, 0
  {
    var f := Fields(s, IsBoundary);
    var next := Step(st, s[0]);
    var g := Fields(s[1..], IsBoundary);
    FeedContents(next, s[1..]);
    BoundaryGain(st, s);
    BoundaryPieces(st.word, s);
    VocabularyCons(st.word, g);
    if st.word == [] {
      assert next == st;
    } else {
      assert next.table == InsertEntries(st.table, st.word);
      InsertEntriesContents(st.table, st.word);
      assert Truncate(st.word) == st.word;
    }
  }

  /** After a boundary the partial word is empty, so the rest of the input
      contributes exactly the vocabulary of its pieces. */
  lemma BoundaryGain(st: Loader, s: string)
    requires WellFormed(st.table) && |st.word| <= MaxWordLength
    requires s != [] && IsBoundary(s[0])
    requires var next := Step(st, s[0]);
      var g := Fields(s[1..], IsBoundary);
      Contents(Finish(Feed(next, s[1..]))) == Contents(next.table) + Vocabulary([next.word + g[0]] + g[1..])
    ensures Contents(Finish(Feed(st, s))) == Contents(Step(st, s[0]).table) + Vocabulary(Fields(s[1..], IsBoundary))
  {
    var next := Step(st, s[0]);
    var g := Fields(s[1..], IsBoundary);
    assert Feed(st, s) == Feed(next, s[1..]);
    assert next.word + g[0] == g[0];
    assert g == [g[0]] + g[1..];
  }

  /** A leading boundary closes the partial word: its piece is the word alone. */
  lemma BoundaryPieces(w: string, s: string)
    requires s != [] && IsBoundary(s[0])
    ensures var f := Fields(s, IsBoundary);
      Vocabulary([w + f[0]] + f[1..]) == Vocabulary([w] + Fields(s[1..], IsBoundary))
  {
    var f := Fields(s, IsBoundary);
    var g := Fields(s[1..], IsBoundary);
    assert f == [[]] + g;
    assert f[0] == [] && f[1..] == g;
    assert w + f[0] == w;
  }

  lemma {:induction false} FeedContentsLetter(st: Loader, s: string)
    requires WellFormed(st.table) && |st.word| <= MaxWordLength
    requires s != [] && !IsBoundary(s[0])
    ensures var f := Fields(s, IsBoundary);
      Contents(Finish(Feed(st, s))) == Contents(st.table) + Vocabulary([st.word + f[0]] + f[1..])
    decreases |s|, 0
  {
    var f := Fields(s, IsBoundary);
    var next := Step(st, s[0]);
    var g := Fields(s[1..], IsBoundary);
    assert Feed(st, s) == Feed(next, s[1..]);
    FeedContents(next, s[1..]);
    assert next.table == st.table;
    var whole := st.word + ([s[0]] + g[0]);
    assert f == [[s[0]] + g[0]] + g[1..];
    assert [st.word + f[0]] + f[1..] == [whole] + g[1..];
    VocabularyCons(whole, g[1..]);
    VocabularyCons(next.word + g[0], g[1..]);
    assert next.word == if |st.word| < MaxWordLength then st.word + [s[0]] else st.word;
    TruncateExtend(st.word, s[0], g[0]);
    assert next.word + g[0] != [] && whole != [];
  }

  /** The loaded set is exactly the three entries of every run, cut to its
      first 100 characters: nothing is missed, nothing else is added. */
  lemma LoadedWords(s: string, x: string)
    ensures x in Contents(LoadDictionary(s)) <==> exists w :: w in Runs(s) && x in Entries(Truncate(w))
  {
    var f := Fields(s, IsBoundary);
    FeedContents(Start, s);
    assert Start.word + f[0] == f[0];
    assert f == [f[0]] + f[1..];
    VocabularyNonEmpty(f);
    VocabularyMembers(Runs(s), x);
  }

  /** However the content is split across reads, the same table is built. */
  lemma ChunksDoNotMatter(a: seq<string>, b: seq<string>)
    requires Concat(a) == Concat(b)
    ensures LoadChunks(a) == LoadChunks(b)
  {
  }

  /** All three entries of a word coincide exactly when it has no lower-case letter. */
  lemma EntriesCollapse(w: string)
    ensures Entries(w) == {w} <==> forall i :: 0 <= i < |w| ==> !Ascii.IsLower(w[i])
  {
    AllCapsFixes(w);
    CapitalizeFirstIsAllCaps(w);
    if forall i :: 0 <= i < |w| ==> !Ascii.IsLower(w[i]) {
      assert CapitalizeFirst(w) == ToAllCaps(w);
    }
  }
}
