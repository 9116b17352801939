/** A whole run of the checker on a small input: the dictionary
    "cat dog\nfish" delivered in reads of four bytes, and the document
    "Cat dogg fish-cat". */
module Example {
  import opened Ascii
  import opened Strings
  import opened WordSet
  import Casing
  import Dictionary
  import Tokenizer
  import Normalize
  import Hyphen
  import SpellCheck

  /** Scanning on inside a token: every byte that may continue a token is
      appended and moves the column by one. */
  lemma {:induction false} ScanWithin(cur: string, w: string, line: nat, col: nat, sc: nat, out: seq<Tokenizer.Token>)
    requires cur != []
    requires forall i :: 0 <= i < |w| ==> IsAlnum(w[i]) || Tokenizer.IsJoiner(w[i])
    ensures Tokenizer.Feed(Tokenizer.Scan(cur, line, col, sc, out), w) == Tokenizer.Scan(cur + w, line, col + |w|, sc, out)
    decreases |w|
  {
    if w == [] {
      assert cur + w == cur;
    } else {
      var next := Tokenizer.Step(Tokenizer.Scan(cur, line, col, sc, out), w[0]);
      assert next == Tokenizer.Scan(cur + [w[0]], line, col + 1, sc, out);
      ScanWithin(cur + [w[0]], w[1..], line, col + 1, sc, out);
      assert cur + [w[0]] + w[1..] == cur + w;
    }
  }

  /** A word scanned from a state with no token under way: the token starts
      at the column after the current one. */
  lemma {:induction false} ScanWord(w: string, line: nat, col: nat, sc: nat, out: seq<Tokenizer.Token>)
    requires w != [] && IsAlnum(w[0])
    requires forall i :: 0 <= i < |w| ==> IsAlnum(w[i]) || Tokenizer.IsJoiner(w[i])
    ensures Tokenizer.Feed(Tokenizer.Scan([], line, col, sc, out), w) == Tokenizer.Scan(w, line, col + |w|, col + 1, out)
  {
    var next := Tokenizer.Step(Tokenizer.Scan([], line, col, sc, out), w[0]);
    assert next == Tokenizer.Scan([w[0]], line, col + 1, col + 1, out);
    ScanWithin([w[0]], w[1..], line, col + 1, col + 1, out);
    assert [w[0]] + w[1..] == w;
  }

  /** A space ends the token under way. */
  lemma {:induction false} ScanSpace(w: string, line: nat, col: nat, sc: nat, out: seq<Tokenizer.Token>, rest: string)
    requires w != []
    ensures Tokenizer.Feed(Tokenizer.Scan(w, line, col, sc, out), [' '] + rest)
         == Tokenizer.Feed(Tokenizer.Scan([], line, col + 1, sc, out + [Tokenizer.Token(w, line, sc)]), rest)
  {
    assert ([' '] + rest)[1..] == rest;
  }

  /** A word scanned from a state with no token under way, whatever follows
      it: the token under way is the word. */
  lemma {:induction false} WordThen(w: string, line: nat, col: nat, sc: nat, out: seq<Tokenizer.Token>, rest: string)
    requires Tokenizer.WellShaped(w)
    ensures Tokenizer.Feed(Tokenizer.Scan([], line, col, sc, out), w + rest) ==
      Tokenizer.Feed(Tokenizer.Scan(w, line, col + |w|, col + 1, out), rest)
  {
    Tokenizer.FeedAppend(Tokenizer.Scan([], line, col, sc, out), w, rest);
    ScanWord(w, line, col, sc, out);
  }

  /** A word followed by a space, scanned from a state with no token under
      way: the word is handed on with the column after the current one. */
  lemma {:induction false} WordThenSpace(w: string, line: nat, col: nat, sc: nat, out: seq<Tokenizer.Token>, rest: string)
    requires Tokenizer.WellShaped(w)
    ensures Tokenizer.Feed(Tokenizer.Scan([], line, col, sc, out), w + ([' '] + rest)) ==
      Tokenizer.Feed(Tokenizer.Scan([], line, col + |w| + 1, col + 1, out + [Tokenizer.Token(w, line, col + 1)]), rest)
  {
    WordThen(w, line, col, sc, out, [' '] + rest);
    ScanSpace(w, line, col + |w|, col + 1, out, rest);
  }

  /** Three tokens separated by single spaces on the first line: the first
      starts at column 2, and each later one two columns after the end of
      the one before. */
  lemma {:induction false} ThreeTokens(a: string, b: string, c: string)
    requires Tokenizer.WellShaped(a) && Tokenizer.WellShaped(b) && Tokenizer.WellShaped(c)
    ensures Tokenizer.Tokens(a + [' '] + (b + [' '] + c)) ==
      [Tokenizer.Token(a, 1, 2), Tokenizer.Token(b, 1, |a| + 3), Tokenizer.Token(c, 1, |a| + |b| + 4)]
  {
    assert a + [' '] + (b + [' '] + c) == a + ([' '] + (b + ([' '] + c)));
    ThreeScan(a, b, c);
  }

  /** The scan of the three words stops with the third one under way. */
  lemma {:induction false} ThreeScan(a: string, b: string, c: string)
    requires Tokenizer.WellShaped(a) && Tokenizer.WellShaped(b) && Tokenizer.WellShaped(c)
    ensures Tokenizer.Feed(Tokenizer.Start, a + ([' '] + (b + ([' '] + c)))) ==
      Tokenizer.Scan(c, 1, |a| + |b| + |c| + 3, |a| + |b| + 4, [Tokenizer.Token(a, 1, 2), Tokenizer.Token(b, 1, |a| + 3)])
  {
    var ta := Tokenizer.Token(a, 1, 2);
    var tb := Tokenizer.Token(b, 1, |a| + 3);
    WordThenSpace(a, 1, 1, 1, [], b + ([' '] + c));
    assert [] + [ta] == [ta];
    WordThenSpace(b, 1, |a| + 2, 2, [ta], c);
    assert [ta] + [tb] == [ta, tb];
    ScanWord(c, 1, |a| + |b| + 3, |a| + 3, [ta, tb]);
  }

  predicate Plain(w: string)
  {
    && w != []
    && |w| <= Dictionary.MaxWordLength
    && forall k :: 0 <= k < |w| ==> !Dictionary.IsBoundary(w[k])
  }

  /** Three short words, separated by a space and a newline. */
  lemma {:induction false} ThreeRuns(a: string, b: string, c: string)
    requires Plain(a) && Plain(b) && Plain(c)
    ensures Dictionary.Runs(a + [' '] + (b + ['\n'] + c)) == [a, b, c]
  {
    var sep := Dictionary.IsBoundary;
    FieldsCons(a, ' ', b + ['\n'] + c, sep);
    FieldsCons(b, '\n', c, sep);
    FieldsPlain(c, sep);
    var f := [a, b, c];
    assert Fields(a + [' '] + (b + ['\n'] + c), sep) == f;
    NonEmptyKeeps(f);
  }

  /** Loading three such words stores the entries of each and nothing else. */
  lemma {:induction false} ThreeWords(a: string, b: string, c: string, x: string)
    requires Plain(a) && Plain(b) && Plain(c)
    ensures x in Contents(Dictionary.LoadDictionary(a + [' '] + (b + ['\n'] + c))) <==>
      x in Dictionary.Entries(a) + Dictionary.Entries(b) + Dictionary.Entries(c)
  {
    ThreeRuns(a, b, c);
    Dictionary.LoadedWords(a + [' '] + (b + ['\n'] + c), x);
    ThreeEntries(a, b, c, x);
  }

  /** Words that fit are not cut, so three runs give their three words' entries. */
  lemma {:induction false} ThreeEntries(a: string, b: string, c: string, x: string)
    requires Plain(a) && Plain(b) && Plain(c)
    ensures (exists w :: w in [a, b, c] && x in Dictionary.Entries(Dictionary.Truncate(w))) <==>
      x in Dictionary.Entries(a) + Dictionary.Entries(b) + Dictionary.Entries(c)
  {
    assert Dictionary.Truncate(a) == a && Dictionary.Truncate(b) == b && Dictionary.Truncate(c) == c;
    var runs := [a, b, c];
    assert forall w :: w in runs <==> w == a || w == b || w == c;
  }

  /** The dictionary content "cat dog\nfish" read four bytes at a time. */
  const Reads: seq<string> := ["cat ", "dog\n", "fish"]

  /** The nine words stored for it. */
  const Stored: set<string> := {"cat", "Cat", "CAT", "dog", "Dog", "DOG", "fish", "Fish", "FISH"}

  lemma {:induction false} DictionaryWords(x: string)
    ensures x in Contents(Dictionary.LoadChunks(Reads)) <==> x in Stored
  {
    ReadsContent();
    ThreeWords("cat", "dog", "fish", x);
    StoredEntries();
  }

  /** The reads put together: three words after a space and a newline. */
  lemma {:induction false} ReadsContent()
    ensures Concat(Reads) == "cat" + [' '] + ("dog" + ['\n'] + "fish")
  {
    assert Concat(Reads) == "cat " + ("dog\n" + ("fish" + []));
  }

  /** The case variants of the three dictionary words. */
  lemma {:induction false} StoredEntries()
    ensures Dictionary.Entries("cat") == {"cat", "Cat", "CAT"}
    ensures Dictionary.Entries("dog") == {"dog", "Dog", "DOG"}
    ensures Dictionary.Entries("fish") == {"fish", "Fish", "FISH"}
  {
    assert Casing.CapitalizeFirst("cat") == "Cat" && Casing.ToAllCaps("cat") == "CAT";
    assert Casing.CapitalizeFirst("dog") == "Dog" && Casing.ToAllCaps("dog") == "DOG";
    assert Casing.CapitalizeFirst("fish") == "Fish" && Casing.ToAllCaps("fish") == "FISH";
  }

  const Document: string := "Cat dogg fish-cat"

  /** Two pieces joined by one hyphen come apart again. */
  lemma {:induction false} TwoPieces(a: string, b: string)
    requires a != [] && b != [] && '-' !in a && '-' !in b
    ensures Hyphen.Pieces(a + ['-'] + b) == [a, b]
  {
    var ps := [a, b];
    assert ps[1..] == [b];
    assert Join(ps, '-') == a + ['-'] + b;
    Hyphen.PiecesOfJoin(ps);
  }

  /** "Cat" is stored: it is the initial-cap variant of "cat". */
  lemma {:induction false} AcceptCat(t: Table)
    requires Valid(t) && forall x :: x in Contents(t) <==> x in Stored
    ensures SpellCheck.Accepted(t, SpellCheck.Report(Tokenizer.Token("Cat", 1, 2)).word)
  {
    Normalize.StripKeeps("Cat");
  }

  /** "dogg" is neither stored nor hyphenated. */
  lemma {:induction false} RejectDogg(t: Table)
    requires Valid(t) && forall x :: x in Contents(t) <==> x in Stored
    ensures SpellCheck.Report(Tokenizer.Token("dogg", 1, 6)) == SpellCheck.Mismatch(1, 6, "dogg")
    ensures !SpellCheck.Accepted(t, SpellCheck.Report(Tokenizer.Token("dogg", 1, 6)).word)
  {
    Normalize.StripKeeps("dogg");
    assert "dogg" !in Stored;
  }

  /** "fish-cat" is not stored, but both its pieces are. */
  lemma {:induction false} AcceptFishCat(t: Table)
    requires Valid(t) && forall x :: x in Contents(t) <==> x in Stored
    ensures SpellCheck.Accepted(t, SpellCheck.Report(Tokenizer.Token("fish-cat", 1, 11)).word)
  {
    Normalize.StripKeeps("fish-cat");
    assert "fish-cat" == "fish" + ['-'] + "cat";
    TwoPieces("fish", "cat");
    assert Hyphen.IsHyphenated("fish-cat") by {
      assert "fish-cat"[4] == '-';
    }
  }

  /** Of three tokens, only a rejected middle one is reported. */
  lemma {:induction false} JudgeMiddle(t: Table, a: Tokenizer.Token, b: Tokenizer.Token, c: Tokenizer.Token)
    requires WellFormed(t)
    requires SpellCheck.Accepted(t, SpellCheck.Report(a).word)
    requires !SpellCheck.Accepted(t, SpellCheck.Report(b).word)
    requires SpellCheck.Accepted(t, SpellCheck.Report(c).word)
    ensures SpellCheck.Judge(t, [a, b, c]) == [SpellCheck.Report(b)]
  {
    assert SpellCheck.Judge(t, [c]) == [] by {
      SpellCheck.JudgeOne(t, c);
    }
    assert SpellCheck.Judge(t, [b, c]) == [SpellCheck.Report(b)] by {
      assert [b, c][1..] == [c];
    }
    assert [a, b, c][1..] == [b, c];
  }

  /** The document's tokens: "Cat" at column 2 (the first byte of the first
      line is at column 2), "dogg" at column 6 and "fish-cat" at column 11. */
  lemma {:induction false} DocumentTokens()
    ensures Tokenizer.Tokens(Document) ==
      [Tokenizer.Token("Cat", 1, 2), Tokenizer.Token("dogg", 1, 6), Tokenizer.Token("fish-cat", 1, 11)]
  {
    DocumentWords();
    ThreeTokens("Cat", "dogg", "fish-cat");
  }

  /** The document is three well-shaped words separated by single spaces. */
  lemma {:induction false} DocumentWords()
    ensures Document == "Cat" + [' '] + ("dogg" + [' '] + "fish-cat")
    ensures Tokenizer.WellShaped("Cat") && Tokenizer.WellShaped("dogg") && Tokenizer.WellShaped("fish-cat")
  {
  }

  /** Against any table holding exactly the nine words, only "dogg" is
      reported: "Cat" is stored as the initial-cap variant of "cat", and
      "fish-cat" is accepted through its pieces "fish" and "cat". */
  lemma {:induction false} Decide(t: Table)
    requires Valid(t) && forall x :: x in Contents(t) <==> x in Stored
    ensures Tokenizer.TokensFit(Document)
    ensures SpellCheck.CheckDocument(t, Document) == [SpellCheck.Mismatch(1, 6, "dogg")]
  {
    SpellCheck.ShortFits(Document);
    DocumentTokens();
    AcceptCat(t);
    RejectDogg(t);
    AcceptFishCat(t);
    JudgeMiddle(t, Tokenizer.Token("Cat", 1, 2), Tokenizer.Token("dogg", 1, 6), Tokenizer.Token("fish-cat", 1, 11));
  }

  /** The whole run: one report, "dogg" at line 1, column 6. */
  lemma {:induction false} EndToEnd()
    ensures Tokenizer.TokensFit(Document)
    ensures SpellCheck.CheckDocument(Dictionary.LoadChunks(Reads), Document) == [SpellCheck.Mismatch(1, 6, "dogg")]
  {
    forall x
      ensures x in Contents(Dictionary.LoadChunks(Reads)) <==> x in Stored
    {
      DictionaryWords(x);
    }
    Decide(Dictionary.LoadChunks(Reads));
  }
}
