/** isHyphenated and checkHyphenatedWord: a word holding a hyphen is
    accepted when the whole of it is in the dictionary, or else when every
    piece that strtok cuts out of it at hyphens is. */
module Hyphen {
  import opened Strings
  import opened WordSet

  predicate IsDash(c: char) { c == '-' }

  /** isHyphenated: the word holds at least one hyphen, which is the same
      as strcspn stopping short of the end. */
  predicate IsHyphenated(w: string)
    ensures IsHyphenated(w) <==> DashFree(w) < |w|
  {
    '-' in w
  }

  /** The length of the leading stretch without a hyphen (strcspn). */
  function DashFree(w: string): (n: nat)
    ensures n <= |w|
    ensures forall i :: 0 <= i < n ==> w[i] != '-'
    ensures n < |w| ==> w[n] == '-'
  {
    if w == [] || w[0] == '-' then 0 else 1 + DashFree(w[1..])
  }

  /** The pieces strtok(…, "-") returns, in order: hyphens at either end or
      several in a row separate nothing, so no piece is empty. */
  function Pieces(w: string): (r: seq<string>)
    ensures forall k :: 0 <= k < |r| ==> r[k] != [] && '-' !in r[k]
    decreases |w|
  {
    if w == [] then []
    else if w[0] == '-' then Pieces(w[1..])
    else
      var n := DashFree(w);
      assert '-' !in w[..n];
      [w[..n]] + Pieces(w[n..])
  }

  /** strtok's pieces are the non-empty pieces between hyphens. */
  lemma {:induction false} PiecesAreFields(w: string)
    ensures Pieces(w) == NonEmpty(Fields(w, IsDash))
    decreases |w|
  {
    if w == [] {
    } else if w[0] == '-' {
      PiecesAreFields(w[1..]);
      assert Fields(w, IsDash) == [[]] + Fields(w[1..], IsDash);
      assert ([[]] + Fields(w[1..], IsDash))[1..] == Fields(w[1..], IsDash);
    } else {
      var n := DashFree(w);
      var tail := w[n..];
      var g := Fields(tail, IsDash);
      PiecesAreFields(tail);
      FieldsPrefix(w, IsDash, n);
      assert g[0] == [] by {
        if tail == [] {
          assert g == [[]];
        } else {
          assert tail[0] == '-';
          assert g == [[]] + Fields(tail[1..], IsDash);
        }
      }
      var f := Fields(w, IsDash);
      assert w[..n] + g[0] == w[..n];
      assert f == [w[..n]] + g[1..];
      assert NonEmpty(f) == [w[..n]] + NonEmpty(g[1..]);
      assert NonEmpty(g) == NonEmpty(g[1..]) by {
        assert g == [g[0]] + g[1..];
      }
    }
  }

  /** strtok skips the empty piece between two hyphens: "a--b" gives "a" and "b". */
  lemma DoubleHyphen()
    ensures Pieces("a--b") == ["a", "b"]
  {
    assert DashFree("a--b") == 1;
    assert "a--b"[..1] == "a";
    assert "a--b"[1..] == "--b";
    assert "--b"[1..] == "-b";
    assert "-b"[1..] == "b";
    assert DashFree("b") == 1;
    assert "b"[..1] == "b" && "b"[1..] == [];
    assert Pieces("b") == ["b"];
  }

  /** The loop over the pieces, stopping at the first one not found. */
  function AllFound(t: Table, ps: seq<string>): (ok: bool)
    requires WellFormed(t)
    ensures Valid(t) ==> (ok <==> forall p :: p in ps ==> p in Contents(t))
  {
    if ps == [] then true
    else Find(t, ps[0]) && AllFound(t, ps[1..])
  }

  /** checkHyphenatedWord. */
  function CheckHyphenated(t: Table, w: string): (ok: bool)
    requires WellFormed(t)
    ensures Valid(t) ==> (ok <==> w in Contents(t) || forall p :: p in Pieces(w) ==> p in Contents(t))
  {
    Find(t, w) || AllFound(t, Pieces(w))
  }

  lemma {:induction false} DashFreeStretch(w: string, n: nat)
    requires n <= |w|
    requires forall i :: 0 <= i < n ==> w[i] != '-'
    requires n == |w| || w[n] == '-'
    ensures DashFree(w) == n
  {
  }

  /** Cutting a hyphen-joined list of non-empty, hyphen-free pieces gives
      the list back. */
  lemma {:induction false} PiecesOfJoin(ps: seq<string>)
    requires forall k :: 0 <= k < |ps| ==> ps[k] != [] && '-' !in ps[k]
    ensures Pieces(Join(ps, '-')) == ps
  {
    if |ps| == 1 {
      PiecesWhole(ps[0]);
    } else if |ps| > 1 {
      var rest := Join(ps[1..], '-');
      assert Join(ps, '-') == ps[0] + ['-'] + rest;
      PiecesOfJoin(ps[1..]);
      PiecesCons(ps[0], rest);
      assert ps == [ps[0]] + ps[1..];
    }
  }

  /** A non-empty, hyphen-free word is one piece ... */
  lemma PiecesWhole(p: string)
    requires p != [] && '-' !in p
    ensures Pieces(p) == [p]
  {
    DashFreeStretch(p, |p|);
    assert p[..|p|] == p && p[|p|..] == [];
  }

  /** ... and followed by a hyphen it is the first piece. */
  lemma PiecesCons(p: string, rest: string)
    requires p != [] && '-' !in p
    ensures Pieces(p + ['-'] + rest) == [p] + Pieces(rest)
  {
    var w := p + ['-'] + rest;
    DashFreeStretch(w, |p|);
    assert w[..|p|] == p && w[|p|..] == ['-'] + rest;
    assert (['-'] + rest)[1..] == rest;
  }

  /** "mother-in-law" is accepted exactly when it is in the set as a whole
      or each of "mother", "in" and "law" is. */
  lemma MotherInLaw(t: Table)
    requires Valid(t)
    ensures CheckHyphenated(t, "mother-in-law") <==>
      "mother-in-law" in Contents(t) ||
      ("mother" in Contents(t) && "in" in Contents(t) && "law" in Contents(t))
  {
    var ps := ["mother", "in", "law"];
    assert Join(ps, '-') == "mother-in-law";
    PiecesOfJoin(ps);
  }

  /** A word without a hyphen is its own single piece, so the hyphen check
      would decide it just as a plain lookup does. */
  lemma UnhyphenatedIsLookup(t: Table, w: string)
    requires WellFormed(t) && w != [] && !IsHyphenated(w)
    ensures Pieces(w) == [w]
    ensures CheckHyphenated(t, w) == Find(t, w)
  {
    assert DashFree(w) == |w|;
    assert w[..|w|] == w && w[|w|..] == [];
  }

  /** For a non-empty word the hyphen check and the plain lookup part ways
      exactly when it holds a hyphen: then strtok's pieces are no longer the
      word itself. */
  lemma HyphenatedPieces(w: string)
    requires w != []
    ensures IsHyphenated(w) <==> Pieces(w) != [w]
  {
    if !IsHyphenated(w) {
      assert DashFree(w) == |w|;
      assert w[..|w|] == w && w[|w|..] == [];
    } else {
      assert w !in Pieces(w);
    }
  }
}
