/** String helpers shared by the loader, the tokenizer and the hyphen check:
    the last occurrence of a character (strrchr), splitting at separators,
    and the content a read loop delivers in chunks. */
module Strings {

  datatype Option<+T> = None | Some(value: T)

  /** strrchr: the index of the last occurrence of `c` in `s`, if there is one. */
  function LastIndexOf(s: string, c: char): (r: Option<nat>)
    ensures r.Some? ==> r.value < |s| && s[r.value] == c
    ensures forall k :: 0 <= k < |s| && s[k] == c ==> r.Some? && k <= r.value
  {
    if s == [] then None
    else if s[|s| - 1] == c then Some(|s| - 1)
    else LastIndexOf(s[..|s| - 1], c)
  }

  /** The pieces of `s` between separator characters, in order, empty pieces
      included: a separator at either end or two in a row give an empty piece. */
  function Fields(s: string, sep: char -> bool): (r: seq<string>)
    ensures |r| >= 1
    ensures forall k, i :: 0 <= k < |r| && 0 <= i < |r[k]| ==> !sep(r[k][i])
  {
    if s == [] then [[]]
    else
      var rest := Fields(s[1..], sep);
      if sep(s[0]) then [[]] + rest
      else [[s[0]] + rest[0]] + rest[1..]
  }

  /** The pieces of `ws` that are not empty, in their original order. */
  function NonEmpty(ws: seq<string>): (r: seq<string>)
    ensures |r| <= |ws|
    ensures forall w :: w in r <==> w in ws && w != []
  {
    if ws == [] then []
    else if ws[0] == [] then NonEmpty(ws[1..])
    else [ws[0]] + NonEmpty(ws[1..])
  }

  /** The pieces of `ws` glued back together with `d` between neighbours. */
  function Join(ws: seq<string>, d: char): string
  {
    if ws == [] then []
    else if |ws| == 1 then ws[0]
    else ws[0] + [d] + Join(ws[1..], d)
  }

  /** A list without empty pieces is kept whole. */
  lemma {:induction false} NonEmptyKeeps(ws: seq<string>)
    requires forall k :: 0 <= k < |ws| ==> ws[k] != []
    ensures NonEmpty(ws) == ws
  {
    if ws != [] {
      NonEmptyKeeps(ws[1..]);
      assert ws == [ws[0]] + ws[1..];
    }
  }

  /** Splitting at a single delimiter and joining with it gives back the string. */
  lemma {:induction false} JoinFields(s: string, sep: char -> bool, d: char)
    requires forall c :: sep(c) <==> c == d
    ensures Join(Fields(s, sep), d) == s
    decreases |s|
  {
    if s != [] {
      var rest := Fields(s[1..], sep);
      JoinFields(s[1..], sep, d);
      if sep(s[0]) {
        assert Fields(s, sep) == [[]] + rest;
        assert s == [d] + s[1..];
      } else {
        var first := [s[0]] + rest[0];
        assert Fields(s, sep) == [first] + rest[1..];
        if |rest| == 1 {
          assert Join(rest, d) == rest[0];
        } else {
          assert Join(rest, d) == rest[0] + [d] + Join(rest[1..], d);
          assert ([first] + rest[1..])[1..] == rest[1..];
        }
        assert s == [s[0]] + s[1..];
      }
    }
  }

  /** Fields with a prefix `s[..i]` free of separators: that prefix starts the first piece. */
  lemma {:induction false} FieldsPrefix(s: string, sep: char -> bool, i: nat)
    requires i <= |s|
    requires forall k :: 0 <= k < i ==> !sep(s[k])
    ensures Fields(s, sep) == [s[..i] + Fields(s[i..], sep)[0]] + Fields(s[i..], sep)[1..]
    decreases i
  {
    if i == 0 {
      var f := Fields(s, sep);
      assert s[0..] == s && s[..0] + f[0] == f[0];
      assert f == [f[0]] + f[1..];
    } else {
      var tail := s[1..];
      FieldsPrefix(tail, sep, i - 1);
      assert tail[i - 1..] == s[i..];
      var g := Fields(s[i..], sep);
      var rest := Fields(tail, sep);
      assert rest[0] == tail[..i - 1] + g[0] && rest[1..] == g[1..];
      assert !sep(s[0]);
      assert Fields(s, sep) == [[s[0]] + rest[0]] + rest[1..];
      assert [s[0]] + rest[0] == s[..i] + g[0];
    }
  }

  /** A string without separators is a single piece. */
  lemma FieldsPlain(p: string, sep: char -> bool)
    requires forall k :: 0 <= k < |p| ==> !sep(p[k])
    ensures Fields(p, sep) == [p]
  {
    FieldsPrefix(p, sep, |p|);
    var empty: string := [];
    assert p[..|p|] == p && p[|p|..] == empty;
    var g := Fields(empty, sep);
    assert g == [[]];
    assert p + g[0] == p && g[1..] == [];
  }

  /** A piece free of separators, then a separator: the piece comes first,
      then the pieces of the rest. */
  lemma FieldsCons(p: string, c: char, rest: string, sep: char -> bool)
    requires forall k :: 0 <= k < |p| ==> !sep(p[k])
    requires sep(c)
    ensures Fields(p + [c] + rest, sep) == [p] + Fields(rest, sep)
  {
    var s := p + [c] + rest;
    FieldsPrefix(s, sep, |p|);
    assert s[..|p|] == p;
    assert s[|p|..] == [c] + rest;
    assert ([c] + rest)[1..] == rest;
    var g := Fields(s[|p|..], sep);
    assert g == [[]] + Fields(rest, sep);
    assert p + g[0] == p;
  }

  /** The content of a read loop: the chunks, one after another. */
  function Concat(chunks: seq<string>): string
  {
    if chunks == [] then [] else chunks[0] + Concat(chunks[1..])
  }

  /** The chunks before index i, then the chunks from i on. */
  lemma {:induction false} ConcatSplit(chunks: seq<string>, i: nat)
    requires i <= |chunks|
    ensures Concat(chunks) == Concat(chunks[..i]) + Concat(chunks[i..])
  {
    if i == 0 {
      assert chunks[..0] == [] && chunks[0..] == chunks;
    } else {
      var tail := chunks[1..];
      ConcatSplit(tail, i - 1);
      assert tail[..i - 1] == chunks[1..i] && tail[i - 1..] == chunks[i..];
      assert chunks[..i] == [chunks[0]] + chunks[1..i];
      assert Concat(chunks[..i]) == chunks[0] + Concat(chunks[1..i]);
    }
  }

  /** Reading up to byte j of chunk i: everything in the earlier chunks,
      then the first j bytes of chunk i. */
  lemma ConcatPrefix(chunks: seq<string>, i: nat, j: nat)
    requires i < |chunks| && j <= |chunks[i]|
    ensures |Concat(chunks[..i])| + j <= |Concat(chunks)|
    ensures Concat(chunks)[..|Concat(chunks[..i])| + j] == Concat(chunks[..i]) + chunks[i][..j]
  {
    ConcatSplit(chunks, i);
    var rest := chunks[i..];
    assert Concat(rest) == chunks[i] + Concat(rest[1..]);
  }

  /** One more chunk read. */
  lemma ConcatSnoc(chunks: seq<string>, i: nat)
    requires i < |chunks|
    ensures Concat(chunks[..i + 1]) == Concat(chunks[..i]) + chunks[i]
  {
    var pre := chunks[..i + 1];
    ConcatSplit(pre, i);
    assert pre[..i] == chunks[..i];
    assert pre[i..] == [chunks[i]];
    assert Concat([chunks[i]]) == chunks[i] + Concat([]);
  }
}
