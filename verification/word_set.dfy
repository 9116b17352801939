/** The dictionary's word set: a chained hash table of strings with a fixed
    number of buckets, indexed by the djb2 hash of the word. The abstract
    view of a table is the set of words stored in any of its chains. */
module WordSet {

  /** TABLE_SIZE, a prime. */
  const TableSize: nat := 100003

  /** `unsigned long` arithmetic is taken modulo 2^64. */
  const WordModulus: nat := 0x1_0000_0000_0000_0000

  const Seed: nat := 5381

  /** djb2: starting from the seed, every character updates the value to
      value * 33 + code, wrapping around at 64 bits. */
  function Djb2(w: string): (h: nat)
    ensures h < WordModulus
  {
    if w == [] then Seed
    else (Djb2(w[..|w| - 1]) * 33 + w[|w| - 1] as int) % WordModulus
  }

  /** hash: the bucket index of a word. */
  function Hash(w: string): (i: nat)
    ensures i < TableSize
  {
    Djb2(w) % TableSize
  }

  /** One chain per bucket; the head of a chain is its first element. */
  datatype Table = Table(buckets: seq<seq<string>>)

  /** The table has exactly TABLE_SIZE buckets, so every hash is a valid index. */
  predicate WellFormed(t: Table)
  {
    |t.buckets| == TableSize
  }

  /** Every stored word sits in the chain its hash selects. */
  ghost predicate Valid(t: Table)
  {
    && WellFormed(t)
    && forall i, j :: 0 <= i < |t.buckets| && 0 <= j < |t.buckets[i]| ==> Hash(t.buckets[i][j]) == i
  }

  /** The words stored anywhere in the table. */
  ghost function Contents(t: Table): set<string>
  {
    set i, j | 0 <= i < |t.buckets| && 0 <= j < |t.buckets[i]| :: t.buckets[i][j]
  }

  /** The table before any word is loaded: every chain empty. */
  function Empty(): (t: Table)
    ensures Valid(t)
    ensures Contents(t) == {}
  {
    Table(seq(TableSize, _ => []))
  }

  /** insertWord: the word goes to the head of its chain, without any check
      for a copy already being there. */
  function Insert(t: Table, w: string): (r: Table)
    requires WellFormed(t)
    ensures WellFormed(r)
    ensures Valid(t) ==> Valid(r)
    ensures |r.buckets[Hash(w)]| == |t.buckets[Hash(w)]| + 1
    ensures forall i :: 0 <= i < TableSize && i != Hash(w) ==> r.buckets[i] == t.buckets[i]
  {
    var h := Hash(w);
    Table(t.buckets[h := [w] + t.buckets[h]])
  }

  /** Inserting adds the word to the stored set and nothing else; inserting
      a word already present leaves the set as it was. */
  lemma InsertContents(t: Table, w: string)
    requires WellFormed(t)
    ensures Contents(Insert(t, w)) == Contents(t) + {w}
    ensures w in Contents(t) ==> Contents(Insert(t, w)) == Contents(t)
  {
    var h := Hash(w);
    var r := Insert(t, w);
    assert r.buckets == t.buckets[h := [w] + t.buckets[h]];
    forall x | x in Contents(r)
      ensures x in Contents(t) + {w}
    {
      var i, j :| 0 <= i < |r.buckets| && 0 <= j < |r.buckets[i]| && r.buckets[i][j] == x;
      if i == h && j > 0 {
        assert t.buckets[i][j - 1] == x;
      } else if i != h {
        assert t.buckets[i][j] == x;
      }
    }
    forall x | x in Contents(t) + {w}
      ensures x in Contents(r)
    {
      if x == w {
        assert r.buckets[h][0] == w;
      } else {
        var i, j :| 0 <= i < |t.buckets| && 0 <= j < |t.buckets[i]| && t.buckets[i][j] == x;
        if i == h {
          assert r.buckets[i][j + 1] == x;
        } else {
          assert r.buckets[i][j] == x;
        }
      }
    }
  }

  /** findWord (and isWordInDictionary, which only forwards to it): is the
      word in the chain its hash selects? */
  function Find(t: Table, w: string): (found: bool)
    requires WellFormed(t)
    ensures Valid(t) ==> (found <==> w in Contents(t))
  {
    var found := w in t.buckets[Hash(w)];
    FindContents(t, w);
    found
  }

  lemma FindContents(t: Table, w: string)
    requires WellFormed(t)
    ensures Valid(t) ==> (w in t.buckets[Hash(w)] <==> w in Contents(t))
  {
    var h := Hash(w);
    if w in t.buckets[h] {
      var j :| 0 <= j < |t.buckets[h]| && t.buckets[h][j] == w;
      assert w in Contents(t);
    }
    if Valid(t) && w in Contents(t) {
      var i, j :| 0 <= i < |t.buckets| && 0 <= j < |t.buckets[i]| && t.buckets[i][j] == w;
      assert Hash(w) == i;
    }
  }

  /** findWord's walk along the chain, stopping at the first equal word. */
  method FindWord(t: Table, w: string) returns (found: bool)
    requires WellFormed(t)
    ensures found <==> w in t.buckets[Hash(w)]
    ensures Valid(t) ==> (found <==> w in Contents(t))
  {
    var list := t.buckets[Hash(w)];
    var k := 0;
    while k < |list|
      invariant 0 <= k <= |list|
      invariant w !in list[..k]
    {
      if list[k] == w {
        FindContents(t, w);
        return true;
      }
      k := k + 1;
    }
    assert list[..k] == list;
    FindContents(t, w);
    return false;
  }

  /** After an insertion the word is found, and whether any other word is
      found is what it was before; inserting a word already present changes
      no lookup at all. None of this depends on the table being Valid. */
  lemma {:induction false} FindAfterInsert(t: Table, w: string, x: string)
    requires WellFormed(t)
    ensures Find(Insert(t, w), w)
    ensures x != w ==> Find(Insert(t, w), x) == Find(t, x)
    ensures Find(t, w) ==> Find(Insert(t, w), x) == Find(t, x)
  {
    var r := Insert(t, w);
    assert r.buckets[Hash(w)] == [w] + t.buckets[Hash(w)];
    if Hash(x) == Hash(w) {
      assert x in r.buckets[Hash(x)] <==> x == w || x in t.buckets[Hash(x)];
    } else {
      assert r.buckets[Hash(x)] == t.buckets[Hash(x)];
    }
  }
}
