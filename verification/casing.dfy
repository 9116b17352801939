/** The case variants the loader derives from a dictionary word, and the
    unused initial-capital helper of the program. */
module Casing {
  import opened Ascii

  /** toAllCaps: every character through toupper, the length kept. */
  function ToAllCaps(w: string): (r: string)
    ensures |r| == |w|
    ensures forall i :: 0 <= i < |w| ==> r[i] == ToUpper(w[i])
  {
    if w == [] then [] else [ToUpper(w[0])] + ToAllCaps(w[1..])
  }

  /** The loader's initial-capital variant: a copy of the word whose first
      character goes through toupper, the rest left as it was. An empty word
      stays empty (toupper of the terminator is the terminator). The result
      differs from the word only in case, and is a new word exactly when the
      word starts with a lower-case letter. */
  function CapitalizeFirst(w: string): (r: string)
    ensures |r| == |w|
    ensures |w| > 0 ==> r[0] == ToUpper(w[0])
    ensures forall i :: 1 <= i < |w| ==> r[i] == w[i]
    ensures forall i :: 0 <= i < |w| ==> ToUpper(r[i]) == ToUpper(w[i])
    ensures r == w <==> w == [] || !IsLower(w[0])
  {
    if w == [] then []
    else
      ToUpperFixes(w[0]);
      ToUpperFixes(ToUpper(w[0]));
      var r := [ToUpper(w[0])] + w[1..];
      assert r[0] == ToUpper(w[0]);
      r
  }

  /** Every character through tolower. */
  function ToAllLower(w: string): (r: string)
    ensures |r| == |w|
    ensures forall i :: 0 <= i < |w| ==> r[i] == ToLower(w[i])
  {
    if w == [] then [] else [ToLower(w[0])] + ToAllLower(w[1..])
  }

  /** toInitialCap: the first character through toupper, every later one
      through tolower. Nothing in the program calls it. */
  function ToInitialCap(w: string): (r: string)
    ensures |r| == |w|
    ensures |w| > 0 ==> r[0] == ToUpper(w[0])
    ensures forall i :: 1 <= i < |w| ==> r[i] == ToLower(w[i])
  {
    if w == [] then [] else [ToUpper(w[0])] + ToAllLower(w[1..])
  }

  /** Upper-casing twice is upper-casing once. */
  lemma AllCapsIdempotent(w: string)
    ensures ToAllCaps(ToAllCaps(w)) == ToAllCaps(w)
  {
    forall i | 0 <= i < |w|
      ensures ToAllCaps(ToAllCaps(w))[i] == ToAllCaps(w)[i]
    {
      ToUpperFixes(w[i]);
    }
  }

  /** A word is its own all-caps form exactly when it has no lower-case letter. */
  lemma AllCapsFixes(w: string)
    ensures ToAllCaps(w) == w <==> forall i :: 0 <= i < |w| ==> !IsLower(w[i])
  {
    if ToAllCaps(w) == w {
      forall i | 0 <= i < |w|
        ensures !IsLower(w[i])
      {
        ToUpperFixes(w[i]);
        assert ToAllCaps(w)[i] == w[i];
      }
    }
    if forall i :: 0 <= i < |w| ==> !IsLower(w[i]) {
      forall i | 0 <= i < |w|
        ensures ToAllCaps(w)[i] == w[i]
      {
        ToUpperFixes(w[i]);
      }
    }
  }

  /** The initial-capital variant coincides with the all-caps one exactly
      when no character after the first is a lower-case letter; so for a
      one-letter word the two always coincide. */
  lemma CapitalizeFirstIsAllCaps(w: string)
    ensures CapitalizeFirst(w) == ToAllCaps(w) <==> forall i :: 1 <= i < |w| ==> !IsLower(w[i])
  {
    if w != [] {
      var c := CapitalizeFirst(w);
      var a := ToAllCaps(w);
      assert c[0] == a[0];
      if c == a {
        forall i | 1 <= i < |w|
          ensures !IsLower(w[i])
        {
          assert c[i] == w[i] && a[i] == ToUpper(w[i]);
          ToUpperFixes(w[i]);
        }
      }
      if forall i :: 1 <= i < |w| ==> !IsLower(w[i]) {
        forall i | 0 <= i < |w|
          ensures c[i] == a[i]
        {
          ToUpperFixes(w[i]);
        }
      }
    }
  }

  /** toInitialCap agrees with the variant the loader builds exactly when no
      character after the first is a capital: "eBay" gives "EBay" in the
      loader but "Ebay" through toInitialCap. */
  lemma InitialCapDiffers(w: string)
    ensures ToInitialCap(w) == CapitalizeFirst(w) <==> forall i :: 1 <= i < |w| ==> !IsUpper(w[i])
  {
    if w != [] {
      var t := ToInitialCap(w);
      var c := CapitalizeFirst(w);
      if t == c {
        forall i | 1 <= i < |w|
          ensures !IsUpper(w[i])
        {
          assert t[i] == ToLower(w[i]) && c[i] == w[i];
          ToLowerFixes(w[i]);
        }
      }
      if forall i :: 1 <= i < |w| ==> !IsUpper(w[i]) {
        forall i | 0 <= i < |w|
          ensures t[i] == c[i]
        {
          ToLowerFixes(w[i]);
        }
      }
    }
  }
}
