/** stripPunctuation: a raw token loses everything before its first letter
    or digit and everything after its last one. */
module Normalize {
  import opened Ascii

  /** The index of the first letter or digit, |w| when there is none. */
  function FirstAlnum(w: string): (i: nat)
    ensures i <= |w|
    ensures forall k :: 0 <= k < i ==> !IsAlnum(w[k])
    ensures i < |w| ==> IsAlnum(w[i])
  {
    if w == [] || IsAlnum(w[0]) then 0 else 1 + FirstAlnum(w[1..])
  }

  /** One past the index of the last letter or digit, 0 when there is none. */
  function EndAlnum(w: string): (j: nat)
    ensures j <= |w|
    ensures forall k :: j <= k < |w| ==> !IsAlnum(w[k])
    ensures j > 0 ==> IsAlnum(w[j - 1])
  {
    if w == [] || IsAlnum(w[|w| - 1]) then |w| else EndAlnum(w[..|w| - 1])
  }

  /** The stretch from the first to the last letter or digit, and nothing
      when the word has none. */
  function Strip(w: string): (r: string)
    ensures r == [] <==> forall k :: 0 <= k < |w| ==> !IsAlnum(w[k])
    ensures r != [] ==> IsAlnum(r[0]) && IsAlnum(r[|r| - 1])
    ensures |r| <= |w|
  {
    var i := FirstAlnum(w);
    if i == |w| then []
    else
      var j := EndAlnum(w);
      assert i < j;
      w[i..j]
  }

  /** Whatever stretch `w[a..b]` begins and ends with a letter or digit and
      has none outside it is what Strip returns. */
  lemma StripIsTheStretch(w: string, a: nat, b: nat)
    requires a < b <= |w|
    requires IsAlnum(w[a]) && IsAlnum(w[b - 1])
    requires forall k :: 0 <= k < a ==> !IsAlnum(w[k])
    requires forall k :: b <= k < |w| ==> !IsAlnum(w[k])
    ensures Strip(w) == w[a..b]
  {
    assert FirstAlnum(w) == a;
    assert EndAlnum(w) == b;
  }

  /** A word that starts and ends with a letter or digit is left as it is. */
  lemma StripKeeps(w: string)
    requires w != [] && IsAlnum(w[0]) && IsAlnum(w[|w| - 1])
    ensures Strip(w) == w
  {
    StripIsTheStretch(w, 0, |w|);
    assert w[0..|w|] == w;
  }

  /** The program's two index loops and the final copy. */
  method StripPunctuation(w: string) returns (r: string)
    ensures r == Strip(w)
  {
    var len := |w|;
    if len == 0 {
      return w;
    }
    var start := 0;
    while start < len && !IsAlnum(w[start])
      invariant 0 <= start <= len
      invariant forall k :: 0 <= k < start ==> !IsAlnum(w[k])
    {
      start := start + 1;
    }
    assert start == FirstAlnum(w);
    if start == len {
      return [];
    }
    var end := len - 1;
    while end > 0 && !IsAlnum(w[end])
      invariant start <= end < len
      invariant forall k :: end < k < len ==> !IsAlnum(w[k])
    {
      end := end - 1;
    }
    assert end + 1 == EndAlnum(w);
    r := w[start..end + 1];
  }

  /** Stripping twice is stripping once. */
  lemma StripIdempotent(w: string)
    ensures Strip(Strip(w)) == Strip(w)
  {
    var r := Strip(w);
    if r != [] {
      assert FirstAlnum(r) == 0;
      assert EndAlnum(r) == |r|;
      assert r[0..|r|] == r;
    }
  }
}
