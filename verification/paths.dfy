/** isTextFile: which file names the checker reads. */
module Paths {
  import opened Strings

  /** The text from the last '.' of the name on is exactly ".txt". Because
      "txt" holds no '.', that is the same as the name ending in ".txt". */
  predicate IsTextFile(name: string)
    ensures IsTextFile(name) <==> |name| >= 4 && name[|name| - 4..] == ".txt"
  {
    LastDotOfSuffix(name);
    match LastIndexOf(name, '.')
    case None => false
    case Some(i) => name[i..] == ".txt"
  }

  /** In a name ending in ".txt" the last '.' is the one four from the end. */
  lemma LastDotOfSuffix(name: string)
    ensures |name| >= 4 && name[|name| - 4..] == ".txt" ==> LastIndexOf(name, '.') == Some(|name| - 4)
  {
    var n := |name|;
    if n >= 4 && name[n - 4..] == ".txt" {
      assert name[n - 4] == '.';
      var last := LastIndexOf(name, '.');
      assert last.Some? && n - 4 <= last.value;
      assert name[n - 3] == 't' && name[n - 2] == 'x' && name[n - 1] == 't';
    }
  }
}
