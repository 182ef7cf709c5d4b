/** `is_c_filename`: the extension test applied to directory entries. */
module Filenames {
  import opened Chars

  /** `strrchr(name, '.')`: the index of the last dot, if any. */
  function LastDot(name: string): (r: Option<nat>)
    ensures r.None? ==> '.' !in name
    ensures r.Some? ==> r.value < |name| && name[r.value] == '.' && '.' !in name[r.value + 1..]
  {
    if name == [] then None
    else if name[|name| - 1] == '.' then Some(|name| - 1)
    else
      var r := LastDot(name[..|name| - 1]);
      assert r.Some? ==> name[r.value + 1..] == name[..|name| - 1][r.value + 1..] + [name[|name| - 1]];
      r
  }

  /** The suffix from the last dot is exactly `.c`; a name without a dot is not a C file. */
  function IsCFilename(name: string): (b: bool)
    ensures b <==> |name| >= 2 && name[|name| - 2..] == ".c"
  {
    match LastDot(name)
    case None =>
      assert |name| >= 2 ==> name[|name| - 2] in name;
      false
    case Some(i) =>
      assert i < |name| - 2 ==> name[|name| - 2] == name[i + 1..][|name| - 3 - i];
      name[i..] == ".c"
  }

  /** A few names: the last extension decides, and a name needs a dot. */
  lemma CFilenameExamples()
    ensures IsCFilename("a.b.c")
    ensures !IsCFilename("foo.c.h")
    ensures !IsCFilename("foo")
    ensures !IsCFilename("c")
  {
  }
}
