/** Path components, the string form of a path, and the pathlib suffix of a name. */
module Paths {

  /** A single path component as it appears in a directory listing. */
  predicate ValidName(s: string) {
    |s| > 0 && '/' !in s && s != "." && s != ".."
  }

  type Name = s: string | ValidName(s) witness "x"

  /** A pathlib path: absolute ("/a/b") or relative to the working directory ("a/b"). */
  datatype PathRef = PathRef(absolute: bool, names: seq<Name>)

  /** The components joined with '/'. */
  function Join(names: seq<Name>): (s: string)
    ensures names != [] ==> |s| > 0 && s[0] == names[0][0]
  {
    if names == [] then ""
    else if |names| == 1 then names[0]
    else names[0] + "/" + Join(names[1..])
  }

  /** str(path): "/" for the root, "." for the empty relative path. */
  function Str(p: PathRef): (s: string)
    ensures |s| > 0
    ensures p.absolute <==> s[0] == '/'
  {
    if p.absolute then "/" + Join(p.names)
    else if p.names == [] then "."
    else Join(p.names)
  }

  /** The pathlib `/` operator: one more component, same anchoring. */
  function Slash(p: PathRef, name: Name): PathRef {
    PathRef(p.absolute, p.names + [name])
  }

  /** The components, from "/", a path stands for when the working directory is cwd. */
  function Locate(cwd: seq<Name>, p: PathRef): seq<Name> {
    if p.absolute then p.names else cwd + p.names
  }

  predicate StartsWith(s: string, prefix: string) {
    |prefix| <= |s| && s[..|prefix|] == prefix
  }

  predicate EndsWith(s: string, tail: string) {
    |tail| <= |s| && s[|s| - |tail|..] == tail
  }

  /** str.rfind(c): the index of the last occurrence of c in s, or -1. */
  function RFind(s: string, c: char): (i: int)
    ensures -1 <= i < |s|
    ensures i == -1 ==> c !in s
    ensures i >= 0 ==> s[i] == c && c !in s[i + 1..]
  {
    if s == [] then -1
    else if s[|s| - 1] == c then |s| - 1
    else
      var init := s[..|s| - 1];
      var i := RFind(init, c);
      assert s == init + [s[|s| - 1]];
      assert i >= 0 ==> s[i + 1..] == init[i + 1..] + [s[|s| - 1]];
      i
  }

  /**
   * PurePath.suffix of a final component: the text from the last '.' on,
   * provided that dot is neither the first nor the last character.
   * This rule belongs to Python's standard library, not to the program.
   */
  function Suffix(name: string): (r: string)
    ensures r != [] ==> 2 <= |r| < |name| && r[0] == '.' && '.' !in r[1..] && EndsWith(name, r)
  {
    var i := RFind(name, '.');
    if 0 < i < |name| - 1 then name[i..] else ""
  }

  /**
   * A name has no suffix exactly when it has no dot, its only dot is the
   * leading one (".bashrc"), or it ends with a dot ("notes.").
   */
  lemma SuffixEmptyIff(name: string)
    ensures Suffix(name) == "" <==>
      ('.' !in name
       || (name[0] == '.' && '.' !in name[1..])
       || name[|name| - 1] == '.')
  {
    var i := RFind(name, '.');
    if i == 0 {
      assert name[1..] == name[i + 1..];
    } else if 0 < i < |name| - 1 {
      assert name[i] == '.';
      assert name[i] in name[1..] by { assert name[1..][i - 1] == name[i]; }
      assert name[|name| - 1] in name[i + 1..] by { assert name[i + 1..][|name| - 2 - i] == name[|name| - 1]; }
    }
  }
}
