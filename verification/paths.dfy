/** The part of `pathlib.PurePath` the script uses: an absolute path split
    into its directory names and its final name, the names of its ancestors
    (`parents`), and its `suffix`. */
module Paths {

  /** An absolute path such as /home/u/repo/docs/a.md, held as the directory
      names below the filesystem root (["home", "u", "repo", "docs"]) and the
      final component ("a.md"). `parents` lists the directories from the
      nearest one up to the root; the root itself is a parent whose name is
      the empty string. */
  datatype FilePath = FilePath(dirs: seq<string>, name: string)

  /** Names of `p.parents`, nearest first, ending with the root's "". */
  function ParentNames(p: FilePath): (names: seq<string>)
    ensures |names| == |p.dirs| + 1 && names[|p.dirs|] == ""
    ensures forall i :: 0 <= i < |p.dirs| ==> names[i] == p.dirs[|p.dirs| - 1 - i]
    decreases |p.dirs|
  {
    if p.dirs == [] then [""]
    else [p.dirs[|p.dirs| - 1]] + ParentNames(FilePath(p.dirs[..|p.dirs| - 1], p.name))
  }

  /** `s.rfind(c)`: the last index holding `c`, or -1 when there is none. */
  function RFind(s: string, c: char): (i: int)
    ensures -1 <= i < |s|
    ensures 0 <= i ==> s[i] == c
    ensures forall j :: i < j < |s| ==> s[j] != c
    decreases |s|
  {
    if s == [] then -1
    else if s[|s| - 1] == c then |s| - 1
    else RFind(s[..|s| - 1], c)
  }

  /** `PurePath(name).suffix`: the text from the last '.' of the name, unless
      that dot is the first character (a name like ".bashrc") or the last one
      (a name like "notes."), in which case the suffix is empty. So a
      non-empty suffix is a '.' followed by at least one character, none of
      them a '.', taken from the end of the name after at least one other
      character; and the suffix is empty exactly when no '.' stands after the
      first character or the name ends with '.'. */
  function Suffix(name: string): (r: string)
    ensures r == [] || (1 < |r| < |name| && r == name[|name| - |r|..] && r[0] == '.'
                        && forall j :: 1 <= j < |r| ==> r[j] != '.')
    ensures r == [] <==>
      ((forall k :: 0 < k < |name| ==> name[k] != '.') || (|name| > 0 && name[|name| - 1] == '.'))
  {
    var i := RFind(name, '.');
    if 0 < i < |name| - 1 then name[i..] else ""
  }
}
