/**
 * The parts of System.IO.Path the handler relies on, with `/` as the only
 * directory separator.
 */
module Paths {
  import opened Strings

  type Path = string

  /** A path whose first character is a separator. */
  predicate IsRooted(p: Path) {
    |p| > 0 && p[0] == '/'
  }

  /**
   * `Path.Combine(dir, name)`: an empty part yields the other, a rooted
   * `name` wins, and a separator is inserted unless `dir` already ends in one.
   */
  function Combine(dir: Path, name: Path): (r: Path)
    ensures name != "" ==> |name| <= |r| && r[|r| - |name|..] == name
    ensures name != "" && !IsRooted(name) ==> StartsWith(r, dir)
  {
    if name == "" then dir
    else if dir == "" || IsRooted(name) then name
    else if dir[|dir| - 1] == '/' then dir + name
    else dir + "/" + name
  }

  /** `Path.GetFileName(p)`: everything after the last separator. */
  function GetFileName(p: Path): (r: Path)
    ensures '/' !in r
    ensures |r| <= |p| && r == p[|p| - |r|..]
  {
    LastIndexOfIsLast(p, '/');
    p[LastIndexOf(p, '/') + 1..]
  }

  /**
   * `dir` is what comes before the file name of `p`: nothing when `p` has no
   * separator, the root when the only separator before the name is the first
   * character, and otherwise the part that the separator joins to the name.
   */
  predicate IsDirectoryName(p: Path, dir: Path) {
    && ('/' !in p ==> dir == "")
    && ('/' in p && |GetFileName(p)| == |p| - 1 ==> dir == "/")
    && ('/' in p && |GetFileName(p)| < |p| - 1 ==> p == dir + "/" + GetFileName(p))
  }

  /**
   * `Path.GetDirectoryName(p)`: everything before the last separator, the
   * root itself when that separator is the first character, and the empty
   * string when there is none.
   */
  function GetDirectoryName(p: Path): (r: Path)
    ensures |r| <= |p|
  {
    var k := LastIndexOf(p, '/');
    if k < 0 then "" else if k == 0 then "/" else p[..k]
  }

  /** The file name is the whole part after the last separator: the character before it is one. */
  lemma FileNameAfterSeparator(p: Path)
    ensures var r := GetFileName(p); |r| < |p| ==> p[|p| - |r| - 1] == '/'
  {
    LastIndexOfIsLast(p, '/');
  }

  /** The directory name is what comes before the file name and its separator. */
  lemma DirectoryNameSpec(p: Path)
    ensures IsDirectoryName(p, GetDirectoryName(p))
  {
    var k := LastIndexOf(p, '/');
    LastIndexOfIsLast(p, '/');
    if k > 0 {
      assert p == p[..k] + "/" + p[k + 1..];
    }
  }

  /**
   * `ext` is the extension of the file name `name`: empty when the name has
   * no `.` or ends with one, and otherwise the suffix of the name that starts
   * with a `.` and holds no other.
   */
  predicate IsExtension(name: string, ext: string) {
    && (ext == "" <==> '.' !in name || name[|name| - 1] == '.')
    && (ext != "" ==> |ext| <= |name| && ext == name[|name| - |ext|..] && ext[0] == '.' && '.' !in ext[1..])
  }

  /** `Path.GetExtension(p)`: the extension of the file name of `p`. */
  function GetExtension(p: Path): (r: string)
    ensures IsExtension(GetFileName(p), r)
  {
    NameExtension(GetFileName(p))
  }

  /** The extension of a file name: from its last `.` on, when something follows it. */
  function NameExtension(name: string): (r: string)
    ensures IsExtension(name, r)
  {
    LastIndexOfIsLast(name, '.');
    var k := LastIndexOf(name, '.');
    if k < 0 || k == |name| - 1 then "" else name[k..]
  }

  /** A separator-free suffix that a separator precedes, or the whole path, is the file name. */
  lemma FileNameUnique(p: Path, a: Path)
    requires '/' !in a && |a| <= |p| && a == p[|p| - |a|..] && (|a| < |p| ==> p[|p| - |a| - 1] == '/')
    ensures a == GetFileName(p)
  {
    FileNameAfterSeparator(p);
  }

  /** A file name has one extension: the one GetExtension reports. */
  lemma ExtensionUnique(p: Path, a: string)
    requires IsExtension(GetFileName(p), a)
    ensures a == GetExtension(p)
  {
  }

  /** Joining a directory and a separator-free name with `/` splits back into the two. */
  lemma JoinParts(dir: Path, name: Path)
    requires dir != "" && dir[|dir| - 1] != '/' && '/' !in name
    ensures GetFileName(dir + "/" + name) == name
    ensures GetDirectoryName(dir + "/" + name) == dir
  {
    var p := dir + "/" + name;
    if name == "" {
      assert p[..|p| - 1] == dir;
    } else {
      assert Combine(dir, name) == p;
      FileNameOfCombine(dir, name);
    }
    assert p[|dir|] == '/';
    FileNameAfterSeparator(p);
    DirectoryNameSpec(p);
    var r := GetDirectoryName(p);
    if |r| + 1 + |name| == |p| {
      assert r == p[..|r|];
    }
  }

  /** A file name without separators, combined onto a directory, is what GetFileName recovers. */
  lemma FileNameOfCombine(dir: Path, name: Path)
    requires name != "" && '/' !in name
    ensures GetFileName(Combine(dir, name)) == name
  {
    var r := Combine(dir, name);
    var k := LastIndexOf(r, '/');
    LastIndexOfIsLast(r, '/');
    var m := |r| - |name|;
    assert r[m..] == name;
    assert forall j :: m <= j < |r| ==> r[j] == name[j - m];
    if m > 0 {
      assert r[m - 1] == '/';
    }
    assert k == m - 1;
  }

  /** Two relative names combined onto the same directory collide only if they are equal. */
  lemma {:induction false} CombineInjective(dir: Path, a: Path, b: Path)
    requires a != "" && b != "" && !IsRooted(a) && !IsRooted(b)
    requires Combine(dir, a) == Combine(dir, b)
    ensures a == b
  {
    if dir != "" && dir[|dir| - 1] != '/' {
      assert (dir + "/" + a)[|dir| + 1..] == a;
      assert (dir + "/" + b)[|dir| + 1..] == b;
    } else if dir != "" {
      assert (dir + a)[|dir|..] == a;
      assert (dir + b)[|dir|..] == b;
    }
  }
}
