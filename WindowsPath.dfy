/**
 * The part of .NET's System.IO.Path that the modelled programs use, with
 * the rules it follows on Windows: '\\' and '/' separate directories and a
 * drive letter with a colon roots a path.
 */
module WindowsPath {
  import opened Wrappers

  predicate IsDirectorySeparator(c: char) {
    c == '\\' || c == '/'
  }

  predicate IsValidDriveChar(c: char) {
    'A' <= c <= 'Z' || 'a' <= c <= 'z'
  }

  /** Path.IsPathRooted on Windows: a leading separator, or a drive letter and a colon. */
  predicate IsPathRooted(p: string) {
    || (|p| >= 1 && IsDirectorySeparator(p[0]))
    || (|p| >= 2 && IsValidDriveChar(p[0]) && p[1] == ':')
  }

  /** Path.Combine(first, second) for a second path that is not rooted. */
  function Combine(first: string, second: string): string
    requires !IsPathRooted(second)
  {
    if first == [] then second
    else if second == [] then first
    else if IsDirectorySeparator(first[|first| - 1]) || IsDirectorySeparator(second[0]) then first + second
    else first + "\\" + second
  }

  /** The last '.' before index `i` that no separator follows: Path.GetExtension's backward scan. */
  function LastDot(path: string, i: nat): (r: Option<nat>)
    requires i <= |path|
    ensures r.Some? ==> r.value < i && path[r.value] == '.'
    ensures r.Some? ==> forall k :: r.value < k < i ==> path[k] != '.' && !IsDirectorySeparator(path[k])
    decreases i
  {
    if i == 0 then None
    else if path[i - 1] == '.' then Some(i - 1)
    else if IsDirectorySeparator(path[i - 1]) then None
    else LastDot(path, i - 1)
  }

  /**
   * Path.GetExtension: from the last '.' of the file name to the end, or
   * empty when there is no '.' or the '.' ends the path.
   */
  function Extension(path: string): (e: string)
    ensures e == [] || (2 <= |e| <= |path| && e[0] == '.' && e == path[|path| - |e|..])
    ensures forall k :: 1 <= k < |e| ==> e[k] != '.' && !IsDirectorySeparator(e[k])
  {
    match LastDot(path, |path|)
    case None => []
    case Some(d) => if d == |path| - 1 then [] else path[d..]
  }

  /** Path.GetFileName: the part after the last separator. */
  function FileName(path: string): (n: string)
    ensures |n| <= |path| && n == path[|path| - |n|..]
    ensures forall k :: 0 <= k < |n| ==> !IsDirectorySeparator(n[k])
  {
    if path == [] || IsDirectorySeparator(path[|path| - 1]) then []
    else FileName(path[..|path| - 1]) + [path[|path| - 1]]
  }

  /** The file name is everything after the last separator: the whole path, or preceded by a separator. */
  lemma {:induction false} FileNameAfterLastSeparator(path: string)
    ensures FileName(path) == path || IsDirectorySeparator(path[|path| - |FileName(path)| - 1])
  {
    if path != [] && !IsDirectorySeparator(path[|path| - 1]) {
      var init := path[..|path| - 1];
      FileNameAfterLastSeparator(init);
      var n0 := FileName(init);
      assert FileName(path) == n0 + [path[|path| - 1]];
      if n0 == init {
        assert path == init + [path[|path| - 1]];
      } else {
        assert path[|init| - |n0| - 1] == init[|init| - |n0| - 1];
      }
    }
  }

  /** The file name of a directory path joined with a name is that name. */
  lemma {:induction false} FileNameOfCombined(dir: string, name: string)
    requires forall k :: 0 <= k < |name| ==> !IsDirectorySeparator(name[k])
    ensures FileName(dir + "\\" + name) == name
    decreases |name|
  {
    var p := dir + "\\" + name;
    if name != [] {
      var init := name[..|name| - 1];
      FileNameOfCombined(dir, init);
      assert p[..|p| - 1] == dir + "\\" + init;
      assert name == init + [name[|name| - 1]];
    }
  }
}
