/** System.IO.Path.Combine on Windows, as the configuration and icon cache
    paths are built with it. */
module Paths {

  predicate IsDirectorySeparator(c: char) {
    c == '\\' || c == '/'
  }

  /** Path.IsPathRooted: a leading separator or a drive letter and colon. */
  predicate IsPathRooted(p: string) {
    (|p| >= 1 && IsDirectorySeparator(p[0]))
    || (|p| >= 2 && (('a' <= p[0] <= 'z') || ('A' <= p[0] <= 'Z')) && p[1] == ':')
  }

  /** Path.Combine(first, second). */
  function Combine(first: string, second: string): (r: string)
    ensures first == [] ==> r == second
    ensures second == [] ==> r == first
    ensures first != [] && IsPathRooted(second) ==> r == second
  {
    if first == [] then second
    else if second == [] then first
    else if IsPathRooted(second) then second
    else if IsDirectorySeparator(first[|first| - 1]) || IsDirectorySeparator(second[0]) then first + second
    else first + "\\" + second
  }

  /** Combining with a relative name keeps the directory as a prefix and
      the name as a suffix. */
  lemma CombineRelative(first: string, second: string)
    requires second != [] && !IsPathRooted(second)
    ensures exists mid :: Combine(first, second) == first + mid + second && (mid == "" || mid == "\\")
  {
    if first == [] {
      assert Combine(first, second) == first + "" + second;
    } else if IsDirectorySeparator(first[|first| - 1]) || IsDirectorySeparator(second[0]) {
      assert first + "" == first;
      assert Combine(first, second) == first + "" + second;
    } else {
      assert Combine(first, second) == first + "\\" + second;
    }
  }

  /** Two relative file names in the same directory give the same path
      only when they are the same name. */
  lemma CombineInjective(dir: string, a: string, b: string)
    requires a != [] && !IsPathRooted(a) && !IsDirectorySeparator(a[0])
    requires b != [] && !IsPathRooted(b) && !IsDirectorySeparator(b[0])
    requires Combine(dir, a) == Combine(dir, b)
    ensures a == b
  {
    if dir != [] && !IsDirectorySeparator(dir[|dir| - 1]) {
      assert Combine(dir, a) == (dir + "\\") + a;
      assert Combine(dir, b) == (dir + "\\") + b;
      assert a == Combine(dir, a)[|dir| + 1..];
    } else if dir != [] {
      assert a == Combine(dir, a)[|dir|..];
    }
  }
}
