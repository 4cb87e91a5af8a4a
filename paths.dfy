/** POSIX paths as the strings `Path.as_posix()` prints, with the pieces of
    `pathlib` the core uses: `name`, `parent`, `suffix`, `stem` and `/`. */
module Paths {
  import opened Wrappers
  import opened Text

  type Path = string

  /** Index of the last occurrence of c in s. */
  function LastIndexOf(s: string, c: char): (r: Option<nat>)
    ensures r.Some? ==> r.value < |s| && s[r.value] == c && c !in s[r.value + 1..]
    ensures r.None? ==> c !in s
  {
    if s == [] then None
    else if s[|s| - 1] == c then Some(|s| - 1)
    else
      var r := LastIndexOf(s[..|s| - 1], c);
      assert s == s[..|s| - 1] + [s[|s| - 1]];
      r
  }

  /** `Path(p).name`: the final component ("" for "." and "/"). */
  function Name(p: Path): (r: string)
    ensures '/' !in r
  {
    if p == "." then ""
    else match LastIndexOf(p, '/')
      case None => p
      case Some(i) => p[i + 1..]
  }

  /** `str(Path(p).parent)`: "." for a relative single component, "/" at the root. */
  function Parent(p: Path): (r: Path)
    ensures r != ""
  {
    match LastIndexOf(p, '/')
    case None => "."
    case Some(i) => if i == 0 then "/" else p[..i]
  }

  /** `Path(d) / n` for a relative name n (an empty name adds nothing). */
  function JoinPath(d: Path, n: string): Path
  {
    if n == "" then d else if d == "." then n else if d == "/" then "/" + n else d + "/" + n
  }

  /** Different non-empty names under one directory are different paths. */
  lemma JoinPathInjective(d: Path, a: string, b: string)
    requires a != "" && b != ""
    requires JoinPath(d, a) == JoinPath(d, b)
    ensures a == b
  {
    var pre := if d == "." then "" else if d == "/" then "/" else d + "/";
    assert JoinPath(d, a) == pre + a && JoinPath(d, b) == pre + b;
    assert a == (pre + a)[|pre|..] && b == (pre + b)[|pre|..];
  }

  /** The dot `suffix`/`stem` split on: the last '.' that is neither the first
      nor the last character of the name. */
  function SuffixDot(name: string): (r: Option<nat>)
    ensures r.Some? ==> 0 < r.value < |name| - 1 && name[r.value] == '.'
  {
    match LastIndexOf(name, '.')
    case Some(i) => if 0 < i < |name| - 1 then Some(i) else None
    case None => None
  }

  /** `Path.suffix` of a name. */
  function Suffix(name: string): string
  {
    match SuffixDot(name)
    case Some(i) => name[i..]
    case None => ""
  }

  /** `Path.stem` of a name. */
  function Stem(name: string): string
  {
    match SuffixDot(name)
    case Some(i) => name[..i]
    case None => name
  }

  /** Stem and suffix split the name. */
  lemma StemSuffix(name: string)
    ensures Stem(name) + Suffix(name) == name
  {
    match SuffixDot(name)
    case Some(i) => assert name == name[..i] + name[i..];
    case None =>
  }

  /** Joining a name under a directory and asking for its name gives the name back. */
  lemma NameOfJoin(d: Path, n: string)
    requires n != "" && n != "." && '/' !in n
    ensures Name(JoinPath(d, n)) == n
    ensures d != "." && '/' in d ==> Parent(JoinPath(d, n)) == d
  {
    var j := JoinPath(d, n);
    if d == "." {
      assert LastIndexOf(j, '/').None?;
    } else {
      var pre := if d == "/" then "" else d;
      assert j == pre + "/" + n;
      var k := |pre|;
      assert j[k] == '/' && j[k + 1..] == n;
      var r := LastIndexOf(j, '/');
      assert r.Some? by { assert '/' in j; }
      assert r.value == k;
      if d != "/" && '/' in d {
        assert j[..k] == d;
      }
    }
  }
}
