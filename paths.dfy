/**
 * The POSIX behaviour of Python's `os.path` helpers the renamer calls:
 * `basename`, `join` (two arguments) and `splitext`.
 */
module Paths {

  /** `str.rfind(c)`: the last position of `c` in `s`, or -1. */
  function LastIndexOf(s: string, c: char): (r: int)
    ensures -1 <= r < |s|
    ensures r >= 0 ==> s[r] == c
    ensures forall i :: r < i < |s| ==> s[i] != c
  {
    if s == [] then -1
    else if s[|s| - 1] == c then |s| - 1
    else LastIndexOf(s[..|s| - 1], c)
  }

  /** `os.path.basename`: what follows the last '/'. */
  function Basename(p: string): (b: string)
    ensures '/' !in b
    ensures |b| <= |p| && b == p[|p| - |b|..]
  {
    p[LastIndexOf(p, '/') + 1..]
  }

  /**
   * The base name is exactly what follows the last '/': a suffix without '/',
   * preceded by a '/' unless it is the whole path.
   */
  lemma BasenameAfterLastSlash(p: string)
    ensures var b := Basename(p);
      && |b| <= |p| && b == p[|p| - |b|..] && '/' !in b
      && (|b| == |p| || p[|p| - |b| - 1] == '/')
  {
  }

  /** `os.path.join(a, b)`: an absolute `b` replaces `a`; otherwise one '/' goes between them. */
  function Join(a: string, b: string): (r: string)
    ensures b != [] && b[0] == '/' ==> r == b
    ensures (b == [] || b[0] != '/') && (a == [] || a[|a| - 1] == '/') ==> r == a + b
    ensures (b == [] || b[0] != '/') && a != [] && a[|a| - 1] != '/' ==> r == a + "/" + b
  {
    if b != [] && b[0] == '/' then b
    else if a == [] || a[|a| - 1] == '/' then a + b
    else a + "/" + b
  }

  /** What `Join(a, b)` puts in front of a relative `b`. */
  function JoinPrefix(a: string): string {
    if a == [] || a[|a| - 1] == '/' then a else a + "/"
  }

  lemma JoinRelative(a: string, b: string)
    requires b == [] || b[0] != '/'
    ensures Join(a, b) == JoinPrefix(a) + b
  {
  }

  /**
   * `os.path.splitext`: the extension runs from the last '.' of the last path
   * segment, unless that segment has nothing but dots before it.
   */
  function SplitExt(p: string): (r: (string, string))
    ensures r.0 + r.1 == p
    ensures r.1 == [] || (r.1[0] == '.' && '.' !in r.1[1..] && '/' !in r.1)
    ensures r.1 == [] ==>
      forall i, j :: LastIndexOf(p, '/') < i < j < |p| && p[i] != '.' ==> p[j] != '.'
  {
    var sep := LastIndexOf(p, '/');
    var dot := LastIndexOf(p, '.');
    if dot > sep && exists k | sep + 1 <= k < dot :: p[k] != '.' then
      assert p[dot..][1..] == p[dot + 1..];
      (p[..dot], p[dot..])
    else
      (p, "")
  }

  /**
   * A non-empty extension needs a non-dot character of the last segment
   * before it, so a segment with nothing but dots before its last '.'
   * (".bashrc", "..pkg") has none.
   */
  lemma SplitExtNeedsNonDot(p: string)
    ensures var r := SplitExt(p);
      r.1 != [] ==> exists k :: LastIndexOf(p, '/') < k < |r.0| && p[k] != '.'
  {
  }

  /** A name without '/' that ends in ".pkg" after a non-dot splits into that stem and ".pkg". */
  lemma SplitExtPkg(stem: string)
    requires stem != [] && stem[|stem| - 1] != '.' && '/' !in stem
    ensures SplitExt(stem + ".pkg") == (stem, ".pkg")
  {
    var p := stem + ".pkg";
    assert '/' !in p by {
      assert forall i :: 0 <= i < |p| ==> p[i] == if i < |stem| then stem[i] else ".pkg"[i - |stem|];
    }
    var dot := LastIndexOf(p, '.');
    assert p[|stem|] == '.';
    assert forall i :: |stem| < i < |p| ==> p[i] != '.';
    assert p[|stem| - 1] != '.';
  }
}
