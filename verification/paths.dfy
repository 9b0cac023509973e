/**
 The two path helpers the downloader uses: joining a directory and a file name,
 and taking a file extension the way `path.extname` does on POSIX systems.
 */
module Paths {

  /** `path.join(dir, name)` without normalisation: exactly one `/` between
      the parts, none when `dir` is empty. */
  function Join(dir: string, name: string): (p: string)
    ensures |p| >= |name| && p[|p| - |name|..] == name
    ensures dir <= p
  {
    if dir == [] then name
    else if dir[|dir| - 1] == '/' then dir + name
    else dir + "/" + name
  }

  /** `p` with every trailing `/` removed. */
  function TrimTrailingSlashes(p: string): (q: string)
    ensures q <= p
    ensures q == [] || q[|q| - 1] != '/'
    ensures forall i :: |q| <= i < |p| ==> p[i] == '/'
  {
    if p != [] && p[|p| - 1] == '/' then TrimTrailingSlashes(p[..|p| - 1]) else p
  }

  /** Position of the last `c` in `s`, or -1. */
  function LastIndexOf(s: string, c: char): (k: int)
    ensures -1 <= k < |s|
    ensures k >= 0 ==> s[k] == c
    ensures forall i :: k < i < |s| ==> s[i] != c
  {
    if s == [] then -1
    else if s[|s| - 1] == c then |s| - 1
    else LastIndexOf(s[..|s| - 1], c)
  }

  /** The last component of `p`, ignoring trailing separators. */
  function Basename(p: string): (b: string)
    ensures forall i :: 0 <= i < |b| ==> b[i] != '/'
  {
    var q := TrimTrailingSlashes(p);
    q[LastIndexOf(q, '/') + 1..]
  }

  /** `path.extname(p)`: from the last `.` of the last component to its end;
      empty when that component has no `.`, has one only in first position,
      or is `..`. */
  function Extname(p: string): (e: string)
    ensures e == [] || (e[0] == '.' && |e| < |Basename(p)| && Basename(p)[|Basename(p)| - |e|..] == e)
    ensures forall i :: 0 < i < |e| ==> e[i] != '.' && e[i] != '/'
    ensures e == [] <==> LastIndexOf(Basename(p), '.') <= 0 || Basename(p) == ".."
  {
    var b := Basename(p);
    var d := LastIndexOf(b, '.');
    if d <= 0 || b == ".." then "" else b[d..]
  }
}
