/**
 * The parts of Python's os.path (POSIX flavour) and of str() that the sorter
 * relies on: basename, join, splitext, and the decimal rendering of a counter.
 */
module PathOps {

  /** Index of the last occurrence of `c` in `s`, or -1 (Python's str.rfind). */
  function LastIndexOf(s: string, c: char): (r: int)
    ensures -1 <= r < |s|
    ensures r >= 0 ==> s[r] == c
    ensures forall i :: r < i < |s| ==> s[i] != c
  {
    if |s| == 0 then -1
    else if s[|s| - 1] == c then |s| - 1
    else LastIndexOf(s[..|s| - 1], c)
  }

  /** `suffix` is a suffix of `s` (Python's str.endswith). */
  predicate EndsWith(s: string, suffix: string) {
    |suffix| <= |s| && s[|s| - |suffix|..] == suffix
  }

  /** A suffix of a suffix is a suffix. */
  lemma EndsWithTransitive(s: string, t: string, u: string)
    requires EndsWith(s, t) && EndsWith(t, u)
    ensures EndsWith(s, u)
  {
    assert s[|s| - |t|..][|t| - |u|..] == s[|s| - |u|..];
  }

  /** os.path.basename: the final component, i.e. the longest suffix without '/'. */
  function BaseName(p: string): string {
    p[LastIndexOf(p, '/') + 1..]
  }

  lemma BaseNameSpec(p: string)
    ensures '/' !in BaseName(p)
    ensures EndsWith(p, BaseName(p))
    ensures |BaseName(p)| < |p| ==> p[|p| - |BaseName(p)| - 1] == '/'
  {
    var r := BaseName(p);
    assert forall k :: 0 <= k < |r| ==> r[k] == p[LastIndexOf(p, '/') + 1 + k];
  }

  /**
   * os.path.join of a directory and one further component: an absolute
   * component replaces the directory; otherwise a '/' is inserted unless
   * the directory is empty or already ends with one.
   */
  function Join(dir: string, name: string): string {
    if |name| > 0 && name[0] == '/' then name
    else if dir == "" || dir[|dir| - 1] == '/' then dir + name
    else dir + "/" + name
  }

  /** A '/'-free name joined onto a directory lies in that directory and is the basename of the result. */
  lemma JoinBaseName(dir: string, name: string)
    requires '/' !in name
    ensures dir <= Join(dir, name) && BaseName(Join(dir, name)) == name
  {
    if dir == "" || dir[|dir| - 1] == '/' {
      BaseNameAfterSep(dir, name);
    } else {
      assert (dir + "/")[|dir + "/"| - 1] == '/';
      BaseNameAfterSep(dir + "/", name);
      assert dir + "/" + name == (dir + "/") + name;
    }
  }

  /** Appending a '/'-free name to a directory that is empty or ends with '/' makes that name the basename. */
  lemma BaseNameAfterSep(dir: string, name: string)
    requires dir == "" || dir[|dir| - 1] == '/'
    requires '/' !in name
    ensures BaseName(dir + name) == name
  {
    var p := dir + name;
    var r := LastIndexOf(p, '/');
    assert forall k :: 0 <= k < |name| ==> p[|dir| + k] == name[k];
    if dir != "" {
      assert p[|dir| - 1] == '/';
    }
    assert r == |dir| - 1;
    assert p[r + 1..] == name;
  }

  /** Two names without '/' joined onto the same directory give the same path only if they are equal. */
  lemma JoinInjective(dir: string, a: string, b: string)
    requires '/' !in a && '/' !in b
    requires Join(dir, a) == Join(dir, b)
    ensures a == b
  {
    JoinBaseName(dir, a);
    JoinBaseName(dir, b);
  }

  /**
   * The final component of `p` holds a '.' that has a character other than
   * '.' somewhere before it: exactly the paths for which splitext finds an
   * extension (leading dots, as in ".bashrc", do not start one).
   */
  ghost predicate DotAfterStem(p: string) {
    exists i, d :: LastIndexOf(p, '/') < i < d < |p| && p[i] != '.' && p[d] == '.'
  }

  /**
   * os.path.splitext: (root, ext) with root + ext == p, where ext is empty or
   * runs from the last '.' of the final component to the end, and that '.'
   * is not part of the component's leading dots.
   */
  function SplitExt(p: string): (string, string) {
    var sep := LastIndexOf(p, '/');
    var dot := LastIndexOf(p, '.');
    if dot > sep && HasNonDot(p[sep + 1..dot]) then (p[..dot], p[dot..]) else (p, "")
  }

  /** Some character of `s` is not a '.' (splitext's scan past leading dots). */
  predicate HasNonDot(s: string) {
    |s| > 0 && (s[0] != '.' || HasNonDot(s[1..]))
  }

  lemma {:induction false} HasNonDotIff(s: string)
    ensures HasNonDot(s) <==> exists i :: 0 <= i < |s| && s[i] != '.'
  {
    if |s| > 0 {
      HasNonDotIff(s[1..]);
      if s[0] == '.' && exists i :: 0 <= i < |s| && s[i] != '.' {
        var i :| 0 <= i < |s| && s[i] != '.';
        assert s[1..][i - 1] == s[i];
      }
    }
  }

  /** What splitext promises: the parts rebuild the path, and ext is a dotted suffix found exactly when DotAfterStem holds. */
  lemma SplitExtSpec(p: string)
    ensures SplitExt(p).0 + SplitExt(p).1 == p
    ensures var ext := SplitExt(p).1; ext == "" || (ext[0] == '.' && '.' !in ext[1..] && '/' !in ext)
    ensures SplitExt(p).1 != "" <==> DotAfterStem(p)
    ensures SplitExt(p).1 != "" ==> |SplitExt(p).0| == LastIndexOf(p, '.')
  {
    var sep, dot := LastIndexOf(p, '/'), LastIndexOf(p, '.');
    if dot > sep && HasNonDot(p[sep + 1..dot]) {
      SplitFound(p, sep, dot);
    } else if DotAfterStem(p) {
      var i, d :| sep < i < d < |p| && p[i] != '.' && p[d] == '.';
      assert d <= dot;
      var mid := p[sep + 1..dot];
      assert mid[i - sep - 1] == p[i];
      HasNonDotIff(mid);
      assert false;
    }
  }

  /** The split at the last dot, when splitext makes it. */
  lemma SplitFound(p: string, sep: int, dot: int)
    requires sep == LastIndexOf(p, '/') && dot == LastIndexOf(p, '.')
    requires dot > sep && HasNonDot(p[sep + 1..dot])
    ensures SplitExt(p) == (p[..dot], p[dot..])
    ensures var ext := p[dot..]; ext[0] == '.' && '.' !in ext[1..] && '/' !in ext
    ensures DotAfterStem(p)
  {
    var ext := p[dot..];
    assert forall k :: 0 <= k < |ext| ==> ext[k] == p[dot + k];
    assert forall k :: 1 <= k < |ext| ==> ext[k] != '.';
    assert forall k :: 0 <= k < |ext[1..]| ==> ext[1..][k] == ext[k + 1];
    var mid := p[sep + 1..dot];
    HasNonDotIff(mid);
    var j :| 0 <= j < |mid| && mid[j] != '.';
    assert p[sep + 1 + j] == mid[j];
  }

  /** Both parts of a '/'-free name are '/'-free. */
  lemma SplitExtNoSep(p: string)
    requires '/' !in p
    ensures '/' !in SplitExt(p).0 && '/' !in SplitExt(p).1
  {
    var r := SplitExt(p);
    SplitExtSpec(p);
    assert forall k :: 0 <= k < |r.0| ==> r.0[k] == p[k];
    assert forall k :: 0 <= k < |r.1| ==> r.1[k] == p[|r.0| + k];
  }

  predicate IsDigit(c: char) {
    '0' <= c <= '9'
  }

  function DigitChar(d: nat): (c: char)
    requires d < 10
    ensures IsDigit(c)
  {
    ('0' as int + d) as char
  }

  /** str(n) for a non-negative n: decimal digits, most significant first, no leading zeros. */
  function Decimal(n: nat): (r: string)
    ensures |r| > 0
    ensures forall i :: 0 <= i < |r| ==> IsDigit(r[i])
    ensures r[0] == '0' ==> n == 0
  {
    if n < 10 then [DigitChar(n)] else Decimal(n / 10) + [DigitChar(n % 10)]
  }

  /** The number a string of decimal digits denotes (the inverse of Decimal). */
  function DecimalValue(s: string): nat
    requires forall i :: 0 <= i < |s| ==> IsDigit(s[i])
  {
    if |s| == 0 then 0
    else
      assert IsDigit(s[|s| - 1]);
      DecimalValue(s[..|s| - 1]) * 10 + (s[|s| - 1] as int - '0' as int)
  }

  lemma {:induction false} DecimalRoundTrip(n: nat)
    ensures DecimalValue(Decimal(n)) == n
  {
    if n >= 10 {
      var s := Decimal(n);
      assert s[..|s| - 1] == Decimal(n / 10);
      DecimalRoundTrip(n / 10);
    }
  }

  /** Distinct counters render as distinct strings. */
  lemma DecimalInjective(m: nat, n: nat)
    requires Decimal(m) == Decimal(n)
    ensures m == n
  {
    DecimalRoundTrip(m);
    DecimalRoundTrip(n);
  }
}
