/** The parts of Python's `str` and `os.path` (POSIX flavour, separator '/')
    that the pipeline relies on: `rfind`, `os.path.splitext`,
    `os.path.basename`, `os.path.join`, `str(n)` for a natural number,
    `lower`/`upper`, `lstrip`, `strip`, `endswith` and the ordering that
    `sorted` uses on strings. */
module PyStr {

  /** `s.rfind(c)`: the last index holding `c`, or -1. */
  function RFind(s: string, c: char): (r: int)
    ensures -1 <= r < |s|
    ensures r >= 0 ==> s[r] == c
    ensures forall k :: r < k < |s| ==> s[k] != c
  {
    if s == [] then -1
    else if s[|s| - 1] == c then |s| - 1
    else RFind(s[..|s| - 1], c)
  }

  predicate HasNonDot(s: string) {
    exists k :: 0 <= k < |s| && s[k] != '.'
  }

  /** Index `i` is where `os.path.splitext(p)` cuts `p`: a '.' with no
      '.' or '/' after it, and a character other than '.' before it in
      the same path component (so ".bashrc" has no extension). */
  ghost predicate IsExtSplit(p: string, i: int) {
    && 0 <= i < |p|
    && p[i] == '.'
    && (forall k :: i < k < |p| ==> p[k] != '.' && p[k] != '/')
    && RFind(p, '/') < i
    && HasNonDot(p[RFind(p, '/') + 1..i])
  }

  /** `os.path.splitext(p)` for POSIX paths: (root, ext) with root + ext == p. */
  function Splitext(p: string): (r: (string, string))
    ensures r.0 + r.1 == p
  {
    var sep := RFind(p, '/');
    var dot := RFind(p, '.');
    if dot > sep && HasNonDot(p[sep + 1..dot]) then
      SplitRejoins(p, dot);
      (p[..dot], p[dot..])
    else
      (p, [])
  }

  lemma SplitRejoins(p: string, i: int)
    requires 0 <= i <= |p|
    ensures p[..i] + p[i..] == p
  {
  }

  /** `splitext` cuts at the place `IsExtSplit` describes, and leaves the
      path whole exactly when there is no such place. */
  lemma SplitextCut(p: string)
    ensures Splitext(p).1 != [] ==> IsExtSplit(p, |Splitext(p).0|)
    ensures Splitext(p).1 == [] <==> forall i :: !IsExtSplit(p, i)
  {
    var sep := RFind(p, '/');
    var dot := RFind(p, '.');
    if dot > sep && HasNonDot(p[sep + 1..dot]) {
      assert |Splitext(p).0| == dot;
      assert IsExtSplit(p, dot);
    } else {
      NoExtSplit(p);
    }
  }

  /** The only place `splitext` can cut is the last '.'. */
  lemma ExtSplitIsLastDot(p: string, i: int)
    requires IsExtSplit(p, i)
    ensures i == RFind(p, '.')
  {
  }

  lemma NoExtSplit(p: string)
    requires !(RFind(p, '.') > RFind(p, '/') && HasNonDot(p[RFind(p, '/') + 1..RFind(p, '.')]))
    ensures forall i :: !IsExtSplit(p, i)
  {
    forall i | IsExtSplit(p, i) ensures false {
      ExtSplitIsLastDot(p, i);
    }
  }

  /** `os.path.basename(p)`: everything after the last '/'. */
  function Basename(p: string): (r: string)
    ensures '/' !in r
    ensures |r| <= |p| && p[|p| - |r|..] == r
    ensures |r| == |p| || p[|p| - |r| - 1] == '/'
  {
    p[RFind(p, '/') + 1..]
  }

  /** Text without a '/' appended to a path stays in its last component. */
  lemma {:induction false} BasenameAppend(p: string, t: string)
    requires '/' !in t
    ensures Basename(p + t) == Basename(p) + t
    decreases |t|
  {
    if t != [] {
      var t' := t[..|t| - 1];
      assert (p + t)[..|p + t| - 1] == p + t';
      BasenameAppend(p, t');
      assert RFind(p + t, '/') == RFind(p + t', '/');
    } else {
      assert p + t == p;
    }
  }

  /** The name of an entry directly inside `dir`. */
  lemma BasenameInDir(dir: string, b: string)
    requires '/' !in b
    ensures Basename(dir + "/" + b) == b
  {
    BasenameAppend(dir + "/", b);
    assert RFind(dir + "/", '/') == |dir|;
  }

  /** The text `os.path.join` puts in front of a relative second argument. */
  function DirPrefix(a: string): (r: string)
    ensures r == [] || r[|r| - 1] == '/'
    ensures |r| >= |a| && r[..|a|] == a
  {
    if a == [] || a[|a| - 1] == '/' then a else a + "/"
  }

  /** `os.path.join(a, b)` for two arguments. */
  function Join(a: string, b: string): (r: string)
    ensures |r| >= |b| && r[|r| - |b|..] == b
    ensures (b == [] || b[0] != '/') ==> |r| >= |a| && r[..|a|] == a
  {
    if b != [] && b[0] == '/' then b else DirPrefix(a) + b
  }

  /** A path component as a directory lists it: not empty, no separator. */
  predicate IsName(s: string) {
    s != [] && '/' !in s
  }

  lemma JoinName(a: string, b: string)
    requires a != [] && a[|a| - 1] != '/' && IsName(b)
    ensures Join(a, b) == a + "/" + b
  {
  }

  // ---------------------------------------------------------------------------
  // Decimal rendering: `str(n)` and its inverse

  function DigitChar(d: nat): (c: char)
    requires d < 10
    ensures '0' <= c <= '9'
  {
    "0123456789"[d]
  }

  predicate IsDigit(c: char) {
    '0' <= c <= '9'
  }

  function DigitValue(c: char): (d: nat)
    requires IsDigit(c)
    ensures d < 10
  {
    (c as int - '0' as int) as nat
  }

  /** `str(n)` for a natural number. */
  function NatToString(n: nat): (r: string)
    ensures r != []
    ensures forall k :: 0 <= k < |r| ==> IsDigit(r[k])
    ensures r[0] == '0' ==> n == 0
  {
    if n < 10 then [DigitChar(n)] else NatToString(n / 10) + [DigitChar(n % 10)]
  }

  /** `int(s)` for a string of decimal digits. */
  function ParseDecimal(s: string): nat
    requires forall k :: 0 <= k < |s| ==> IsDigit(s[k])
  {
    if s == [] then 0 else 10 * ParseDecimal(s[..|s| - 1]) + DigitValue(s[|s| - 1])
  }

  /** Reading back what `str(n)` wrote gives `n`. */
  lemma {:induction false} ParseNatToString(n: nat)
    ensures ParseDecimal(NatToString(n)) == n
  {
    var s := NatToString(n);
    if n >= 10 {
      ParseNatToString(n / 10);
      assert s[..|s| - 1] == NatToString(n / 10);
    }
  }

  /** Distinct numbers have distinct decimal names. */
  lemma NatToStringInjective(i: nat, j: nat)
    requires NatToString(i) == NatToString(j)
    ensures i == j
  {
    ParseNatToString(i);
    ParseNatToString(j);
  }

  // ---------------------------------------------------------------------------
  // Case mapping. Python maps every cased Unicode character; these functions
  // map the ASCII letters only, and agree with Python on ASCII text.

  /** Every character is ASCII. */
  predicate IsAscii(s: string) {
    forall k :: 0 <= k < |s| ==> s[k] as int < 128
  }

  function LowerChar(c: char): (r: char)
    ensures 'A' <= c <= 'Z' ==> r as int == c as int + 32
    ensures !('A' <= c <= 'Z') ==> r == c
  {
    if 'A' <= c <= 'Z' then (c as int + 32) as char else c
  }

  function UpperChar(c: char): (r: char)
    ensures 'a' <= c <= 'z' ==> r as int == c as int - 32
    ensures !('a' <= c <= 'z') ==> r == c
  {
    if 'a' <= c <= 'z' then (c as int - 32) as char else c
  }

  /** `s.lower()`. */
  function Lower(s: string): (r: string)
    ensures |r| == |s|
    ensures forall k :: 0 <= k < |s| ==> r[k] == LowerChar(s[k])
  {
    seq(|s|, k requires 0 <= k < |s| => LowerChar(s[k]))
  }

  /** `s.upper()`. */
  function Upper(s: string): (r: string)
    ensures |r| == |s|
    ensures forall k :: 0 <= k < |s| ==> r[k] == UpperChar(s[k])
  {
    seq(|s|, k requires 0 <= k < |s| => UpperChar(s[k]))
  }

  /** Lower-casing leaves no upper-case ASCII letter behind and is idempotent. */
  lemma LowerIdempotent(s: string)
    ensures Lower(Lower(s)) == Lower(s)
    ensures forall k :: 0 <= k < |s| ==> !('A' <= Lower(s)[k] <= 'Z')
  {
  }

  /** `s.startswith(prefix)`. */
  predicate StartsWith(s: string, prefix: string) {
    |prefix| <= |s| && s[..|prefix|] == prefix
  }

  /** The path component of `p` that starts at index `n`. */
  function ComponentAt(p: string, n: nat): string
    decreases |p| - n
  {
    if n >= |p| || p[n] == '/' then [] else [p[n]] + ComponentAt(p, n + 1)
  }

  /** A path that starts with `pre + a + "/"` has `a` as its component
      right after `pre`. */
  lemma {:induction false} FirstComponent(p: string, pre: string, a: string)
    requires '/' !in a && StartsWith(p, pre + a + "/")
    ensures ComponentAt(p, |pre|) == a
    decreases |a|
  {
    if a == [] {
      assert p[|pre|] == (pre + a + "/")[|pre|];
    } else {
      assert p[|pre|] == a[0];
      var pre' := pre + [a[0]];
      assert pre' + a[1..] + "/" == pre + a + "/";
      FirstComponent(p, pre', a[1..]);
    }
  }

  /** `s.endswith(suffix)`. */
  predicate EndsWith(s: string, suffix: string) {
    |suffix| <= |s| && s[|s| - |suffix|..] == suffix
  }

  /** A string starts with each of its prefixes. */
  lemma StartsWithAppend(a: string, b: string)
    ensures StartsWith(a + b, a)
  {
    assert (a + b)[..|a|] == a;
  }

  /** Text put in front keeps a string's ending. */
  lemma EndsWithPrepend(a: string, b: string, suffix: string)
    requires EndsWith(b, suffix)
    ensures EndsWith(a + b, suffix)
  {
    assert (a + b)[|a + b| - |suffix|..] == b[|b| - |suffix|..];
  }

  /** The same text in front can be taken off both sides of an equation. */
  lemma AppendCancel(a: string, b: string, c: string)
    requires a + b == a + c
    ensures b == c
  {
    assert b == (a + b)[|a|..];
    assert c == (a + c)[|a|..];
  }

  /** Lower-casing keeps an ending that has no upper-case letter. */
  lemma LowerEndsWith(s: string, suffix: string)
    requires EndsWith(s, suffix)
    requires forall k :: 0 <= k < |suffix| ==> !('A' <= suffix[k] <= 'Z')
    ensures EndsWith(Lower(s), suffix)
  {
    var l := Lower(s);
    var n := |s| - |suffix|;
    forall k | 0 <= k < |suffix| ensures l[n + k] == suffix[k] {
      assert s[n + k] == s[n..][k];
    }
    assert l[n..] == suffix;
  }

  /** `s.lstrip(c)` for one character `c`. */
  function LStrip(s: string, c: char): (r: string)
    ensures |r| <= |s| && r == s[|s| - |r|..]
    ensures forall k :: 0 <= k < |s| - |r| ==> s[k] == c
    ensures r == [] || r[0] != c
  {
    if s != [] && s[0] == c then LStrip(s[1..], c) else s
  }

  // ---------------------------------------------------------------------------
  // Whitespace stripping: `s.strip()`

  /** The characters for which Python's `str.isspace()` holds. */
  predicate IsSpace(c: char) {
    || c == ' ' || '\t' <= c <= '\r' || '\U{1C}' <= c <= '\U{1F}'
    || c == '\U{85}' || c == '\U{A0}' || c == '\U{1680}'
    || '\U{2000}' <= c <= '\U{200A}' || c == '\U{2028}' || c == '\U{2029}'
    || c == '\U{202F}' || c == '\U{205F}' || c == '\U{3000}'
  }

  predicate AllSpace(s: string) {
    forall k :: 0 <= k < |s| ==> IsSpace(s[k])
  }

  function StripLeading(s: string): (r: string)
    ensures |r| <= |s| && r == s[|s| - |r|..]
    ensures AllSpace(s[..|s| - |r|])
    ensures r == [] || !IsSpace(r[0])
  {
    if s != [] && IsSpace(s[0]) then
      var r := StripLeading(s[1..]);
      assert s[..|s| - |r|] == [s[0]] + s[1..][..|s| - 1 - |r|];
      r
    else s
  }

  function StripTrailing(s: string): (r: string)
    ensures |r| <= |s| && r == s[..|r|]
    ensures AllSpace(s[|r|..])
    ensures r == [] || !IsSpace(r[|r| - 1])
  {
    if s != [] && IsSpace(s[|s| - 1]) then
      var r := StripTrailing(s[..|s| - 1]);
      assert s[|r|..] == s[..|s| - 1][|r|..] + [s[|s| - 1]];
      r
    else s
  }

  /** `s.strip()`: the infix of `s` left after removing whitespace at both ends. */
  function Strip(s: string): (r: string)
    ensures exists i, j :: 0 <= i <= j <= |s| && r == s[i..j] && AllSpace(s[..i]) && AllSpace(s[j..])
    ensures r == [] || (!IsSpace(r[0]) && !IsSpace(r[|r| - 1]))
  {
    var t := StripLeading(s);
    var r := StripTrailing(t);
    StripBounds(s, t, r);
    r
  }

  /** Both ends of `s` cut off in two steps leave an infix of `s`. */
  lemma StripBounds(s: string, t: string, r: string)
    requires |t| <= |s| && t == s[|s| - |t|..] && AllSpace(s[..|s| - |t|])
    requires |r| <= |t| && r == t[..|r|] && AllSpace(t[|r|..])
    ensures exists i, j :: 0 <= i <= j <= |s| && r == s[i..j] && AllSpace(s[..i]) && AllSpace(s[j..])
  {
    var i := |s| - |t|;
    assert r == s[i..i + |r|];
    assert s[i + |r|..] == t[|r|..];
  }

  // ---------------------------------------------------------------------------
  // The order `sorted` uses on strings: lexicographic by code point

  predicate StrLess(a: string, b: string) {
    if a == [] then b != []
    else if b == [] then false
    else if a[0] != b[0] then a[0] < b[0]
    else StrLess(a[1..], b[1..])
  }

  lemma {:induction false} StrLessIrreflexive(a: string)
    ensures !StrLess(a, a)
  {
    if a != [] {
      StrLessIrreflexive(a[1..]);
    }
  }

  lemma {:induction false} StrLessTransitive(a: string, b: string, c: string)
    requires StrLess(a, b) && StrLess(b, c)
    ensures StrLess(a, c)
  {
    if a != [] && b != [] && c != [] && a[0] == b[0] == c[0] {
      StrLessTransitive(a[1..], b[1..], c[1..]);
    }
  }

  lemma {:induction false} StrLessTotal(a: string, b: string)
    ensures a == b || StrLess(a, b) || StrLess(b, a)
  {
    if a != [] && b != [] && a[0] == b[0] {
      StrLessTotal(a[1..], b[1..]);
      if a[1..] == b[1..] {
        assert a == [a[0]] + a[1..] && b == [b[0]] + b[1..];
      }
    }
  }
}
