/** Python 2 string primitives and the posix `os.path` functions that the
    upload code relies on: `str.lower`, `str.strip`, `str.endswith`,
    `str.rfind`, and `os.path.split`, `basename`, `join`, `splitext`.
    Strings are sequences of characters; case mapping and whitespace are the
    ASCII ones of a Python 2 byte string in the C locale. */
module PyStrings {

  predicate IsAsciiUpper(c: char) { 'A' <= c <= 'Z' }
  predicate IsAsciiLetter(c: char) { IsAsciiUpper(c) || 'a' <= c <= 'z' }
  /** `str.isdigit()` on one character of a byte string. */
  predicate IsAsciiDigit(c: char) { '0' <= c <= '9' }
  /** The characters `str.strip()` removes when called without arguments. */
  predicate IsWhitespace(c: char) {
    c == ' ' || c == '\t' || c == '\n' || c == '\r' || c == '\U{000B}' || c == '\U{000C}'
  }

  function LowerChar(c: char): (r: char)
    ensures !IsAsciiUpper(r)
    ensures IsAsciiLetter(c) <==> IsAsciiLetter(r)
    ensures !IsAsciiUpper(c) ==> r == c
  {
    if IsAsciiUpper(c) then (c as int + 32) as char else c
  }

  /** `str.lower()`. */
  function Lower(s: string): (r: string)
    ensures |r| == |s|
    ensures forall i :: 0 <= i < |s| ==> r[i] == LowerChar(s[i])
  {
    seq(|s|, i requires 0 <= i < |s| => LowerChar(s[i]))
  }

  lemma LowerIdempotent(s: string)
    ensures Lower(Lower(s)) == Lower(s)
  {
  }

  /** Lower-casing commutes with taking a suffix. */
  lemma LowerSuffix(s: string, k: int)
    requires 0 <= k <= |s|
    ensures Lower(s)[k..] == Lower(s[k..])
  {
  }

  /** `s.endswith(suffix)`. */
  predicate EndsWith(s: string, suffix: string) {
    |suffix| <= |s| && s[|s| - |suffix|..] == suffix
  }

  /** `s.replace(c, "")` for a single character `c`. */
  function RemoveChar(s: string, c: char): (r: string)
    ensures forall x :: x in r <==> x in s && x != c
    ensures c !in s ==> r == s
  {
    if s == [] then []
    else (if s[0] == c then [] else [s[0]]) + RemoveChar(s[1..], c)
  }

  /** `s.rfind(c)`: the index of the last occurrence of `c`, or -1. */
  function RFind(s: string, c: char): (i: int)
    ensures -1 <= i < |s|
    ensures 0 <= i ==> s[i] == c
    ensures forall j :: i < j < |s| ==> s[j] != c
  {
    if |s| == 0 then -1
    else if s[|s| - 1] == c then |s| - 1
    else RFind(s[..|s| - 1], c)
  }

  /** The three ensures of `RFind` determine its value. */
  lemma RFindIs(s: string, c: char, i: int)
    requires -1 <= i < |s|
    requires 0 <= i ==> s[i] == c
    requires forall j :: i < j < |s| ==> s[j] != c
    ensures RFind(s, c) == i
  {
  }

  predicate AllChar(s: string, c: char) { forall i :: 0 <= i < |s| ==> s[i] == c }

  predicate HasNonDot(s: string) { exists i :: 0 <= i < |s| && s[i] != '.' }

  /** `s.rstrip(c)` for a single character `c`. */
  function RStripChar(s: string, c: char): (r: string)
    ensures |r| <= |s| && s[..|r|] == r
    ensures AllChar(s[|r|..], c)
    ensures r == [] || r[|r| - 1] != c
  {
    if |s| == 0 then s
    else if s[|s| - 1] == c then
      var r := RStripChar(s[..|s| - 1], c);
      assert forall i :: |r| <= i < |s| - 1 ==> s[i] == s[..|s| - 1][i];
      r
    else s
  }

  /** `os.path.basename(p)`: the text after the last `/`. */
  function Basename(p: string): (r: string)
    ensures '/' !in r
    ensures |r| <= |p| && p[|p| - |r|..] == r
    ensures |r| < |p| ==> p[|p| - |r| - 1] == '/'
  {
    p[RFind(p, '/') + 1..]
  }

  /** A name without `/` is its own base name. */
  lemma BasenameOfPlainName(p: string)
    requires '/' !in p
    ensures Basename(p) == p
  {
    RFindIs(p, '/', -1);
  }

  /** `os.path.split(p)`: the directory part, with trailing slashes removed
      unless it consists of slashes only, and the base name. */
  function Split(p: string): (r: (string, string))
    ensures r.1 == Basename(p)
  {
    var i := RFind(p, '/') + 1;
    var head := p[..i];
    if head != [] && !AllChar(head, '/') then (RStripChar(head, '/'), p[i..]) else (head, p[i..])
  }

  function Dirname(p: string): string { Split(p).0 }

  /** A directory part as `Split` returns it: empty, all slashes, or ending
      in a character other than a slash. */
  lemma DirnameShape(p: string)
    ensures var d := Dirname(p); d == [] || AllChar(d, '/') || d[|d| - 1] != '/'
  {
  }

  /** `os.path.join(a, b)` with two arguments. */
  function Join(a: string, b: string): (r: string)
    ensures |b| > 0 && b[0] == '/' ==> r == b
    ensures (|b| == 0 || b[0] != '/') ==> EndsWith(r, b) && |a| <= |r| && r[..|a|] == a
  {
    if |b| > 0 && b[0] == '/' then b
    else if a == [] || a[|a| - 1] == '/' then a + b
    else a + "/" + b
  }

  /** Joining a name that holds no `/` yields a path whose base name is that name. */
  lemma BasenameOfJoin(d: string, c: string)
    requires '/' !in c
    ensures Basename(Join(d, c)) == c
  {
    var j := Join(d, c);
    if d == [] || d[|d| - 1] == '/' {
      assert j == d + c;
      if d != [] {
        RFindIs(j, '/', |d| - 1);
      } else {
        RFindIs(j, '/', -1);
      }
    } else {
      assert j == d + "/" + c;
      RFindIs(j, '/', |d|);
    }
  }

  /** Joining a non-empty name that holds no `/` onto a directory part as
      `Split` returns it keeps that directory part. */
  lemma DirnameOfJoin(d: string, c: string)
    requires '/' !in c && c != []
    requires d == [] || AllChar(d, '/') || d[|d| - 1] != '/'
    ensures Dirname(Join(d, c)) == d
  {
    if d == [] {
      assert Join(d, c) == c;
      RFindIs(c, '/', -1);
    } else if d[|d| - 1] == '/' {
      DirnameOfJoinSlashes(d, c);
    } else {
      DirnameOfJoinPlain(d, c);
    }
  }

  lemma DirnameOfJoinSlashes(d: string, c: string)
    requires '/' !in c && c != [] && d != [] && AllChar(d, '/')
    ensures Dirname(Join(d, c)) == d
  {
    var j := Join(d, c);
    assert j == d + c;
    RFindIs(j, '/', |d| - 1);
    assert j[..|d|] == d;
  }

  lemma DirnameOfJoinPlain(d: string, c: string)
    requires '/' !in c && c != [] && d != [] && d[|d| - 1] != '/'
    ensures Dirname(Join(d, c)) == d
  {
    var j := Join(d, c);
    assert j == d + "/" + c;
    RFindIs(j, '/', |d|);
    var head := j[..|d| + 1];
    assert head == d + "/";
    assert head[|head| - 1] == '/' && head[..|head| - 1] == d;
    assert !AllChar(head, '/') by { assert head[|d| - 1] != '/'; }
  }

  /** `os.path.splitext(p)`: the extension runs from the last `.` of the last
      path component, provided a character other than `.` precedes it in that
      component (leading dots do not start an extension). */
  function SplitExt(p: string): (r: (string, string))
    ensures r.0 + r.1 == p
    ensures r.1 == [] || (r.1[0] == '.' && '.' !in r.1[1..] && '/' !in r.1)
  {
    var d := ExtensionStart(p);
    var ext := p[d..];
    assert forall j :: 0 <= j < |ext| ==> ext[j] == p[d + j];
    assert p[..d] + ext == p;
    (p[..d], ext)
  }

  /** Where `splitext` cuts: at the last `.` when it follows the last `/` and a
      character other than `.` precedes it after that `/`; otherwise at the end. */
  function ExtensionStart(p: string): (d: nat)
    ensures d <= |p|
    ensures d < |p| ==> p[d] == '.' && forall j :: d < j < |p| ==> p[j] != '.' && p[j] != '/'
  {
    var sep := RFind(p, '/');
    var dot := RFind(p, '.');
    if dot > sep && HasNonDot(p[sep + 1..dot]) then dot else |p|
  }

  /** `os.path.splitext(os.path.basename(p))[0]`. */
  function Stem(p: string): (r: string)
    ensures '/' !in r
  {
    SplitExt(Basename(p)).0
  }

  /** Index `d` of base name `b` is the dot that starts its extension. */
  predicate ExtensionDotAt(b: string, d: int) {
    && 0 <= d < |b|
    && b[d] == '.'
    && (forall j :: d < j < |b| ==> b[j] != '.')
    && HasNonDot(b[..d])
  }

  /** The extension `splitext` finds is determined by the base name alone:
      it is the suffix from the dot that starts the base name's extension,
      and empty when the base name has no such dot. */
  lemma SplitExtSpec(p: string)
    ensures forall d :: ExtensionDotAt(Basename(p), d) ==> SplitExt(p).1 == Basename(p)[d..]
    ensures (forall d :: !ExtensionDotAt(Basename(p), d)) ==> SplitExt(p).1 == []
  {
    forall d | ExtensionDotAt(Basename(p), d)
      ensures SplitExt(p).1 == Basename(p)[d..]
    {
      ExtensionAtDot(p, d);
    }
    if SplitExt(p).1 != [] {
      ExtensionHasDot(p);
    }
  }

  lemma ExtensionAtDot(p: string, d: int)
    requires ExtensionDotAt(Basename(p), d)
    ensures SplitExt(p).1 == Basename(p)[d..]
  {
    var sep := RFind(p, '/');
    var b := Basename(p);
    assert b == p[sep + 1..];
    forall j | sep + 1 + d < j < |p| ensures p[j] != '.' {
      assert p[j] == b[j - sep - 1];
    }
    RFindIs(p, '.', sep + 1 + d);
    assert b[..d] == p[sep + 1..sep + 1 + d];
    assert ExtensionStart(p) == sep + 1 + d;
  }

  lemma ExtensionHasDot(p: string)
    requires SplitExt(p).1 != []
    ensures ExtensionDotAt(Basename(p), RFind(p, '.') - RFind(p, '/') - 1)
  {
    assert ExtensionStart(p) < |p| by {
      assert SplitExt(p).1 == p[ExtensionStart(p)..];
    }
    ExtensionStartHasDot(p);
  }

  lemma ExtensionStartHasDot(p: string)
    requires ExtensionStart(p) < |p|
    ensures ExtensionDotAt(Basename(p), RFind(p, '.') - RFind(p, '/') - 1)
  {
    var sep := RFind(p, '/');
    var dot := RFind(p, '.');
    BasenameIsSuffix(p);
    assert dot > sep && HasNonDot(p[sep + 1..dot]);
    DotInSuffix(p, sep, dot);
  }

  lemma BasenameIsSuffix(p: string)
    ensures Basename(p) == p[RFind(p, '/') + 1..]
  {
  }

  /** A dot of `p`, past index `sep`, with no dot after it and a character other than
      a dot between them, starts the extension of the suffix after `sep`. */
  lemma DotInSuffix(p: string, sep: int, dot: int)
    requires -1 <= sep < dot < |p| && p[dot] == '.'
    requires forall j :: dot < j < |p| ==> p[j] != '.'
    requires HasNonDot(p[sep + 1..dot])
    ensures ExtensionDotAt(p[sep + 1..], dot - sep - 1)
  {
    var b := p[sep + 1..];
    var d := dot - sep - 1;
    forall j | d < j < |b| ensures b[j] != '.' {
      assert b[j] == p[j + sep + 1];
    }
    assert b[..d] == p[sep + 1..dot];
  }

  /** A base name has at most one extension dot. */
  lemma ExtensionDotUnique(b: string, d: int, e: int)
    requires ExtensionDotAt(b, d) && ExtensionDotAt(b, e)
    ensures d == e
  {
  }

  function LStrip(s: string): (r: string)
    ensures |r| <= |s| && s[|s| - |r|..] == r
    ensures r == [] || !IsWhitespace(r[0])
    ensures forall i :: 0 <= i < |s| - |r| ==> IsWhitespace(s[i])
  {
    if |s| > 0 && IsWhitespace(s[0]) then LStrip(s[1..]) else s
  }

  function RStrip(s: string): (r: string)
    ensures |r| <= |s| && s[..|r|] == r
    ensures r == [] || !IsWhitespace(r[|r| - 1])
    ensures forall i :: |r| <= i < |s| ==> IsWhitespace(s[i])
  {
    if |s| > 0 && IsWhitespace(s[|s| - 1]) then RStrip(s[..|s| - 1]) else s
  }

  /** `s.strip()`. */
  function Strip(s: string): (r: string)
    ensures r == [] || (!IsWhitespace(r[0]) && !IsWhitespace(r[|r| - 1]))
  {
    RStrip(LStrip(s))
  }

  predicate AllWhitespace(s: string) { forall i :: 0 <= i < |s| ==> IsWhitespace(s[i]) }

  lemma {:induction false} LStripAppend(s: string, t: string)
    ensures LStrip(s + t) == if AllWhitespace(s) then LStrip(t) else LStrip(s) + t
    decreases |s|
  {
    if |s| > 0 {
      if IsWhitespace(s[0]) {
        LStripAppend(s[1..], t);
        LStripDropsHead(s, t);
      } else {
        LStripKeepsHead(s, t);
      }
    } else {
      assert s + t == t;
    }
  }

  lemma LStripDropsHead(s: string, t: string)
    requires |s| > 0 && IsWhitespace(s[0])
    ensures LStrip(s + t) == LStrip(s[1..] + t)
    ensures LStrip(s) == LStrip(s[1..])
    ensures AllWhitespace(s) <==> AllWhitespace(s[1..])
  {
    assert (s + t)[1..] == s[1..] + t;
    assert (s + t)[0] == s[0];
    if AllWhitespace(s[1..]) {
      forall i | 0 <= i < |s| ensures IsWhitespace(s[i]) {
        if i > 0 { assert s[i] == s[1..][i - 1]; }
      }
    }
  }

  lemma LStripKeepsHead(s: string, t: string)
    requires |s| > 0 && !IsWhitespace(s[0])
    ensures !AllWhitespace(s) && LStrip(s) == s && LStrip(s + t) == s + t
  {
    assert (s + t)[0] == s[0];
  }

  lemma {:induction false} RStripAppendWhitespace(s: string, w: string)
    requires AllWhitespace(w)
    ensures RStrip(s + w) == RStrip(s)
    decreases |w|
  {
    if |w| > 0 {
      assert (s + w)[..|s + w| - 1] == s + w[..|w| - 1];
      RStripAppendWhitespace(s, w[..|w| - 1]);
    } else {
      assert s + w == s;
    }
  }

  /** Trailing whitespace does not change what `strip` returns. */
  lemma StripTrailingWhitespace(s: string, w: string)
    requires AllWhitespace(w)
    ensures Strip(s + w) == Strip(s)
  {
    LStripAppend(s, w);
    if !AllWhitespace(s) {
      RStripAppendWhitespace(LStrip(s), w);
    }
  }

  /** Leading whitespace does not change what `strip` returns. */
  lemma StripLeadingWhitespace(w: string, s: string)
    requires AllWhitespace(w)
    ensures Strip(w + s) == Strip(s)
  {
    LStripAppend(w, s);
  }

  /** A string without surrounding whitespace is its own `strip`. */
  lemma StripTrimmed(s: string)
    requires s == [] || (!IsWhitespace(s[0]) && !IsWhitespace(s[|s| - 1]))
    ensures Strip(s) == s
  {
  }
}
