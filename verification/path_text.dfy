/** The string and path operations the handlers use: POSIX
    `os.path.basename` and `os.path.join`, `str.split(".")[-1]`, `str.lower`,
    `str.endswith`, and decimal formatting of a page count. */
module PathText {

  /** `s.rfind(c)`: the index of the last `c` in `s`, or -1 when there is
      none. */
  function RFind(s: string, c: char): (i: int)
    ensures -1 <= i < |s|
  {
    LastBefore(s, c, |s|)
  }

  /** The index of the last `c` among the first `n` characters of `s`, or -1
      when there is none; the search runs from position `n - 1` down. */
  function LastBefore(s: string, c: char, n: nat): (i: int)
    requires n <= |s|
    ensures -1 <= i < n
    decreases n
  {
    if n == 0 then -1
    else if s[n - 1] == c then n - 1
    else LastBefore(s, c, n - 1)
  }

  /** `LastBefore` finds the last `c` below `n`: it is a `c` when found, and
      no `c` comes after it below `n`. */
  lemma {:induction false} LastBeforeLast(s: string, c: char, n: nat)
    requires n <= |s|
    ensures LastBefore(s, c, n) >= 0 ==> s[LastBefore(s, c, n)] == c
    ensures forall j :: LastBefore(s, c, n) < j < n ==> s[j] != c
    decreases n
  {
    if n > 0 && s[n - 1] != c {
      LastBeforeLast(s, c, n - 1);
    }
  }

  /** `RFind` finds the last `c`: it is a `c` when found, and no `c` comes
      after it. */
  lemma RFindLast(s: string, c: char)
    ensures RFind(s, c) >= 0 ==> s[RFind(s, c)] == c
    ensures forall j :: RFind(s, c) < j < |s| ==> s[j] != c
  {
    LastBeforeLast(s, c, |s|);
  }

  /** The text after the last occurrence of `c` in `s`, or all of `s` when `c`
      does not occur. For `c == '/'` this is POSIX `basename`; for `c == '.'`
      it is `s.split(".")[-1]`. */
  function AfterLast(s: string, c: char): string {
    s[RFind(s, c) + 1..]
  }

  /** `AfterLast(s, c)` is the longest suffix of `s` free of `c`: it has no
      `c`, and it is all of `s` or is preceded by a `c`. */
  lemma AfterLastShape(s: string, c: char)
    ensures c !in AfterLast(s, c)
    ensures |AfterLast(s, c)| <= |s| && AfterLast(s, c) == s[|s| - |AfterLast(s, c)|..]
    ensures |AfterLast(s, c)| < |s| ==> s[|s| - |AfterLast(s, c)| - 1] == c
  {
    AfterLastFree(s, c);
    AfterLastBoundary(s, c);
  }

  /** The text after the last `c` has no `c`. */
  lemma AfterLastFree(s: string, c: char)
    ensures c !in AfterLast(s, c)
  {
    var i := RFind(s, c);
    var r := s[i + 1..];
    forall k | 0 <= k < |r|
      ensures r[k] != c
    {
      assert r[k] == s[i + 1 + k];
      RFindLast(s, c);
    }
  }

  /** The text after the last `c` is a suffix, preceded by the `c` when it is
      not all of `s`. */
  lemma AfterLastBoundary(s: string, c: char)
    ensures |AfterLast(s, c)| <= |s| && AfterLast(s, c) == s[|s| - |AfterLast(s, c)|..]
    ensures |AfterLast(s, c)| < |s| ==> s[|s| - |AfterLast(s, c)| - 1] == c
  {
    var i := RFind(s, c);
    assert |s| - |AfterLast(s, c)| == i + 1;
    if i >= 0 {
      RFindLast(s, c);
    }
  }

  /** Any `c`-free suffix of `s` that either is all of `s` or is preceded by
      `c` is exactly `AfterLast(s, c)`. */
  lemma AfterLastUnique(s: string, c: char, t: string)
    requires c !in t
    requires |t| <= |s| && t == s[|s| - |t|..]
    requires |t| < |s| ==> s[|s| - |t| - 1] == c
    ensures t == AfterLast(s, c)
  {
    var r := AfterLast(s, c);
    AfterLastShape(s, c);
    SuffixFree(s, c, t);
    SuffixFree(s, c, r);
    assert |t| == |r|;
  }

  /** A `c`-free suffix leaves `c` out of every position it covers. */
  lemma SuffixFree(s: string, c: char, t: string)
    requires c !in t
    requires |t| <= |s| && t == s[|s| - |t|..]
    ensures forall j :: |s| - |t| <= j < |s| ==> s[j] != c
  {
  }

  /** POSIX `os.path.basename`: the text after the last `/`. */
  function Basename(p: string): string {
    AfterLast(p, '/')
  }

  /** Taking the basename twice changes nothing, so a sanitised name is a
      fixed point of sanitisation. */
  lemma BasenameIdempotent(p: string)
    ensures Basename(Basename(p)) == Basename(p)
    ensures '/' !in Basename(p)
  {
    var b := Basename(p);
    AfterLastShape(p, '/');
    assert b[|b| - |b|..] == b;
    AfterLastUnique(b, '/', b);
  }

  /** Whatever directory part precedes a `/`, the basename of the whole is the
      basename of what follows the last separator. */
  lemma BasenameOfChild(dir: string, name: string)
    requires '/' !in name
    ensures Basename(dir + "/" + name) == name
  {
    var s := dir + "/" + name;
    assert s[|s| - |name|..] == name;
    if |name| < |s| {
      assert s[|s| - |name| - 1] == '/';
    }
    AfterLastUnique(s, '/', name);
  }

  /** A directory part in front of a name does not change its basename. */
  lemma BasenameIgnoresDirectory(dir: string, p: string)
    ensures Basename(dir + "/" + p) == Basename(p)
  {
    var b := Basename(p);
    AfterLastShape(p, '/');
    var s := dir + "/" + p;
    assert s[|s| - |b|..] == b by {
      assert p[|p| - |b|..] == b;
      assert s[|s| - |p|..] == p;
    }
    if |b| < |p| {
      assert s[|s| - |b| - 1] == p[|p| - |b| - 1];
    } else {
      assert s[|s| - |b| - 1] == '/';
    }
    AfterLastUnique(s, '/', b);
  }

  /** ASCII `str.lower` on one character. */
  function LowerChar(c: char): char {
    if 'A' <= c <= 'Z' then (c as int + 32) as char else c
  }

  predicate IsUpper(c: char) {
    'A' <= c <= 'Z'
  }

  /** ASCII `str.lower`. */
  function Lower(s: string): (r: string)
    ensures |r| == |s|
    ensures forall i {:trigger r[i]} :: 0 <= i < |s| ==> r[i] == LowerChar(s[i])
  {
    seq(|s|, i requires 0 <= i < |s| => LowerChar(s[i]))
  }

  /** Lowering leaves no upper-case letter, changes nothing else, and is
      idempotent. */
  lemma LowerProperties(s: string)
    ensures forall i :: 0 <= i < |s| ==> !IsUpper(Lower(s)[i])
    ensures forall i :: 0 <= i < |s| && !IsUpper(s[i]) ==> Lower(s)[i] == s[i]
    ensures Lower(Lower(s)) == Lower(s)
  {
  }

  /** Lowering commutes with taking a suffix. */
  lemma LowerSuffix(s: string, k: nat)
    requires k <= |s|
    ensures Lower(s[k..]) == Lower(s)[k..]
  {
  }

  /** `str.endswith`. */
  predicate EndsWith(s: string, suffix: string) {
    |suffix| <= |s| && s[|s| - |suffix|..] == suffix
  }

  /** POSIX `os.path.join` of two components. */
  function Join(a: string, b: string): string {
    if |b| > 0 && b[0] == '/' then b
    else if |a| == 0 || a[|a| - 1] == '/' then a + b
    else a + "/" + b
  }

  /** Joining a non-empty directory that does not end in `/` with a name
      free of `/` puts exactly one separator between them. */
  lemma JoinChild(dir: string, name: string)
    requires |dir| > 0 && dir[|dir| - 1] != '/'
    requires '/' !in name
    ensures Join(dir, name) == dir + "/" + name
  {
  }

  /** The extension `_save_upload` keeps: the lower-cased text after the last
      `.` of the basename of the claimed name. */
  function Extension(filename: string): string {
    Lower(AfterLast(Basename(filename), '.'))
  }

  /** The extension kept has no `/` (no directory part of the claimed name
      survives), no `.`, and no upper-case letter. */
  lemma ExtensionShape(filename: string)
    ensures '/' !in Extension(filename) && '.' !in Extension(filename)
    ensures forall i :: 0 <= i < |Extension(filename)| ==> !IsUpper(Extension(filename)[i])
  {
    LastSegmentShape(filename);
    LowerKeepsShape(AfterLast(Basename(filename), '.'));
  }

  /** The text after the last `.` of a basename has neither `/` nor `.`. */
  lemma LastSegmentShape(filename: string)
    ensures '/' !in AfterLast(Basename(filename), '.')
    ensures '.' !in AfterLast(Basename(filename), '.')
  {
    var b := Basename(filename);
    AfterLastShape(filename, '/');
    AfterLastKeepsAbsence(b, '.', '/');
    AfterLastShape(b, '.');
  }

  /** Lower-casing a text free of `/` and `.` keeps it free of them and
      leaves no upper-case letter. */
  lemma LowerKeepsShape(e: string)
    requires '/' !in e && '.' !in e
    ensures '/' !in Lower(e) && '.' !in Lower(e)
    ensures forall i :: 0 <= i < |Lower(e)| ==> !IsUpper(Lower(e)[i])
  {
    LowerProperties(e);
    LowerKeepsPunctuation(e, Lower(e));
  }

  /** A character absent from `s` is absent from every `AfterLast(s, c)`. */
  lemma AfterLastKeepsAbsence(s: string, c: char, d: char)
    requires d !in s
    ensures d !in AfterLast(s, c)
  {
  }

  /** A basename with no `.` is kept whole, lower-cased, as the extension. */
  lemma ExtensionWithoutDot(filename: string)
    requires '.' !in Basename(filename)
    ensures Extension(filename) == Lower(Basename(filename))
  {
    var b := Basename(filename);
    assert b[|b| - |b|..] == b;
    AfterLastUnique(b, '.', b);
  }

  /** When the lower-cased name ends in `.` followed by `ext` (an extension
      with no `.` and no `/`), the extension kept is exactly `ext`. */
  lemma ExtensionOfSuffix(filename: string, ext: string)
    requires '.' !in ext && '/' !in ext
    requires EndsWith(Lower(filename), "." + ext)
    ensures Extension(filename) == ext
  {
    var u := DottedTail(filename, ext);
    SlashFreeSuffixSurvivesBasename(filename, ['.'] + u);
    AfterLastUnique(Basename(filename), '.', u);
  }

  /** The case-insensitive suffix test the handlers apply to a claimed name
      and the extension `_save_upload` keeps agree: the lower-cased name ends
      in `.ext` exactly when its basename has a `.` and the kept extension is
      `ext`. */
  lemma ExtensionMatchesSuffix(filename: string, ext: string)
    requires '.' !in ext && '/' !in ext
    ensures EndsWith(Lower(filename), "." + ext) <==> '.' in Basename(filename) && Extension(filename) == ext
  {
    if EndsWith(Lower(filename), "." + ext) {
      ExtensionOfSuffix(filename, ext);
      var u := DottedTail(filename, ext);
      SlashFreeSuffixSurvivesBasename(filename, ['.'] + u);
      var b := Basename(filename);
      assert b[|b| - |u| - 1] == '.';
    }
    if '.' in Basename(filename) && Extension(filename) == ext {
      DottedExtensionSuffix(filename);
    }
  }

  /** A name whose basename has a `.` ends, case-insensitively, in `.` and
      its kept extension. */
  lemma DottedExtensionSuffix(filename: string)
    requires '.' in Basename(filename)
    ensures EndsWith(Lower(filename), "." + Extension(filename))
  {
    var b := Basename(filename);
    var seg := AfterLast(b, '.');
    DotBeforeLastSegment(b);
    var t := ['.'] + seg;
    AfterLastShape(filename, '/');
    var k := |filename| - |t|;
    assert filename[k..] == t by {
      var d := |filename| - |b|;
      assert filename[d..] == b;
      assert filename[k..] == filename[d..][|b| - |t|..];
    }
    LowerSuffix(filename, k);
    LowerDotted(seg);
  }

  /** Text with a `.` ends in a `.` followed by the text after its last `.`. */
  lemma DotBeforeLastSegment(b: string)
    requires '.' in b
    ensures |AfterLast(b, '.')| < |b|
    ensures b[|b| - |AfterLast(b, '.')| - 1..] == ['.'] + AfterLast(b, '.')
  {
    var seg := AfterLast(b, '.');
    AfterLastShape(b, '.');
    SuffixFree(b, '.', seg);
    var q :| 0 <= q < |b| && b[q] == '.';
    assert q < |b| - |seg|;
  }

  /** Lowering a `.` followed by text keeps the `.` in front. */
  lemma LowerDotted(seg: string)
    ensures Lower(['.'] + seg) == "." + Lower(seg)
  {
    var t := ['.'] + seg;
    assert Lower(t)[0] == '.';
    forall i | 0 <= i < |seg|
      ensures Lower(t)[i + 1] == Lower(seg)[i]
    {
      assert t[i + 1] == seg[i];
    }
  }

  /** A name whose lower-cased form ends in `.` and `ext` ends in `.` and a
      text that lower-cases to `ext`. */
  lemma DottedTail(filename: string, ext: string) returns (u: string)
    requires '.' !in ext && '/' !in ext
    requires EndsWith(Lower(filename), "." + ext)
    ensures EndsWith(filename, ['.'] + u)
    ensures '.' !in u && '/' !in u && Lower(u) == ext
  {
    var k := |filename| - |ext| - 1;
    var tail := filename[k..];
    LowerSuffix(filename, k);
    assert Lower(tail) == "." + ext;
    u := tail[1..];
    LowerSuffix(tail, 1);
    LowerKeepsPunctuation(tail, "." + ext);
    assert tail == ['.'] + u;
  }

  /** Lower-casing neither creates nor removes a `.` or a `/`. */
  lemma LowerKeepsPunctuation(s: string, t: string)
    requires Lower(s) == t
    ensures forall i :: 0 <= i < |s| ==> (s[i] == '.' <==> t[i] == '.')
    ensures forall i :: 0 <= i < |s| ==> (s[i] == '/' <==> t[i] == '/')
  {
  }

  /** A suffix with no `/` in it is kept whole by `basename`. */
  lemma SlashFreeSuffixSurvivesBasename(s: string, u: string)
    requires EndsWith(s, u) && '/' !in u
    ensures EndsWith(Basename(s), u)
  {
    var b := Basename(s);
    AfterLastShape(s, '/');
    SuffixFree(s, '/', u);
    if |b| < |s| {
      var q := |s| - |b| - 1;
      assert s[q] == '/';
      assert q < |s| - |u|;
    }
    forall k | 0 <= k < |u|
      ensures b[|b| - |u| + k] == u[k]
    {
      assert b[|b| - |u| + k] == s[|s| - |u| + k];
    }
  }

  /** The decimal digit for `d < 10`. */
  function Digit(d: nat): char
    requires d < 10
  {
    "0123456789"[d]
  }

  function DigitValue(c: char): nat {
    if '0' <= c <= '9' then c as nat - '0' as nat else 0
  }

  /** Python's `f"{n}"` for a non-negative integer. */
  function NatToString(n: nat): (r: string)
    ensures |r| > 0
    ensures forall i :: 0 <= i < |r| ==> '0' <= r[i] <= '9'
    decreases n
  {
    if n < 10 then [Digit(n)] else NatToString(n / 10) + [Digit(n % 10)]
  }

  /** Reads back a string of decimal digits. */
  function ParseNat(s: string): nat
    decreases |s|
  {
    if |s| == 0 then 0 else 10 * ParseNat(s[..|s| - 1]) + DigitValue(s[|s| - 1])
  }

  /** Formatting a count in decimal loses nothing: reading it back gives the
      count. */
  lemma {:induction false} ParseNatToString(n: nat)
    ensures ParseNat(NatToString(n)) == n
    decreases n
  {
    if n >= 10 {
      var s := NatToString(n);
      assert s[..|s| - 1] == NatToString(n / 10);
      ParseNatToString(n / 10);
    }
  }

  /** Two counts with the same decimal form are equal. */
  lemma NatToStringInjective(a: nat, b: nat)
    requires NatToString(a) == NatToString(b)
    ensures a == b
  {
    ParseNatToString(a);
    ParseNatToString(b);
  }
}
