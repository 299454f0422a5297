/**
 * String helpers shared by the model: prefix and suffix tests, JavaScript's
 * `slice`, suffix replacement by an end-anchored pattern, `trim`, `split`,
 * `indexOf`, and Node's `path.extname`.
 */
module Text {
  import opened Wrappers

  predicate StartsWith(s: string, prefix: string) {
    |prefix| <= |s| && s[..|prefix|] == prefix
  }

  predicate EndsWith(s: string, suffix: string) {
    |suffix| <= |s| && s[|s| - |suffix|..] == suffix
  }

  /** The part of `s` before a suffix of length `n`. */
  function DropLast(s: string, n: nat): (r: string)
    ensures |r| == if n <= |s| then |s| - n else 0
    ensures StartsWith(s, r)
  {
    if n <= |s| then s[..|s| - n] else []
  }

  /** JavaScript's `s.slice(0, n)` for n >= 0: the first min(n, |s|) characters. */
  function Take(s: string, n: nat): (r: string)
    ensures |r| == if n <= |s| then n else |s|
    ensures StartsWith(s, r)
  {
    if n <= |s| then s[..n] else s
  }

  /**
   * `new RegExp(pattern + '$')` matched against `s`, for patterns whose only
   * regular-expression metacharacter is `.`: the pattern has a fixed length,
   * so the only candidate match is the last |pattern| characters, and a `.`
   * in the pattern matches any character there.
   */
  predicate PatternAtEnd(s: string, pattern: string) {
    |pattern| <= |s| &&
    forall i :: 0 <= i < |pattern| ==> pattern[i] == '.' || s[|s| - |pattern| + i] == pattern[i]
  }

  /** `s.replace(new RegExp(pattern + '$'), replacement)`. */
  function ReplacePatternAtEnd(s: string, pattern: string, replacement: string): (r: string)
    ensures PatternAtEnd(s, pattern) ==> r == s[..|s| - |pattern|] + replacement
    ensures !PatternAtEnd(s, pattern) ==> r == s
  {
    if PatternAtEnd(s, pattern) then s[..|s| - |pattern|] + replacement else s
  }

  /** A literal suffix is matched by the pattern spelled the same way. */
  lemma EndsWithMatchesPattern(s: string, suffix: string)
    requires EndsWith(s, suffix)
    ensures PatternAtEnd(s, suffix)
  {
    forall i | 0 <= i < |suffix|
      ensures s[|s| - |suffix| + i] == suffix[i]
    {
      assert s[|s| - |suffix|..][i] == suffix[i];
    }
  }

  lemma EndsWithAppend(a: string, b: string)
    ensures EndsWith(a + b, b)
  {
    assert (a + b)[|a + b| - |b|..] == b;
  }

  lemma StartsWithAppend(a: string, b: string)
    ensures StartsWith(a + b, a)
  {
    assert (a + b)[..|a|] == a;
  }

  /**
   * The characters ECMAScript counts as white space or line terminators, which
   * both `String.prototype.trim` and the `\s` class match: tab, vertical tab,
   * form feed, space, no-break space, the byte-order mark, the other space
   * separators (U+1680, U+2000 to U+200A, U+202F, U+205F, U+3000), line
   * feed, carriage return and the line and paragraph separators.
   */
  predicate IsWhitespace(c: char) {
    if c <= ' ' then c == ' ' || '\t' <= c <= '\r'
    else if c < '\U{A0}' then false
    else IsOtherWhitespace(c)
  }

  /** The white space and line terminators beyond ASCII. */
  predicate IsOtherWhitespace(c: char) {
    c == '\U{A0}' || c == '\U{1680}' || ('\U{2000}' <= c <= '\U{200A}') || c == '\U{2028}' || c == '\U{2029}' ||
    c == '\U{202F}' || c == '\U{205F}' || c == '\U{3000}' || c == '\U{FEFF}'
  }

  /** `s.trim()`: `s` without its leading and trailing whitespace. */
  function Trim(s: string): (r: string)
    ensures |r| <= |s|
    ensures r != [] ==> !IsWhitespace(r[0]) && !IsWhitespace(r[|r| - 1])
  {
    TrimEnd(TrimStart(s))
  }

  /**
   * The trimmed string is the slice of `s` that starts after its leading
   * whitespace, and everything around that slice is whitespace.
   */
  lemma {:induction false} TrimIsCore(s: string)
    ensures |s| - |TrimStart(s)| + |Trim(s)| <= |s|
    ensures Trim(s) == s[|s| - |TrimStart(s)|..|s| - |TrimStart(s)| + |Trim(s)|]
    ensures forall i :: 0 <= i < |s| - |TrimStart(s)| ==> IsWhitespace(s[i])
    ensures forall i :: |s| - |TrimStart(s)| + |Trim(s)| <= i < |s| ==> IsWhitespace(s[i])
  {
    var t := TrimStart(s);
    PrefixOfSuffix(s, t, TrimEnd(t));
    AfterPrefixOfSuffix(s, t, TrimEnd(t));
  }

  /** A prefix `r` of a suffix `t` of `s` is the slice of `s` where `t` starts. */
  lemma PrefixOfSuffix(s: string, t: string, r: string)
    requires EndsWith(s, t) && StartsWith(t, r)
    ensures |s| - |t| + |r| <= |s| && r == s[|s| - |t|..|s| - |t| + |r|]
  {
    var a := |s| - |t|;
    assert s[a..] == t;
    assert s[a..a + |r|] == s[a..][..|r|];
  }

  /** What follows that slice in `s` is what follows `r` in `t`. */
  lemma AfterPrefixOfSuffix(s: string, t: string, r: string)
    requires EndsWith(s, t) && StartsWith(t, r)
    requires forall i :: |r| <= i < |t| ==> IsWhitespace(t[i])
    ensures forall i :: |s| - |t| + |r| <= i < |s| ==> IsWhitespace(s[i])
  {
    var a := |s| - |t|;
    forall i | a + |r| <= i < |s| ensures IsWhitespace(s[i]) {
      assert s[i] == s[a..][i - a];
      assert s[a..] == t;
    }
  }

  /** `s.trimStart()`: `s` without its leading whitespace. */
  function TrimStart(s: string): (r: string)
    ensures |r| <= |s| && EndsWith(s, r)
    ensures forall i :: 0 <= i < |s| - |r| ==> IsWhitespace(s[i])
    ensures r != [] ==> !IsWhitespace(r[0])
  {
    if s != [] && IsWhitespace(s[0]) then TrimStart(s[1..]) else s
  }

  /** `s.trimEnd()`: `s` without its trailing whitespace. */
  function TrimEnd(s: string): (r: string)
    ensures |r| <= |s| && StartsWith(s, r)
    ensures forall i :: |r| <= i < |s| ==> IsWhitespace(s[i])
    ensures r != [] ==> !IsWhitespace(r[|r| - 1])
    ensures s != [] && !IsWhitespace(s[0]) ==> r != [] && r[0] == s[0]
  {
    if s != [] && IsWhitespace(s[|s| - 1]) then TrimEnd(s[..|s| - 1]) else s
  }

  /** Trimming a trimmed string changes nothing. */
  lemma TrimIdempotent(s: string)
    ensures Trim(Trim(s)) == Trim(s)
  {
    var r := Trim(s);
    assert TrimStart(r) == r;
    assert TrimEnd(r) == r;
  }

  /** `s.split(c)` for a one-character separator: the parts between separators. */
  function Split(s: string, c: char): (parts: seq<string>)
    ensures |parts| >= 1
    ensures forall i :: 0 <= i < |parts| ==> c !in parts[i]
  {
    if c !in s then [s]
    else
      var k := IndexOfChar(s, c);
      [s[..k]] + Split(s[k + 1..], c)
  }

  /** The first index of `c` in `s`; requires that `c` occurs. */
  function IndexOfChar(s: string, c: char): (k: nat)
    requires c in s
    ensures k < |s| && s[k] == c && c !in s[..k]
  {
    if s[0] == c then 0 else 1 + IndexOfChar(s[1..], c)
  }

  /** The part of `s` before the first whitespace character (`s.split(/\s/)[0]`). */
  function FirstToken(s: string): (r: string)
    ensures StartsWith(s, r)
    ensures forall i :: 0 <= i < |r| ==> !IsWhitespace(r[i])
    ensures |r| < |s| ==> IsWhitespace(s[|r|])
  {
    if s == [] || IsWhitespace(s[0]) then [] else [s[0]] + FirstToken(s[1..])
  }

  predicate OccursAt(s: string, t: string, j: int) {
    0 <= j && j + |t| <= |s| && s[j..j + |t|] == t
  }

  /** `s.indexOf(t)`: the first position at which `t` occurs, or -1. */
  function IndexOf(s: string, t: string): (k: int)
    ensures k == -1 || OccursAt(s, t, k)
    ensures k >= 0 ==> forall j :: 0 <= j < k ==> !OccursAt(s, t, j)
    ensures k == -1 ==> forall j :: !OccursAt(s, t, j)
  {
    IndexOfFrom(s, t, 0)
  }

  function IndexOfFrom(s: string, t: string, i: nat): (k: int)
    ensures k == -1 || (i <= k && OccursAt(s, t, k))
    ensures k >= 0 ==> forall j :: i <= j < k ==> !OccursAt(s, t, j)
    ensures k == -1 ==> forall j :: i <= j ==> !OccursAt(s, t, j)
    decreases |s| - i
  {
    if i + |t| > |s| then -1
    else if s[i..i + |t|] == t then i
    else IndexOfFrom(s, t, i + 1)
  }

  /** The last index of `c` in `s`, or -1. */
  function LastIndexOfChar(s: string, c: char): (k: int)
    ensures -1 <= k < |s|
    ensures k >= 0 ==> s[k] == c
    ensures forall j :: k < j < |s| ==> s[j] != c
  {
    LastIndexOfCharBefore(s, c, |s|)
  }

  function LastIndexOfCharBefore(s: string, c: char, n: nat): (k: int)
    requires n <= |s|
    ensures -1 <= k < n
    ensures k >= 0 ==> s[k] == c
    ensures forall j :: k < j < n ==> s[j] != c
  {
    if n == 0 then -1
    else if s[n - 1] == c then n - 1
    else LastIndexOfCharBefore(s, c, n - 1)
  }

  /** The last path segment: everything after the last '/'. */
  function LastSegment(p: string): (r: string)
    ensures EndsWith(p, r)
    ensures forall i :: 0 <= i < |r| ==> r[i] != '/'
  {
    var k := LastIndexOfChar(p, '/');
    p[k + 1..]
  }

  /**
   * Node's posix `path.extname`: trailing '/' characters are ignored; then
   * the extension of the last segment.
   */
  function Extname(p: string): (r: string)
    ensures r == [] || r[0] == '.'
    ensures forall i :: 0 <= i < |r| ==> r[i] != '/'
    ensures forall i :: 0 < i < |r| ==> r[i] != '.'
    ensures p == [] || p[|p| - 1] != '/' ==> EndsWith(p, r)
    decreases |p|
  {
    if p != [] && p[|p| - 1] == '/' then Extname(p[..|p| - 1])
    else
      var seg := LastSegment(p);
      var r := SegmentExtension(seg);
      EndsWithTrans(p, seg, r);
      r
  }

  /**
   * The extension of one path segment: the text from its last '.' to its
   * end; empty when it has no '.', when its only '.' is its first character,
   * and for '..'.
   */
  function SegmentExtension(seg: string): (r: string)
    ensures r == [] || r[0] == '.'
    ensures forall i :: 0 < i < |r| ==> r[i] != '.'
    ensures EndsWith(seg, r)
  {
    var k := LastIndexOfChar(seg, '.');
    if k <= 0 || seg == ".." then [] else seg[k..]
  }

  lemma EndsWithTrans(a: string, b: string, c: string)
    requires EndsWith(a, b) && EndsWith(b, c)
    ensures EndsWith(a, c)
  {
    assert a[|a| - |c|..] == b[|b| - |c|..];
  }

  /** `extensions.find((e) => filePath.endsWith(e))`: the first listed extension that ends the path, if any. */
  function FirstSuffix(extensions: seq<string>, filePath: string): (r: Option<string>)
    ensures r.None? <==> forall k :: 0 <= k < |extensions| ==> !EndsWith(filePath, extensions[k])
    ensures r.Some? ==> exists k :: (0 <= k < |extensions| && extensions[k] == r.value && EndsWith(filePath, r.value) &&
                                     forall l :: 0 <= l < k ==> !EndsWith(filePath, extensions[l]))
  {
    if extensions == [] then None
    else if EndsWith(filePath, extensions[0]) then Some(extensions[0])
    else
      var r := FirstSuffix(extensions[1..], filePath);
      assert forall k :: 1 <= k < |extensions| ==> extensions[k] == extensions[1..][k - 1];
      if r.Some? then
        var k :| 0 <= k < |extensions| - 1 && extensions[1..][k] == r.value && EndsWith(filePath, r.value) &&
          forall l :: 0 <= l < k ==> !EndsWith(filePath, extensions[1..][l]);
        assert extensions[k + 1] == r.value;
        r
      else r
  }
}
