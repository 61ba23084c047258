/**
 * JavaScript strings as sequences of UTF-16 code units, with the few string
 * primitives and regular expressions the release scripts and the bundle loader
 * rely on. None of the regular expressions involved carries the `u` flag, so
 * they all work on code units.
 */
module Utf16 {

  /** One UTF-16 code unit, the element of a JavaScript string. */
  type CodeUnit = u: int | 0 <= u < 0x1_0000

  type JsString = seq<CodeUnit>

  /** One octet of a buffer. */
  type Byte = b: int | 0 <= b < 0x100

  const LF: CodeUnit := 0x0A
  const CR: CodeUnit := 0x0D
  const BANG: CodeUnit := 0x21
  const HASH: CodeUnit := 0x23
  const PERCENT: CodeUnit := 0x25
  const DASH: CodeUnit := 0x2D
  const DOT: CodeUnit := 0x2E
  const SLASH: CodeUnit := 0x2F

  /** The code units of a literal. Only ever applied to ASCII literals, whose
      characters are their own code units. */
  function Lit(s: string): (r: JsString)
    ensures |r| == |s|
  {
    seq(|s|, i requires 0 <= i < |s| => if s[i] as int < 0x1_0000 then s[i] as int else 0xFFFD)
  }

  /** `s.startsWith(p)`. */
  predicate StartsWith(s: JsString, p: JsString) {
    |p| <= |s| && s[..|p|] == p
  }

  /** A prefix of a prefix is a prefix. */
  lemma StartsWithConcat(s: JsString, p: JsString, q: JsString)
    ensures StartsWith(s, p + q) ==> StartsWith(s, p)
  {
    if StartsWith(s, p + q) {
      assert s[..|p|] == (s[..|p + q|])[..|p|];
    }
  }

  /** The line terminators of ECMA-262 (section 12.3): what `.` in a regular expression refuses. */
  predicate IsLineTerminator(c: CodeUnit) {
    c == LF || c == CR || c == 0x2028 || c == 0x2029
  }

  /** WhiteSpace and LineTerminator of ECMA-262 (sections 12.2 and 12.3): what `String.prototype.trim` removes. */
  predicate IsWhitespace(c: CodeUnit) {
    || c == 0x09 || c == 0x0B || c == 0x0C || c == 0x20 || c == 0xA0 || c == 0x1680
    || (0x2000 <= c <= 0x200A) || c == 0x202F || c == 0x205F || c == 0x3000 || c == 0xFEFF
    || IsLineTerminator(c)
  }

  predicate IsSlash(c: CodeUnit) {
    c == SLASH
  }

  /** `s` with its longest prefix of code units satisfying `drop` removed. */
  function StripLeading(s: JsString, drop: CodeUnit -> bool): (r: JsString)
    ensures |r| <= |s| && r == s[|s| - |r|..]
    ensures forall i :: 0 <= i < |s| - |r| ==> drop(s[i])
    ensures |r| > 0 ==> !drop(r[0])
  {
    if |s| > 0 && drop(s[0]) then
      var r := StripLeading(s[1..], drop);
      assert s[1..][|s| - 1 - |r|..] == s[|s| - |r|..];
      r
    else s
  }

  /** `s` with its longest suffix of code units satisfying `drop` removed. */
  function StripTrailing(s: JsString, drop: CodeUnit -> bool): (r: JsString)
    ensures |r| <= |s| && r == s[..|r|]
    ensures forall i :: |r| <= i < |s| ==> drop(s[i])
    ensures |r| > 0 ==> !drop(r[|r| - 1])
  {
    if |s| > 0 && drop(s[|s| - 1]) then
      var r := StripTrailing(s[..|s| - 1], drop);
      assert s[..|s| - 1][..|r|] == s[..|r|];
      r
    else s
  }

  /** Stripping is idempotent: what is left starts with a unit that is kept. */
  lemma StripLeadingIdempotent(s: JsString, drop: CodeUnit -> bool)
    ensures StripLeading(StripLeading(s, drop), drop) == StripLeading(s, drop)
  {
  }

  lemma StripTrailingIdempotent(s: JsString, drop: CodeUnit -> bool)
    ensures StripTrailing(StripTrailing(s, drop), drop) == StripTrailing(s, drop)
  {
  }

  /** `r` is `s` with only whitespace removed before index `k` and after `r`. */
  predicate TrimmedAt(s: JsString, r: JsString, k: nat) {
    && OccursAt(s, r, k)
    && (forall i :: 0 <= i < k ==> IsWhitespace(s[i]))
    && (forall i :: k + |r| <= i < |s| ==> IsWhitespace(s[i]))
  }

  /** Whitespace stripped from the front, then from the back, leaves `r` trimmed out of `s`. */
  lemma TrimmedAtStrips(s: JsString, t: JsString, r: JsString)
    requires |t| <= |s| && t == s[|s| - |t|..]
    requires forall i :: 0 <= i < |s| - |t| ==> IsWhitespace(s[i])
    requires |r| <= |t| && r == t[..|r|]
    requires forall i :: |r| <= i < |t| ==> IsWhitespace(t[i])
    ensures TrimmedAt(s, r, |s| - |t|)
  {
    var k := |s| - |t|;
    assert s[k..k + |r|] == r;
    forall i | k + |r| <= i < |s| ensures IsWhitespace(s[i]) {
      assert s[i] == t[i - k];
    }
  }

  /** `s.trim()`. */
  function Trim(s: JsString): (r: JsString)
    ensures |r| > 0 ==> !IsWhitespace(r[0]) && !IsWhitespace(r[|r| - 1])
    ensures exists k: nat :: TrimmedAt(s, r, k)
  {
    var t := StripLeading(s, IsWhitespace);
    var r := StripTrailing(t, IsWhitespace);
    TrimmedAtStrips(s, t, r);
    r
  }

  /** `t` occurs in `s` starting at index `j`. */
  predicate OccursAt(s: JsString, t: JsString, j: nat) {
    j + |t| <= |s| && s[j..j + |t|] == t
  }

  /** `s.indexOf(t, from)`: the first index at or after `from` where `t` occurs, or -1. */
  function IndexOfFrom(s: JsString, t: JsString, from: nat): (r: int)
    requires from <= |s|
    ensures r == -1 || (from <= r && OccursAt(s, t, r))
    ensures r == -1 ==> forall j :: from <= j ==> !OccursAt(s, t, j)
    ensures r >= 0 ==> forall j :: from <= j < r ==> !OccursAt(s, t, j)
    decreases |s| - from
  {
    if from + |t| > |s| then -1
    else if s[from..from + |t|] == t then from
    else IndexOfFrom(s, t, from + 1)
  }

  /** `s.indexOf(t)`. */
  function IndexOf(s: JsString, t: JsString): (r: int)
    ensures r == -1 || (0 <= r && OccursAt(s, t, r))
    ensures r >= 0 <==> exists j: nat :: OccursAt(s, t, j)
    ensures r >= 0 ==> forall j :: 0 <= j < r ==> !OccursAt(s, t, j)
  {
    IndexOfFrom(s, t, 0)
  }

  /** The match of `/[^/]*$/` on `s`: what follows its last `/` (all of `s` when it has none). */
  function AfterLastSlash(s: JsString): (r: JsString)
    ensures |r| <= |s| && r == s[|s| - |r|..]
    ensures forall i :: 0 <= i < |r| ==> r[i] != SLASH
    ensures |r| < |s| ==> s[|s| - |r| - 1] == SLASH
  {
    if |s| == 0 || s[|s| - 1] == SLASH then []
    else AfterLastSlash(s[..|s| - 1]) + [s[|s| - 1]]
  }
}
