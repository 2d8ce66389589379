/**
 * The JavaScript string primitives the shell and the completer rely on:
 * the `\s` character class and `trim()`, line terminators (which `.` in a
 * regular expression does not match), the two path-separator glyphs and
 * `replace(/[\\/]/g, sep)`, `lastIndexOf`, ASCII `toLowerCase`, and
 * `split(/\s+/, 2)`.
 */
module Strings {

  /** ECMAScript WhiteSpace and LineTerminator: the set `\s` matches and `trim()` removes. */
  predicate IsSpace(c: char) {
    c == '\t' || c == '\n' || c == '\U{B}' || c == '\U{C}' || c == '\r' || c == ' ' ||
    c == '\U{A0}' || c == '\U{1680}' || ('\U{2000}' <= c <= '\U{200A}') ||
    c == '\U{2028}' || c == '\U{2029}' || c == '\U{202F}' || c == '\U{205F}' ||
    c == '\U{3000}' || c == '\U{FEFF}'
  }

  /** The characters `.` does not match in a regular expression without the `s` flag. */
  predicate IsLineTerminator(c: char) {
    c == '\n' || c == '\r' || c == '\U{2028}' || c == '\U{2029}'
  }

  predicate AllSpace(s: string) {
    forall i :: 0 <= i < |s| ==> IsSpace(s[i])
  }

  predicate NoSpace(s: string) {
    forall i :: 0 <= i < |s| ==> !IsSpace(s[i])
  }

  predicate NoLineTerminator(s: string) {
    forall i :: 0 <= i < |s| ==> !IsLineTerminator(s[i])
  }

  /** The two path-separator glyphs a user may type. */
  predicate IsGlyph(c: char) {
    c == '/' || c == '\\'
  }

  type Glyph = c: char | IsGlyph(c) witness '/'

  predicate NoGlyph(s: string) {
    forall i :: 0 <= i < |s| ==> !IsGlyph(s[i])
  }

  /** True when `s` uses both glyphs. */
  predicate MixesGlyphs(s: string) {
    '/' in s && '\\' in s
  }

  /** `s.replace(/[\\/]/g, sep)`: every glyph becomes `sep`, nothing else moves. */
  function Unify(s: string, sep: char): (r: string)
    ensures |r| == |s|
    ensures forall i :: 0 <= i < |s| ==> r[i] == (if IsGlyph(s[i]) then sep else s[i])
  {
    seq(|s|, i requires 0 <= i < |s| => if IsGlyph(s[i]) then sep else s[i])
  }

  /** `s.replace(/[/\\]$/, '')`: drops one trailing glyph, if there is one. */
  function StripTrailingGlyph(s: string): (r: string)
    ensures s == [] || !IsGlyph(s[|s| - 1]) ==> r == s
    ensures s != [] && IsGlyph(s[|s| - 1]) ==> r + [s[|s| - 1]] == s
  {
    if s != [] && IsGlyph(s[|s| - 1]) then s[..|s| - 1] else s
  }

  /** `s.lastIndexOf(c)`: -1 when `c` does not occur. */
  function LastIndexOf(s: string, c: char): (r: int)
    ensures -1 <= r < |s|
    ensures r == -1 <==> c !in s
    ensures 0 <= r ==> s[r] == c
    ensures forall i :: r < i < |s| ==> s[i] != c
  {
    if s == [] then -1
    else if s[|s| - 1] == c then |s| - 1
    else
      var r := LastIndexOf(s[..|s| - 1], c);
      assert s == s[..|s| - 1] + [s[|s| - 1]];
      r
  }

  /** The end of the run of `\s` characters that starts at `i`. */
  function SpaceRun(s: string, i: nat): (j: nat)
    requires i <= |s|
    ensures i <= j <= |s|
    ensures AllSpace(s[i..j])
    ensures j == |s| || !IsSpace(s[j])
    decreases |s| - i
  {
    if i < |s| && IsSpace(s[i]) then SpaceRun(s, i + 1) else i
  }

  /** The end of the run of non-`\s` characters that starts at `i`. */
  function WordRun(s: string, i: nat): (j: nat)
    requires i <= |s|
    ensures i <= j <= |s|
    ensures NoSpace(s[i..j])
    ensures j == |s| || IsSpace(s[j])
    decreases |s| - i
  {
    if i < |s| && !IsSpace(s[i]) then WordRun(s, i + 1) else i
  }

  /** The index of the last non-`\s` character plus one (0 when there is none). */
  function TrimEnd(s: string): (j: nat)
    ensures j <= |s|
    ensures AllSpace(s[j..])
    ensures j == 0 || !IsSpace(s[j - 1])
  {
    if s == [] || !IsSpace(s[|s| - 1]) then |s|
    else
      var j := TrimEnd(s[..|s| - 1]);
      assert s[j..] == s[..|s| - 1][j..] + [s[|s| - 1]];
      j
  }

  /** `s.trim()`: `s` is the result with runs of `\s` around it. */
  function Trim(s: string): (r: string)
    ensures exists i, j :: 0 <= i <= j <= |s| && r == s[i..j] && AllSpace(s[..i]) && AllSpace(s[j..])
    ensures r == [] || (!IsSpace(r[0]) && !IsSpace(r[|r| - 1]))
    ensures r == [] <==> AllSpace(s)
  {
    var i := SpaceRun(s, 0);
    if i == |s| then
      assert AllSpace(s[..0]) && AllSpace(s[0..]) && [] == s[0..0];
      []
    else
      var j := TrimEnd(s);
      assert i < j;
      assert !AllSpace(s) by { assert !IsSpace(s[i]); }
      assert AllSpace(s[..i]) by { assert s[..i] == s[0..i]; }
      s[i..j]
  }

  /**
   * `s.split(/\s+/, 2)[1] ?? ''`: the text between the first run of `\s`
   * and the next `\s` (or the end), and the empty string when there is no
   * `\s` at all.
   */
  function SecondToken(s: string): (r: string)
    ensures NoSpace(r)
    ensures NoSpace(s) ==> r == []
  {
    var i := WordRun(s, 0);
    if i == |s| then
      assert NoSpace(s) by { assert s == s[0..i]; }
      []
    else
      var j := SpaceRun(s, i);
      var k := WordRun(s, j);
      assert j > i;
      s[j..k]
  }

  /** Every string that is a word, a gap of `\s`, a token and then nothing or more `\s`-led text splits to that token. */
  lemma {:induction false} SecondTokenOf(first: string, gap: string, arg: string, rest: string)
    requires NoSpace(first) && gap != [] && AllSpace(gap) && NoSpace(arg)
    requires rest == [] || IsSpace(rest[0])
    requires arg == [] ==> rest == []
    ensures SecondToken(first + gap + arg + rest) == arg
  {
    var s := first + gap + arg + rest;
    var a, b, e := |first|, |first| + |gap|, |first| + |gap| + |arg|;
    assert s[..a] == first && s[a..b] == gap && s[b..e] == arg && s[e..] == rest;
    SecondTokenAt(s, a, b, e);
  }

  /** `SecondTokenOf` on positions: a word up to `a`, space up to `b`, the token up to `e`, then the end or a space. */
  lemma SecondTokenAt(s: string, a: nat, b: nat, e: nat)
    requires a < b <= e <= |s|
    requires NoSpace(s[..a]) && AllSpace(s[a..b]) && NoSpace(s[b..e])
    requires e == |s| || IsSpace(s[e])
    requires b == e ==> e == |s|
    ensures SecondToken(s) == s[b..e]
  {
    assert forall k :: 0 <= k < a ==> s[..a][k] == s[k];
    assert forall k :: a <= k < b ==> s[a..b][k - a] == s[k];
    assert forall k :: b <= k < e ==> s[b..e][k - b] == s[k];
    assert IsSpace(s[a..b][0]);
    assert b < e ==> !IsSpace(s[b..e][0]);
    WordRunFrom(s, 0, a);
    SpaceRunFrom(s, a, b);
    WordRunFrom(s, b, e);
  }

  lemma {:induction false} WordRunFrom(s: string, i: nat, j: nat)
    requires i <= j <= |s|
    requires forall k :: i <= k < j ==> !IsSpace(s[k])
    requires j == |s| || IsSpace(s[j])
    ensures WordRun(s, i) == j
    decreases j - i
  {
    if i < j { WordRunFrom(s, i + 1, j); }
  }

  lemma {:induction false} SpaceRunFrom(s: string, i: nat, j: nat)
    requires i <= j <= |s|
    requires forall k :: i <= k < j ==> IsSpace(s[k])
    requires j == |s| || !IsSpace(s[j])
    ensures SpaceRun(s, i) == j
    decreases j - i
  {
    if i < j { SpaceRunFrom(s, i + 1, j); }
  }

  /** ASCII `toLowerCase`. */
  function LowerChar(c: char): (d: char)
    ensures 'A' <= c <= 'Z' ==> d as int == c as int + 32
    ensures !('A' <= c <= 'Z') ==> d == c
  {
    if 'A' <= c <= 'Z' then (c as int + 32) as char else c
  }

  function Lower(s: string): (r: string)
    ensures |r| == |s|
    ensures forall i :: 0 <= i < |s| ==> r[i] == LowerChar(s[i])
  {
    seq(|s|, i requires 0 <= i < |s| => LowerChar(s[i]))
  }

  /** `d.toLowerCase().startsWith(prefix.toLowerCase())`. */
  predicate StartsWithIgnoringCase(d: string, prefix: string) {
    Lower(prefix) <= Lower(d)
  }
}
