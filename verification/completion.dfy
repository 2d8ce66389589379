/**
 * The `cd` tab-completion engine of src/lib/completion.ts: parsing a
 * partly typed `cd` line, splitting its argument at the last separator,
 * listing and filtering the candidate subdirectories, re-rendering the
 * typed base, and cycling through the candidates on repeated requests
 * with the same key. The cycle memory lives in a `Completer` object.
 */
module Completion {
  import opened Strings
  import opened Sorting
  import opened Environment

  datatype Option<T> = None | Some(value: T)

  /* ---------------------------------------------------------------- */
  /* Parsing `^(\s*cd\s+)(.*)$`                                        */
  /* ---------------------------------------------------------------- */

  /** A match of `^(\s*cd\s+)(.*)$`: leading space, `cd`, a non-empty gap, and the typed argument. */
  datatype CdMatch = CdMatch(lead: string, gap: string, typed: string) {
    /** The first capture group, the dispatch prefix. */
    function Prefix(): string {
      lead + "cd" + gap
    }
  }

  /**
   * The regular expression of completion.ts:50. Both `\s` runs are greedy
   * and `.` stops at line terminators, so the gap takes every space after
   * `cd` and the argument may not contain a line terminator.
   */
  function ParseCdLine(line: string): (m: Option<CdMatch>)
    ensures m.Some? ==> line == m.value.lead + "cd" + m.value.gap + m.value.typed
    ensures m.Some? ==> AllSpace(m.value.lead) && m.value.gap != [] && AllSpace(m.value.gap)
    ensures m.Some? ==> NoLineTerminator(m.value.typed)
    ensures m.Some? ==> m.value.typed == [] || !IsSpace(m.value.typed[0])
  {
    var n := SpaceRun(line, 0);
    if n + 2 <= |line| && line[n..n + 2] == "cd" then
      var k := SpaceRun(line, n + 2);
      if n + 2 < k && NoLineTerminator(line[k..]) then
        assert line == line[..n] + "cd" + line[n + 2..k] + line[k..];
        assert line[..n] == line[0..n];
        Some(CdMatch(line[..n], line[n + 2..k], line[k..]))
      else None
    else None
  }

  lemma {:induction false} SpaceRunCovers(s: string, i: nat, k: nat)
    requires i <= k <= |s| && AllSpace(s[i..k])
    ensures k <= SpaceRun(s, i)
    decreases k - i
  {
    if i < k {
      assert IsSpace(s[i..k][0]);
      assert s[i + 1..k] == s[i..k][1..];
      SpaceRunCovers(s, i + 1, k);
    }
  }

  /**
   * Every line of the shape space, `cd`, non-empty space, argument without
   * line terminators is matched, with the same leading space: the parser
   * misses no line the regular expression accepts.
   */
  lemma {:induction false} ParseCdLineComplete(lead: string, gap: string, rest: string)
    requires AllSpace(lead) && gap != [] && AllSpace(gap) && NoLineTerminator(rest)
    ensures ParseCdLine(lead + "cd" + gap + rest).Some?
    ensures ParseCdLine(lead + "cd" + gap + rest).value.lead == lead
    ensures ParseCdLine(lead + "cd" + gap + rest).value.gap + ParseCdLine(lead + "cd" + gap + rest).value.typed == gap + rest
  {
    var line := lead + "cd" + gap + rest;
    var n := |lead|;
    var g := n + 2 + |gap|;
    assert line[..n] == lead && line[n..n + 2] == "cd";
    assert line[n + 2..g] == gap && line[g..] == rest;
    assert line[n + 2..] == gap + rest;
    ParseCdLineCompleteAt(line, n, g);
  }

  /** `ParseCdLineComplete` on positions: space up to `n`, `cd`, space up to `g`, no line terminator after. */
  lemma ParseCdLineCompleteAt(line: string, n: nat, g: nat)
    requires n + 2 < g <= |line|
    requires AllSpace(line[..n]) && line[n..n + 2] == "cd" && AllSpace(line[n + 2..g]) && NoLineTerminator(line[g..])
    ensures ParseCdLine(line).Some? && ParseCdLine(line).value.lead == line[..n]
    ensures ParseCdLine(line).value.gap + ParseCdLine(line).value.typed == line[n + 2..]
  {
    var k := SpaceRun(line, n + 2);
    assert SpaceRun(line, 0) == n by {
      assert forall i :: 0 <= i < n ==> line[..n][i] == line[i];
      SpaceRunFrom(line, 0, n);
    }
    SpaceRunCovers(line, n + 2, g);
    assert NoLineTerminator(line[k..]) by {
      assert forall i :: 0 <= i < |line[k..]| ==> line[k..][i] == line[g..][k - g + i];
    }
    assert line[n + 2..k] + line[k..] == line[n + 2..];
  }

  /** A line whose `cd` is followed by nothing or by a non-space (`cd`, `cdfoo`) is not a `cd` line. */
  lemma {:induction false} CdWithoutGapIsNoMatch(lead: string, rest: string)
    requires AllSpace(lead)
    requires rest == [] || !IsSpace(rest[0])
    ensures ParseCdLine(lead + "cd" + rest).None?
  {
    var line := lead + "cd" + rest;
    var n := |lead|;
    forall k | 0 <= k < n ensures IsSpace(line[k]) {
      assert line[k] == lead[k];
    }
    SpaceRunFrom(line, 0, n);
    SpaceRunFrom(line, n + 2, n + 2);
  }

  /** `/^\s*cd\s+~/`, the test of completion.ts:31. */
  predicate HasCdTilde(line: string) {
    var n := SpaceRun(line, 0);
    && n + 2 <= |line| && line[n..n + 2] == "cd"
    && var k := SpaceRun(line, n + 2);
       n + 2 < k < |line| && line[k] == '~'
  }

  /** On a matched `cd` line the test of completion.ts:31 is "the argument starts with `~`". */
  lemma CdTildeIsTypedTilde(line: string)
    requires ParseCdLine(line).Some?
    ensures HasCdTilde(line) <==> (ParseCdLine(line).value.typed != [] && ParseCdLine(line).value.typed[0] == '~')
  {
  }

  /* ---------------------------------------------------------------- */
  /* Splitting the argument                                           */
  /* ---------------------------------------------------------------- */

  /** The separator glyph the user typed: a backslash if there is one anywhere, else `/`. */
  function SepShown(typed: string): (g: Glyph)
    ensures g == '\\' <==> '\\' in typed
  {
    if '\\' in typed then '\\' else '/'
  }

  datatype ArgSplit = ArgSplit(basePart: string, namePart: string)

  /**
   * completion.ts:58-62: both glyphs become the platform separator and the
   * argument is cut after the last one. The base is the typed text up to
   * and including its last glyph, written with the platform separator; the
   * name is exactly the typed text after it.
   */
  function SplitArgument(typed: string, sep: Glyph): (s: ArgSplit)
    ensures |s.basePart| <= |typed| && s.basePart == Unify(typed[..|s.basePart|], sep)
    ensures s.namePart == typed[|s.basePart|..]
    ensures s.basePart == [] || s.basePart[|s.basePart| - 1] == sep
    ensures NoGlyph(s.namePart)
    ensures s.basePart == [] <==> NoGlyph(typed)
  {
    var unified := Unify(typed, sep);
    var lastSep := LastIndexOf(unified, sep);
    if lastSep >= 0 then
      var s := ArgSplit(unified[..lastSep + 1], unified[lastSep + 1..]);
      SplitAfter(typed, sep, lastSep, s);
      s
    else
      NoSeparatorNoGlyph(typed, sep);
      ArgSplit([], unified)
  }

  /** Cutting the unified text after its last separator leaves a name that is typed text without glyphs. */
  lemma SplitAfter(typed: string, sep: Glyph, lastSep: nat, s: ArgSplit)
    requires lastSep < |typed|
    requires Unify(typed, sep)[lastSep] == sep
    requires forall i :: lastSep < i < |typed| ==> Unify(typed, sep)[i] != sep
    requires s == ArgSplit(Unify(typed, sep)[..lastSep + 1], Unify(typed, sep)[lastSep + 1..])
    ensures |s.basePart| <= |typed| && s.basePart == Unify(typed[..|s.basePart|], sep)
    ensures s.basePart != [] && s.basePart[|s.basePart| - 1] == sep
    ensures NoGlyph(s.namePart)
    ensures |s.basePart| <= |typed| && s.namePart == typed[|s.basePart|..]
    ensures !NoGlyph(typed)
  {
    var unified := Unify(typed, sep);
    var name := unified[lastSep + 1..];
    forall k | 0 <= k < |name| ensures !IsGlyph(name[k]) && name[k] == typed[lastSep + 1 + k] {
      assert name[k] == unified[lastSep + 1 + k];
      assert name[k] != sep;
    }
    assert Unify(typed, sep)[..lastSep + 1] == Unify(typed[..lastSep + 1], sep);
    assert IsGlyph(typed[lastSep]);
  }

  lemma NoSeparatorNoGlyph(typed: string, sep: Glyph)
    requires sep !in Unify(typed, sep)
    ensures NoGlyph(typed) && Unify(typed, sep) == typed
  {
    var unified := Unify(typed, sep);
    forall i | 0 <= i < |typed| ensures !IsGlyph(typed[i]) && unified[i] == typed[i] {
      assert unified[i] != sep;
    }
  }

  /** The split is exact: the base and the name put together give the unified argument back. */
  lemma SplitReassembles(typed: string, sep: Glyph)
    ensures SplitArgument(typed, sep).basePart + SplitArgument(typed, sep).namePart == Unify(typed, sep)
  {
    var s := SplitArgument(typed, sep);
    var b := |s.basePart|;
    var u := Unify(typed, sep);
    forall i | 0 <= i < |typed| ensures (s.basePart + s.namePart)[i] == u[i] {
      if i < b {
        assert s.basePart[i] == Unify(typed[..b], sep)[i];
      } else {
        assert s.namePart[i - b] == typed[i];
      }
    }
  }

  /**
   * The typed text up to and including the last separator of the glyph
   * shown (completion.ts:79-82); the empty string when there is no
   * separator at all.
   */
  function TypedUntilLastSepShown(typed: string, sepShown: Glyph, hasBase: bool): (u: string)
    ensures u <= typed
    ensures !hasBase ==> u == []
    ensures u != [] ==> u[|u| - 1] == sepShown
    ensures hasBase ==> forall i :: |u| <= i < |typed| ==> typed[i] != sepShown
  {
    if hasBase then typed[..LastIndexOf(typed, sepShown) + 1] else []
  }

  /* ---------------------------------------------------------------- */
  /* The candidate list                                               */
  /* ---------------------------------------------------------------- */

  /** The names kept by the filter of completion.ts:74. */
  predicate Matches(name: string, namePart: string) {
    StartsWithIgnoringCase(name, namePart)
  }

  /** The listed names that start with `namePart`, ignoring case, in listing order. */
  function FilterByPrefix(dirs: seq<string>, namePart: string): (r: seq<string>)
    ensures forall i :: 0 <= i < |r| ==> Matches(r[i], namePart)
    ensures forall d :: multiset(r)[d] == if Matches(d, namePart) then multiset(dirs)[d] else 0
  {
    if dirs == [] then []
    else
      var rest := FilterByPrefix(dirs[1..], namePart);
      assert dirs == [dirs[0]] + dirs[1..];
      assert multiset(dirs) == multiset{dirs[0]} + multiset(dirs[1..]);
      if Matches(dirs[0], namePart) then [dirs[0]] + rest else rest
  }

  /**
   * completion.ts:73-75: the subdirectories of the base that start with the
   * typed name, ignoring case, sorted, each as often as it is listed.
   */
  function Siblings(dirs: seq<string>, namePart: string): (r: seq<string>)
    ensures Sorted(r)
    ensures forall i :: 0 <= i < |r| ==> Matches(r[i], namePart)
    ensures forall d :: multiset(r)[d] == if Matches(d, namePart) then multiset(dirs)[d] else 0
    ensures forall d :: d in r <==> d in dirs && Matches(d, namePart)
  {
    var kept := FilterByPrefix(dirs, namePart);
    var r := SortStrings(kept);
    SameNamesSameCounts(dirs, kept, r, namePart);
    r
  }

  /** Sorting the filtered names keeps their counts, so the sorted list holds exactly the matching listed names. */
  lemma SameNamesSameCounts(dirs: seq<string>, kept: seq<string>, r: seq<string>, namePart: string)
    requires multiset(r) == multiset(kept)
    requires forall d :: multiset(kept)[d] == if Matches(d, namePart) then multiset(dirs)[d] else 0
    ensures forall i :: 0 <= i < |r| ==> Matches(r[i], namePart)
    ensures forall d :: multiset(r)[d] == if Matches(d, namePart) then multiset(dirs)[d] else 0
    ensures forall d :: d in r <==> d in dirs && Matches(d, namePart)
  {
    forall i | 0 <= i < |r| ensures Matches(r[i], namePart) {
      assert r[i] in multiset(r);
    }
    forall d ensures d in r <==> d in dirs && Matches(d, namePart) {
      assert d in r <==> d in multiset(r);
      assert d in dirs <==> d in multiset(dirs);
    }
  }

  /**
   * The directory whose subdirectories are offered: the current directory
   * when no base was typed, else the base with a leading `~` expanded and
   * made absolute against the current directory. (completion.ts:65-71
   * expands after resolving; see `Findings`.)
   */
  function BaseDirAbs(basePart: string, cwd: string, env: Env): (dir: string)
    ensures basePart == [] ==> dir == cwd
    ensures basePart != [] && env.isAbsolute(ExpandTilde(basePart, env)) ==> dir == ExpandTilde(basePart, env)
    ensures basePart != [] && !env.isAbsolute(ExpandTilde(basePart, env)) ==> dir == env.resolve(cwd, ExpandTilde(basePart, env))
  {
    if basePart == [] then cwd
    else
      var expanded := ExpandTilde(basePart, env);
      if env.isAbsolute(expanded) then expanded else env.resolve(cwd, expanded)
  }

  /* ---------------------------------------------------------------- */
  /* Re-rendering the base                                            */
  /* ---------------------------------------------------------------- */

  /** The glyphs of `s` are all `g`. */
  predicate OnlyGlyph(s: string, g: Glyph) {
    forall i :: 0 <= i < |s| && IsGlyph(s[i]) ==> s[i] == g
  }

  /**
   * `buildBaseShown` (completion.ts:22-47): the base as the user sees it,
   * in the glyph they typed and without one trailing separator; a base
   * typed with `~` that expands under the home directory is shown from `~`.
   */
  function BuildBaseShown(basePart: string, sepShown: Glyph, line: string, env: Env): (shown: string)
    ensures OnlyGlyph(shown, sepShown)
    ensures !HasCdTilde(line) && basePart != [] && IsGlyph(basePart[|basePart| - 1]) ==>
      shown + [sepShown] == Unify(basePart, sepShown)
    ensures HasCdTilde(line) && shown != StripTrailingGlyph(Unify(basePart, sepShown)) ==> shown != [] && shown[0] == '~'
  {
    var initial := StripTrailingGlyph(Unify(basePart, sepShown));
    if !HasCdTilde(line) then
      initial
    else
      var homeAbs := Unify(Home(env), env.sep);
      var absBase := Unify(ExpandTilde(basePart, env), env.sep);
      if homeAbs != [] && homeAbs <= absBase then
        var rel := Unify("~" + absBase[|homeAbs|..], sepShown);
        var r := StripTrailingGlyph(rel);
        assert r == [] || r[0] == '~';
        r
      else initial
  }

  /**
   * A base typed from `~` is shown as typed: `~`, the rest in the glyph the
   * user chose, and one trailing separator removed. With a home directory
   * the `~` form is rebuilt from the expansion; without one (HOME and
   * USERPROFILE unset) the plain rendering is kept, which is the same text.
   */
  lemma {:induction false} TildeBaseShownAsTyped(basePart: string, sepShown: Glyph, line: string, env: Env)
    requires HasCdTilde(line) && basePart != [] && basePart[0] == '~'
    requires Home(env) == [] || env.join(Home(env), basePart[1..]) == Home(env) + basePart[1..]
    ensures BuildBaseShown(basePart, sepShown, line, env) == StripTrailingGlyph(Unify(basePart, sepShown))
  {
    var h := Home(env);
    if h != [] {
      var tail := basePart[1..];
      var homeAbs := Unify(h, env.sep);
      var absBase := Unify(ExpandTilde(basePart, env), env.sep);
      assert ExpandTilde(basePart, env) == h + tail;
      assert absBase == homeAbs + Unify(tail, env.sep);
      assert homeAbs <= absBase;
      assert absBase[|homeAbs|..] == Unify(tail, env.sep);
      assert Unify("~" + absBase[|homeAbs|..], sepShown) == Unify(basePart, sepShown) by {
        assert basePart == "~" + tail;
        forall i | 0 <= i < |basePart|
          ensures Unify("~" + absBase[|homeAbs|..], sepShown)[i] == Unify(basePart, sepShown)[i]
        {
          if i > 0 {
            assert ("~" + absBase[|homeAbs|..])[i] == Unify(tail, env.sep)[i - 1];
          }
        }
      }
    }
  }

  /* ---------------------------------------------------------------- */
  /* The parsed line                                                  */
  /* ---------------------------------------------------------------- */

  /** What completion.ts:84-93 collects about a `cd` line, with the split base kept as well. */
  datatype CdInfo = CdInfo(
    cdPrefix: string,
    typed: string,
    typedUntilLastSepShown: string,
    sepShown: Glyph,
    basePart: string,
    baseShown: string,
    namePart: string,
    endsWithSep: bool,
    siblings: seq<string>)

  /** The dispatch prefix is space and `cd`, so it holds no `|`. */
  lemma PrefixHasNoBar(m: CdMatch)
    requires AllSpace(m.lead) && AllSpace(m.gap)
    ensures '|' !in m.Prefix()
  {
    var p := m.Prefix();
    forall i | 0 <= i < |p| ensures p[i] != '|' {
      if i < |m.lead| {
        assert IsSpace(m.lead[i]);
      } else if i >= |m.lead| + 2 {
        assert IsSpace(m.gap[i - |m.lead| - 2]);
      }
    }
  }

  /**
   * `buildCdInfo`: nothing for a line that is not a `cd` with an argument
   * position; otherwise the dispatch prefix and the argument, which make up
   * the line, and each remaining field as the step that computes it.
   */
  function BuildCdInfo(line: string, cwd: string, env: Env): (r: Option<CdInfo>)
    ensures r.None? <==> ParseCdLine(line).None?
    ensures r.Some? ==> r.value.cdPrefix + r.value.typed == line && '|' !in r.value.cdPrefix
    ensures r.Some? ==> r.value.cdPrefix == ParseCdLine(line).value.Prefix() && r.value.typed == ParseCdLine(line).value.typed
    ensures r.Some? ==> r.value.sepShown == SepShown(r.value.typed)
    ensures r.Some? ==> ArgSplit(r.value.basePart, r.value.namePart) == SplitArgument(r.value.typed, env.sep)
    ensures r.Some? ==> (r.value.endsWithSep <==> r.value.basePart != [] && r.value.namePart == [])
    ensures r.Some? ==> r.value.siblings == Siblings(env.listDirs(BaseDirAbs(r.value.basePart, cwd, env)), r.value.namePart)
    ensures r.Some? ==> r.value.baseShown == BuildBaseShown(r.value.basePart, r.value.sepShown, line, env)
    ensures r.Some? ==> r.value.typedUntilLastSepShown == TypedUntilLastSepShown(r.value.typed, r.value.sepShown, r.value.basePart != [])
  {
    match ParseCdLine(line)
    case None => None
    case Some(m) =>
      var typed := m.typed;
      var sepShown := SepShown(typed);
      var split := SplitArgument(typed, env.sep);
      var baseDirAbs := BaseDirAbs(split.basePart, cwd, env);
      var siblings := Siblings(env.listDirs(baseDirAbs), split.namePart);
      var baseShown := BuildBaseShown(split.basePart, sepShown, line, env);
      var until := TypedUntilLastSepShown(typed, sepShown, split.basePart != []);
      PrefixHasNoBar(m);
      Some(CdInfo(m.Prefix(), typed, until, sepShown, split.basePart, baseShown, split.namePart,
                  split.basePart != [] && split.namePart == [], siblings))
  }

  /**
   * When the user typed only one of the two glyphs, the typed text up to
   * the last shown separator (the key's last part) is exactly the typed
   * base, and unifying it gives the split base.
   */
  lemma {:induction false} KeyBaseIsTypedBase(typed: string, sep: Glyph)
    requires !MixesGlyphs(typed)
    ensures
      var s := SplitArgument(typed, sep);
      var u := TypedUntilLastSepShown(typed, SepShown(typed), s.basePart != []);
      && u == typed[..|s.basePart|]
      && Unify(u, sep) == s.basePart
  {
    var s := SplitArgument(typed, sep);
    var g := SepShown(typed);
    var b := |s.basePart|;
    if b > 0 {
      assert IsGlyph(typed[b - 1]) by {
        assert s.basePart[b - 1] == Unify(typed[..b], sep)[b - 1];
      }
      assert typed[b - 1] == g by {
        assert typed[b - 1] in typed;
      }
      assert LastIndexOf(typed, g) == b - 1;
    }
  }

  /* ---------------------------------------------------------------- */
  /* Cycling                                                          */
  /* ---------------------------------------------------------------- */

  /** The memory between completion requests: a key, the candidates frozen at its start, and the position. */
  datatype CycleState = CycleState(key: string, candidates: seq<string>, idx: nat)

  /** The result of `getNextCycleState`. */
  datatype Cycle = Cycle(candidates: seq<string>, idx: nat)

  /** The cycle state never points outside its candidates, and never holds an empty list. */
  predicate ValidCycle(c: Option<CycleState>) {
    c.None? || (|c.value.candidates| > 0 && c.value.idx < |c.value.candidates|)
  }

  /** The key of completion.ts:128-130. */
  function CycleKey(cwd: string, cdPrefix: string, typedUntilLastSepShown: string): string {
    cwd + "|" + cdPrefix + "|" + typedUntilLastSepShown
  }

  function KeyOf(info: CdInfo, cwd: string): string {
    CycleKey(cwd, info.cdPrefix, info.typedUntilLastSepShown)
  }

  /**
   * `getNextCycleState`: the same key continues with the frozen list, one
   * step further and wrapping round; any other key starts over on the fresh
   * siblings.
   */
  function NextCycle(key: string, siblings: seq<string>, current: Option<CycleState>): (c: Cycle)
    ensures current.Some? && current.value.key == key ==>
      && c.candidates == current.value.candidates
      && (|c.candidates| > 0 ==> c.idx == (current.value.idx + 1) % |c.candidates|)
    ensures !(current.Some? && current.value.key == key) ==> c == Cycle(siblings, 0)
    ensures |c.candidates| > 0 ==> c.idx < |c.candidates|
  {
    if current.Some? && current.value.key == key then
      var candidates := current.value.candidates;
      if |candidates| == 0 then Cycle([], 0)
      else Cycle(candidates, (current.value.idx + 1) % |candidates|)
    else Cycle(siblings, 0)
  }

  /**
   * `buildSuggestion` as intended: the shown base and its separator when a
   * base was typed, then the chosen name. (completion.ts:111-113 tests the
   * shown base instead; see `Findings`.)
   */
  function BuildSuggestion(info: CdInfo, choice: string): (s: string)
    ensures info.basePart == [] ==> s == choice
    ensures info.basePart != [] ==> s == info.baseShown + [info.sepShown] + choice
  {
    (if info.basePart != [] then info.baseShown + [info.sepShown] else []) + choice
  }


  /**
   * Outside the `~` case the suggestion keeps what the user typed up to the
   * last separator, in the glyph they used, and puts the chosen name after
   * it; when only one glyph was typed that is the typed base character for
   * character.
   */
  lemma {:induction false} SuggestionKeepsTypedBase(info: CdInfo, line: string, env: Env, choice: string)
    requires ArgSplit(info.basePart, info.namePart) == SplitArgument(info.typed, env.sep)
    requires info.sepShown == SepShown(info.typed)
    requires info.baseShown == BuildBaseShown(info.basePart, info.sepShown, line, env)
    requires !HasCdTilde(line)
    ensures BuildSuggestion(info, choice) == Unify(info.basePart, info.sepShown) + choice
    ensures !MixesGlyphs(info.typed) ==> BuildSuggestion(info, choice) == info.typed[..|info.basePart|] + choice
  {
    var typed := info.typed;
    var b := |info.basePart|;
    var g := info.sepShown;
    if b > 0 {
      assert IsGlyph(info.basePart[b - 1]);
      assert info.baseShown + [g] == Unify(info.basePart, g);
    }
    if !MixesGlyphs(typed) {
      assert Unify(info.basePart, g) == typed[..b] by {
        forall i | 0 <= i < b ensures Unify(info.basePart, g)[i] == typed[i] {
          assert info.basePart[i] == Unify(typed[..b], env.sep)[i];
          if IsGlyph(typed[i]) {
            assert typed[i] in typed;
          }
        }
      }
    }
  }

  /** What the completer returns to readline: the suggestions and the text they replace. */
  datatype CompleterResult = CompleterResult(suggestions: seq<string>, replaced: string)

  /** One completion request: what it returns and the cycle state it leaves. */
  datatype StepResult = StepResult(out: CompleterResult, next: Option<CycleState>)

  /**
   * The body of the `completer` closure (completion.ts:126-145) once
   * `buildCdInfo` has turned `line` into `info`: nothing for a line that is
   * not a `cd` line or has no candidates; otherwise the next candidate
   * under the line's key, stored as the new position and suggested in place
   * of the text after the dispatch prefix.
   */
  function Respond(line: string, info: Option<CdInfo>, cwd: string, current: Option<CycleState>): (r: StepResult)
    requires info.Some? ==> |info.value.cdPrefix| <= |line|
    ensures info.None? ==> r == StepResult(CompleterResult([], line), current)
    ensures |r.out.suggestions| <= 1
    ensures r.out.suggestions == [] ==> r.next == current && r.out.replaced == line
    ensures ValidCycle(current) ==> ValidCycle(r.next)
    ensures r.out.suggestions != [] ==>
      && info.Some?
      && r.next.Some?
      && r.next.value.key == KeyOf(info.value, cwd)
      && r.next.value.idx < |r.next.value.candidates|
      && r.out.suggestions == [BuildSuggestion(info.value, r.next.value.candidates[r.next.value.idx])]
      && r.out.replaced == line[|info.value.cdPrefix|..]
  {
    match info
    case None => StepResult(CompleterResult([], line), current)
    case Some(i) =>
      var key := KeyOf(i, cwd);
      var c := NextCycle(key, i.siblings, current);
      if |c.candidates| == 0 then StepResult(CompleterResult([], line), current)
      else
        StepResult(CompleterResult([BuildSuggestion(i, c.candidates[c.idx])], line[|i.cdPrefix|..]),
                   Some(CycleState(key, c.candidates, c.idx)))
  }

  /** A whole request on a raw line: what is replaced is exactly the typed argument. */
  function CompleteStep(line: string, cwd: string, env: Env, current: Option<CycleState>): (r: StepResult)
    ensures BuildCdInfo(line, cwd, env).None? ==> r == StepResult(CompleterResult([], line), current)
    ensures r.out.suggestions != [] ==> r.out.replaced == BuildCdInfo(line, cwd, env).value.typed
    ensures ValidCycle(current) ==> ValidCycle(r.next)
  {
    var info := BuildCdInfo(line, cwd, env);
    assert info.Some? ==> line[|info.value.cdPrefix|..] == info.value.typed;
    Respond(line, info, cwd, current)
  }

  /** `cd` with nothing or a non-space after it (`cd`, `cdfoo`) is offered nothing, replaces the whole line and keeps the stored cycle. */
  lemma {:induction false} CdWithoutGapIsNoOp(lead: string, rest: string, cwd: string, env: Env, current: Option<CycleState>)
    requires AllSpace(lead)
    requires rest == [] || !IsSpace(rest[0])
    ensures CompleteStep(lead + "cd" + rest, cwd, env, current) == StepResult(CompleterResult([], lead + "cd" + rest), current)
  {
    CdWithoutGapIsNoMatch(lead, rest);
  }

  /** A request with a key other than the stored one starts at the first of the fresh candidates. */
  lemma NewKeyRestarts(line: string, info: CdInfo, cwd: string, current: Option<CycleState>)
    requires |info.cdPrefix| <= |line|
    requires current.None? || current.value.key != KeyOf(info, cwd)
    requires info.siblings != []
    ensures Respond(line, Some(info), cwd, current) ==
      StepResult(CompleterResult([BuildSuggestion(info, info.siblings[0])], line[|info.cdPrefix|..]),
                 Some(CycleState(KeyOf(info, cwd), info.siblings, 0)))
  {
  }

  /** A request with a new key and no fresh candidates offers nothing and keeps the stored state. */
  lemma EmptyFreshListOffersNothing(line: string, info: CdInfo, cwd: string, current: Option<CycleState>)
    requires |info.cdPrefix| <= |line|
    requires current.None? || current.value.key != KeyOf(info, cwd)
    requires info.siblings == []
    ensures Respond(line, Some(info), cwd, current) == StepResult(CompleterResult([], line), current)
  {
  }

  /** The key tells apart different directories, prefixes and typed bases, as long as the directory names contain no `|`. */
  lemma {:induction false} CycleKeyInjective(c1: string, p1: string, u1: string, c2: string, p2: string, u2: string)
    requires '|' !in c1 && '|' !in c2 && '|' !in p1 && '|' !in p2
    requires CycleKey(c1, p1, u1) == CycleKey(c2, p2, u2)
    ensures c1 == c2 && p1 == p2 && u1 == u2
  {
    assert CycleKey(c1, p1, u1) == c1 + "|" + (p1 + "|" + u1);
    assert CycleKey(c2, p2, u2) == c2 + "|" + (p2 + "|" + u2);
    SplitAtBar(c1, p1 + "|" + u1, c2, p2 + "|" + u2);
    SplitAtBar(p1, u1, p2, u2);
  }

  lemma SplitAtBar(a: string, b: string, x: string, y: string)
    requires '|' !in a && '|' !in x
    requires a + "|" + b == x + "|" + y
    ensures a == x && b == y
  {
    var s := a + "|" + b;
    var t := x + "|" + y;
    assert s[|a|] == '|' && t[|x|] == '|';
    assert |a| == |x|;
    assert a == s[..|a|] == t[..|x|] == x;
    assert b == s[|a| + 1..] == t[|x| + 1..] == y;
  }

  /* ---------------------------------------------------------------- */
  /* The completer object                                             */
  /* ---------------------------------------------------------------- */

  /** `createCompleter`: the one mutable cycle slot and the two closures over it. */
  class Completer {
    var current: Option<CycleState>

    predicate Valid()
      reads this
    {
      ValidCycle(current)
    }

    /** `createCompleter`: nothing stored yet. */
    constructor()
      ensures Valid() && current == None
    {
      current := None;
    }

    /**
     * `completer(line)`, with `cwd` the directory the shell reports at the
     * moment of the request. The slot is written only when a suggestion is
     * made.
     */
    method Complete(line: string, cwd: string, env: Env) returns (suggestions: seq<string>, replaced: string)
      requires Valid()
      modifies this
      ensures Valid()
      ensures CompleterResult(suggestions, replaced) == CompleteStep(line, cwd, env, old(current)).out
      ensures current == CompleteStep(line, cwd, env, old(current)).next
      ensures suggestions == [] ==> current == old(current)
    {
      var info := BuildCdInfo(line, cwd, env);
      if info.None? {
        return [], line;
      }
      var key := KeyOf(info.value, cwd);
      var c := NextCycle(key, info.value.siblings, current);
      if |c.candidates| == 0 {
        return [], line;
      }
      var choice := c.candidates[c.idx];
      var suggestion := BuildSuggestion(info.value, choice);
      var partToReplace := line[|info.value.cdPrefix|..];
      current := Some(CycleState(key, c.candidates, c.idx));
      return [suggestion], partToReplace;
    }

    /** `resetState`: forgets the cycle; the read loop calls it for every submitted line. */
    method ResetState()
      modifies this
      ensures Valid() && current == None
    {
      current := None;
    }
  }

  /* ---------------------------------------------------------------- */
  /* Repeated requests                                                */
  /* ---------------------------------------------------------------- */

  /** A completion request as the completer sees it: the line and what `buildCdInfo` made of it. */
  datatype Request = Request(line: string, info: Option<CdInfo>)

  /** The dispatch prefix fits in the line (always so for what `BuildCdInfo` returns). */
  predicate WellFormed(q: Request) {
    q.info.Some? ==> |q.info.value.cdPrefix| <= |q.line|
  }

  predicate AllWellFormed(reqs: seq<Request>) {
    forall j :: 0 <= j < |reqs| ==> WellFormed(reqs[j])
  }

  /** The results of a run of requests, each starting from the state the previous one left. */
  function Session(current: Option<CycleState>, reqs: seq<Request>, cwd: string): (rs: seq<StepResult>)
    requires AllWellFormed(reqs)
    ensures |rs| == |reqs|
    ensures reqs != [] ==> rs[0] == Respond(reqs[0].line, reqs[0].info, cwd, current)
    decreases |reqs|
  {
    if reqs == [] then []
    else
      var s := Respond(reqs[0].line, reqs[0].info, cwd, current);
      assert AllWellFormed(reqs[1..]) by {
        forall j | 0 <= j < |reqs[1..]| ensures WellFormed(reqs[1..][j]) {
          assert reqs[1..][j] == reqs[j + 1];
        }
      }
      [s] + Session(s.next, reqs[1..], cwd)
  }

  /** Every request is a `cd` line with cycle key `key`. */
  predicate AllHaveKey(reqs: seq<Request>, cwd: string, key: string) {
    forall j :: 0 <= j < |reqs| ==> reqs[j].info.Some? && KeyOf(reqs[j].info.value, cwd) == key
  }

  /** What request `q` returns when it picks candidate `idx` of `candidates` under its own key. */
  function Offered(q: Request, cwd: string, candidates: seq<string>, idx: nat): StepResult
    requires q.info.Some? && WellFormed(q) && idx < |candidates|
  {
    var info := q.info.value;
    StepResult(CompleterResult([BuildSuggestion(info, candidates[idx])], q.line[|info.cdPrefix|..]),
               Some(CycleState(KeyOf(info, cwd), candidates, idx)))
  }

  /** A request with the stored key moves one place along the frozen list, wrapping round. */
  lemma SameKeyAdvances(q: Request, cwd: string, state: CycleState)
    requires |state.candidates| > 0 && state.idx < |state.candidates|
    requires WellFormed(q) && q.info.Some? && KeyOf(q.info.value, cwd) == state.key
    ensures Respond(q.line, q.info, cwd, Some(state)) == Offered(q, cwd, state.candidates, (state.idx + 1) % |state.candidates|)
  {
  }

  /** From a stored cycle, each further request with the same key moves one place on, wrapping round. */
  lemma {:induction false} ContinueCycle(state: CycleState, reqs: seq<Request>, cwd: string)
    requires |state.candidates| > 0 && state.idx < |state.candidates|
    requires AllWellFormed(reqs) && AllHaveKey(reqs, cwd, state.key)
    ensures forall j {:trigger Session(Some(state), reqs, cwd)[j]} :: 0 <= j < |reqs| ==>
      Session(Some(state), reqs, cwd)[j] == Offered(reqs[j], cwd, state.candidates, (state.idx + 1 + j) % |state.candidates|)
    decreases |reqs|
  {
    if reqs != [] {
      var n := |state.candidates|;
      var rs := Session(Some(state), reqs, cwd);
      SameKeyAdvances(reqs[0], cwd, state);
      var next := CycleState(state.key, state.candidates, (state.idx + 1) % n);
      var rest := reqs[1..];
      assert AllWellFormed(rest) && AllHaveKey(rest, cwd, state.key) by {
        forall j | 0 <= j < |rest| ensures rest[j] == reqs[j + 1] { }
      }
      ContinueCycle(next, rest, cwd);
      var tail := Session(Some(next), rest, cwd);
      assert rs == [rs[0]] + tail;
      forall j | 0 <= j < |reqs|
        ensures rs[j] == Offered(reqs[j], cwd, state.candidates, (state.idx + 1 + j) % n)
      {
        if j > 0 {
          assert rs[j] == tail[j - 1] && rest[j - 1] == reqs[j];
          ModAddAssoc(state.idx + 1, j - 1, n);
        }
      }
    }
  }

  /** `(a mod n + 1 + b) mod n` is `(a + 1 + b) mod n`. */
  lemma ModAddAssoc(a: nat, b: nat, n: nat)
    requires n > 0
    ensures (a % n + 1 + b) % n == (a + 1 + b) % n
  {
    var x := a % n + 1 + b;
    ModUnique(a + 1 + b, n, a / n + x / n, x % n);
  }

  /** Division with remainder has one answer. */
  lemma ModUnique(x: int, n: int, q: int, r: int)
    requires n > 0 && 0 <= r < n && x == q * n + r
    ensures x % n == r
  {
    var d := q - x / n;
    assert d * n == x % n - r;
    if d >= 1 {
      MulAtLeast(d, n);
    } else if d <= -1 {
      MulAtLeast(-d, n);
    }
  }

  lemma MulAtLeast(a: int, n: int)
    requires a >= 1 && n > 0
    ensures a * n >= n
  {
  }

  /**
   * Requests in a row with one key, starting from a different or no stored
   * key, go through the fresh candidates in sorted order and wrap round:
   * request j (from 0) suggests candidate j mod N and leaves that position
   * stored.
   */
  lemma {:induction false} CycleVisitsEveryCandidate(current: Option<CycleState>, reqs: seq<Request>, cwd: string)
    requires reqs != [] && AllWellFormed(reqs) && reqs[0].info.Some?
    requires AllHaveKey(reqs, cwd, KeyOf(reqs[0].info.value, cwd))
    requires current.None? || current.value.key != KeyOf(reqs[0].info.value, cwd)
    requires reqs[0].info.value.siblings != []
    ensures
      var sibs := reqs[0].info.value.siblings;
      forall j {:trigger Session(current, reqs, cwd)[j]} :: 0 <= j < |reqs| ==>
        Session(current, reqs, cwd)[j] == Offered(reqs[j], cwd, sibs, j % |sibs|)
  {
    var first := reqs[0].info.value;
    var sibs := first.siblings;
    var n := |sibs|;
    var key := KeyOf(first, cwd);
    var rs := Session(current, reqs, cwd);
    var start := CycleState(key, sibs, 0);
    assert rs[0] == Offered(reqs[0], cwd, sibs, 0) by {
      NewKeyRestarts(reqs[0].line, first, cwd, current);
    }
    var rest := reqs[1..];
    assert AllWellFormed(rest) && AllHaveKey(rest, cwd, key) by {
      forall j | 0 <= j < |rest| ensures rest[j] == reqs[j + 1] { }
    }
    var tail := Session(Some(start), rest, cwd);
    assert rs == [rs[0]] + tail;
    forall j | 0 <= j < |reqs|
      ensures rs[j] == Offered(reqs[j], cwd, sibs, j % n)
    {
      if j == 0 {
        assert 0 % n == 0;
      } else {
        ContinueCycle(start, rest, cwd);
        assert rs[j] == tail[j - 1] && rest[j - 1] == reqs[j];
        assert 0 + 1 + (j - 1) == j;
      }
    }
  }

  /**
   * With N fresh candidates, the first N requests suggest each candidate
   * once, in order, and request N+1 suggests the first one again.
   */
  lemma {:induction false} CycleWrapsAfterAll(current: Option<CycleState>, reqs: seq<Request>, cwd: string)
    requires reqs != [] && AllWellFormed(reqs) && reqs[0].info.Some?
    requires AllHaveKey(reqs, cwd, KeyOf(reqs[0].info.value, cwd))
    requires current.None? || current.value.key != KeyOf(reqs[0].info.value, cwd)
    requires |reqs| == |reqs[0].info.value.siblings| + 1
    ensures
      var sibs := reqs[0].info.value.siblings;
      var rs := Session(current, reqs, cwd);
      && (forall j :: 0 <= j < |sibs| ==> rs[j].out.suggestions == [BuildSuggestion(reqs[j].info.value, sibs[j])])
      && (|sibs| > 0 ==> rs[|sibs|].out.suggestions == [BuildSuggestion(reqs[|sibs|].info.value, sibs[0])])
  {
    var sibs := reqs[0].info.value.siblings;
    var n := |sibs|;
    if n > 0 {
      CycleVisitsEveryCandidate(current, reqs, cwd);
      forall j | 0 <= j < n ensures j % n == j {
        ModUnique(j, n, 0, j);
      }
      ModUnique(n, n, 1, 0);
    }
  }
}
