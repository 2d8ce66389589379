/**
 * Two places where src/lib/completion.ts does not do what it evidently
 * means to do. Each is written here as the code has it, with the input that
 * shows the difference; the rest of the model uses the corrected
 * definitions (`Completion.BaseDirAbs`, `Completion.BuildSuggestion`), whose
 * intended properties are proved below and in `Completion`.
 */
module Findings {
  import opened Strings
  import opened Environment
  import opened Shell
  import opened Completion

  /** A POSIX-like environment: home `/home/u`, separator `/`, absolute paths start with `/`. */
  function DemoEnv(): Env {
    Env("/home/u", "", '/',
        p => p != [] && p[0] == '/',
        (a, b) => if b != [] && b[0] == '/' then b else a + "/" + b,
        (a, b) => if b != [] && b[0] == '/' then a + b else a + "/" + b,
        p => true,
        p => [],
        (c, d) => "")
  }

  /* ---------------------------------------------------------------- */
  /* 1. The base directory is tilde-expanded after it is resolved      */
  /* ---------------------------------------------------------------- */

  /**
   * completion.ts:65-71 as written: the base is made absolute first and the
   * result tilde-expanded, so a relative `~/…` base has already become
   * `<cwd>/~/…` when the expansion looks for a leading `~`.
   */
  function BaseDirAbsAsWritten(basePart: string, cwd: string, env: Env): (dir: string)
    ensures basePart == [] ==> dir == ExpandTilde(cwd, env)
    ensures basePart != [] && basePart[0] == '~' && !env.isAbsolute(basePart) &&
            (var r := env.resolve(cwd, basePart); r == [] || r[0] != '~') ==>
      dir == env.resolve(cwd, basePart)
  {
    ExpandTilde(if basePart != [] then (if env.isAbsolute(basePart) then basePart else env.resolve(cwd, basePart)) else cwd, env)
  }

  /**
   * `cd ~/` typed in `/w` lists `/w/~/` as written (Node's `path.resolve`
   * would also drop the trailing separator, giving `/w/~`; this example
   * resolve keeps it), where `cd ~/` itself goes to `/home/u/`.
   */
  lemma TildeBaseListsUnderCwd()
    ensures BaseDirAbsAsWritten("~/", "/w", DemoEnv()) == "/w/~/"
    ensures BaseDirAbs("~/", "/w", DemoEnv()) == "/home/u/"
    ensures ResolveTarget("~/", ShellState("/w", "/w"), DemoEnv()) == "/home/u/"
  {
    var env := DemoEnv();
    assert !env.isAbsolute("~/");
    assert env.resolve("/w", "~/") == "/w/~/";
    assert ExpandTilde("~/", env) == env.join("/home/u", "/");
  }

  /**
   * The corrected base directory is the directory `cd` would change to with
   * the typed base as its argument: completion lists the subdirectories of
   * the place `cd` goes to, whichever previous directory the shell holds.
   */
  lemma BaseDirIsCdTarget(typed: string, cwd: string, prevCwd: string, env: Env)
    requires SplitArgument(typed, env.sep).basePart != []
    ensures
      var b := SplitArgument(typed, env.sep).basePart;
      BaseDirAbs(b, cwd, env) == ResolveTarget(b, ShellState(cwd, prevCwd), env)
  {
    var b := SplitArgument(typed, env.sep).basePart;
    assert b[|b| - 1] == env.sep;
    assert b != "-";
  }

  /* ---------------------------------------------------------------- */
  /* 2. The suggestion tests the shown base, not the base              */
  /* ---------------------------------------------------------------- */

  /** completion.ts:111-113 as written: the shown base and a separator are put in front only when the shown base is non-empty. */
  function BuildSuggestionAsWritten(info: CdInfo, choice: string): (s: string)
    ensures info.baseShown == [] ==> s == choice
    ensures info.baseShown != [] ==> s == info.baseShown + [info.sepShown] + choice
  {
    (if info.baseShown != [] then info.baseShown + [info.sepShown] else []) + choice
  }

  /** The empty base is shown as the empty string, with or without `~`. */
  lemma EmptyBaseShownEmpty(sepShown: Glyph, line: string, env: Env)
    ensures BuildBaseShown([], sepShown, line, env) == []
  {
    assert ExpandTilde([], env) == [];
  }

  /**
   * Outside the `~` case the two versions differ exactly when the base (which
   * `SplitArgument` always ends with a separator) is a single separator, the
   * root: the shown base is then empty, and the code as written drops the
   * root from the suggestion.
   */
  lemma {:induction false} SuggestionDiffersOnlyAtRoot(info: CdInfo, line: string, env: Env, choice: string)
    requires info.basePart == [] || IsGlyph(info.basePart[|info.basePart| - 1])
    requires info.baseShown == BuildBaseShown(info.basePart, info.sepShown, line, env)
    requires !HasCdTilde(line)
    ensures BuildSuggestionAsWritten(info, choice) != BuildSuggestion(info, choice) <==> |info.basePart| == 1
    ensures |info.basePart| == 1 ==> BuildSuggestionAsWritten(info, choice) == choice
    ensures |info.basePart| == 1 ==> BuildSuggestion(info, choice) == [info.sepShown] + choice
  {
    var b := info.basePart;
    if b == [] {
      EmptyBaseShownEmpty(info.sepShown, line, env);
    } else {
      ShownBaseDropsOneGlyph(b, info.sepShown, line, env);
      if |b| == 1 {
        assert |BuildSuggestion(info, choice)| == |choice| + 1;
      }
    }
  }

  /** Outside the `~` case a base ending in a glyph is shown one character shorter. */
  lemma ShownBaseDropsOneGlyph(basePart: string, sepShown: Glyph, line: string, env: Env)
    requires basePart != [] && IsGlyph(basePart[|basePart| - 1]) && !HasCdTilde(line)
    ensures |BuildBaseShown(basePart, sepShown, line, env)| + 1 == |basePart|
  {
    var shown := BuildBaseShown(basePart, sepShown, line, env);
    assert |shown + [sepShown]| == |Unify(basePart, sepShown)|;
  }

  /** `cd /us`: the argument splits into the root base `/` and the name `us`. */
  lemma RootArgumentSplit()
    ensures SplitArgument("/us", '/') == ArgSplit("/", "us")
    ensures SepShown("/us") == '/'
  {
    var typed := "/us";
    var s := SplitArgument(typed, '/');
    var b := |s.basePart|;
    assert !NoGlyph(typed) by { assert IsGlyph(typed[0]); }
    assert IsGlyph(typed[b - 1]) by {
      assert s.basePart[b - 1] == Unify(typed[..b], '/')[b - 1];
      assert typed[..b][b - 1] == typed[b - 1];
    }
    assert b == 1;
    assert "/us"[..1] == "/" && "/us"[1..] == "us";
  }

  /** The line `cd /us` does not start its argument with `~`. */
  lemma RootLineHasNoTilde()
    ensures !HasCdTilde("cd /us")
  {
    SpaceRunFrom("cd /us", 0, 0);
    SpaceRunFrom("cd /us", 2, 3);
  }

  /**
   * On `cd /us` in a directory holding `usr`, the code as written suggests
   * `usr`, which readline puts in place of `/us`, leaving the relative `cd usr`;
   * the corrected suggestion is `/usr`.
   */
  lemma RootSuggestionLosesSlash(info: CdInfo, env: Env)
    requires info.typed == "/us" && env.sep == '/' && info.sepShown == SepShown(info.typed)
    requires ArgSplit(info.basePart, info.namePart) == SplitArgument(info.typed, env.sep)
    requires info.baseShown == BuildBaseShown(info.basePart, info.sepShown, "cd /us", env)
    ensures BuildSuggestionAsWritten(info, "usr") == "usr"
    ensures BuildSuggestion(info, "usr") == "/usr"
  {
    RootArgumentSplit();
    RootLineHasNoTilde();
    ShownBaseDropsOneGlyph("/", '/', "cd /us", env);
    assert info.baseShown == [];
    assert BuildSuggestion(info, "usr") == "/" + "usr";
  }
}
