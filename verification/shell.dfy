/**
 * The shell state machine of src/lib/shell.ts: a current and a previous
 * working directory, the three built-ins (`cd`, `pwd` and the quit
 * literals) and delegation of everything else, and the `Shell` object that
 * replaces its state after every command.
 */
module Shell {
  import opened Strings
  import opened Environment

  /** The current working directory and the single previous-directory slot `cd -` returns to. */
  datatype ShellState = ShellState(cwd: string, prevCwd: string)

  /** What one command does: end the process, or print some text and move to a new state. */
  datatype Outcome = Quit | Done(output: string, newState: ShellState)

  /** What `Shell.RunCommand` hands back to the read loop. */
  datatype Reply = Exited | Printed(text: string)

  /** `createInitialState`: both slots start at the directory the process was started in. */
  function InitialState(processCwd: string): (s: ShellState)
    ensures s.cwd == processCwd && s.prevCwd == processCwd
  {
    ShellState(processCwd, processCwd)
  }

  /**
   * The path part of `formatPrompt`: a home directory that is a prefix of
   * `cwd` (a plain prefix, with no check that it ends at a separator) is
   * shown as `~`.
   */
  function DisplayPath(cwd: string, home: string): (shown: string)
    ensures home != "" && home <= cwd ==> shown != [] && shown[0] == '~' && home + shown[1..] == cwd
    ensures !(home != "" && home <= cwd) ==> shown == cwd
    ensures |shown| <= |cwd|
  {
    if home != "" && home <= cwd then
      assert home + cwd[|home|..] == cwd;
      "~" + cwd[|home|..]
    else cwd
  }

  /** The three literals that end the process. */
  predicate IsQuit(cmd: string) {
    cmd == ":q" || cmd == ":quit" || cmd == ":exit"
  }

  /**
   * `resolveTarget`: no argument means the home directory (or the current
   * directory when there is none), `-` means the previous directory, and
   * anything else is tilde-expanded and made absolute against `cwd`.
   */
  function ResolveTarget(arg: string, state: ShellState, env: Env): (target: string)
    ensures arg == "" && Home(env) != "" ==> target == Home(env)
    ensures arg == "" && Home(env) == "" ==> target == state.cwd
    ensures arg == "-" ==> target == state.prevCwd
    ensures arg != "" && arg != "-" && env.isAbsolute(ExpandTilde(arg, env)) ==> target == ExpandTilde(arg, env)
    ensures arg != "" && arg != "-" && !env.isAbsolute(ExpandTilde(arg, env)) ==> target == env.resolve(state.cwd, ExpandTilde(arg, env))
    ensures arg != "" && arg != "-" && arg[0] != '~' && env.isAbsolute(arg) ==> target == arg
  {
    if arg == "" then
      if Home(env) != "" then Home(env) else state.cwd
    else if arg == "-" then
      state.prevCwd
    else
      var expanded := ExpandTilde(arg, env);
      if env.isAbsolute(expanded) then expanded else env.resolve(state.cwd, expanded)
  }

  /** The message a `cd` to something that is not a directory prints. */
  function NoSuchDirectory(arg: string): string {
    "cd: no such directory: " + arg
  }

  /** The `cd` branch of `executeCommand` once the argument is known. */
  function ChangeDirectory(arg: string, state: ShellState, env: Env): (r: Outcome)
    ensures r.Done?
    ensures !env.isDir(ResolveTarget(arg, state, env)) ==> r == Done(NoSuchDirectory(arg), state)
    ensures env.isDir(ResolveTarget(arg, state, env)) ==> r == Done("", ShellState(ResolveTarget(arg, state, env), state.cwd))
  {
    var target := ResolveTarget(arg, state, env);
    if !env.isDir(target) then Done(NoSuchDirectory(arg), state)
    else Done("", ShellState(target, state.cwd))
  }

  /**
   * `executeCommand` on an already trimmed command, in the source's order:
   * empty, quit, anything starting with `cd`, exactly `pwd`, delegation.
   * Only a `cd` to an existing directory changes the state.
   */
  function ExecuteCommand(cmd: string, state: ShellState, env: Env): (r: Outcome)
    ensures r.Quit? <==> IsQuit(cmd)
    ensures cmd == "" ==> r == Done("", state)
    ensures cmd == "pwd" ==> r == Done(state.cwd, state)
    ensures r.Done? && r.newState != state ==>
      && "cd" <= cmd
      && env.isDir(r.newState.cwd)
      && r.newState.prevCwd == state.cwd
      && r.output == ""
  {
    if cmd == "" then Done("", state)
    else if IsQuit(cmd) then Quit
    else if "cd" <= cmd then ChangeDirectory(SecondToken(cmd), state, env)
    else if cmd == "pwd" then Done(state.cwd, state)
    else Done(env.run(cmd, state.cwd), state)
  }

  /** Whatever follows `cd`, a command starting with it takes the `cd` branch. */
  lemma CdBranch(cmd: string, state: ShellState, env: Env)
    requires "cd" <= cmd
    ensures ExecuteCommand(cmd, state, env) == ChangeDirectory(SecondToken(cmd), state, env)
  {
    assert cmd[0] == 'c';
  }

  /** A `cd` whose target is not a directory reports it, naming the typed argument, and changes nothing. */
  lemma FailedCdIsNoOp(cmd: string, state: ShellState, env: Env)
    requires "cd" <= cmd
    requires !env.isDir(ResolveTarget(SecondToken(cmd), state, env))
    ensures ExecuteCommand(cmd, state, env) == Done(NoSuchDirectory(SecondToken(cmd)), state)
  {
  }

  /** A `cd` to a directory makes it current and remembers the old current directory. */
  lemma SuccessfulCdSwaps(cmd: string, state: ShellState, env: Env)
    requires "cd" <= cmd
    requires env.isDir(ResolveTarget(SecondToken(cmd), state, env))
    ensures ExecuteCommand(cmd, state, env) == Done("", ShellState(ResolveTarget(SecondToken(cmd), state, env), state.cwd))
  {
  }

  /**
   * `cd` reads only the second whitespace-separated word: `cd <arg> <more>`
   * changes to `<arg>` whatever follows it.
   */
  lemma {:induction false} CdUsesSecondWordOnly(gap: string, arg: string, rest: string, state: ShellState, env: Env)
    requires gap != [] && AllSpace(gap) && NoSpace(arg)
    requires rest == [] || IsSpace(rest[0])
    requires arg == [] ==> rest == []
    ensures ExecuteCommand("cd" + gap + arg + rest, state, env) == ChangeDirectory(arg, state, env)
  {
    var cmd := "cd" + gap + arg + rest;
    assert NoSpace("cd");
    SecondTokenOf("cd", gap, arg, rest);
    assert cmd[..2] == "cd";
    CdBranch(cmd, state, env);
  }

  /** A command starting with `cd` with no whitespace in it (`cdfoo`) is a bare `cd`: it goes home. */
  lemma CdWithoutSpaceGoesHome(cmd: string, state: ShellState, env: Env)
    requires "cd" <= cmd && NoSpace(cmd)
    ensures ExecuteCommand(cmd, state, env) == ChangeDirectory("", state, env)
  {
    CdBranch(cmd, state, env);
  }

  /** Every command other than the built-ins is handed to the executor in the current directory, and the state stays. */
  lemma DelegationKeepsState(cmd: string, state: ShellState, env: Env)
    requires cmd != "" && !IsQuit(cmd) && !("cd" <= cmd) && cmd != "pwd"
    ensures ExecuteCommand(cmd, state, env) == Done(env.run(cmd, state.cwd), state)
  {
  }

  /** Both slots name directories (true at start when the process's directory exists). */
  predicate DirsExist(state: ShellState, env: Env) {
    env.isDir(state.cwd) && env.isDir(state.prevCwd)
  }

  /** While the filesystem stays as it is, every command keeps both slots naming directories. */
  lemma {:induction false} ExecutePreservesDirs(cmd: string, state: ShellState, env: Env)
    requires DirsExist(state, env)
    ensures ExecuteCommand(cmd, state, env).Done? ==> DirsExist(ExecuteCommand(cmd, state, env).newState, env)
  {
    var r := ExecuteCommand(cmd, state, env);
    if r.Done? && r.newState != state {
      assert env.isDir(r.newState.cwd) && r.newState.prevCwd == state.cwd;
    }
  }

  /** In a state whose slots are directories `cd -` always succeeds and swaps the two slots. */
  lemma CdDashSwaps(state: ShellState, env: Env)
    requires DirsExist(state, env)
    ensures ExecuteCommand("cd -", state, env) == Done("", ShellState(state.prevCwd, state.cwd))
  {
    SecondTokenOf("cd", " ", "-", []);
    assert "cd" + " " + "-" + [] == "cd -";
    CdBranch("cd -", state, env);
  }

  /**
   * A successful `cd X` followed by `cd -` comes back to where it started,
   * and a second `cd -` goes to the target of `cd X` again: a toggle, not a
   * history. This holds also when `cd X` lands where it started.
   */
  lemma {:induction false} CdThenDashToggles(x: string, state: ShellState, env: Env)
    requires env.isDir(state.cwd)
    requires env.isDir(ResolveTarget(SecondToken("cd " + x), state, env))
    ensures
      var s1 := ExecuteCommand("cd " + x, state, env).newState;
      var r2 := ExecuteCommand("cd -", s1, env);
      && r2 == Done("", ShellState(state.cwd, s1.cwd))
      && ExecuteCommand("cd -", r2.newState, env) == Done("", s1)
  {
    CdBranch("cd " + x, state, env);
    var s1 := ExecuteCommand("cd " + x, state, env).newState;
    assert env.isDir(s1.cwd) && s1.prevCwd == state.cwd;
    CdDashSwaps(s1, env);
    CdDashSwaps(ShellState(state.cwd, s1.cwd), env);
  }

  /** The object `index.ts` drives: it holds the state and swaps in the new one after each command. */
  class Shell {
    var state: ShellState

    /** `new Shell()`: starts in the process's working directory. */
    constructor(processCwd: string)
      ensures state == InitialState(processCwd)
    {
      state := InitialState(processCwd);
    }

    /** The current directory, which the completer reads. */
    function GetCurrentWorkingDir(): (cwd: string)
      reads this
      ensures cwd == state.cwd
    {
      state.cwd
    }

    /** The prompt, without its terminal colours: the display path, then ` via λ `. */
    function FormatPrompt(env: Env): (prompt: string)
      reads this
      ensures prompt == DisplayPath(state.cwd, Home(env)) + " via λ "
    {
      DisplayPath(state.cwd, Home(env)) + " via λ "
    }

    /** `runCommand`: trims the line, executes it and keeps the new state. */
    method RunCommand(text: string, env: Env) returns (reply: Reply)
      modifies this
      ensures ExecuteCommand(Trim(text), old(state), env).Quit? ==> reply == Exited && state == old(state)
      ensures ExecuteCommand(Trim(text), old(state), env).Done? ==>
        && reply == Printed(ExecuteCommand(Trim(text), old(state), env).output)
        && state == ExecuteCommand(Trim(text), old(state), env).newState
      ensures AllSpace(text) ==> reply == Printed("") && state == old(state)
      ensures state != old(state) ==> "cd" <= Trim(text) && env.isDir(state.cwd) && state.prevCwd == old(state).cwd
    {
      var cmd := Trim(text);
      var outcome := ExecuteCommand(cmd, state, env);
      match outcome {
        case Quit =>
          reply := Exited;
        case Done(output, newState) =>
          state := newState;
          reply := Printed(output);
      }
    }
  }
}
