# bunshell: `cd` completion and the shell state machine, in Dafny

This project models the two coupled parts of bunshell, a small interactive
shell written for Bun in TypeScript.

- **The `cd` tab-completion engine** (`src/lib/completion.ts`):
  - It parses a partly typed `cd` line with `^(\s*cd\s+)(.*)$`.
  - It detects the separator glyph the user typed.
  - It splits the argument at its last separator into a base and a name.
  - It lists the base directory's subdirectories, keeps those that start with the name (ignoring case), and sorts them.
  - It re-renders the base the way the user typed it.
  - It cycles through the candidates on repeated Tab presses with the same key `cwd|cdPrefix|typedUntilLastSepShown`.
  - The cycle memory is the one mutable slot of `createCompleter`. It is modelled as the class `Completion.Completer`, whose field `current` is written by `Complete` and cleared by `ResetState`.
- **The shell state machine** (`src/lib/shell.ts`):
  - A state holds a current and a previous working directory.
  - `resolveTarget` interprets the `cd` argument: empty means home, `-` means the previous directory, `~` is expanded, and relative paths are resolved.
  - `executeCommand` dispatches in order: empty command, quit literals, anything starting with `cd`, exact `pwd`, then delegation.
  - The class `Shell.Shell` holds the state; `RunCommand` replaces it after every command.

Files:

| file | contents |
|---|---|
| `strings.dfy` | The JavaScript string primitives: `\s`, `trim`, line terminators, separator glyphs, `replace(/[\\/]/g, sep)`, `lastIndexOf`, ASCII `toLowerCase`, `split(/\s+/, 2)`. |
| `sorting.dfy` | The order candidates are sorted by, and sorting specified by insertion sort. |
| `environment.dfy` | The outside world as a value: home variables, `path` functions, `isDir`, `listDirs`, the delegated executor, and `expandTilde`. |
| `shell.dfy` | `ShellState`, `resolveTarget`, `executeCommand`, and the `Shell` class. |
| `completion.dfy` | `buildCdInfo` and its steps, `buildBaseShown`, `getNextCycleState`, `buildSuggestion`, the completer body, the `Completer` class, and the cycling theorems. |
| `findings.dfy` | Two defects of `completion.ts` as written, with the inputs that show them. |

Things to know about the modelled behaviour:

- A trimmed command that starts with `cd` always takes the `cd` branch, `cdfoo` included. `cdfoo` has no whitespace, so its argument is empty and it goes home (`Shell.CdWithoutSpaceGoesHome`).
- The separator shown is `\` whenever the argument contains a backslash anywhere, and `/` otherwise, also when neither glyph is typed.
- `buildBaseShown` strips one trailing separator, not all of them. A base typed as `a//` is shown as `a/`.
- When both glyphs are typed, the key's last part runs only up to the last glyph of the shown kind. It can then be shorter than the base (`Completion.KeyBaseIsTypedBase` covers the one-glyph case).
- The cycle key identifies the directory, prefix and typed base only while the directory has no `|` in it (`Completion.CycleKeyInjective`).

## Model

| member | source | states |
|---|---|---|
| Strings.Unify | src/lib/completion.ts:58 | Every glyph becomes the given separator; every other character and the length stay. |
| Strings.StripTrailingGlyph | src/lib/completion.ts:29 | Exactly one trailing glyph is removed if there is one; otherwise the text is unchanged. |
| Strings.LastIndexOf | src/lib/completion.ts:59 | -1 exactly when the character is absent; otherwise an index holding it, with no occurrence after it. |
| Strings.Trim | src/lib/shell.ts:91 | The result is a slice of the input with only whitespace cut on both sides; it neither starts nor ends with whitespace; it is empty exactly when the input is all whitespace. |
| Strings.SecondToken | src/lib/shell.ts:50-51 | The token has no whitespace, and it is empty when the command has no whitespace. |
| Strings.SecondTokenOf | src/lib/shell.ts:50-51 | For a word, a whitespace run, a token and a whitespace-led rest, the second token is exactly that token. |
| Strings.LowerChar | src/lib/completion.ts:74 | `A`-`Z` map to `a`-`z`; every other character is unchanged. |
| Strings.Lower | src/lib/completion.ts:74 | Lowercases character by character and keeps the length. |
| Sorting.LexLeTotal | src/lib/completion.ts:75 | Any two names are comparable. |
| Sorting.LexLeAntisymmetric | src/lib/completion.ts:75 | Names that each come no later than the other are equal. |
| Sorting.LexLeTransitive | src/lib/completion.ts:75 | The order is transitive. |
| Sorting.Insert | src/lib/completion.ts:75 | Inserting into a sorted list keeps it sorted and adds exactly the new element. |
| Sorting.SortStrings | src/lib/completion.ts:75 | The result is sorted and is a permutation of the input. |
| Sorting.SortedUnique | src/lib/completion.ts:75 | Two sorted permutations of the same names are equal, so the sorted candidate list is determined. |
| Environment.Home | src/lib/shell.ts:17 | HOME if set and non-empty, else USERPROFILE. |
| Environment.ExpandTilde | src/lib/utils.ts:4-7 | A path without a leading `~` is unchanged; otherwise the home directory is joined with the rest. |
| Shell.InitialState | src/lib/shell.ts:11-14 | Both slots start at the process's directory. |
| Shell.DisplayPath | src/lib/shell.ts:16-19 | When home is non-empty and a plain prefix of cwd, the result is `~` followed by the rest of cwd; otherwise it is cwd. |
| Shell.ResolveTarget | src/lib/shell.ts:27-40 | Empty gives home, or cwd when there is no home; `-` gives the previous directory; otherwise the tilde-expanded argument, resolved against cwd unless absolute. |
| Shell.ChangeDirectory | src/lib/shell.ts:52-64 | A target that is not a directory gives the error line naming the argument and the same state; otherwise the state becomes (target, old cwd). |
| Shell.ExecuteCommand | src/lib/shell.ts:42-73 | Quit exactly on the three literals; empty is a no-op; `pwd` prints cwd; the state changes only through a successful `cd`, which records the old cwd as previous. |
| Shell.CdBranch | src/lib/shell.ts:49-52 | Every command starting with `cd` takes the `cd` branch with its second token. |
| Shell.FailedCdIsNoOp | src/lib/shell.ts:54-56 | A `cd` to a non-directory prints the error and leaves the state unchanged. |
| Shell.SuccessfulCdSwaps | src/lib/shell.ts:58-64 | A `cd` to a directory makes it current and stores the old cwd as previous. |
| Shell.CdUsesSecondWordOnly | src/lib/shell.ts:49-52 | `cd <arg> <more…>` behaves as `cd <arg>`: further tokens are dropped. |
| Shell.CdWithoutSpaceGoesHome | src/lib/shell.ts:49-52 | A command starting with `cd` with no whitespace in it behaves as a bare `cd`. |
| Shell.DelegationKeepsState | src/lib/shell.ts:71-72 | Any other command prints the executor's output for cwd and keeps the state. |
| Shell.ExecutePreservesDirs | src/lib/shell.ts:42-73 | If both slots name directories before a command, they still do after it. |
| Shell.CdDashSwaps | src/lib/shell.ts:27-64 | When both slots are directories, `cd -` succeeds and swaps them. |
| Shell.CdThenDashToggles | src/lib/shell.ts:27-64 | A successful `cd X` then `cd -` returns to the start, and another `cd -` goes back to X's target. |
| Shell.Shell.constructor | src/lib/shell.ts:78-80 | The shell starts in the initial state. |
| Shell.Shell.GetCurrentWorkingDir | src/lib/shell.ts:82-84 | Returns the current directory of the state. |
| Shell.Shell.FormatPrompt | src/lib/shell.ts:86-88 | The prompt is the display path followed by ` via λ `. |
| Shell.Shell.RunCommand | src/lib/shell.ts:90-95 | Quit leaves the state; otherwise it prints the output and takes the new state. Whitespace-only input prints nothing and changes nothing. The state changes only through a `cd` to a directory. |
| Completion.ParseCdLine | src/lib/completion.ts:50 | A match splits the line into whitespace, `cd`, non-empty whitespace and an argument with no line terminator that does not start with whitespace. |
| Completion.ParseCdLineComplete | src/lib/completion.ts:50 | Every line of that shape is matched, with the same leading whitespace and the same gap plus argument. |
| Completion.CdWithoutGapIsNoMatch | src/lib/completion.ts:50-51 | `cd` followed by nothing or by a non-space (`cd`, `cdfoo`) does not match. |
| Completion.CdWithoutGapIsNoOp | src/lib/completion.ts:124-126 | Such a line gets no suggestion, replaces the whole line, and keeps the stored cycle. |
| Completion.CdTildeIsTypedTilde | src/lib/completion.ts:31 | On a matched line, the `~` test holds exactly when the argument starts with `~`. |
| Completion.SepShown | src/lib/completion.ts:55-56 | `\` exactly when the argument contains a backslash, `/` otherwise. |
| Completion.SplitArgument | src/lib/completion.ts:58-62 | The base is the argument up to and including its last glyph, unified; the name is the untouched rest and holds no glyph; the base is empty exactly when there is no glyph. |
| Completion.SplitReassembles | src/lib/completion.ts:58-62 | Base followed by name is exactly the unified argument. |
| Completion.TypedUntilLastSepShown | src/lib/completion.ts:79-82 | A prefix of the argument ending with the shown glyph, with no shown glyph after it; empty when there is no base. |
| Completion.KeyBaseIsTypedBase | src/lib/completion.ts:79-82 | With one kind of glyph typed, it is exactly the typed base, and unifying it gives the split base. |
| Completion.FilterByPrefix | src/lib/completion.ts:74 | Keeps exactly the listed names that start with the name ignoring case, each as often as listed. |
| Completion.Siblings | src/lib/completion.ts:73-75 | Sorted, all matching, the same counts as the matching listed names, and containing a name exactly when it is listed and matches. |
| Completion.BaseDirAbs | src/lib/completion.ts:65-71 | cwd for an empty base; otherwise the tilde-expanded base, resolved against cwd unless absolute (corrected order, see Findings). |
| Completion.BuildBaseShown | src/lib/completion.ts:22-47 | Only the shown glyph appears. Outside the `~` case it is the unified base with its one trailing glyph removed. A `~` rendering starts with `~`. |
| Completion.TildeBaseShownAsTyped | src/lib/completion.ts:31-44 | A `~`-led base is shown as typed: `~`, the rest in the typed glyph, one trailing separator removed; this holds with a home directory (rebuilt from the expansion) and without one (HOME and USERPROFILE unset). |
| Completion.PrefixHasNoBar | src/lib/completion.ts:50-53 | The dispatch prefix holds no `|`. |
| Completion.BuildCdInfo | src/lib/completion.ts:49-94 | Nothing exactly when the line does not match. Otherwise: prefix plus argument is the line, and each field is its defining step (glyph, split, ends-with-separator flag, siblings of the base directory, shown base, key part). |
| Completion.NextCycle | src/lib/completion.ts:96-109 | Same key: the frozen list, with the index one further modulo its length. Other key: the fresh siblings at 0. The index is always in range of a non-empty list. |
| Completion.BuildSuggestion | src/lib/completion.ts:111-113 | Just the choice when there is no base; otherwise the shown base, the glyph and the choice (corrected test, see Findings). |
| Completion.SuggestionKeepsTypedBase | src/lib/completion.ts:111-113 | Outside the `~` case the suggestion is the base in the typed glyph plus the choice; with one kind of glyph typed, that is the typed base itself. |
| Completion.Respond | src/lib/completion.ts:124-146 | At most one suggestion. Without one, the state is untouched and the whole line is replaced. With one, it is the stored candidate at the stored in-range index under the line's key, and the text after the prefix is replaced. The cycle invariant is kept. |
| Completion.CompleteStep | src/lib/completion.ts:124-146 | A non-`cd` line is a no-op; the replaced text is exactly the typed argument; the cycle invariant is kept. |
| Completion.NewKeyRestarts | src/lib/completion.ts:131-145 | A new key with candidates suggests the first fresh candidate and stores index 0 with the fresh list. |
| Completion.EmptyFreshListOffersNothing | src/lib/completion.ts:137 | A new key with no candidates offers nothing and leaves the stored state as it was. |
| Completion.CycleKeyInjective | src/lib/completion.ts:128-130 | Equal keys mean equal directory, prefix and typed base, when neither the directory nor the prefix holds `|`. |
| Completion.Completer.constructor | src/lib/completion.ts:122 | The slot starts empty. |
| Completion.Completer.Complete | src/lib/completion.ts:124-146 | Returns and stores what `CompleteStep` gives, keeps the cycle invariant, and writes nothing when it suggests nothing. |
| Completion.Completer.ResetState | src/lib/completion.ts:148-150 | The slot is emptied. |
| Completion.SameKeyAdvances | src/lib/completion.ts:101-105 | A request with the stored key suggests the next frozen candidate, wrapping round. |
| Completion.ContinueCycle | src/lib/completion.ts:101-105 | The j-th further request with the same key suggests candidate (idx + 1 + j) mod N. |
| Completion.CycleVisitsEveryCandidate | src/lib/completion.ts:96-146 | Requests with one new key suggest candidate j mod N at request j. |
| Completion.CycleWrapsAfterAll | src/lib/completion.ts:104 | N requests suggest each of the N candidates once, in order, and request N+1 suggests the first again. |
| Findings.BaseDirAbsAsWritten | src/lib/completion.ts:65-71 | As written: a relative `~` base whose resolved form does not start with `~` is never expanded. |
| Findings.TildeBaseListsUnderCwd | src/lib/completion.ts:65-71 | For `~/` in `/w` with home `/home/u`, the code lists `/w/~/` under an example `resolve` that keeps the trailing separator (Node's gives `/w/~`); the corrected version and `cd` both give `/home/u/`. |
| Findings.BaseDirIsCdTarget | src/lib/completion.ts:65-71 | The corrected base directory is the directory `cd` would change to with the typed base as its argument. |
| Findings.BuildSuggestionAsWritten | src/lib/completion.ts:111-113 | As written: the shown base and glyph are prepended only when the shown base is non-empty. |
| Findings.EmptyBaseShownEmpty | src/lib/completion.ts:22-47 | An empty base is shown as the empty string. |
| Findings.ShownBaseDropsOneGlyph | src/lib/completion.ts:27-32 | Outside the `~` case, a base ending in a glyph is shown one character shorter. |
| Findings.SuggestionDiffersOnlyAtRoot | src/lib/completion.ts:111-113 | Outside the `~` case, the written and corrected suggestions differ exactly when the base is a single separator; the code then drops it. |
| Findings.RootArgumentSplit | src/lib/completion.ts:55-62 | `/us` splits into base `/` and name `us`, shown with `/`. |
| Findings.RootLineHasNoTilde | src/lib/completion.ts:31 | `cd /us` fails the `~` test. |
| Findings.RootSuggestionLosesSlash | src/lib/completion.ts:111-113 | On `cd /us`, the code suggests `usr` where `/usr` is intended. |

## Left out

- Reading lines, readline's completer protocol, prompt re-display and writing output (`src/index.ts`) are I/O. The read loop's call of `ResetState` before each command is the `Completer.ResetState` method; the loop itself is not modelled.
- `process.exit` on the quit literals is the `Quit` outcome (`Exited` from `RunCommand`), not process termination.
- The delegated Bun `$` execution is the `run` field of `Env`: a function from command and directory to output. Its errors and its async behaviour are not modelled, and neither is the `$.cwd` binding after a successful `cd`.
- `path.resolve`, `path.isAbsolute`, `path.join`, `path.sep`, the two environment variables, `isDir` and `listDirs` are fields of the `Env` parameter. Their own behaviour (normalisation, drive letters) is not modelled.
- `styleText` colouring of the prompt is cosmetic and is dropped; `FormatPrompt` returns the uncoloured text.
- Sorting.SortStrings: `localeCompare` is modelled as plain lexicographic order on characters, because the locale's collation is host-dependent.
- Strings.Lower: `toLowerCase` is modelled for ASCII letters only; other Unicode case mappings are not modelled.
- Completion.Completer.Complete: `getCurrentWorkingDir` is called twice in the source; the model reads it once, as a `cwd` parameter, which is the same value in the single-threaded program.
- `Completion.CdInfo` carries the split base (`basePart`) in addition to the source's fields, so that the corrected suggestion can test it.
- The cycling theorems (`ContinueCycle`, `CycleVisitsEveryCandidate`, `CycleWrapsAfterAll`) are stated over `Request` values, each a line plus any parse of it with a fitting prefix; `BuildCdInfo` gives one such parse. This makes them hold for any parse, not only for the one `buildCdInfo` computes.
- `build.ts` is a build script with no logic to model.
- Completion.BuildCdInfo, Completion.Respond, Completion.CompleteStep, Completion.Completer.Complete: these use the corrected definitions of the two Findings (`BaseDirAbs`, `BuildSuggestion`), so they differ from the source on a `~`-led base (the source lists under `<cwd>/~`, the model under home) and on a single-separator base (the source suggests `usr` for `cd /us`, the model `/usr`). The source's behaviour is `Findings.BaseDirAbsAsWritten` and `Findings.BuildSuggestionAsWritten`.
- Completion.TildeBaseShownAsTyped: when a home directory is set, assumes `path.join` of the home and the rest is plain concatenation; Node's normalisation (collapsed or trailing separators) is not modelled.

## Findings

| source | as written | input that shows it | evidently intended | confidence | as-written member | corrected member |
|---|---|---|---|---|---|---|
| src/lib/completion.ts:65-71 | The base is resolved against cwd first, and `expandTilde` is applied afterwards, when the path no longer starts with `~`. | `cd ~/` typed in `/w` with HOME `/home/u`: the subdirectories of `/w/~` are listed (`/w/~/` under a `resolve` that keeps trailing separators). | Expand `~` first, then resolve, as `resolveTarget` does for `cd` (`/home/u/`). | not executed | Findings.BaseDirAbsAsWritten, Findings.TildeBaseListsUnderCwd | Completion.BaseDirAbs, Findings.BaseDirIsCdTarget |
| src/lib/completion.ts:111-113 | The separator is prepended only when the shown base is non-empty. The root base `/` is shown as the empty string. | `cd /us` in a filesystem with `/usr`: the suggestion is `usr`, which replaces `/us` and turns the line into the relative `cd usr`. | Prepend the shown base and separator whenever a base was typed, giving `/usr`. | not executed | Findings.BuildSuggestionAsWritten, Findings.RootSuggestionLosesSlash | Completion.BuildSuggestion, Findings.SuggestionDiffersOnlyAtRoot |
