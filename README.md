# git-byLines, modelled in Dafny

`byLines.py` adds byline trailers (`Authored-by: …` / `Co-authored-by: …`) to
the most recent local commit. It runs as a git commit hook or directly. It
keeps two JSON configuration records:

- a per-clone one under `.git/`, holding the enabled flag and the bylines used
  in the last amend;
- a shared one in the repository, holding every known byline.

The model covers the parts of the script that decide something. The
selection happens in a terminal loop, where each input line does one of:

- toggle a numbered byline;
- add a new byline;
- quit (`q`);
- disable the tool (`x`);
- finish (`a`).

After `a`, new bylines are merged into the shared list. The commit is then
amended, after the user confirms it, with a message built from the old one.

## Modules

- `wrappers.dfy` (`Wrappers`) holds `Option`.
- `py_str.dfy` (`PyStr`) models the CPython string operations the script
  uses:
  - `find` (its contract stated through substring containment) and
    `startswith`;
  - `strip`;
  - `lower`, for ASCII only;
  - `isdigit` and `int`, for ASCII digits;
  - `str` of a natural number.
- `py_list.dfy` (`PyList`) models Python list indexing (negative indices
  included), `remove` and `sorted` on strings. It proves that a list has only
  one sorted arrangement, so `Sort` is `sorted` whatever the algorithm.
- `commit_message.dfy` (`CommitMessage`) models `getNewLineCharacter` and
  `createAmmendedCommitMessage`. The message git reports and `os.linesep` are
  parameters. There is a specification function, and a method with the
  source's loop proved against it.
- `config.dfy` (`Config`) models the two configuration classes with their
  defaults. It also has the `Event` values that record what the script does
  outside itself: a save of either configuration, and the git amend.
- `selection.dfy` (`Selection`) models:
  - command parsing;
  - the loop as a function over the parsed commands;
  - the initial selection taken from the last-used bylines;
  - the merge into the shared list.
- `workflow.dfy` (`Workflow`) models:
  - `addByLineToCommit`;
  - `triggerByLineWorkFlow`, as the function `Workflow` and as a method on
    the two configuration objects;
  - the enabled gate of `main`;
  - the argument dispatch at the bottom of the script.

Typed lines, the confirmation answer, the commit message and `os.linesep`
are inputs.

## Behaviour of the code as written

These are properties of the code. The model keeps them and states each one
as a lemma.

- The newline detection tests the truthiness of `find` results. Index 0 is
  false and -1 ("absent") is true. The effects:
  - a message that starts with CRLF gets LF;
  - every other message gets CRLF, including one that uses only LF or has no
    newline at all;
  - the `os.linesep` branch cannot be reached.
- The author test asks `find('authored-by: ') > 1`. A marker at index 0 or 1
  is not counted, even when another occurrence follows it.
- A trailer is skipped when the message already contains the byline text
  anywhere, not only when the trailer line itself is there.
- Typing `0` selects the last listed byline, because Python reads index -1.
- A number past the end is ignored.
- "Selecting twice" is a remove-first/append pair:
  - a byline selected once stays selected, and moves to the end;
  - a byline selected twice is dropped.
- A free-text entry that is already known is added again, to both lists.
- The known bylines form a list, not a set.

## Model

| member | source | states |
|---|---|---|
| `PyStr.Find` | byLines.py:164 | `find` is -1 exactly when the text does not contain the needle; otherwise it is the first index where the needle occurs |
| `PyStr.Lower` | byLines.py:86 | `lower()` keeps the length, leaves no ASCII capital, maps each ASCII capital to its small letter and keeps every other character (the non-ASCII gap is on the `PyStr.Lower` line under Left out) |
| `PyStr.Strip` | byLines.py:83 | the result has no whitespace at either end and is the slice of the input between its leading and trailing whitespace |
| `PyStr.StripUnspaced` | byLines.py:95 | stripping text with no whitespace at its ends changes nothing, so the second `strip()` on a number is a no-op |
| `PyStr.DecimalRoundTrip` | byLines.py:94-97 | `int(str(n)) == n` for every natural number |
| `PyStr.Decimal` | byLines.py:75-77 | the number printed in the menu is a string of digits, so it passes `isdigit()` |
| `PyStr.ContainsAppend` | byLines.py:165 | text the message contains is still contained after more is appended |
| `PyList.PyIndex` | byLines.py:97 | indexing succeeds exactly for indices from minus the length up to the length minus one; non-negative indices count from the front, negative ones from the end; any other index is the `IndexError` case |
| `PyList.IndexOf` | byLines.py:99 | `remove` finds the first position holding the byline |
| `PyList.RemoveFirst` | byLines.py:99 | `remove` deletes the first occurrence of the byline and keeps every other element in its order; the list is one shorter and loses exactly one copy |
| `PyList.LessEq` | byLines.py:65 | Python's `<=` on strings, by code point with a prefix first; `LessEqReflexive`, `LessEqTotal`, `LessEqAntisymmetric` and `LessEqTransitive` make it a total order |
| `PyList.LessEqReflexive` | byLines.py:65 | string order is reflexive |
| `PyList.LessEqTotal` | byLines.py:65 | string order is total |
| `PyList.LessEqAntisymmetric` | byLines.py:65 | string order is antisymmetric |
| `PyList.LessEqTransitive` | byLines.py:65 | string order is transitive |
| `PyList.Sort` | byLines.py:106 | `sorted` returns a sorted permutation of its input |
| `PyList.SortedUnique` | byLines.py:106 | two sorted lists with the same elements are equal, so the sorted result does not depend on the algorithm |
| `PyList.SortSorted` | byLines.py:65 | sorting an already sorted list changes nothing |
| `CommitMessage.NewLineCharacter` | byLines.py:186-196 | the newline is LF exactly when the message starts with CRLF and CRLF otherwise; `os.linesep` is never chosen |
| `CommitMessage.LineFeedAfterLeadingCrLf` | byLines.py:189-191 | when CRLF is found at index 0, LF is found at index 1, which is why the third branch is dead |
| `CommitMessage.BylinePrefix` | byLines.py:155-159 | `Co-authored-by: ` exactly when more than one byline is added or the lowered message contains `authored-by: ` with its first occurrence past index 1; `Authored-by: ` otherwise |
| `CommitMessage.AmendedMessage` | byLines.py:148-167 | the specification of the whole function; its meaning is given by `AmendedMessageShape`, `AmendedMessageContainsAll` and `SingleBylineIsAuthored` |
| `CommitMessage.AppendTrailers` | byLines.py:161-165 | the trailer loop as a fold; its meaning is given by `AppendTrailersShape`, `AppendTrailersContainsAll`, `AppendTrailersAllPresent`, `AppendTrailersSplit` and `AppendTrailersRepeat` |
| `CommitMessage.CreateAmendedCommitMessage` | byLines.py:148-167 | the loop computes the amended message of the specification function |
| `CommitMessage.AppendTrailersShape` | byLines.py:161-165 | the trailer loop only appends: the result is the message plus one trailer line for each of some distinct bylines the message lacked |
| `CommitMessage.AppendTrailersContainsAll` | byLines.py:162-165 | after the loop, the message contains every byline in the list |
| `CommitMessage.AppendTrailersAllPresent` | byLines.py:164 | a message that already contains every byline comes back unchanged |
| `CommitMessage.AppendTrailersSplit` | byLines.py:162 | the loop over a concatenation is the loop over each part in turn |
| `CommitMessage.AppendTrailersRepeat` | byLines.py:162-165 | a byline listed again adds no second trailer |
| `CommitMessage.AmendedMessageShape` | byLines.py:150-167 | the amended message is the original message, the newline, and trailer lines for distinct bylines the message did not contain; the original text is kept intact |
| `CommitMessage.AmendedMessageContainsAll` | byLines.py:150-167 | every byline asked for is in the amended message |
| `CommitMessage.SingleBylineIsAuthored` | byLines.py:153-165 | one new byline on a message without an author marker past index 1 gives a blank line and one `Authored-by: ` trailer |
| `Config.LocalRepoConfig.constructor` | byLines.py:199-203 | a fresh local configuration is enabled, has no last bylines and points at the project URL |
| `Config.RepoConfig.constructor` | byLines.py:215-218 | a fresh repository configuration has no bylines and points at the project URL |
| `Selection.ParseCommand` | byLines.py:83-107 | the command table: a blank stripped line is skipped; `x`/`:x`, `q`/`:q`, `a`/`:a` in either case (and only those) disable, quit and finish; any other digit string selects its value; every other line is added as a new byline, stripped |
| `Selection.ShownNumberSelects` | byLines.py:72-97 | typing back a number shown in the menu selects that number |
| `Selection.Toggle` | byLines.py:98-101 | remove-first if selected, append otherwise; its effect is given by `ToggleCounts`, `ToggleTwiceUnselected` and `ToggleTwiceSelected` |
| `Selection.Apply` | byLines.py:94-107 | one non-final round; its effect is given by `SelectShown`, `ZeroSelectsLast`, `SelectOutOfRange`, `AddAcceptsDuplicates` and `ApplyConsistent` |
| `Selection.RunLoop` | byLines.py:66-110 | the loop over the parsed lines, ending at the first `x`, `q` or `a`; its invariant and final list are given by `RunLoopConsistent` and `RunLoopBylines` |
| `Selection.TypedBylines` | byLines.py:104-107 | the new bylines typed before the loop ends, in input order; `RunLoopBylines` ties them to the final known list |
| `Selection.ToggleCounts` | byLines.py:98-101 | selecting a listed byline changes its count in the selection by exactly one and leaves every other byline's membership as it was |
| `Selection.ToggleTwiceUnselected` | byLines.py:98-101 | selecting an unselected byline twice restores the selection |
| `Selection.ToggleTwiceSelected` | byLines.py:98-101 | a byline selected once is still selected after two selections, moved to the end of the list with the rest in order; one selected twice is gone after two |
| `Selection.SelectShown` | byLines.py:94-101 | number `k` from 1 to the list length toggles the `k`-th known byline |
| `Selection.ZeroSelectsLast` | byLines.py:97 | `0` toggles the last known byline |
| `Selection.SelectOutOfRange` | byLines.py:96-103 | a number past the list, or any number when there are no bylines, changes nothing |
| `Selection.AddAcceptsDuplicates` | byLines.py:104-107 | free text is appended to the selection and sorted into the known bylines; an existing entry then occurs once more |
| `Selection.ApplyConsistent` | byLines.py:94-107 | each round keeps every selected byline among the known ones and keeps the known ones sorted |
| `Selection.RunLoopConsistent` | byLines.py:66-110 | the whole loop keeps that invariant |
| `Selection.SortTwice` | byLines.py:105-106 | re-sorting after appending equals sorting everything once |
| `Selection.RunLoopBylines` | byLines.py:104-107 | at the end of the loop, the known bylines are the sorted start list plus every typed byline |
| `Selection.InitialSelection` | byLines.py:58-61 | the filter of the last-used bylines by the known ones; described by `InitialSelectionCounts`, `InitialSelectionConcat` and `InitialSelectionAllKnown` |
| `Selection.InitialSelectionCounts` | byLines.py:58-61 | the initial selection holds each last-used byline that is still known, as often as it was listed, and nothing else |
| `Selection.InitialSelectionConcat` | byLines.py:59-61 | the initial selection keeps the order of the last-used list |
| `Selection.InitialSelectionAllKnown` | byLines.py:58-61 | last-used bylines that are all known are reselected in full, in order |
| `Selection.MergeByLines` | byLines.py:113-115 | the append-if-absent loop as a fold; described by `MergeKeepsKnown`, `MergeMembers`, `MergeAppendsOnce` and `MergeAppendsSorted` |
| `Selection.MergeKeepsKnown` | byLines.py:113-115 | the repository list keeps all its entries, in order, at its front |
| `Selection.MergeMembers` | byLines.py:113-115 | after the merge the list holds exactly the old entries and the loop's bylines |
| `Selection.MergeAppendsOnce` | byLines.py:113-115 | no appended entry occurs anywhere else in the list |
| `Selection.MergeAppendsSorted` | byLines.py:113-115 | merging sorted bylines appends the new ones in sorted order |
| `Selection.MergeTypedBylines` | byLines.py:104-115 | merging the sorted old-plus-typed list keeps the old list as a prefix, adds exactly the typed bylines, each once and in sorted order |
| `Workflow.Declines` | byLines.py:139 | the answer declines when lower-cased it starts with `n`; `AmendDecision` states it as a test on the first character |
| `Workflow.AmendDecision` | byLines.py:124-146 | git's amend is called exactly when at least one byline is selected and the answer is empty or does not start with `n`/`N` |
| `Workflow.AddByLineToCommit` | byLines.py:124-146 | returns True exactly when something is selected and the answer does not decline; the amend receives the amended message exactly then |
| `Workflow.ApplyCommand` | byLines.py:94-107 | one non-final round computes the step of the loop function |
| `Workflow.PromptLoop` | byLines.py:66-110 | the loop computes the loop function's exit and final state |
| `Workflow.MergeNewBylines` | byLines.py:112-115 | the repository list becomes the merge of the old list and the loop's bylines; the source URL is kept |
| `Workflow.SelectRecent` | byLines.py:58-61 | the preselection loop computes the initial selection, whose meaning `InitialSelectionCounts`, `InitialSelectionConcat` and `InitialSelectionAllKnown` give |
| `Workflow.StartState` | byLines.py:56-65 | the loop's start: the initial selection and the sorted known bylines; `StartStateConsistent` gives its invariant |
| `Workflow.Finish` | byLines.py:112-121 | what follows `a`: merge and save, then the amend decision; described by `FinishedSavesMerge`, `FinishedRepoConfig` and `AmendOnlyWhenConfirmed` |
| `Workflow.Workflow` | byLines.py:38-121 | the whole of `triggerByLineWorkFlow` on values; described by `QuitChangesNothing`, `DisableOnlyClearsEnabled`, `AmendOnlyWhenConfirmed`, `FinishedRepoConfig` and `AmendIsRememberedNextRun` |
| `Workflow.TriggerByLineWorkflow` | byLines.py:38-121 | exit, both configuration objects and the sequence of saves and amends are those of `Workflow` on the loaded values |
| `Workflow.Dispatch` | byLines.py:236-244 | no argument means a direct run; a first argument that is `commit` after lower and strip means the hook; any other argument does nothing |
| `Workflow.RunByLines` | byLines.py:22-35 | the hook does nothing while the tool is disabled; otherwise the run is `Workflow` on the loaded configurations |
| `Workflow.QuitChangesNothing` | byLines.py:90-91 | quitting leaves both configurations unchanged and does nothing outside |
| `Workflow.DisableOnlyClearsEnabled` | byLines.py:86-89 | `x` clears only the enabled flag, saves the local configuration and amends nothing |
| `Workflow.AmendOnlyWhenConfirmed` | byLines.py:117-146 | the commit is amended exactly when the loop ended with `a`, the selection is non-empty and the answer does not decline; after `a` the events are the repository save, then (only when amending) the amend with the amended message and the save of the local configuration; the last-used list changes exactly then, to the selection |
| `Workflow.FinishedSavesMerge` | byLines.py:112-117 | after `a`, the saved repository list is the merge of the loop's bylines |
| `Workflow.FinishedRepoConfig` | byLines.py:104-117 | after `a`, the saved repository list is the old list followed by the newly typed bylines, each once and sorted, and nothing else |
| `Workflow.StartStateConsistent` | byLines.py:56-65 | the loop starts with every selected byline known and the known bylines sorted |
| `Workflow.AmendIsRememberedNextRun` | byLines.py:118-121 | after an amend, the next run starts with exactly the amended selection |

## Left out

- Calls to git become parameters or events. This covers `getGitCommitHash`,
  `getGitCommitMessage`, `ammendCommitMessage` and `getGitTopLevelDir`:
  - the message git reports is a parameter;
  - the amend is a `CommitAmended` event carrying the message.
- The JSON load and save of the configuration files (`BaseConfigger`) is not
  part of this model:
  - a save is a `LocalConfigSaved` or `RepoConfigSaved` event with the saved
    value;
  - a load is the current value of the configuration object;
  - file names and paths are not modelled.
- Terminal output is not modelled: banners, colours, the menu with its ✔
  marks, the preview of the amended message, warnings and verbose logging.
- Terminal input comes in as a sequence of lines plus the confirmation
  answer. What happens when the lines run out is not modelled. That is the
  `OutOfInput` exit, and it saves nothing.
- `exitGracefully`/`sys.exit` and the `exit(0)` in `main` become exit tags:
  `None` from `RunByLines` for the disabled hook, `Quitted`, and `Disabled`.
- `Workflow.PromptLoop`: for `x`, the loop returns `Disabled`, and the caller
  then clears the flag and saves. The source does this inside the loop, but
  the resulting state and events are the same.
- The commit-time check at line 34 is dead (`if True or …`). The commit hash
  read at line 32 names the commit whose message `createAmmendedCommitMessage`
  fetches from git (lines 131 and 150). The model takes that message as a
  parameter in place of the hash.
- The Python 2/3 typing shim and the colorama initialisation are not
  modelled.
- The `is` tests in `main` and at line 119 are modelled as equality on
  `bool` and on the command. A loaded `enabled` that is not a bool is not
  modelled.
- `Selection.ParseCommand`: `isdigit()` and `int()` are modelled for ASCII
  digits only. Unicode digits, which CPython also accepts, are not.
- `PyStr.Lower`: only ASCII capitals are lower-cased, and the length never
  changes. CPython lower-cases the other Unicode capitals as well, and maps
  `İ` (U+0130) to two characters.
- `CommitMessage.BylinePrefix`: `lower()` folds only ASCII letters. CPython
  lower-cases `İ` (U+0130) to two characters, which shifts every later
  index. For the message `İauthored-by: X`, CPython finds the marker at
  index 2 and picks `Co-authored-by: `. The model finds it at index 1 and
  picks `Authored-by: `.
- `Selection.ParseCommand`, `Workflow.Declines` and `Workflow.Dispatch` use
  the same ASCII-only `lower()`. Their results agree with CPython's, because
  no other character lower-cases into `x`, `:x`, `q`, `:q`, `a`, `:a`,
  `commit` or a leading `n`.
- The `ValueError` of `list.remove` cannot happen, because the call is
  guarded by `in`. `RemoveFirst` requires membership.
