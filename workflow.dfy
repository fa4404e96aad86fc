/**
 * The whole run: the enable gate of `main`, the interactive selection of
 * `triggerByLineWorkFlow`, the merge of new bylines into the repository's
 * list, and the confirm-then-amend decision of `addByLineToCommit`.  The
 * commit message git reports, `os.linesep`, the typed lines and the answer
 * to the confirmation prompt are parameters.
 */
module Workflow {
  import opened Wrappers
  import opened PyStr
  import opened PyList
  import opened CommitMessage
  import opened Config
  import opened Selection

  /** The confirmation answer declines the amend when, lower-cased, it starts with `n`. */
  predicate Declines(answer: string) {
    StartsWith(Lower(answer), "n")
  }

  /**
   * `addByLineToCommit`: the message handed to git, or `None` when it
   * returns False: nothing selected, or the answer declines.  Every other
   * answer, the empty one included, amends.
   */
  function AmendDecision(commitMessage: string, bylinesToAdd: seq<string>, answer: string, osLinesep: string)
    : (amended: Option<string>)
    ensures amended.Some? <==>
      && |bylinesToAdd| >= 1
      && (|answer| == 0 || (answer[0] != 'n' && answer[0] != 'N'))
  {
    if |bylinesToAdd| < 1 then None
    else if Declines(answer) then None
    else Some(AmendedMessage(commitMessage, bylinesToAdd, osLinesep))
  }

  /** `addByLineToCommit`; `amended` is the message passed to git's amend, when it is called. */
  method AddByLineToCommit(commitMessage: string, bylinesToAdd: seq<string>, answer: string, osLinesep: string)
    returns (didAmend: bool, amended: Option<string>)
    ensures didAmend <==> |bylinesToAdd| >= 1 && !Declines(answer)
    ensures amended == if didAmend then Some(AmendedMessage(commitMessage, bylinesToAdd, osLinesep)) else None
    ensures amended == AmendDecision(commitMessage, bylinesToAdd, answer, osLinesep)
  {
    if |bylinesToAdd| < 1 {
      return false, None;
    }
    var message := CreateAmendedCommitMessage(commitMessage, bylinesToAdd, osLinesep);
    if Declines(answer) {
      return false, None;
    }
    return true, Some(message);
  }

  /** The state the selection loop starts from. */
  function StartState(local: LocalConfigValue, repo: RepoConfigValue): LoopState {
    LoopState(InitialSelection(local.lastByLines, repo.byLines), Sort(repo.byLines))
  }

  /** What a run ends with: how the loop ended, both configurations, and what was done outside. */
  datatype Outcome = Outcome(exit: Exit, local: LocalConfigValue, repo: RepoConfigValue, events: seq<Event>)

  /** What happens after `a`: the merge and save of the repository's list, then the amend decision. */
  function Finish(local: LocalConfigValue, repo: RepoConfigValue, final: LoopState, commitMessage: string,
                  osLinesep: string, answer: string): Outcome
  {
    var merged := repo.(byLines := MergeByLines(repo.byLines, final.bylines));
    match AmendDecision(commitMessage, final.selected, answer, osLinesep)
    case Some(message) =>
      var remembered := local.(lastByLines := final.selected);
      Outcome(Finished, remembered, merged,
              [RepoConfigSaved(merged), CommitAmended(message), LocalConfigSaved(remembered)])
    case None =>
      Outcome(Finished, local, merged, [RepoConfigSaved(merged)])
  }

  /** `triggerByLineWorkFlow` as a function of the loaded configurations and the inputs. */
  function Workflow(local: LocalConfigValue, repo: RepoConfigValue, commitMessage: string, osLinesep: string,
                    inputs: seq<string>, answer: string): Outcome
  {
    var loop := RunLoop(StartState(local, repo), Commands(inputs));
    match loop.exit
    case Disabled =>
      var disabled := local.(enabled := false);
      Outcome(Disabled, disabled, repo, [LocalConfigSaved(disabled)])
    case Finished =>
      Finish(local, repo, loop.state, commitMessage, osLinesep, answer)
    case _ =>
      Outcome(loop.exit, local, repo, [])
  }

  /**
   * One round of the loop for a line that does not end it: a toggle, a new
   * byline, or nothing.  It is the step `Apply` specifies, written as the
   * source's updates of the two lists; it stands apart from `PromptLoop` so
   * that the loop's proof meets each round only through `Apply`.
   */
  method ApplyCommand(selected0: seq<string>, bylines0: seq<string>, command: Command)
    returns (selected: seq<string>, bylines: seq<string>)
    ensures LoopState(selected, bylines) == Apply(LoopState(selected0, bylines0), command)
  {
    selected, bylines := selected0, bylines0;
    if command.Select? {
      var picked := PyIndex(bylines, command.number - 1);
      if picked.Some? {
        var byline := picked.value;
        if byline in selected {
          selected := RemoveFirst(selected, byline);
        } else {
          selected := selected + [byline];
        }
      }
    } else if command.Add? {
      bylines := Sort(bylines + [command.byline]);
      selected := selected + [command.byline];
    }
  }

  /**
   * The `while(isFlowActive)` loop of `triggerByLineWorkFlow`, reading one
   * line per round until `x`, `q` or `a` (or until the lines run out).
   * What `x` does to the local configuration is done by the caller.
   */
  method PromptLoop(selected0: seq<string>, bylines0: seq<string>, inputs: seq<string>)
    returns (exit: Exit, selected: seq<string>, bylines: seq<string>)
    ensures RunLoop(LoopState(selected0, bylines0), Commands(inputs)) == LoopResult(exit, LoopState(selected, bylines))
  {
    ghost var commands := Commands(inputs);
    selected, bylines := selected0, bylines0;
    var i := 0;
    while i < |inputs|
      invariant 0 <= i <= |inputs|
      invariant RunLoop(LoopState(selected0, bylines0), commands) == RunLoop(LoopState(selected, bylines), commands[i..])
    {
      assert commands[i..][0] == commands[i] && commands[i..][1..] == commands[i + 1..];
      var command := ParseCommand(inputs[i]);
      if command.Disable? {
        return Disabled, selected, bylines;
      }
      if command.Quit? {
        return Quitted, selected, bylines;
      }
      if command.Finish? {
        return Finished, selected, bylines;
      }
      selected, bylines := ApplyCommand(selected, bylines, command);
      i := i + 1;
    }
    assert commands[i..] == [];
    exit := OutOfInput;
  }

  /** The loop that preselects the last-used bylines the repository still knows. */
  method SelectRecent(lastByLines: seq<string>, known: seq<string>) returns (selected: seq<string>)
    ensures selected == InitialSelection(lastByLines, known)
  {
    selected := [];
    for k := 0 to |lastByLines|
      invariant selected == InitialSelection(lastByLines[..k], known)
    {
      var recent := lastByLines[k];
      if recent in known {
        selected := selected + [recent];
      }
      assert lastByLines[..k + 1][..k] == lastByLines[..k];
    }
    assert lastByLines[..|lastByLines|] == lastByLines;
  }

  /** The loop after the selection: appends to the repository's list each byline it lacks. */
  method MergeNewBylines(repo: RepoConfig, bylines: seq<string>)
    modifies repo
    ensures repo.byLines == MergeByLines(old(repo.byLines), bylines)
    ensures repo.repoSrc == old(repo.repoSrc)
  {
    for j := 0 to |bylines|
      invariant MergeByLines(repo.byLines, bylines[j..]) == MergeByLines(old(repo.byLines), bylines)
      invariant repo.repoSrc == old(repo.repoSrc)
    {
      if bylines[j] !in repo.byLines {
        repo.byLines := repo.byLines + [bylines[j]];
      }
      assert bylines[j..][1..] == bylines[j + 1..];
    }
    assert bylines[|bylines|..] == [];
  }

  /**
   * `triggerByLineWorkFlow`: the initial selection, the command loop, and
   * after `a` the merge into the repository's list and the amend.
   */
  method TriggerByLineWorkflow(local: LocalRepoConfig, repo: RepoConfig, commitMessage: string, osLinesep: string,
                               inputs: seq<string>, answer: string)
    returns (exit: Exit, events: seq<Event>)
    modifies local, repo
    ensures var o := Workflow(old(local.Value()), old(repo.Value()), commitMessage, osLinesep, inputs, answer);
      && exit == o.exit
      && local.Value() == o.local
      && repo.Value() == o.repo
      && events == o.events
  {
    ghost var local0, repo0 := local.Value(), repo.Value();
    var selected := SelectRecent(local.lastByLines, repo.byLines);
    var bylines := Sort(repo.byLines);
    assert LoopState(selected, bylines) == StartState(local0, repo0);
    exit, selected, bylines := PromptLoop(selected, bylines, inputs);
    if exit == Disabled {
      local.enabled := false;
      events := [LocalConfigSaved(local.Value())];
      return;
    }
    if exit != Finished {
      events := [];
      return;
    }

    ghost var final := LoopState(selected, bylines);
    MergeNewBylines(repo, bylines);
    events := [RepoConfigSaved(repo.Value())];

    var didAmend, amended := AddByLineToCommit(commitMessage, selected, answer, osLinesep);
    if amended.Some? {
      events := events + [CommitAmended(amended.value)];
    }
    if didAmend {
      local.lastByLines := selected;
      events := events + [LocalConfigSaved(local.Value())];
    }
    assert Workflow(local0, repo0, commitMessage, osLinesep, inputs, answer)
        == Finish(local0, repo0, final, commitMessage, osLinesep, answer);
  }

  /** How the script was started: with the `commit` argument (the git hook) or with none. */
  datatype Invocation = CommitHook | Direct

  /** The argument dispatch: any first argument other than `commit` runs nothing. */
  function Dispatch(args: seq<string>): (invocation: Option<Invocation>)
    ensures invocation == None <==> |args| >= 2 && Lower(Strip(args[1])) != "commit"
    ensures invocation == Some(Direct) <==> |args| < 2
  {
    if |args| >= 2 then
      if Lower(Strip(args[1])) == "commit" then Some(CommitHook) else None
    else Some(Direct)
  }

  /** `main`: the hook does nothing while the tool is disabled; a direct run ignores the flag. */
  method RunByLines(invocation: Invocation, local: LocalRepoConfig, repo: RepoConfig, commitMessage: string,
                    osLinesep: string, inputs: seq<string>, answer: string)
    returns (exit: Option<Exit>, events: seq<Event>)
    modifies local, repo
    ensures exit.None? <==> invocation == CommitHook && !old(local.enabled)
    ensures exit.None? ==> events == [] && local.Value() == old(local.Value()) && repo.Value() == old(repo.Value())
    ensures exit.Some? ==>
      var o := Workflow(old(local.Value()), old(repo.Value()), commitMessage, osLinesep, inputs, answer);
      && exit == Some(o.exit)
      && local.Value() == o.local
      && repo.Value() == o.repo
      && events == o.events
  {
    if invocation == CommitHook && !local.enabled {
      return None, [];
    }
    var e;
    e, events := TriggerByLineWorkflow(local, repo, commitMessage, osLinesep, inputs, answer);
    exit := Some(e);
  }

  /** `q`/`:q` and running out of input leave both configurations as they were and do nothing outside. */
  lemma QuitChangesNothing(local: LocalConfigValue, repo: RepoConfigValue, commitMessage: string, osLinesep: string,
                           inputs: seq<string>, answer: string)
    requires Workflow(local, repo, commitMessage, osLinesep, inputs, answer).exit in {Quitted, OutOfInput}
    ensures var o := Workflow(local, repo, commitMessage, osLinesep, inputs, answer);
      o.local == local && o.repo == repo && o.events == []
  {
  }

  /** `x`/`:x` clears only the enabled flag, saves the local configuration, and amends nothing. */
  lemma DisableOnlyClearsEnabled(local: LocalConfigValue, repo: RepoConfigValue, commitMessage: string,
                                 osLinesep: string, inputs: seq<string>, answer: string)
    requires Workflow(local, repo, commitMessage, osLinesep, inputs, answer).exit == Disabled
    ensures var o := Workflow(local, repo, commitMessage, osLinesep, inputs, answer);
      && o.local == local.(enabled := false)
      && o.repo == repo
      && o.events == [LocalConfigSaved(o.local)]
  {
  }

  /**
   * The commit is amended exactly when the loop was finished with `a`, the
   * selection is not empty and the answer does not decline; the last-used
   * bylines are overwritten exactly then, with that selection.
   */
  lemma AmendOnlyWhenConfirmed(local: LocalConfigValue, repo: RepoConfigValue, commitMessage: string,
                               osLinesep: string, inputs: seq<string>, answer: string)
    ensures var o := Workflow(local, repo, commitMessage, osLinesep, inputs, answer);
      var loop := RunLoop(StartState(local, repo), Commands(inputs));
      var amends := loop.exit == Finished && loop.state.selected != [] && !Declines(answer);
      && ((exists e :: e in o.events && e.CommitAmended?) <==> amends)
      && (amends ==> o.events[1] == CommitAmended(AmendedMessage(commitMessage, loop.state.selected, osLinesep)))
      && o.local.lastByLines == (if amends then loop.state.selected else local.lastByLines)
      && (loop.exit == Finished ==>
            o.events == [RepoConfigSaved(o.repo)] +
              (if amends
               then [CommitAmended(AmendedMessage(commitMessage, loop.state.selected, osLinesep)), LocalConfigSaved(o.local)]
               else []))
  {
    var o := Workflow(local, repo, commitMessage, osLinesep, inputs, answer);
    var loop := RunLoop(StartState(local, repo), Commands(inputs));
    if !(loop.exit == Finished && loop.state.selected != [] && !Declines(answer)) {
      assert forall e :: e in o.events ==> !e.CommitAmended?;
    } else {
      assert o.events[1] in o.events;
    }
  }

  /** After `a` the repository's list that is saved is the merge of the loop's known bylines into it. */
  lemma FinishedSavesMerge(local: LocalConfigValue, repo: RepoConfigValue, commitMessage: string,
                           osLinesep: string, inputs: seq<string>, answer: string)
    requires RunLoop(StartState(local, repo), Commands(inputs)).exit == Finished
    ensures Workflow(local, repo, commitMessage, osLinesep, inputs, answer).repo.byLines
         == MergeByLines(repo.byLines, RunLoop(StartState(local, repo), Commands(inputs)).state.bylines)
  {
  }

  /**
   * After `a`, the repository's list keeps its entries in order, gains
   * every byline typed during the run and nothing else, each new entry once,
   * in sorted order at the end.
   */
  lemma FinishedRepoConfig(local: LocalConfigValue, repo: RepoConfigValue, commitMessage: string,
                           osLinesep: string, inputs: seq<string>, answer: string)
    requires RunLoop(StartState(local, repo), Commands(inputs)).exit == Finished
    ensures var known := repo.byLines;
      var saved := Workflow(local, repo, commitMessage, osLinesep, inputs, answer).repo.byLines;
      && |saved| >= |known| && saved[..|known|] == known
      && (forall b :: b in saved <==> b in known || b in TypedBylines(Commands(inputs)))
      && (forall i, j :: |known| <= i < |saved| && 0 <= j < |saved| && i != j ==> saved[i] != saved[j])
      && Sorted(saved[|known|..])
  {
    FinishedSavesMerge(local, repo, commitMessage, osLinesep, inputs, answer);
    RunLoopBylines(StartState(local, repo), Commands(inputs));
    MergeTypedBylines(repo.byLines, TypedBylines(Commands(inputs)));
  }

  /** A run starts with every selected byline among the known ones, and those sorted. */
  lemma StartStateConsistent(local: LocalConfigValue, repo: RepoConfigValue)
    ensures Consistent(StartState(local, repo))
  {
    var st := StartState(local, repo);
    InitialSelectionCounts(local.lastByLines, repo.byLines);
    forall b | b in st.selected ensures b in st.bylines {
      assert b in multiset(repo.byLines);
    }
  }

  /**
   * After an amend every remembered byline is in the saved repository
   * list, so the next run starts with exactly that selection.
   */
  lemma AmendIsRememberedNextRun(local: LocalConfigValue, repo: RepoConfigValue, commitMessage: string,
                                 osLinesep: string, inputs: seq<string>, answer: string)
    requires var o := Workflow(local, repo, commitMessage, osLinesep, inputs, answer);
      exists e :: e in o.events && e.CommitAmended?
    ensures var o := Workflow(local, repo, commitMessage, osLinesep, inputs, answer);
      StartState(o.local, o.repo).selected == o.local.lastByLines
  {
    var st := StartState(local, repo);
    var loop := RunLoop(st, Commands(inputs));
    AmendOnlyWhenConfirmed(local, repo, commitMessage, osLinesep, inputs, answer);
    FinishedSavesMerge(local, repo, commitMessage, osLinesep, inputs, answer);
    StartStateConsistent(local, repo);
    RunLoopConsistent(st, Commands(inputs));
    MergeMembers(repo.byLines, loop.state.bylines);
    InitialSelectionAllKnown(loop.state.selected, MergeByLines(repo.byLines, loop.state.bylines));
  }
}
