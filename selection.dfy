/**
 * The interactive selection loop of `triggerByLineWorkFlow`: one command
 * per input line, acting on the selected bylines and on the sorted list of
 * known bylines; the initial selection taken from the last-used bylines;
 * and the merge of newly typed bylines into the repository's list.
 */
module Selection {
  import opened Wrappers
  import opened PyStr
  import opened PyList

  /** What one input line asks for, after `strip()`. */
  datatype Command =
    | Skip                   // an empty line
    | Disable                // `x` or `:x`, in either case
    | Quit                   // `q` or `:q`
    | Finish                 // `a` or `:a`
    | Select(number: nat)    // a digit string: toggle the entry shown with that number
    | Add(byline: string)    // anything else: a new byline

  function ParseCommand(line: string): (c: Command)
    ensures c.Skip? <==> Strip(line) == []
    ensures c == Disable <==> Lower(Strip(line)) in ["x", ":x"]
    ensures c == Quit <==> Lower(Strip(line)) in ["q", ":q"]
    ensures c == Finish <==> Lower(Strip(line)) in ["a", ":a"]
    ensures IsDigits(Strip(line)) ==> c == Select(DigitsValue(Strip(line)))
    ensures c.Select? ==> IsDigits(Strip(line)) && c.number == DigitsValue(Strip(line))
    ensures c.Add? ==> c.byline == Strip(line) && c.byline != [] && !IsDigits(c.byline)
    ensures c.Add? <==>
      && Strip(line) != []
      && Lower(Strip(line)) !in ["x", ":x", "q", ":q", "a", ":a"]
      && !IsDigits(Strip(line))
  {
    var input := Strip(line);
    if input == [] then Skip
    else if Lower(input) in ["x", ":x"] then Disable
    else if Lower(input) in ["q", ":q"] then Quit
    else if Lower(input) in ["a", ":a"] then Finish
    else if IsDigits(input) then Select(DigitsValue(input))
    else Add(input)
  }

  /** The number printed beside an entry of the menu, typed back, selects that entry. */
  lemma {:induction false} ShownNumberSelects(n: nat)
    ensures ParseCommand(Decimal(n)) == Select(n)
  {
    var s := Decimal(n);
    assert IsDigitChar(s[0]) && IsDigitChar(s[|s| - 1]);
    StripUnspaced(s);
    assert Lower(s)[0] == s[0];
    assert Lower(s) != "x" && Lower(s) != ":x" && Lower(s) != "q" && Lower(s) != ":q";
    assert Lower(s) != "a" && Lower(s) != ":a";
    DecimalRoundTrip(n);
  }

  /** The loop's state: the selected bylines and the sorted known bylines. */
  datatype LoopState = LoopState(selected: seq<string>, bylines: seq<string>)

  /** Selecting a byline that is selected removes its first occurrence; otherwise it is appended. */
  function Toggle(selected: seq<string>, byline: string): seq<string> {
    if byline in selected then RemoveFirst(selected, byline) else selected + [byline]
  }

  /** One command that does not end the loop. */
  function Apply(st: LoopState, c: Command): LoopState {
    match c
    case Select(n) =>
      (match PyIndex(st.bylines, n - 1)
       case Some(byline) => st.(selected := Toggle(st.selected, byline))
       case None => st)
    case Add(byline) => LoopState(st.selected + [byline], Sort(st.bylines + [byline]))
    case _ => st
  }

  /** How the loop ended; `OutOfInput` when the lines ran out first. */
  datatype Exit = Disabled | Quitted | Finished | OutOfInput

  datatype LoopResult = LoopResult(exit: Exit, state: LoopState)

  /** The commands the input lines stand for, one per line. */
  function Commands(lines: seq<string>): seq<Command> {
    seq(|lines|, i requires 0 <= i < |lines| => ParseCommand(lines[i]))
  }

  /** The `while(isFlowActive)` loop, one command per round. */
  function RunLoop(st: LoopState, commands: seq<Command>): LoopResult
    decreases |commands|
  {
    if commands == [] then LoopResult(OutOfInput, st)
    else
      match commands[0]
      case Disable => LoopResult(Disabled, st)
      case Quit => LoopResult(Quitted, st)
      case Finish => LoopResult(Finished, st)
      case c => RunLoop(Apply(st, c), commands[1..])
  }

  /** The bylines typed as new ones before the loop ends, in input order. */
  function TypedBylines(commands: seq<Command>): seq<string>
    decreases |commands|
  {
    if commands == [] then []
    else
      match commands[0]
      case Disable => []
      case Quit => []
      case Finish => []
      case Add(byline) => [byline] + TypedBylines(commands[1..])
      case _ => TypedBylines(commands[1..])
  }

  /** Every selected byline is a known byline, and the known ones are sorted. */
  predicate Consistent(st: LoopState) {
    && Sorted(st.bylines)
    && forall b :: b in st.selected ==> b in st.bylines
  }

  /** A toggle changes the count of that byline by one and leaves every other byline alone. */
  lemma ToggleCounts(selected: seq<string>, byline: string)
    ensures multiset(Toggle(selected, byline)) ==
      if byline in selected then multiset(selected) - multiset{byline}
      else multiset(selected) + multiset{byline}
    ensures forall b :: b != byline ==> (b in Toggle(selected, byline) <==> b in selected)
  {
    forall b | b != byline ensures b in Toggle(selected, byline) <==> b in selected {
      assert b in Toggle(selected, byline) <==> b in multiset(Toggle(selected, byline));
    }
  }

  /** Toggling an unselected byline twice gives back the same selection. */
  lemma ToggleTwiceUnselected(selected: seq<string>, byline: string)
    requires byline !in selected
    ensures Toggle(Toggle(selected, byline), byline) == selected
  {
    var s := selected + [byline];
    assert s[..|selected|] == selected;
    assert IndexOf(s, byline) == |selected|;
  }

  /**
   * Toggling a byline selected once, twice, keeps it selected (it moves to
   * the end); one selected twice is no longer selected afterwards, because
   * each toggle removes only one occurrence.
   */
  lemma ToggleTwiceSelected(selected: seq<string>, byline: string)
    requires byline in selected
    ensures multiset(selected)[byline] == 1 ==>
      multiset(Toggle(Toggle(selected, byline), byline)) == multiset(selected)
    ensures multiset(selected)[byline] == 1 ==>
      Toggle(Toggle(selected, byline), byline) == RemoveFirst(selected, byline) + [byline]
    ensures multiset(selected)[byline] == 2 ==> byline !in Toggle(Toggle(selected, byline), byline)
  {
    var once := Toggle(selected, byline);
    ToggleCounts(selected, byline);
    ToggleCounts(once, byline);
    if multiset(selected)[byline] == 1 {
      assert byline !in multiset(once);
    }
    if multiset(selected)[byline] == 2 {
      assert byline in multiset(once);
      assert multiset(Toggle(once, byline))[byline] == 0;
    }
  }

  /** Number `k` in the range shown (1 to the number of bylines) toggles the `k`-th known byline. */
  lemma SelectShown(st: LoopState, k: nat)
    requires 1 <= k <= |st.bylines|
    ensures Apply(st, ParseCommand(Decimal(k))) == st.(selected := Toggle(st.selected, st.bylines[k - 1]))
  {
    ShownNumberSelects(k);
  }

  /** `0` is not shown, yet it toggles the LAST known byline: Python reads index -1 from the end. */
  lemma ZeroSelectsLast(st: LoopState)
    requires st.bylines != []
    ensures Apply(st, ParseCommand("0")) == st.(selected := Toggle(st.selected, st.bylines[|st.bylines| - 1]))
  {
    ShownNumberSelects(0);
    assert Decimal(0) == "0";
  }

  /** A number past the last byline (or any number when there are none) changes nothing. */
  lemma SelectOutOfRange(st: LoopState, k: nat)
    requires k > |st.bylines| || st.bylines == []
    ensures Apply(st, ParseCommand(Decimal(k))) == st
  {
    ShownNumberSelects(k);
  }

  /**
   * A new byline is appended to the selection and sorted into the known
   * bylines, even when it is already known or already selected: both lists
   * then hold it twice.
   */
  lemma AddAcceptsDuplicates(st: LoopState, byline: string)
    ensures Apply(st, Add(byline)).selected == st.selected + [byline]
    ensures var known := Apply(st, Add(byline)).bylines;
      && Sorted(known)
      && multiset(known) == multiset(st.bylines) + multiset{byline}
      && multiset(known)[byline] == multiset(st.bylines)[byline] + 1
  {
  }

  /** Every command keeps the selection within the known bylines and the known bylines sorted. */
  lemma ApplyConsistent(st: LoopState, c: Command)
    requires Consistent(st)
    ensures Consistent(Apply(st, c))
  {
    match c {
      case Select(n) =>
        match PyIndex(st.bylines, n - 1) {
          case Some(byline) =>
            ToggleCounts(st.selected, byline);
            assert byline in st.bylines;
          case None =>
        }
      case Add(byline) =>
        var known := Sort(st.bylines + [byline]);
        forall b | b in st.selected + [byline] ensures b in known {
          assert b in multiset(st.bylines + [byline]);
        }
      case _ =>
    }
  }

  /** The loop keeps the selection within the known bylines and the known bylines sorted. */
  lemma {:induction false} RunLoopConsistent(st: LoopState, commands: seq<Command>)
    requires Consistent(st)
    ensures Consistent(RunLoop(st, commands).state)
    decreases |commands|
  {
    if commands != [] && !(commands[0].Disable? || commands[0].Quit? || commands[0].Finish?) {
      ApplyConsistent(st, commands[0]);
      RunLoopConsistent(Apply(st, commands[0]), commands[1..]);
    }
  }

  /** Sorting in two steps gives the same list as sorting once. */
  lemma SortTwice(xs: seq<string>, ys: seq<string>)
    ensures Sort(Sort(xs) + ys) == Sort(xs + ys)
  {
    calc {
      multiset(Sort(Sort(xs) + ys));
      multiset(Sort(xs)) + multiset(ys);
      multiset(Sort(xs + ys));
    }
    SortedUnique(Sort(Sort(xs) + ys), Sort(xs + ys));
  }

  /** Applying a command and then sorting in what is typed later is sorting in both. */
  lemma ApplyThenSort(st: LoopState, c: Command, typed: seq<string>)
    requires !(c.Disable? || c.Quit? || c.Finish?)
    ensures Sort(Apply(st, c).bylines + typed)
         == Sort(st.bylines + ((if c.Add? then [c.byline] else []) + typed))
  {
    if c.Add? {
      assert st.bylines + ([c.byline] + typed) == (st.bylines + [c.byline]) + typed;
      SortTwice(st.bylines + [c.byline], typed);
    } else {
      assert [] + typed == typed;
    }
  }

  /** At the end of the loop the known bylines are the sorted start list plus every byline typed. */
  lemma {:induction false} RunLoopBylines(st: LoopState, commands: seq<Command>)
    requires Sorted(st.bylines)
    ensures RunLoop(st, commands).state.bylines == Sort(st.bylines + TypedBylines(commands))
    decreases |commands|
  {
    if commands == [] || commands[0].Disable? || commands[0].Quit? || commands[0].Finish? {
      assert RunLoop(st, commands).state == st && TypedBylines(commands) == [];
      assert st.bylines + [] == st.bylines;
      SortSorted(st.bylines);
    } else {
      var c := commands[0];
      RunLoopBylines(Apply(st, c), commands[1..]);
      ApplyThenSort(st, c, TypedBylines(commands[1..]));
    }
  }

  /** The selection a run starts from: the last-used bylines still known, in their order. */
  function InitialSelection(lastByLines: seq<string>, known: seq<string>): seq<string> {
    if lastByLines == [] then []
    else
      var last := lastByLines[|lastByLines| - 1];
      InitialSelection(lastByLines[..|lastByLines| - 1], known) + (if last in known then [last] else [])
  }

  /** The initial selection holds each still-known last-used byline as often as it was used, and nothing else. */
  lemma {:induction false} InitialSelectionCounts(lastByLines: seq<string>, known: seq<string>)
    ensures forall b ::
              multiset(InitialSelection(lastByLines, known))[b] == if b in known then multiset(lastByLines)[b] else 0
    ensures forall b :: b in InitialSelection(lastByLines, known) <==> b in lastByLines && b in known
  {
    var r := InitialSelection(lastByLines, known);
    if lastByLines != [] {
      var init := lastByLines[..|lastByLines| - 1];
      var last := lastByLines[|lastByLines| - 1];
      InitialSelectionCounts(init, known);
      assert lastByLines == init + [last];
    }
    forall b ensures b in r <==> b in lastByLines && b in known {
      assert b in r <==> b in multiset(r);
      assert b in lastByLines <==> b in multiset(lastByLines);
    }
  }

  /** The initial selection keeps the order of the last-used bylines. */
  lemma {:induction false} InitialSelectionConcat(xs: seq<string>, ys: seq<string>, known: seq<string>)
    ensures InitialSelection(xs + ys, known) == InitialSelection(xs, known) + InitialSelection(ys, known)
    decreases |ys|
  {
    if ys == [] {
      assert xs + ys == xs;
    } else {
      var init := ys[..|ys| - 1];
      assert (xs + ys)[..|xs + ys| - 1] == xs + init;
      InitialSelectionConcat(xs, init, known);
    }
  }

  /** The loop after the selection: each byline not yet in the repository's list is appended to it. */
  function MergeByLines(known: seq<string>, bylines: seq<string>): seq<string>
    decreases |bylines|
  {
    if bylines == [] then known
    else MergeByLines(if bylines[0] in known then known else known + [bylines[0]], bylines[1..])
  }

  /** The repository's list keeps its entries and their order; new ones go at the end. */
  lemma {:induction false} MergeKeepsKnown(known: seq<string>, bylines: seq<string>)
    ensures |MergeByLines(known, bylines)| >= |known|
    ensures MergeByLines(known, bylines)[..|known|] == known
    decreases |bylines|
  {
    if bylines != [] {
      var next := if bylines[0] in known then known else known + [bylines[0]];
      MergeKeepsKnown(next, bylines[1..]);
      assert next[..|known|] == known;
    }
  }

  /** After the merge the list holds exactly the old entries and the given bylines. */
  lemma {:induction false} MergeMembers(known: seq<string>, bylines: seq<string>)
    ensures forall b :: b in MergeByLines(known, bylines) <==> b in known || b in bylines
    decreases |bylines|
  {
    if bylines != [] {
      var next := if bylines[0] in known then known else known + [bylines[0]];
      MergeMembers(next, bylines[1..]);
      assert bylines == [bylines[0]] + bylines[1..];
    }
  }

  /** No entry appended by the merge occurs anywhere else in the list. */
  lemma {:induction false} MergeAppendsOnce(known: seq<string>, bylines: seq<string>, start: nat)
    requires start <= |known|
    requires forall i, j :: start <= i < |known| && 0 <= j < |known| && i != j ==> known[i] != known[j]
    ensures var r := MergeByLines(known, bylines);
      forall i, j :: start <= i < |r| && 0 <= j < |r| && i != j ==> r[i] != r[j]
    decreases |bylines|
  {
    if bylines != [] {
      var next := if bylines[0] in known then known else known + [bylines[0]];
      forall i, j | start <= i < |next| && 0 <= j < |next| && i != j ensures next[i] != next[j] {
        if i == |known| || j == |known| {
          assert next[|known|] == bylines[0] && bylines[0] !in known;
        }
      }
      MergeAppendsOnce(next, bylines[1..], start);
      assert MergeByLines(known, bylines) == MergeByLines(next, bylines[1..]);
    }
  }

  /** Merging sorted bylines appends the new ones in sorted order. */
  lemma {:induction false} MergeAppendsSorted(known: seq<string>, bylines: seq<string>, start: nat)
    requires start <= |known|
    requires Sorted(bylines) && Sorted(known[start..])
    requires forall i, j :: start <= i < |known| && 0 <= j < |bylines| ==> LessEq(known[i], bylines[j])
    ensures var r := MergeByLines(known, bylines); start <= |r| && Sorted(r[start..])
    decreases |bylines|
  {
    if bylines != [] {
      var next := if bylines[0] in known then known else known + [bylines[0]];
      forall i, j | start <= i < |next| && 0 <= j < |bylines| - 1
        ensures LessEq(next[i], bylines[1..][j])
      {
        assert bylines[1..][j] == bylines[j + 1];
        if i == |known| {
          assert next[i] == bylines[0];
        }
      }
      assert Sorted(next[start..]) by {
        forall i, j | 0 <= i < j < |next| - start ensures LessEq(next[start..][i], next[start..][j]) {
          if start + j == |known| {
            assert next[start + j] == bylines[0];
          }
        }
      }
      MergeAppendsSorted(next, bylines[1..], start);
    }
  }

  /** Last-used bylines that are all known are selected again, all of them, in order. */
  lemma {:induction false} InitialSelectionAllKnown(lastByLines: seq<string>, known: seq<string>)
    requires forall b :: b in lastByLines ==> b in known
    ensures InitialSelection(lastByLines, known) == lastByLines
  {
    if lastByLines != [] {
      var init := lastByLines[..|lastByLines| - 1];
      assert lastByLines == init + [lastByLines[|lastByLines| - 1]];
      InitialSelectionAllKnown(init, known);
    }
  }

  /** Merging the sorted old-plus-typed list into the old list, as the run does after `a`. */
  lemma MergeTypedBylines(known: seq<string>, typed: seq<string>)
    ensures var saved := MergeByLines(known, Sort(Sort(known) + typed));
      && |saved| >= |known| && saved[..|known|] == known
      && (forall b :: b in saved <==> b in known || b in typed)
      && (forall i, j :: |known| <= i < |saved| && 0 <= j < |saved| && i != j ==> saved[i] != saved[j])
      && Sorted(saved[|known|..])
  {
    var final := Sort(Sort(known) + typed);
    forall b ensures b in final <==> b in known || b in typed {
      assert b in final <==> b in multiset(Sort(known) + typed);
      assert b in Sort(known) <==> b in multiset(known);
    }
    MergeKeepsKnown(known, final);
    MergeMembers(known, final);
    MergeAppendsOnce(known, final, |known|);
    MergeAppendsSorted(known, final, |known|);
  }
}
