/**
 * Building the amended commit message: the newline sequence, the
 * `Authored-by: ` / `Co-authored-by: ` choice and one trailer line per
 * byline that the message does not already contain.  The message that git
 * reports for the commit, and `os.linesep`, are parameters.
 */
module CommitMessage {
  import opened PyStr

  const CoAuthoredPrefix: string := "Co-authored-by: "
  const AuthoredPrefix: string := "Authored-by: "
  /** What the lower-cased message is searched for to detect an existing author trailer. */
  const AuthorMarker: string := "authored-by: "

  /**
   * The newline sequence used for the new lines.  The tests are Python
   * truthiness tests on `find` results: index 0 is false and -1 (absent)
   * is true.  So a message that starts with CRLF gets LF, every other
   * message (including one with no newline at all) gets CRLF, and the
   * `osLinesep` branch can never be taken.
   */
  function NewLineCharacter(txt: string, osLinesep: string): (newLine: string)
    ensures newLine == (if StartsWith(txt, "\r\n") then "\n" else "\r\n")
  {
    if Find(txt, "\r\n") != 0 then "\r\n"
    else
      LineFeedAfterLeadingCrLf(txt);
      if Find(txt, "\n") != 0 then "\n"
      else assert false; osLinesep
  }

  /** In a text that starts with CRLF the first LF is at index 1. */
  lemma LineFeedAfterLeadingCrLf(txt: string)
    requires Find(txt, "\r\n") == 0
    ensures Find(txt, "\n") == 1
  {
    assert txt[0..2] == "\r\n";
    assert txt[0] == '\r' && txt[1] == '\n';
    assert txt[1..2] == "\n";
    assert txt[0..1] != "\n" by { assert txt[0..1][0] == '\r'; }
    assert Occurs(txt, "\n", 1);
    assert !Occurs(txt, "\n", 0);
  }

  /**
   * The trailer prefix.  `message` already ends with the newline.  The
   * author test asks for the FIRST occurrence of the marker to lie past
   * index 1, so a marker at index 0 or 1 does not count even when another
   * one follows.
   */
  function BylinePrefix(message: string, bylinesToAdd: seq<string>): (prefix: string)
    ensures prefix == CoAuthoredPrefix || prefix == AuthoredPrefix
    ensures prefix == CoAuthoredPrefix <==>
      || |bylinesToAdd| > 1
      || (&& Contains(Lower(message), AuthorMarker)
          && !Occurs(Lower(message), AuthorMarker, 0)
          && !Occurs(Lower(message), AuthorMarker, 1))
  {
    if |bylinesToAdd| > 1 || Find(Lower(message), AuthorMarker) > 1 then CoAuthoredPrefix
    else AuthoredPrefix
  }

  /**
   * The trailer loop: for each byline in order, the line
   * `newLine + prefix + byline` is appended unless the message built so
   * far already contains the byline (a case-sensitive substring test).
   */
  function AppendTrailers(message: string, newLine: string, prefix: string, bylines: seq<string>): string
    decreases |bylines|
  {
    if bylines == [] then message
    else
      var next := if Find(message, bylines[0]) == -1 then message + newLine + (prefix + bylines[0]) else message;
      AppendTrailers(next, newLine, prefix, bylines[1..])
  }

  /** The trailer lines for `bylines`, one `newLine + prefix + byline` each, in order. */
  function TrailerLines(newLine: string, prefix: string, bylines: seq<string>): string {
    if bylines == [] then [] else newLine + (prefix + bylines[0]) + TrailerLines(newLine, prefix, bylines[1..])
  }

  predicate Distinct(s: seq<string>) {
    forall i, j :: 0 <= i < j < |s| ==> s[i] != s[j]
  }

  /** The whole of `createAmmendedCommitMessage`, with the message git reports as a parameter. */
  function AmendedMessage(commitMessage: string, bylinesToAdd: seq<string>, osLinesep: string): string {
    var newLine := NewLineCharacter(commitMessage, osLinesep);
    var message := commitMessage + newLine;
    AppendTrailers(message, newLine, BylinePrefix(message, bylinesToAdd), bylinesToAdd)
  }

  /** The loop of `createAmmendedCommitMessage`, rebinding the message as it goes. */
  method CreateAmendedCommitMessage(commitMessage: string, bylinesToAdd: seq<string>, osLinesep: string)
    returns (message: string)
    ensures message == AmendedMessage(commitMessage, bylinesToAdd, osLinesep)
  {
    message := commitMessage;
    var newLine := NewLineCharacter(message, osLinesep);
    message := message + newLine;
    var prefix := BylinePrefix(message, bylinesToAdd);
    for i := 0 to |bylinesToAdd|
      invariant AppendTrailers(message, newLine, prefix, bylinesToAdd[i..])
             == AmendedMessage(commitMessage, bylinesToAdd, osLinesep)
    {
      var byline := bylinesToAdd[i];
      var prefixWithTag := prefix + byline;
      if Find(message, byline) == -1 {
        message := message + newLine + prefixWithTag;
      }
      assert bylinesToAdd[i..][1..] == bylinesToAdd[i + 1..];
    }
  }

  lemma TrailerLinesCons(newLine: string, prefix: string, b: string, rest: seq<string>)
    ensures TrailerLines(newLine, prefix, [b] + rest) == newLine + (prefix + b) + TrailerLines(newLine, prefix, rest)
  {
    assert ([b] + rest)[1..] == rest;
  }

  /**
   * `result` is `message` followed by one trailer line for each byline of
   * `added`: distinct bylines of the list that `message` did not contain.
   */
  predicate AppendsTrailersFor(result: string, message: string, newLine: string, prefix: string,
                               bylines: seq<string>, added: seq<string>)
  {
    && result == message + TrailerLines(newLine, prefix, added)
    && Distinct(added)
    && forall b :: b in added ==> b in bylines && !Contains(message, b)
  }

  /** The step of the shape proof where the first byline is appended. */
  lemma AppendedStep(message: string, newLine: string, prefix: string, bylines: seq<string>,
                     result: string, rest: seq<string>)
    requires bylines != [] && !Contains(message, bylines[0])
    requires AppendsTrailersFor(result, message + newLine + (prefix + bylines[0]), newLine, prefix, bylines[1..], rest)
    ensures AppendsTrailersFor(result, message, newLine, prefix, bylines, [bylines[0]] + rest)
  {
    var b0 := bylines[0];
    var next := message + newLine + (prefix + b0);
    TrailerLinesCons(newLine, prefix, b0, rest);
    assert next == message + (newLine + (prefix + b0));
    forall b | b in rest ensures b in bylines && !Contains(message, b) {
      if Contains(message, b) { ContainsAppend(message, newLine + (prefix + b0), b); }
    }
    assert b0 !in rest by {
      assert next == (message + newLine + prefix) + b0;
      ContainsSelf(message + newLine + prefix, b0);
    }
  }

  /**
   * The trailer loop only appends: the result is the message followed by
   * one trailer line for each of some distinct bylines of the list, none of
   * which the message contained.
   */
  lemma {:induction false} AppendTrailersShape(message: string, newLine: string, prefix: string, bylines: seq<string>)
    ensures exists added :: AppendsTrailersFor(AppendTrailers(message, newLine, prefix, bylines), message, newLine, prefix, bylines, added)
    decreases |bylines|
  {
    var result := AppendTrailers(message, newLine, prefix, bylines);
    if bylines == [] {
      assert AppendsTrailersFor(result, message, newLine, prefix, bylines, []);
    } else {
      var b0 := bylines[0];
      var appended := Find(message, b0) == -1;
      var next := if appended then message + newLine + (prefix + b0) else message;
      AppendTrailersShape(next, newLine, prefix, bylines[1..]);
      var rest :| AppendsTrailersFor(result, next, newLine, prefix, bylines[1..], rest);
      if appended {
        AppendedStep(message, newLine, prefix, bylines, result, rest);
      } else {
        assert AppendsTrailersFor(result, message, newLine, prefix, bylines, rest);
      }
    }
  }

  /** After the trailer loop every byline of the list is in the message. */
  lemma {:induction false} AppendTrailersContainsAll(message: string, newLine: string, prefix: string, bylines: seq<string>)
    ensures forall b :: b in bylines ==> Contains(AppendTrailers(message, newLine, prefix, bylines), b)
    decreases |bylines|
  {
    if bylines != [] {
      var b0 := bylines[0];
      var next := if Find(message, b0) == -1 then message + newLine + (prefix + b0) else message;
      var r := AppendTrailers(next, newLine, prefix, bylines[1..]);
      AppendTrailersContainsAll(next, newLine, prefix, bylines[1..]);
      assert Contains(next, b0) by {
        if Find(message, b0) == -1 {
          assert next == (message + newLine + prefix) + b0;
          ContainsSelf(message + newLine + prefix, b0);
        }
      }
      AppendTrailersShape(next, newLine, prefix, bylines[1..]);
      var rest :| AppendsTrailersFor(r, next, newLine, prefix, bylines[1..], rest);
      ContainsAppend(next, TrailerLines(newLine, prefix, rest), b0);
    }
  }

  /** A message that already contains every byline is left as it is. */
  lemma {:induction false} AppendTrailersAllPresent(message: string, newLine: string, prefix: string, bylines: seq<string>)
    requires forall b :: b in bylines ==> Contains(message, b)
    ensures AppendTrailers(message, newLine, prefix, bylines) == message
    decreases |bylines|
  {
    if bylines != [] {
      assert bylines[0] in bylines;
      AppendTrailersAllPresent(message, newLine, prefix, bylines[1..]);
    }
  }

  /** The loop over `xs + ys` is the loop over `xs` followed by the loop over `ys`. */
  lemma {:induction false} AppendTrailersSplit(message: string, newLine: string, prefix: string, xs: seq<string>, ys: seq<string>)
    ensures AppendTrailers(message, newLine, prefix, xs + ys)
         == AppendTrailers(AppendTrailers(message, newLine, prefix, xs), newLine, prefix, ys)
    decreases |xs|
  {
    if xs != [] {
      var next := if Find(message, xs[0]) == -1 then message + newLine + (prefix + xs[0]) else message;
      assert (xs + ys)[0] == xs[0] && (xs + ys)[1..] == xs[1..] + ys;
      AppendTrailersSplit(next, newLine, prefix, xs[1..], ys);
    } else {
      assert xs + ys == ys;
    }
  }

  /** Listing a byline a second time adds no second trailer line. */
  lemma AppendTrailersRepeat(message: string, newLine: string, prefix: string, bylines: seq<string>, b: string)
    requires b in bylines
    ensures AppendTrailers(message, newLine, prefix, bylines + [b]) == AppendTrailers(message, newLine, prefix, bylines)
  {
    AppendTrailersSplit(message, newLine, prefix, bylines, [b]);
    AppendTrailersContainsAll(message, newLine, prefix, bylines);
    AppendTrailersAllPresent(AppendTrailers(message, newLine, prefix, bylines), newLine, prefix, [b]);
  }

  /**
   * The amended message is the original message, the newline, and then one
   * trailer line for each of some distinct bylines of the list that the
   * message did not already contain; the original text is never changed.
   */
  lemma AmendedMessageShape(commitMessage: string, bylinesToAdd: seq<string>, osLinesep: string)
    ensures var newLine := NewLineCharacter(commitMessage, osLinesep);
      var prefix := BylinePrefix(commitMessage + newLine, bylinesToAdd);
      exists added :: AppendsTrailersFor(AmendedMessage(commitMessage, bylinesToAdd, osLinesep),
                                         commitMessage + newLine, newLine, prefix, bylinesToAdd, added)
  {
    var newLine := NewLineCharacter(commitMessage, osLinesep);
    var prefix := BylinePrefix(commitMessage + newLine, bylinesToAdd);
    AppendTrailersShape(commitMessage + newLine, newLine, prefix, bylinesToAdd);
    var added :| AppendsTrailersFor(AppendTrailers(commitMessage + newLine, newLine, prefix, bylinesToAdd),
                                    commitMessage + newLine, newLine, prefix, bylinesToAdd, added);
    assert AppendsTrailersFor(AmendedMessage(commitMessage, bylinesToAdd, osLinesep),
                              commitMessage + newLine, newLine, prefix, bylinesToAdd, added);
  }

  /** Every selected byline ends up in the amended message. */
  lemma AmendedMessageContainsAll(commitMessage: string, bylinesToAdd: seq<string>, osLinesep: string)
    ensures forall b :: b in bylinesToAdd ==> Contains(AmendedMessage(commitMessage, bylinesToAdd, osLinesep), b)
  {
    var newLine := NewLineCharacter(commitMessage, osLinesep);
    AppendTrailersContainsAll(commitMessage + newLine, newLine, BylinePrefix(commitMessage + newLine, bylinesToAdd), bylinesToAdd);
  }

  /**
   * One new byline on a message without an author trailer past index 1
   * gives a blank line and then a single `Authored-by: ` trailer.
   */
  lemma SingleBylineIsAuthored(commitMessage: string, byline: string, osLinesep: string)
    requires var message := commitMessage + NewLineCharacter(commitMessage, osLinesep);
      && !Contains(message, byline)
      && Find(Lower(message), AuthorMarker) <= 1
    ensures var newLine := NewLineCharacter(commitMessage, osLinesep);
      AmendedMessage(commitMessage, [byline], osLinesep)
        == commitMessage + newLine + newLine + AuthoredPrefix + byline
  {
    var newLine := NewLineCharacter(commitMessage, osLinesep);
    var message := commitMessage + newLine;
    assert BylinePrefix(message, [byline]) == AuthoredPrefix;
    assert AppendTrailers(message, newLine, AuthoredPrefix, [byline])
        == AppendTrailers(message + newLine + (AuthoredPrefix + byline), newLine, AuthoredPrefix, []);
  }
}
