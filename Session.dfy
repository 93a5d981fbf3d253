/**
 * What the emulator driver does with the text it reads from the emulator's
 * terminal (support/testing/infra/emulator.py, lines 73-81 and 105-116): the
 * text one wait captures, and how `run` cuts a command's output lines and its
 * exit code out of such captures.
 *
 * The lemmas describe a capture as the emulator's serial console delivers it:
 * lines ended by "\r\r\n", starting with the echo of the typed command and
 * ending with the shell prompt.
 */
module Session {
  import opened Wrappers
  import opened PyStr

  const LoginPrompt := "buildroot login:"
  const PasswordPrompt := "Password:"
  const ShellPrompt := "# "

  /** How the console ends a line: the terminal's "\r\n" after an extra '\r'. */
  const ConsoleEol := "\r\r\n"

  /** The answer to one wait for a pattern: whether the pattern was seen, the
      text read before it, and the text that matched. */
  datatype Expect = Expect(matched: bool, before: string, after: string)

  /** What a wait for a literal pattern can answer: the wait stops at the
      first occurrence, so the text before holds none; a wait that succeeds
      has matched the pattern itself. */
  predicate Answers(e: Expect, waitstr: string) {
    && !Contains(e.before, waitstr)
    && (e.matched ==> e.after == waitstr)
  }

  /** The raw text one wait consumes: what came before, and the match if any. */
  function Captured(e: Expect): string {
    e.before + (if e.matched then e.after else "")
  }

  /** What `login` types before waiting for the shell prompt: the user name,
      then the password only when it is truthy. */
  function Credentials(password: Option<string>): (typed: seq<string>)
    ensures |typed| == if Truthy(password) then 2 else 1
    ensures typed[0] == "root\n"
  {
    ["root\n"] + (if Truthy(password) then [password.value + "\n"] else [])
  }

  /** The exceptions the driver lets escape. */
  datatype PyError = SystemError(message: string) | IndexError | ValueError

  const NotBooting := SystemError("System does not boot")
  const CannotLogin := SystemError("Cannot login")

  datatype RunResult = RunResult(output: seq<string>, exitCode: int)

  /** The output lines of a command: the capture stripped and split into
      lines, without the first (the echoed command) and the last (the prompt). */
  function CommandOutput(capture: string): (output: seq<string>)
    ensures forall k :: 0 <= k < |output| ==> NoLineBreak(output[k])
  {
    var lines := SplitLines(Strip(capture));
    if |lines| < 2 then [] else lines[1..|lines| - 1]
  }

  /** The exit code in the capture of `echo $?`: the second line, as an integer. */
  function ExitCode(capture: string): (r: Result<int, PyError>)
    ensures r.Failure? ==> r.error == IndexError || r.error == ValueError
  {
    var lines := SplitLines(Strip(capture));
    if |lines| < 2 then Failure(IndexError)
    else match ParseInt(lines[1])
      case None => Failure(ValueError)
      case Some(n) => Success(n)
  }

  predicate NoCr(s: string) {
    forall k :: 0 <= k < |s| ==> s[k] != '\r'
  }

  /** Collapsing "\r\r" turns the console's line ends into the terminal's. */
  lemma {:induction false} CollapseConsoleLines(lines: seq<string>)
    requires forall k :: 0 <= k < |lines| ==> NoCr(lines[k])
    ensures CollapseDoubleCr(Join(ConsoleEol, lines)) == Join("\r\n", lines)
    decreases |lines|
  {
    if lines == [] {
    } else if |lines| == 1 {
      CollapseKeepsLine(lines[0]);
    } else {
      var rest := Join(ConsoleEol, lines[1..]);
      assert Join(ConsoleEol, lines) == lines[0] + (ConsoleEol + rest);
      CollapseConsoleStep(lines[0], rest);
      CollapseConsoleLines(lines[1..]);
    }
  }

  /** One console line and its line end. */
  lemma CollapseConsoleStep(line: string, rest: string)
    requires NoCr(line)
    ensures CollapseDoubleCr(line + (ConsoleEol + rest)) == line + ("\r\n" + CollapseDoubleCr(rest))
  {
    CollapseKeepsLine(line);
    CollapseConcat(line, ConsoleEol + rest);
    CollapseConsoleEol(rest);
  }

  lemma CollapseConsoleEol(rest: string)
    ensures CollapseDoubleCr(ConsoleEol + rest) == "\r\n" + CollapseDoubleCr(rest)
  {
    var t := ConsoleEol + rest;
    assert t[0] == '\r' && t[1] == '\r';
    var u := t[2..];
    assert u == "\n" + rest;
    assert u[0] == '\n';
    assert u[1..] == rest;
  }

  lemma CollapseKeepsLine(line: string)
    requires NoCr(line)
    ensures CollapseDoubleCr(line) == line
  {
    assert !Contains(line, "\r\r") by {
      forall i | 0 <= i <= |line|
        ensures !("\r\r" <= line[i..])
      {
        if i < |line| {
          assert line[i..][0] == line[i];
        }
      }
    }
    CollapseFixedPoints(line);
  }

  /** The lines with an empty line after each of them but the last: what
      `splitlines` makes of a console text that was not collapsed. */
  function WithBlankLines(lines: seq<string>): (r: seq<string>)
    ensures |r| == if lines == [] then 0 else 2 * |lines| - 1
    decreases |lines|
  {
    if |lines| <= 1 then lines else [lines[0], ""] + WithBlankLines(lines[1..])
  }

  /** The even places hold the lines in order, the odd places are empty. */
  lemma {:induction false} WithBlankLinesAt(lines: seq<string>, i: nat)
    requires i < |WithBlankLines(lines)|
    ensures WithBlankLines(lines)[i] == if i % 2 == 0 then lines[i / 2] else ""
    decreases |lines|
  {
    if |lines| > 1 && i >= 2 {
      WithBlankLinesAt(lines[1..], i - 2);
    }
  }

  /** Without the collapse, every console line end would also split off an
      empty line. */
  lemma {:induction false} SplitWithoutCollapse(lines: seq<string>)
    requires lines != [] && lines[|lines| - 1] != ""
    requires forall k :: 0 <= k < |lines| ==> NoLineBreak(lines[k])
    ensures SplitLines(Join(ConsoleEol, lines)) == WithBlankLines(lines)
    decreases |lines|
  {
    if |lines| == 1 {
      SplitSingleLine(lines[0]);
    } else {
      var rest := lines[1..];
      assert rest[|rest| - 1] == lines[|lines| - 1];
      assert forall k :: 0 <= k < |rest| ==> NoLineBreak(rest[k]) by {
        forall k | 0 <= k < |rest| ensures NoLineBreak(rest[k]) {
          assert rest[k] == lines[k + 1];
        }
      }
      JoinCons(ConsoleEol, lines);
      SplitConsoleLine(lines[0], Join(ConsoleEol, rest));
      SplitWithoutCollapse(rest);
    }
  }

  /** One uncollapsed console line end splits off the line and an empty one. */
  lemma SplitConsoleLine(line: string, rest: string)
    requires NoLineBreak(line)
    ensures SplitLines(line + (ConsoleEol + rest)) == [line, ""] + SplitLines(rest)
  {
    var u := "\r\n" + rest;
    ConsoleEolShape(line, rest);
    SplitLinesCons(line, "\r", u);
    EmptyLineShape(rest);
    SplitLinesCons("", "\r\n", rest);
    ConcatAssoc([line], [""], SplitLines(rest));
    assert [line] + [""] == [line, ""];
  }

  lemma ConsoleEolShape(line: string, rest: string)
    ensures line + (ConsoleEol + rest) == line + "\r" + ("\r\n" + rest)
  {
  }

  lemma EmptyLineShape(rest: string)
    ensures "\r\n" + rest == "" + "\r\n" + rest
  {
  }

  /** A non-blank text keeps at least one character through `rstrip`, and what
      it keeps has no line break if the text had none. */
  lemma StripRightKeepsText(s: string)
    requires HasNonSpace(s)
    ensures StripRight(s) != []
    ensures NoCr(s) && NoLineBreak(s) ==> NoCr(StripRight(s)) && NoLineBreak(StripRight(s))
  {
    var p := StripRight(s);
    var k :| 0 <= k < |s| && !IsSpace(s[k]);
    assert k < |p|;
    StripRightIsPrefix(s);
  }

  /** Stripping a screen whose first line starts with a visible character only
      trims the end of its last line, if that line holds a visible character. */
  lemma StripScreen(front: seq<string>, last: string)
    requires front != [] && front[0] != [] && !IsSpace(front[0][0])
    requires HasNonSpace(last)
    ensures Strip(Join("\r\n", front + [last])) == Join("\r\n", front + [StripRight(last)])
  {
    JoinSnoc("\r\n", front, last);
    JoinSnoc("\r\n", front, StripRight(last));
    var head := Join("\r\n", front) + "\r\n";
    JoinPrefix("\r\n", front);
    var screen := head + last;
    assert screen[0] == front[0][0];
    assert StripLeft(screen) == screen;
    StripRightAppend(head, last);
  }

  /** A line break with nothing after it is stripped away. */
  lemma StripTrailingBreak(shown: seq<string>)
    requires shown != [] && shown[0] != [] && !IsSpace(shown[0][0])
    ensures Strip(Join("\r\n", shown + [""])) == Strip(Join("\r\n", shown))
  {
    JoinSnoc("\r\n", shown, "");
    JoinPrefix("\r\n", shown);
    var screen := Join("\r\n", shown);
    assert Join("\r\n", shown + [""]) == screen + "\r\n";
    assert screen[0] == shown[0][0];
    assert (screen + "\r\n")[0] == shown[0][0];
    assert StripLeft(screen) == screen;
    assert StripLeft(screen + "\r\n") == screen + "\r\n";
    assert !HasNonSpace("\r\n");
    StripRightAppend(screen, "\r\n");
  }

  /** The lines `run` sees for a screen whose last line is `last`. */
  lemma {:induction false} ScreenLines(front: seq<string>, last: string)
    requires front != [] && front[0] != [] && !IsSpace(front[0][0])
    requires forall k :: 0 <= k < |front| ==> NoCr(front[k]) && NoLineBreak(front[k])
    requires NoCr(last) && NoLineBreak(last) && HasNonSpace(last)
    ensures SplitLines(Strip(CollapseDoubleCr(Join(ConsoleEol, front + [last]))))
         == front + [StripRight(last)]
  {
    var lines := front + [last];
    assert forall k :: 0 <= k < |lines| ==> NoCr(lines[k]);
    CollapseConsoleLines(lines);
    StripScreen(front, last);
    StripRightKeepsText(last);
    var stripped := front + [StripRight(last)];
    assert forall k :: 0 <= k < |stripped| ==> NoLineBreak(stripped[k]);
    SplitLinesJoin("\r\n", stripped);
  }

  /** The lines `run` sees when the wait timed out after the last line break. */
  lemma {:induction false} TimedOutScreenLines(front: seq<string>, last: string)
    requires front != [] && front[0] != [] && !IsSpace(front[0][0])
    requires forall k :: 0 <= k < |front| ==> NoCr(front[k]) && NoLineBreak(front[k])
    requires NoCr(last) && NoLineBreak(last) && HasNonSpace(last)
    ensures SplitLines(Strip(CollapseDoubleCr(Join(ConsoleEol, front + [last] + [""]))))
         == front + [StripRight(last)]
  {
    var lines := front + [last] + [""];
    assert forall k :: 0 <= k < |lines| ==> NoCr(lines[k]);
    CollapseConsoleLines(lines);
    StripTrailingBreak(front + [last]);
    StripScreen(front, last);
    StripRightKeepsText(last);
    var stripped := front + [StripRight(last)];
    assert forall k :: 0 <= k < |stripped| ==> NoLineBreak(stripped[k]);
    SplitLinesJoin("\r\n", stripped);
  }

  /** The echo followed by the command's lines is a list of clean console lines. */
  lemma EchoedLinesClean(echo: string, body: seq<string>)
    requires NoCr(echo) && NoLineBreak(echo)
    requires forall k :: 0 <= k < |body| ==> NoCr(body[k]) && NoLineBreak(body[k])
    ensures forall k :: 0 <= k < |[echo] + body| ==> NoCr(([echo] + body)[k]) && NoLineBreak(([echo] + body)[k])
  {
    var front := [echo] + body;
    forall k | 0 <= k < |front|
      ensures NoCr(front[k]) && NoLineBreak(front[k])
    {
      if k > 0 {
        assert front[k] == body[k - 1];
      }
    }
  }

  /** The output `run` cuts from a capture whose lines are the echo, the
      command's lines and one more. */
  lemma OutputOfScreen(capture: string, echo: string, body: seq<string>, last: string)
    requires SplitLines(Strip(capture)) == [echo] + body + [last]
    ensures CommandOutput(capture) == body
  {
    var lines := [echo] + body + [last];
    assert lines[1..|lines| - 1] == body;
  }

  /** `run` gives back exactly the lines a command printed between the echo
      of the command and the next prompt, when none of them holds the prompt
      text (the wait would have stopped there). */
  lemma RunOutputRoundTrip(echo: string, body: seq<string>, prompt: string)
    requires echo != [] && !IsSpace(echo[0])
    requires forall k :: 0 <= k < |body| ==> NoCr(body[k]) && NoLineBreak(body[k])
    requires NoCr(echo) && NoLineBreak(echo) && NoCr(prompt) && NoLineBreak(prompt)
    requires HasNonSpace(prompt)
    requires !Contains(Join(ConsoleEol, [echo] + body) + ConsoleEol, ShellPrompt)
    ensures CommandOutput(CollapseDoubleCr(Join(ConsoleEol, [echo] + body + [prompt]))) == body
  {
    var front := [echo] + body;
    EchoedLinesClean(echo, body);
    ScreenLines(front, prompt);
    OutputOfScreen(CollapseDoubleCr(Join(ConsoleEol, front + [prompt])), echo, body, StripRight(prompt));
  }

  /** A matched capture that is a text ending in a line break followed by a
      last line: the last line ends with the prompt, and what came before the
      match is the text and the rest of that line. */
  lemma MatchedLastLine(e: Expect, y: string, prompt: string)
    requires Answers(e, ShellPrompt) && e.matched
    requires y != [] && y[|y| - 1] == '\n'
    requires Captured(e) == y + prompt
    ensures |prompt| >= 2 && prompt[|prompt| - 2] == '#'
    ensures e.before == y + prompt[..|prompt| - 2]
  {
    var c := Captured(e);
    assert c == e.before + ShellPrompt;
    assert |prompt| >= 2 by {
      assert c[|c| - 1] == ' ' && c[|c| - 2] == '#';
      assert y[|y| - 1] == '\n';
    }
    var tail := prompt[..|prompt| - 2];
    assert c[..|c| - 2] == e.before;
    assert prompt == tail + prompt[|prompt| - 2..];
    assert c == (y + tail) + prompt[|prompt| - 2..];
    assert c[..|c| - 2] == y + tail;
  }

  /** A matched reply whose capture is a console screen ending in a prompt
      line holds no prompt text before that line, and its last line holds
      the visible `'#'` of the prompt. */
  lemma NoPromptBeforeMatch(e: Expect, front: seq<string>, prompt: string)
    requires Answers(e, ShellPrompt) && e.matched
    requires front != []
    requires Captured(e) == Join(ConsoleEol, front + [prompt])
    ensures !Contains(Join(ConsoleEol, front) + ConsoleEol, ShellPrompt)
    ensures HasNonSpace(prompt)
  {
    var y := Join(ConsoleEol, front) + ConsoleEol;
    JoinSnoc(ConsoleEol, front, prompt);
    assert y[|y| - 1] == '\n';
    MatchedLastLine(e, y, prompt);
    assert !IsSpace(prompt[|prompt| - 2]);
    var tail := prompt[..|prompt| - 2];
    forall i | 0 <= i <= |y|
      ensures !(ShellPrompt <= y[i..])
    {
      assert !(ShellPrompt <= e.before[i..]);
      assert e.before[i..] == y[i..] + tail;
    }
  }

  /** For every matched reply the wait for the prompt can return, `run`'s
      output is exactly what the command printed. */
  lemma RunReplyOutput(e: Expect, echo: string, body: seq<string>, prompt: string)
    requires Answers(e, ShellPrompt) && e.matched
    requires Captured(e) == Join(ConsoleEol, [echo] + body + [prompt])
    requires echo != [] && !IsSpace(echo[0])
    requires forall k :: 0 <= k < |body| ==> NoCr(body[k]) && NoLineBreak(body[k])
    requires NoCr(echo) && NoLineBreak(echo) && NoCr(prompt) && NoLineBreak(prompt)
    ensures CommandOutput(CollapseDoubleCr(Captured(e))) == body
  {
    NoPromptBeforeMatch(e, [echo] + body, prompt);
    RunOutputRoundTrip(echo, body, prompt);
  }

  lemma ShownStatus(status: int)
    ensures var shown := ShowInt(status);
            NoCr(shown) && NoLineBreak(shown) && HasNonSpace(shown) && StripRight(shown) == shown
  {
    var shown := ShowInt(status);
    assert NoCr(shown) by {
      forall k | 0 <= k < |shown| ensures shown[k] != '\r' {
        assert !IsLineBreak(shown[k]);
      }
    }
    assert !IsSpace(shown[0]);
  }

  /** The exit code `run` reads from a capture whose second line is the
      decimal text of `status`. */
  lemma ExitCodeOfScreen(capture: string, status: int, lines: seq<string>)
    requires SplitLines(Strip(capture)) == lines
    requires |lines| >= 2 && lines[1] == ShowInt(status)
    ensures ExitCode(capture) == Success(status)
  {
    ParseShowInt(status);
  }

  /** `run` reads back the status the shell printed for `echo $?`. */
  lemma RunExitCodeRoundTrip(echo: string, status: int, prompt: string)
    requires echo != [] && !IsSpace(echo[0])
    requires NoCr(echo) && NoLineBreak(echo) && NoCr(prompt) && NoLineBreak(prompt)
    requires HasNonSpace(prompt)
    ensures ExitCode(CollapseDoubleCr(Join(ConsoleEol, [echo, ShowInt(status), prompt]))) == Success(status)
  {
    var shown := ShowInt(status);
    assert [echo, shown] + [prompt] == [echo, shown, prompt];
    ShownStatus(status);
    ScreenLines([echo, shown], prompt);
    ExitCodeOfScreen(CollapseDoubleCr(Join(ConsoleEol, [echo, shown, prompt])), status,
                     [echo, shown] + [StripRight(prompt)]);
  }

  /** When the prompt never arrives the wait times out, and the last line the
      command printed (`last`) is dropped as if it were the prompt. */
  lemma TimedOutRunLosesLastLine(echo: string, body: seq<string>, last: string)
    requires echo != [] && !IsSpace(echo[0])
    requires forall k :: 0 <= k < |body| ==> NoCr(body[k]) && NoLineBreak(body[k])
    requires NoCr(echo) && NoLineBreak(echo)
    requires NoCr(last) && NoLineBreak(last) && HasNonSpace(last)
    requires !Contains(Join(ConsoleEol, [echo] + body + [last] + [""]), ShellPrompt)
    ensures CommandOutput(CollapseDoubleCr(Join(ConsoleEol, [echo] + body + [last] + [""]))) == body
  {
    var front := [echo] + body;
    EchoedLinesClean(echo, body);
    TimedOutScreenLines(front, last);
    OutputOfScreen(CollapseDoubleCr(Join(ConsoleEol, front + [last] + [""])), echo, body, StripRight(last));
  }

  /** A wait for the prompt that times out after the status line still yields
      the status: only the prompt is missing from the capture. */
  lemma TimedOutStatusStillParses(echo: string, status: int)
    requires echo != [] && !IsSpace(echo[0])
    requires NoCr(echo) && NoLineBreak(echo)
    ensures ExitCode(CollapseDoubleCr(Join(ConsoleEol, [echo, ShowInt(status), ""]))) == Success(status)
  {
    var shown := ShowInt(status);
    assert [echo] + [shown] + [""] == [echo, shown, ""];
    ShownStatus(status);
    TimedOutScreenLines([echo], shown);
    ExitCodeOfScreen(CollapseDoubleCr(Join(ConsoleEol, [echo, shown, ""])), status,
                     [echo] + [StripRight(shown)]);
  }

  /** A status capture with a single line (the echo alone) has no exit code. */
  lemma ExitCodeNeedsSecondLine(capture: string)
    requires NoLineBreak(Strip(capture))
    ensures ExitCode(capture) == Failure(IndexError)
  {
    var t := Strip(capture);
    if t != [] {
      assert LineEnd(t) == |t|;
    }
  }

  /** A second line with no digit in it (a timed-out prompt, say) is a
      ValueError. */
  lemma ExitCodeNeedsNumber(capture: string)
    requires |SplitLines(Strip(capture))| >= 2
    requires var line := SplitLines(Strip(capture))[1];
             forall k :: 0 <= k < |line| ==> !IsDigit(line[k])
    ensures ExitCode(capture) == Failure(ValueError)
  {
    ParseIntNeedsDigit(SplitLines(Strip(capture))[1]);
  }
}
