/**
 * The job orchestrator: FlashManager's single job record (busy flag, status,
 * status message, log of at most 600 lines) and the operations that change
 * it, each of which the source performs under one lock.
 */
module Orchestrator {
  import opened Wrappers
  import opened Text
  import opened Credentials
  import opened PasswordTable
  import opened Dispatch
  import opened Ansi

  const MaxLogLines: nat := 600
  const ReadyMessage: string := "Ready to flash Flex Plus"
  const BusyMessage: string := "Flash already in progress."
  const StartedMessage: string := "Flash started."
  const SuccessLine: string := "Flash completed successfully."
  const FailureLine: string := "Flash failed. Check above logs."

  datatype StatusCode = Ready | Flashing | Succeeded | Failed
  {
    /** The code as the state query reports it. */
    function Code(): string
    {
      match this
      case Ready => "ready"
      case Flashing => "flashing"
      case Succeeded => "success"
      case Failed => "failed"
    }
  }

  /** The last n lines of s, all of s when it has fewer. */
  function LastN(s: seq<string>, n: nat): (r: seq<string>)
    ensures |r| == if |s| > n then n else |s|
  {
    if |s| > n then s[|s| - n..] else s
  }

  /** The log after _append_log(message): the sanitised message added at the end, the oldest lines beyond 600 dropped. */
  function AppendLine(logs: seq<string>, message: string): (r: seq<string>)
    ensures 1 <= |r| <= MaxLogLines
    ensures r[|r| - 1] == Sanitize(message)
  {
    LastN(logs + [Sanitize(message)], MaxLogLines)
  }

  /** Below capacity the line is simply added; at capacity the oldest line makes room for it. */
  lemma AppendLineDropsOldest(logs: seq<string>, message: string)
    ensures |logs| < MaxLogLines ==> AppendLine(logs, message) == logs + [Sanitize(message)]
    ensures |logs| >= MaxLogLines ==>
              AppendLine(logs, message) == logs[|logs| - MaxLogLines + 1..] + [Sanitize(message)]
  {
  }

  /** The log after appending each message in turn. */
  function AppendLines(logs: seq<string>, messages: seq<string>): seq<string>
  {
    if messages == [] then logs
    else AppendLine(AppendLines(logs, messages[..|messages| - 1]), messages[|messages| - 1])
  }

  function SanitizeAll(messages: seq<string>): (r: seq<string>)
    ensures |r| == |messages|
  {
    if messages == [] then [] else SanitizeAll(messages[..|messages| - 1]) + [Sanitize(messages[|messages| - 1])]
  }

  lemma LastNAppend(s: seq<string>, x: string, n: nat)
    requires n >= 1
    ensures LastN(LastN(s, n) + [x], n) == LastN(s + [x], n)
  {
  }

  /**
   * However many messages are appended, the log is the last 600 of the old
   * lines followed by the sanitised messages, in their original order.
   */
  lemma {:induction false} AppendLinesKeepsLastWindow(logs: seq<string>, messages: seq<string>)
    requires |logs| <= MaxLogLines
    ensures AppendLines(logs, messages) == LastN(logs + SanitizeAll(messages), MaxLogLines)
  {
    if messages == [] {
      assert logs + SanitizeAll(messages) == logs;
    } else {
      var init, last := messages[..|messages| - 1], messages[|messages| - 1];
      AppendLinesKeepsLastWindow(logs, init);
      LastNAppend(logs + SanitizeAll(init), Sanitize(last), MaxLogLines);
      assert logs + SanitizeAll(messages) == (logs + SanitizeAll(init)) + [Sanitize(last)];
    }
  }

  /** Feeding at least 600 messages leaves exactly the last 600 of them, sanitised, in order. */
  lemma FloodKeepsLastLines(logs: seq<string>, messages: seq<string>)
    requires |logs| <= MaxLogLines
    requires |messages| >= MaxLogLines
    ensures AppendLines(logs, messages) == SanitizeAll(messages)[|messages| - MaxLogLines..]
  {
    AppendLinesKeepsLastWindow(logs, messages);
    var all := logs + SanitizeAll(messages);
    assert all[|all| - MaxLogLines..] == SanitizeAll(messages)[|messages| - MaxLogLines..];
  }

  lemma AppendLinesOne(logs: seq<string>, message: string)
    ensures AppendLines(logs, [message]) == AppendLine(logs, message)
  {
    assert [message][..0] == [];
  }

  lemma AppendLinesSnoc(logs: seq<string>, messages: seq<string>, message: string)
    ensures AppendLines(logs, messages + [message]) == AppendLine(AppendLines(logs, messages), message)
  {
    assert (messages + [message])[..|messages|] == messages;
  }

  /** Appending two batches of messages is appending their concatenation. */
  lemma {:induction false} AppendLinesConcat(logs: seq<string>, a: seq<string>, b: seq<string>)
    ensures AppendLines(logs, a + b) == AppendLines(AppendLines(logs, a), b)
  {
    if b == [] {
      assert a + b == a;
    } else {
      var init, last := b[..|b| - 1], b[|b| - 1];
      assert a + b == (a + init) + [last];
      AppendLinesSnoc(logs, a + init, last);
      AppendLinesConcat(logs, a, init);
      AppendLinesSnoc(AppendLines(logs, a), init, last);
      assert b == init + [last];
    }
  }

  /** A batch ending in a line that sanitising leaves alone leaves that line last in the log. */
  lemma AppendLinesEndWith(logs: seq<string>, messages: seq<string>, line: string)
    requires |logs| <= MaxLogLines
    requires Sanitize(line) == line
    ensures var final := AppendLines(logs, messages + [line]);
            && final[|final| - 1] == line
            && final == LastN(logs + SanitizeAll(messages) + [line], MaxLogLines)
  {
    var msgs := messages + [line];
    assert msgs[..|msgs| - 1] == messages;
    AppendLinesKeepsLastWindow(logs, msgs);
    assert SanitizeAll(msgs) == SanitizeAll(messages) + [line];
  }

  /** What the flashing work received from the external process. */
  datatype ProcessRun =
    | LaunchFailed(fileNotFound: bool, reason: string)  // Popen raised; fileNotFound: a FileNotFoundError
    | Exited(output: seq<string>, exitCode: int)         // the merged output lines, then the exit code

  /** What start hands to the flashing thread. */
  datatype Job = Job(unit: Unit, port: Option<string>)

  /** The result of the state query (without the static build metadata). */
  datatype Snapshot = Snapshot(code: string, message: string, busy: bool, logs: string)

  /** The two seed lines of a new job's log. */
  function SeedLines(unit: Unit): seq<string>
  {
    ["Starting flash for batch " + FormatInt(unit.batch, 2) + " serial " + FormatInt(unit.serialNumber, 4)
       + " (" + FormatInt(unit.year, 2) + "/" + FormatInt(unit.month, 2) + ")",
     "SSID: " + unit.ssid]
  }

  /** The log line for an exception: FileNotFoundError and other exceptions are worded differently. */
  function ErrorLine(fileNotFound: bool, text: string): string
  {
    if fileNotFound then "Error: " + text else "Error launching flash: " + text
  }

  /** The log line announcing the command, displayed as _run_flash displays it: the last argument hidden. */
  function CommandLine(args: seq<string>): string
  {
    "Command: " + Join(RedactLastArgument(args), " ")
  }

  /**
   * When a port is given the logged command line shows the password in
   * full, as an argument of its own, and hides the port instead.
   */
  lemma LoggedCommandShowsPassword(host: Host, serial: string, password: string, port: Option<string>)
    requires BuildFlashCommand(host, serial, password, port).Success?
    requires Truthy(port)
    ensures var shown := RedactLastArgument(BuildFlashCommand(host, serial, password, port).value.args);
            var p := PasswordIndex(host.system);
            && 0 < p < |shown| - 1
            && CommandLine(BuildFlashCommand(host, serial, password, port).value.args)
               == "Command: " + Join(shown[..p], " ") + " " + password + " " + Join(shown[p + 1..], " ")
  {
    var shown := RedactLastArgument(BuildFlashCommand(host, serial, password, port).value.args);
    CommandLayout(host, serial, password, port);
    LastArgumentRedaction(host, serial, password, port);
    JoinAround(shown, PasswordIndex(host.system), " ");
  }

  function RStripAll(lines: seq<string>): (r: seq<string>)
    ensures |r| == |lines|
  {
    if lines == [] then [] else RStripAll(lines[..|lines| - 1]) + [RStrip(lines[|lines| - 1])]
  }

  /** A flash succeeds exactly when the command was built, the process launched, and it exited with 0. */
  predicate FlashSucceeds(host: Host, job: Job, process: ProcessRun)
  {
    BuildFlashCommand(host, job.unit.serial, job.unit.password, job.port).Success?
    && process.Exited? && process.exitCode == 0
  }

  /** The messages the flashing work logs before the outcome line. */
  function FlashLog(host: Host, job: Job, process: ProcessRun): seq<string>
  {
    match BuildFlashCommand(host, job.unit.serial, job.unit.password, job.port)
    case Failure(e) => [ErrorLine(e.IsFileNotFound(), e.Message())]
    case Success(command) =>
      [CommandLine(command.args)]
      + match process
        case LaunchFailed(notFound, reason) => [ErrorLine(notFound, reason)]
        case Exited(output, _) => RStripAll(output)
  }

  function OutcomeLine(success: bool): string
  {
    if success then SuccessLine else FailureLine
  }

  function OutcomeMessage(identifier: string, success: bool): string
  {
    if success then "Successfully flashed " + identifier + "." else "Failed flashing " + identifier + ". Retry."
  }

  lemma SuccessLineIsPlain()
    ensures Sanitize(SuccessLine) == SuccessLine
  {
    SanitizePlainText(SuccessLine);
  }

  lemma FailureLineIsPlain()
    ensures Sanitize(FailureLine) == FailureLine
  {
    SanitizePlainText(FailureLine);
  }

  /** Both outcome lines reach the log as they are. */
  lemma OutcomeLineIsPlain(success: bool)
    ensures Sanitize(OutcomeLine(success)) == OutcomeLine(success)
  {
    if success {
      SuccessLineIsPlain();
    } else {
      FailureLineIsPlain();
    }
  }

  /**
   * Whatever a job logged, its log ends with the outcome line, after the
   * last lines of what came before that fit in the window.
   */
  lemma JobLogEndsWithOutcome(logs: seq<string>, sent: seq<string>, success: bool)
    requires |logs| <= MaxLogLines
    ensures var final := AppendLines(logs, sent + [OutcomeLine(success)]);
            && final[|final| - 1] == OutcomeLine(success)
            && final == LastN(logs + SanitizeAll(sent) + [OutcomeLine(success)], MaxLogLines)
  {
    OutcomeLineIsPlain(success);
    AppendLinesEndWith(logs, sent, OutcomeLine(success));
  }

  /** FlashManager: the one job record of the process. */
  class FlashManager {
    var busy: bool
    var status: StatusCode
    var statusMessage: string
    var logs: seq<string>

    /** The log stays within its capacity, and the manager is busy exactly while a flash is running. */
    ghost predicate Valid()
      reads this
    {
      |logs| <= MaxLogLines && (busy <==> status == Flashing)
    }

    constructor ()
      ensures Valid()
      ensures !busy && status == Ready && statusMessage == ReadyMessage && logs == []
    {
      busy := false;
      status := Ready;
      statusMessage := ReadyMessage;
      logs := [];
    }

    /**
     * start: a lookup error or a running job rejects the request and
     * changes nothing; otherwise the job record is reset for the unit and
     * the job to run in the background is returned.
     */
    method Start(db: PasswordDatabase, batch: int, year: int, month: int, serial: int, port: Option<string>)
      returns (accepted: bool, message: string, job: Option<Job>)
      requires Valid()
      modifies this
      ensures Valid()
      ensures var unit := Lookup(db.entries, db.defaultPassword, batch, serial, year, month);
              && (accepted <==> unit.Success? && !old(busy))
              && (unit.Failure? ==> message == unit.error.Message())
              && (unit.Success? && old(busy) ==> message == BusyMessage)
              && (!accepted ==> && job == None && busy == old(busy) && status == old(status)
                                && statusMessage == old(statusMessage) && logs == old(logs))
              && (accepted ==> && busy && status == Flashing
                               && statusMessage == "Flashing " + unit.value.serial + "..."
                               && logs == SeedLines(unit.value)
                               && message == StartedMessage
                               && job == Some(Job(unit.value, port)))
    {
      var unit := Lookup(db.entries, db.defaultPassword, batch, serial, year, month);
      if unit.Failure? {
        return false, unit.error.Message(), None;
      }
      if busy {
        return false, BusyMessage, None;
      }
      busy := true;
      status := Flashing;
      statusMessage := "Flashing " + unit.value.serial + "...";
      logs := SeedLines(unit.value);
      return true, StartedMessage, Some(Job(unit.value, port));
    }

    /** _append_log: adds the sanitised message and keeps only the last 600 lines. */
    method AppendLog(message: string)
      requires Valid()
      modifies this`logs
      ensures Valid()
      ensures logs == AppendLine(old(logs), message)
    {
      var sanitized := Sanitize(message);
      logs := logs + [sanitized];
      if |logs| > MaxLogLines {
        logs := logs[|logs| - MaxLogLines..];
      }
    }

    /** The locked region of _run_flash's finally block: the job is over, its status set. */
    method Finish(identifier: string, success: bool)
      modifies this`busy, this`status, this`statusMessage
      ensures Valid() <== |logs| <= MaxLogLines
      ensures !busy
      ensures status == if success then Succeeded else Failed
      ensures statusMessage == OutcomeMessage(identifier, success)
    {
      busy := false;
      if success {
        status := Succeeded;
        statusMessage := "Successfully flashed " + identifier + ".";
      } else {
        status := Failed;
        statusMessage := "Failed flashing " + identifier + ". Retry.";
      }
    }

    /**
     * _run_flash, with the external process as an input: build the command,
     * log it, log each output line, then finish and log the outcome.
     */
    method RunFlash(host: Host, job: Job, process: ProcessRun)
      requires Valid()
      modifies this
      ensures Valid()
      ensures !busy
      ensures status == if FlashSucceeds(host, job, process) then Succeeded else Failed
      ensures statusMessage == OutcomeMessage(job.unit.serial, FlashSucceeds(host, job, process))
      ensures logs == AppendLines(old(logs), FlashLog(host, job, process) + [OutcomeLine(FlashSucceeds(host, job, process))])
    {
      var success := LogJob(host, job, process);
      ghost var sent := FlashLog(host, job, process);
      Finish(job.unit.serial, success);
      AppendLog(OutcomeLine(success));
      AppendLinesSnoc(old(logs), sent, OutcomeLine(success));
    }

    /** The try block of _run_flash and its except clauses: everything logged before the outcome. */
    method LogJob(host: Host, job: Job, process: ProcessRun) returns (success: bool)
      requires Valid()
      modifies this`logs
      ensures Valid()
      ensures success == FlashSucceeds(host, job, process)
      ensures logs == AppendLines(old(logs), FlashLog(host, job, process))
    {
      success := false;
      var built := BuildFlashCommand(host, job.unit.serial, job.unit.password, job.port);
      match built {
        case Failure(e) =>
          AppendLog(ErrorLine(e.IsFileNotFound(), e.Message()));
          AppendLinesOne(old(logs), ErrorLine(e.IsFileNotFound(), e.Message()));
        case Success(command) =>
          var first := CommandLine(command.args);
          AppendLog(first);
          AppendLinesOne(old(logs), first);
          ghost var logs1 := logs;
          ghost var rest: seq<string>;
          match process {
            case LaunchFailed(notFound, reason) =>
              rest := [ErrorLine(notFound, reason)];
              AppendLog(ErrorLine(notFound, reason));
              AppendLinesOne(logs1, ErrorLine(notFound, reason));
            case Exited(output, exitCode) =>
              rest := RStripAll(output);
              LogOutput(output);
              success := exitCode == 0;
          }
          assert FlashLog(host, job, process) == [first] + rest;
          AppendLinesConcat(old(logs), [first], rest);
      }
    }

    /** The loop of _run_flash over the process output: each line, right-stripped, goes to the log. */
    method LogOutput(output: seq<string>)
      requires Valid()
      modifies this`logs
      ensures Valid()
      ensures logs == AppendLines(old(logs), RStripAll(output))
    {
      ghost var logs0 := logs;
      var i := 0;
      assert output[..0] == [];
      while i < |output|
        invariant 0 <= i <= |output|
        invariant Valid()
        invariant logs == AppendLines(logs0, RStripAll(output[..i]))
      {
        AppendLog(RStrip(output[i]));
        assert output[..i + 1][..i] == output[..i];
        AppendLinesSnoc(logs0, RStripAll(output[..i]), RStrip(output[i]));
        i := i + 1;
      }
      assert output[..i] == output;
    }

    /** state(): a copy of the record, the log joined with newlines. */
    function State(): (s: Snapshot)
      reads this
      ensures s.busy == busy && s.code == status.Code() && s.message == statusMessage
    {
      Snapshot(status.Code(), statusMessage, busy, JoinLines(logs))
    }
  }

  /** The joined log of a snapshot splits back into the log lines, when no line holds a newline. */
  lemma SnapshotLogsSplitBack(m: FlashManager)
    requires |m.logs| >= 1
    requires forall i :: 0 <= i < |m.logs| ==> '\n' !in m.logs[i]
    ensures SplitLines(m.State().logs) == m.logs
  {
    SplitJoinLines(m.logs);
  }

  /**
   * Two starts in a row, with no flashing work in between: at most one is
   * accepted, and the second is refused as "already in progress" whenever
   * the first was accepted.
   */
  method StartTwice(m: FlashManager, db: PasswordDatabase, batch: int, year: int, month: int, serial: int,
                    port: Option<string>)
    returns (first: bool, second: bool, secondMessage: string)
    requires m.Valid()
    modifies m
    ensures !(first && second)
    ensures first ==> secondMessage == BusyMessage
    ensures Lookup(db.entries, db.defaultPassword, batch, serial, year, month).Success? && !old(m.busy) ==> first
  {
    var msg, job;
    first, msg, job := m.Start(db, batch, year, month, serial, port);
    second, secondMessage, job := m.Start(db, batch, year, month, serial, port);
  }

  /** Once a job has run to its end, a new start for a valid unit is accepted. */
  method StartAfterFinish(m: FlashManager, db: PasswordDatabase, host: Host, job: Job, process: ProcessRun,
                          batch: int, year: int, month: int, serial: int, port: Option<string>)
    returns (accepted: bool)
    requires m.Valid()
    requires Lookup(db.entries, db.defaultPassword, batch, serial, year, month).Success?
    modifies m
    ensures accepted && m.busy && m.status == Flashing
  {
    m.RunFlash(host, job, process);
    var msg, next;
    accepted, msg, next := m.Start(db, batch, year, month, serial, port);
  }
}
