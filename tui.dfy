/** The session state machine of hls-tui/main.go.

    The Go `model` is a value: `Update` receives a copy, reassigns some of its
    fields and returns it together with a command for the runtime. Here the
    model is a datatype, `Transition` states the new model and command for
    each message, and the method `Update` performs the same field updates
    step by step. The progress bar and the log viewport are reduced to the
    fields `Update` writes (their widths and the log height); their rendering
    and the process a command starts are not part of this model. */
module Tui {
  import opened Text
  import opened Wrappers
  import opened Runner

  /** The width a fresh progress bar has before any resize. */
  const DefaultProgressWidth := 40

  /** The fields main fills in before the program starts; `Update` only reads them. */
  datatype Config = Config(
    filename: string,
    useEnhanced: bool,
    durationSec: int,
    args: seq<string>,
    workDir: string,
    probePath: string,
    firstArg: string)

  /** What `Update` writes into the progress bar and the log viewport. */
  datatype Widgets = Widgets(logWidth: int, logHeight: int, progressWidth: int)

  /** The Go `model` struct, with the fields that only main writes grouped in
      `config` and the widget sizes in `widgets`. */
  datatype Model = Model(
    config: Config,
    percent: real,
    status: string,
    widgets: Widgets,
    logContent: string,
    totalJobs: int,
    jobDone: int,
    currentRes: int,
    started: bool,
    done: bool,
    err: Option<string>)

  /** The messages `Update` reacts to; `Other` stands for every other message type. */
  datatype Msg =
    | KeyPress(key: string)
    | WindowSize(width: int, height: int)
    | Started
    | Line(text: string)
    | Finished
    | Failed(error: string)
    | Other

  /** The command handed back to the runtime. `StartAndWait` is the batch of
      startEncoding and waitForNextEvent; `SetPercentAndWait` the batch of the
      progress bar's animation towards `target` and waitForNextEvent. */
  datatype Cmd =
    | NoCmd
    | Quit
    | StartAndWait
    | WaitNext
    | SetPercentAndWait(target: real)

  const StatusReady := "Ready"
  /** "Encoding" and the three UTF-8 bytes of the ellipsis U+2026. */
  const StatusEncoding := "Encoding\U{00E2}\U{0080}\U{00A6}"
  const StatusDone := "Done"
  const StatusError := "Error"

  /** initialModel: nothing started, no jobs counted, a 80x14 log. */
  function InitialModel(filename: string, useEnhanced: bool, durationSec: int): (m: Model)
    ensures m.config.filename == filename && m.config.useEnhanced == useEnhanced
    ensures m.config.durationSec == durationSec
    ensures !m.started && !m.done && m.err.None? && m.status == StatusReady
    ensures m.percent == 0.0 && m.totalJobs == 0 && m.jobDone == 0 && m.currentRes == 0
    ensures m.logContent == "" && m.widgets.logWidth == 80 && m.widgets.logHeight == 14
  {
    Model(Config(filename, useEnhanced, durationSec, [], "", "", ""), 0.0, StatusReady,
      Widgets(80, 14, DefaultProgressWidth), "", 0, 0, 0, false, false, None)
  }

  /** The counter of finished sub-jobs after a line whose job start height is `h`:
      a new job start closes the running one, unless all jobs are already counted. */
  function JobDoneAfter(m: Model, h: int): int {
    if h > 0 && m.currentRes != 0 && m.jobDone < m.totalJobs then m.jobDone + 1 else m.jobDone
  }

  /** The overall fraction: finished jobs plus the running job's fraction,
      over the number of jobs; the running job's fraction alone when no job
      count is known. */
  function Overall(jobDone: int, totalJobs: int, inner: real): real {
    if totalJobs > 0 then (jobDone as real + inner) / totalJobs as real else inner
  }

  /** The model after a line whose job start height is `h`, whose running-job
      fraction is `inner`, and which is blank unless `shown`. */
  function AfterLine(m: Model, ln: string, h: int, inner: real, shown: bool): Model {
    var jd := JobDoneAfter(m, h);
    m.(jobDone := jd,
       currentRes := if h > 0 then h else m.currentRes,
       percent := Overall(jd, m.totalJobs, inner),
       status := if shown then ln else m.status,
       logContent := if shown then m.logContent + ln + "\n" else m.logContent)
  }

  /** What `Update` returns for each message. No message changes the
      configuration or the number of jobs. */
  function Transition(m: Model, msg: Msg): (r: (Model, Cmd))
    ensures r.0.config == m.config && r.0.totalJobs == m.totalJobs
  {
    match msg
    case KeyPress(k) =>
      if k == "ctrl+c" || k == "q" then (m, Quit)
      else if k == "enter" && !m.started && !m.done then (m, StartAndWait)
      else (m, NoCmd)
    case WindowSize(w, h) =>
      (m.(widgets := Widgets(w - 6, if h - 12 < 6 then 6 else h - 12,
                             if w > 6 then w - 6 else m.widgets.progressWidth)), NoCmd)
    case Started =>
      (m.(started := true, status := StatusEncoding), WaitNext)
    case Line(ln) =>
      var next := AfterLine(m, ln, DetectJobStartHeight(ln), UpdateProgress(m.config.durationSec, ln, 0.0), TrimSpace(ln) != "");
      (next, SetPercentAndWait(next.percent))
    case Finished =>
      (m.(done := true,
          jobDone := if m.totalJobs > 0 && m.jobDone < m.totalJobs then m.totalJobs else m.jobDone,
          percent := 1.0,
          status := StatusDone), NoCmd)
    case Failed(e) =>
      (m.(err := Some(e), done := true, status := StatusError), NoCmd)
    case Other =>
      (m, NoCmd)
  }

  /** model.Update: updates the received copy field by field and returns it. */
  method Update(m: Model, msg: Msg) returns (next: Model, cmd: Cmd)
    ensures (next, cmd) == Transition(m, msg)
    ensures next.totalJobs == m.totalJobs && next.jobDone >= m.jobDone
    ensures m.jobDone <= m.totalJobs ==> next.jobDone <= next.totalJobs
    ensures msg.Finished? || msg.Failed? ==> next.done && cmd == NoCmd
  {
    next := m;
    cmd := NoCmd;
    match msg {
      case KeyPress(k) =>
        if k == "ctrl+c" || k == "q" {
          // The cancel function is never stored in the model, so there is
          // nothing to call before quitting.
          cmd := Quit;
        } else if k == "enter" {
          if !next.started && !next.done {
            cmd := StartAndWait;
          }
        }
      case WindowSize(w, height) =>
        var h := height - 12;
        if h < 6 {
          h := 6;
        }
        next := next.(widgets := next.widgets.(logWidth := w - 6));
        next := next.(widgets := next.widgets.(logHeight := h));
        if w > 6 {
          next := next.(widgets := next.widgets.(progressWidth := w - 6));
        }
      case Started =>
        next := next.(started := true);
        next := next.(status := StatusEncoding);
        cmd := WaitNext;
      case Line(ln) =>
        var h := DetectJobStartHeight(ln);
        var inner := UpdateProgress(next.config.durationSec, ln, 0.0);
        var shown := TrimSpace(ln) != "";
        next, cmd := OnLine(next, ln, h, inner, shown);
      case Finished =>
        next := next.(done := true);
        if next.totalJobs > 0 && next.jobDone < next.totalJobs {
          next := next.(jobDone := next.totalJobs);
        }
        next := next.(percent := 1.0);
        next := next.(status := StatusDone);
      case Failed(e) =>
        next := next.(err := Some(e));
        next := next.(done := true);
        next := next.(status := StatusError);
      case Other =>
    }
    StepFacts(m, msg);
  }

  /** The lineMsg case of Update, given the line's job start height, its
      running-job fraction and whether it is not blank. */
  method OnLine(m: Model, ln: string, h: int, inner: real, shown: bool) returns (next: Model, cmd: Cmd)
    ensures next == AfterLine(m, ln, h, inner, shown)
    ensures cmd == SetPercentAndWait(next.percent)
  {
    next := m;
    if h > 0 {
      if next.currentRes != 0 && next.jobDone < next.totalJobs {
        next := next.(jobDone := next.jobDone + 1);
      }
      next := next.(currentRes := h);
    }
    var overall := inner;
    if next.totalJobs > 0 {
      overall := (next.jobDone as real + inner) / next.totalJobs as real;
    }
    next := next.(percent := overall);
    if shown {
      next := next.(status := ln);
      next := next.(logContent := next.logContent + ln + "\n");
    }
    cmd := SetPercentAndWait(next.percent);
  }

  /** What every message keeps: the number of jobs, the bound and the growth
      of the finished-job counter, and the flags that are never undone. */
  lemma StepFacts(m: Model, msg: Msg)
    ensures var next := Transition(m, msg).0;
      next.totalJobs == m.totalJobs && next.jobDone >= m.jobDone &&
      (m.jobDone <= m.totalJobs ==> next.jobDone <= next.totalJobs) &&
      (m.started ==> next.started) && (m.done ==> next.done) && (m.err.Some? ==> next.err.Some?) &&
      (msg.Finished? || msg.Failed? ==> next.done && Transition(m, msg).1 == NoCmd)
  {
    match msg {
      case Line(ln) =>
        var h, inner := DetectJobStartHeight(ln), UpdateProgress(m.config.durationSec, ln, 0.0);
        assert Transition(m, msg).0 == AfterLine(m, ln, h, inner, TrimSpace(ln) != "");
      case _ =>
    }
  }

  /** The model after a sequence of messages, with the configuration and
      the number of jobs it started with. */
  function Run(m: Model, msgs: seq<Msg>): (r: Model)
    ensures r.config == m.config && r.totalJobs == m.totalJobs
    decreases |msgs|
  {
    if msgs == [] then m else Run(Transition(m, msgs[0]).0, msgs[1..])
  }

  /** Running two sequences one after the other is running their concatenation. */
  lemma {:induction false} RunAppend(m: Model, a: seq<Msg>, b: seq<Msg>)
    ensures Run(m, a + b) == Run(Run(m, a), b)
    decreases |a|
  {
    if a == [] {
      assert a + b == b;
    } else {
      assert (a + b)[0] == a[0];
      assert (a + b)[1..] == a[1..] + b;
      RunAppend(Transition(m, a[0]).0, a[1..], b);
    }
  }

  // ---------------------------------------------------------------------
  // Job counting
  // ---------------------------------------------------------------------

  /** On a line: a job start sets the current height; the finished-job counter
      grows by exactly one iff a job was running and not all jobs are
      counted, and stays put otherwise. */
  lemma LineJobCounting(m: Model, ln: string)
    ensures var h, next := DetectJobStartHeight(ln), Transition(m, Line(ln)).0;
      (h > 0 ==> next.currentRes == h) &&
      (h == 0 ==> next.currentRes == m.currentRes && next.jobDone == m.jobDone) &&
      (next.jobDone == m.jobDone + 1 <==> h > 0 && m.currentRes != 0 && m.jobDone < m.totalJobs) &&
      (next.jobDone == m.jobDone || next.jobDone == m.jobDone + 1)
  {
  }

  /** The finished-job counter never passes the number of jobs, whatever arrives. */
  lemma {:induction false} RunKeepsJobBound(m: Model, msgs: seq<Msg>)
    requires m.jobDone <= m.totalJobs
    ensures Run(m, msgs).jobDone <= Run(m, msgs).totalJobs
    ensures Run(m, msgs).totalJobs == m.totalJobs
    decreases |msgs|
  {
    if msgs != [] {
      StepFacts(m, msgs[0]);
      RunKeepsJobBound(Transition(m, msgs[0]).0, msgs[1..]);
    }
  }

  /** The finished-job counter never goes down, and `started`, `done` and a
      recorded error are never undone. */
  lemma {:induction false} RunMonotone(m: Model, msgs: seq<Msg>)
    ensures var r := Run(m, msgs);
      r.jobDone >= m.jobDone &&
      (m.started ==> r.started) && (m.done ==> r.done) && (m.err.Some? ==> r.err.Some?)
    decreases |msgs|
  {
    if msgs != [] {
      StepFacts(m, msgs[0]);
      RunMonotone(Transition(m, msgs[0]).0, msgs[1..]);
    }
  }

  // ---------------------------------------------------------------------
  // Progress
  // ---------------------------------------------------------------------

  /** The running job's fraction on a line, computed from a current value of 0,
      is 0 or lies in (0, 1]. */
  lemma InnerRange(durationSec: int, ln: string)
    ensures 0.0 <= UpdateProgress(durationSec, ln, 0.0) <= 1.0
  {
  }

  /** After a line the overall fraction is never negative; it is at most 1 when
      no job count is known or jobs are still outstanding, and at most
      (total + 1) / total otherwise. */
  lemma LinePercentBounds(m: Model, ln: string)
    requires 0 <= m.jobDone <= m.totalJobs || m.totalJobs <= 0
    requires 0 <= m.jobDone
    ensures var next := Transition(m, Line(ln)).0;
      0.0 <= next.percent &&
      (m.totalJobs <= 0 ==> next.percent <= 1.0) &&
      (m.totalJobs > 0 && next.jobDone < m.totalJobs ==> next.percent <= 1.0) &&
      (m.totalJobs > 0 ==> next.percent <= (m.totalJobs + 1) as real / m.totalJobs as real)
  {
    var next := Transition(m, Line(ln)).0;
    var inner := UpdateProgress(m.config.durationSec, ln, 0.0);
    InnerRange(m.config.durationSec, ln);
    if m.totalJobs > 0 {
      assert 0 <= next.jobDone <= m.totalJobs;
      OverallBounds(next.jobDone, m.totalJobs, inner);
    }
  }

  lemma OverallBounds(jd: int, total: int, inner: real)
    requires 0 <= jd <= total && total > 0
    requires 0.0 <= inner <= 1.0
    ensures 0.0 <= Overall(jd, total, inner) <= (total + 1) as real / total as real
    ensures jd < total ==> Overall(jd, total, inner) <= 1.0
  {
    var t := total as real;
    var x := jd as real + inner;
    DivMonotone(0.0, x, t);
    DivMonotone(x, t + 1.0, t);
    if jd < total {
      DivMonotone(x, t, t);
    }
  }

  lemma DivMonotone(a: real, b: real, t: real)
    requires a <= b && t > 0.0
    ensures a / t <= b / t
  {
  }

  /** A line without an elapsed-time marker drops the overall fraction to the
      share of finished jobs, or to 0 when no job count is known: the
      fraction is not monotone. */
  lemma LineWithoutMarker(m: Model, ln: string)
    requires forall k :: !TimeMatchAt(ln, k)
    ensures var next := Transition(m, Line(ln)).0;
      next.percent == (if m.totalJobs > 0 then next.jobDone as real / m.totalJobs as real else 0.0)
  {
    ProgressWithoutMarker(m.config.durationSec, ln, 0.0);
    var h := DetectJobStartHeight(ln);
    var inner := UpdateProgress(m.config.durationSec, ln, 0.0);
    AfterLinePercent(m, ln, h, inner, TrimSpace(ln) != "");
  }

  /** A line whose leftmost marker reads `sec` seconds of a positive duration
      puts the running job at min(1, sec / duration). */
  lemma LineWithMarker(m: Model, ln: string, p: nat)
    requires TimeMatchAt(ln, p)
    requires forall k :: 0 <= k < p ==> !TimeMatchAt(ln, k)
    requires m.config.durationSec > 0
    ensures var sec := ClockSeconds(ln, p);
      var next := Transition(m, Line(ln)).0;
      var inner := if sec == 0 then 0.0 else Min(1.0, sec as real / m.config.durationSec as real);
      next.percent == Overall(next.jobDone, m.totalJobs, inner)
  {
    ProgressFromLeftmostMarker(m.config.durationSec, ln, 0.0, p);
    var h := DetectJobStartHeight(ln);
    var inner := UpdateProgress(m.config.durationSec, ln, 0.0);
    AfterLinePercent(m, ln, h, inner, TrimSpace(ln) != "");
  }

  lemma AfterLinePercent(m: Model, ln: string, h: int, inner: real, shown: bool)
    ensures var next := AfterLine(m, ln, h, inner, shown);
      next.jobDone == JobDoneAfter(m, h) && next.percent == Overall(next.jobDone, m.totalJobs, inner)
  {
  }

  // ---------------------------------------------------------------------
  // Status, log and the terminal messages
  // ---------------------------------------------------------------------

  /** The status and the log change only on a line that is not blank, and then
      the status is the line and the log gains exactly the line and a newline. */
  lemma LineStatusAndLog(m: Model, ln: string)
    ensures var next := Transition(m, Line(ln)).0;
      (TrimSpace(ln) == "" ==> next.status == m.status && next.logContent == m.logContent) &&
      (TrimSpace(ln) != "" ==> next.status == ln && next.logContent == m.logContent + ln + "\n") &&
      HasPrefix(next.logContent, m.logContent)
  {
    var h := DetectJobStartHeight(ln);
    var inner := UpdateProgress(m.config.durationSec, ln, 0.0);
    AfterLineStatusAndLog(m, ln, h, inner, TrimSpace(ln) != "");
  }

  lemma AfterLineStatusAndLog(m: Model, ln: string, h: int, inner: real, shown: bool)
    ensures var next := AfterLine(m, ln, h, inner, shown);
      (!shown ==> next.status == m.status && next.logContent == m.logContent) &&
      (shown ==> next.status == ln && next.logContent == m.logContent + ln + "\n") &&
      HasPrefix(next.logContent, m.logContent)
  {
    var next := AfterLine(m, ln, h, inner, shown);
    if shown {
      assert next.logContent[..|m.logContent|] == m.logContent;
    }
  }

  /** Finishing marks the session done at 100 percent with every job counted,
      and changes nothing else. */
  lemma FinishedSettles(m: Model)
    requires m.jobDone <= m.totalJobs
    ensures var (next, cmd) := Transition(m, Finished);
      next == m.(done := true, jobDone := next.jobDone, percent := 1.0, status := StatusDone) &&
      next.done && next.percent == 1.0 && next.status == StatusDone && cmd == NoCmd &&
      (m.totalJobs > 0 ==> next.jobDone == m.totalJobs) &&
      (m.totalJobs <= 0 ==> next.jobDone == m.jobDone)
  {
  }

  /** A line can still arrive after the session finished, since two waits for
      the next event may be pending; `Finished` has then counted every job
      (`FinishedSettles`). A line arriving when every job is counted adds its
      running-job fraction on top of a full share: the overall fraction passes
      1 exactly when that fraction is positive, with no job start line involved. */
  lemma LineWhenAllCounted(f: Model, ln: string)
    requires f.totalJobs > 0 && f.jobDone == f.totalJobs
    ensures var inner := UpdateProgress(f.config.durationSec, ln, 0.0);
      var r := Transition(f, Line(ln)).0;
      r.jobDone == f.totalJobs &&
      r.percent == (f.totalJobs as real + inner) / f.totalJobs as real &&
      (r.percent > 1.0 <==> inner > 0.0)
  {
    var h := DetectJobStartHeight(ln);
    var inner := UpdateProgress(f.config.durationSec, ln, 0.0);
    LineStep(f, ln);
    LineAfterAllCounted(f, ln, h, inner, TrimSpace(ln) != "");
  }

  /** The line case of Transition. */
  lemma LineStep(m: Model, ln: string)
    ensures Transition(m, Line(ln)).0 ==
      AfterLine(m, ln, DetectJobStartHeight(ln), UpdateProgress(m.config.durationSec, ln, 0.0), TrimSpace(ln) != "")
  {
  }

  /** Once every job is counted, a line adds its running-job fraction to a
      full share. */
  lemma LineAfterAllCounted(f: Model, ln: string, h: int, inner: real, shown: bool)
    requires f.totalJobs > 0 && f.jobDone == f.totalJobs
    ensures var g := AfterLine(f, ln, h, inner, shown);
      g.jobDone == f.totalJobs && g.percent == (f.totalJobs as real + inner) / f.totalJobs as real &&
      (g.percent > 1.0 <==> inner > 0.0)
  {
    OverOne(f.totalJobs as real, inner);
  }

  lemma OverOne(t: real, x: real)
    requires t > 0.0
    ensures (t + x) / t > 1.0 <==> x > 0.0
  {
    assert t / t == 1.0;
    if x > 0.0 {
      DivStrict(t, t + x, t);
    } else {
      DivMonotone(t + x, t, t);
    }
  }

  lemma DivStrict(a: real, b: real, t: real)
    requires a < b && t > 0.0
    ensures a / t < b / t
  {
  }

  /** A failure records the error and ends the session, leaving the progress
      and the job counters as they were. */
  lemma FailedKeepsProgress(m: Model, e: string)
    ensures var (next, cmd) := Transition(m, Failed(e));
      next == m.(err := Some(e), done := true, status := StatusError) && cmd == NoCmd &&
      next.percent == m.percent && next.jobDone == m.jobDone && next.currentRes == m.currentRes
  {
  }

  /** Enter starts the encoder only before it was started and before the
      session ended; `q` and ctrl+c always quit; no key changes the model. */
  lemma KeyCommands(m: Model, k: string)
    ensures var (next, cmd) := Transition(m, KeyPress(k));
      next == m &&
      (cmd == Quit <==> k == "q" || k == "ctrl+c") &&
      (cmd == StartAndWait <==> k == "enter" && !m.started && !m.done)
  {
  }

  /** Once the session is done, no later message can start the encoder. */
  lemma {:induction false} NoStartAfterDone(m: Model, msgs: seq<Msg>)
    requires m.done
    ensures Transition(Run(m, msgs), KeyPress("enter")).1 != StartAndWait
    decreases |msgs|
  {
    RunMonotone(m, msgs);
  }

  /** Resizing changes only the widget sizes: the log is 6 columns narrower
      than the window and 12 rows shorter, but never under 6 rows; the
      progress bar follows the width only when the window is wider than 6
      columns, so a positive width stays positive. */
  lemma WindowSizeBounds(m: Model, w: int, h: int)
    ensures var (next, cmd) := Transition(m, WindowSize(w, h));
      next == m.(widgets := next.widgets) && cmd == NoCmd &&
      next.widgets.logWidth == w - 6 && next.widgets.logHeight >= 6 &&
      (h >= 18 ==> next.widgets.logHeight == h - 12) &&
      (h < 18 ==> next.widgets.logHeight == 6) &&
      (w > 6 ==> next.widgets.progressWidth == w - 6) &&
      (w <= 6 ==> next.widgets.progressWidth == m.widgets.progressWidth) &&
      (m.widgets.progressWidth > 0 ==> next.widgets.progressWidth > 0)
  {
  }

  /** The start notification marks the session started and encoding, asks
      for the next event, and leaves everything else as it was. */
  lemma StartedBegins(m: Model)
    ensures var (next, cmd) := Transition(m, Started);
      next == m.(started := true, status := StatusEncoding) && cmd == WaitNext &&
      next.started && next.done == m.done && next.percent == m.percent && next.jobDone == m.jobDone
  {
  }

  // ---------------------------------------------------------------------
  // The states the program reaches
  // ---------------------------------------------------------------------

  /** Without a job count, every message keeps the overall fraction in [0, 1]. */
  lemma StepKeepsUnitPercent(m: Model, msg: Msg)
    requires m.totalJobs <= 0 && 0.0 <= m.percent <= 1.0
    ensures var next := Transition(m, msg).0;
      next.totalJobs == m.totalJobs && 0.0 <= next.percent <= 1.0
  {
    match msg {
      case Line(ln) =>
        var h := DetectJobStartHeight(ln);
        var inner := UpdateProgress(m.config.durationSec, ln, 0.0);
        InnerRange(m.config.durationSec, ln);
        AfterLinePercent(m, ln, h, inner, TrimSpace(ln) != "");
        assert Transition(m, msg).0 == AfterLine(m, ln, h, inner, TrimSpace(ln) != "");
      case _ =>
    }
  }

  /** Without a job count the overall fraction stays in [0, 1] whatever
      messages arrive. */
  lemma {:induction false} RunKeepsUnitPercent(m: Model, msgs: seq<Msg>)
    requires m.totalJobs <= 0 && 0.0 <= m.percent <= 1.0
    ensures Run(m, msgs).totalJobs == m.totalJobs
    ensures 0.0 <= Run(m, msgs).percent <= 1.0
    decreases |msgs|
  {
    if msgs != [] {
      StepKeepsUnitPercent(m, msgs[0]);
      RunKeepsUnitPercent(Transition(m, msgs[0]).0, msgs[1..]);
    }
  }

  // ---------------------------------------------------------------------
  // Command resolution
  // ---------------------------------------------------------------------

  /** scriptName: the script the session runs. */
  function ScriptName(enhanced: bool): (name: string)
    ensures HasSuffix(name, ".sh")
    ensures enhanced ==> name == "enhanced_hls.sh"
    ensures !enhanced ==> name == "hls_script.sh"
  {
    if enhanced then "enhanced_hls.sh" else "hls_script.sh"
  }

  /** The two modes run different scripts. */
  lemma ScriptNamesDiffer(a: bool, b: bool)
    ensures ScriptName(a) == ScriptName(b) <==> a == b
  {
    if a != b {
      assert ScriptName(a)[0] != ScriptName(b)[0];
    }
  }

  /** bashWrapArgs with the operating system as a parameter: on Windows the
      script and its arguments become one command line for `bash -lc`, the
      space-separated program and arguments; elsewhere the command is passed
      through. */
  function BashWrapArgs(goos: string, exe: string, args: seq<string>): (r: (string, seq<string>))
    ensures goos != "windows" ==> r == (exe, args)
    ensures goos == "windows" ==> r == ("bash", ["-lc", Join([exe] + args, ' ')])
  {
    if goos == "windows" then
      var joined := if |args| > 0 then exe + " " + Join(args, ' ') else exe;
      assert |args| > 0 ==> ([exe] + args)[0] == exe && ([exe] + args)[1..] == args;
      ("bash", ["-lc", joined])
    else (exe, args)
  }

  /** The Windows command line splits back into the program and its arguments
      as long as none of them contains a space. */
  lemma BashWrapArgsRoundTrip(exe: string, args: seq<string>)
    requires !Contains(exe, ' ')
    requires forall k :: 0 <= k < |args| ==> !Contains(args[k], ' ')
    ensures Split(BashWrapArgs("windows", exe, args).1[1], ' ') == [exe] + args
  {
    var all := [exe] + args;
    assert forall k :: 0 <= k < |all| ==> !Contains(all[k], ' ') by {
      forall k | 0 <= k < |all|
        ensures !Contains(all[k], ' ')
      {
        if k > 0 {
          assert all[k] == args[k - 1];
        }
      }
    }
    SplitJoin(all, ' ');
  }
}
