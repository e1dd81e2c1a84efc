/** The start-up handshake of launcher, daemon, executor and server over the initialization
    pipe (pegasus/src/Executor/main.c, HandleDaemonizeExecutorRequest in Parent.c, and
    notify_parent in pegasus/src/Service/ServerProcessUnix.cpp).

    The processes run interleaved; a step is one visible action of one of them. */
module Handshake {

  // ---------------------------------------------------------------- the launcher's wait

  datatype SelectResult = TimedOut | Interrupted | Failed | Readable

  /** What a non-blocking read of one byte gives: a byte, or end of file or an error. */
  datatype ReadResult = OneByte(value: int) | Nothing

  datatype Verdict = ByTimeout | ByByte | ByNothing

  function ExitCode(v: Verdict, read: ReadResult): int {
    if v == ByByte && read.OneByte? then read.value else if v == ByTimeout then 0 else 1
  }

  /** The answer that ends the wait: the first one that is not an interruption. */
  function FirstAnswer(selects: seq<SelectResult>): SelectResult
    requires exists i :: 0 <= i < |selects| && selects[i] != Interrupted
  {
    if selects[0] != Interrupted then selects[0] else
      assert exists i :: 0 <= i < |selects[1..]| && selects[1..][i] != Interrupted by {
        var i :| 0 <= i < |selects| && selects[i] != Interrupted;
        assert selects[1..][i - 1] == selects[i];
      }
      FirstAnswer(selects[1..])
  }

  /** Behind any number of interruptions, the answer that comes next. */
  lemma {:induction false} FirstAnswerIs(selects: seq<SelectResult>, k: nat)
    requires k < |selects| && selects[k] != Interrupted && forall i :: 0 <= i < k ==> selects[i] == Interrupted
    ensures FirstAnswer(selects) == selects[k]
  {
    if k > 0 {
      assert selects[0] == Interrupted;
      FirstAnswerIs(selects[1..], k - 1);
    }
  }

  /** The launcher's half of main(): select until it is not interrupted, then exit with 0 on
      a time-out, else with the byte read, else with 1. */
  method LauncherWait(selects: seq<SelectResult>, read: ReadResult) returns (code: int)
    requires exists i :: 0 <= i < |selects| && selects[i] != Interrupted
    ensures code == ExitCode(if FirstAnswer(selects) == TimedOut then ByTimeout
                             else if read.OneByte? then ByByte else ByNothing, read)
  {
    var k := 0;
    var result := selects[0];
    assert selects[0..] == selects;
    while result == Interrupted
      invariant 0 <= k < |selects| && result == selects[k]
      invariant exists i :: 0 <= i < |selects[k..]| && selects[k..][i] != Interrupted
      invariant FirstAnswer(selects[k..]) == FirstAnswer(selects)
      decreases |selects| - k
    {
      ghost var i :| 0 <= i < |selects[k..]| && selects[k..][i] != Interrupted;
      assert selects[k..][1..] == selects[k + 1..];
      assert selects[k + 1..][i - 1] == selects[k..][i];
      k := k + 1;
      result := selects[k];
    }
    if result == TimedOut {
      return 0;
    }
    var exitRC := 1;
    if read.OneByte? {
      exitRC := read.value;
    }
    return exitRC;
  }

  // ---------------------------------------------------------------- the other wait

  datatype Arrival = NoSignal | Usr1 | Term

  const MAX_WAIT_TIME := 240

  /** The wait of cimserver_fork without an executor: arrivals[k] is what comes during the k-th
      sleep. The code is 1 exactly when a SIGTERM is the first signal within the wait. */
  method ForkParentWait(arrivals: seq<Arrival>) returns (code: int)
    requires |arrivals| >= MAX_WAIT_TIME
    ensures code == 0 || code == 1
    ensures code == 1 <==> exists k :: 0 <= k < MAX_WAIT_TIME && arrivals[k] == Term
                                       && forall i :: 0 <= i < k ==> arrivals[i] == NoSignal
  {
    var handleSigUsr1, graveError := false, false;
    var waitTime := MAX_WAIT_TIME;
    while !handleSigUsr1 && waitTime > 0
      invariant 0 <= waitTime <= MAX_WAIT_TIME
      invariant !handleSigUsr1 ==> !graveError
                                       && forall i :: 0 <= i < MAX_WAIT_TIME - waitTime ==> arrivals[i] == NoSignal
      invariant handleSigUsr1 ==>
                  && waitTime < MAX_WAIT_TIME
                  && arrivals[MAX_WAIT_TIME - waitTime - 1] == (if graveError then Term else Usr1)
                  && forall i :: 0 <= i < MAX_WAIT_TIME - waitTime - 1 ==> arrivals[i] == NoSignal
    {
      var s := arrivals[MAX_WAIT_TIME - waitTime];
      if s == Usr1 {
        handleSigUsr1 := true;
      } else if s == Term {
        graveError, handleSigUsr1 := true, true;
      }
      waitTime := waitTime - 1;
    }
    code := if graveError then 1 else 0;
  }

  // ---------------------------------------------------------------- the processes

  datatype Process = Daemon | Exec | Server

  datatype Launcher = AtWait | Left(verdict: Verdict, code: int)

  datatype ExecPhase = NotForked | Starting | Serving | ExecGone

  datatype ServerPhase = Unborn | Forked | Running | Failing | ServerGone

  /** holders: who has a write end of the pipe open, besides `agents` provider agents that are forked
      and not yet at their exec; pending: a daemonize request that the executor has not read; asks and
      queued: how many agents the server will still ask for, and has asked for unread; sigterm: a
      signal that the executor has not noticed. */
  datatype State = State(launcher: Launcher, holders: set<Process>, agents: nat, pipe: seq<int>,
                           exec: ExecPhase, server: ServerPhase,
                         pending: bool, requested: bool, asks: nat, queued: nat, sigterm: bool, daemonized: bool)

  function Init(asks: nat): State {
    State(AtWait, {Daemon}, 0, [], NotForked, Unborn, false, false, asks, 0, false, false)
  }

  predicate NobodyHolds(s: State) {
    s.holders == {} && s.agents == 0
  }

  datatype Step =
    | DaemonFatal | DaemonForksExec | DaemonExits
    | ExecFatal | ExecForksServer | ExecDaemonizes(reaches: bool) | ExecSeesSignal | ExecSeesEof
    | ExecForksAgent(works: bool) | AgentExecs
    | ServerExecs | ServerDies | ServerRequests | ServerAsksForAgent | ServerReportsFailure
    | LauncherTimesOut | LauncherReads | LauncherSelectFails

  predicate OfLauncher(step: Step) {
    step.LauncherTimesOut? || step.LauncherReads? || step.LauncherSelectFails?
  }

  predicate Enabled(s: State, step: Step) {
    match step
    case DaemonFatal => Daemon in s.holders && s.exec == NotForked
    case DaemonForksExec => Daemon in s.holders && s.exec == NotForked
    case DaemonExits => Daemon in s.holders && s.exec != NotForked
    case ExecFatal => s.exec == Starting || s.exec == Serving
    case ExecForksServer => s.exec == Starting
    case ExecDaemonizes(_) => s.exec == Serving && s.pending
    case ExecSeesSignal => s.exec == Serving && s.sigterm
    case ExecSeesEof => s.exec == Serving && s.server == ServerGone && !s.pending && s.queued == 0
    case ExecForksAgent(_) => s.exec == Serving && s.queued > 0
    case AgentExecs => s.agents > 0
    case ServerExecs => s.server == Forked
    case ServerDies => s.server == Forked || s.server == Running || s.server == Failing
    case ServerRequests => s.server == Running && !s.requested
    case ServerAsksForAgent => s.server == Running && s.asks > 0
    case ServerReportsFailure => s.server == Running
    case LauncherTimesOut => s.launcher == AtWait && s.pipe == [] && !NobodyHolds(s)
    case LauncherReads => s.launcher == AtWait && (s.pipe != [] || NobodyHolds(s))
    case LauncherSelectFails => s.launcher == AtWait
  }

  function ReadPipe(pipe: seq<int>): ReadResult {
    if pipe == [] then Nothing else OneByte(pipe[0])
  }

  function Leave(s: State, timedOut: bool): State {
    var read := ReadPipe(s.pipe);
    var v := if timedOut then ByTimeout else if read.OneByte? then ByByte else ByNothing;
    s.(launcher := Left(v, ExitCode(v, read)))
  }

  function Take(s: State, step: Step): State
    requires Enabled(s, step)
  {
    match step
    case DaemonFatal => s.(holders := s.holders - {Daemon})
    case DaemonForksExec => s.(exec := Starting, holders := s.holders + {Exec})
    case DaemonExits => s.(holders := s.holders - {Daemon})
    case ExecFatal => s.(exec := ExecGone, holders := s.holders - {Exec})
    case ExecForksServer => s.(exec := Serving, server := Forked,
             holders := if Exec in s.holders then s.holders + {Server} else s.holders)
    case ExecDaemonizes(reaches) =>
      s.(pending := false, daemonized := true, holders := s.holders - {Exec},
         pipe := if Exec in s.holders && reaches then s.pipe + [0] else s.pipe)
    case ExecSeesSignal => s.(exec := ExecGone, holders := s.holders - {Exec})
    case ExecSeesEof => s.(exec := ExecGone, holders := s.holders - {Exec})
    case ExecForksAgent(works) => s.(queued := s.queued - 1,
             agents := if works && Exec in s.holders then s.agents + 1 else s.agents)
    case AgentExecs => s.(agents := s.agents - 1)
    case ServerExecs => s.(server := Running, holders := s.holders - {Server})
    case ServerDies => s.(server := ServerGone, holders := s.holders - {Server})
    case ServerRequests => s.(requested := true, pending := true)
    case ServerAsksForAgent => s.(asks := s.asks - 1, queued := s.queued + 1)
    case ServerReportsFailure => s.(server := Failing, sigterm := true)
    case LauncherTimesOut => Leave(s, true)
    case LauncherReads => Leave(s, false)
    case LauncherSelectFails => Leave(s, false)
  }

  predicate IsRun(s: State, steps: seq<Step>)
    decreases |steps|
  {
    steps != [] ==> Enabled(s, steps[0]) && IsRun(Take(s, steps[0]), steps[1..])
  }

  function After(s: State, steps: seq<Step>): State
    requires IsRun(s, steps)
    decreases |steps|
  {
    if steps == [] then s else After(Take(s, steps[0]), steps[1..])
  }

  // ---------------------------------------------------------------- safety

  predicate Inv(s: State) {
    && (s.pipe == [] || s.pipe == [0])
    && (s.pipe != [] ==> s.daemonized)
    && (s.daemonized ==> s.requested && !s.pending && Exec !in s.holders)
    && (s.pending ==> s.requested)
    && (Exec in s.holders ==> s.exec == Starting || s.exec == Serving)
    && (Server in s.holders ==> s.server == Forked)
    && (s.exec == NotForked || s.exec == Starting ==> s.server == Unborn)
    && (s.exec == Starting ==> Exec in s.holders)
    && (s.exec == NotForked ==> Exec !in s.holders)
    && (s.server == Unborn ==> !s.requested)
    && (s.server == Forked ==> !s.requested)
    && (s.server == Failing ==> s.sigterm)
    && (s.launcher.Left? ==>
          match s.launcher.verdict
          case ByTimeout => s.launcher.code == 0
          case ByByte => s.launcher.code == 0 && s.daemonized
          case ByNothing => s.launcher.code == 1)
  }

  predicate OfExec(step: Step) {
    || step.ExecFatal? || step.ExecForksServer? || step.ExecDaemonizes? || step.ExecSeesSignal? || step.ExecSeesEof?
    || step.ExecForksAgent?
  }

  predicate OfServer(step: Step) {
    step.ServerExecs? || step.ServerDies? || step.ServerRequests? || step.ServerAsksForAgent?
    || step.ServerReportsFailure?
  }

  lemma ExecKeepsInv(s: State, step: Step)
    requires Inv(s) && Enabled(s, step) && OfExec(step)
    ensures Inv(Take(s, step))
  {
  }

  lemma ServerKeepsInv(s: State, step: Step)
    requires Inv(s) && Enabled(s, step) && OfServer(step)
    ensures Inv(Take(s, step))
  {
  }

  lemma LauncherKeepsInv(s: State, step: Step)
    requires Inv(s) && Enabled(s, step) && OfLauncher(step)
    ensures Inv(Take(s, step))
  {
  }

  lemma StepKeepsInv(s: State, step: Step)
    requires Inv(s) && Enabled(s, step)
    ensures Inv(Take(s, step))
  {
    if OfExec(step) {
      ExecKeepsInv(s, step);
    } else if OfServer(step) {
      ServerKeepsInv(s, step);
    } else if OfLauncher(step) {
      LauncherKeepsInv(s, step);
    }
  }

  lemma {:induction false} RunKeepsInv(s: State, steps: seq<Step>)
    requires Inv(s) && IsRun(s, steps)
    ensures Inv(After(s, steps))
    decreases |steps|
  {
    if steps != [] {
      StepKeepsInv(s, steps[0]);
      RunKeepsInv(Take(s, steps[0]), steps[1..]);
    }
  }

  /** In every run: the launcher leaves with 0 only after its wait timed out or after the
      executor handled the daemonize request, and otherwise with 1. */
  lemma LauncherCodeMeaning(asks: nat, steps: seq<Step>)
    requires IsRun(Init(asks), steps)
    ensures var s := After(Init(asks), steps);
            s.launcher.Left? ==>
              && (s.launcher.code == 0 || s.launcher.code == 1)
              && (s.launcher.code == 0 ==> s.launcher.verdict == ByTimeout || s.daemonized)
              && (s.launcher.verdict != ByTimeout && !s.daemonized ==> s.launcher.code == 1)
  {
    RunKeepsInv(Init(asks), steps);
  }

  /** All write ends are closed and nothing was written. */
  predicate AllClosed(s: State) {
    NobodyHolds(s) && s.pipe == []
  }

  /** From there on the launcher can only leave with 1. */
  lemma {:induction false} AllClosedGivesOne(s: State, steps: seq<Step>)
    requires Inv(s) && IsRun(s, steps) && AllClosed(s) && s.launcher == AtWait
    ensures AllClosed(After(s, steps))
    ensures After(s, steps).launcher == AtWait || After(s, steps).launcher == Left(ByNothing, 1)
    decreases |steps|
  {
    if steps != [] {
      StepKeepsInv(s, steps[0]);
      var t := Take(s, steps[0]);
      if t.launcher == AtWait {
        AllClosedGivesOne(t, steps[1..]);
      } else {
        LeftStays(t, steps[1..]);
      }
    }
  }

  lemma {:induction false} LeftStays(s: State, steps: seq<Step>)
    requires Inv(s) && IsRun(s, steps) && AllClosed(s) && s.launcher.Left?
    ensures AllClosed(After(s, steps)) && After(s, steps).launcher == s.launcher
    decreases |steps|
  {
    if steps != [] {
      StepKeepsInv(s, steps[0]);
      LeftStays(Take(s, steps[0]), steps[1..]);
    }
  }

  // ---------------------------------------------------------------- failures before daemonizing

  /** The start has failed: the executor, or the daemon before it, is gone; or the server is
      gone or has reported failure, with no daemonize request on the way. */
  predicate Doomed(s: State) {
    && !s.daemonized
    && (|| s.exec == ExecGone
        || (s.exec == NotForked && Daemon !in s.holders)
        || ((s.server == Failing || s.server == ServerGone) && !s.pending))
  }

  lemma {:induction false} DoomedForever(s: State, steps: seq<Step>)
    requires Inv(s) && IsRun(s, steps) && Doomed(s)
    ensures Inv(After(s, steps)) && Doomed(After(s, steps))
    decreases |steps|
  {
    if steps != [] {
      StepKeepsInv(s, steps[0]);
      DoomedForever(Take(s, steps[0]), steps[1..]);
    }
  }

  /** A start that fails while the launcher still waits never ends with a byte: unless the
      wait times out, the launcher leaves with 1. */
  lemma FailureSurfaces(s: State, steps: seq<Step>)
    requires Inv(s) && IsRun(s, steps) && Doomed(s) && s.launcher == AtWait
    ensures var t := After(s, steps).launcher;
            t.Left? ==> t.verdict == ByTimeout || (t.verdict == ByNothing && t.code == 1)
  {
    DoomedForever(s, steps);
  }

  /** How much the processes other than the launcher can still do. */
  function Rank(s: State): nat {
    (match s.exec case NotForked => 6 case Starting => 4 case Serving => 2 case ExecGone => 0)
    + (match s.server case Unborn => 4 case Forked => 3 case Running => 2 case Failing => 1 case ServerGone => 0)
    + (if Daemon in s.holders then 1 else 0)
    + (if s.requested then 0 else 2) + (if s.pending then 1 else 0)
    + 3 * s.asks + 2 * s.queued + s.agents
  }

  lemma ExecLowersRank(s: State, step: Step)
    requires Inv(s) && Enabled(s, step) && OfExec(step)
    ensures Rank(Take(s, step)) < Rank(s)
  {
  }

  lemma ServerLowersRank(s: State, step: Step)
    requires Inv(s) && Enabled(s, step) && OfServer(step)
    ensures Rank(Take(s, step)) < Rank(s)
  {
  }

  lemma StepLowersRank(s: State, step: Step)
    requires Inv(s) && Enabled(s, step)
    ensures if OfLauncher(step) then Rank(Take(s, step)) == Rank(s) else Rank(Take(s, step)) < Rank(s)
  {
    if OfExec(step) {
      ExecLowersRank(s, step);
    } else if OfServer(step) {
      ServerLowersRank(s, step);
    }
  }

  function Others(steps: seq<Step>): nat {
    if steps == [] then 0 else (if OfLauncher(steps[0]) then 0 else 1) + Others(steps[1..])
  }

  lemma {:induction false} RunLowersRank(s: State, steps: seq<Step>)
    requires Inv(s) && IsRun(s, steps)
    ensures Others(steps) + Rank(After(s, steps)) <= Rank(s)
    decreases |steps|
  {
    if steps != [] {
      StepKeepsInv(s, steps[0]);
      StepLowersRank(s, steps[0]);
      RunLowersRank(Take(s, steps[0]), steps[1..]);
    }
  }

  /** No process but the launcher can go on. */
  ghost predicate Stuck(s: State) {
    forall step: Step :: Enabled(s, step) ==> OfLauncher(step)
  }

  /** While a failed start keeps a write end open, some process can go on. */
  lemma SomeoneGoesOn(s: State) returns (step: Step)
    requires Inv(s) && Doomed(s) && !NobodyHolds(s)
    ensures Enabled(s, step) && !OfLauncher(step)
  {
    if s.agents > 0 {
      return AgentExecs;
    }
    var p :| p in s.holders;
    step := match p
      case Daemon => if s.exec == NotForked then DaemonFatal else DaemonExits
      case Exec =>
        if s.exec == Starting then ExecForksServer
        else if s.server == Failing then ExecSeesSignal
        else if s.queued > 0 then ExecForksAgent(true)
        else ExecSeesEof
      case Server => ServerExecs;
  }

  lemma StuckIsClosed(s: State)
    requires Inv(s) && Doomed(s) && Stuck(s)
    ensures AllClosed(s)
  {
    if !NobodyHolds(s) {
      var step := SomeoneGoesOn(s);
    }
  }

  /** From a failed start every run has at most Rank(s) steps of the other processes; and when none of
      them can go on, all write ends are closed, so that a launcher that has not timed out has left with
      1 or reads the end of the pipe and leaves with 1, and can no longer time out. */
  lemma FailureReachesTheLauncher(s: State, steps: seq<Step>)
    requires Inv(s) && Doomed(s) && s.launcher == AtWait && IsRun(s, steps)
    ensures Others(steps) <= Rank(s)
    ensures var t := After(s, steps);
            Stuck(t) ==>
              && AllClosed(t)
              && (t.launcher.Left? ==> t.launcher.verdict == ByTimeout || t.launcher == Left(ByNothing, 1))
              && (t.launcher == AtWait ==>
                    Enabled(t, LauncherReads) && Take(t, LauncherReads).launcher == Left(ByNothing, 1)
                    && !Enabled(t, LauncherTimesOut))
  {
    RunLowersRank(s, steps);
    DoomedForever(s, steps);
    if Stuck(After(s, steps)) {
      StuckIsClosed(After(s, steps));
    }
  }

  // ---------------------------------------------------------------- when the launcher leaves with 1

  /** The launcher's step k finds the pipe empty and does not time out: its select fails, or the read
      meets the end of a pipe that nobody holds any more. */
  predicate FindsNothing(s: State, steps: seq<Step>, k: nat)
    requires k < |steps|
  {
    && IsRun(s, steps[..k])
    && (steps[k].LauncherSelectFails? || (steps[k].LauncherReads? && NobodyHolds(After(s, steps[..k]))))
    && After(s, steps[..k]).pipe == []
  }

  lemma FindsNothingLater(s: State, steps: seq<Step>, k: nat)
    requires IsRun(s, steps) && k + 1 < |steps|
    ensures FindsNothing(s, steps, k + 1) <==> FindsNothing(Take(s, steps[0]), steps[1..], k)
  {
    assert steps[..k + 1][1..] == steps[1..][..k];
  }

  /** A launcher that has left does not come back to find anything. */
  lemma {:induction false} LeftFindsNothingMore(s: State, steps: seq<Step>)
    requires IsRun(s, steps) && s.launcher.Left?
    ensures After(s, steps).launcher == s.launcher
    ensures forall k :: 0 <= k < |steps| ==> !FindsNothing(s, steps, k)
    decreases |steps|
  {
    if steps != [] {
      LeftFindsNothingMore(Take(s, steps[0]), steps[1..]);
      forall k | 0 <= k < |steps| ensures !FindsNothing(s, steps, k) {
        if k > 0 {
          FindsNothingLater(s, steps, k - 1);
        }
      }
    }
  }

  lemma FindsNothingNow(s: State, steps: seq<Step>)
    requires Inv(s) && IsRun(s, steps) && steps != [] && s.launcher == AtWait
    ensures var t := Take(s, steps[0]).launcher;
            && (FindsNothing(s, steps, 0) <==> t == Left(ByNothing, 1))
            && (t.Left? && t.code == 1 <==> t == Left(ByNothing, 1))
  {
    StepKeepsInv(s, steps[0]);
    assert steps[..0] == [];
  }

  lemma FindsNothingNowOrLater(s: State, steps: seq<Step>)
    requires IsRun(s, steps) && steps != []
    ensures (exists k :: 0 <= k < |steps| && FindsNothing(s, steps, k))
       <==> FindsNothing(s, steps, 0)
            || exists k :: 0 <= k < |steps[1..]| && FindsNothing(Take(s, steps[0]), steps[1..], k)
  {
    if k :| 0 <= k < |steps| && FindsNothing(s, steps, k) {
      if k > 0 {
        FindsNothingLater(s, steps, k - 1);
      }
    }
    if k :| 0 <= k < |steps[1..]| && FindsNothing(Take(s, steps[0]), steps[1..], k) {
      FindsNothingLater(s, steps, k);
    }
  }

  /** In every run the launcher has left with 1 exactly when it has so found nothing: before a time-out
      and with no byte in the pipe, all write ends were closed or its select failed. */
  lemma {:induction false} CodeOneExactly(s: State, steps: seq<Step>)
    requires Inv(s) && IsRun(s, steps) && s.launcher == AtWait
    ensures var t := After(s, steps).launcher;
            t.Left? && t.code == 1 <==> exists k :: 0 <= k < |steps| && FindsNothing(s, steps, k)
    decreases |steps|
  {
    if steps != [] {
      var t := Take(s, steps[0]);
      StepKeepsInv(s, steps[0]);
      FindsNothingNow(s, steps);
      FindsNothingNowOrLater(s, steps);
      if t.launcher == AtWait {
        CodeOneExactly(t, steps[1..]);
      } else {
        LeftFindsNothingMore(t, steps[1..]);
      }
    }
  }

  /** A wait that was interrupted past its deadline makes the next select fail, and then the
      launcher leaves with 1 although the start is still under way and could have timed out
      with 0. */
  lemma LateInterruptionGivesOne()
    ensures IsRun(Init(0), [DaemonForksExec, LauncherSelectFails])
    ensures After(Init(0), [DaemonForksExec, LauncherSelectFails]).launcher == Left(ByNothing, 1)
    ensures !AllClosed(After(Init(0), [DaemonForksExec, LauncherSelectFails]))
  {
    var steps := [DaemonForksExec, LauncherSelectFails];
    var s := Take(Init(0), DaemonForksExec);
    assert steps[1..] == [LauncherSelectFails] && steps[1..][1..] == [];
    assert IsRun(s, steps[1..]);
    assert After(s, steps[1..]) == Take(s, LauncherSelectFails);
    assert Daemon in s.holders;
  }
}
