/** At most one running CIM server (pegasus/src/Service/ServerRunStatus.cpp, PidFile.cpp, and the
    locked start-up section of pegasus/src/Server/cimserver.cpp).

    The start-up lock is a mutex that dies with its holder; kill() is one step. */
module SingleInstance {
  import opened Collections

  /** Process numbers are positive; 0 is what getPid gives without a file. */
  type Pid = p: nat | p > 0 witness 1

  // ---------------------------------------------------------------- the classes

  class PidFile {
    var content: Option<Pid>

    constructor ()
      ensures content == None
    {
      content := None;
    }

    method GetPid() returns (pid: nat)
      ensures pid == if content.Some? then content.value else 0
    {
      pid := if content.Some? then content.value else 0;
    }

    method Remove()
      modifies this
      ensures content == None
    {
      content := None;
    }

    method SetPid(pid: Pid, writable: bool)
      modifies this
      ensures content == if writable then Some(pid) else None
    {
      Remove();
      if writable {
        content := Some(pid);
      }
    }
  }

  /** isServerRunning as a function: the file names a live server process that is neither the
      caller nor its recorded parent. `servers` are the numbers of live server processes. */
  predicate SaysRunning(file: Option<Pid>, self: Pid, parent: nat, servers: set<Pid>) {
    file.Some? && file.value != self && file.value != parent && file.value in servers
  }

  class ServerRunStatus {
    const pidFile: PidFile
    var isRunningServerInstance: bool
    var parentPid: nat

    constructor (pidFile: PidFile)
      ensures this.pidFile == pidFile && !isRunningServerInstance && parentPid == 0
    {
      this.pidFile, isRunningServerInstance, parentPid := pidFile, false, 0;
    }

    method IsServerRunning(self: Pid, servers: set<Pid>) returns (r: bool)
      ensures r <==> SaysRunning(pidFile.content, self, parentPid, servers)
      ensures r ==> pidFile.content.Some? && pidFile.content.value in servers - {self, parentPid}
      ensures servers <= {self, parentPid} ==> !r
    {
      var pid := pidFile.GetPid();
      if pid == 0 {
        return false;
      }
      return pid != self && pid != parentPid && pid in servers;
    }

    method SetServerRunning(self: Pid, writable: bool)
      modifies pidFile, this`isRunningServerInstance
      ensures pidFile.content == (if writable then Some(self) else None) && isRunningServerInstance
    {
      pidFile.SetPid(self, writable);
      isRunningServerInstance := true;
    }

    method SetServerNotRunning()
      modifies pidFile, this`isRunningServerInstance
      ensures !isRunningServerInstance
      ensures pidFile.content == if old(isRunningServerInstance) then None else old(pidFile.content)
    {
      if isRunningServerInstance {
        pidFile.Remove();
        isRunningServerInstance := false;
      }
    }

    method SetParentPid(parentPid: nat)
      modifies this`parentPid
      ensures this.parentPid == parentPid
    {
      this.parentPid := parentPid;
    }

    /** The start-up of cimserver: the number before any fork is recorded as the parent's, and in the
        locked section a process that finds no server running declares itself. */
    method StartUp(before: Pid, self: Pid, servers: set<Pid>, writable: bool) returns (started: bool)
      modifies this, pidFile
      ensures started <==> !SaysRunning(old(pidFile.content), self, before, servers)
      ensures servers <= {self, before} ==> started
      ensures old(pidFile.content).Some? && old(pidFile.content).value in servers - {self, before} ==> !started
      ensures pidFile.content == if !started then old(pidFile.content) else if writable then Some(self) else None
      ensures isRunningServerInstance == (started || old(isRunningServerInstance))
    {
      SetParentPid(before);
      var running := IsServerRunning(self, servers);
      if running {
        return false;
      }
      SetServerRunning(self, writable);
      started := true;
    }

    /** Kills the recorded server, if it is one and not the caller or its parent; the file
        goes in any case. */
    method Kill(self: Pid, servers: set<Pid>) returns (killed: bool, victim: nat)
      modifies pidFile
      ensures pidFile.content == None
      ensures killed <==> SaysRunning(old(pidFile.content), self, parentPid, servers)
      ensures killed ==> old(pidFile.content) == Some(victim) && victim in servers - {self, parentPid}
      ensures old(pidFile.content).Some? && old(pidFile.content).value in servers - {self, parentPid} ==> killed
    {
      var pid := pidFile.GetPid();
      victim := pid;
      if pid == 0 || pid == self || pid == parentPid || pid !in servers {
        pidFile.Remove();
        return false, pid;
      }
      pidFile.Remove();
      return true, pid;
    }
  }

  // ---------------------------------------------------------------- processes

  /** Where a process is: before the lock; holding it before and after the check; declared
      while still holding it; running; with its file removed but its flag still set; done. */
  datatype Phase = Fresh | Locked | Cleared | Starting | Running | Stopping | Finished

  /** `server`: the process name is that of the server program. */
  datatype Process = Process(pid: Pid, parent: nat, server: bool, phase: Phase)

  datatype State = State(procs: map<nat, Process>, file: Option<Pid>, lock: Option<nat>)

  const INIT := State(map[], None, None)

  function Servers(s: State): set<Pid> {
    set id | id in s.procs && s.procs[id].server :: s.procs[id].pid
  }

  /** _isRunningServerInstance, with the file not yet given back. */
  predicate Owns(p: Process) {
    p.phase == Starting || p.phase == Running
  }

  datatype Step =
    | Spawn(id: nat, pid: Pid, parent: nat, server: bool)
    | Lock(id: nat)
    | Check(id: nat)
    | Declare(id: nat, writable: bool)
    | Unlock(id: nat)
    | RemoveFile(id: nat)
    | ClearFlag(id: nat)
    | Die(id: nat)
    | KillServer(id: nat)      // by a process of any name: the server program with an option, or cimshutdown

  predicate Enabled(s: State, step: Step) {
    match step
    case Spawn(id, pid, _, _) => id !in s.procs && forall q :: q in s.procs ==> s.procs[q].pid != pid
    case Lock(id) => id in s.procs && s.procs[id].server && s.procs[id].phase == Fresh && s.lock == None
    case Check(id) => id in s.procs && s.procs[id].phase == Locked
    case Declare(id, _) => id in s.procs && s.procs[id].phase == Cleared
    case Unlock(id) => id in s.procs && s.procs[id].phase == Starting
    case RemoveFile(id) => id in s.procs && s.procs[id].phase == Running
    case ClearFlag(id) => id in s.procs && s.procs[id].phase == Stopping
    case Die(id) => id in s.procs
    case KillServer(id) => id in s.procs && s.procs[id].phase == Fresh
  }

  function SetPhase(s: State, id: nat, phase: Phase): State
    requires id in s.procs
  {
    s.(procs := s.procs[id := s.procs[id].(phase := phase)])
  }

  function Bury(s: State, gone: set<nat>): State {
    s.(procs := s.procs - gone, lock := if s.lock.Some? && s.lock.value in gone then None else s.lock)
  }

  predicate CheckStops(s: State, id: nat)
    requires id in s.procs
  {
    SaysRunning(s.file, s.procs[id].pid, s.procs[id].parent, Servers(s))
  }

  /** Another process has the server's name and the number in the file, and is not the recorded parent. */
  predicate IsOther(s: State, id: nat, q: nat) {
    && id in s.procs && q in s.procs && q != id && s.procs[q].server
    && s.file == Some(s.procs[q].pid) && s.procs[q].pid != s.procs[id].parent
  }

  /** The check stops a process exactly when there is such a process: in the file, alive, a server, and
      neither itself nor its recorded parent. */
  lemma StopsExactly(s: State, id: nat)
    requires DistinctPids(s) && id in s.procs
    ensures CheckStops(s, id) <==> exists q :: IsOther(s, id, q)
  {
    if CheckStops(s, id) {
      var q :| q in s.procs && s.procs[q].server && s.procs[q].pid == s.file.value;
      assert IsOther(s, id, q);
    }
    if q :| IsOther(s, id, q) {
      assert s.procs[q].pid in Servers(s);
    }
  }

  /** So with no other live server process every check passes, whatever number the file holds. */
  lemma AlonePasses(s: State, id: nat)
    requires DistinctPids(s) && id in s.procs && forall q :: q in s.procs && q != id ==> !s.procs[q].server
    ensures !CheckStops(s, id)
  {
    StopsExactly(s, id);
  }

  /** A kill takes away only a process with the server's name, and not the one that kills; and it takes
      the one in the file if it is such a process. */
  lemma KillTakesExactly(s: State, id: nat, q: nat)
    requires DistinctPids(s) && Enabled(s, KillServer(id)) && q in s.procs
    ensures q !in Take(s, KillServer(id)).procs <==> s.procs[q].server && q != id && s.file == Some(s.procs[q].pid)
    ensures Take(s, KillServer(id)).file == None
  {
    var pid := s.procs[id].pid;
    if SaysRunning(s.file, pid, 0, Servers(s)) {
      var p :| p in s.procs && s.procs[p].server && s.procs[p].pid == s.file.value;
      assert s.file == Some(s.procs[q].pid) ==> q == p;
    } else if s.procs[q].server {
      assert s.procs[q].pid in Servers(s);
    }
  }

  function Take(s: State, step: Step): State
    requires Enabled(s, step)
  {
    match step
    case Spawn(id, pid, parent, server) => s.(procs := s.procs[id := Process(pid, parent, server, Fresh)])
    case Lock(id) => SetPhase(s, id, Locked).(lock := Some(id))
    case Check(id) => if CheckStops(s, id) then SetPhase(s, id, Finished).(lock := None) else SetPhase(s, id, Cleared)
    case Declare(id, writable) => SetPhase(s, id, Starting).(file := if writable then Some(s.procs[id].pid) else None)
    case Unlock(id) => SetPhase(s, id, Running).(lock := None)
    case RemoveFile(id) => SetPhase(s, id, Stopping).(file := None)
    case ClearFlag(id) => SetPhase(s, id, Finished)
    case Die(id) => Bury(s, {id})
    case KillServer(id) =>
      var pid := s.procs[id].pid;
      if SaysRunning(s.file, pid, 0, Servers(s)) then
        Bury(s, set q | q in s.procs && Some(s.procs[q].pid) == s.file).(file := None)
      else s.(file := None)
  }

  predicate IsRun(s: State, steps: seq<Step>)
    decreases |steps|
  {
    steps != [] ==> Enabled(s, steps[0]) && IsRun(Take(s, steps[0]), steps[1..])
  }

  function After(s: State, steps: seq<Step>): State
    requires IsRun(s, steps)
    decreases |steps|
  {
    if steps == [] then s else After(Take(s, steps[0]), steps[1..])
  }

  // ---------------------------------------------------------------- safety

  /** Every instance that has declared itself owns the number in the file. */
  predicate OwnersOwnTheFile(s: State) {
    forall id :: id in s.procs && Owns(s.procs[id]) ==> s.file == Some(s.procs[id].pid)
  }

  predicate DistinctPids(s: State) {
    forall i, j :: i in s.procs && j in s.procs && s.procs[i].pid == s.procs[j].pid ==> i == j
  }

  predicate HoldsLock(p: Process) {
    p.phase == Locked || p.phase == Cleared || p.phase == Starting
  }

  predicate Mutex(s: State) {
    && (forall id :: id in s.procs && HoldsLock(s.procs[id]) ==> s.lock == Some(id))
    && (forall id :: id in s.procs && s.procs[id].phase != Fresh ==> s.procs[id].server)
  }

  /** Nobody else is an owner when a process has passed the check. */
  predicate ClearedIsAlone(s: State) {
    forall i, j :: i in s.procs && j in s.procs && s.procs[i].phase == Cleared && Owns(s.procs[j]) ==> i == j
  }

  predicate Inv(s: State) {
    DistinctPids(s) && Mutex(s) && ClearedIsAlone(s) && OwnersOwnTheFile(s)
  }

  /** The one branch of the check that lets a second instance through: the number in the file
      is that of the recorded parent, yet it now belongs to another, declared, server. */
  predicate ParentAlias(s: State, id: nat)
    requires id in s.procs
  {
    exists q :: q in s.procs && q != id && Owns(s.procs[q]) && s.procs[q].pid == s.procs[id].parent
  }

  /** The guard a start-up must meet; and the file can be written. */
  predicate Proper(s: State, step: Step) {
    match step
    case Check(id) => id in s.procs ==> !ParentAlias(s, id)
    case Declare(_, writable) => writable
    case _ => true
  }

  lemma CheckKeepsInv(s: State, id: nat)
    requires Inv(s) && Enabled(s, Check(id)) && !ParentAlias(s, id)
    ensures Inv(Take(s, Check(id)))
  {
    var t := Take(s, Check(id));
    if !CheckStops(s, id) {
      forall q | q in s.procs && Owns(s.procs[q]) ensures q == id {
        assert s.file == Some(s.procs[q].pid);
        assert s.procs[q].server && s.procs[q].pid in Servers(s);
      }
    }
  }

  lemma KillKeepsInv(s: State, id: nat)
    requires Inv(s) && Enabled(s, KillServer(id))
    ensures Inv(Take(s, KillServer(id)))
  {
    forall q | q in s.procs && Owns(s.procs[q])
      ensures q !in Take(s, KillServer(id)).procs
    {
      assert s.file == Some(s.procs[q].pid);
      assert s.procs[q].server && s.procs[q].pid in Servers(s);
      assert s.procs[q].pid != s.procs[id].pid;
    }
  }

  lemma DeclareKeepsInv(s: State, id: nat)
    requires Inv(s) && Enabled(s, Declare(id, true))
    ensures Inv(Take(s, Declare(id, true)))
  {
  }

  lemma StopKeepsInv(s: State, id: nat)
    requires Inv(s) && Enabled(s, RemoveFile(id))
    ensures Inv(Take(s, RemoveFile(id)))
  {
  }

  lemma StepKeepsInv(s: State, step: Step)
    requires Inv(s) && Enabled(s, step) && Proper(s, step)
    ensures Inv(Take(s, step))
  {
    match step {
      case Check(id) => CheckKeepsInv(s, id);
      case KillServer(id) => KillKeepsInv(s, id);
      case Declare(id, _) => DeclareKeepsInv(s, id);
      case RemoveFile(id) => StopKeepsInv(s, id);
      case _ =>
    }
  }

  predicate AllProper(s: State, steps: seq<Step>)
    requires IsRun(s, steps)
    decreases |steps|
  {
    steps != [] ==> Proper(s, steps[0]) && AllProper(Take(s, steps[0]), steps[1..])
  }

  lemma {:induction false} RunKeepsInv(s: State, steps: seq<Step>)
    requires Inv(s) && IsRun(s, steps) && AllProper(s, steps)
    ensures Inv(After(s, steps))
    decreases |steps|
  {
    if steps != [] {
      StepKeepsInv(s, steps[0]);
      RunKeepsInv(Take(s, steps[0]), steps[1..]);
    }
  }

  /** Over every run with crashes, kills and reused numbers: a declared instance owns the
      number in the file, so there are never two. */
  lemma AtMostOneInstance(steps: seq<Step>, i: nat, j: nat)
    requires IsRun(INIT, steps) && AllProper(INIT, steps)
    requires i in After(INIT, steps).procs && Owns(After(INIT, steps).procs[i])
    requires j in After(INIT, steps).procs && Owns(After(INIT, steps).procs[j])
    ensures i == j && After(INIT, steps).file == Some(After(INIT, steps).procs[i].pid)
  {
    RunKeepsInv(INIT, steps);
  }

  /** The guard is exact: a process that passes the check and declares itself leaves every owner
      with its number in the file if and only if the file can be written and no declared server has
      the number of its recorded parent. */
  lemma GuardIsExact(s: State, id: nat, writable: bool)
    requires Inv(s) && Enabled(s, Check(id)) && !CheckStops(s, id)
    ensures
      var t := Take(s, Check(id));
      Enabled(t, Declare(id, writable)) &&
      (OwnersOwnTheFile(Take(t, Declare(id, writable))) <==> writable && !ParentAlias(s, id))
  {
    var t := Take(s, Check(id));
    var u := Take(t, Declare(id, writable));
    assert id in u.procs && Owns(u.procs[id]);
    if ParentAlias(s, id) {
      var q :| q in s.procs && q != id && Owns(s.procs[q]) && s.procs[q].pid == s.procs[id].parent;
      assert q in u.procs && Owns(u.procs[q]) && u.procs[q].pid != u.procs[id].pid;
    } else if writable {
      CheckKeepsInv(s, id);
      DeclareKeepsInv(t, id);
    }
  }

  /** With privilege separation no process forks between recording the parent number and the
      check: the recorded number is its own, or 0 in a process that never gets that far. */
  predicate NoForks(s: State) {
    forall id :: id in s.procs ==> s.procs[id].parent == 0 || s.procs[id].parent == s.procs[id].pid
  }

  predicate SpawnsWithoutFork(steps: seq<Step>) {
    forall k :: 0 <= k < |steps| ==> (steps[k].Spawn? ==> steps[k].parent == 0 || steps[k].parent == steps[k].pid)
                                     && (steps[k].Declare? ==> steps[k].writable)
  }

  lemma {:induction false} PrivilegeSeparationIsProper(s: State, steps: seq<Step>)
    requires Inv(s) && NoForks(s) && IsRun(s, steps) && SpawnsWithoutFork(steps)
    ensures AllProper(s, steps)
    decreases |steps|
  {
    if steps != [] {
      assert steps[0].Spawn? ==> steps[0].parent == 0 || steps[0].parent == steps[0].pid;
      assert steps[0].Declare? ==> steps[0].writable;
      assert Proper(s, steps[0]);
      StepKeepsInv(s, steps[0]);
      assert forall k :: 0 <= k < |steps[1..]| ==> steps[1..][k] == steps[k + 1];
      PrivilegeSeparationIsProper(Take(s, steps[0]), steps[1..]);
    }
  }

  /** So with privilege separation, and a file that can be written, there is no condition. */
  lemma AtMostOneWithPrivilegeSeparation(steps: seq<Step>, i: nat, j: nat)
    requires IsRun(INIT, steps) && SpawnsWithoutFork(steps)
    requires i in After(INIT, steps).procs && Owns(After(INIT, steps).procs[i])
    requires j in After(INIT, steps).procs && Owns(After(INIT, steps).procs[j])
    ensures i == j && After(INIT, steps).file == Some(After(INIT, steps).procs[i].pid)
  {
    PrivilegeSeparationIsProper(INIT, steps);
    AtMostOneInstance(steps, i, j);
  }

  const A: Process := Process(7, 6, true, Running)
  const B: Process := Process(8, 7, true, Fresh)
  const A_STARTS: seq<Step> :=
    [Spawn(1, 8, 7, true), Spawn(0, 7, 6, true), Lock(0), Check(0), Declare(0, true), Unlock(0)]
  const B_STARTS: seq<Step> := [Lock(1), Check(1), Declare(1, true)]

  lemma FirstStarts()
    ensures IsRun(INIT, A_STARTS)
    ensures After(INIT, A_STARTS) == State(map[1 := B, 0 := A], Some(7), None)
  {
    var s1 := Take(INIT, A_STARTS[0]);
    var s2 := Take(s1, A_STARTS[1]);
    assert s2.procs == map[1 := B, 0 := A.(phase := Fresh)];
    var s4 := Take(Take(s2, Lock(0)), Check(0));
    assert s4.procs == map[1 := B, 0 := A.(phase := Cleared)];
    var s5 := Take(s4, Declare(0, true));
    assert s5.procs == map[1 := B, 0 := A.(phase := Starting)];
    var s6 := Take(s5, Unlock(0));
    assert s6.procs == map[1 := B, 0 := A];
    RunOne(s5, Unlock(0), []);
    RunTwo(Take(s2, Lock(0)), Check(0), Declare(0, true), [Unlock(0)]);
    RunOne(s2, Lock(0), [Check(0), Declare(0, true), Unlock(0)]);
    RunTwo(INIT, A_STARTS[0], A_STARTS[1], [Lock(0), Check(0), Declare(0, true), Unlock(0)]);
  }

  lemma SecondStarts(s: State)
    requires s == State(map[1 := B, 0 := A], Some(7), None)
    ensures IsRun(s, B_STARTS)
    ensures After(s, B_STARTS) == State(map[1 := B.(phase := Starting), 0 := A], Some(8), Some(1))
  {
    var s1 := Take(s, Lock(1));
    assert s1.procs == map[1 := B.(phase := Locked), 0 := A];
    assert !CheckStops(s1, 1);
    var s2 := Take(s1, Check(1));
    assert s2.procs == map[1 := B.(phase := Cleared), 0 := A];
    var s3 := Take(s2, Declare(1, true));
    assert s3.procs == map[1 := B.(phase := Starting), 0 := A];
    RunOne(s2, Declare(1, true), []);
    RunTwo(s, Lock(1), Check(1), [Declare(1, true)]);
  }

  /** Without it the guard can fail: B is forked by the process with number 7, which dies; 7 is
      given to a new server A, which starts; B then takes A for its own parent. */
  lemma ReusedParentNumber()
    ensures IsRun(INIT, A_STARTS + B_STARTS)
    ensures var s := After(INIT, A_STARTS + B_STARTS);
            0 in s.procs && 1 in s.procs && Owns(s.procs[0]) && Owns(s.procs[1])
  {
    FirstStarts();
    SecondStarts(After(INIT, A_STARTS));
    RunAppend(INIT, A_STARTS, B_STARTS);
  }

  const C: Process := Process(7, 0, true, Running)
  const D: Process := Process(8, 0, true, Fresh)
  const C_STARTS: seq<Step> :=
    [Spawn(1, 8, 0, true), Spawn(0, 7, 0, true), Lock(0), Check(0), Declare(0, false), Unlock(0)]

  lemma UnrecordedStarts()
    ensures IsRun(INIT, C_STARTS)
    ensures After(INIT, C_STARTS) == State(map[1 := D, 0 := C], None, None)
  {
    var s1 := Take(INIT, C_STARTS[0]);
    var s2 := Take(s1, C_STARTS[1]);
    assert s2.procs == map[1 := D, 0 := C.(phase := Fresh)];
    var s4 := Take(Take(s2, Lock(0)), Check(0));
    assert s4.procs == map[1 := D, 0 := C.(phase := Cleared)];
    var s5 := Take(s4, Declare(0, false));
    assert s5.procs == map[1 := D, 0 := C.(phase := Starting)];
    var s6 := Take(s5, Unlock(0));
    assert s6.procs == map[1 := D, 0 := C];
    RunOne(s5, Unlock(0), []);
    RunTwo(Take(s2, Lock(0)), Check(0), Declare(0, false), [Unlock(0)]);
    RunOne(s2, Lock(0), [Check(0), Declare(0, false), Unlock(0)]);
    RunTwo(INIT, C_STARTS[0], C_STARTS[1], [Lock(0), Check(0), Declare(0, false), Unlock(0)]);
  }

  lemma AnotherStarts(s: State)
    requires s == State(map[1 := D, 0 := C], None, None)
    ensures IsRun(s, B_STARTS)
    ensures After(s, B_STARTS) == State(map[1 := D.(phase := Starting), 0 := C], Some(8), Some(1))
  {
    var s1 := Take(s, Lock(1));
    assert s1.procs == map[1 := D.(phase := Locked), 0 := C];
    var s2 := Take(s1, Check(1));
    assert s2.procs == map[1 := D.(phase := Cleared), 0 := C];
    var s3 := Take(s2, Declare(1, true));
    assert s3.procs == map[1 := D.(phase := Starting), 0 := C];
    RunOne(s2, Declare(1, true), []);
    RunTwo(s, Lock(1), Check(1), [Declare(1, true)]);
  }

  /** Nor does it hold when the file cannot be written: a server C starts without recording its number,
      and a second one, D, finds no file. */
  lemma UnwritableFile()
    ensures IsRun(INIT, C_STARTS + B_STARTS)
    ensures var s := After(INIT, C_STARTS + B_STARTS);
            0 in s.procs && 1 in s.procs && Owns(s.procs[0]) && Owns(s.procs[1])
  {
    UnrecordedStarts();
    AnotherStarts(After(INIT, C_STARTS));
    RunAppend(INIT, C_STARTS, B_STARTS);
  }

  lemma {:induction false} RunAppend(s: State, a: seq<Step>, b: seq<Step>)
    requires IsRun(s, a) && IsRun(After(s, a), b)
    ensures IsRun(s, a + b) && After(s, a + b) == After(After(s, a), b)
    decreases |a|
  {
    if a == [] {
      assert a + b == b;
    } else {
      assert (a + b)[1..] == a[1..] + b;
      RunAppend(Take(s, a[0]), a[1..], b);
    }
  }

  lemma RunTwo(s: State, first: Step, second: Step, rest: seq<Step>)
    requires Enabled(s, first) && Enabled(Take(s, first), second) && IsRun(Take(Take(s, first), second), rest)
    ensures IsRun(s, [first, second] + rest)
    ensures After(s, [first, second] + rest) == After(Take(Take(s, first), second), rest)
  {
    RunOne(Take(s, first), second, rest);
    RunOne(s, first, [second] + rest);
    assert [first] + ([second] + rest) == [first, second] + rest;
  }

  lemma RunOne(s: State, step: Step, rest: seq<Step>)
    requires Enabled(s, step) && IsRun(Take(s, step), rest)
    ensures IsRun(s, [step] + rest) && After(s, [step] + rest) == After(Take(s, step), rest)
  {
    assert ([step] + rest)[1..] == rest;
  }
}
