/** The executor's request loop and its handlers (pegasus/src/Executor/Parent.c). */
module Parent {
  import opened Collections
  import opened CStrings
  import opened Macros
  import opened Expansion
  import opened Policies
  import opened Messages
  import opened Kernels
  import opened Sockets
  import opened LocalAuth
  import opened Service

  class Executor {
    const kernel: Kernel
    const sock: Socket
    const macros: MacroList
    const sequence: Sequence
    const authDir: string
    var initCompletePipe: int
    var bindVerbose: bool
    /** How many bytes have gone into the launcher's pipe. */
    var told: nat

    constructor (kernel: Kernel, sock: Socket, macros: MacroList, sequence: Sequence, authDir: string)
      ensures this.kernel == kernel && this.sock == sock && this.macros == macros
      ensures this.sequence == sequence && this.authDir == authDir
      ensures initCompletePipe == -1 && !bindVerbose && told == 0
    {
      this.kernel, this.sock, this.macros, this.sequence, this.authDir := kernel, sock, macros, sequence, authDir;
      initCompletePipe, bindVerbose, told := -1, false, 0;
    }

    ghost predicate Valid()
      reads this, macros, macros.spine, sequence
    {
      macros.Valid() && sequence.next < SEQ_MODULUS && NulFree(authDir)
    }

    /** What requests change, as one value. */
    ghost function Now(): World
      reads this, kernel, sequence
    {
      World(kernel.fds, initCompletePipe, AuthState(kernel.files, sequence.next), kernel.nextPipe, told)
    }

    ghost function Fixed(): Setting
      requires macros.Valid()
      reads this, macros, macros.spine
    {
      Setting(macros.Map(), Place(authDir, kernel.resolve), bindVerbose)
    }

    /** What a way out means for the schedule: a part that comes back, or is still waiting, has
        moved a byte for each readiness; waiting means the schedule is used up, and Exit(0) that a
        termination signal was caught. */
    twostate predicate Spends(end: End)
      reads sock
    {
      && old(sock.at) <= sock.at
      && (end == Back || end == StillWaiting ==> old(sock.Balance()) <= sock.Balance())
      && (end == StillWaiting ==> sock.at >= |sock.events|)
      && (end == ExitZero ==> sock.signalled)
      && (sock.signalled ==> old(sock.signalled) || !QuietFrom(sock.events, old(sock.at)))
    }

    /** Fatal unless the whole structure arrives. */
    method ReadExecutorRequest(size: nat) returns (end: End, body: seq<Byte>)
      requires size > 0
      modifies sock`incoming, sock`at, sock`signalled
      ensures end == Back ==>
                size <= |old(sock.incoming)| && body == old(sock.incoming)[..size]
                && sock.incoming == old(sock.incoming)[size..]
      ensures end.Fatal? ==> end.cause == BadBody
                             && (SoundFrom(sock.events, old(sock.at)) ==> |old(sock.incoming)| < size)
      ensures Spends(end)
    {
      TransferMeaning(sock.events, sock.at, sock.signalled, |sock.incoming|, size);
      var buffer := new Byte[size];
      var n, halt := sock.RecvNonBlock(buffer, size);
      if halt != Running {
        return if halt == Exited then ExitZero else StillWaiting, [];
      }
      if n != size {
        return Fatal(BadBody), [];
      }
      return Back, buffer[..size];
    }

    /** Fatal unless the whole response goes out. */
    method WriteExecutorResponse(reply: seq<Byte>) returns (end: End, ghost sent: nat)
      modifies sock`outgoing, sock`at, sock`signalled
      ensures sent <= |reply| && sock.outgoing == old(sock.outgoing) + AsItems(reply[..sent])
      ensures end == Back ==> sent == |reply|
      ensures end.Fatal? ==> end.cause == WriteFailed && !SoundFrom(sock.events, old(sock.at))
      ensures Spends(end)
    {
      ghost var t := Transferring(sock.events, sock.at, sock.signalled, |reply|, |reply|);
      TransferMeaning(sock.events, sock.at, sock.signalled, |reply|, |reply|);
      BytesSent(sock.outgoing, reply[..t.moved]);
      sent := t.moved;
      var n, halt := sock.SendNonBlock(reply);
      if halt != Running {
        return if halt == Exited then ExitZero else StillWaiting, sent;
      }
      if n != |reply| {
        return Fatal(WriteFailed), sent;
      }
      return Back, sent;
    }

    /** What every handler does with its part of the stream and of the wire. `e` is the
        exchange the handler is working on and `sent` how much of its reply is out. */
    twostate predicate Handled(c: MessageCode, end: End, e: Exchange, sent: nat)
      requires macros.Valid()
      reads this, sock, macros, macros.spine
    {
      && Spends(end)
      && (sent > 0 || end == Back ==>
            IsNext(c, old(sock.incoming), e) && sock.incoming == old(sock.incoming)[BodySize(c)..])
      && (end == Back ==> Servable(macros.Map(), e.request) && sock.outgoing == old(sock.outgoing) + ItemsOf(e))
      && (end != Back ==> sent <= |e.reply| && sock.outgoing == old(sock.outgoing) + AsItems(e.reply[..sent]))
      && (sent > 0 ==> |e.reply| == ResponseSize(c))
      && (end.Fatal? ==>
            || (end.cause == BadBody && (SoundFrom(sock.events, old(sock.at)) ==> |old(sock.incoming)| < BodySize(c)))
            || (end.cause == WriteFailed && !SoundFrom(sock.events, old(sock.at)))
            || (end.cause == NoAgentProgram && IsNext(c, old(sock.incoming), e)
                && sent == 0 && !Servable(macros.Map(), e.request)))
    }

    /** What the part after the reading of the body does. */
    twostate predicate Answered(c: MessageCode, body: seq<Byte>, end: End, e: Exchange, sent: nat, a: Answers)
      requires macros.Valid()
      reads this, macros, macros.spine, kernel, sequence, sock
    {
      && Spends(end)
      && e.request == Request(c, body) && WellFormed(e.request) && (sent > 0 ==> |e.reply| == ResponseSize(c))
      && (end == Back ==>
            Servable(macros.Map(), e.request) && Serves(e, a) && sock.outgoing == old(sock.outgoing) + ItemsOf(e))
      && (end != Back ==> sent <= |e.reply| && sock.outgoing == old(sock.outgoing) + AsItems(e.reply[..sent]))
      && (end.Fatal? ==>
            || (end.cause == WriteFailed && !SoundFrom(sock.events, old(sock.at)))
            || (end.cause == NoAgentProgram && sent == 0 && !Servable(macros.Map(), e.request)))
    }

    /** The exchange made and the state left are those of the service. */
    twostate predicate Serves(e: Exchange, a: Answers)
      requires macros.Valid() && WellFormed(e.request)
      reads this, macros, macros.spine, kernel, sequence
    {
      e == Reply(Fixed(), old(Now()), e.request, a) && Now() == Service.Next(Fixed(), old(Now()), e.request, a)
    }

    static ghost predicate IsNext(c: MessageCode, incoming: seq<Byte>, e: Exchange) {
      BodySize(c) <= |incoming| && e.request == Request(c, incoming[..BodySize(c)])
    }

    /** The common last step of most handlers: a reply without a descriptor message. */
    method Respond(c: MessageCode, body: seq<Byte>, status: int, reply: seq<Byte>)
      returns (end: End, ghost e: Exchange, ghost sent: nat)
      requires |reply| == ResponseSize(c) && |body| == BodySize(c)
      modifies sock`outgoing, sock`at, sock`signalled
      ensures e == Exchange(Request(c, body), status, reply, false, None)
      ensures Spends(end)
      ensures end == Back ==> sock.outgoing == old(sock.outgoing) + ItemsOf(e)
      ensures end != Back ==> sent <= |reply| && sock.outgoing == old(sock.outgoing) + AsItems(reply[..sent])
      ensures end.Fatal? ==> end.cause == WriteFailed && !SoundFrom(sock.events, old(sock.at))
    {
      e := Exchange(Request(c, body), status, reply, false, None);
      end, sent := WriteExecutorResponse(reply);
      assert reply[..|reply|] == reply;
      assert AsItems(reply) + [] == AsItems(reply);
    }

    method HandlePingRequest(a: Answers) returns (end: End, ghost e: Exchange, ghost sent: nat)
      requires Valid()
      modifies sock
      ensures Handled(Ping, end, e, sent)
      ensures end == Back ==> Serves(e, a)
    {
      end, e, sent := Respond(Ping, [], 0, Uint32(PING_MAGIC));
    }

    ghost function Unread(c: MessageCode): Exchange {
      Exchange(Request(c, []), 0, [], false, None)
    }

    /** The open calls of HandleOpenFileRequest; fd is -1 unless status is 0. */
    method OpenAsAsked(path: string, mode: int, a: Answers) returns (status: int, fd: int)
      requires Valid() && -1 !in kernel.fds
      modifies kernel`fds, kernel`files
      ensures status == if Opens(Fixed(), old(kernel.files), path, mode, a) then 0 else -1
      ensures kernel.files == OpenedFiles(Fixed(), old(kernel.files), path, mode, a)
      ensures status == 0 ==>
                fd !in old(kernel.fds) && kernel.fds == old(kernel.fds)[fd := Regular(kernel.resolve(path))]
      ensures status != 0 ==> kernel.fds == old(kernel.fds)
    {
      var rc, permissions := CheckOpenFilePolicy(macros, path, mode);
      if rc != 0 {
        return -1, -1;
      }
      status, fd := OpenPermitted(path, mode, a);
    }

    method OpenPermitted(path: string, mode: int, a: Answers) returns (status: int, fd: int)
      requires -1 !in kernel.fds
      modifies kernel`fds, kernel`files
      ensures status == if OpensPermitted(old(kernel.files), kernel.resolve(path), mode, a) then 0 else -1
      ensures kernel.files == PermittedFiles(old(kernel.files), kernel.resolve(path), mode, a)
      ensures status == 0 ==>
                fd !in old(kernel.fds) && kernel.fds == old(kernel.fds)[fd := Regular(kernel.resolve(path))]
      ensures status != 0 ==> kernel.fds == old(kernel.fds)
    {
      status, fd := 0, -1;
      if mode == MODE_R {
        fd := kernel.Open(path, OpenFlags(false, false, false), a.open);
      } else if mode == MODE_W {
        fd := kernel.Open(path, OpenFlags(false, false, true), a.open);
      } else if mode == MODE_A {
        fd := kernel.Open(path, OpenFlags(false, false, false), a.open);
      }
      if fd == -1 {
        if kernel.resolve(path) !in kernel.files && (mode == MODE_W || mode == MODE_A) {
          fd := kernel.Open(path, OpenFlags(true, false, false), a.create);
          if fd == -1 || !a.fchmod {
            status := -1;
            var _ := kernel.Close(fd);
            assert kernel.fds == old(kernel.fds);
          }
        } else {
          status := -1;
        }
      }
    }

    /** What follows the reading of an open request. */
    method AnswerOpen(body: seq<Byte>, a: Answers) returns (end: End, ghost e: Exchange, ghost sent: nat)
      requires Valid() && -1 !in kernel.fds && |body| == BodySize(OpenFile)
      modifies sock`outgoing, sock`at, sock`signalled, kernel`fds, kernel`files
      ensures Answered(OpenFile, body, end, e, sent, a)
    {
      var path, mode := Field(body, 0), ModeOf(body);
      var status, fd := OpenAsAsked(path, mode, a);
      end, e, sent := RespondAndPass(OpenFile, body, status, Int32(status), [fd],
                                     [Regular(kernel.resolve(path))], a.sendmsg);
      if end == Back && status == 0 {
        var _ := kernel.Close(fd);
        assert kernel.fds == old(kernel.fds);
      }
    }

    method HandleOpenFileRequest(a: Answers) returns (end: End, ghost e: Exchange, ghost sent: nat)
      requires Valid() && -1 !in kernel.fds
      modifies sock, kernel`fds, kernel`files
      ensures Handled(OpenFile, end, e, sent)
      ensures end == Back ==> Serves(e, a)
    {
      var body;
      end, body := ReadExecutorRequest(BodySize(OpenFile));
      e, sent := Unread(OpenFile), 0;
      if end != Back {
        return;
      }
      end, e, sent := AnswerOpen(body, a);
    }

    /** The last step of the two handlers with descriptors: the reply, and after it, when the
        status is 0, one message with all the descriptors. */
    method RespondAndPass(c: MessageCode, body: seq<Byte>, status: int, reply: seq<Byte>,
                          descriptors: seq<int>, ghost resources: seq<Resource>, sendmsg: bool)
      returns (end: End, ghost e: Exchange, ghost sent: nat)
      requires |reply| == ResponseSize(c) && |body| == BodySize(c)
      requires status == 0 ==> (forall i :: 0 <= i < |descriptors| ==> descriptors[i] in kernel.fds)
                               && Passed(kernel.fds, descriptors) == resources
      modifies sock`outgoing, sock`at, sock`signalled
      ensures e == Exchange(Request(c, body), status, reply, sendmsg,
                            if end == Back && status == 0 && sendmsg then Some(resources) else None)
      ensures Spends(end)
      ensures end == Back ==> sock.outgoing == old(sock.outgoing) + ItemsOf(e)
      ensures end != Back ==> sent <= |reply| && sock.outgoing == old(sock.outgoing) + AsItems(reply[..sent])
      ensures end.Fatal? ==> end.cause == WriteFailed && !SoundFrom(sock.events, old(sock.at))
    {
      end, e, sent := Respond(c, body, status, reply);
      ghost var replied := sock.outgoing;
      e := e.(delivered := sendmsg);
      if end == Back && status == 0 {
        var _ := sock.SendDescriptorArray(kernel, descriptors, sendmsg);
        BytesAppend(replied, if sendmsg then [Rights(resources)] else []);
        e := e.(passed := if sendmsg then Some(resources) else None);
      }
    }

    /** The pipes and the fork: on success this process keeps the two ends it will pass on. */
    method ForkAgent(a: Answers) returns (status: int, pid: int, fromAgent: int, toAgent: int)
      requires ValidAnswers(a)
      modifies kernel`fds, kernel`nextPipe
      ensures status == if a.pipe1 && a.pipe2 && a.pid > 0 then 0 else -1
      ensures status == 0 ==> pid == a.pid
      ensures kernel.nextPipe == old(kernel.nextPipe) + if a.pipe1 then if a.pipe2 then 2 else 1 else 0
      ensures status != 0 ==> kernel.fds == old(kernel.fds) && pid == -1
      ensures status == 0 ==>
                && fromAgent !in old(kernel.fds) && toAgent !in old(kernel.fds) && fromAgent != toAgent
                && kernel.fds == old(kernel.fds)[toAgent := PipeEnd(old(kernel.nextPipe), true)]
                                                [fromAgent := PipeEnd(old(kernel.nextPipe) + 1, false)]
    {
      fromAgent, toAgent := -1, -1;
      pid := -1;
      var rc, to0, to1 := kernel.Pipe(a.pipe1);
      if rc != 0 {
        return -1, -1, -1, -1;
      }
      var rc2, from0, from1 := kernel.Pipe(a.pipe2);
      if rc2 != 0 {
        var _ := kernel.Close(to0);
        var _ := kernel.Close(to1);
        assert kernel.fds == old(kernel.fds);
        return -1, -1, -1, -1;
      }
      pid := a.pid;
      if pid < 0 {
        var _ := kernel.Close(to0);
        var _ := kernel.Close(to1);
        var _ := kernel.Close(from0);
        var _ := kernel.Close(from1);
        assert kernel.fds == old(kernel.fds);
        return -1, -1, -1, -1;
      }
      var _ := kernel.Close(to0);
      var _ := kernel.Close(from1);
      return 0, pid, from0, to1;
    }

    /** The forked agent before its exec: without the other ends of the pipes, 0, 1 and 2 on /dev/null
        if it is to be so, and then without whatever the sweep reaches. */
    method PrepareAgent(to0: int, to1: int, from0: int, from1: int, calls: NullOpens, softLimit: int)
      modifies kernel`fds
      ensures kernel.fds == AgentTable(old(kernel.fds) - {to1, from0}, initCompletePipe != -1 && !bindVerbose,
                                       calls, softLimit, to0, from1)
    {
      var _ := kernel.Close(to1);
      var _ := kernel.Close(from0);
      assert kernel.fds == old(kernel.fds) - {to1, from0};
      if initCompletePipe != -1 && !bindVerbose {
        kernel.RedirectTerminalIO(calls);
      }
      kernel.CloseUnusedDescriptors(to0, from1, softLimit);
    }

    /** The same requests of the system in the child: whatever the limit, between 3 and it an agent
        inherits nothing but its own two pipe ends, and below and above it what the executor had open
        there; an end among 0, 1, 2 is lost to the redirection. */
    method RunAsAgent(a: Answers, softLimit: int) returns (toAgent: int, fromAgent: int)
      requires a.pipe1 && a.pipe2 && (forall fd :: fd in kernel.fds ==> fd >= 0)
      modifies kernel`fds, kernel`nextPipe
      ensures toAgent !in old(kernel.fds) && fromAgent !in old(kernel.fds) && toAgent != fromAgent
      ensures forall fd :: 3 <= fd < softLimit ==> (fd in kernel.fds <==> fd == toAgent || fd == fromAgent)
      ensures forall fd :: fd >= 3 && fd >= softLimit && fd in old(kernel.fds) ==>
                             fd in kernel.fds && kernel.fds[fd] == old(kernel.fds)[fd]
      ensures forall fd :: fd in kernel.fds && fd !in STDIO ==>
                             fd == toAgent || fd == fromAgent || (fd >= softLimit && fd in old(kernel.fds))
      ensures toAgent !in STDIO ==> toAgent in kernel.fds && kernel.fds[toAgent] == AgentReads(old(kernel.nextPipe))
      ensures fromAgent !in STDIO ==>
                fromAgent in kernel.fds && kernel.fds[fromAgent] == AgentWrites(old(kernel.nextPipe))
    {
      var rc, to0, to1 := kernel.Pipe(a.pipe1);
      var rc2, from0, from1 := kernel.Pipe(a.pipe2);
      ghost var base := kernel.fds - {to1, from0};
      assert base[to0] == AgentReads(old(kernel.nextPipe))
             && base[from1] == AgentWrites(old(kernel.nextPipe));
      PrepareAgent(to0, to1, from0, from1, a.devNull, softLimit);
      toAgent, fromAgent := to0, from1;
    }

    method StartAgent(body: seq<Byte>, a: Answers)
      returns (end: End, status: int, pid: int, fromAgent: int, toAgent: int)
      requires Valid() && ValidAnswers(a) && |body| == BodySize(StartProviderAgent)
      modifies kernel`fds, kernel`nextPipe
      ensures end == Back || end == Fatal(NoAgentProgram)
      ensures end == Back <==> !LacksProgram(macros.Map(), BitnessOf(body))
      ensures end == Back ==>
                && status == StatusOf(AgentStarts(body, a)) && pid == (if status == 0 then a.pid else -1)
                && kernel.nextPipe == old(kernel.nextPipe) + PipesMade(body, a)
      ensures end != Back || status != 0 ==> kernel.fds == old(kernel.fds)
      ensures end == Back && status == 0 ==>
                && fromAgent !in old(kernel.fds) && toAgent !in old(kernel.fds) && fromAgent != toAgent
                && kernel.fds == old(kernel.fds)[toAgent := PipeEnd(old(kernel.nextPipe), true)]
                                                [fromAgent := PipeEnd(old(kernel.nextPipe) + 1, false)]
    {
      end, status, pid, fromAgent, toAgent := Back, -1, -1, -1, -1;
      var bitness := BitnessOf(body);
      if bitness == BITNESS_DEFAULT || bitness == BITNESS_32 {
        var path := macros.FindMacro(if bitness == BITNESS_DEFAULT then "cimprovagtPath" else "cimprovagt32Path");
        if path.None? {
          end := Fatal(NoAgentProgram);
        } else if a.knows(AgentUserOf(body)) {
          status, pid, fromAgent, toAgent := ForkAgent(a);
        }
      }
    }

    /** What follows the reading of an agent request. */
    method AnswerAgent(body: seq<Byte>, a: Answers) returns (end: End, ghost e: Exchange, ghost sent: nat)
      requires Valid() && ValidAnswers(a) && |body| == BodySize(StartProviderAgent)
      modifies sock`outgoing, sock`at, sock`signalled, kernel`fds, kernel`nextPipe
      ensures Answered(StartProviderAgent, body, end, e, sent, a)
    {
      e, sent := Unread(StartProviderAgent).(request := Request(StartProviderAgent, body)), 0;
      var status, pid, from0, to1;
      end, status, pid, from0, to1 := StartAgent(body, a);
      if end != Back {
        assert old(sock.outgoing) + AsItems([]) == old(sock.outgoing);
        return;
      }
      end, e, sent := RespondAndPass(StartProviderAgent, body, status, Int32(status) + Int32(pid), [from0, to1],
                                     AgentResources(old(kernel.nextPipe)), a.sendmsg);
      if end == Back && status == 0 {
        var _ := kernel.Close(from0);
        var _ := kernel.Close(to1);
        ClosedAgain(old(kernel.fds), to1, PipeEnd(old(kernel.nextPipe), true),
                    from0, PipeEnd(old(kernel.nextPipe) + 1, false));
      }
    }

    method HandleStartProviderAgentRequest(a: Answers) returns (end: End, ghost e: Exchange, ghost sent: nat)
      requires Valid() && ValidAnswers(a)
      modifies sock, kernel`fds, kernel`nextPipe
      ensures Handled(StartProviderAgent, end, e, sent)
      ensures end == Back ==> Serves(e, a)
    {
      var body;
      end, body := ReadExecutorRequest(BodySize(StartProviderAgent));
      e, sent := Unread(StartProviderAgent), 0;
      if end != Back {
        return;
      }
      end, e, sent := AnswerAgent(body, a);
    }

    /** One zero byte into the pipe, which is then closed (Parent.c:485-492). */
    method TellLauncher(a: Answers)
      requires initCompletePipe != -1
      modifies kernel`fds, this`initCompletePipe, this`told
      ensures kernel.fds == old(kernel.fds) - {old(initCompletePipe)} && initCompletePipe == -1
      ensures told == old(told) + if a.pipeWrite && IsWriteEnd(old(kernel.fds), old(initCompletePipe)) then 1 else 0
    {
      if a.pipeWrite && IsWriteEnd(kernel.fds, initCompletePipe) {
        told := told + 1;
      }
      var _ := kernel.Close(initCompletePipe);
      initCompletePipe := -1;
    }

    /** What daemonizing does before it answers. */
    method Daemonize(a: Answers)
      requires Valid()
      modifies kernel`fds, this`initCompletePipe, this`told
      ensures kernel.fds == DaemonDescriptors(old(kernel.fds), bindVerbose, a.devNull, old(initCompletePipe))
      ensures initCompletePipe == -1
      ensures told == old(told) + if TellsLauncher(Fixed(), old(Now()), a) then 1 else 0
    {
      if !bindVerbose {
        kernel.RedirectTerminalIO(a.devNull);
      }
      if initCompletePipe != -1 {
        TellLauncher(a);
      }
    }

    method HandleDaemonizeExecutorRequest(a: Answers) returns (end: End, ghost e: Exchange, ghost sent: nat)
      requires Valid()
      modifies sock, kernel`fds, this`initCompletePipe, this`told
      ensures Handled(DaemonizeExecutor, end, e, sent)
      ensures kernel.fds == DaemonDescriptors(old(kernel.fds), bindVerbose, a.devNull, old(initCompletePipe))
      ensures initCompletePipe == -1
      ensures told == old(told) + if TellsLauncher(Fixed(), old(Now()), a) then 1 else 0
      ensures end == Back ==> Serves(e, a)
    {
      Daemonize(a);
      end, e, sent := Respond(DaemonizeExecutor, [], 0, Int32(0));
    }

    method RenameAsAsked(oldPath: string, newPath: string, a: Answers) returns (status: int)
      requires Valid()
      modifies kernel`files
      ensures status == StatusOf(Renames(Fixed(), old(kernel.files), oldPath, newPath, a))
      ensures kernel.files == Renamed(old(kernel.files), status == 0, kernel.resolve(oldPath), kernel.resolve(newPath))
    {
      status := CheckRenameFilePolicy(macros, oldPath, newPath);
      if status == 0 {
        status := kernel.Rename(oldPath, newPath, a.rename);
      }
    }

    /** What follows the reading of a rename request. */
    method AnswerRename(body: seq<Byte>, a: Answers) returns (end: End, ghost e: Exchange, ghost sent: nat)
      requires Valid() && |body| == BodySize(RenameFile)
      modifies sock`outgoing, sock`at, sock`signalled, kernel`files
      ensures Answered(RenameFile, body, end, e, sent, a)
    {
      var status := RenameAsAsked(Field(body, 0), Field(body, BUFFER_SIZE), a);
      end, e, sent := Respond(RenameFile, body, status, Int32(status));
    }

    method HandleRenameFileRequest(a: Answers) returns (end: End, ghost e: Exchange, ghost sent: nat)
      requires Valid()
      modifies sock, kernel`files
      ensures Handled(RenameFile, end, e, sent)
      ensures end == Back ==> Serves(e, a)
    {
      var body;
      end, body := ReadExecutorRequest(BodySize(RenameFile));
      e, sent := Unread(RenameFile), 0;
      if end != Back {
        return;
      }
      end, e, sent := AnswerRename(body, a);
    }

    method RemoveAsAsked(path: string, a: Answers) returns (status: int)
      requires Valid()
      modifies kernel`files
      ensures status == StatusOf(Removes(Fixed(), old(kernel.files), path, a))
      ensures kernel.files == if status == 0 then old(kernel.files) - {kernel.resolve(path)} else old(kernel.files)
    {
      status := CheckRemoveFilePolicy(macros, path);
      if status == 0 {
        status := kernel.Unlink(path, a.unlink);
      }
    }

    /** What follows the reading of a remove request. */
    method AnswerRemove(body: seq<Byte>, a: Answers) returns (end: End, ghost e: Exchange, ghost sent: nat)
      requires Valid() && |body| == BodySize(RemoveFile)
      modifies sock`outgoing, sock`at, sock`signalled, kernel`files
      ensures Answered(RemoveFile, body, end, e, sent, a)
    {
      var status := RemoveAsAsked(Field(body, 0), a);
      end, e, sent := Respond(RemoveFile, body, status, Int32(status));
    }

    method HandleRemoveFileRequest(a: Answers) returns (end: End, ghost e: Exchange, ghost sent: nat)
      requires Valid()
      modifies sock, kernel`files
      ensures Handled(RemoveFile, end, e, sent)
      ensures end == Back ==> Serves(e, a)
    {
      var body;
      end, body := ReadExecutorRequest(BodySize(RemoveFile));
      e, sent := Unread(RemoveFile), 0;
      if end != Back {
        return;
      }
      end, e, sent := AnswerRemove(body, a);
    }

    /** The branch without PAM: the user must exist and the password file vouch for it. */
    method AnswerPassword(body: seq<Byte>, a: Answers) returns (end: End, ghost e: Exchange, ghost sent: nat)
      requires Valid() && |body| == BodySize(AuthenticatePassword)
      modifies sock`outgoing, sock`at, sock`signalled
      ensures Answered(AuthenticatePassword, body, end, e, sent, a)
    {
      var status := 0;
      if !a.knows(Field(body, 0)) {
        status := -1;
      } else {
        var path := macros.FindMacro(PASSWORD);
        if path.None? || !a.vouches(path.value, Field(body, 0), Some(Field(body, BUFFER_SIZE))) {
          status := -1;
        }
      }
      end, e, sent := Respond(AuthenticatePassword, body, status, Int32(status));
    }

    method HandleAuthenticatePasswordRequest(a: Answers) returns (end: End, ghost e: Exchange, ghost sent: nat)
      requires Valid()
      modifies sock
      ensures Handled(AuthenticatePassword, end, e, sent)
      ensures end == Back ==> Serves(e, a)
    {
      var body;
      end, body := ReadExecutorRequest(BodySize(AuthenticatePassword));
      e, sent := Unread(AuthenticatePassword), 0;
      if end != Back {
        return;
      }
      end, e, sent := AnswerPassword(body, a);
    }

    /** The branch without PAM. */
    method AnswerValidation(body: seq<Byte>, a: Answers) returns (end: End, ghost e: Exchange, ghost sent: nat)
      requires Valid() && |body| == BodySize(ValidateUser)
      modifies sock`outgoing, sock`at, sock`signalled
      ensures Answered(ValidateUser, body, end, e, sent, a)
    {
      var status := 0;
      var path := macros.FindMacro(PASSWORD);
      if path.None? || !a.vouches(path.value, Field(body, 0), None) {
        status := -1;
      }
      end, e, sent := Respond(ValidateUser, body, status, Int32(status));
    }

    method HandleValidateUserRequest(a: Answers) returns (end: End, ghost e: Exchange, ghost sent: nat)
      requires Valid()
      modifies sock
      ensures Handled(ValidateUser, end, e, sent)
      ensures end == Back ==> Serves(e, a)
    {
      var body;
      end, body := ReadExecutorRequest(BodySize(ValidateUser));
      e, sent := Unread(ValidateUser), 0;
      if end != Back {
        return;
      }
      end, e, sent := AnswerValidation(body, a);
    }

    /** What follows the reading of a challenge request. */
    method AnswerChallenge(body: seq<Byte>, a: Answers) returns (end: End, ghost e: Exchange, ghost sent: nat)
      requires Valid() && ValidAnswers(a) && |body| == BodySize(ChallengeLocal)
      modifies sock`outgoing, sock`at, sock`signalled, kernel`fds, kernel`files, sequence
      ensures Answered(ChallengeLocal, body, end, e, sent, a)
      ensures kernel.fds == old(kernel.fds) && sequence.next < SEQ_MODULUS
    {
      var challenge := new char[EXECUTOR_BUFFER_SIZE];
      var status := StartLocalAuthentication(kernel, sequence, authDir, Field(body, 0), a.knows(Field(body, 0)), a.msec,
                                             a.random, a.creation, challenge);
      var path := if status == 0 then StrOf(challenge[..]) else "";
      end, e, sent := Respond(ChallengeLocal, body, status, Int32(status) + Padded(path));
    }

    method HandleChallengeLocalRequest(a: Answers) returns (end: End, ghost e: Exchange, ghost sent: nat)
      requires Valid() && ValidAnswers(a)
      modifies sock, kernel`fds, kernel`files, sequence
      ensures Handled(ChallengeLocal, end, e, sent)
      ensures kernel.fds == old(kernel.fds) && sequence.next < SEQ_MODULUS
      ensures end == Back ==> Serves(e, a)
    {
      var body;
      end, body := ReadExecutorRequest(BodySize(ChallengeLocal));
      e, sent := Unread(ChallengeLocal), 0;
      if end != Back {
        return;
      }
      end, e, sent := AnswerChallenge(body, a);
    }

    /** What follows the reading of an authentication request. */
    method AnswerAuthentication(body: seq<Byte>, a: Answers) returns (end: End, ghost e: Exchange, ghost sent: nat)
      requires Valid() && |body| == BodySize(AuthenticateLocal)
      modifies sock`outgoing, sock`at, sock`signalled, kernel`fds, kernel`files
      ensures Answered(AuthenticateLocal, body, end, e, sent, a)
      ensures kernel.fds == old(kernel.fds)
    {
      var status := FinishLocalAuthentication(kernel, Field(body, 0), Field(body, BUFFER_SIZE), a.check);
      end, e, sent := Respond(AuthenticateLocal, body, status, Int32(status));
    }

    method HandleAuthenticateLocalRequest(a: Answers) returns (end: End, ghost e: Exchange, ghost sent: nat)
      requires Valid()
      modifies sock, kernel`fds, kernel`files
      ensures Handled(AuthenticateLocal, end, e, sent)
      ensures kernel.fds == old(kernel.fds)
      ensures end == Back ==> Serves(e, a)
    {
      var body;
      end, body := ReadExecutorRequest(BodySize(AuthenticateLocal));
      e, sent := Unread(AuthenticateLocal), 0;
      if end != Back {
        return;
      }
      end, e, sent := AnswerAuthentication(body, a);
    }

    method HandleUpdateLogLevelRequest(a: Answers) returns (end: End, ghost e: Exchange, ghost sent: nat)
      requires Valid()
      modifies sock
      ensures Handled(UpdateLogLevel, end, e, sent)
      ensures end == Back ==> Serves(e, a)
    {
      var body;
      end, body := ReadExecutorRequest(BodySize(UpdateLogLevel));
      e, sent := Unread(UpdateLogLevel), 0;
      if end != Back {
        return;
      }
      var status := if a.takesLevel(Field(body, 0)) then 0 else -1;
      end, e, sent := Respond(UpdateLogLevel, body, status, Int32(status));
    }

    /** Every handler, with what it leaves of the descriptors. */
    method Dispatch(c: MessageCode, a: Answers) returns (end: End, ghost e: Exchange, ghost sent: nat)
      requires Valid() && ValidAnswers(a) && -1 !in kernel.fds
      modifies sock, kernel, sequence, this`initCompletePipe, this`told
      ensures Handled(c, end, e, sent) && sequence.next < SEQ_MODULUS
      ensures end == Back ==> Serves(e, a)
      ensures told == old(told) + if c == DaemonizeExecutor && TellsLauncher(Fixed(), old(Now()), a) then 1 else 0
    {
      match c {
        case Ping => end, e, sent := HandlePingRequest(a);
        case OpenFile => end, e, sent := HandleOpenFileRequest(a);
        case StartProviderAgent => end, e, sent := HandleStartProviderAgentRequest(a);
        case DaemonizeExecutor => end, e, sent := HandleDaemonizeExecutorRequest(a);
        case RenameFile => end, e, sent := HandleRenameFileRequest(a);
        case RemoveFile => end, e, sent := HandleRemoveFileRequest(a);
        case AuthenticatePassword => end, e, sent := HandleAuthenticatePasswordRequest(a);
        case ValidateUser => end, e, sent := HandleValidateUserRequest(a);
        case ChallengeLocal => end, e, sent := HandleChallengeLocalRequest(a);
        case AuthenticateLocal => end, e, sent := HandleAuthenticateLocalRequest(a);
        case UpdateLogLevel => end, e, sent := HandleUpdateLogLevelRequest(a);
      }
    }

    /** At the top of the loop: whole requests were read, the state is what they leave, and
        exactly their replies were sent. */
    static ghost predicate AtTop(s: Setting, start: World, world: nat -> Answers, stream: seq<Byte>, out0: seq<Item>,
                                 rs: seq<Request>, rest: seq<Byte>, out: seq<Item>, now: World) {
      && AllWellFormed(rs) && AllServable(s.macros, rs)
      && stream == EncodeAll(rs) + rest
      && out == out0 + Transcript(Replies(s, start, world, rs))
      && now == After(s, start, world, rs)
      && -1 !in now.fds
    }

    static lemma ReadOne(rs: seq<Request>, rest: seq<Byte>, r: Request, rest': seq<Byte>)
      requires rest == Encode(r) + rest'
      ensures EncodeAll(rs) + rest == EncodeAll(rs + [r]) + rest'
    {
      EncodeAllAppend(rs, r);
      var sent, front := EncodeAll(rs), Encode(r);
      assert sent + (front + rest') == (sent + front) + rest';
    }

    static lemma StateStep(s: Setting, start: World, world: nat -> Answers, rs: seq<Request>, now: World, r: Request)
      requires AllWellFormed(rs) && WellFormed(r) && now == After(s, start, world, rs) && -1 !in now.fds
      ensures AllWellFormed(rs + [r])
      ensures Service.Next(s, now, r, world(|rs|)) == After(s, start, world, rs + [r])
      ensures -1 !in Service.Next(s, now, r, world(|rs|)).fds
    {
      RunStep(s, start, world, rs, r);
    }

    static lemma WireStep(s: Setting, start: World, world: nat -> Answers, out0: seq<Item>, rs: seq<Request>,
                          out: seq<Item>, r: Request)
      requires AllWellFormed(rs) && WellFormed(r) && AllWellFormed(rs + [r])
      requires out == out0 + Transcript(Replies(s, start, world, rs))
      ensures out + ItemsOf(Reply(s, After(s, start, world, rs), r, world(|rs|)))
              == out0 + Transcript(Replies(s, start, world, rs + [r]))
    {
      RunStep(s, start, world, rs, r);
      var replies, e := Replies(s, start, world, rs), Reply(s, After(s, start, world, rs), r, world(|rs|));
      TranscriptAppend(replies, e);
      Associative(out0, Transcript(replies), ItemsOf(e));
    }

    static lemma TurnDone(s: Setting, start: World, world: nat -> Answers, stream: seq<Byte>, out0: seq<Item>,
                          rs: seq<Request>, rest: seq<Byte>, out: seq<Item>, now: World, r: Request, rest': seq<Byte>)
      requires AtTop(s, start, world, stream, out0, rs, rest, out, now)
      requires FrontOf(rest) == Front.Next(r, rest') && WellFormed(r) && Servable(s.macros, r)
      ensures AtTop(s, start, world, stream, out0, rs + [r], rest',
                    out + ItemsOf(Reply(s, now, r, world(|rs|))), Service.Next(s, now, r, world(|rs|)))
    {
      EncodeOfFront(rest);
      StateStep(s, start, world, rs, now, r);
      WireStep(s, start, world, out0, rs, out, r);
      ReadOne(rs, rest, r, rest');
    }

    /** With a known code, the front of the stream is decided by what follows the header. */
    static lemma FrontWithCode(rest: seq<Byte>, c: MessageCode)
      requires |rest| >= HEADER_SIZE && CodeOf(FromUint32(rest[..HEADER_SIZE])) == Code(c)
      ensures var body := rest[HEADER_SIZE..];
              FrontOf(rest) == if |body| < BodySize(c) then Front.End(TornBody)
                               else Next(Request(c, body[..BodySize(c)]), body[BodySize(c)..])
    {
    }

    static function EndingFor(cause: Cause): Ending {
      match cause case BadHeader => TornHeader case BadCode => UnknownCode case _ => TornBody
    }

    /** The end that belongs to what follows the last request. */
    static function EndFor(ending: Ending): End {
      match ending
      case CleanEof => ExitZero
      case TornHeader => Fatal(BadHeader)
      case UnknownCode => Fatal(BadCode)
      case TornBody => Fatal(BadBody)
    }

    /** Why the loop is left with `rest` unread: the end of the stream between two requests;
        on a sound connection, exactly the defect that stands at the front; or the request
        at the front has no agent program. Part of a reply is out only for a whole request. */
    static ghost predicate StopsAt(m: map<string, string>, rest: seq<Byte>, end: End, eof: bool,
                                   partial: seq<Byte>, sound: bool) {
      && (partial != [] ==> FrontOf(rest).Next? && |partial| <= ResponseSize(FrontOf(rest).request.code))
      && (eof ==> end == ExitZero && partial == [] && rest == [])
      && (end.Fatal? && end.cause != NoAgentProgram && sound ==>
            partial == [] && FrontOf(rest) == Front.End(EndingFor(end.cause)) && end == EndFor(EndingFor(end.cause)))
      && (end.Fatal? && end.cause == NoAgentProgram ==> partial == [] && RefusedAt(m, rest))
    }

    static ghost predicate RefusedAt(m: map<string, string>, rest: seq<Byte>) {
      FrontOf(rest).Next? && WellFormed(FrontOf(rest).request) && !Servable(m, FrontOf(rest).request)
    }

    /** The daemonizing request at the front tells the launcher, whether or not it is answered. */
    static ghost predicate TellsAt(s: Setting, w: World, a: Answers, rest: seq<Byte>) {
      FrontOf(rest).Next? && FrontOf(rest).request.code == DaemonizeExecutor && TellsLauncher(s, w, a)
    }

    /** The header of the next request; `eof` when the stream ends before it. */
    method ReadHeader() returns (end: End, eof: bool, code: CodeOption)
      modifies sock`incoming, sock`at, sock`signalled
      ensures !eof ==> Spends(end)
      ensures eof ==> end == ExitZero && old(sock.incoming) == []
      ensures end == Back ==>
                && !eof && code.Code? && |old(sock.incoming)| >= HEADER_SIZE
                && sock.incoming == old(sock.incoming)[HEADER_SIZE..]
                && CodeOf(FromUint32(old(sock.incoming)[..HEADER_SIZE])) == code
      ensures end.Fatal? ==> (end.cause == BadHeader || end.cause == BadCode)
                             && (SoundFrom(sock.events, old(sock.at)) ==>
                                   FrontOf(old(sock.incoming)) == Front.End(EndingFor(end.cause)))
    {
      TransferMeaning(sock.events, sock.at, sock.signalled, |sock.incoming|, HEADER_SIZE);
      var header := new Byte[HEADER_SIZE];
      eof, code := false, NoCode;
      var n, halt := sock.RecvNonBlock(header, HEADER_SIZE);
      if halt != Running {
        end := if halt == Exited then ExitZero else StillWaiting;
      } else if n == 0 {
        eof, end := true, ExitZero;
      } else if n != HEADER_SIZE {
        end := Fatal(BadHeader);
      } else {
        assert header[..HEADER_SIZE] == old(sock.incoming)[..HEADER_SIZE];
        code := CodeOf(FromUint32(header[..HEADER_SIZE]));
        end := if code.NoCode? then Fatal(BadCode) else Back;
      }
    }

    /** One turn of the loop, in terms of what stands at the front of the stream. */
    method ServeOne(a: Answers) returns (end: End, eof: bool, ghost e: Exchange, ghost partial: seq<Byte>)
      requires Valid() && ValidAnswers(a) && -1 !in kernel.fds
      modifies sock, kernel, sequence, this`initCompletePipe, this`told
      ensures Valid() && (!eof ==> Spends(end))
      ensures end == Back ==>
                && !eof && FrontOf(old(sock.incoming)) == Front.Next(e.request, sock.incoming)
                && WellFormed(e.request) && Servable(macros.Map(), e.request)
                && sock.outgoing == old(sock.outgoing) + ItemsOf(e)
      ensures end == Back ==>
                && e == Reply(Fixed(), old(Now()), e.request, a)
                && Now() == Service.Next(Fixed(), old(Now()), e.request, a)
      ensures end != Back ==>
                && sock.outgoing == old(sock.outgoing) + AsItems(partial)
                && StopsAt(macros.Map(), old(sock.incoming), end, eof, partial, SoundFrom(sock.events, old(sock.at)))
                && (told == old(told) || (told == old(told) + 1 && TellsAt(Fixed(), old(Now()), a, old(sock.incoming))))
      ensures eof ==> Now() == old(Now())
    {
      e, partial, eof := Unread(Ping), [], false;
      assert old(sock.outgoing) + AsItems([]) == old(sock.outgoing);
      var code;
      end, eof, code := ReadHeader();
      if end != Back {
        return;
      }
      FrontWithCode(old(sock.incoming), code.code);
      ghost var sent;
      end, e, sent := Dispatch(code.code, a);
      if end != Back {
        partial := e.reply[..sent];
      }
    }

    /** The loop itself; `rest` is what it left of the stream, `whole` the whole replies it sent
        and `top` the state when it was last at its top. */
    method Loop(world: nat -> Answers)
      returns (end: End, eof: bool, ghost rs: seq<Request>, ghost rest: seq<Byte>, ghost partial: seq<Byte>,
               ghost whole: seq<Item>, ghost top: World)
      requires Valid() && -1 !in kernel.fds && forall k: nat :: ValidAnswers(world(k))
      modifies sock, kernel, sequence, this`initCompletePipe, this`told
      ensures end != Back && macros.Valid() && (!eof ==> Spends(end))
      ensures AtTop(Fixed(), old(Now()), world, old(sock.incoming), old(sock.outgoing), rs, rest, whole, top)
      ensures sock.outgoing == whole + AsItems(partial)
      ensures StopsAt(macros.Map(), rest, end, eof, partial, SoundFrom(sock.events, old(sock.at)))
      ensures told == top.told || (told == top.told + 1 && TellsAt(Fixed(), top, world(|rs|), rest))
      ensures eof ==> Now() == top
    {
      rs, eof, end := [], false, Back;
      var k := 0;
      ghost var s, start, stream, out0 := Fixed(), Now(), sock.incoming, sock.outgoing;
      assert out0 + Transcript([]) == out0 && EncodeAll([]) + stream == stream;
      while true
        invariant Valid() && k == |rs|
        invariant Spends(Back) && Fixed() == s
        invariant AtTop(s, start, world, stream, out0, rs, sock.incoming, sock.outgoing, Now())
        decreases |sock.incoming|
      {
        rest, whole, top := sock.incoming, sock.outgoing, Now();
        ghost var e;
        end, eof, e, partial := ServeOne(world(k));
        if end != Back {
          return;
        }
        TurnDone(s, start, world, stream, out0, rs, rest, whole, top, e.request, sock.incoming);
        rs := rs + [e.request];
        k := k + 1;
      }
    }

    /** A schedule that lets everything through: in order, without termination signals, and with
        more readiness than there are bytes in the stream and in the replies to its requests. */
    ghost predicate Orderly()
      reads sock
    {
      && SoundFrom(sock.events, sock.at) && QuietFrom(sock.events, sock.at) && !sock.signalled
      && Readies(sock.events, sock.at) > |sock.incoming| + ReplyBytes(Requests(sock.incoming))
    }

    /** world(k) answers the calls made for the k-th request; pipe and verbose are the
        arguments initCompletePipe and bindVerbose. `rs` are the requests handled, `eof` is whether
        the loop was left because the stream ended between two requests, and `top` the state when
        the loop was last at its top. */
    method Parent(pipe: int, verbose: bool, world: nat -> Answers)
      returns (end: End, eof: bool, ghost rs: seq<Request>, ghost partial: seq<Byte>, ghost top: World)
      requires Valid() && -1 !in kernel.fds && forall k: nat :: ValidAnswers(world(k))
      modifies sock, kernel, sequence, this
      ensures end != Back && macros.Valid() && AllWellFormed(rs)
      ensures Fixed() == Setting(old(macros.Map()), Place(authDir, kernel.resolve), verbose)
      // What was served was served right.
      ensures rs <= Requests(old(sock.incoming)) && AllServable(Fixed().macros, rs)
      ensures sock.outgoing == old(sock.outgoing) + Transcript(Replies(Fixed(), old(Now()).(pipe := pipe), world, rs))
              + AsItems(partial)
      ensures top == After(Fixed(), old(Now()).(pipe := pipe), world, rs)
      ensures partial != [] ==> |rs| < |Requests(old(sock.incoming))|
      ensures told == top.told || (|rs| < |Requests(old(sock.incoming))| && told == top.told + 1
                                   && Requests(old(sock.incoming))[|rs|].code == DaemonizeExecutor
                                   && TellsLauncher(Fixed(), top, world(|rs|)))
      // Why it ends.
      ensures eof ==> end == ExitZero && partial == [] && Now() == top
                      && rs == Requests(old(sock.incoming)) && EndingOf(old(sock.incoming)) == CleanEof
      ensures end == ExitZero && !eof ==> old(sock.signalled) || !QuietFrom(sock.events, old(sock.at))
      ensures end == StillWaiting ==>
                && sock.at >= |sock.events|
                && Readies(sock.events, old(sock.at)) <= |old(sock.incoming)| + ReplyBytes(Requests(old(sock.incoming)))
      ensures SoundFrom(sock.events, old(sock.at)) && end.Fatal? && end.cause != NoAgentProgram ==>
                && partial == [] && rs == Requests(old(sock.incoming)) && end == EndFor(EndingOf(old(sock.incoming)))
      ensures end.Fatal? && end.cause == NoAgentProgram ==>
                && partial == [] && |rs| < |Requests(old(sock.incoming))|
                && !Servable(Fixed().macros, Requests(old(sock.incoming))[|rs|])
      // On an orderly schedule everything is served that can be, and the end is decided by the stream.
      ensures old(Orderly()) ==>
                && rs == ServablePart(Fixed().macros, Requests(old(sock.incoming))) && partial == []
                && end == (if |rs| < |Requests(old(sock.incoming))| then Fatal(NoAgentProgram)
                           else EndFor(EndingOf(old(sock.incoming))))
                && (end == ExitZero ==> eof)
      ensures DevNullOpens(world) ==>
                (top.fds.Keys == (if Daemonizings(rs) == 0 then old(kernel.fds).Keys else old(kernel.fds).Keys - {pipe})
                 <==> Conserves(old(kernel.fds).Keys, pipe, verbose, Daemonizings(rs)))
    {
      initCompletePipe, bindVerbose := pipe, verbose;
      ghost var start := Now();
      ghost var rest, whole;
      end, eof, rs, rest, partial, whole, top := Loop(world);
      WhatWasRead(old(sock.incoming), rs, rest);
      WhatWasSent(Fixed(), start, world, old(sock.outgoing), rs, partial, Requests(old(sock.incoming)));
      if old(Orderly()) {
        ServablePartIs(Fixed().macros, Requests(old(sock.incoming)), rs);
      }
      if DevNullOpens(world) {
        DescriptorsConservedExactly(Fixed(), start, world, rs);
      }
    }

    /** The bytes sent are no more than the replies to all requests have. */
    static lemma WhatWasSent(s: Setting, start: World, world: nat -> Answers, out0: seq<Item>, rs: seq<Request>,
                             partial: seq<Byte>,
                             all: seq<Request>)
      requires AllWellFormed(rs) && rs <= all
      requires partial != [] ==> |rs| < |all| && |partial| <= ResponseSize(all[|rs|].code)
      ensures Bytes(out0 + Transcript(Replies(s, start, world, rs)) + AsItems(partial)) <= Bytes(out0) + ReplyBytes(all)
    {
      BytesAppend(out0, Transcript(Replies(s, start, world, rs)));
      BytesOfReplies(s, start, world, rs);
      BytesSent(out0 + Transcript(Replies(s, start, world, rs)), partial);
      ReplyBytesOfPrefix(rs, all);
    }

    /** Every list of requests that can be served, however it is cut into fragments, is consumed
        whole, answered one by one in order, and followed by a clean end. */
    method ServeList(pipe: int, verbose: bool, world: nat -> Answers, ghost list: seq<Request>)
      returns (end: End, eof: bool)
      requires Valid() && -1 !in kernel.fds && forall k: nat :: ValidAnswers(world(k))
      requires AllWellFormed(list) && AllServable(macros.Map(), list) && sock.incoming == EncodeAll(list)
      requires SoundFrom(sock.events, sock.at) && QuietFrom(sock.events, sock.at) && !sock.signalled
      requires Readies(sock.events, sock.at) > |EncodeAll(list)| + ReplyBytes(list)
      modifies sock, kernel, sequence, this
      ensures eof && end == ExitZero && macros.Valid()
      ensures sock.outgoing == old(sock.outgoing) + Transcript(Replies(Fixed(), old(Now()).(pipe := pipe), world, list))
      ensures Now() == After(Fixed(), old(Now()).(pipe := pipe), world, list)
    {
      assert EncodeAll(list) + [] == EncodeAll(list) && list + [] == list;
      RequestsOfEncodeAll(list, []);
      ServablePartIs(macros.Map(), list, list);
      ghost var rs, partial, top;
      end, eof, rs, partial, top := Parent(pipe, verbose, world);
      assert sock.outgoing + AsItems([]) == sock.outgoing;
    }

    /** From the encoded form to the requests of the stream. */
    static lemma WhatWasRead(stream: seq<Byte>, rs: seq<Request>, rest: seq<Byte>)
      requires AllWellFormed(rs) && stream == EncodeAll(rs) + rest
      ensures rs <= Requests(stream)
      ensures FrontOf(rest).Next? ==> |rs| < |Requests(stream)| && Requests(stream)[|rs|] == FrontOf(rest).request
      ensures FrontOf(rest).End? ==> Requests(stream) == rs && EndingOf(stream) == FrontOf(rest).ending
    {
      RequestsOfEncodeAll(rs, rest);
    }
  }
}
