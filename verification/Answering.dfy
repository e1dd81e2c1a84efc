/** What each request gets for an answer, over whole runs: the number that the peer reads in the reply,
    what was done, and what was passed along. */
module Answering {
  import opened Collections
  import opened CStrings
  import opened Messages
  import opened Kernels
  import opened Policies
  import opened LocalAuth
  import opened OneShot
  import opened Service
  import opened Sessions

  /** The files before request i. */
  ghost function FilesAt(s: Setting, w: World, world: nat -> Answers, rs: seq<Request>, i: nat): Files
    requires AllWellFormed(rs) && i <= |rs|
  {
    AuthAt(s, w, world, rs, i).files
  }

  // ---------------------------------------------------------------- requests that only ask

  /** A ping is answered with the magic number. */
  lemma PingExactly(s: Setting, w: World, world: nat -> Answers, rs: seq<Request>, i: nat)
    requires AllWellFormed(rs) && i < |rs| && rs[i].code == Ping
    ensures Replies(s, w, world, rs)[i].reply == [0xB6, 0xAC, 0x5E, 0x9E]
  {
    ReplyAt(s, w, world, rs, i);
    PingReply(s, After(s, w, world, rs[..i]), rs[i], world(i));
  }

  lemma PingReply(s: Setting, w: World, r: Request, a: Answers)
    requires WellFormed(r) && r.code == Ping
    ensures Reply(s, w, r, a).reply == [0xB6, 0xAC, 0x5E, 0x9E]
  {
  }

  /** A password is accepted exactly when the user is known, the password file is named, and it vouches for
      this user with this password. */
  lemma PasswordExactly(s: Setting, w: World, world: nat -> Answers, rs: seq<Request>, i: nat)
    requires AllWellFormed(rs) && i < |rs| && rs[i].code == AuthenticatePassword
    ensures var user, password := Field(rs[i].body, 0), Field(rs[i].body, BUFFER_SIZE);
            Says(s, w, world, rs, i)
            == Some(if && world(i).knows(user) && "passwordFilePath" in s.macros
                       && world(i).vouches(s.macros["passwordFilePath"], user, Some(password))
                    then 0 else -1)
  {
    SaysStatus(s, w, world, rs, i);
  }

  /** A user is valid exactly when the password file is named and vouches for the user without a password. */
  lemma ValidationExactly(s: Setting, w: World, world: nat -> Answers, rs: seq<Request>, i: nat)
    requires AllWellFormed(rs) && i < |rs| && rs[i].code == ValidateUser
    ensures Says(s, w, world, rs, i)
            == Some(if && "passwordFilePath" in s.macros
                       && world(i).vouches(s.macros["passwordFilePath"], Field(rs[i].body, 0), None)
                    then 0 else -1)
  {
    SaysStatus(s, w, world, rs, i);
  }

  lemma LogLevelExactly(s: Setting, w: World, world: nat -> Answers, rs: seq<Request>, i: nat)
    requires AllWellFormed(rs) && i < |rs| && rs[i].code == UpdateLogLevel
    ensures Says(s, w, world, rs, i) == Some(if world(i).takesLevel(Field(rs[i].body, 0)) then 0 else -1)
  {
    SaysStatus(s, w, world, rs, i);
  }

  lemma DaemonizeExactly(s: Setting, w: World, world: nat -> Answers, rs: seq<Request>, i: nat)
    requires AllWellFormed(rs) && i < |rs| && rs[i].code == DaemonizeExecutor
    ensures Says(s, w, world, rs, i) == Some(0)
  {
    SaysStatus(s, w, world, rs, i);
  }

  /** Requests whose answer no state of the executor decides. */
  predicate OnlyAsks(c: MessageCode) {
    c == Ping || c == AuthenticatePassword || c == ValidateUser || c == UpdateLogLevel || c == DaemonizeExecutor
  }

  /** Whatever was served before, and in whatever state: such a request with the same answers of the
      system gets the same reply, and nothing is passed. */
  lemma OnlyTheSystemDecides(s: Setting, w: World, world: nat -> Answers, rs: seq<Request>, i: nat,
                             w': World, world': nat -> Answers, rs': seq<Request>, i': nat)
    requires AllWellFormed(rs) && AllWellFormed(rs') && i < |rs| && i' < |rs'|
    requires rs[i] == rs'[i'] && OnlyAsks(rs[i].code) && world(i) == world'(i')
    ensures Replies(s, w, world, rs)[i] == Replies(s, w', world', rs')[i']
    ensures Replies(s, w, world, rs)[i].passed == None
  {
    ReplyAt(s, w, world, rs, i);
    ReplyAt(s, w', world', rs', i');
    AskingReply(s, After(s, w, world, rs[..i]), After(s, w', world', rs'[..i']), rs[i], world(i));
  }

  lemma AskingReply(s: Setting, w: World, w': World, r: Request, a: Answers)
    requires WellFormed(r) && OnlyAsks(r.code)
    ensures Reply(s, w, r, a) == Reply(s, w', r, a) && Reply(s, w, r, a).passed == None
  {
  }

  // ---------------------------------------------------------------- requests on files

  /** A removal says 0 exactly when a row of the policy has the path, the file is there and the unlink
      works; then the file is gone, and otherwise nothing changes. */
  lemma RemovalExactly(s: Setting, w: World, world: nat -> Answers, rs: seq<Request>, i: nat)
    requires AllWellFormed(rs) && PlainValues(s.macros) && i < |rs| && rs[i].code == RemoveFile
    ensures var path, files := Field(rs[i].body, 0), FilesAt(s, w, world, rs, i);
            var done := MayRemove(s.macros, path) && s.FileAt(path) in files && world(i).unlink;
            && Says(s, w, world, rs, i) == Some(if done then 0 else -1)
            && FilesAt(s, w, world, rs, i + 1) == if done then files - {s.FileAt(path)} else files
  {
    SaysStatus(s, w, world, rs, i);
    AuthMoves(s, w, world, rs, i);
    RemoveMeaning(s.macros, Field(rs[i].body, 0));
  }

  /** A rename says 0 exactly when a row has the two paths, the first file is there and the system renames
      it; then the second has its content, and the first is gone unless both are one. */
  lemma RenameExactly(s: Setting, w: World, world: nat -> Answers, rs: seq<Request>, i: nat)
    requires AllWellFormed(rs) && PlainValues(s.macros) && i < |rs| && rs[i].code == RenameFile
    ensures var files, files' := FilesAt(s, w, world, rs, i), FilesAt(s, w, world, rs, i + 1);
            var oldPath, newPath := Field(rs[i].body, 0), Field(rs[i].body, BUFFER_SIZE);
            var source, target := s.FileAt(oldPath), s.FileAt(newPath);
            var done := MayRename(s.macros, oldPath, newPath) && source in files && world(i).rename;
            && Says(s, w, world, rs, i) == Some(if done then 0 else -1)
            && (!done ==> files' == files)
            && (done ==> && target in files' && files'[target] == files[source]
                         && (source != target ==> source !in files')
                         && forall n :: n != source && n != target ==> SameAt(files, files', n))
  {
    SaysStatus(s, w, world, rs, i);
    AuthMoves(s, w, world, rs, i);
    RenameStep(s, AuthAt(s, w, world, rs, i), rs[i], world(i));
  }

  lemma RenameStep(s: Setting, st: AuthState, r: Request, a: Answers)
    requires WellFormed(r) && PlainValues(s.macros) && r.code == RenameFile
    ensures var oldPath, newPath := Field(r.body, 0), Field(r.body, BUFFER_SIZE);
            var done := MayRename(s.macros, oldPath, newPath) && s.FileAt(oldPath) in st.files && a.rename;
            && Status(s, st, r, a) == (if done then 0 else -1)
            && AuthAfter(s, st, r, a).files == Renamed(st.files, done, s.FileAt(oldPath), s.FileAt(newPath))
  {
    RenameMeaning(s.macros, Field(r.body, 0), Field(r.body, BUFFER_SIZE));
  }

  /** What an open for this mode asks of the system: that the file opens or, when it is not there and is to
      be written, that it can be created with its permissions. */
  predicate OpensFor(there: bool, mode: int, a: Answers) {
    if there then a.open else mode == MODE_W && a.create && a.fchmod
  }

  /** An open says 0 exactly when a row has path and mode and the system lets it; a descriptor on the file
      is passed exactly then, if the message can be sent. */
  lemma OpenExactly(s: Setting, w: World, world: nat -> Answers, rs: seq<Request>, i: nat)
    requires AllWellFormed(rs) && PlainValues(s.macros) && i < |rs| && rs[i].code == OpenFile
    ensures var path, mode := Field(rs[i].body, 0), ModeOf(rs[i].body);
            var done := && (mode == MODE_R || mode == MODE_W) && MayOpen(s.macros, path, [mode as char]).Some?
                        && OpensFor(s.FileAt(path) in FilesAt(s, w, world, rs, i), mode, world(i));
            && Says(s, w, world, rs, i) == Some(if done then 0 else -1)
            && Replies(s, w, world, rs)[i].passed
               == if done && world(i).sendmsg then Some([Regular(s.FileAt(path))]) else None
  {
    ReplyAt(s, w, world, rs, i);
    SaysStatus(s, w, world, rs, i);
    OpenedIsRow(s.macros, Field(rs[i].body, 0), ModeOf(rs[i].body));
  }

  lemma OpenedIsRow(m: map<string, string>, path: string, mode: int)
    requires PlainValues(m)
    ensures OpenAllowed(m, path, mode) && IsMode(mode) <==>
              (mode == MODE_R || mode == MODE_W) && MayOpen(m, path, [mode as char]).Some?
  {
    OpenMeaning(m, path, ModeArg(mode));
    assert ModeArg(MODE_R) == "r" && ModeArg(MODE_W) == "w" && ModeArg(MODE_A) == "a";
  }

  /** Opening to read changes nothing; an allowed open to write leaves the file empty, be it there or
      created, and other files alone, unless the system refuses. */
  lemma OpenLeaves(s: Setting, w: World, world: nat -> Answers, rs: seq<Request>, i: nat)
    requires AllWellFormed(rs) && PlainValues(s.macros) && i < |rs| && rs[i].code == OpenFile
    ensures var files, files' := FilesAt(s, w, world, rs, i), FilesAt(s, w, world, rs, i + 1);
            var path, name := Field(rs[i].body, 0), s.FileAt(Field(rs[i].body, 0));
            var writes := ModeOf(rs[i].body) == MODE_W && MayOpen(s.macros, path, "w").Some?
                          && if name in files then world(i).open else world(i).create;
            && (!writes ==> files' == files)
            && (writes ==> name in files' && files'[name] == "" && forall n :: n != name ==> SameAt(files, files', n))
  {
    AuthMoves(s, w, world, rs, i);
    WriteIsRow(s.macros, Field(rs[i].body, 0), ModeOf(rs[i].body));
  }

  lemma WriteIsRow(m: map<string, string>, path: string, mode: int)
    requires PlainValues(m)
    ensures OpenAllowed(m, path, mode) && Writes(mode) <==> mode == MODE_W && MayOpen(m, path, "w").Some?
  {
    OpenMeaning(m, path, ModeArg(mode));
    assert ModeArg(MODE_W) == "w" && ModeArg(MODE_A) == "a";
  }

  // ---------------------------------------------------------------- agents

  /** The other end of a pipe. */
  function OtherEnd(r: Resource): Resource
    requires r.PipeEnd?
  {
    PipeEnd(r.id, !r.writing)
  }

  /** An agent is started exactly for the two known kinds of module and a known user, with all calls
      working; then the reply has its number and the message the other ends of the pipes that the agent
      writes and reads, in this order. */
  lemma AgentExactly(s: Setting, w: World, world: nat -> Answers, rs: seq<Request>, i: nat)
    requires AllWellFormed(rs) && AnswersValid(world) && i < |rs| && rs[i].code == StartProviderAgent
    ensures var a, e := world(i), Replies(s, w, world, rs)[i];
            var started := && BitnessOf(rs[i].body) in {1, 2} && a.knows(Field(rs[i].body, 2 + BUFFER_SIZE))
                           && a.pipe1 && a.pipe2 && a.pid > 0;
            var n := After(s, w, world, rs[..i]).nextPipe;
            && Says(s, w, world, rs, i) == Some(if started then 0 else -1)
            && Number(e.reply, 4) == Some(if started then a.pid else -1)
            && e.passed == if started && a.sendmsg
                           then Some([OtherEnd(AgentWrites(n)), OtherEnd(AgentReads(n))]) else None
  {
    ReplyAt(s, w, world, rs, i);
    SaysStatus(s, w, world, rs, i);
    var pid := if AgentStarts(rs[i].body, world(i)) then world(i).pid else -1;
    PidFollows(Status(s, AuthAt(s, w, world, rs, i), rs[i], world(i)), pid);
  }

  lemma PidFollows(status: int, pid: int)
    requires -0x8000_0000 <= pid < 0x8000_0000
    ensures Number(Int32(status) + Int32(pid), 4) == Some(pid)
  {
    assert (Int32(status) + Int32(pid))[4..8] == Int32(pid);
    SignedOfInt32(pid);
  }

  /** Only an agent request can end the loop for its content: when the program for its kind of module is
      not named. */
  lemma RefusedExactly(m: map<string, string>, r: Request)
    requires WellFormed(r)
    ensures !Servable(m, r) <==>
              && r.code == StartProviderAgent
              && ((BitnessOf(r.body) == 1 && "cimprovagtPath" !in m)
                  || (BitnessOf(r.body) == 2 && "cimprovagt32Path" !in m))
  {
  }

  // ---------------------------------------------------------------- challenges

  /** A challenge says 0 exactly when the user is known, an old file in the way can be removed, and the new
      one is created, written whole and given to the user; the reply then has its path. */
  lemma ChallengeExactly(s: Setting, w: World, world: nat -> Answers, rs: seq<Request>, i: nat)
    requires AllWellFormed(rs) && AnswersValid(world) && IsBytes(s.place.dir)
    requires i < |rs| && rs[i].code == ChallengeLocal
    ensures var user, a, here := Field(rs[i].body, 0), world(i), AuthAt(s, w, world, rs, i);
            var path := PathInBuffer(s.place.dir, user, here.next, a.msec);
            var made := && a.knows(user) && (s.FileAt(path) in here.files ==> a.creation.unlinkOld)
                        && a.creation.open && a.creation.written >= 40 && a.creation.fchown;
            && Says(s, w, world, rs, i) == Some(if made then 0 else -1)
            && (made ==> PathIn(Replies(s, w, world, rs)[i].reply) == Some(path))
  {
    ChallengeReply(s, w, world, rs, i);
  }
}
