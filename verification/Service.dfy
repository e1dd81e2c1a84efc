/** What the executor's requests do, as functions of its state (pegasus/src/Executor/Parent.c). */
module Service {
  import opened Collections
  import opened CStrings
  import opened Macros
  import opened Expansion
  import opened Policies
  import opened Messages
  import opened Kernels
  import opened Sockets
  import opened LocalAuth

  const PING_MAGIC := 0x9E5EACB6
  const BITNESS_DEFAULT := 1
  const BITNESS_32 := 2

  datatype Cause = BadHeader | BadCode | BadBody | WriteFailed | NoAgentProgram

  /** How a handler or the loop leaves: back to its caller, through Exit(0), through Fatal, or
      still waiting at the end of the observed run. */
  datatype End = Back | ExitZero | StillWaiting | Fatal(cause: Cause)

  /** The answers of the system to the calls made for one request. `knows` is the user database;
      `vouches` is CheckPasswordFile on a path, a user, and a password or none. */
  datatype Answers = Answers(
    open: bool, create: bool, fchmod: bool, sendmsg: bool,
    knows: string -> bool, pipe1: bool, pipe2: bool, pid: int,
    devNull: NullOpens, pipeWrite: bool, rename: bool, unlink: bool,
    vouches: (string, string, Option<string>) -> bool, takesLevel: string -> bool,
    msec: nat, random: seq<Byte>, creation: CreateCalls, check: CheckCalls)

  /** fork gives this process a child's pid, an int, or -1; random data has the token's size. */
  predicate ValidAnswers(a: Answers) {
    (a.pid == -1 || 0 < a.pid < 0x8000_0000) && |a.random| == TOKEN_LENGTH / 2
  }

  /** One request as handled, with the reply bytes and the descriptor message, if any. */
  datatype Exchange = Exchange(request: Request, status: int, reply: seq<Byte>,
                                 delivered: bool, passed: Option<seq<Resource>>)

  function ItemsOf(e: Exchange): seq<Item> {
    AsItems(e.reply) + (if e.passed.Some? then [Rights(e.passed.value)] else [])
  }

  function Transcript(es: seq<Exchange>): seq<Item> {
    if es == [] then [] else Transcript(es[..|es| - 1]) + ItemsOf(es[|es| - 1])
  }

  function RequestsOf(es: seq<Exchange>): seq<Request> {
    seq(|es|, i requires 0 <= i < |es| => es[i].request)
  }

  function ResponseSize(c: MessageCode): nat {
    match c
    case Ping => 4
    case StartProviderAgent => 8
    case ChallengeLocal => 4 + BUFFER_SIZE
    case _ => 4
  }

  /** The signed number that the receiver of a reply finds at an offset. */
  function Number(reply: seq<Byte>, at: nat): Option<int> {
    if at + 4 <= |reply| then Some(Signed32(FromUint32(reply[at..at + 4]))) else None
  }

  /** The text that the receiver of a challenge reply finds behind the status. */
  function PathIn(reply: seq<Byte>): Option<string> {
    if |reply| == 4 + BUFFER_SIZE then Some(Field(reply, 4)) else None
  }

  predicate PassesDescriptors(c: MessageCode) {
    c == OpenFile || c == StartProviderAgent
  }

  /** One complete response to a complete request; a descriptor message exactly when the
      status is 0, the request is of a kind that has one, and sendmsg takes it. */
  predicate GoodExchange(e: Exchange) {
    && WellFormed(e.request)
    && |e.reply| == ResponseSize(e.request.code)
    && (if e.request.code == Ping then FromUint32(e.reply[..4]) == PING_MAGIC else Number(e.reply, 0) == Some(e.status))
    && (e.passed.Some? <==> PassesDescriptors(e.request.code) && e.status == 0 && e.delivered)
  }

  predicate AllGood(es: seq<Exchange>) {
    forall i :: 0 <= i < |es| ==> GoodExchange(es[i])
  }

  lemma GoodAppend(es: seq<Exchange>, e: Exchange)
    requires AllGood(es) && GoodExchange(e)
    ensures AllGood(es + [e]) && RequestsOf(es + [e]) == RequestsOf(es) + [e.request]
  {
  }

  // ---------------------------------------------------------------- request fields

  function Chars(bytes: seq<Byte>): string {
    seq(|bytes|, i requires 0 <= i < |bytes| => bytes[i] as char)
  }

  /** Text that a char array of bytes can hold. */
  predicate IsBytes(s: string) {
    NulFree(s) && forall i :: 0 <= i < |s| ==> s[i] as int < 256
  }

  /** A char[BUFFER_SIZE] member at the given offset, as a C string. */
  function Field(body: seq<Byte>, offset: nat): (s: string)
    requires offset + BUFFER_SIZE <= |body|
    ensures IsBytes(s)
  {
    StrOf(Chars(body[offset..offset + BUFFER_SIZE]))
  }

  function ModeOf(body: seq<Byte>): int
    requires |body| == BodySize(OpenFile)
  {
    Signed32(FromUint32(body[BUFFER_SIZE..]))
  }

  function BitnessOf(body: seq<Byte>): nat
    requires |body| == BodySize(StartProviderAgent)
  {
    body[0] as int + 256 * (body[1] as int)
  }

  /** What the member reads as: the characters up to the first zero byte. */
  lemma FieldReads(body: seq<Byte>, offset: nat, s: string)
    requires offset + BUFFER_SIZE <= |body| && NulFree(s) && |s| < BUFFER_SIZE
    requires forall k :: 0 <= k < |s| ==> body[offset + k] == s[k] as int
    requires body[offset + |s|] == 0
    ensures Field(body, offset) == s
  {
    var b := Chars(body[offset..offset + BUFFER_SIZE]);
    assert forall k :: 0 <= k < |s| ==> b[k] == s[k];
    assert b[..|s|] == s;
    StrOfUnique(b, s);
  }

  function AgentUserOf(body: seq<Byte>): string
    requires |body| == BodySize(StartProviderAgent)
  {
    Field(body, 2 + BUFFER_SIZE)
  }

  const MODE_R := 'r' as int
  const MODE_W := 'w' as int
  const MODE_A := 'a' as int

  predicate IsMode(mode: int) {
    mode == MODE_R || mode == MODE_W || mode == MODE_A
  }

  // ---------------------------------------------------------------- what requests do

  ghost predicate OpenAllowed(m: map<string, string>, path: string, mode: int) {
    Decide(MatcherOf(m), STATIC_POLICY_TABLE, OpenFile, path, Some(ModeArg(mode))).Some?
  }

  ghost predicate RemoveAllowed(m: map<string, string>, path: string) {
    Decide(MatcherOf(m), STATIC_POLICY_TABLE, RemoveFile, path, None).Some?
  }

  ghost predicate RenameAllowed(m: map<string, string>, oldPath: string, newPath: string) {
    Decide(MatcherOf(m), STATIC_POLICY_TABLE, RenameFile, oldPath, Some(newPath)).Some?
  }

  /** What stays the same while the executor runs. */
  datatype Setting = Setting(macros: map<string, string>, place: Place, bindVerbose: bool) {
    /** What a path in a request stands for. */
    function FileAt(path: string): Name {
      place.resolve(path)
    }
  }

  predicate Writes(mode: int) {
    mode == MODE_W || mode == MODE_A
  }

  /** Status 0 of an open request: allowed, and either the file is there and opens, or it is
      missing, is to be written, and can be created with its permissions. */
  ghost predicate Opens(s: Setting, files: Files, path: string, mode: int, a: Answers) {
    OpenAllowed(s.macros, path, mode) && OpensPermitted(files, s.FileAt(path), mode, a)
  }

  predicate OpensPermitted(files: Files, name: Name, mode: int, a: Answers) {
    || (name in files && IsMode(mode) && a.open)
    || (name !in files && Writes(mode) && a.create && a.fchmod)
  }

  /** The files after an open request: opening for writing empties, a missing file to be
      written comes into being even when its permissions cannot be set. */
  ghost function OpenedFiles(s: Setting, files: Files, path: string, mode: int, a: Answers): Files {
    if OpenAllowed(s.macros, path, mode) then PermittedFiles(files, s.FileAt(path), mode, a) else files
  }

  function PermittedFiles(files: Files, name: Name, mode: int, a: Answers): Files {
    if name in files then if mode == MODE_W && a.open then files[name := ""] else files
    else if Writes(mode) && a.create then files[name := ""]
    else files
  }

  // ---------------------------------------------------------------- descriptors

  function DaemonDescriptors(fds: Descriptors, bindVerbose: bool, calls: NullOpens, pipe: int): Descriptors {
    var base := if bindVerbose then fds else Redirected(fds, calls);
    if pipe == -1 then base else base - {pipe}
  }

  /** What an agent inherits of a table. */
  function AgentTable(fds: Descriptors, redirect: bool, calls: NullOpens, softLimit: int, fd1: int,
                      fd2: int): Descriptors {
    Unswept(if redirect then Redirected(fds, calls) else fds, softLimit, fd1, fd2)
  }

  /** The write on initCompletePipe reaches the launcher: the number still stands for the
      write end of a pipe after the redirection. */
  predicate ReachesLauncher(fds: Descriptors, bindVerbose: bool, calls: NullOpens, pipe: int) {
    var base := if bindVerbose then fds else Redirected(fds, calls);
    IsWriteEnd(base, pipe)
  }

  predicate IsWriteEnd(fds: Descriptors, fd: int) {
    fd in fds && fds[fd].PipeEnd? && fds[fd].writing
  }

  /** When the executor was started without one of 0, 1, 2, its pipe can sit there; then the
      redirection replaces it and the launcher is never told. */
  lemma PipeOnStdioIsLost(fds: Descriptors, calls: NullOpens, pipe: int)
    requires pipe in STDIO
    ensures !ReachesLauncher(fds, false, calls, pipe)
  {
  }

  lemma PipeElsewhereReaches(fds: Descriptors, bindVerbose: bool, calls: NullOpens, pipe: int)
    requires pipe in fds && fds[pipe].PipeEnd? && fds[pipe].writing
    ensures ReachesLauncher(fds, bindVerbose, calls, pipe) <==> bindVerbose || pipe !in STDIO
  {
  }

  function ByteOf(c: char): Byte {
    c as int % 256
  }

  /** A string copied into a zeroed char[BUFFER_SIZE] member. */
  function Padded(s: string): (b: seq<Byte>)
    ensures |b| == BUFFER_SIZE && forall k :: |s| <= k < BUFFER_SIZE ==> b[k] == 0
  {
    seq(BUFFER_SIZE, i requires 0 <= i < BUFFER_SIZE =>
        if i < |Clip(s, BUFFER_SIZE)| then ByteOf(Clip(s, BUFFER_SIZE)[i]) else 0)
  }

  /** A zeroed member into which a text was copied reads as the text, cut to the member. */
  lemma PaddedReads(s: string, before: seq<Byte>, after: seq<Byte>)
    requires IsBytes(s)
    ensures Field(before + Padded(s) + after, |before|) == Clip(s, BUFFER_SIZE)
  {
    var body, c := before + Padded(s) + after, Clip(s, BUFFER_SIZE);
    assert forall k :: 0 <= k < BUFFER_SIZE ==> body[|before| + k] == Padded(s)[k];
    FieldReads(body, |before|, c);
  }

  // ---------------------------------------------------------------- the service as a function

  /** What its requests change. `told` counts the bytes that went to the launcher. */
  datatype World = World(fds: Descriptors, pipe: int, auth: AuthState, nextPipe: nat, told: nat)

  /** The write to the launcher takes place and reaches it. */
  predicate TellsLauncher(s: Setting, w: World, a: Answers) {
    w.pipe != -1 && a.pipeWrite && ReachesLauncher(w.fds, s.bindVerbose, a.devNull, w.pipe)
  }

  function Plain(r: Request, status: int): Exchange {
    Exchange(r, status, Int32(status), false, None)
  }

  function Passing(r: Request, status: int, reply: seq<Byte>, resources: seq<Resource>, sendmsg: bool): Exchange {
    Exchange(r, status, reply, sendmsg, if status == 0 && sendmsg then Some(resources) else None)
  }

  function StatusOf(ok: bool): int {
    if ok then 0 else -1
  }

  /** The password file is named, and vouches for the user. */
  predicate Vouched(m: map<string, string>, user: string, password: Option<string>, a: Answers) {
    PASSWORD in m && a.vouches(m[PASSWORD], user, password)
  }

  predicate KnownBitness(bitness: nat) {
    bitness == BITNESS_DEFAULT || bitness == BITNESS_32
  }

  predicate AgentStarts(body: seq<Byte>, a: Answers)
    requires |body| == BodySize(StartProviderAgent)
  {
    KnownBitness(BitnessOf(body)) && a.knows(AgentUserOf(body)) && a.pipe1 && a.pipe2 && a.pid > 0
  }

  function PipesMade(body: seq<Byte>, a: Answers): nat
    requires |body| == BodySize(StartProviderAgent)
  {
    if KnownBitness(BitnessOf(body)) && a.knows(AgentUserOf(body)) && a.pipe1 then if a.pipe2 then 2 else 1 else 0
  }

  /** The ends that the agent has, when the next pipes are n and n + 1. */
  function AgentReads(n: nat): Resource {
    PipeEnd(n, false)
  }

  function AgentWrites(n: nat): Resource {
    PipeEnd(n + 1, true)
  }

  function AgentResources(nextPipe: nat): seq<Resource> {
    [PipeEnd(nextPipe + 1, false), PipeEnd(nextPipe, true)]
  }

  function Renamed(files: Files, ok: bool, source: Name, target: Name): Files
    requires ok ==> source in files
  {
    if ok then (files - {source})[target := files[source]] else files
  }

  ghost predicate Renames(s: Setting, files: Files, oldPath: string, newPath: string, a: Answers) {
    RenameAllowed(s.macros, oldPath, newPath) && s.FileAt(oldPath) in files && a.rename
  }

  ghost predicate Removes(s: Setting, files: Files, path: string, a: Answers) {
    RemoveAllowed(s.macros, path) && s.FileAt(path) in files && a.unlink
  }

  /** A request of this kind as a step of the local authentication protocol. */
  function ChallengeOf(r: Request, a: Answers): Step
    requires r.code == ChallengeLocal && WellFormed(r)
  {
    Challenge(Field(r.body, 0), a.knows(Field(r.body, 0)), a.msec, a.random, a.creation)
  }

  function AuthenticationOf(r: Request, a: Answers): Step
    requires r.code == AuthenticateLocal && WellFormed(r)
  {
    Authenticate(Field(r.body, 0), Field(r.body, BUFFER_SIZE), a.check)
  }

  /** Files and the challenge counter after one request. */
  ghost function AuthAfter(s: Setting, st: AuthState, r: Request, a: Answers): AuthState
    requires WellFormed(r)
  {
    match r.code
    case OpenFile => st.(files := OpenedFiles(s, st.files, Field(r.body, 0), ModeOf(r.body), a))
    case RenameFile =>
      var oldPath, newPath := Field(r.body, 0), Field(r.body, BUFFER_SIZE);
      st.(files := Renamed(st.files, Renames(s, st.files, oldPath, newPath, a), s.FileAt(oldPath), s.FileAt(newPath)))
    case RemoveFile =>
      var path := Field(r.body, 0);
      st.(files := if Removes(s, st.files, path, a) then st.files - {s.FileAt(path)} else st.files)
    case ChallengeLocal => Do(s.place, st, ChallengeOf(r, a)).0
    case AuthenticateLocal => Do(s.place, st, AuthenticationOf(r, a)).0
    case _ => st
  }

  /** One request: the state it leaves. Only daemonizing changes the descriptors. */
  ghost function Next(s: Setting, w: World, r: Request, a: Answers): World
    requires WellFormed(r)
  {
    World(if r.code == DaemonizeExecutor then DaemonDescriptors(w.fds, s.bindVerbose, a.devNull, w.pipe) else w.fds,
          if r.code == DaemonizeExecutor then -1 else w.pipe,
          AuthAfter(s, w.auth, r, a),
          if r.code == StartProviderAgent then w.nextPipe + PipesMade(r.body, a) else w.nextPipe,
          if r.code == DaemonizeExecutor && TellsLauncher(s, w, a) then w.told + 1 else w.told)
  }

  /** The status sent for one request. */
  ghost function Status(s: Setting, st: AuthState, r: Request, a: Answers): int
    requires WellFormed(r)
  {
    match r.code
    case Ping => 0
    case OpenFile => StatusOf(Opens(s, st.files, Field(r.body, 0), ModeOf(r.body), a))
    case StartProviderAgent => StatusOf(AgentStarts(r.body, a))
    case DaemonizeExecutor => 0
    case RenameFile => StatusOf(Renames(s, st.files, Field(r.body, 0), Field(r.body, BUFFER_SIZE), a))
    case RemoveFile => StatusOf(Removes(s, st.files, Field(r.body, 0), a))
    case AuthenticatePassword =>
      StatusOf(a.knows(Field(r.body, 0))
               && Vouched(s.macros, Field(r.body, 0), Some(Field(r.body, BUFFER_SIZE)), a))
    case ValidateUser => StatusOf(Vouched(s.macros, Field(r.body, 0), None, a))
    case ChallengeLocal => StatusOf(Do(s.place, st, ChallengeOf(r, a)).1.Issued?)
    case AuthenticateLocal => StatusOf(Do(s.place, st, AuthenticationOf(r, a)).1 == Accepted)
    case UpdateLogLevel => StatusOf(a.takesLevel(Field(r.body, 0)))
  }

  /** The path a challenge reply carries. */
  ghost function PathSent(s: Setting, st: AuthState, r: Request, a: Answers): string
    requires WellFormed(r) && r.code == ChallengeLocal
  {
    var outcome := Do(s.place, st, ChallengeOf(r, a)).1;
    if outcome.Issued? then outcome.path else ""
  }

  /** The bytes and the descriptor message that go with a status. */
  function ReplyWith(s: Setting, r: Request, status: int, path: string, nextPipe: nat, a: Answers): Exchange
    requires WellFormed(r)
  {
    match r.code
    case Ping => Exchange(r, status, Uint32(PING_MAGIC), false, None)
    case OpenFile => Passing(r, status, Int32(status), [Regular(s.FileAt(Field(r.body, 0)))], a.sendmsg)
    case StartProviderAgent =>
      Passing(r, status, Int32(status) + Int32(if status == 0 then a.pid else -1), AgentResources(nextPipe), a.sendmsg)
    case ChallengeLocal => Exchange(r, status, Int32(status) + Padded(path), false, None)
    case _ => Plain(r, status)
  }

  /** One request: the exchange it makes. */
  ghost function Reply(s: Setting, w: World, r: Request, a: Answers): Exchange
    requires WellFormed(r)
  {
    ReplyWith(s, r, Status(s, w.auth, r, a),
              if r.code == ChallengeLocal then PathSent(s, w.auth, r, a) else "", w.nextPipe, a)
  }

  lemma StatusFirst(status: int, more: seq<Byte>)
    requires -0x8000_0000 <= status < 0x8000_0000
    ensures Number(Int32(status), 0) == Some(status) && Number(Int32(status) + more, 0) == Some(status)
  {
    assert Int32(status)[0..4] == Int32(status) && (Int32(status) + more)[0..4] == Int32(status);
    SignedOfInt32(status);
  }

  lemma ReplyWithIsGood(s: Setting, r: Request, status: int, path: string, nextPipe: nat, a: Answers)
    requires WellFormed(r) && (status == 0 || status == -1)
    ensures GoodExchange(ReplyWith(s, r, status, path, nextPipe, a))
            && ReplyWith(s, r, status, path, nextPipe, a).request == r
  {
    match r.code
    case Ping =>
      assert Uint32(PING_MAGIC)[..4] == Uint32(PING_MAGIC);
      FromUint32OfUint32(PING_MAGIC);
    case StartProviderAgent => StatusFirst(status, Int32(if status == 0 then a.pid else -1));
    case ChallengeLocal => StatusFirst(status, Padded(path));
    case _ => StatusFirst(status, []);
  }

  /** Every request is answered by one complete response of its own size. */
  lemma ReplyIsGood(s: Setting, w: World, r: Request, a: Answers)
    requires WellFormed(r)
    ensures GoodExchange(Reply(s, w, r, a)) && Reply(s, w, r, a).request == r
  {
    ReplyWithIsGood(s, r, Status(s, w.auth, r, a),
                    if r.code == ChallengeLocal then PathSent(s, w.auth, r, a) else "", w.nextPipe, a);
  }

  /** The state after a list of requests; world(k) answers the calls of the k-th. */
  ghost function After(s: Setting, w: World, world: nat -> Answers, rs: seq<Request>): World
    requires AllWellFormed(rs)
    decreases |rs|
  {
    if rs == [] then w
    else Next(s, After(s, w, world, rs[..|rs| - 1]), rs[|rs| - 1], world(|rs| - 1))
  }

  /** The exchanges made over a list of requests. */
  ghost function Replies(s: Setting, w: World, world: nat -> Answers, rs: seq<Request>): (es: seq<Exchange>)
    requires AllWellFormed(rs)
    ensures |es| == |rs|
    decreases |rs|
  {
    if rs == [] then []
    else
      var n := |rs| - 1;
      Replies(s, w, world, rs[..n]) + [Reply(s, After(s, w, world, rs[..n]), rs[n], world(n))]
  }

  lemma RunStep(s: Setting, w: World, world: nat -> Answers, rs: seq<Request>, r: Request)
    requires AllWellFormed(rs) && WellFormed(r)
    ensures AllWellFormed(rs + [r])
    ensures After(s, w, world, rs + [r]) == Next(s, After(s, w, world, rs), r, world(|rs|))
    ensures Replies(s, w, world, rs + [r])
            == Replies(s, w, world, rs) + [Reply(s, After(s, w, world, rs), r, world(|rs|))]
  {
    assert (rs + [r])[..|rs|] == rs;
  }

  /** A run has one good exchange for each request, in order. */
  lemma {:induction false} RepliesAreGood(s: Setting, w: World, world: nat -> Answers, rs: seq<Request>)
    requires AllWellFormed(rs)
    ensures AllGood(Replies(s, w, world, rs)) && RequestsOf(Replies(s, w, world, rs)) == rs
    decreases |rs|
  {
    if rs != [] {
      var n := |rs| - 1;
      var before := After(s, w, world, rs[..n]);
      RepliesAreGood(s, w, world, rs[..n]);
      ReplyIsGood(s, before, rs[n], world(n));
      GoodAppend(Replies(s, w, world, rs[..n]), Reply(s, before, rs[n], world(n)));
      SplitLast(rs);
    }
  }

  // ---------------------------------------------------------------- descriptors over runs

  function Daemonizings(rs: seq<Request>): nat {
    if rs == [] then 0 else Daemonizings(rs[..|rs| - 1]) + (if rs[|rs| - 1].code == DaemonizeExecutor then 1 else 0)
  }

  ghost predicate DevNullOpens(world: nat -> Answers) {
    forall k: nat :: Opened(world(k).devNull) == 3
  }

  /** The open numbers after so many daemonizings; each one reopens 0, 1, 2 and the first closes
      the pipe, which may be one of them. */
  function OpenAfter(open: set<int>, pipe: int, bindVerbose: bool, daemonizings: nat): set<int> {
    if daemonizings == 0 then open
    else if bindVerbose then open - {pipe}
    else if daemonizings == 1 then open + STDIO - {pipe}
    else (open + STDIO - {pipe}) + STDIO
  }

  /** What is open now refers to what it did, but for 0, 1, 2 on /dev/null after a redirection. */
  predicate StaysOrIsNull(fds: Descriptors, now: Descriptors, redirected: bool) {
    forall fd :: fd in now ==>
      if redirected && fd in STDIO then now[fd] == DevNull else fd in fds && now[fd] == fds[fd]
  }

  lemma {:induction false} DescriptorsAfter(s: Setting, w: World, world: nat -> Answers, rs: seq<Request>)
    requires AllWellFormed(rs) && DevNullOpens(world) && -1 !in w.fds
    ensures var now := After(s, w, world, rs);
            && now.pipe == (if Daemonizings(rs) == 0 then w.pipe else -1)
            && now.fds.Keys == OpenAfter(w.fds.Keys, w.pipe, s.bindVerbose, Daemonizings(rs))
            && StaysOrIsNull(w.fds, now.fds, !s.bindVerbose && Daemonizings(rs) > 0)
    decreases |rs|
  {
    if rs != [] {
      var n := |rs| - 1;
      var before := After(s, w, world, rs[..n]);
      DescriptorsAfter(s, w, world, rs[..n]);
      assert Opened(world(n).devNull) == 3;
      DaemonKeys(before.fds, s.bindVerbose, world(n).devNull, before.pipe);
    }
  }

  lemma DaemonKeys(fds: Descriptors, bindVerbose: bool, calls: NullOpens, pipe: int)
    requires Opened(calls) == 3 && -1 !in fds
    ensures DaemonDescriptors(fds, bindVerbose, calls, pipe).Keys == OpenAfter(fds.Keys, pipe, bindVerbose, 1)
    ensures StaysOrIsNull(fds, DaemonDescriptors(fds, bindVerbose, calls, pipe), !bindVerbose)
  {
  }

  /** After how many daemonizings the open numbers are the old ones, less the pipe if there was
      any: always without redirection; after one if 0, 1, 2 were open or are the pipe; after more
      only if they were open and are not the pipe, whose number is opened again otherwise. */
  predicate Conserves(open: set<int>, pipe: int, bindVerbose: bool, daemonizings: nat) {
    || daemonizings == 0 || bindVerbose
    || (daemonizings == 1 && STDIO - {pipe} <= open)
    || (daemonizings > 1 && STDIO <= open && pipe !in STDIO)
  }

  lemma OpenAfterIsOpen(open: set<int>, pipe: int, bindVerbose: bool, n: nat)
    ensures OpenAfter(open, pipe, bindVerbose, n) == (if n == 0 then open else open - {pipe})
       <==> Conserves(open, pipe, bindVerbose, n)
  {
    if n != 0 && !bindVerbose {
      var after := OpenAfter(open, pipe, bindVerbose, n);
      if Conserves(open, pipe, bindVerbose, n) {
        assert after == open - {pipe};
      } else if n == 1 {
        var fd :| fd in STDIO - {pipe} && fd !in open;
        assert fd in after && fd !in open - {pipe};
      } else if pipe in STDIO {
        assert pipe in after && pipe !in open - {pipe};
      } else {
        var fd :| fd in STDIO && fd !in open;
        assert fd in after && fd !in open - {pipe};
      }
    }
  }

  /** Over any number of requests, exactly when the open descriptors are conserved, with the
      launcher's pipe closed by the first daemonizing; and what they refer to in any case. */
  lemma DescriptorsConservedExactly(s: Setting, w: World, world: nat -> Answers, rs: seq<Request>)
    requires AllWellFormed(rs) && DevNullOpens(world) && -1 !in w.fds
    ensures var now := After(s, w, world, rs).fds;
            && (now.Keys == (if Daemonizings(rs) == 0 then w.fds.Keys else w.fds.Keys - {w.pipe})
                <==> Conserves(w.fds.Keys, w.pipe, s.bindVerbose, Daemonizings(rs)))
            && StaysOrIsNull(w.fds, now, !s.bindVerbose && Daemonizings(rs) > 0)
  {
    DescriptorsAfter(s, w, world, rs);
    OpenAfterIsOpen(w.fds.Keys, w.pipe, s.bindVerbose, Daemonizings(rs));
  }

  // ---------------------------------------------------------------- the launcher over runs

  function FirstDaemonizing(rs: seq<Request>): (i: nat)
    requires Daemonizings(rs) > 0
    ensures i < |rs| && rs[i].code == DaemonizeExecutor
  {
    var n := |rs| - 1;
    if Daemonizings(rs[..n]) > 0 then FirstDaemonizing(rs[..n]) else n
  }

  /** The write reaches the launcher exactly when there is a pipe, its number is the write end of one, and
      the redirection, if there is any, does not replace it. */
  lemma TellsMeaning(s: Setting, w: World, a: Answers)
    requires -1 !in w.fds
    ensures TellsLauncher(s, w, a) <==>
              && a.pipeWrite && w.pipe in w.fds && w.fds[w.pipe].PipeEnd? && w.fds[w.pipe].writing
              && (s.bindVerbose || w.pipe !in {0, 1, 2})
  {
    if w.pipe in STDIO {
      PipeOnStdioIsLost(w.fds, a.devNull, w.pipe);
    }
    if w.pipe in w.fds && w.fds[w.pipe].PipeEnd? && w.fds[w.pipe].writing {
      PipeElsewhereReaches(w.fds, s.bindVerbose, a.devNull, w.pipe);
    }
  }

  /** The launcher is told at most once, and exactly when the write of the first daemonizing
      request takes place and its pipe has survived the redirection. */
  lemma {:induction false} ToldExactly(s: Setting, w: World, world: nat -> Answers, rs: seq<Request>)
    requires AllWellFormed(rs)
    ensures var now := After(s, w, world, rs);
            if Daemonizings(rs) == 0 then now.told == w.told && now.fds == w.fds && now.pipe == w.pipe
            else
              && now.pipe == -1
              && now.told == w.told + if TellsLauncher(s, w, world(FirstDaemonizing(rs))) then 1 else 0
    decreases |rs|
  {
    if rs != [] {
      ToldExactly(s, w, world, rs[..|rs| - 1]);
    }
  }

  // ---------------------------------------------------------------- how much is sent

  function ReplyBytes(rs: seq<Request>): nat {
    if rs == [] then 0 else ReplyBytes(rs[..|rs| - 1]) + ResponseSize(rs[|rs| - 1].code)
  }

  lemma {:induction false} BytesOfReplies(s: Setting, w: World, world: nat -> Answers, rs: seq<Request>)
    requires AllWellFormed(rs)
    ensures Bytes(Transcript(Replies(s, w, world, rs))) == ReplyBytes(rs)
    decreases |rs|
  {
    if rs != [] {
      var n := |rs| - 1;
      var e := Reply(s, After(s, w, world, rs[..n]), rs[n], world(n));
      BytesOfReplies(s, w, world, rs[..n]);
      ReplyIsGood(s, After(s, w, world, rs[..n]), rs[n], world(n));
      BytesOfExchange(e);
      TranscriptAppend(Replies(s, w, world, rs[..n]), e);
      BytesAppend(Transcript(Replies(s, w, world, rs[..n])), ItemsOf(e));
    }
  }

  lemma BytesOfExchange(e: Exchange)
    ensures Bytes(ItemsOf(e)) == |e.reply|
  {
    BytesOfData(e.reply);
    var rights := if e.passed.Some? then [Rights(e.passed.value)] else [];
    BytesAppend(AsItems(e.reply), rights);
    assert Bytes(rights) == 0;
  }

  lemma TranscriptAppend(es: seq<Exchange>, e: Exchange)
    ensures Transcript(es + [e]) == Transcript(es) + ItemsOf(e)
  {
    assert (es + [e])[..|es|] == es;
  }

  lemma {:induction false} ReplyBytesOfPrefix(rs: seq<Request>, all: seq<Request>)
    requires rs <= all
    ensures ReplyBytes(rs) <= ReplyBytes(all)
    ensures |rs| < |all| ==> ReplyBytes(rs) + ResponseSize(all[|rs|].code) <= ReplyBytes(all)
    decreases |all|
  {
    if |rs| < |all| {
      var n := |all| - 1;
      assert rs <= all[..n];
      ReplyBytesOfPrefix(rs, all[..n]);
    } else {
      assert rs == all;
    }
  }

  // ---------------------------------------------------------------- the one request that can be refused

  /** The macro with the agent's path is not defined. */
  predicate LacksProgram(m: map<string, string>, bitness: nat) {
    || (bitness == BITNESS_DEFAULT && "cimprovagtPath" !in m)
    || (bitness == BITNESS_32 && "cimprovagt32Path" !in m)
  }

  predicate Servable(m: map<string, string>, r: Request)
    requires WellFormed(r)
  {
    r.code == StartProviderAgent ==> !LacksProgram(m, BitnessOf(r.body))
  }

  predicate AllServable(m: map<string, string>, rs: seq<Request>)
    requires AllWellFormed(rs)
  {
    forall i :: 0 <= i < |rs| ==> Servable(m, rs[i])
  }

  /** The requests before the first one that cannot be served. */
  function ServablePart(m: map<string, string>, rs: seq<Request>): (part: seq<Request>)
    requires AllWellFormed(rs)
    ensures part <= rs && AllWellFormed(part) && AllServable(m, part)
    ensures |part| < |rs| ==> !Servable(m, rs[|part|])
  {
    if rs == [] || !Servable(m, rs[0]) then [] else [rs[0]] + ServablePart(m, rs[1..])
  }

  lemma {:induction false} ServablePartIs(m: map<string, string>, rs: seq<Request>, part: seq<Request>)
    requires AllWellFormed(rs) && part <= rs && AllWellFormed(part) && AllServable(m, part)
    requires |part| < |rs| ==> !Servable(m, rs[|part|])
    ensures part == ServablePart(m, rs)
    decreases |rs|
  {
    if part != [] {
      assert Servable(m, part[0]);
      ServablePartIs(m, rs[1..], part[1..]);
      assert part == [part[0]] + part[1..];
    }
  }
}
