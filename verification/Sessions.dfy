/** Local authentication as the peer on the socket sees it: the replies of whole runs of the
    executor, whatever other requests lie between. */
module Sessions {
  import opened Collections
  import opened CStrings
  import opened Messages
  import opened Kernels
  import opened Policies
  import opened Decimals
  import opened LocalAuth
  import opened OneShot
  import opened Service

  // ---------------------------------------------------------------- every request is a step

  /** A request as a step on the authentication files; opens and renames change files elsewhere. */
  ghost function StepOf(s: Setting, st: AuthState, r: Request, a: Answers): Step
    requires WellFormed(r)
  {
    match r.code
    case ChallengeLocal => ChallengeOf(r, a)
    case AuthenticateLocal => AuthenticationOf(r, a)
    case RemoveFile => Remove(Field(r.body, 0), RemoveAllowed(s.macros, Field(r.body, 0)) && a.unlink)
    case OpenFile => Change(AuthAfter(s, st, r, a).files)
    case RenameFile => Change(AuthAfter(s, st, r, a).files)
    case _ => Remove("", false)
  }

  ghost function AuthAt(s: Setting, w: World, world: nat -> Answers, rs: seq<Request>, i: nat): AuthState
    requires AllWellFormed(rs) && i <= |rs|
  {
    After(s, w, world, rs[..i]).auth
  }

  ghost function StepsOf(s: Setting, w: World, world: nat -> Answers, rs: seq<Request>): (steps: seq<Step>)
    requires AllWellFormed(rs)
    ensures |steps| == |rs|
  {
    seq(|rs|, i requires 0 <= i < |rs| => StepOf(s, AuthAt(s, w, world, rs, i), rs[i], world(i)))
  }

  ghost predicate AnswersValid(world: nat -> Answers) {
    forall k: nat :: ValidAnswers(world(k))
  }

  lemma ServiceTakesStep(s: Setting, st: AuthState, r: Request, a: Answers)
    requires WellFormed(r)
    ensures AuthAfter(s, st, r, a) == Do(s.place, st, StepOf(s, st, r, a)).0
  {
    if r.code == RemoveFile && s.FileAt(Field(r.body, 0)) !in st.files {
      assert st.files - {s.FileAt(Field(r.body, 0))} == st.files;
    }
  }

  /** The executor's files and counter move as the protocol's steps say, over every run. */
  lemma {:induction false} ServiceRunsSteps(s: Setting, w: World, world: nat -> Answers, rs: seq<Request>, k: nat)
    requires AllWellFormed(rs) && k <= |rs|
    ensures AuthAt(s, w, world, rs, k) == StateAt(s.place, w.auth, StepsOf(s, w, world, rs), k)
  {
    if k > 0 {
      ServiceRunsSteps(s, w, world, rs, k - 1);
      TakeOfTake(rs, k, k - 1);
      ServiceTakesStep(s, AuthAt(s, w, world, rs, k - 1), rs[k - 1], world(k - 1));
    }
  }

  lemma StepIsValid(s: Setting, st: AuthState, r: Request, a: Answers)
    requires WellFormed(r) && ValidAnswers(a)
    ensures ValidStep(StepOf(s, st, r, a))
  {
  }

  lemma StepsAreValid(s: Setting, w: World, world: nat -> Answers, rs: seq<Request>)
    requires AllWellFormed(rs) && AnswersValid(world)
    ensures AllValid(StepsOf(s, w, world, rs))
  {
    forall k | 0 <= k < |rs| ensures ValidStep(StepsOf(s, w, world, rs)[k]) {
      StepIsValid(s, AuthAt(s, w, world, rs, k), rs[k], world(k));
    }
  }

  // ---------------------------------------------------------------- files that other requests do not reach

  /** The policy lets this request open for writing, or rename from or to, a path of this file. */
  ghost predicate Reaches(s: Setting, r: Request, name: Name)
    requires WellFormed(r)
  {
    match r.code
    case OpenFile =>
      Writes(ModeOf(r.body)) && OpenAllowed(s.macros, Field(r.body, 0), ModeOf(r.body))
      && s.FileAt(Field(r.body, 0)) == name
    case RenameFile =>
      && RenameAllowed(s.macros, Field(r.body, 0), Field(r.body, BUFFER_SIZE))
      && (s.FileAt(Field(r.body, 0)) == name || s.FileAt(Field(r.body, BUFFER_SIZE)) == name)
    case _ => false
  }

  ghost predicate NoneReaches(s: Setting, rs: seq<Request>, name: Name)
    requires AllWellFormed(rs)
  {
    forall k :: 0 <= k < |rs| ==> !Reaches(s, rs[k], name)
  }

  /** The policy lets no request at all do so, whatever path it uses. */
  ghost predicate IsPrivate(m: map<string, string>, resolve: string -> Name, name: Name) {
    && (forall path, mode: int :: Writes(mode) && OpenAllowed(m, path, mode) ==> resolve(path) != name)
    && (forall source, target :: RenameAllowed(m, source, target) ==>
          resolve(source) != name && resolve(target) != name)
  }

  lemma PrivateIsNotReached(s: Setting, rs: seq<Request>, name: Name)
    requires AllWellFormed(rs) && IsPrivate(s.macros, s.place.resolve, name)
    ensures NoneReaches(s, rs, name)
  {
    forall k | 0 <= k < |rs| ensures !Reaches(s, rs[k], name) {
      assert WellFormed(rs[k]);
    }
  }

  /** The files and directories that the policy's rows for renames and for opens to write name. */
  ghost predicate IsConfigured(m: map<string, string>, path: string) {
    || IsPath(m, CURRENT, "", path) || IsPath(m, CURRENT, ".bak", path)
    || IsPath(m, PLANNED, "", path) || IsPath(m, PLANNED, ".bak", path)
    || IsPath(m, PASSWORD, "", path) || IsPath(m, PASSWORD, ".bak", path)
    || IsUnder(m, TRUST, path) || IsUnder(m, CRL, path)
  }

  /** With plain macro values a file is private exactly when none of these paths stands for it. */
  lemma PrivateExactly(m: map<string, string>, resolve: string -> Name, name: Name)
    requires PlainValues(m)
    ensures IsPrivate(m, resolve, name) <==> forall path :: IsConfigured(m, path) ==> resolve(path) != name
  {
    forall path, mode: int | Writes(mode) && OpenAllowed(m, path, mode) ensures IsConfigured(m, path) {
      WrittenIsConfigured(m, path, mode);
    }
    forall source, target | RenameAllowed(m, source, target)
      ensures IsConfigured(m, source) && IsConfigured(m, target) {
      RenameMeaning(m, source, target);
    }
    forall path | IsConfigured(m, path) && IsPrivate(m, resolve, name) ensures resolve(path) != name {
      ConfiguredIsReached(m, resolve, path);
    }
  }

  lemma WrittenIsConfigured(m: map<string, string>, path: string, mode: int)
    requires PlainValues(m) && Writes(mode) && OpenAllowed(m, path, mode)
    ensures IsConfigured(m, path)
  {
    OpenMeaning(m, path, ModeArg(mode));
  }

  lemma BackupIsReached(m: map<string, string>, name: string, path: string)
    requires PlainValues(m) && name in {CURRENT, PLANNED, PASSWORD} && IsPath(m, name, ".bak", path)
    ensures RenameAllowed(m, m[name], path)
  {
    assert m[name] + "" == m[name];
    RenameMeaning(m, m[name], path);
  }

  lemma FileIsReached(m: map<string, string>, path: string)
    requires PlainValues(m)
    requires || IsPath(m, CURRENT, "", path) || IsPath(m, PLANNED, "", path) || IsPath(m, PASSWORD, "", path)
             || IsUnder(m, TRUST, path) || IsUnder(m, CRL, path)
    ensures Writes(MODE_W) && OpenAllowed(m, path, MODE_W)
  {
    assert ModeArg(MODE_W) == "w";
    OpenMeaning(m, path, ModeArg(MODE_W));
  }

  lemma ConfiguredIsReached(m: map<string, string>, resolve: string -> Name, path: string)
    requires PlainValues(m) && IsConfigured(m, path)
    ensures !IsPrivate(m, resolve, resolve(path))
  {
    if IsPath(m, CURRENT, ".bak", path) {
      BackupIsReached(m, CURRENT, path);
    } else if IsPath(m, PLANNED, ".bak", path) {
      BackupIsReached(m, PLANNED, path);
    } else if IsPath(m, PASSWORD, ".bak", path) {
      BackupIsReached(m, PASSWORD, path);
    } else {
      FileIsReached(m, path);
    }
  }

  /** A request that may change files elsewhere leaves a file that it does not reach alone. */
  lemma UnreachedIsSame(s: Setting, st: AuthState, r: Request, a: Answers, name: Name)
    requires WellFormed(r) && !Reaches(s, r, name) && (r.code == OpenFile || r.code == RenameFile)
    ensures SameAt(st.files, AuthAfter(s, st, r, a).files, name)
  {
  }

  /** The files that the step of a request leaves, if it may change any. */
  lemma ChangeAt(s: Setting, w: World, world: nat -> Answers, rs: seq<Request>, k: nat)
    requires AllWellFormed(rs) && k < |rs| && StepsOf(s, w, world, rs)[k].Change?
    ensures rs[k].code == OpenFile || rs[k].code == RenameFile
    ensures StepsOf(s, w, world, rs)[k].files == AuthAfter(s, AuthAt(s, w, world, rs, k), rs[k], world(k)).files
  {
    assert StepsOf(s, w, world, rs)[k] == StepOf(s, AuthAt(s, w, world, rs, k), rs[k], world(k));
  }

  lemma UnreachedIsLeftAlone(s: Setting, w: World, world: nat -> Answers, rs: seq<Request>, name: Name, k: nat)
    requires AllWellFormed(rs) && k < |rs| && !Reaches(s, rs[k], name)
    ensures LeavesAlone(s.place, w.auth, StepsOf(s, w, world, rs), name, k)
  {
    if StepsOf(s, w, world, rs)[k].Change? {
      ChangeAt(s, w, world, rs, k);
      UnreachedIsSame(s, AuthAt(s, w, world, rs, k), rs[k], world(k), name);
      ServiceRunsSteps(s, w, world, rs, k);
    }
  }

  lemma UnreachedIsUndisturbed(s: Setting, w: World, world: nat -> Answers, rs: seq<Request>, name: Name)
    requires AllWellFormed(rs) && NoneReaches(s, rs, name)
    ensures Undisturbed(s.place, w.auth, StepsOf(s, w, world, rs), name)
  {
    forall k | 0 <= k < |rs|
      ensures LeavesAlone(s.place, w.auth, StepsOf(s, w, world, rs), name, k)
    {
      UnreachedIsLeftAlone(s, w, world, rs, name, k);
    }
  }

  // ---------------------------------------------------------------- replies

  lemma RepliesEnd(s: Setting, w: World, world: nat -> Answers, rs: seq<Request>)
    requires AllWellFormed(rs) && rs != []
    ensures var n := |rs| - 1;
            && Replies(s, w, world, rs)[..n] == Replies(s, w, world, rs[..n])
            && Replies(s, w, world, rs)[n] == Reply(s, After(s, w, world, rs[..n]), rs[n], world(n))
  {
  }

  /** A run that goes on does not change its replies. */
  lemma {:induction false} RepliesTake(s: Setting, w: World, world: nat -> Answers, rs: seq<Request>, k: nat)
    requires AllWellFormed(rs) && k <= |rs|
    ensures Replies(s, w, world, rs)[..k] == Replies(s, w, world, rs[..k])
    decreases |rs|
  {
    var n := |rs| - 1;
    if k == |rs| {
      assert rs[..k] == rs;
    } else {
      RepliesEnd(s, w, world, rs);
      RepliesTake(s, w, world, rs[..n], k);
      TakeOfTake(rs, n, k);
      TakeOfTake(Replies(s, w, world, rs), n, k);
    }
  }

  lemma ReplyAt(s: Setting, w: World, world: nat -> Answers, rs: seq<Request>, i: nat)
    requires AllWellFormed(rs) && i < |rs|
    ensures Replies(s, w, world, rs)[i] == Reply(s, After(s, w, world, rs[..i]), rs[i], world(i))
  {
    RepliesTake(s, w, world, rs, i + 1);
    RepliesEnd(s, w, world, rs[..i + 1]);
    TakeOfTake(rs, i + 1, i);
    assert Replies(s, w, world, rs)[i] == Replies(s, w, world, rs)[..i + 1][i];
  }

  /** The number at the front of a reply: what the peer is told. */
  ghost function Says(s: Setting, w: World, world: nat -> Answers, rs: seq<Request>, i: nat): Option<int>
    requires AllWellFormed(rs) && i < |rs|
  {
    Number(Replies(s, w, world, rs)[i].reply, 0)
  }

  /** The reply to any request but a ping begins with its status. */
  lemma SaysStatus(s: Setting, w: World, world: nat -> Answers, rs: seq<Request>, i: nat)
    requires AllWellFormed(rs) && i < |rs| && rs[i].code != Ping
    ensures Says(s, w, world, rs, i) == Some(Status(s, AuthAt(s, w, world, rs, i), rs[i], world(i)))
  {
    ReplyAt(s, w, world, rs, i);
    ReplyIsGood(s, After(s, w, world, rs[..i]), rs[i], world(i));
  }

  lemma SaysOutcome(s: Setting, w: World, world: nat -> Answers, rs: seq<Request>, i: nat)
    requires AllWellFormed(rs) && i < |rs| && rs[i].code == AuthenticateLocal
    ensures StepsOf(s, w, world, rs)[i] == AuthenticationOf(rs[i], world(i))
    ensures Says(s, w, world, rs, i)
            == Some(StatusOf(OutcomeAt(s.place, w.auth, StepsOf(s, w, world, rs), i) == Accepted))
  {
    SaysStatus(s, w, world, rs, i);
    ServiceRunsSteps(s, w, world, rs, i);
    AuthenticationStep(s, AuthAt(s, w, world, rs, i), rs[i], world(i));
    OutcomeOfStep(s.place, w.auth, StepsOf(s, w, world, rs), i);
  }

  /** The file that an authentication request is about. */
  function FileOf(s: Setting, r: Request): Name
    requires WellFormed(r) && r.code == AuthenticateLocal
  {
    s.FileAt(Field(r.body, 0))
  }

  function ResponseOf(r: Request): string
    requires WellFormed(r) && r.code == AuthenticateLocal
  {
    Field(r.body, BUFFER_SIZE)
  }

  /** The same, for what the theorems on two replies use. */
  lemma SaysYes(s: Setting, w: World, world: nat -> Answers, rs: seq<Request>, i: nat)
    requires AllWellFormed(rs) && i < |rs| && rs[i].code == AuthenticateLocal
    ensures var steps := StepsOf(s, w, world, rs);
            && steps[i].Authenticate? && s.FileAt(steps[i].path) == FileOf(s, rs[i])
            && steps[i].response == ResponseOf(rs[i]) && steps[i].check == world(i).check
            && Says(s, w, world, rs, i) == Some(StatusOf(OutcomeAt(s.place, w.auth, steps, i) == Accepted))
  {
    SaysOutcome(s, w, world, rs, i);
  }

  lemma AuthenticationStep(s: Setting, st: AuthState, r: Request, a: Answers)
    requires WellFormed(r) && r.code == AuthenticateLocal
    ensures StepOf(s, st, r, a) == AuthenticationOf(r, a)
    ensures Status(s, st, r, a) == StatusOf(Do(s.place, st, AuthenticationOf(r, a)).1 == Accepted)
  {
  }

  lemma OutcomeOfStep(place: Place, st: AuthState, steps: seq<Step>, i: nat)
    requires i < |steps|
    ensures OutcomeAt(place, st, steps, i) == Do(place, StateAt(place, st, steps, i), steps[i]).1
  {
  }

  lemma OnlyChallengesLeave(s: Setting, st: AuthState, r: Request, a: Answers, name: Name, token: string)
    requires WellFormed(r)
    ensures LeavesToken(s.place, st, StepOf(s, st, r, a), name, token)
       <==> r.code == ChallengeLocal && LeavesToken(s.place, st, ChallengeOf(r, a), name, token)
  {
  }

  /** Request j is a challenge that left this token in this file. */
  ghost predicate Left(s: Setting, w: World, world: nat -> Answers, rs: seq<Request>, j: nat, name: Name, token: string)
    requires AllWellFormed(rs) && j < |rs|
  {
    && rs[j].code == ChallengeLocal
    && LeavesToken(s.place, AuthAt(s, w, world, rs, j), ChallengeOf(rs[j], world(j)), name, token)
  }

  lemma DecimalIsBytes(n: nat)
    ensures IsBytes(Decimal(n))
  {
  }

  lemma PathIsBytes(dir: string, user: string, number: nat, msec: nat)
    requires IsBytes(dir) && IsBytes(user)
    ensures IsBytes(PathInBuffer(dir, user, number, msec))
  {
    DecimalIsBytes(number);
    DecimalIsBytes(msec);
    assert IsBytes("/cimclient_") && IsBytes("_");
    assert IsBytes(ChallengePath(dir, user, number, msec));
  }

  /** The reply to a challenge of a known user whose calls all work says 0 and carries the path that
      was built; any other says -1. */
  lemma ChallengeReply(s: Setting, w: World, world: nat -> Answers, rs: seq<Request>, j: nat)
    requires AllWellFormed(rs) && j < |rs| && rs[j].code == ChallengeLocal && IsBytes(s.place.dir)
    ensures var here, step := AuthAt(s, w, world, rs, j), ChallengeOf(rs[j], world(j));
            var issued := Do(s.place, here, step).1.Issued?;
            && Says(s, w, world, rs, j) == Some(if issued then 0 else -1)
            && (issued ==> PathIn(Replies(s, w, world, rs)[j].reply) == Some(BuiltPath(s.place, here, step)))
  {
    var here, r, a := AuthAt(s, w, world, rs, j), rs[j], world(j);
    var path := PathSent(s, here, r, a);
    ReplyAt(s, w, world, rs, j);
    SaysStatus(s, w, world, rs, j);
    PathIsBytes(s.place.dir, Field(r.body, 0), here.next, a.msec);
    PaddedReads(path, Int32(Status(s, here, r, a)), []);
    assert Int32(Status(s, here, r, a)) + Padded(path) + [] == Int32(Status(s, here, r, a)) + Padded(path);
  }

  /** Unless its fchown failed, a challenge that left a token was answered with 0 and a path of the file;
      and a challenge so answered has left its token there. */
  lemma LeftWasAnswered(s: Setting, w: World, world: nat -> Answers, rs: seq<Request>, j: nat, name: Name)
    requires AllWellFormed(rs) && j < |rs| && rs[j].code == ChallengeLocal && IsBytes(s.place.dir)
    ensures Left(s, w, world, rs, j, name, Hex(world(j).random)) && world(j).creation.fchown <==>
              && Says(s, w, world, rs, j) == Some(0)
              && PathIn(Replies(s, w, world, rs)[j].reply).Some?
              && s.FileAt(PathIn(Replies(s, w, world, rs)[j].reply).value) == name
  {
    var here, step := AuthAt(s, w, world, rs, j), ChallengeOf(rs[j], world(j));
    ChallengeReply(s, w, world, rs, j);
    IssuedExactly(s.place, here, step, BuiltPath(s.place, here, step), Hex(world(j).random));
  }

  /** The file got this token there and then, from a challenge or before the run, and nothing that was
      served since has used it. */
  ghost predicate Pending(s: Setting, w: World, world: nat -> Answers, rs: seq<Request>, o: Origin, i: nat,
                          name: Name, token: string)
    requires AllWellFormed(rs) && i <= |rs|
  {
    && Since(s.place, w.auth, StepsOf(s, w, world, rs), o, i, name)
    && match o
       case AtStart => Holds(w.auth.files, name, token)
       case LeftBy(j) => Left(s, w, world, rs, j, name, token)
  }

  lemma LeftIsStep(s: Setting, w: World, world: nat -> Answers, rs: seq<Request>, j: nat, name: Name, token: string)
    requires AllWellFormed(rs) && j < |rs|
    ensures var steps := StepsOf(s, w, world, rs);
            Left(s, w, world, rs, j, name, token)
            <==> LeavesToken(s.place, StateAt(s.place, w.auth, steps, j), steps[j], name, token)
  {
    ServiceRunsSteps(s, w, world, rs, j);
    OnlyChallengesLeave(s, AuthAt(s, w, world, rs, j), rs[j], world(j), name, token);
  }

  lemma AnsweredIsPending(s: Setting, w: World, world: nat -> Answers, rs: seq<Request>, o: Origin, i: nat,
                          name: Name, token: string)
    requires AllWellFormed(rs) && i < |rs|
    ensures Pending(s, w, world, rs, o, i, name, token)
       <==> Answered(s.place, w.auth, StepsOf(s, w, world, rs), o, i, name, token)
  {
    if o.LeftBy? && o.j < i {
      LeftIsStep(s, w, world, rs, o.j, name, token);
    }
  }

  lemma StepAcceptedExactly(s: Setting, w: World, world: nat -> Answers, rs: seq<Request>, i: nat)
    requires AllWellFormed(rs) && AnswersValid(world) && i < |rs|
    requires var step := StepsOf(s, w, world, rs)[i]; step.Authenticate? && NoneReaches(s, rs, s.FileAt(step.path))
    ensures var steps := StepsOf(s, w, world, rs);
            OutcomeAt(s.place, w.auth, steps, i) == Accepted <==>
              && steps[i].check.open && steps[i].check.read
              && exists o :: Pending(s, w, world, rs, o, i, s.FileAt(steps[i].path), steps[i].response)
  {
    var steps := StepsOf(s, w, world, rs);
    var name, token := s.FileAt(steps[i].path), steps[i].response;
    StepsAreValid(s, w, world, rs);
    UnreachedIsUndisturbed(s, w, world, rs, name);
    AcceptedExactly(s.place, w.auth, steps, i);
    forall o
      ensures Pending(s, w, world, rs, o, i, name, token) <==> Answered(s.place, w.auth, steps, o, i, name, token)
    {
      AnsweredIsPending(s, w, world, rs, o, i, name, token);
    }
  }

  /** Over every run and for all answers of the system: when no request of the run opens the file to
      write, or renames it, the reply to an authentication says yes exactly when the file could be read
      and got this token from an earlier challenge, or held it before the run, and was not used since. */
  lemma AuthenticatedExactly(s: Setting, w: World, world: nat -> Answers, rs: seq<Request>, i: nat)
    requires AllWellFormed(rs) && AnswersValid(world) && i < |rs| && rs[i].code == AuthenticateLocal
    requires NoneReaches(s, rs, FileOf(s, rs[i]))
    ensures Says(s, w, world, rs, i) in {Some(0), Some(-1)}
    ensures Says(s, w, world, rs, i) == Some(0) <==>
              && world(i).check.open && world(i).check.read
              && exists o :: Pending(s, w, world, rs, o, i, FileOf(s, rs[i]), ResponseOf(rs[i]))
  {
    SaysYes(s, w, world, rs, i);
    StepAcceptedExactly(s, w, world, rs, i);
    var step := StepsOf(s, w, world, rs)[i];
    assert forall o :: Pending(s, w, world, rs, o, i, s.FileAt(step.path), step.response)
                       <==> Pending(s, w, world, rs, o, i, FileOf(s, rs[i]), ResponseOf(rs[i]));
  }

  /** Two accepted steps of the run, as OneShot has them: the second answers a challenge in between. */
  lemma StepsConsumeDistinctChallenges(s: Setting, w: World, world: nat -> Answers, rs: seq<Request>, i: nat, i': nat)
    returns (o: Origin, j': nat)
    requires AllWellFormed(rs) && AnswersValid(world) && i < i' < |rs|
    requires var steps := StepsOf(s, w, world, rs);
             && steps[i].Authenticate? && steps[i'].Authenticate? && steps[i].check.unlink
             && s.FileAt(steps[i].path) == s.FileAt(steps[i'].path) && NoneReaches(s, rs, s.FileAt(steps[i].path))
             && OutcomeAt(s.place, w.auth, steps, i) == Accepted && OutcomeAt(s.place, w.auth, steps, i') == Accepted
    ensures var steps := StepsOf(s, w, world, rs);
            && Pending(s, w, world, rs, o, i, s.FileAt(steps[i].path), steps[i].response)
            && i < j' < i' && Pending(s, w, world, rs, LeftBy(j'), i', s.FileAt(steps[i'].path), steps[i'].response)
  {
    var steps := StepsOf(s, w, world, rs);
    var name := s.FileAt(steps[i].path);
    StepsAreValid(s, w, world, rs);
    UnreachedIsUndisturbed(s, w, world, rs, name);
    o, j' := SuccessesConsumeDistinctChallenges(s.place, w.auth, steps, i, i');
    AnsweredIsPending(s, w, world, rs, o, i, name, steps[i].response);
    AnsweredIsPending(s, w, world, rs, LeftBy(j'), i', name, steps[i'].response);
  }

  /** Two positive replies for one file: the later one answers a challenge made after the first, if the
      first could remove the file. */
  lemma RepliesConsumeDistinctChallenges(s: Setting, w: World, world: nat -> Answers, rs: seq<Request>, i: nat, i': nat)
    returns (o: Origin, j': nat)
    requires AllWellFormed(rs) && AnswersValid(world)
    requires i < i' < |rs| && rs[i].code == AuthenticateLocal && rs[i'].code == AuthenticateLocal
    requires FileOf(s, rs[i]) == FileOf(s, rs[i']) && NoneReaches(s, rs, FileOf(s, rs[i]))
    requires Says(s, w, world, rs, i) == Some(0) && Says(s, w, world, rs, i') == Some(0)
             && world(i).check.unlink
    ensures Pending(s, w, world, rs, o, i, FileOf(s, rs[i]), ResponseOf(rs[i]))
    ensures i < j' < i' && Pending(s, w, world, rs, LeftBy(j'), i', FileOf(s, rs[i']), ResponseOf(rs[i']))
  {
    SaysYes(s, w, world, rs, i);
    SaysYes(s, w, world, rs, i');
    o, j' := StepsConsumeDistinctChallenges(s, w, world, rs, i, i');
  }

  lemma RepeatedStep(s: Setting, w: World, world: nat -> Answers, rs: seq<Request>, i: nat, i': nat)
    requires AllWellFormed(rs) && i < i' < |rs|
    requires var steps := StepsOf(s, w, world, rs);
             && steps[i].Authenticate? && steps[i'].Authenticate?
             && s.FileAt(steps[i].path) == s.FileAt(steps[i'].path) && steps[i].response == steps[i'].response
             && NoneReaches(s, rs, s.FileAt(steps[i].path))
             && Untouched(s.place, w.auth, steps, s.FileAt(steps[i].path), i + 1, i')
             && OutcomeAt(s.place, w.auth, steps, i) == Accepted && steps[i'].check.open && steps[i'].check.read
    ensures var steps := StepsOf(s, w, world, rs);
            OutcomeAt(s.place, w.auth, steps, i') == Accepted <==> !steps[i].check.unlink
  {
    UnreachedIsUndisturbed(s, w, world, rs, s.FileAt(StepsOf(s, w, world, rs)[i].path));
    ReplayExactly(s.place, w.auth, StepsOf(s, w, world, rs), i, i');
  }

  /** The same response is accepted again, with nothing on the file in between, exactly when the first
      positive reply left its file behind. */
  lemma RepeatedExactly(s: Setting, w: World, world: nat -> Answers, rs: seq<Request>, i: nat, i': nat)
    requires AllWellFormed(rs) && i < i' < |rs| && rs[i].code == AuthenticateLocal && rs[i'].code == AuthenticateLocal
    requires FileOf(s, rs[i]) == FileOf(s, rs[i']) && ResponseOf(rs[i]) == ResponseOf(rs[i'])
    requires NoneReaches(s, rs, FileOf(s, rs[i]))
    requires Untouched(s.place, w.auth, StepsOf(s, w, world, rs), FileOf(s, rs[i]), i + 1, i')
    requires Says(s, w, world, rs, i) == Some(0) && world(i').check.open && world(i').check.read
    ensures Says(s, w, world, rs, i') == Some(0) <==> !world(i).check.unlink
  {
    SaysYes(s, w, world, rs, i);
    SaysYes(s, w, world, rs, i');
    RepeatedStep(s, w, world, rs, i, i');
  }

  // ---------------------------------------------------------------- from a challenge to its answer

  lemma AuthMoves(s: Setting, w: World, world: nat -> Answers, rs: seq<Request>, j: nat)
    requires AllWellFormed(rs) && j < |rs|
    ensures AuthAt(s, w, world, rs, j + 1) == AuthAfter(s, AuthAt(s, w, world, rs, j), rs[j], world(j))
  {
    TakeOfTake(rs, j + 1, j);
    assert rs[..j + 1][..|rs[..j + 1]| - 1] == rs[..j];
  }

  /** A challenge answered with 0 leaves in the file of the path in its reply exactly its token. */
  lemma ChallengeLeavesToken(s: Setting, w: World, world: nat -> Answers, rs: seq<Request>, j: nat, name: Name)
    requires AllWellFormed(rs) && j < |rs| && rs[j].code == ChallengeLocal && IsBytes(s.place.dir)
    requires Says(s, w, world, rs, j) == Some(0)
    requires name == BuiltName(s.place, AuthAt(s, w, world, rs, j), ChallengeOf(rs[j], world(j)))
    ensures Left(s, w, world, rs, j, name, Hex(world(j).random))
    ensures name in AuthAt(s, w, world, rs, j + 1).files
    ensures AuthAt(s, w, world, rs, j + 1).files[name] == Hex(world(j).random)
  {
    ChallengeReply(s, w, world, rs, j);
    AuthMoves(s, w, world, rs, j);
    IssuedLeaves(s, AuthAt(s, w, world, rs, j), rs[j], world(j));
  }

  lemma IssuedLeaves(s: Setting, st: AuthState, r: Request, a: Answers)
    requires WellFormed(r) && r.code == ChallengeLocal && Do(s.place, st, ChallengeOf(r, a)).1.Issued?
    ensures var name := BuiltName(s.place, st, ChallengeOf(r, a));
            && LeavesToken(s.place, st, ChallengeOf(r, a), name, Hex(a.random))
            && name in AuthAfter(s, st, r, a).files && AuthAfter(s, st, r, a).files[name] == Hex(a.random)
  {
  }

  /** The path that a reply carries stands for the file that was built. */
  lemma CarriedIsBuilt(s: Setting, w: World, world: nat -> Answers, rs: seq<Request>, j: nat, r: Request)
    requires AllWellFormed(rs) && j < |rs| && rs[j].code == ChallengeLocal && IsBytes(s.place.dir)
    requires Says(s, w, world, rs, j) == Some(0) && WellFormed(r) && r.code == AuthenticateLocal
    requires r.body[..BUFFER_SIZE] == PathBytes(Replies(s, w, world, rs)[j].reply)
    ensures FileOf(s, r) == BuiltName(s.place, AuthAt(s, w, world, rs, j), ChallengeOf(rs[j], world(j)))
  {
    SamePath(r.body, Replies(s, w, world, rs)[j].reply);
    ChallengeReply(s, w, world, rs, j);
  }

  /** End to end: a request made of the path bytes of a reply that says 0, with what is then in the file
      as the response, is answered with 0, if nothing uses the file in between and its reads work. */
  lemma ChallengeIsAnswered(s: Setting, w: World, world: nat -> Answers, rs: seq<Request>, j: nat, i: nat)
    requires AllWellFormed(rs) && AnswersValid(world) && IsBytes(s.place.dir) && j < i < |rs|
    requires rs[j].code == ChallengeLocal && Says(s, w, world, rs, j) == Some(0)
    requires rs[i].code == AuthenticateLocal
    requires rs[i].body[..BUFFER_SIZE] == PathBytes(Replies(s, w, world, rs)[j].reply)
    requires var name, files := FileOf(s, rs[i]), AuthAt(s, w, world, rs, j + 1).files;
             name in files ==> ResponseOf(rs[i]) == files[name]
    requires NoneReaches(s, rs, FileOf(s, rs[i])) && world(i).check.open && world(i).check.read
    requires Untouched(s.place, w.auth, StepsOf(s, w, world, rs), FileOf(s, rs[i]), j + 1, i)
    ensures FileOf(s, rs[i]) in AuthAt(s, w, world, rs, j + 1).files
    ensures Says(s, w, world, rs, i) == Some(0)
  {
    CarriedIsBuilt(s, w, world, rs, j, rs[i]);
    ChallengeLeavesToken(s, w, world, rs, j, FileOf(s, rs[i]));
    LeftIsAnswered(s, w, world, rs, j, i);
  }

  lemma LeftIsAnswered(s: Setting, w: World, world: nat -> Answers, rs: seq<Request>, j: nat, i: nat)
    requires AllWellFormed(rs) && AnswersValid(world) && j < i < |rs| && rs[i].code == AuthenticateLocal
    requires Left(s, w, world, rs, j, FileOf(s, rs[i]), ResponseOf(rs[i]))
    requires NoneReaches(s, rs, FileOf(s, rs[i])) && world(i).check.open && world(i).check.read
    requires Untouched(s.place, w.auth, StepsOf(s, w, world, rs), FileOf(s, rs[i]), j + 1, i)
    ensures Says(s, w, world, rs, i) == Some(0)
  {
    assert Pending(s, w, world, rs, LeftBy(j), i, FileOf(s, rs[i]), ResponseOf(rs[i]));
    AuthenticatedExactly(s, w, world, rs, i);
  }

  /** What follows the status. */
  function PathBytes(reply: seq<Byte>): seq<Byte> {
    if |reply| >= 4 then reply[4..] else []
  }

  lemma SamePath(body: seq<Byte>, reply: seq<Byte>)
    requires |body| >= BUFFER_SIZE && PathBytes(reply) == body[..BUFFER_SIZE]
    ensures PathIn(reply) == Some(Field(body, 0))
  {
    assert |reply[4..]| == BUFFER_SIZE && reply[4..4 + BUFFER_SIZE] == reply[4..];
    assert body[0..0 + BUFFER_SIZE] == body[..BUFFER_SIZE];
  }
}
