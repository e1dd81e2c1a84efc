/** What holds over whole runs of challenge, authenticate and remove requests
    (pegasus/src/Executor/LocalAuth.c). Files are told apart by what their paths stand for. */
module OneShot {
  import opened Messages
  import opened Expansion
  import opened Kernels
  import opened LocalAuth
  import opened CStrings
  import opened Decimals

  /** The state before step i. */
  function StateAt(place: Place, st: AuthState, steps: seq<Step>, i: nat): AuthState
    requires i <= |steps|
  {
    if i == 0 then st else Do(place, StateAt(place, st, steps, i - 1), steps[i - 1]).0
  }

  function OutcomeAt(place: Place, st: AuthState, steps: seq<Step>, i: nat): Outcome
    requires i < |steps|
  {
    Do(place, StateAt(place, st, steps, i), steps[i]).1
  }

  predicate AllValid(steps: seq<Step>) {
    forall i :: 0 <= i < |steps| ==> ValidStep(steps[i])
  }

  predicate SameAt(a: Files, b: Files, name: Name) {
    (name in a <==> name in b) && (name in a ==> a[name] == b[name])
  }

  predicate LeavesAlone(place: Place, st: AuthState, steps: seq<Step>, name: Name, k: nat)
    requires k < |steps|
  {
    steps[k].Change? ==> SameAt(StateAt(place, st, steps, k).files, steps[k].files, name)
  }

  /** Other requests leave this file alone, whatever they do elsewhere. */
  predicate Undisturbed(place: Place, st: AuthState, steps: seq<Step>, name: Name) {
    forall k :: 0 <= k < |steps| ==> LeavesAlone(place, st, steps, name, k)
  }

  /** The path a challenge builds in a given state. */
  function BuiltPath(place: Place, st: AuthState, step: Step): string
    requires step.Challenge?
  {
    PathInBuffer(place.dir, step.user, st.next, step.msec)
  }

  function BuiltName(place: Place, st: AuthState, step: Step): Name
    requires step.Challenge?
  {
    place.resolve(BuiltPath(place, st, step))
  }

  /** Steps that use the file up, by whatever path: a challenge on it, unless an old file is in the way
      and stays; an authentication or a removal whose unlink works. */
  predicate Settles(place: Place, st: AuthState, step: Step, name: Name) {
    match step
    case Challenge(_, known, _, _, create) =>
      known && BuiltName(place, st, step) == name && (name in st.files ==> create.unlinkOld)
    case Authenticate(path, _, check) => place.resolve(path) == name && check.unlink
    case Remove(path, unlink) => place.resolve(path) == name && unlink
    case Change(_) => false
  }

  /** The challenge leaves a whole token in the file: all its calls work, or the last one and the
      cleanup after it both fail. */
  predicate LeavesToken(place: Place, st: AuthState, step: Step, name: Name, token: string) {
    && step.Challenge? && Settles(place, st, step, name) && token == Hex(step.random)
    && step.create.open && step.create.written >= |token| && (step.create.fchown || !step.create.cleanup)
  }

  predicate SettledAt(place: Place, st: AuthState, steps: seq<Step>, name: Name, k: nat)
    requires k < |steps|
  {
    Settles(place, StateAt(place, st, steps, k), steps[k], name)
  }

  ghost predicate Untouched(place: Place, st: AuthState, steps: seq<Step>, name: Name, lo: nat, hi: nat)
    requires hi <= |steps|
  {
    forall k :: lo <= k < hi ==> !SettledAt(place, st, steps, name, k)
  }

  lemma StepKeepsOtherFiles(place: Place, st: AuthState, step: Step, name: Name)
    requires !Settles(place, st, step, name) && (step.Change? ==> SameAt(st.files, step.files, name))
    ensures SameAt(st.files, Do(place, st, step).0.files, name)
  {
  }

  lemma OnlyChallengesFill(place: Place, st: AuthState, step: Step, name: Name)
    requires Settles(place, st, step, name) && name in Do(place, st, step).0.files
    ensures step.Challenge?
  {
  }

  lemma KeptAt(place: Place, st: AuthState, steps: seq<Step>, name: Name, k: nat)
    requires k < |steps| && Undisturbed(place, st, steps, name) && !SettledAt(place, st, steps, name, k)
    ensures SameAt(StateAt(place, st, steps, k).files, StateAt(place, st, steps, k + 1).files, name)
  {
    assert LeavesAlone(place, st, steps, name, k);
    StepKeepsOtherFiles(place, StateAt(place, st, steps, k), steps[k], name);
  }

  lemma FilledAt(place: Place, st: AuthState, steps: seq<Step>, name: Name, k: nat)
    requires k < |steps| && SettledAt(place, st, steps, name, k)
    requires name in StateAt(place, st, steps, k + 1).files
    ensures steps[k].Challenge?
  {
    OnlyChallengesFill(place, StateAt(place, st, steps, k), steps[k], name);
  }

  /** Where the content of a file comes from: it was there before the run, or a step left it. */
  datatype Origin = AtStart | LeftBy(j: nat)

  /** Nothing has used the file since then. */
  ghost predicate Since(place: Place, st: AuthState, steps: seq<Step>, o: Origin, i: nat, name: Name)
    requires i <= |steps|
  {
    match o
    case AtStart => Untouched(place, st, steps, name, 0, i)
    case LeftBy(j) => j < i && Untouched(place, st, steps, name, j + 1, i)
  }

  lemma StillSince(place: Place, st: AuthState, steps: seq<Step>, o: Origin, i: nat, name: Name)
    requires i < |steps| && Since(place, st, steps, o, i, name) && !SettledAt(place, st, steps, name, i)
    ensures Since(place, st, steps, o, i + 1, name)
  {
  }

  /** A file that is there now was there before, or a challenge put it there, and it was not used since. */
  lemma {:induction false} PendingWasLeft(place: Place, st: AuthState, steps: seq<Step>, name: Name, i: nat)
    returns (o: Origin)
    requires i <= |steps| && Undisturbed(place, st, steps, name)
    requires name in StateAt(place, st, steps, i).files
    ensures Since(place, st, steps, o, i, name)
    ensures o.LeftBy? ==> steps[o.j].Challenge? && SettledAt(place, st, steps, name, o.j)
    ensures o.AtStart? ==> name in st.files
  {
    if i == 0 {
      o := AtStart;
    } else if SettledAt(place, st, steps, name, i - 1) {
      FilledAt(place, st, steps, name, i - 1);
      o := LeftBy(i - 1);
    } else {
      KeptAt(place, st, steps, name, i - 1);
      o := PendingWasLeft(place, st, steps, name, i - 1);
      StillSince(place, st, steps, o, i - 1, name);
    }
  }

  lemma {:induction false} UntouchedKeeps(place: Place, st: AuthState, steps: seq<Step>, name: Name, lo: nat, hi: nat)
    requires lo <= hi <= |steps| && Untouched(place, st, steps, name, lo, hi) && Undisturbed(place, st, steps, name)
    ensures SameAt(StateAt(place, st, steps, lo).files, StateAt(place, st, steps, hi).files, name)
    decreases hi
  {
    if lo < hi {
      UntouchedKeeps(place, st, steps, name, lo, hi - 1);
      KeptAt(place, st, steps, name, hi - 1);
    }
  }

  lemma TokenReadsBack(random: seq<Byte>)
    requires |random| == TOKEN_LENGTH / 2
    ensures |Hex(random)| == TOKEN_LENGTH && StrOf(Hex(random)[..TOKEN_LENGTH]) == Hex(random)
  {
    assert Hex(random)[..TOKEN_LENGTH] == Hex(random);
    StrOfWhole(Hex(random));
  }

  lemma {:induction false} StrOfWhole(s: string)
    requires NulFree(s)
    ensures StrOf(s) == s
  {
    if s != "" {
      assert s[0] in s;
      StrOfWhole(s[1..]);
      assert s == [s[0]] + s[1..];
    }
  }

  /** After a challenge on the file, it holds a response exactly when that is a whole token left there. */
  lemma LeftTokenMatches(place: Place, st: AuthState, step: Step, name: Name, response: string)
    requires step.Challenge? && ValidStep(step) && Settles(place, st, step, name)
    ensures Holds(Do(place, st, step).0.files, name, response) <==> LeavesToken(place, st, step, name, response)
  {
    TokenReadsBack(step.random);
  }

  /** The file got exactly this token there and then, and nothing has used it up to step i. */
  ghost predicate Answered(place: Place, st: AuthState, steps: seq<Step>, o: Origin, i: nat, name: Name, token: string)
    requires i <= |steps|
  {
    && Since(place, st, steps, o, i, name)
    && match o
       case AtStart => Holds(st.files, name, token)
       case LeftBy(j) => LeavesToken(place, StateAt(place, st, steps, j), steps[j], name, token)
  }

  lemma AuthenticationMeans(place: Place, st: AuthState, steps: seq<Step>, i: nat)
    requires i < |steps| && steps[i].Authenticate?
    ensures var files, name := StateAt(place, st, steps, i).files, place.resolve(steps[i].path);
            && (OutcomeAt(place, st, steps, i) == Accepted
                <==> TokenMatches(files, name, steps[i].response, steps[i].check))
            && (name in StateAt(place, st, steps, i + 1).files <==> name in files && !steps[i].check.unlink)
            && (!steps[i].check.unlink ==> StateAt(place, st, steps, i + 1).files == files)
  {
  }

  lemma SameHolds(a: Files, b: Files, name: Name, token: string)
    requires SameAt(a, b, name)
    ensures Holds(a, name, token) <==> Holds(b, name, token)
  {
  }

  /** What was there at the origin decides what the file holds now. */
  lemma HoldsSince(place: Place, st: AuthState, steps: seq<Step>, o: Origin, i: nat, name: Name, token: string)
    requires AllValid(steps) && i <= |steps| && Undisturbed(place, st, steps, name)
             && Since(place, st, steps, o, i, name)
    requires o.LeftBy? ==> steps[o.j].Challenge? && SettledAt(place, st, steps, name, o.j)
    ensures Holds(StateAt(place, st, steps, i).files, name, token) <==> Answered(place, st, steps, o, i, name, token)
  {
    match o {
      case AtStart =>
        UntouchedKeeps(place, st, steps, name, 0, i);
        SameHolds(st.files, StateAt(place, st, steps, i).files, name, token);
      case LeftBy(j) =>
        LeftTokenMatches(place, StateAt(place, st, steps, j), steps[j], name, token);
        UntouchedKeeps(place, st, steps, name, j + 1, i);
        SameHolds(StateAt(place, st, steps, j + 1).files, StateAt(place, st, steps, i).files, name, token);
    }
  }

  lemma AcceptedHasOrigin(place: Place, st: AuthState, steps: seq<Step>, i: nat) returns (o: Origin)
    requires AllValid(steps) && i < |steps| && steps[i].Authenticate? && OutcomeAt(place, st, steps, i) == Accepted
    requires Undisturbed(place, st, steps, place.resolve(steps[i].path))
    ensures Answered(place, st, steps, o, i, place.resolve(steps[i].path), steps[i].response)
  {
    var name := place.resolve(steps[i].path);
    AuthenticationMeans(place, st, steps, i);
    o := PendingWasLeft(place, st, steps, name, i);
    HoldsSince(place, st, steps, o, i, name, steps[i].response);
  }

  lemma OriginIsAccepted(place: Place, st: AuthState, steps: seq<Step>, o: Origin, i: nat)
    requires AllValid(steps) && i < |steps| && steps[i].Authenticate? && steps[i].check.open && steps[i].check.read
    requires Undisturbed(place, st, steps, place.resolve(steps[i].path))
    requires Answered(place, st, steps, o, i, place.resolve(steps[i].path), steps[i].response)
    ensures OutcomeAt(place, st, steps, i) == Accepted
  {
    HoldsSince(place, st, steps, o, i, place.resolve(steps[i].path), steps[i].response);
    AuthenticationMeans(place, st, steps, i);
  }

  /** Over every run and for all answers of the system, whatever the paths: an authentication succeeds
      exactly when its reads work and the file that its path stands for was given this token by an
      earlier challenge, or held it before the run, and nothing has used the file since. */
  lemma AcceptedExactly(place: Place, st: AuthState, steps: seq<Step>, i: nat)
    requires AllValid(steps) && i < |steps| && steps[i].Authenticate?
    requires Undisturbed(place, st, steps, place.resolve(steps[i].path))
    ensures OutcomeAt(place, st, steps, i) == Accepted <==>
              && steps[i].check.open && steps[i].check.read
              && exists o :: Answered(place, st, steps, o, i, place.resolve(steps[i].path), steps[i].response)
  {
    var name, token := place.resolve(steps[i].path), steps[i].response;
    if OutcomeAt(place, st, steps, i) == Accepted {
      AuthenticationMeans(place, st, steps, i);
      var o := AcceptedHasOrigin(place, st, steps, i);
    }
    if steps[i].check.open && steps[i].check.read && exists o :: Answered(place, st, steps, o, i, name, token) {
      var o :| Answered(place, st, steps, o, i, name, token);
      OriginIsAccepted(place, st, steps, o, i);
    }
  }

  /** A challenge that left a token was also answered with it unless its last call failed, and with
      it the cleanup: such a challenge is refused and can be answered all the same. */
  lemma IssuedExactly(place: Place, st: AuthState, step: Step, path: string, token: string)
    requires step.Challenge?
    ensures Do(place, st, step).1 == Issued(path, token) <==>
              && LeavesToken(place, st, step, place.resolve(path), token) && step.create.fchown
              && BuiltPath(place, st, step) == path
  {
  }

  predicate CleanupsWork(steps: seq<Step>) {
    forall i :: 0 <= i < |steps| && steps[i].Challenge? ==> steps[i].create.cleanup
  }

  /** A challenge was issued with a path for this file, and this token. */
  ghost predicate IssuedAt(place: Place, st: AuthState, steps: seq<Step>, j: nat, name: Name, token: string)
    requires j < |steps|
  {
    exists path :: OutcomeAt(place, st, steps, j) == Issued(path, token) && place.resolve(path) == name
  }

  lemma LeftIsIssued(place: Place, st: AuthState, steps: seq<Step>, j: nat, name: Name, token: string)
    requires CleanupsWork(steps) && j < |steps|
    ensures LeavesToken(place, StateAt(place, st, steps, j), steps[j], name, token)
       <==> IssuedAt(place, st, steps, j, name, token)
  {
    if steps[j].Challenge? {
      var here := StateAt(place, st, steps, j);
      IssuedExactly(place, here, steps[j], BuiltPath(place, here, steps[j]), token);
    }
  }

  /** So when cleanups work, a success answers a challenge that was issued, or a file from before. */
  lemma AcceptedWasIssued(place: Place, st: AuthState, steps: seq<Step>, i: nat)
    requires AllValid(steps) && CleanupsWork(steps) && i < |steps| && steps[i].Authenticate?
    requires Undisturbed(place, st, steps, place.resolve(steps[i].path))
    ensures var name, token := place.resolve(steps[i].path), steps[i].response;
            OutcomeAt(place, st, steps, i) == Accepted <==>
              && steps[i].check.open && steps[i].check.read
              && (|| (Holds(st.files, name, token) && Untouched(place, st, steps, name, 0, i))
                  || exists j: nat :: j < i && IssuedAt(place, st, steps, j, name, token)
                                      && Untouched(place, st, steps, name, j + 1, i))
  {
    var name, token := place.resolve(steps[i].path), steps[i].response;
    AcceptedExactly(place, st, steps, i);
    assert Answered(place, st, steps, AtStart, i, name, token)
      <==> Holds(st.files, name, token) && Untouched(place, st, steps, name, 0, i);
    forall j: nat | j < i
      ensures Answered(place, st, steps, LeftBy(j), i, name, token)
         <==> IssuedAt(place, st, steps, j, name, token) && Untouched(place, st, steps, name, j + 1, i)
    {
      LeftIsIssued(place, st, steps, j, name, token);
    }
  }

  /** What an authentication has used up can only come from a later challenge. */
  lemma LaterOrigin(place: Place, st: AuthState, steps: seq<Step>, o: Origin, i: nat, i': nat,
                    name: Name, token: string)
    requires i < i' < |steps| && steps[i].Authenticate? && SettledAt(place, st, steps, name, i)
    requires Answered(place, st, steps, o, i', name, token)
    ensures o.LeftBy? && i < o.j < i'
  {
  }

  /** Two successes on one file: the second answers a challenge made after the first, if the first could
      remove the file. */
  lemma SuccessesConsumeDistinctChallenges(place: Place, st: AuthState, steps: seq<Step>, i: nat, i': nat)
    returns (o: Origin, j': nat)
    requires AllValid(steps) && i < i' < |steps| && steps[i].Authenticate? && steps[i'].Authenticate?
    requires place.resolve(steps[i].path) == place.resolve(steps[i'].path)
    requires Undisturbed(place, st, steps, place.resolve(steps[i].path))
    requires OutcomeAt(place, st, steps, i) == Accepted && OutcomeAt(place, st, steps, i') == Accepted
    requires steps[i].check.unlink
    ensures Answered(place, st, steps, o, i, place.resolve(steps[i].path), steps[i].response)
    ensures i < j' < i' && Answered(place, st, steps, LeftBy(j'), i', place.resolve(steps[i'].path), steps[i'].response)
  {
    o := AcceptedHasOrigin(place, st, steps, i);
    var o' := AcceptedHasOrigin(place, st, steps, i');
    LaterOrigin(place, st, steps, o', i, i', place.resolve(steps[i].path), steps[i'].response);
    j' := o'.j;
  }

  /** And only then: a response that was accepted is accepted again later, with nothing on the file
      in between, if and only if the first time could not remove the file. */
  lemma ReplayExactly(place: Place, st: AuthState, steps: seq<Step>, i: nat, i': nat)
    requires i < i' < |steps| && steps[i].Authenticate? && steps[i'].Authenticate?
    requires place.resolve(steps[i].path) == place.resolve(steps[i'].path) && steps[i].response == steps[i'].response
    requires Undisturbed(place, st, steps, place.resolve(steps[i].path))
    requires Untouched(place, st, steps, place.resolve(steps[i].path), i + 1, i')
    requires OutcomeAt(place, st, steps, i) == Accepted && steps[i'].check.open && steps[i'].check.read
    ensures OutcomeAt(place, st, steps, i') == Accepted <==> !steps[i].check.unlink
  {
    var name := place.resolve(steps[i].path);
    AuthenticationMeans(place, st, steps, i);
    AuthenticationMeans(place, st, steps, i');
    UntouchedKeeps(place, st, steps, name, i + 1, i');
    SameHolds(StateAt(place, st, steps, i + 1).files, StateAt(place, st, steps, i').files, name, steps[i].response);
  }

  // ---------------------------------------------------------------- paths are not reused

  function Built(steps: seq<Step>): nat {
    if steps == [] then 0
    else Built(steps[..|steps| - 1]) + (if steps[|steps| - 1].Challenge? && steps[|steps| - 1].known then 1 else 0)
  }

  lemma {:induction false} NextCounts(place: Place, st: AuthState, steps: seq<Step>, i: nat)
    requires i <= |steps| && st.next == 1
    ensures StateAt(place, st, steps, i).next == Residue(1 + Built(steps[..i]))
  {
    if i > 0 {
      NextCounts(place, st, steps, i - 1);
      assert steps[..i][..i - 1] == steps[..i - 1];
      assert Built(steps[..i]) == Built(steps[..i - 1])
                + (if steps[i - 1].Challenge? && steps[i - 1].known then 1 else 0);
      ResidueOfNext(1 + Built(steps[..i - 1]));
    }
  }

  function Residue(n: nat): nat {
    n % SEQ_MODULUS
  }

  lemma ResidueOfNext(n: nat)
    ensures (Residue(n) + 1) % SEQ_MODULUS == Residue(n + 1)
  {
  }

  lemma {:induction false} BuiltGrows(steps: seq<Step>, j: nat, i: nat)
    requires j < i <= |steps| && steps[j].Challenge? && steps[j].known
    ensures Built(steps[..j]) < Built(steps[..i])
    decreases i
  {
    assert steps[..i][..i - 1] == steps[..i - 1];
    if j < i - 1 {
      BuiltGrows(steps, j, i - 1);
    }
  }

  lemma DistinctResidues(a: nat, b: nat)
    requires a < b < a + SEQ_MODULUS
    ensures Residue(a) != Residue(b)
  {
    var q, r, d := a / SEQ_MODULUS, a % SEQ_MODULUS, b - a;
    if r + d < SEQ_MODULUS {
      assert b == q * SEQ_MODULUS + (r + d);
    } else {
      assert b == (q + 1) * SEQ_MODULUS + (r + d - SEQ_MODULUS);
    }
  }

  /** The challenge's number is not cut off. */
  predicate FitsBuffer(place: Place, st: AuthState, step: Step) {
    step.Challenge? ==> NumberFits(place.dir, step.user, st.next)
  }

  /** The two integers behind the numbers of two challenges. */
  lemma NumbersAreResidues(place: Place, st: AuthState, steps: seq<Step>, j: nat, i: nat) returns (a: nat, b: nat)
    requires st.next == 1 && j < i < |steps| && Built(steps[..i]) < SEQ_MODULUS
    requires steps[j].Challenge? && steps[j].known
    ensures a < b < a + SEQ_MODULUS
    ensures StateAt(place, st, steps, j).next == Residue(a) && StateAt(place, st, steps, i).next == Residue(b)
  {
    NextCounts(place, st, steps, j);
    NextCounts(place, st, steps, i);
    BuiltGrows(steps, j, i);
    a, b := 1 + Built(steps[..j]), 1 + Built(steps[..i]);
  }

  lemma ChallengesHaveOwnNumbers(place: Place, st: AuthState, steps: seq<Step>, j: nat, i: nat)
    requires st.next == 1 && j < i < |steps| && Built(steps[..i]) < SEQ_MODULUS
    requires steps[j].Challenge? && steps[j].known
    ensures StateAt(place, st, steps, j).next != StateAt(place, st, steps, i).next
  {
    var a, b := NumbersAreResidues(place, st, steps, j, i);
    DistinctResidues(a, b);
  }

  /** In one run with no more than 2^32 challenges and no number cut off, no two challenges
      build the same path. */
  lemma ChallengesHaveOwnPaths(place: Place, st: AuthState, steps: seq<Step>, j: nat, i: nat)
    requires st.next == 1 && j < i < |steps| && Built(steps[..i]) < SEQ_MODULUS
    requires steps[j].Challenge? && steps[j].known && steps[i].Challenge?
    requires FitsBuffer(place, StateAt(place, st, steps, j), steps[j])
    requires FitsBuffer(place, StateAt(place, st, steps, i), steps[i])
    ensures BuiltPath(place, StateAt(place, st, steps, j), steps[j])
         != BuiltPath(place, StateAt(place, st, steps, i), steps[i])
  {
    ChallengesHaveOwnNumbers(place, st, steps, j, i);
    PathsTellNumbers(place, StateAt(place, st, steps, j), steps[j], StateAt(place, st, steps, i), steps[i]);
  }

  lemma PathsTellNumbers(place: Place, a: AuthState, first: Step, b: AuthState, second: Step)
    requires first.Challenge? && second.Challenge? && a.next != b.next
    requires FitsBuffer(place, a, first) && FitsBuffer(place, b, second)
    ensures BuiltPath(place, a, first) != BuiltPath(place, b, second)
  {
    if BuiltPath(place, a, first) == BuiltPath(place, b, second) {
      ChallengePathInjective(place.dir, first.user, a.next, first.msec, second.user, b.next, second.msec);
    }
  }

  /** The system tells apart the entries of the challenge directory. */
  ghost predicate TellsApart(place: Place) {
    forall a, b: string :: '/' !in a && '/' !in b && place.resolve(Entry(place, a)) == place.resolve(Entry(place, b))
      ==> a == b
  }

  function Entry(place: Place, leaf: string): string {
    place.dir + "/cimclient_" + leaf
  }

  /** The user's name is one component of a path. */
  predicate PlainUser(step: Step) {
    step.Challenge? ==> '/' !in step.user
  }

  /** The path a challenge builds is an entry of the directory, and of no directory below. */
  lemma BuiltIsEntry(place: Place, st: AuthState, step: Step) returns (leaf: string)
    requires step.Challenge? && FitsBuffer(place, st, step) && PlainUser(step)
    ensures BuiltPath(place, st, step) == Entry(place, leaf) && '/' !in leaf
  {
    var rest := PathSplits(place.dir, step.user, st.next, step.msec);
    leaf := step.user + "_" + Decimal(st.next) + "_" + rest;
    assert Telling(place.dir, step.user, st.next) + "_" + rest == Entry(place, leaf);
    DecimalHasNoSlash(st.next);
    DecimalHasNoSlash(step.msec);
    assert '/' !in rest;
  }

  lemma DecimalHasNoSlash(n: nat)
    ensures '/' !in Decimal(n)
  {
  }

  /** So they do not build paths for one file either. */
  lemma ChallengesHaveOwnFiles(place: Place, st: AuthState, steps: seq<Step>, j: nat, i: nat)
    requires st.next == 1 && j < i < |steps| && Built(steps[..i]) < SEQ_MODULUS && TellsApart(place)
    requires steps[j].Challenge? && steps[j].known && steps[i].Challenge? && PlainUser(steps[j]) && PlainUser(steps[i])
    requires FitsBuffer(place, StateAt(place, st, steps, j), steps[j])
    requires FitsBuffer(place, StateAt(place, st, steps, i), steps[i])
    ensures BuiltName(place, StateAt(place, st, steps, j), steps[j])
         != BuiltName(place, StateAt(place, st, steps, i), steps[i])
  {
    var a, b := StateAt(place, st, steps, j), StateAt(place, st, steps, i);
    ChallengesHaveOwnPaths(place, st, steps, j, i);
    var first := BuiltIsEntry(place, a, steps[j]);
    var second := BuiltIsEntry(place, b, steps[i]);
  }

  /** Only a challenge makes a file appear. */
  lemma {:induction false} PresentWasBuilt(place: Place, st: AuthState, steps: seq<Step>, name: Name,
                                           i: nat) returns (j: nat)
    requires i <= |steps| && name !in st.files && name in StateAt(place, st, steps, i).files
    requires Undisturbed(place, st, steps, name)
    ensures j < i && steps[j].Challenge? && steps[j].known
            && BuiltName(place, StateAt(place, st, steps, j), steps[j]) == name
  {
    assert i > 0;
    assert LeavesAlone(place, st, steps, name, i - 1);
    if name in StateAt(place, st, steps, i - 1).files {
      j := PresentWasBuilt(place, st, steps, name, i - 1);
    } else {
      j := i - 1;
    }
  }

  /** So a challenge never meets, and never destroys, the pending file of another one. */
  lemma ChallengeDestroysNothing(place: Place, st: AuthState, steps: seq<Step>, i: nat)
    requires st.next == 1 && i < |steps| && Built(steps[..i]) < SEQ_MODULUS && steps[i].Challenge? && TellsApart(place)
    requires forall k :: 0 <= k <= i ==>
               FitsBuffer(place, StateAt(place, st, steps, k), steps[k]) && PlainUser(steps[k])
    requires BuiltName(place, StateAt(place, st, steps, i), steps[i]) !in st.files
    requires Undisturbed(place, st, steps, BuiltName(place, StateAt(place, st, steps, i), steps[i]))
    ensures BuiltName(place, StateAt(place, st, steps, i), steps[i]) !in StateAt(place, st, steps, i).files
    ensures forall n :: n in StateAt(place, st, steps, i).files ==>
                          && n in StateAt(place, st, steps, i + 1).files
                          && StateAt(place, st, steps, i + 1).files[n] == StateAt(place, st, steps, i).files[n]
  {
    var here := StateAt(place, st, steps, i);
    var name := BuiltName(place, here, steps[i]);
    if name in here.files {
      var j := PresentWasBuilt(place, st, steps, name, i);
      ChallengesHaveOwnFiles(place, st, steps, j, i);
    }
    assert StateAt(place, st, steps, i + 1) == Do(place, here, steps[i]).0;
  }
}
