/** Which files a run can change, and what the policy's patterns confine: they are patterns of paths, and
    two paths may stand for one file. */
module Confinement {
  import opened Collections
  import opened Messages
  import opened Kernels
  import opened Policies
  import opened LocalAuth
  import opened OneShot
  import opened Service
  import opened Sessions
  import opened Names

  // ---------------------------------------------------------------- every change has its request

  /** The requests that may change a file: what the policy allows by one of the file's paths, a challenge
      that builds such a path, and an authentication with any such path, of which no policy is asked. */
  ghost predicate MayChange(s: Setting, st: AuthState, r: Request, a: Answers, name: Name)
    requires WellFormed(r)
  {
    || Reaches(s, r, name)
    || (r.code == RemoveFile && RemoveAllowed(s.macros, Field(r.body, 0)) && s.FileAt(Field(r.body, 0)) == name)
    || (r.code == ChallengeLocal && a.knows(Field(r.body, 0)) && BuiltName(s.place, st, ChallengeOf(r, a)) == name)
    || (r.code == AuthenticateLocal && FileOf(s, r) == name)
  }

  lemma ChangeIsAllowed(s: Setting, st: AuthState, r: Request, a: Answers, name: Name)
    requires WellFormed(r) && !SameAt(st.files, AuthAfter(s, st, r, a).files, name)
    ensures MayChange(s, st, r, a, name)
  {
  }

  /** Over every run: a file that is not what it was has been met by a request that may change it. */
  lemma {:induction false} ChangedByRequest(s: Setting, w: World, world: nat -> Answers, rs: seq<Request>, name: Name)
    returns (k: nat)
    requires AllWellFormed(rs) && !SameAt(w.auth.files, After(s, w, world, rs).auth.files, name)
    ensures k < |rs| && MayChange(s, AuthAt(s, w, world, rs, k), rs[k], world(k), name)
    decreases |rs|
  {
    assert rs != [];
    var n := |rs| - 1;
    var before := After(s, w, world, rs[..n]).auth;
    if SameAt(w.auth.files, before.files, name) {
      k := n;
      ChangeIsAllowed(s, before, rs[n], world(n), name);
    } else {
      k := ChangedByRequest(s, w, world, rs[..n], name);
      TakeOfTake(rs, n, k);
    }
  }

  /** So with plain macro values a run changes only files for which a row of the policy has a path, files
      that its challenges build, and files that its authentications name. */
  lemma ChangesAreNamed(s: Setting, w: World, world: nat -> Answers, rs: seq<Request>, name: Name) returns (k: nat)
    requires AllWellFormed(rs) && PlainValues(s.macros)
    requires !SameAt(w.auth.files, After(s, w, world, rs).auth.files, name)
    ensures k < |rs|
    ensures match rs[k].code
            case ChallengeLocal => BuiltName(s.place, AuthAt(s, w, world, rs, k), ChallengeOf(rs[k], world(k))) == name
            case AuthenticateLocal => FileOf(s, rs[k]) == name
            case _ => exists path :: MayRemove(s.macros, path) && s.FileAt(path) == name
  {
    k := ChangedByRequest(s, w, world, rs, name);
    var r := rs[k];
    if r.code == OpenFile {
      WrittenIsConfigured(s.macros, Field(r.body, 0), ModeOf(r.body));
    } else if r.code == RenameFile {
      RenameMeaning(s.macros, Field(r.body, 0), Field(r.body, BUFFER_SIZE));
    } else if r.code == RemoveFile {
      RemoveMeaning(s.macros, Field(r.body, 0));
    }
  }

  /** Over every run: a descriptor on a file is only passed for an open request that the policy allows, to
      write by a path of the rows for that, or to read by the path of the key file. */
  lemma PassedIsAllowed(s: Setting, w: World, world: nat -> Answers, rs: seq<Request>, k: nat, name: Name)
    requires AllWellFormed(rs) && PlainValues(s.macros) && k < |rs|
    requires Replies(s, w, world, rs)[k].passed.Some? && Regular(name) in Replies(s, w, world, rs)[k].passed.value
    ensures rs[k].code == OpenFile && s.FileAt(Field(rs[k].body, 0)) == name
    ensures if ModeOf(rs[k].body) == MODE_R then IsPath(s.macros, SSLKEY, "", Field(rs[k].body, 0))
            else ModeOf(rs[k].body) == MODE_W && IsConfigured(s.macros, Field(rs[k].body, 0))
  {
    ReplyAt(s, w, world, rs, k);
    PassedByOpen(s, After(s, w, world, rs[..k]), rs[k], world(k), name);
    OpenedIsNamed(s.macros, Field(rs[k].body, 0), ModeOf(rs[k].body));
  }

  lemma OpenedIsNamed(m: map<string, string>, path: string, mode: int)
    requires PlainValues(m) && OpenAllowed(m, path, mode) && IsMode(mode)
    ensures if mode == MODE_R then IsPath(m, SSLKEY, "", path) else mode == MODE_W && IsConfigured(m, path)
  {
    OpenMeaning(m, path, ModeArg(mode));
    assert ModeArg(MODE_R) == "r" && ModeArg(MODE_W) == "w" && ModeArg(MODE_A) == "a";
  }

  lemma PassedByOpen(s: Setting, w: World, r: Request, a: Answers, name: Name)
    requires WellFormed(r) && Reply(s, w, r, a).passed.Some? && Regular(name) in Reply(s, w, r, a).passed.value
    ensures r.code == OpenFile && s.FileAt(Field(r.body, 0)) == name
    ensures OpenAllowed(s.macros, Field(r.body, 0), ModeOf(r.body)) && IsMode(ModeOf(r.body))
  {
    ReplyIsGood(s, w, r, a);
  }

  /** The exception to the policy: whatever it says of a path, an authentication removes the file. */
  lemma AuthenticationIsUnchecked(s: Setting, w: World, world: nat -> Answers, rs: seq<Request>, r: Request)
    requires AllWellFormed(rs) && WellFormed(r) && r.code == AuthenticateLocal
    ensures After(s, w, world, rs + [r]).auth.files ==
              if world(|rs|).check.unlink then After(s, w, world, rs).auth.files - {FileOf(s, r)}
              else After(s, w, world, rs).auth.files
  {
    RunStep(s, w, world, rs, r);
  }

  // ---------------------------------------------------------------- what the patterns confine

  /** Paths are read by their words alone, from this directory. */
  ghost predicate IsLexical(place: Place, cwd: Name) {
    forall path :: place.resolve(path) == Lexical(cwd, path)
  }

  /** The policy lets a path behind a store's directory be written, whatever follows; it stands for
      something in that directory exactly when the rest does not climb above it, or comes down again
      through the same directories. */
  lemma StoreConfinesExactly(m: map<string, string>, cwd: Name, store: string, rest: string)
    requires PlainValues(m) && store in {TRUST, CRL} && store in m
    ensures OpenAllowed(m, m[store] + "/" + rest, MODE_W)
    ensures var dir, net := Lexical(cwd, m[store] + "/"), NetOf(Components(rest));
            dir <= Lexical(cwd, m[store] + "/" + rest)
            <==> !Climbs(Components(rest)) || dir[|Above(dir, net.ups)|..] <= net.downs
  {
    FileIsReached(m, m[store] + "/" + rest);
    ConfinedExactly(cwd, m[store], rest);
  }

  /** So as soon as a store is defined no file is private that has a name at all. */
  lemma NothingIsPrivate(m: map<string, string>, place: Place, cwd: Name, store: string, name: Name)
    requires PlainValues(m) && store in {TRUST, CRL} && store in m && IsLexical(place, cwd) && IsProper(name)
    ensures !IsPrivate(m, place.resolve, name)
  {
    var path := m[store] + "/" + Detour(|Lexical(cwd, m[store] + "/")|, name);
    AnyNameBehind(cwd, m[store], name);
    ConfiguredIsReached(m, place.resolve, path);
  }

  /** The rest of a path in a store does not climb. */
  ghost predicate IsLevel(m: map<string, string>, path: string) {
    && (IsUnder(m, TRUST, path) ==> !Climbs(Components(path[|m[TRUST]| + 1..])))
    && (IsUnder(m, CRL, path) ==> !Climbs(Components(path[|m[CRL]| + 1..])))
  }

  ghost predicate OpensAreLevel(m: map<string, string>, rs: seq<Request>)
    requires AllWellFormed(rs)
  {
    forall k :: 0 <= k < |rs| && rs[k].code == OpenFile ==> IsLevel(m, Field(rs[k].body, 0))
  }

  ghost predicate IsFileOf(m: map<string, string>, cwd: Name, name: string, file: Name) {
    name in m && (file == Lexical(cwd, m[name]) || file == Lexical(cwd, m[name] + ".bak"))
  }

  ghost predicate IsInStore(m: map<string, string>, cwd: Name, store: string, file: Name) {
    store in m && Lexical(cwd, m[store] + "/") <= file
  }

  /** The files that the rows mean: the three with their backups, and what is in the two stores. */
  ghost predicate IsMeant(m: map<string, string>, cwd: Name, file: Name) {
    || IsFileOf(m, cwd, CURRENT, file) || IsFileOf(m, cwd, PLANNED, file) || IsFileOf(m, cwd, PASSWORD, file)
    || IsInStore(m, cwd, TRUST, file) || IsInStore(m, cwd, CRL, file)
  }

  lemma LevelIsMeant(m: map<string, string>, cwd: Name, path: string)
    requires IsConfigured(m, path) && IsLevel(m, path)
    ensures IsMeant(m, cwd, Lexical(cwd, path))
  {
    if IsUnder(m, TRUST, path) {
      LevelIsInStore(m, cwd, TRUST, path);
    } else if IsUnder(m, CRL, path) {
      LevelIsInStore(m, cwd, CRL, path);
    } else {
      Plain(m, CURRENT);
      Plain(m, PLANNED);
      Plain(m, PASSWORD);
    }
  }

  lemma Plain(m: map<string, string>, name: string)
    ensures name in m ==> m[name] + "" == m[name]
  {
  }

  lemma LevelIsInStore(m: map<string, string>, cwd: Name, store: string, path: string)
    requires IsUnder(m, store, path) && !Climbs(Components(path[|m[store]| + 1..]))
    ensures IsInStore(m, cwd, store, Lexical(cwd, path))
  {
    assert path == m[store] + "/" + path[|m[store]| + 1..];
    ConfinedExactly(cwd, m[store], path[|m[store]| + 1..]);
  }

  /** On a run whose opens do not climb, no request reaches a file that the rows do not mean. */
  lemma LevelRunIsConfined(s: Setting, cwd: Name, rs: seq<Request>, name: Name)
    requires AllWellFormed(rs) && PlainValues(s.macros) && IsLexical(s.place, cwd)
    requires OpensAreLevel(s.macros, rs) && !IsMeant(s.macros, cwd, name)
    ensures NoneReaches(s, rs, name)
  {
    forall k | 0 <= k < |rs| ensures !Reaches(s, rs[k], name) {
      assert WellFormed(rs[k]);
      LevelIsNotReached(s, cwd, rs[k], name);
    }
  }

  lemma LevelIsNotReached(s: Setting, cwd: Name, r: Request, name: Name)
    requires WellFormed(r) && PlainValues(s.macros) && IsLexical(s.place, cwd) && !IsMeant(s.macros, cwd, name)
    requires r.code == OpenFile ==> IsLevel(s.macros, Field(r.body, 0))
    ensures !Reaches(s, r, name)
  {
    if r.code == OpenFile && Reaches(s, r, name) {
      WrittenIsConfigured(s.macros, Field(r.body, 0), ModeOf(r.body));
      LevelIsMeant(s.macros, cwd, Field(r.body, 0));
    } else if r.code == RenameFile && Reaches(s, r, name) {
      RenamedIsMeant(s.macros, cwd, Field(r.body, 0), Field(r.body, BUFFER_SIZE));
    }
  }

  lemma RenamedIsMeant(m: map<string, string>, cwd: Name, source: string, target: string)
    requires PlainValues(m) && RenameAllowed(m, source, target)
    ensures IsMeant(m, cwd, Lexical(cwd, source)) && IsMeant(m, cwd, Lexical(cwd, target))
  {
    RenameMeaning(m, source, target);
    Plain(m, CURRENT);
    Plain(m, PLANNED);
    Plain(m, PASSWORD);
  }

  /** Read so, the entries of the challenge directory are told apart. */
  lemma LexicalTellsApart(place: Place, cwd: Name)
    requires IsLexical(place, cwd)
    ensures TellsApart(place)
  {
    forall a, b: string | '/' !in a && '/' !in b && place.resolve(Entry(place, a)) == place.resolve(Entry(place, b))
      ensures a == b
    {
      EntryOf(place, cwd, a);
      EntryOf(place, cwd, b);
      var d := Lexical(cwd, place.dir + "/");
      assert (d + ["cimclient_" + a])[|d|] == (d + ["cimclient_" + b])[|d|];
      assert ("cimclient_" + a)[10..] == a && ("cimclient_" + b)[10..] == b;
    }
  }

  lemma EntryOf(place: Place, cwd: Name, leaf: string)
    requires IsLexical(place, cwd) && '/' !in leaf
    ensures place.resolve(Entry(place, leaf)) == Lexical(cwd, place.dir + "/") + ["cimclient_" + leaf]
  {
    assert Entry(place, leaf) == place.dir + "/" + ("cimclient_" + leaf);
    assert ("cimclient_" + leaf)[0] == 'c';
    LexicalEntry(cwd, place.dir, "cimclient_" + leaf);
  }
}
