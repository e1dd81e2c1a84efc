/** Requests as a client fills in the structures of pegasus/src/Executor/Messages.h, and that the executor
    reads in them what was filled in. */
module Clients {
  import opened CStrings
  import opened Messages
  import opened Service

  /** Texts that fit a member with their terminator. */
  predicate Fits(s: string) {
    IsBytes(s) && |s| < BUFFER_SIZE
  }

  lemma OneName(a: string, after: seq<Byte>)
    requires Fits(a)
    ensures Field(Padded(a) + after, 0) == a
  {
    PaddedReads(a, [], after);
    assert [] + Padded(a) + after == Padded(a) + after;
  }

  lemma SecondName(before: seq<Byte>, b: string)
    requires Fits(b)
    ensures Field(before + Padded(b), |before|) == b
  {
    PaddedReads(b, before, []);
    assert before + Padded(b) + [] == before + Padded(b);
  }

  /** Requests with one name: removal, user validation, challenge, log level. */
  lemma NameIsRead(c: MessageCode, a: string)
    requires c in {RemoveFile, ValidateUser, ChallengeLocal, UpdateLogLevel} && Fits(a)
    ensures WellFormed(Request(c, Padded(a))) && Field(Padded(a), 0) == a
  {
    OneName(a, []);
    assert Padded(a) + [] == Padded(a);
  }

  /** Requests with two: old and new path, user and password, challenge and response. */
  lemma NamesAreRead(c: MessageCode, a: string, b: string)
    requires c in {RenameFile, AuthenticatePassword, AuthenticateLocal} && Fits(a) && Fits(b)
    ensures WellFormed(Request(c, Padded(a) + Padded(b)))
    ensures Field(Padded(a) + Padded(b), 0) == a && Field(Padded(a) + Padded(b), BUFFER_SIZE) == b
  {
    OneName(a, Padded(b));
    SecondName(Padded(a), b);
  }

  /** An open request: the path, then the mode as a signed int. */
  lemma OpenIsRead(path: string, mode: int)
    requires Fits(path) && -0x8000_0000 <= mode < 0x8000_0000
    ensures WellFormed(Request(OpenFile, Padded(path) + Int32(mode)))
    ensures Field(Padded(path) + Int32(mode), 0) == path && ModeOf(Padded(path) + Int32(mode)) == mode
  {
    OneName(path, Int32(mode));
    assert (Padded(path) + Int32(mode))[BUFFER_SIZE..] == Int32(mode);
    SignedOfInt32(mode);
  }

  function Uint16(v: nat): seq<Byte> {
    [v % 256, v / 256 % 256]
  }

  /** An agent request: the kind of module as an unsigned short, the module, the user. */
  lemma AgentIsRead(bitness: nat, moduleName: string, user: string)
    requires bitness < 0x1_0000 && Fits(moduleName) && Fits(user)
    ensures var body := Uint16(bitness) + Padded(moduleName) + Padded(user);
            && WellFormed(Request(StartProviderAgent, body))
            && BitnessOf(body) == bitness && AgentUserOf(body) == user
  {
    SecondName(Uint16(bitness) + Padded(moduleName), user);
  }

  /** How long each reply is. */
  lemma ReplySizes(s: Setting, w: World, r: Request, a: Answers)
    requires WellFormed(r)
    ensures |Reply(s, w, r, a).reply| == match r.code
                                         case StartProviderAgent => 8
                                         case ChallengeLocal => 4100
                                         case _ => 4
  {
  }

  /** How long each request is on the wire, code included. */
  lemma EncodedSizes(r: Request)
    requires WellFormed(r)
    ensures |Encode(r)| == match r.code
                           case Ping => 4
                           case DaemonizeExecutor => 4
                           case OpenFile => 4104
                           case StartProviderAgent => 8198
                           case RemoveFile => 4100
                           case ValidateUser => 4100
                           case ChallengeLocal => 4100
                           case UpdateLogLevel => 4100
                           case RenameFile => 8196
                           case AuthenticatePassword => 8196
                           case AuthenticateLocal => 8196
  {
  }
}
