/** Requests on the executor's socket and how they are framed
    (pegasus/src/Executor/Messages.h and the loop of Parent.c).

    Numbers are 32-bit and little-endian; structures have no padding. */
module Messages {
  import opened Collections

  type Byte = b: int | 0 <= b < 256 witness 0

  const BUFFER_SIZE := 4096

  datatype MessageCode =
    | Ping | OpenFile | StartProviderAgent | DaemonizeExecutor | RemoveFile | RenameFile
    | AuthenticatePassword | ValidateUser | ChallengeLocal | AuthenticateLocal | UpdateLogLevel

  function CodeValue(c: MessageCode): (v: nat)
    ensures 1 <= v <= 11
  {
    match c
    case Ping => 1
    case OpenFile => 2
    case StartProviderAgent => 3
    case DaemonizeExecutor => 4
    case RemoveFile => 5
    case RenameFile => 6
    case AuthenticatePassword => 7
    case ValidateUser => 8
    case ChallengeLocal => 9
    case AuthenticateLocal => 10
    case UpdateLogLevel => 11
  }

  /** The order in which the header file counts the codes. */
  const CODES: seq<MessageCode> :=
    [Ping, OpenFile, StartProviderAgent, DaemonizeExecutor, RemoveFile, RenameFile,
     AuthenticatePassword, ValidateUser, ChallengeLocal, AuthenticateLocal, UpdateLogLevel]

  /** They are counted from 1, and these are all. */
  lemma CodesAreCounted(c: MessageCode, k: nat)
    requires k < |CODES|
    ensures CodeValue(CODES[k]) == k + 1
    ensures c in CODES
  {
    assert c == CODES[CodeValue(c) - 1];
  }

  datatype CodeOption = NoCode | Code(code: MessageCode)

  /** The dispatch of a received code; NoCode is the default branch. */
  function CodeOf(v: nat): CodeOption {
    match v
    case 1 => Code(Ping)
    case 2 => Code(OpenFile)
    case 3 => Code(StartProviderAgent)
    case 4 => Code(DaemonizeExecutor)
    case 5 => Code(RemoveFile)
    case 6 => Code(RenameFile)
    case 7 => Code(AuthenticatePassword)
    case 8 => Code(ValidateUser)
    case 9 => Code(ChallengeLocal)
    case 10 => Code(AuthenticateLocal)
    case 11 => Code(UpdateLogLevel)
    case _ => NoCode
  }

  lemma CodeOfValue(c: MessageCode)
    ensures CodeOf(CodeValue(c)) == Code(c)
  {
  }

  lemma ValueOfCode(v: nat)
    ensures CodeOf(v).Code? ==> CodeValue(CodeOf(v).code) == v
  {
  }

  const HEADER_SIZE := 4

  /** sizeof the structure that follows the header. */
  function BodySize(c: MessageCode): nat {
    match c
    case Ping => 0
    case OpenFile => BUFFER_SIZE + 4
    case StartProviderAgent => 2 + 2 * BUFFER_SIZE
    case DaemonizeExecutor => 0
    case RemoveFile => BUFFER_SIZE
    case RenameFile => 2 * BUFFER_SIZE
    case AuthenticatePassword => 2 * BUFFER_SIZE
    case ValidateUser => BUFFER_SIZE
    case ChallengeLocal => BUFFER_SIZE
    case AuthenticateLocal => 2 * BUFFER_SIZE
    case UpdateLogLevel => BUFFER_SIZE
  }

  function LowByte(v: nat): Byte {
    v % 256
  }

  function Uint32(v: nat): (b: seq<Byte>)
    ensures |b| == 4
  {
    [LowByte(v), LowByte(v / 256), LowByte(v / 256 / 256), LowByte(v / 256 / 256 / 256)]
  }

  /** A signed int as stored: two's complement. */
  function Int32(v: int): (b: seq<Byte>)
    ensures |b| == 4
  {
    Uint32(v % 4294967296)
  }

  function FromUint32(b: seq<Byte>): nat
    requires |b| == 4
  {
    b[0] as int + 256 * (b[1] as int) + 65536 * (b[2] as int) + 16777216 * (b[3] as int)
  }

  lemma FromUint32OfUint32(v: nat)
    requires v < 4294967296
    ensures FromUint32(Uint32(v)) == v
  {
    var w := v / 256;
    var x := w / 256;
    assert v == 256 * w + v % 256 && w == 256 * x + w % 256 && x == 256 * (x / 256) + x % 256;
    assert x / 256 < 256;
  }

  lemma Uint32OfFromUint32(b: seq<Byte>)
    requires |b| == 4
    ensures Uint32(FromUint32(b)) == b
  {
    var v := FromUint32(b);
    var w := b[1] as int + 256 * (b[2] as int) + 65536 * (b[3] as int);
    var x := b[2] as int + 256 * (b[3] as int);
    assert v == 256 * w + b[0] as int && w == 256 * x + b[1] as int;
    assert v / 256 == w && w / 256 == x && x / 256 == b[3] as int;
  }

  /** The first byte counts ones, each further one 256 times as much as the one before it. */
  lemma BytesByPlace(b: seq<Byte>, k: nat)
    requires |b| == 4 && k < 4 && b[k] < 255
    ensures FromUint32([0, 0, 0, 0]) == 0
    ensures FromUint32(b[k := b[k] + 1]) == FromUint32(b) + if k == 0 then 1 else if k == 1 then 0x100
                                                            else if k == 2 then 0x1_0000 else 0x100_0000
  {
  }

  /** The number that a signed int with these bits has. */
  function Signed32(v: nat): int {
    if v < 0x8000_0000 then v else v - 0x1_0000_0000
  }

  lemma TwosComplement(v: nat)
    requires v < 0x1_0000_0000
    ensures -0x8000_0000 <= Signed32(v) < 0x8000_0000 && (v - Signed32(v)) % 0x1_0000_0000 == 0
  {
  }

  /** A signed int is read back from its bytes. */
  lemma SignedOfInt32(v: int)
    requires -0x8000_0000 <= v < 0x8000_0000
    ensures Signed32(FromUint32(Int32(v))) == v
  {
    FromUint32OfUint32(v % 4294967296);
  }

  datatype Request = Request(code: MessageCode, body: seq<Byte>)

  predicate WellFormed(r: Request) {
    |r.body| == BodySize(r.code)
  }

  function Encode(r: Request): seq<Byte> {
    Uint32(CodeValue(r.code)) + r.body
  }

  function EncodeAll(rs: seq<Request>): seq<Byte> {
    if rs == [] then [] else Encode(rs[0]) + EncodeAll(rs[1..])
  }

  lemma {:induction false} EncodeAllAppend(rs: seq<Request>, r: Request)
    ensures EncodeAll(rs + [r]) == EncodeAll(rs) + Encode(r)
    decreases |rs|
  {
    if rs == [] {
      assert rs + [r] == [r];
      assert EncodeAll([r]) == Encode(r) + EncodeAll([r][1..]);
    } else {
      assert (rs + [r])[1..] == rs[1..] + [r];
      EncodeAllAppend(rs[1..], r);
    }
  }

  /** How a stream that the peer has closed ends. */
  datatype Ending = CleanEof | TornHeader | UnknownCode | TornBody

  /** What stands at the front of a closed stream. */
  datatype Front = Next(request: Request, rest: seq<Byte>) | End(ending: Ending)

  function FrontOf(s: seq<Byte>): (f: Front)
    ensures f.Next? ==> |f.rest| < |s|
  {
    if s == [] then End(CleanEof)
    else if |s| < HEADER_SIZE then End(TornHeader)
    else
      match CodeOf(FromUint32(s[..HEADER_SIZE]))
      case NoCode => End(UnknownCode)
      case Code(c) =>
        var rest := s[HEADER_SIZE..];
        if |rest| < BodySize(c) then End(TornBody)
        else Next(Request(c, rest[..BodySize(c)]), rest[BodySize(c)..])
  }

  lemma FrontOfEncode(r: Request, t: seq<Byte>)
    requires WellFormed(r)
    ensures FrontOf(Encode(r) + t) == Next(r, t)
  {
    var s := Encode(r) + t;
    assert s[..HEADER_SIZE] == Uint32(CodeValue(r.code));
    FromUint32OfUint32(CodeValue(r.code));
    CodeOfValue(r.code);
    var rest := s[HEADER_SIZE..];
    assert rest == r.body + t;
    assert rest[..BodySize(r.code)] == r.body;
    assert rest[BodySize(r.code)..] == t;
  }

  lemma EncodeOfFront(s: seq<Byte>)
    ensures FrontOf(s).Next? ==> WellFormed(FrontOf(s).request) && s == Encode(FrontOf(s).request) + FrontOf(s).rest
  {
    if FrontOf(s).Next? {
      var header := s[..HEADER_SIZE];
      ValueOfCode(FromUint32(header));
      Uint32OfFromUint32(header);
      var c := FrontOf(s).request.code;
      var rest := s[HEADER_SIZE..];
      assert s == header + (rest[..BodySize(c)] + rest[BodySize(c)..]);
    }
  }

  predicate AllWellFormed(rs: seq<Request>) {
    forall i :: 0 <= i < |rs| ==> WellFormed(rs[i])
  }

  /** The requests of a closed stream. */
  function Requests(s: seq<Byte>): (rs: seq<Request>)
    ensures AllWellFormed(rs)
    decreases |s|
  {
    EncodeOfFront(s);
    match FrontOf(s)
    case Next(r, rest) => [r] + Requests(rest)
    case End(_) => []
  }

  /** How it ends: what is found after the last complete request. */
  function EndingOf(s: seq<Byte>): Ending
    decreases |s|
  {
    match FrontOf(s)
    case Next(_, rest) => EndingOf(rest)
    case End(e) => e
  }

  lemma RequestsOfEncode(r: Request, t: seq<Byte>)
    requires WellFormed(r)
    ensures Requests(Encode(r) + t) == [r] + Requests(t)
    ensures EndingOf(Encode(r) + t) == EndingOf(t)
  {
    FrontOfEncode(r, t);
  }

  /** Every list of requests is read back from its encoding, whatever follows it. */
  lemma {:induction false} RequestsOfEncodeAll(rs: seq<Request>, t: seq<Byte>)
    requires AllWellFormed(rs)
    ensures Requests(EncodeAll(rs) + t) == rs + Requests(t)
    ensures EndingOf(EncodeAll(rs) + t) == EndingOf(t)
    decreases |rs|
  {
    if rs == [] {
      assert [] + t == t && [] + Requests(t) == Requests(t);
    } else {
      var r, others := rs[0], rs[1..];
      assert [r] + others == rs;
      Associative(Encode(r), EncodeAll(others), t);
      RequestsOfEncode(r, EncodeAll(others) + t);
      RequestsOfEncodeAll(others, t);
      Associative([r], others, Requests(t));
    }
  }

  /** Conversely a stream is the encoding of its requests and a rest that starts with no
      complete request; the rest is empty exactly for a clean end. */
  lemma {:induction false} EncodeAllOfRequests(s: seq<Byte>) returns (t: seq<Byte>)
    ensures s == EncodeAll(Requests(s)) + t
    ensures FrontOf(t) == End(EndingOf(s))
    ensures t == [] <==> EndingOf(s) == CleanEof
    decreases |s|
  {
    match FrontOf(s) {
      case End(_) =>
        assert s == [] + s;
        t := s;
      case Next(r, rest) =>
        t := EncodeAllOfRequests(rest);
        OneMore(s, r, rest, t);
    }
  }

  lemma OneMore(s: seq<Byte>, r: Request, rest: seq<Byte>, t: seq<Byte>)
    requires FrontOf(s) == Next(r, rest) && rest == EncodeAll(Requests(rest)) + t
    ensures s == EncodeAll(Requests(s)) + t
  {
    EncodeOfFront(s);
    var more := Requests(rest);
    EncodeAllCons(r, more);
    Associative(Encode(r), EncodeAll(more), t);
  }

  lemma EncodeAllCons(r: Request, more: seq<Request>)
    ensures EncodeAll([r] + more) == Encode(r) + EncodeAll(more)
  {
    assert ([r] + more)[1..] == more;
  }
}
