/** Local authentication by one-shot challenge files (pegasus/src/Executor/LocalAuth.c, with the
    token rendering of Random.c).

    The directory PEGASUS_LOCAL_AUTH_DIR, random bytes, the clock and the user database are
    arguments; so is the success of each system call. */
module LocalAuth {
  import opened Collections
  import opened CStrings
  import opened Expansion
  import opened Messages
  import opened Kernels
  import opened Decimals

  const TOKEN_LENGTH := 40
  const SEQ_MODULUS := 0x1_0000_0000

  // ---------------------------------------------------------------- tokens

  function Hex(data: seq<Byte>): (s: string)
    ensures |s| == 2 * |data| && NulFree(s)
    decreases |data|
  {
    if data == [] then "" else HexPair(data[0]) + Hex(data[1..])
  }

  function HexPair(b: Byte): string {
    [HEX_DIGITS[b / 16], HEX_DIGITS[b % 16]]
  }

  lemma {:induction false} HexAppend(data: seq<Byte>, b: Byte)
    ensures Hex(data + [b]) == Hex(data) + HexPair(b)
    decreases |data|
  {
    if data == [] {
      assert (data + [b])[1..] == [];
    } else {
      assert (data + [b])[1..] == data[1..] + [b];
      HexAppend(data[1..], b);
      Associative(HexPair(data[0]), Hex(data[1..]), HexPair(b));
    }
  }

  /** Different random bytes give different tokens. */
  lemma {:induction false} HexInjective(a: seq<Byte>, b: seq<Byte>)
    requires Hex(a) == Hex(b)
    ensures a == b
    decreases |a|
  {
    assert |Hex(a)| == 2 * |a| && |Hex(b)| == 2 * |b|;
    if a != [] {
      assert Hex(a)[0] == Hex(b)[0] && Hex(a)[1] == Hex(b)[1];
      HexDigitInjective(a[0] / 16, b[0] / 16);
      HexDigitInjective(a[0] % 16, b[0] % 16);
      assert Hex(a)[2..] == Hex(a[1..]) && Hex(b)[2..] == Hex(b[1..]);
      HexInjective(a[1..], b[1..]);
      assert a == [a[0]] + a[1..] && b == [b[0]] + b[1..];
    }
  }

  /** What a hexadecimal digit counts. */
  function HexDigitValue(c: char): int {
    if '0' <= c <= '9' then c as int - '0' as int else c as int - 'A' as int + 10
  }

  lemma HexDigitReads(d: nat)
    requires d < 16
    ensures HexDigitValue(HEX_DIGITS[d]) == d && (HEX_DIGITS[d] in "0123456789" || HEX_DIGITS[d] in "ABCDEF")
  {
    assert HEX_DIGITS == ['0', '1', '2', '3', '4', '5', '6', '7', '8', '9', 'A', 'B', 'C', 'D', 'E', 'F'];
  }

  /** Each byte is read back from its two digits, the high one first. */
  lemma {:induction false} HexReadsBack(data: seq<Byte>, k: nat)
    requires k < |data|
    ensures 16 * HexDigitValue(Hex(data)[2 * k]) + HexDigitValue(Hex(data)[2 * k + 1]) == data[k]
  {
    if k == 0 {
      HexDigitReads(data[0] / 16);
      HexDigitReads(data[0] % 16);
    } else {
      HexReadsBack(data[1..], k - 1);
      assert Hex(data)[2 * k] == Hex(data[1..])[2 * (k - 1)];
      assert Hex(data)[2 * k + 1] == Hex(data[1..])[2 * (k - 1) + 1];
    }
  }

  lemma HexDigitInjective(i: nat, j: nat)
    requires i < 16 && j < 16 && HEX_DIGITS[i] == HEX_DIGITS[j]
    ensures i == j
  {
  }

  method RandBytesToHexASCII(data: seq<Byte>, ascii: array<char>)
    requires ascii.Length >= 2 * |data| + 1
    modifies ascii
    ensures ascii[..2 * |data|] == Hex(data) && ascii[2 * |data|] == NUL
  {
    var j := 0;
    for i := 0 to |data|
      invariant j == 2 * i && ascii[..j] == Hex(data[..i])
    {
      var hi, lo := data[i] / 16, data[i] % 16;
      ascii[j] := HEX_DIGITS[hi];
      j := j + 1;
      ascii[j] := HEX_DIGITS[lo];
      j := j + 1;
      HexAppend(data[..i], data[i]);
      assert data[..i + 1] == data[..i] + [data[i]];
      assert ascii[..j] == ascii[..j - 2] + [ascii[j - 2], ascii[j - 1]];
    }
    ascii[j] := NUL;
    assert data[..|data|] == data;
  }

  // ---------------------------------------------------------------- challenge paths

  function ChallengePath(dir: string, user: string, number: nat, msec: nat): string {
    dir + "/cimclient_" + user + "_" + Decimal(number) + "_" + Decimal(msec)
  }

  /** The path as it comes out of the executor's buffer. */
  function PathInBuffer(dir: string, user: string, number: nat, msec: nat): string {
    Clip(ChallengePath(dir, user, number, msec), EXECUTOR_BUFFER_SIZE)
  }

  function LastUnderscore(s: string): int {
    if s == "" then -1 else if s[|s| - 1] == '_' then |s| - 1 else LastUnderscore(s[..|s| - 1])
  }

  lemma {:induction false} LastUnderscoreAt(x: string, d: string)
    requires '_' !in d
    ensures LastUnderscore(x + "_" + d) == |x|
    decreases |d|
  {
    var s := x + "_" + d;
    if d != "" {
      assert s[..|s| - 1] == x + "_" + d[..|d| - 1];
      LastUnderscoreAt(x, d[..|d| - 1]);
    }
  }

  lemma LastSeparator(x: string, d: string, y: string, e: string)
    requires x + "_" + d == y + "_" + e && '_' !in d && '_' !in e
    ensures x == y && d == e
  {
    var s, t := x + "_" + d, y + "_" + e;
    LastUnderscoreAt(x, d);
    LastUnderscoreAt(y, e);
    assert s[..|x|] == x && t[..|y|] == y;
    assert s[|x| + 1..] == d && t[|y| + 1..] == e;
  }

  /** The part of a challenge path that tells user and number. */
  function Telling(dir: string, user: string, number: nat): string {
    dir + "/cimclient_" + user + "_" + Decimal(number)
  }

  /** The number and the separator behind it fit the buffer, whatever becomes of the rest. */
  predicate NumberFits(dir: string, user: string, number: nat) {
    |Telling(dir, user, number)| + 1 < EXECUTOR_BUFFER_SIZE
  }

  /** The path in the buffer, split behind the number. */
  lemma PathSplits(dir: string, user: string, number: nat, msec: nat) returns (rest: string)
    requires NumberFits(dir, user, number)
    ensures PathInBuffer(dir, user, number, msec) == Telling(dir, user, number) + "_" + rest && rest <= Decimal(msec)
  {
    var path, front := ChallengePath(dir, user, number, msec), Telling(dir, user, number) + "_";
    assert path == front + Decimal(msec);
    rest := Clip(path, EXECUTOR_BUFFER_SIZE)[|front|..];
    assert rest <= path[|front|..] && path[|front|..] == Decimal(msec);
  }

  /** User names may hold underscores and digits; as long as the number fits, the path determines
      user and number, and the millisecond too when all of it fits. */
  lemma ChallengePathInjective(dir: string, user: string, number: nat, msec: nat,
                               user': string, number': nat, msec': nat)
    requires PathInBuffer(dir, user, number, msec) == PathInBuffer(dir, user', number', msec')
    requires NumberFits(dir, user, number) && NumberFits(dir, user', number')
    ensures user == user' && number == number'
    ensures (|ChallengePath(dir, user, number, msec)| < EXECUTOR_BUFFER_SIZE
             && |ChallengePath(dir, user', number', msec')| < EXECUTOR_BUFFER_SIZE) ==> msec == msec'
  {
    var head := dir + "/cimclient_";
    var rest := PathSplits(dir, user, number, msec);
    var rest' := PathSplits(dir, user', number', msec');
    assert '_' !in Decimal(msec) && '_' !in Decimal(msec');
    LastSeparator(Telling(dir, user, number), rest, Telling(dir, user', number'), rest');
    LastSeparator(head + user, Decimal(number), head + user', Decimal(number'));
    DecimalInjective(number, number');
    assert (head + user)[|head|..] == user && (head + user')[|head|..] == user';
    if |ChallengePath(dir, user, number, msec)| < EXECUTOR_BUFFER_SIZE
       && |ChallengePath(dir, user', number', msec')| < EXECUTOR_BUFFER_SIZE {
      LastSeparator(Telling(dir, user, number), Decimal(msec), Telling(dir, user', number'), Decimal(msec'));
      DecimalInjective(msec, msec');
    }
  }

  /** The buffer ends inside the number; or right behind it, and a longer number that starts with the
      same digits is still in the counter's range. */
  predicate NumberIsLost(dir: string, user: string, number: nat) {
    var shown := |Telling(dir, user, number)|;
    shown >= EXECUTOR_BUFFER_SIZE || (shown == EXECUTOR_BUFFER_SIZE - 1 && 0 < number && 10 * number < SEQ_MODULUS)
  }

  /** Another number of the counter gives the same path. */
  ghost predicate Collides(dir: string, user: string, number: nat, msec: nat, other: nat) {
    other < SEQ_MODULUS && other != number
    && PathInBuffer(dir, user, other, msec) == PathInBuffer(dir, user, number, msec)
  }

  /** The two paths agree up to the number. */
  lemma NumbersFollow(dir: string, user: string, number: nat, msec: nat)
    ensures ChallengePath(dir, user, number, msec)
            == dir + "/cimclient_" + user + "_" + (Decimal(number) + "_" + Decimal(msec))
    ensures Telling(dir, user, number) == dir + "/cimclient_" + user + "_" + Decimal(number)
  {
  }

  /** A number that differs in what is cut off. */
  function OtherNumber(dir: string, user: string, number: nat): nat {
    if |Telling(dir, user, number)| == EXECUTOR_BUFFER_SIZE - 1 then 10 * number
    else if number % 10 == 0 then number + 1
    else number - number % 10
  }

  lemma LostCollides(dir: string, user: string, number: nat, msec: nat)
    requires number < SEQ_MODULUS && NumberIsLost(dir, user, number)
    ensures Collides(dir, user, number, msec, OtherNumber(dir, user, number))
  {
    var other := OtherNumber(dir, user, number);
    var n := EXECUTOR_BUFFER_SIZE - 1;
    var a, b := ChallengePath(dir, user, number, msec), ChallengePath(dir, user, other, msec);
    var head := dir + "/cimclient_" + user + "_";
    NumbersFollow(dir, user, number, msec);
    NumbersFollow(dir, user, other, msec);
    if |Telling(dir, user, number)| == n {
      assert Decimal(other)[..|Decimal(number)|] == Decimal(number);
    } else {
      assert number / 10 == other / 10;
      assert number >= 10 ==> Decimal(number)[..|Decimal(number)| - 1] == Decimal(number / 10);
      assert other >= 10 ==> Decimal(other)[..|Decimal(other)| - 1] == Decimal(other / 10);
    }
    assert a[..n] == b[..n];
  }

  lemma PathWithoutSeparator(dir: string, user: string, number: nat, msec: nat)
    requires !NumberFits(dir, user, number)
    ensures |Telling(dir, user, number)| >= EXECUTOR_BUFFER_SIZE - 1
    ensures PathInBuffer(dir, user, number, msec) == Telling(dir, user, number)[..EXECUTOR_BUFFER_SIZE - 1]
  {
    assert ChallengePath(dir, user, number, msec) == Telling(dir, user, number) + ("_" + Decimal(msec));
  }

  /** A path with the separator behind its number is no path without it. */
  lemma SeparatorTells(dir: string, user: string, number: nat, other: nat, msec: nat)
    requires NumberFits(dir, user, number) && !NumberFits(dir, user, other)
    ensures PathInBuffer(dir, user, number, msec) != PathInBuffer(dir, user, other, msec)
  {
    var rest := PathSplits(dir, user, number, msec);
    PathWithoutSeparator(dir, user, other, msec);
    var head, k := dir + "/cimclient_" + user + "_", |Telling(dir, user, number)|;
    assert PathInBuffer(dir, user, number, msec)[k] == '_';
    assert PathInBuffer(dir, user, other, msec)[k] == Decimal(other)[k - |head|];
  }

  lemma KeptDoesNotCollide(dir: string, user: string, number: nat, msec: nat, other: nat)
    requires !NumberIsLost(dir, user, number)
    ensures !Collides(dir, user, number, msec, other)
  {
    if Collides(dir, user, number, msec, other) {
      if NumberFits(dir, user, number) && NumberFits(dir, user, other) {
        ChallengePathInjective(dir, user, number, msec, user, other, msec);
      } else if NumberFits(dir, user, number) {
        SeparatorTells(dir, user, number, other, msec);
      } else if NumberFits(dir, user, other) {
        SeparatorTells(dir, user, other, number, msec);
      } else {
        ShownWhole(dir, user, number, msec, other);
      }
    }
  }

  lemma ShownWhole(dir: string, user: string, number: nat, msec: nat, other: nat)
    requires |Telling(dir, user, number)| == EXECUTOR_BUFFER_SIZE - 1 && !NumberFits(dir, user, other)
    requires Collides(dir, user, number, msec, other)
    ensures 0 < number && 10 * number < SEQ_MODULUS
  {
    PathWithoutSeparator(dir, user, number, msec);
    PathWithoutSeparator(dir, user, other, msec);
    var s, t := Telling(dir, user, number), Telling(dir, user, other);
    var head := dir + "/cimclient_" + user + "_";
    assert s == t[..|s|];
    assert Decimal(number) == s[|head|..] == t[..|s|][|head|..] == Decimal(other)[..|Decimal(number)|];
    if |Decimal(number)| == |Decimal(other)| {
      assert Decimal(other)[..|Decimal(number)|] == Decimal(other);
      DecimalInjective(number, other);
    } else {
      DecimalExtends(number, other);
    }
  }

  /** Exactly when two challenges of a user may share a path though their numbers differ. */
  lemma CollideExactly(dir: string, user: string, number: nat, msec: nat)
    requires number < SEQ_MODULUS
    ensures (exists other :: Collides(dir, user, number, msec, other)) <==> NumberIsLost(dir, user, number)
  {
    if NumberIsLost(dir, user, number) {
      LostCollides(dir, user, number, msec);
    }
    forall other: nat | !NumberIsLost(dir, user, number)
      ensures !Collides(dir, user, number, msec, other)
    {
      KeptDoesNotCollide(dir, user, number, msec, other);
    }
  }

  // ---------------------------------------------------------------- effects on the files

  /** Which of the calls made while creating a challenge file succeed. */
  datatype CreateCalls = CreateCalls(unlinkOld: bool, open: bool, written: nat, fchown: bool, cleanup: bool)

  function CreatedFiles(files: Files, name: Name, token: string, calls: CreateCalls): Files {
    if name in files && !calls.unlinkOld then files
    else if !calls.open then files - {name}
    else if calls.written >= |token| && calls.fchown then files[name := token]
    else if calls.cleanup then files - {name}
    else files[name := if calls.written < |token| then token[..calls.written] else token]
  }

  predicate Created(files: Files, name: Name, token: string, calls: CreateCalls) {
    !(name in files && !calls.unlinkOld) && calls.open && calls.written >= |token| && calls.fchown
  }

  datatype CheckCalls = CheckCalls(open: bool, read: bool, unlink: bool)

  /** The file is long enough and starts with the token. */
  predicate Holds(files: Files, name: Name, token: string) {
    name in files && |files[name]| >= TOKEN_LENGTH && StrOf(files[name][..TOKEN_LENGTH]) == token
  }

  predicate TokenMatches(files: Files, name: Name, response: string, calls: CheckCalls) {
    calls.open && calls.read && Holds(files, name, response)
  }

  // ---------------------------------------------------------------- the C code

  lemma Refill(files: Files, name: Name, content: string)
    ensures (files - {name})[name := ""][name := content] == files[name := content]
  {
  }

  method CreateLocalAuthFile(kernel: Kernel, path: string, random: seq<Byte>, calls: CreateCalls) returns (rc: int)
    requires |random| == TOKEN_LENGTH / 2
    modifies kernel`fds, kernel`files
    ensures kernel.fds == old(kernel.fds)
    ensures kernel.files == CreatedFiles(old(kernel.files), kernel.resolve(path), Hex(random), calls)
    ensures rc == if Created(old(kernel.files), kernel.resolve(path), Hex(random), calls) then 0 else -1
  {
    var token := new char[TOKEN_LENGTH + 1];
    RandBytesToHexASCII(random, token);
    ghost var name := kernel.resolve(path);
    if kernel.resolve(path) in kernel.files {
      var gone := kernel.Unlink(path, calls.unlinkOld);
      if gone != 0 {
        return -1;
      }
    }
    ghost var files := old(kernel.files);
    assert kernel.files == files - {name};
    var fd := kernel.Open(path, OpenFlags(true, true, true), calls.open);
    if fd < 0 {
      return -1;
    }
    rc := FillFile(kernel, fd, path, token, Hex(random), calls);
    assert kernel.fds == old(kernel.fds);
    assert (files - {name})[name := ""] - {name} == files - {name};
    Refill(files, name, Hex(random));
    if calls.written < TOKEN_LENGTH {
      Refill(files, name, Hex(random)[..calls.written]);
    }
  }

  /** From the fresh empty file on: write, change the owner, close; or close and remove. */
  method FillFile(kernel: Kernel, fd: int, path: string, token: array<char>, ghost text: string, calls: CreateCalls)
    returns (rc: int)
    requires fd in kernel.fds && kernel.fds[fd] == Regular(kernel.resolve(path))
    requires kernel.resolve(path) in kernel.files && kernel.files[kernel.resolve(path)] == ""
    requires |text| == TOKEN_LENGTH < token.Length && token[..TOKEN_LENGTH] == text
    modifies kernel`fds, kernel`files
    ensures kernel.fds == old(kernel.fds) - {fd}
    ensures rc == if calls.written >= TOKEN_LENGTH && calls.fchown then 0 else -1
    ensures kernel.files == if rc == 0 then old(kernel.files)[kernel.resolve(path) := text]
                            else if calls.cleanup then old(kernel.files) - {kernel.resolve(path)}
                            else old(kernel.files)[kernel.resolve(path) :=
                                                   if calls.written < TOKEN_LENGTH then text[..calls.written] else text]
  {
    var written := kernel.Write(fd, token[..TOKEN_LENGTH], calls.written);
    assert "" + text[..written] == text[..written] && text[..TOKEN_LENGTH] == text;
    if written != TOKEN_LENGTH {
      var _ := kernel.Close(fd);
      var _ := kernel.Unlink(path, calls.cleanup);
      return -1;
    }
    if !calls.fchown {
      var _ := kernel.Close(fd);
      var _ := kernel.Unlink(path, calls.cleanup);
      return -1;
    }
    var _ := kernel.Close(fd);
    return 0;
  }

  method CheckLocalAuthToken(kernel: Kernel, path: string, token: string, calls: CheckCalls) returns (rc: int)
    modifies kernel`fds, kernel`files
    ensures kernel.fds == old(kernel.fds) && kernel.files == old(kernel.files)
    ensures rc == if TokenMatches(kernel.files, kernel.resolve(path), token, calls) then 0 else -1
  {
    var fd := kernel.Open(path, OpenFlags(false, false, false), calls.open);
    if fd < 0 {
      return -1;
    }
    var content := kernel.files[kernel.resolve(path)];
    if !calls.read || |content| < TOKEN_LENGTH {
      var _ := kernel.Close(fd);
      assert kernel.fds == old(kernel.fds);
      return -1;
    }
    var buffer := content[..TOKEN_LENGTH];
    if StrOf(buffer) != token {
      var _ := kernel.Close(fd);
      assert kernel.fds == old(kernel.fds);
      return -1;
    }
    var _ := kernel.Close(fd);
    assert kernel.fds == old(kernel.fds);
    return 0;
  }

  /** The counter behind the challenge numbers; it wraps around. */
  class Sequence {
    var next: nat

    constructor ()
      ensures next == 1
    {
      next := 1;
    }

    method Take() returns (number: nat)
      requires next < SEQ_MODULUS
      modifies this
      ensures number == old(next) && next == (old(next) + 1) % SEQ_MODULUS
    {
      number := next;
      next := (next + 1) % SEQ_MODULUS;
    }
  }

  lemma DigitsAreNulFree(n: nat)
    ensures NulFree(Decimal(n))
  {
  }

  method BuildLocalAuthFilePath(dir: string, sequence: Sequence, user: string, msec: nat, path: array<char>)
    requires NulFree(dir) && NulFree(user) && sequence.next < SEQ_MODULUS && path.Length == EXECUTOR_BUFFER_SIZE
    modifies sequence, path
    ensures StrOf(path[..]) == PathInBuffer(dir, user, old(sequence.next), msec)
    ensures sequence.next == (old(sequence.next) + 1) % SEQ_MODULUS
  {
    var number := sequence.Take();
    var _ := Strlcpy(path, dir, EXECUTOR_BUFFER_SIZE);
    ShowsStrOf(path, Clip(dir, EXECUTOR_BUFFER_SIZE));
    Append(path, "/cimclient_", dir);
    Append(path, user, dir + "/cimclient_");
    var buffer := "_" + Decimal(number) + "_" + Decimal(msec);
    DigitsAreNulFree(number);
    DigitsAreNulFree(msec);
    Append(path, buffer, dir + "/cimclient_" + user);
    assert dir + "/cimclient_" + user + buffer == ChallengePath(dir, user, number, msec);
    ShowsStrOf(path, PathInBuffer(dir, user, number, msec));
  }

  // ---------------------------------------------------------------- the protocol as steps

  /** The challenge directory, and what paths stand for. */
  datatype Place = Place(dir: string, resolve: string -> Name)

  datatype AuthState = AuthState(files: Files, next: nat)

  /** A request on the local authentication files, with the answers of its system calls. */
  datatype Step =
    | Challenge(user: string, known: bool, msec: nat, random: seq<Byte>, create: CreateCalls)
    | Authenticate(path: string, response: string, check: CheckCalls)
    | Remove(target: string, unlink: bool)
    | Change(files: Files)                        // whatever another request makes of the files

  datatype Outcome = Issued(path: string, token: string) | Accepted | Refused | Done

  predicate ValidStep(step: Step) {
    step.Challenge? ==> |step.random| == TOKEN_LENGTH / 2
  }

  function Do(place: Place, st: AuthState, step: Step): (r: (AuthState, Outcome)) {
    match step
    case Challenge(user, known, msec, random, create) =>
      if !known then (st, Refused)
      else
        var path := PathInBuffer(place.dir, user, st.next, msec);
        var name, token := place.resolve(path), Hex(random);
        (AuthState(CreatedFiles(st.files, name, token, create), (st.next + 1) % SEQ_MODULUS),
         if Created(st.files, name, token, create) then Issued(path, token) else Refused)
    case Authenticate(path, response, check) =>
      (st.(files := if check.unlink then st.files - {place.resolve(path)} else st.files),
       if TokenMatches(st.files, place.resolve(path), response, check) then Accepted else Refused)
    case Remove(target, unlink) =>
      (st.(files := if unlink then st.files - {place.resolve(target)} else st.files), Done)
    case Change(files) => (st.(files := files), Done)
  }

  method StartLocalAuthentication(kernel: Kernel, sequence: Sequence, dir: string, user: string, known: bool, msec: nat,
                                  random: seq<Byte>, create: CreateCalls, challengeFilePath: array<char>)
    returns (rc: int)
    requires NulFree(dir) && NulFree(user) && |random| == TOKEN_LENGTH / 2 && sequence.next < SEQ_MODULUS
    requires challengeFilePath.Length == EXECUTOR_BUFFER_SIZE
    modifies kernel`fds, kernel`files, sequence, challengeFilePath
    ensures kernel.fds == old(kernel.fds)
    ensures rc == 0 || rc == -1
    ensures var (after, outcome) := Do(Place(dir, kernel.resolve), AuthState(old(kernel.files), old(sequence.next)),
                                       Challenge(user, known, msec, random, create));
            && AuthState(kernel.files, sequence.next) == after
            && (rc == 0 <==> outcome.Issued?)
            && (rc == 0 ==> StrOf(challengeFilePath[..]) == outcome.path)
  {
    if !known {
      return -1;
    }
    BuildLocalAuthFilePath(dir, sequence, user, msec, challengeFilePath);
    rc := CreateLocalAuthFile(kernel, StrOf(challengeFilePath[..]), random, create);
  }

  method FinishLocalAuthentication(kernel: Kernel, challengeFilePath: string, response: string, check: CheckCalls)
    returns (rc: int)
    modifies kernel`fds, kernel`files
    ensures kernel.fds == old(kernel.fds)
    ensures rc == 0 || rc == -1
    ensures forall dir, next ::
              var (after, outcome) := Do(Place(dir, kernel.resolve), AuthState(old(kernel.files), next),
                                         Authenticate(challengeFilePath, response, check));
              kernel.files == after.files && (rc == 0 <==> outcome == Accepted)
  {
    rc := CheckLocalAuthToken(kernel, challengeFilePath, response, check);
    var _ := kernel.Unlink(challengeFilePath, check.unlink);
    ghost var name, files := kernel.resolve(challengeFilePath), old(kernel.files);
    assert name !in files ==> files - {name} == files;
  }
}
