/** The socket option on the server's command line: put in by the executor's child
    (pegasus/src/Executor/Child.c) and taken out by the server (pegasus/src/Server/cimserver.cpp). */
module Argv {
  import opened Decimals

  /** An element of an argument vector. */
  datatype Arg = Null | Str(s: string)

  const CIMSERVERMAIN := "cimservermain"
  const OPT := "--executor-socket"
  const INT_MAX := 2147483647
  const ULONG_MAX := 0xFFFF_FFFF_FFFF_FFFF

  /** argc strings and the terminator; there is always a program name. */
  predicate IsVector(args: seq<Arg>, argc: nat) {
    1 <= argc < |args| && args[argc] == Null && forall i :: 0 <= i < argc ==> args[i].Str?
  }

  // ---------------------------------------------------------------- strtoul

  predicate IsSpace(c: char) {
    c in " \t\n\r" || c == 11 as char || c == 12 as char
  }

  function SkipSpaces(s: string): (n: nat)
    ensures n <= |s|
  {
    if s != "" && IsSpace(s[0]) then 1 + SkipSpaces(s[1..]) else 0
  }

  function DigitRun(s: string): (n: nat)
    ensures n <= |s| && AllDigits(s[..n])
  {
    if s != "" && IsDigit(s[0]) then
      assert s[..1 + DigitRun(s[1..])] == [s[0]] + s[1..][..DigitRun(s[1..])];
      1 + DigitRun(s[1..])
    else 0
  }

  datatype Parsed = Parsed(value: nat, end: nat)

  /** Unsigned arithmetic on the value of the digits. */
  function Converted(negative: bool, v: nat): nat {
    if v > ULONG_MAX then ULONG_MAX else if negative then (ULONG_MAX + 1 - v) % (ULONG_MAX + 1) else v
  }

  /** strtoul(s, &end, 10) with a 64-bit unsigned long. */
  function Strtoul(s: string): Parsed {
    var w := SkipSpaces(s);
    var signed := w < |s| && (s[w] == '-' || s[w] == '+');
    var start := if signed then w + 1 else w;
    var n := DigitRun(s[start..]);
    if n == 0 then Parsed(0, 0)
    else
      var v := ValueOf(s[start..][..n]);
      Parsed(Converted(signed && s[w] == '-', v), start + n)
  }

  lemma {:induction false} DigitRunOfDigits(s: string)
    requires AllDigits(s)
    ensures DigitRun(s) == |s|
  {
    if s != "" {
      DigitRunOfDigits(s[1..]);
    }
  }

  lemma StrtoulOfDecimal(n: nat)
    requires n <= INT_MAX
    ensures Strtoul(Decimal(n)) == Parsed(n, |Decimal(n)|)
  {
    var s := Decimal(n);
    assert IsDigit(s[0]);
    assert s[0..] == s && s[..|s|] == s;
    DigitRunOfDigits(s);
    ValueOfDecimal(n);
  }

  lemma {:induction false} SkipSpacesOf(w: string, rest: string)
    requires (forall i :: 0 <= i < |w| ==> IsSpace(w[i])) && (rest != "" ==> !IsSpace(rest[0]))
    ensures SkipSpaces(w + rest) == |w|
  {
    if w == "" {
      assert w + rest == rest;
    } else {
      assert (w + rest)[1..] == w[1..] + rest;
      SkipSpacesOf(w[1..], rest);
    }
  }

  lemma {:induction false} DigitRunThen(d: string, rest: string)
    requires AllDigits(d) && (rest != "" ==> !IsDigit(rest[0]))
    ensures DigitRun(d + rest) == |d|
  {
    if d == "" {
      assert d + rest == rest;
    } else {
      assert (d + rest)[1..] == d[1..] + rest;
      DigitRunThen(d[1..], rest);
    }
  }

  predicate AllSpaces(w: string) {
    forall i :: 0 <= i < |w| ==> IsSpace(w[i])
  }

  /** The value for a numeral of n: the largest one if it is too large, and negated modulo 2^64 behind a
      minus sign. */
  function Signed(sign: string, n: nat): nat {
    if n > ULONG_MAX then ULONG_MAX else if sign == "-" && n > 0 then 0x1_0000_0000_0000_0000 - n else n
  }

  lemma ConvertedIs(sign: string, n: nat)
    ensures Converted(sign == "-", n) == Signed(sign, n)
  {
  }

  /** Where the digits begin. */
  lemma DigitsBehind(w: string, sign: string, t: string)
    requires AllSpaces(w) && sign in {"", "+", "-"} && t != "" && IsDigit(t[0])
    ensures var s := w + sign + t;
            && SkipSpaces(s) == |w| < |s| && s[|w| + |sign|..] == t
            && (s[|w|] == '-' <==> sign == "-") && (s[|w|] == '-' || s[|w|] == '+' <==> sign != "")
  {
    var s := w + sign + t;
    assert s == w + (sign + t);
    assert (sign + t)[0] == if sign == "" then t[0] else sign[0];
    SkipSpacesOf(w, sign + t);
    assert s[|w|] == (sign + t)[0];
  }

  lemma NumeralThen(n: nat, rest: string)
    requires rest != "" ==> !IsDigit(rest[0])
    ensures var t := Decimal(n) + rest;
            t != "" && IsDigit(t[0]) && DigitRun(t) == |Decimal(n)| && ValueOf(t[..DigitRun(t)]) == n
  {
    DigitRunThen(Decimal(n), rest);
    assert (Decimal(n) + rest)[..|Decimal(n)|] == Decimal(n);
    ValueOfDecimal(n);
  }

  /** What strtoul makes of whitespace, a sign or none, and a numeral: it stops behind the numeral. */
  lemma StrtoulReads(w: string, sign: string, n: nat, rest: string)
    requires AllSpaces(w) && sign in {"", "+", "-"} && (rest != "" ==> !IsDigit(rest[0]))
    ensures Strtoul(w + sign + (Decimal(n) + rest)) == Parsed(Signed(sign, n), |w + sign + Decimal(n)|)
  {
    NumeralThen(n, rest);
    DigitsBehind(w, sign, Decimal(n) + rest);
    ConvertedIs(sign, n);
    assert |w + sign + Decimal(n)| == |w| + |sign| + |Decimal(n)|;
  }

  // ---------------------------------------------------------------- the executor's side

  /** "%d". */
  function SignedDecimal(v: int): string {
    if v < 0 then "-" + Decimal(-v) else Decimal(v)
  }

  function ChildVector(args: seq<Arg>, argc: nat, sock: int): seq<Arg>
    requires IsVector(args, argc)
  {
    [Str(CIMSERVERMAIN), Str(OPT), Str(SignedDecimal(sock))] + args[1..argc + 1]
  }

  method Child(argc: nat, argv: array<Arg>, sock: int) returns (execArgv: array<Arg>)
    requires IsVector(argv[..], argc)
    ensures fresh(execArgv) && execArgv[..] == ChildVector(argv[..], argc, sock)
  {
    execArgv := new Arg[argc + 3];
    ghost var args := argv[..];
    var i := 0;
    while i < argc
      invariant 0 <= i <= argc && argv[..] == args
      invariant forall k :: 3 <= k < 3 + i ==> execArgv[k] == args[k - 2]
    {
      execArgv[3 + i] := argv[1 + i];
      i := i + 1;
    }
    execArgv[0] := Str(CIMSERVERMAIN);
    execArgv[1] := Str(OPT);
    execArgv[2] := Str(SignedDecimal(sock));
    assert execArgv[3..] == args[1..argc + 1];
    assert execArgv[..] == execArgv[..3] + execArgv[3..];
  }

  // ---------------------------------------------------------------- the server's side

  /** Position of the first option from i on, or argc. */
  function FirstOption(args: seq<Arg>, argc: nat, i: nat): (p: nat)
    requires i <= argc <= |args|
    ensures i <= p <= argc
    ensures p < argc ==> args[p] == Str(OPT)
    ensures forall k :: i <= k < p ==> args[k] != Str(OPT)
    decreases argc - i
  {
    if i == argc || args[i] == Str(OPT) then i else FirstOption(args, argc, i + 1)
  }

  datatype Extraction = Socket(sock: nat, argc: nat) | MissingOption | MissingArgument | BadArgument

  /** What an option argument makes of a vector that has argc arguments without the option. */
  function ArgumentOf(text: string, argc: nat): Extraction {
    var x := Strtoul(text);
    if x.end != |text| || x.value > INT_MAX then BadArgument else Socket(x.value, argc)
  }

  function ExtractionOf(args: seq<Arg>, argc: nat): Extraction
    requires IsVector(args, argc)
  {
    var i := FirstOption(args, argc, 1);
    if i == argc then MissingOption
    else if i + 1 == argc then MissingArgument
    else ArgumentOf(args[i + 1].s, argc - 2)
  }

  /** memmove(argv + to, argv + from, count * sizeof(char*)) for a move to the front. */
  method MoveDown(argv: array<Arg>, target: nat, source: nat, count: nat)
    requires target <= source && source + count <= argv.Length
    modifies argv
    ensures argv[target..target + count] == old(argv[source..source + count])
    ensures forall k :: 0 <= k < argv.Length && !(target <= k < target + count) ==> argv[k] == old(argv[k])
  {
    var k := 0;
    while k < count
      invariant 0 <= k <= count
      invariant argv[target..target + k] == old(argv[source..source + k])
      invariant forall j :: 0 <= j < argv.Length && !(target <= j < target + k) ==> argv[j] == old(argv[j])
    {
      argv[target + k] := argv[source + k];
      assert argv[target..target + k + 1] == argv[target..target + k] + [argv[target + k]];
      assert old(argv[source..source + k + 1]) == old(argv[source..source + k]) + [old(argv[source + k])];
      k := k + 1;
    }
  }

  /** The option and its argument go; the terminator moves along (cimserver.cpp:418). */
  method RemovePair(argv: array<Arg>, argc: nat, i: nat)
    requires i + 2 <= argc < argv.Length
    modifies argv
    ensures argv[..argc - 1] == old(argv[..i]) + old(argv[i + 2..argc + 1])
  {
    MoveDown(argv, i, i + 2, argc - i - 1);
    assert argv[..i] == old(argv[..i]);
    assert argv[..argc - 1] == argv[..i] + argv[i..argc - 1];
  }

  /** Every outcome but Socket is exit(1). */
  method ExtractExecutorSockOpt(argc: nat, argv: array<Arg>) returns (r: Extraction)
    requires IsVector(argv[..], argc)
    modifies argv
    ensures r == ExtractionOf(old(argv[..]), argc)
    ensures r.Socket? ==>
              var i := FirstOption(old(argv[..]), argc, 1);
              argv[..argc - 1] == old(argv[..i]) + old(argv[i + 2..argc + 1])
    ensures !r.Socket? ==> argv[..] == old(argv[..])
  {
    ghost var args := argv[..];
    var i := 1;
    while i < argc
      invariant 1 <= i <= argc && argv[..] == args
      invariant FirstOption(args, argc, i) == FirstOption(args, argc, 1)
    {
      assert argv[i] == args[i];
      if argv[i] == Str(OPT) {
        if i + 1 == argc {
          return MissingArgument;
        }
        assert argv[i + 1] == args[i + 1];
        var text := argv[i + 1].s;
        var x := Strtoul(text);
        if x.end != |text| || x.value > INT_MAX {
          return BadArgument;
        }
        RemovePair(argv, argc, i);
        return Socket(x.value, argc - 2);
      }
      i := i + 1;
    }
    return MissingOption;
  }

  /** The option and its argument stand right behind the program name, before the caller's own. */
  lemma OptionComesFirst(args: seq<Arg>, argc: nat, sock: int)
    requires IsVector(args, argc)
    ensures var v := ChildVector(args, argc, sock);
            && IsVector(v, argc + 2) && FirstOption(v, argc + 2, 1) == 1
            && ExtractionOf(v, argc + 2) == ArgumentOf(SignedDecimal(sock), argc)
            && v[..1] == [Str(CIMSERVERMAIN)] && v[3..argc + 3] == args[1..argc + 1]
  {
    var v := ChildVector(args, argc, sock);
    assert v[1] == Str(OPT);
    assert forall k :: 3 <= k < argc + 3 ==> v[k] == args[k - 2];
  }

  /** What the server gets from the vector the executor built: the socket, the original count
      and the original arguments with their terminator, whatever those arguments are; only
      the program name is the server's own. */
  lemma ArgvRoundTrip(args: seq<Arg>, argc: nat, sock: nat)
    requires IsVector(args, argc) && sock <= INT_MAX
    ensures var v := ChildVector(args, argc, sock);
            && IsVector(v, argc + 2)
            && ExtractionOf(v, argc + 2) == Socket(sock, argc)
            && var i := FirstOption(v, argc + 2, 1);
               v[..i] + v[i + 2..argc + 3] == [Str(CIMSERVERMAIN)] + args[1..argc + 1]
  {
    OptionComesFirst(args, argc, sock);
    StrtoulOfDecimal(sock);
  }

  /** Child and server together, on arrays. */
  method PassSocket(argc: nat, argv: array<Arg>, sock: nat) returns (r: Extraction, execArgv: array<Arg>)
    requires IsVector(argv[..], argc) && sock <= INT_MAX
    ensures r == Socket(sock, argc)
    ensures fresh(execArgv) && execArgv.Length >= argc + 1
    ensures execArgv[..argc + 1] == [Str(CIMSERVERMAIN)] + old(argv[1..argc + 1])
  {
    ghost var args := argv[..];
    execArgv := Child(argc, argv, sock);
    ghost var v := execArgv[..];
    ArgvRoundTrip(args, argc, sock);
    ghost var i := FirstOption(v, argc + 2, 1);
    assert execArgv[..i] == v[..i] && execArgv[i + 2..argc + 3] == v[i + 2..argc + 3];
    r := ExtractExecutorSockOpt(argc + 2, execArgv);
    assert args[1..argc + 1] == old(argv[1..argc + 1]);
  }

  /** strtoul negates in unsigned arithmetic: small negative numbers come out huge. */
  lemma NegativeArgument(sock: int, argc: nat)
    requires -2147483648 <= sock < 0
    ensures ArgumentOf(SignedDecimal(sock), argc) == BadArgument
  {
    var d := Decimal(-sock);
    StrtoulReads("", "-", -sock, "");
    assert "" + "-" + (d + "") == "-" + d && "" + "-" + d == "-" + d;
  }

  /** A descriptor below 0 is written so that the server refuses it. */
  lemma NegativeSocketIsRefused(args: seq<Arg>, argc: nat, sock: int)
    requires IsVector(args, argc) && -2147483648 <= sock < 0
    ensures IsVector(ChildVector(args, argc, sock), argc + 2)
    ensures ExtractionOf(ChildVector(args, argc, sock), argc + 2) == BadArgument
  {
    OptionComesFirst(args, argc, sock);
    NegativeArgument(sock, argc);
  }

  lemma DigitlessArgument(text: string, argc: nat)
    requires forall i :: 0 <= i < |text| ==> !IsDigit(text[i])
    ensures ArgumentOf(text, argc) == if text == "" then Socket(0, argc) else BadArgument
  {
    var w := SkipSpaces(text);
    var start := if w < |text| && (text[w] == '-' || text[w] == '+') then w + 1 else w;
    assert text[start..] != "" ==> text[start..][0] == text[start];
  }

  /** strtoul stops where it started when there is no digit: such an option argument is taken for
      socket 0 exactly when it is empty. */
  lemma DigitlessIsZeroExactly(args: seq<Arg>, argc: nat)
    requires IsVector(args, argc) && FirstOption(args, argc, 1) + 1 < argc
    requires var text := args[FirstOption(args, argc, 1) + 1].s; forall i :: 0 <= i < |text| ==> !IsDigit(text[i])
    ensures ExtractionOf(args, argc) ==
              if args[FirstOption(args, argc, 1) + 1] == Str("") then Socket(0, argc - 2) else BadArgument
  {
    DigitlessArgument(args[FirstOption(args, argc, 1) + 1].s, argc - 2);
  }
}
