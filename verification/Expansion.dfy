/** Macro expansion in fixed-size buffers (pegasus/src/Executor/Macro.c, ExpandMacros). */
module Expansion {
  import opened Collections
  import opened CStrings
  import opened Macros

  const EXECUTOR_BUFFER_SIZE := 4096

  // ---------------------------------------------------------------- reference meaning

  datatype Piece = Literal(c: char) | Reference(name: string)

  function SourceOf(piece: Piece): string {
    match piece
    case Literal(c) => [c]
    case Reference(name) => "${" + name + "}"
  }

  /** The text that a list of pieces is written as. */
  function Source(ps: seq<Piece>): string {
    if ps == [] then "" else SourceOf(ps[0]) + Source(ps[1..])
  }

  /** Piece lists that are read the way they were written: a name stops at the first closing
      brace, and a dollar sign before an opening brace always starts a reference. */
  predicate Canonical(ps: seq<Piece>) {
    ps != [] ==>
      && (ps[0].Reference? ==> '}' !in ps[0].name)
      && (ps[0] == Literal('$') && |ps| > 1 ==> ps[1] != Literal('{'))
      && Canonical(ps[1..])
  }

  predicate AllDefined(m: map<string, string>, ps: seq<Piece>) {
    forall i :: 0 <= i < |ps| && ps[i].Reference? ==> ps[i].name in m
  }

  /** Every reference replaced once by its value; values are not looked at again. */
  function Render(m: map<string, string>, ps: seq<Piece>): string
    requires AllDefined(m, ps)
  {
    if ps == [] then "" else
      (match ps[0] case Literal(c) => [c] case Reference(name) => m[name]) + Render(m, ps[1..])
  }

  ghost predicate Denotes(m: map<string, string>, s: string, ps: seq<Piece>, out: string) {
    Canonical(ps) && Source(ps) == s && AllDefined(m, ps) && Render(m, ps) == out
  }

  // ---------------------------------------------------------------- the scan as a function

  /** Index of the first closing brace, or the length. */
  function NameEnd(s: string): (e: nat)
    ensures e <= |s| && '}' !in s[..e]
    ensures e < |s| ==> s[e] == '}'
  {
    if s == "" || s[0] == '}' then 0 else
      assert s[..1 + NameEnd(s[1..])] == [s[0]] + s[1..][..NameEnd(s[1..])];
      1 + NameEnd(s[1..])
  }

  lemma {:induction false} NameEndAt(s: string, e: nat)
    requires e < |s| && s[e] == '}' && '}' !in s[..e]
    ensures NameEnd(s) == e
  {
    if e > 0 {
      assert s[0] == s[..e][0];
      assert s[1..][..e - 1] == s[..e][1..];
      NameEndAt(s[1..], e - 1);
    }
  }

  function Expand(m: map<string, string>, s: string): Option<string> {
    if s == "" then Some("")
    else if |s| >= 2 && s[0] == '$' && s[1] == '{' then
      var e := NameEnd(s[2..]);
      if e == |s[2..]| || s[2..][..e] !in m then None
      else Prepend(m[s[2..][..e]], Expand(m, s[2..][e + 1..]))
    else Prepend([s[0]], Expand(m, s[1..]))
  }

  function Prepend(a: string, r: Option<string>): Option<string> {
    match r case None => None case Some(b) => Some(a + b)
  }

  lemma PrependNothing(r: Option<string>)
    ensures Prepend("", r) == r
  {
    if r.Some? {
      assert "" + r.value == r.value;
    }
  }

  lemma PrependTwice(a: string, b: string, r: Option<string>)
    ensures Prepend(a, Prepend(b, r)) == Prepend(a + b, r)
  {
    if r.Some? {
      assert a + (b + r.value) == (a + b) + r.value;
    }
  }

  lemma ReferenceDenotes(m: map<string, string>, name: string, t: string, rest: seq<Piece>, out: string)
    requires '}' !in name && name in m && Denotes(m, t, rest, out)
    ensures Denotes(m, "${" + name + "}" + t, [Reference(name)] + rest, m[name] + out)
  {
    var ps := [Reference(name)] + rest;
    assert ps[1..] == rest;
    assert Source(ps) == ("${" + name + "}") + Source(rest);
  }

  lemma LiteralDenotes(m: map<string, string>, c: char, t: string, rest: seq<Piece>, out: string)
    requires !(c == '$' && t != "" && t[0] == '{') && Denotes(m, t, rest, out)
    ensures Denotes(m, [c] + t, [Literal(c)] + rest, [c] + out)
  {
    var ps := [Literal(c)] + rest;
    assert ps[1..] == rest;
    if rest != [] && rest[0] == Literal('{') {
      assert Source(rest)[0] == '{';
    }
  }

  lemma SplitReference(s: string, e: nat)
    requires |s| >= 2 && s[0] == '$' && s[1] == '{' && e < |s| - 2 && s[2..][e] == '}'
    ensures s == "${" + s[2..][..e] + "}" + s[2..][e + 1..]
  {
  }

  /** What the scan accepts is denoted by some list of pieces. */
  lemma {:induction false} ExpandIsDenoted(m: map<string, string>, s: string) returns (ps: seq<Piece>)
    requires Expand(m, s).Some?
    ensures Denotes(m, s, ps, Expand(m, s).value)
  {
    if s == "" {
      ps := [];
    } else if |s| >= 2 && s[0] == '$' && s[1] == '{' {
      var e := NameEnd(s[2..]);
      var name, t := s[2..][..e], s[2..][e + 1..];
      var rest := ExpandIsDenoted(m, t);
      ps := [Reference(name)] + rest;
      ReferenceDenotes(m, name, t, rest, Expand(m, t).value);
      SplitReference(s, e);
    } else {
      var rest := ExpandIsDenoted(m, s[1..]);
      ps := [Literal(s[0])] + rest;
      LiteralDenotes(m, s[0], s[1..], rest, Expand(m, s[1..]).value);
      assert s == [s[0]] + s[1..];
    }
  }

  lemma ExpandOfReference(m: map<string, string>, name: string, rest: string)
    requires '}' !in name && name in m
    ensures Expand(m, "${" + name + "}" + rest) == Prepend(m[name], Expand(m, rest))
  {
    var s := "${" + name + "}" + rest;
    assert s[2..] == name + "}" + rest;
    assert s[2..][..|name|] == name;
    NameEndAt(s[2..], |name|);
    assert s[2..][|name| + 1..] == rest;
  }

  /** A canonical list with defined names is what the scan reads back from its text. */
  lemma {:induction false} DenotedIsExpanded(m: map<string, string>, s: string, ps: seq<Piece>, out: string)
    requires Denotes(m, s, ps, out)
    ensures Expand(m, s) == Some(out)
    decreases |ps|
  {
    if ps != [] {
      var rest := ps[1..];
      assert forall i :: 0 <= i < |rest| ==> rest[i] == ps[i + 1];
      DenotedIsExpanded(m, Source(rest), rest, Render(m, rest));
      match ps[0] {
        case Reference(name) =>
          ExpandOfReference(m, name, Source(rest));
        case Literal(c) =>
          assert s[1..] == Source(rest);
          if rest != [] {
            assert Source(rest)[0] == SourceOf(rest[0])[0];
          }
      }
    }
  }

  /** The scan succeeds exactly on texts that are literals and closed references to defined
      names, and yields their single-pass expansion. */
  lemma ExpandMeaning(m: map<string, string>, s: string, out: string)
    ensures Expand(m, s) == Some(out) <==> exists ps :: Denotes(m, s, ps, out)
  {
    if Expand(m, s) == Some(out) {
      var ps := ExpandIsDenoted(m, s);
    }
    if ps :| Denotes(m, s, ps, out) {
      DenotedIsExpanded(m, s, ps, out);
    }
  }

  /** More bindings never change or remove an expansion. */
  lemma {:induction false} ExpandMonotone(m: map<string, string>, m': map<string, string>, s: string)
    requires forall n :: n in m ==> n in m' && m'[n] == m[n]
    requires Expand(m, s).Some?
    ensures Expand(m', s) == Expand(m, s)
  {
    if s == "" {
    } else if |s| >= 2 && s[0] == '$' && s[1] == '{' {
      ExpandMonotone(m, m', s[2..][NameEnd(s[2..]) + 1..]);
    } else {
      ExpandMonotone(m, m', s[1..]);
    }
  }

  /** What a caller of ExpandMacros gets: the input and the output both clipped to the buffer. */
  function Expanded(m: map<string, string>, input: string): Option<string> {
    match Expand(m, Clip(input, EXECUTOR_BUFFER_SIZE))
    case None => None
    case Some(out) => Some(Clip(out, EXECUTOR_BUFFER_SIZE))
  }

  /** The reference at p with its name up to q, when q is where the search for a brace ends. */
  lemma ScanReference(m: map<string, string>, done: string, text: string, p: nat, q: nat)
    requires p + 2 <= q <= |text| && text[p] == '$' && text[p + 1] == '{' && q - p - 2 == NameEnd(text[p + 2..])
    ensures q == |text| || text[p + 2..q] !in m ==> Expand(m, text[p..]) == None
    ensures q < |text| && text[p + 2..q] in m ==>
              Prepend(done, Expand(m, text[p..])) == Prepend(done + m[text[p + 2..q]], Expand(m, text[q + 1..]))
  {
    var s, e := text[p..], q - p - 2;
    assert s[2..] == text[p + 2..] && s[2..][..e] == text[p + 2..q];
    if q < |text| && text[p + 2..q] in m {
      assert s[2..][e + 1..] == text[q + 1..];
      PrependTwice(done, m[text[p + 2..q]], Expand(m, text[q + 1..]));
    }
  }

  lemma ScanLiteral(m: map<string, string>, done: string, text: string, p: nat)
    requires p < |text| && !(p + 2 <= |text| && text[p] == '$' && text[p + 1] == '{')
    ensures Prepend(done, Expand(m, text[p..])) == Prepend(done + [text[p]], Expand(m, text[p + 1..]))
  {
    var s := text[p..];
    assert s[1..] == text[p + 1..];
    PrependTwice(done, [s[0]], Expand(m, s[1..]));
  }

  /** Strlcat on a full-size buffer, in terms of the unclipped text so far. */
  method Append(output: array<char>, src: string, ghost done: string)
    requires output.Length == EXECUTOR_BUFFER_SIZE && NulFree(src)
    requires Shows(output, Clip(done, EXECUTOR_BUFFER_SIZE))
    modifies output
    ensures Shows(output, Clip(done + src, EXECUTOR_BUFFER_SIZE))
  {
    ShowsStrOf(output, Clip(done, EXECUTOR_BUFFER_SIZE));
    assert output[..EXECUTOR_BUFFER_SIZE] == output[..];
    var _ := Strlcat(output, src, EXECUTOR_BUFFER_SIZE);
    assert output[..EXECUTOR_BUFFER_SIZE] == output[..];
    ClipThenAppend(done, src, EXECUTOR_BUFFER_SIZE);
    ShowsStrOf(output, Clip(done + src, EXECUTOR_BUFFER_SIZE));
  }

  /** Finds the end of the name that starts at p. */
  method FindNameEnd(buffer: array<char>, p: nat, ghost text: string) returns (q: nat)
    requires p <= |text| < buffer.Length && NulFree(text) && buffer[|text|] == NUL
    requires forall i :: p <= i < |text| ==> buffer[i] == text[i]
    ensures p <= q <= |text| && q - p == NameEnd(text[p..])
    ensures buffer[q] == if q < |text| then '}' else NUL
  {
    q := p;
    while buffer[q] != NUL && buffer[q] != '}'
      invariant p <= q <= |text| && '}' !in text[p..q]
      decreases |text| - q
    {
      q := q + 1;
    }
    assert text[p..][..q - p] == text[p..q];
    if q < |text| {
      NameEndAt(text[p..], q - p);
    }
  }

  /** The part of buffer from p on still holds the text from p on. */
  ghost predicate Pending(buffer: array<char>, p: nat, text: string)
    reads buffer
  {
    && p <= |text| < buffer.Length && NulFree(text) && buffer[|text|] == NUL
    && forall i :: p <= i < |text| ==> buffer[i] == text[i]
  }

  /** Cuts the name off with a terminator in place of its closing brace. */
  method TakeName(buffer: array<char>, p: nat, q: nat, ghost text: string) returns (name: string)
    requires Pending(buffer, p, text) && p <= q < |text|
    modifies buffer
    ensures Pending(buffer, q + 1, text)
    ensures name == text[p..q]
  {
    buffer[q] := NUL;
    assert buffer[p..][..q - p] == text[p..q];
    StrOfUnique(buffer[p..], text[p..q]);
    name := StrOf(buffer[p..]);
  }

  /** One turn of the scan: a literal, or a closed reference to a defined name. */
  ghost predicate Advances(m: map<string, string>, text: string, p: nat, next: nat, value: string) {
    && p < next <= |text|
    && if p + 2 <= |text| && text[p] == '$' && text[p + 1] == '{'
       then p + 2 <= next - 1 && next - 1 - (p + 2) == NameEnd(text[p + 2..])
            && text[p + 2..next - 1] in m && value == m[text[p + 2..next - 1]]
       else next == p + 1 && value == [text[p]]
  }

  ghost predicate Stuck(m: map<string, string>, text: string, p: nat) {
    && p + 2 <= |text| && text[p] == '$' && text[p + 1] == '{'
    && var q := p + 2 + NameEnd(text[p + 2..]);
       q == |text| || text[p + 2..q] !in m
  }

  lemma AdvanceLaw(m: map<string, string>, text: string, p: nat, next: nat, value: string, done: string)
    requires Advances(m, text, p, next, value)
    ensures Prepend(done, Expand(m, text[p..])) == Prepend(done + value, Expand(m, text[next..]))
  {
    if p + 2 <= |text| && text[p] == '$' && text[p + 1] == '{' {
      ScanReference(m, done, text, p, next - 1);
    } else {
      ScanLiteral(m, done, text, p);
    }
  }

  lemma StuckLaw(m: map<string, string>, text: string, p: nat, done: string)
    requires Stuck(m, text, p)
    ensures Prepend(done, Expand(m, text[p..])) == None
  {
    ScanReference(m, done, text, p, p + 2 + NameEnd(text[p + 2..]));
  }

  /** Handles the reference that starts at p: appends its value and moves past it, or gives
      None for an unclosed or undefined one. */
  method ExpandReference(macros: MacroList, buffer: array<char>, p: nat, output: array<char>,
                         ghost text: string, ghost done: string)
    returns (next: Option<nat>, ghost value: string)
    requires macros.Valid() && buffer != output && output.Length == EXECUTOR_BUFFER_SIZE
    requires Pending(buffer, p, text) && p + 2 <= |text| && text[p] == '$' && text[p + 1] == '{'
    requires Shows(output, Clip(done, EXECUTOR_BUFFER_SIZE))
    modifies buffer, output
    ensures next.None? ==> Stuck(macros.Map(), text, p)
    ensures next.Some? ==>
              && Advances(macros.Map(), text, p, next.value, value)
              && Pending(buffer, next.value, text)
              && Shows(output, Clip(done + value, EXECUTOR_BUFFER_SIZE))
  {
    var q := FindNameEnd(buffer, p + 2, text);
    value := "";
    if buffer[q] != '}' {
      return None, "";
    }
    var name := TakeName(buffer, p + 2, q, text);
    var found := macros.FindMacro(name);
    if found.None? {
      return None, "";
    }
    value := found.value;
    Append(output, found.value, done);
    next := Some(q + 1);
  }

  /** Appends the current character. */
  method ExpandLiteral(buffer: array<char>, p: nat, output: array<char>, ghost text: string, ghost done: string)
    returns (ghost value: string)
    requires buffer != output && output.Length == EXECUTOR_BUFFER_SIZE
    requires Pending(buffer, p, text) && p < |text|
    requires Shows(output, Clip(done, EXECUTOR_BUFFER_SIZE))
    modifies output
    ensures value == [text[p]] && Pending(buffer, p + 1, text)
    ensures Shows(output, Clip(done + value, EXECUTOR_BUFFER_SIZE))
  {
    var two := [buffer[p]];
    value := two;
    Append(output, two, done);
  }

  /** The body of the scanning loop. */
  method ExpandOne(macros: MacroList, buffer: array<char>, p: nat, output: array<char>, ghost text: string,
                   ghost done: string)
    returns (next: Option<nat>, ghost value: string)
    requires macros.Valid() && buffer != output && output.Length == EXECUTOR_BUFFER_SIZE
    requires Pending(buffer, p, text) && p < |text|
    requires Shows(output, Clip(done, EXECUTOR_BUFFER_SIZE))
    modifies buffer, output
    ensures next.None? ==> Stuck(macros.Map(), text, p)
    ensures next.Some? ==>
              && Advances(macros.Map(), text, p, next.value, value)
              && Pending(buffer, next.value, text)
              && Shows(output, Clip(done + value, EXECUTOR_BUFFER_SIZE))
  {
    if buffer[p] == '$' && buffer[p + 1] == '{' {
      next, value := ExpandReference(macros, buffer, p, output, text, done);
    } else {
      value := ExpandLiteral(buffer, p, output, text, done);
      next := Some(p + 1);
    }
  }

  method ExpandMacros(macros: MacroList, input: string, output: array<char>) returns (rc: int)
    requires macros.Valid() && NulFree(input) && output.Length == EXECUTOR_BUFFER_SIZE
    modifies output
    ensures rc == 0 || rc == -1
    ensures rc == 0 <==> Expanded(macros.Map(), input).Some?
    ensures rc == 0 ==> StrOf(output[..]) == Expanded(macros.Map(), input).value
  {
    var buffer := new char[EXECUTOR_BUFFER_SIZE];
    ghost var text := Clip(input, EXECUTOR_BUFFER_SIZE);
    ghost var m := macros.Map();
    var _ := Strlcpy(buffer, input, EXECUTOR_BUFFER_SIZE);
    ShowsStrOf(buffer, text);
    assert forall i :: 0 <= i < |text| ==> buffer[i] == buffer[..|text|][i];
    output[0] := NUL;
    ghost var done := "";
    var p := 0;
    PrependNothing(Expand(m, text));
    assert text[0..] == text;
    while buffer[p] != NUL
      invariant Pending(buffer, p, text)
      invariant macros.Valid() && macros.Map() == m
      invariant Expand(m, text) == Prepend(done, Expand(m, text[p..]))
      invariant Shows(output, Clip(done, EXECUTOR_BUFFER_SIZE))
      decreases |text| - p
    {
      var next;
      ghost var value;
      next, value := ExpandOne(macros, buffer, p, output, text, done);
      if next.None? {
        StuckLaw(m, text, p, done);
        return -1;
      }
      AdvanceLaw(m, text, p, next.value, value, done);
      p := next.value;
      done := done + value;
    }
    assert text[p..] == "" && done + "" == done;
    ShowsStrOf(output, Clip(done, EXECUTOR_BUFFER_SIZE));
    return 0;
  }
}
