/** The executor's policy table and its decisions (pegasus/src/Executor/Policy.c). */
module Policies {
  import opened Collections
  import opened CStrings
  import opened Macros
  import opened Expansion
  import opened Glob
  import opened Messages

  datatype Policy = Policy(code: MessageCode, arg1: Option<string>, arg2: Option<string>, flags: nat)

  const MODE_0644 := 420
  const MODE_0600 := 384

  const CURRENT := "currentConfigFilePath"
  const PLANNED := "plannedConfigFilePath"
  const PASSWORD := "passwordFilePath"
  const SSLKEY := "sslKeyFilePath"
  const TRUST := "sslTrustStore"
  const CRL := "crlStore"
  const LOCALAUTH := "localAuthDir"

  /** The text of a pattern that starts with a macro, such as "${crlStore}" followed by a slash and a star. */
  function Ref(name: string, suffix: string): string {
    "${" + name + "}" + suffix
  }

  const STATIC_POLICY_TABLE: seq<Policy> := [
    Policy(OpenFile, Some(Ref(CURRENT, "")), Some("w"), MODE_0644),
    Policy(RenameFile, Some(Ref(CURRENT, "")), Some(Ref(CURRENT, ".bak")), 0),
    Policy(RemoveFile, Some(Ref(CURRENT, "")), None, 0),
    Policy(RemoveFile, Some(Ref(CURRENT, ".bak")), None, 0),
    Policy(OpenFile, Some(Ref(PLANNED, "")), Some("w"), MODE_0644),
    Policy(RenameFile, Some(Ref(PLANNED, "")), Some(Ref(PLANNED, ".bak")), 0),
    Policy(RemoveFile, Some(Ref(PLANNED, "")), None, 0),
    Policy(RemoveFile, Some(Ref(PLANNED, ".bak")), None, 0),
    Policy(OpenFile, Some(Ref(PASSWORD, "")), Some("w"), MODE_0600),
    Policy(RenameFile, Some(Ref(PASSWORD, ".bak")), Some(Ref(PASSWORD, "")), 0),
    Policy(RenameFile, Some(Ref(PASSWORD, "")), Some(Ref(PASSWORD, ".bak")), 0),
    Policy(RemoveFile, Some(Ref(PASSWORD, ".bak")), None, 0),
    Policy(RemoveFile, Some(Ref(PASSWORD, "")), None, 0),
    Policy(OpenFile, Some(Ref(SSLKEY, "")), Some("r"), 0),
    Policy(OpenFile, Some(Ref(TRUST, "/*")), Some("w"), MODE_0644),
    Policy(RemoveFile, Some(Ref(TRUST, "/*")), None, 0),
    Policy(OpenFile, Some(Ref(CRL, "/*")), Some("w"), MODE_0644),
    Policy(RemoveFile, Some(Ref(CRL, "/*")), None, 0),
    Policy(RemoveFile, Some(Ref(LOCALAUTH, "/*")), None, 0)
  ]

  // ---------------------------------------------------------------- what a row admits

  /** A pattern admits an argument when it expands and the expansion fits. */
  ghost predicate Admits(m: map<string, string>, pattern: string, arg: string) {
    Expanded(m, pattern).Some? && Fits(Expanded(m, pattern).value, arg)
  }

  type Matcher = (string, string) -> bool

  ghost function MatcherOf(m: map<string, string>): Matcher {
    (pattern: string, arg: string) => Admits(m, pattern, arg)
  }

  ghost predicate RowMatches(fits: Matcher, row: Policy, code: MessageCode, arg1: string, arg2: Option<string>) {
    && row.code == code
    && (row.arg1.Some? ==> fits(row.arg1.value, arg1))
    && (row.arg2.Some? ==> arg2.Some? && fits(row.arg2.value, arg2.value))
  }

  /** The flags of the first row that matches, if any. */
  ghost function Decide(fits: Matcher, table: seq<Policy>, code: MessageCode, arg1: string,
                        arg2: Option<string>): Option<nat>
    decreases |table|
  {
    if table == [] then None
    else if RowMatches(fits, table[0], code, arg1, arg2) then Some(table[0].flags)
    else Decide(fits, table[1..], code, arg1, arg2)
  }

  lemma {:induction false} FirstRowDecides(fits: Matcher, table: seq<Policy>, code: MessageCode, arg1: string,
                                           arg2: Option<string>, i: nat)
    requires i <= |table|
    requires forall j :: 0 <= j < i ==> !RowMatches(fits, table[j], code, arg1, arg2)
    requires i < |table| ==> RowMatches(fits, table[i], code, arg1, arg2)
    ensures Decide(fits, table, code, arg1, arg2) == if i < |table| then Some(table[i].flags) else None
    decreases i
  {
    if i > 0 {
      FirstRowDecides(fits, table[1..], code, arg1, arg2, i - 1);
    }
  }

  /** Some first matching row, or none. */
  lemma FindRow(fits: Matcher, table: seq<Policy>, code: MessageCode, arg1: string,
                arg2: Option<string>) returns (i: nat)
    ensures i <= |table|
    ensures forall j :: 0 <= j < i ==> !RowMatches(fits, table[j], code, arg1, arg2)
    ensures i < |table| ==> RowMatches(fits, table[i], code, arg1, arg2)
    ensures Decide(fits, table, code, arg1, arg2) == if i < |table| then Some(table[i].flags) else None
  {
    i := 0;
    while i < |table| && !RowMatches(fits, table[i], code, arg1, arg2)
      invariant i <= |table|
      invariant forall j :: 0 <= j < i ==> !RowMatches(fits, table[j], code, arg1, arg2)
    {
      i := i + 1;
    }
    FirstRowDecides(fits, table, code, arg1, arg2, i);
  }

  predicate WellFormedTable(table: seq<Policy>) {
    forall i :: 0 <= i < |table| ==>
      && (table[i].arg1.Some? ==> NulFree(table[i].arg1.value))
      && (table[i].arg2.Some? ==> NulFree(table[i].arg2.value))
  }

  /** A row with a second pattern is only meant for requests with a second argument. */
  predicate ArgumentsSupplied(table: seq<Policy>, code: MessageCode, arg2: Option<string>) {
    forall i :: 0 <= i < |table| && table[i].code == code && table[i].arg2.Some? ==> arg2.Some?
  }

  method CheckArg(macros: MacroList, pattern: string, arg: string) returns (ok: bool)
    requires macros.Valid() && NulFree(pattern)
    ensures ok <==> Admits(macros.Map(), pattern, arg)
  {
    var pat := new char[EXECUTOR_BUFFER_SIZE];
    var rc := ExpandMacros(macros, pattern, pat);
    if rc != 0 {
      return false;
    }
    rc := Match(StrOf(pat[..]), arg);
    return rc == 0;
  }

  method CheckPolicy(macros: MacroList, table: seq<Policy>, code: MessageCode, arg1: string, arg2: Option<string>)
    returns (rc: int, flags: nat)
    requires macros.Valid() && WellFormedTable(table) && ArgumentsSupplied(table, code, arg2)
    ensures rc == if Decide(MatcherOf(macros.Map()), table, code, arg1, arg2).Some? then 0 else -1
    ensures flags == if rc == 0 then Decide(MatcherOf(macros.Map()), table, code, arg1, arg2).value else 0
  {
    flags := 0;
    for i := 0 to |table|
      invariant flags == 0
      invariant forall j :: 0 <= j < i ==> !RowMatches(MatcherOf(macros.Map()), table[j], code, arg1, arg2)
    {
      var p := table[i];
      if p.code != code {
        continue;
      }
      if p.arg1.Some? {
        var ok := CheckArg(macros, p.arg1.value, arg1);
        if !ok {
          continue;
        }
      }
      if p.arg2.Some? {
        var ok := CheckArg(macros, p.arg2.value, arg2.value);
        if !ok {
          continue;
        }
      }
      FirstRowDecides(MatcherOf(macros.Map()), table, code, arg1, arg2, i);
      return 0, p.flags;
    }
    FirstRowDecides(MatcherOf(macros.Map()), table, code, arg1, arg2, |table|);
    return -1, 0;
  }

  // ---------------------------------------------------------------- what the table means

  /** A value a pattern row can be read literally with: no star, and short enough that
      neither `.bak` nor the directory star is cut off. */
  ghost predicate PlainValue(m: map<string, string>, name: string) {
    name in m ==> STAR !in m[name] && |m[name]| + 4 < EXECUTOR_BUFFER_SIZE
  }

  /** All values that the table refers to are plain; any of them may be undefined. */
  ghost predicate PlainValues(m: map<string, string>) {
    && PlainValue(m, CURRENT) && PlainValue(m, PLANNED) && PlainValue(m, PASSWORD) && PlainValue(m, SSLKEY)
    && PlainValue(m, TRUST) && PlainValue(m, CRL) && PlainValue(m, LOCALAUTH)
  }

  ghost predicate IsPath(m: map<string, string>, name: string, suffix: string, path: string) {
    name in m && path == m[name] + suffix
  }

  ghost predicate IsUnder(m: map<string, string>, name: string, path: string) {
    name in m && m[name] + "/" <= path
  }

  lemma {:induction false} ExpandPlainText(m: map<string, string>, s: string)
    requires '$' !in s
    ensures Expand(m, s) == Some(s)
  {
    if s != "" {
      ExpandPlainText(m, s[1..]);
      assert s == [s[0]] + s[1..];
    }
  }

  lemma ExpandPattern(m: map<string, string>, name: string, suffix: string)
    requires '}' !in name && '$' !in suffix
    ensures Expand(m, "${" + name + "}" + suffix) == if name in m then Some(m[name] + suffix) else None
  {
    if name in m {
      ExpandOfReference(m, name, suffix);
      ExpandPlainText(m, suffix);
    } else {
      var s := "${" + name + "}" + suffix;
      assert s[2..] == name + "}" + suffix;
      assert s[2..][..|name|] == name;
      NameEndAt(s[2..], |name|);
    }
  }

  lemma {:induction false} FitsText(p: string, s: string)
    requires STAR !in p
    ensures Fits(p, s) <==> p == s
  {
    if p == "" {
      FitsEmptyPattern(s);
    } else {
      FitsLiteral(p, s);
      if s != "" {
        FitsText(p[1..], s[1..]);
        assert p == [p[0]] + p[1..] && s == [s[0]] + s[1..];
      }
    }
  }

  lemma {:induction false} FitsTextStar(p: string, s: string)
    requires STAR !in p
    ensures Fits(p + "*", s) <==> p <= s
  {
    if p == "" {
      assert p + "*" == "*";
      FitsSingleStar(s);
    } else {
      FitsLiteral(p + "*", s);
      assert (p + "*")[1..] == p[1..] + "*";
      if s != "" {
        FitsTextStar(p[1..], s[1..]);
        assert p == [p[0]] + p[1..] && s == [s[0]] + s[1..];
        if p[1..] <= s[1..] && s[0] == p[0] {
          assert s == [p[0]] + p[1..] + s[1..][|p[1..]|..];
        }
        if p <= s {
          assert s[1..][..|p| - 1] == p[1..];
        }
      }
    }
  }

  lemma ExactPattern(m: map<string, string>, name: string, suffix: string, arg: string)
    requires PlainValue(m, name) && '}' !in name && '$' !in suffix && STAR !in suffix
    requires |suffix| <= 4 && |name| < 100
    ensures Admits(m, Ref(name, suffix), arg) <==> IsPath(m, name, suffix, arg)
  {
    ExpandPattern(m, name, suffix);
    if name in m {
      FitsText(m[name] + suffix, arg);
    }
  }

  lemma DirectoryPattern(m: map<string, string>, name: string, arg: string)
    requires PlainValue(m, name) && '}' !in name && |name| < 100
    ensures Admits(m, Ref(name, "/*"), arg) <==> IsUnder(m, name, arg)
  {
    ExpandPattern(m, name, "/*");
    if name in m {
      FitsTextStar(m[name] + "/", arg);
      assert (m[name] + "/") + "*" == m[name] + "/*";
    }
  }

  lemma TextPattern(m: map<string, string>, text: string, arg: string)
    requires '$' !in text && STAR !in text && |text| < EXECUTOR_BUFFER_SIZE
    ensures Admits(m, text, arg) <==> arg == text
  {
    ExpandPlainText(m, text);
    FitsText(text, arg);
  }

  ghost predicate MayRemove(m: map<string, string>, path: string) {
    || IsPath(m, CURRENT, "", path) || IsPath(m, CURRENT, ".bak", path)
    || IsPath(m, PLANNED, "", path) || IsPath(m, PLANNED, ".bak", path)
    || IsPath(m, PASSWORD, "", path) || IsPath(m, PASSWORD, ".bak", path)
    || IsUnder(m, TRUST, path) || IsUnder(m, CRL, path) || IsUnder(m, LOCALAUTH, path)
  }

  ghost predicate MayRename(m: map<string, string>, oldPath: string, newPath: string) {
    || (IsPath(m, CURRENT, "", oldPath) && IsPath(m, CURRENT, ".bak", newPath))
    || (IsPath(m, PLANNED, "", oldPath) && IsPath(m, PLANNED, ".bak", newPath))
    || (IsPath(m, PASSWORD, ".bak", oldPath) && IsPath(m, PASSWORD, "", newPath))
    || (IsPath(m, PASSWORD, "", oldPath) && IsPath(m, PASSWORD, ".bak", newPath))
  }

  /** The permissions for opening path in the given mode; earlier lines win where paths coincide. */
  ghost function MayOpen(m: map<string, string>, path: string, mode: string): Option<nat> {
    if mode == "w" then
      if IsPath(m, CURRENT, "", path) || IsPath(m, PLANNED, "", path) then Some(MODE_0644)
      else if IsPath(m, PASSWORD, "", path) then Some(MODE_0600)
      else if IsUnder(m, TRUST, path) || IsUnder(m, CRL, path) then Some(MODE_0644)
      else None
    else if mode == "r" && IsPath(m, SSLKEY, "", path) then Some(0)
    else None
  }

  lemma FilePatterns(m: map<string, string>, arg: string)
    requires PlainValues(m)
    ensures Admits(m, Ref(CURRENT, ""), arg) <==> IsPath(m, CURRENT, "", arg)
    ensures Admits(m, Ref(CURRENT, ".bak"), arg) <==> IsPath(m, CURRENT, ".bak", arg)
    ensures Admits(m, Ref(PLANNED, ""), arg) <==> IsPath(m, PLANNED, "", arg)
    ensures Admits(m, Ref(PLANNED, ".bak"), arg) <==> IsPath(m, PLANNED, ".bak", arg)
    ensures Admits(m, Ref(PASSWORD, ""), arg) <==> IsPath(m, PASSWORD, "", arg)
    ensures Admits(m, Ref(PASSWORD, ".bak"), arg) <==> IsPath(m, PASSWORD, ".bak", arg)
  {
    ExactPattern(m, CURRENT, "", arg);
    ExactPattern(m, CURRENT, ".bak", arg);
    ExactPattern(m, PLANNED, "", arg);
    ExactPattern(m, PLANNED, ".bak", arg);
    ExactPattern(m, PASSWORD, "", arg);
    ExactPattern(m, PASSWORD, ".bak", arg);
  }

  /** The remove rows, whatever patterns admit. */
  lemma RemoveRows(fits: Matcher, path: string)
    ensures Decide(fits, STATIC_POLICY_TABLE, RemoveFile, path, None).Some? <==>
              || fits(Ref(CURRENT, ""), path) || fits(Ref(CURRENT, ".bak"), path)
              || fits(Ref(PLANNED, ""), path) || fits(Ref(PLANNED, ".bak"), path)
              || fits(Ref(PASSWORD, ""), path) || fits(Ref(PASSWORD, ".bak"), path)
              || fits(Ref(TRUST, "/*"), path) || fits(Ref(CRL, "/*"), path) || fits(Ref(LOCALAUTH, "/*"), path)
  {
    var i := FindRow(fits, STATIC_POLICY_TABLE, RemoveFile, path, None);
    if i == |STATIC_POLICY_TABLE| {
      assert !RowMatches(fits, STATIC_POLICY_TABLE[2], RemoveFile, path, None);
      assert !RowMatches(fits, STATIC_POLICY_TABLE[3], RemoveFile, path, None);
      assert !RowMatches(fits, STATIC_POLICY_TABLE[6], RemoveFile, path, None);
      assert !RowMatches(fits, STATIC_POLICY_TABLE[7], RemoveFile, path, None);
      assert !RowMatches(fits, STATIC_POLICY_TABLE[11], RemoveFile, path, None);
      assert !RowMatches(fits, STATIC_POLICY_TABLE[12], RemoveFile, path, None);
      assert !RowMatches(fits, STATIC_POLICY_TABLE[15], RemoveFile, path, None);
      assert !RowMatches(fits, STATIC_POLICY_TABLE[17], RemoveFile, path, None);
      assert !RowMatches(fits, STATIC_POLICY_TABLE[18], RemoveFile, path, None);
    }
  }

  lemma RemoveMeaning(m: map<string, string>, path: string)
    requires PlainValues(m)
    ensures Decide(MatcherOf(m), STATIC_POLICY_TABLE, RemoveFile, path, None).Some? <==> MayRemove(m, path)
  {
    RemoveRows(MatcherOf(m), path);
    FilePatterns(m, path);
    DirectoryPattern(m, TRUST, path);
    DirectoryPattern(m, CRL, path);
    DirectoryPattern(m, LOCALAUTH, path);
  }

  lemma RenameRows(fits: Matcher, oldPath: string, newPath: string)
    ensures Decide(fits, STATIC_POLICY_TABLE, RenameFile, oldPath, Some(newPath)).Some? <==>
              || (fits(Ref(CURRENT, ""), oldPath) && fits(Ref(CURRENT, ".bak"), newPath))
              || (fits(Ref(PLANNED, ""), oldPath) && fits(Ref(PLANNED, ".bak"), newPath))
              || (fits(Ref(PASSWORD, ".bak"), oldPath) && fits(Ref(PASSWORD, ""), newPath))
              || (fits(Ref(PASSWORD, ""), oldPath) && fits(Ref(PASSWORD, ".bak"), newPath))
  {
    var i := FindRow(fits, STATIC_POLICY_TABLE, RenameFile, oldPath, Some(newPath));
    if i == |STATIC_POLICY_TABLE| {
      assert !RowMatches(fits, STATIC_POLICY_TABLE[1], RenameFile, oldPath, Some(newPath));
      assert !RowMatches(fits, STATIC_POLICY_TABLE[5], RenameFile, oldPath, Some(newPath));
      assert !RowMatches(fits, STATIC_POLICY_TABLE[9], RenameFile, oldPath, Some(newPath));
      assert !RowMatches(fits, STATIC_POLICY_TABLE[10], RenameFile, oldPath, Some(newPath));
    }
  }

  lemma RenameMeaning(m: map<string, string>, oldPath: string, newPath: string)
    requires PlainValues(m)
    ensures Decide(MatcherOf(m), STATIC_POLICY_TABLE, RenameFile, oldPath, Some(newPath)).Some?
       <==> MayRename(m, oldPath, newPath)
  {
    RenameRows(MatcherOf(m), oldPath, newPath);
    FilePatterns(m, oldPath);
    FilePatterns(m, newPath);
  }

  lemma OpenRows(fits: Matcher, path: string, mode: string)
    ensures Decide(fits, STATIC_POLICY_TABLE, OpenFile, path, Some(mode)) ==
              if (fits(Ref(CURRENT, ""), path) || fits(Ref(PLANNED, ""), path)) && fits("w", mode) then Some(MODE_0644)
              else if fits(Ref(PASSWORD, ""), path) && fits("w", mode) then Some(MODE_0600)
              else if fits(Ref(SSLKEY, ""), path) && fits("r", mode) then Some(0)
              else if (fits(Ref(TRUST, "/*"), path) || fits(Ref(CRL, "/*"), path)) && fits("w", mode)
                      then Some(MODE_0644)
              else None
  {
    var i := FindRow(fits, STATIC_POLICY_TABLE, OpenFile, path, Some(mode));
    assert 0 < i ==> !RowMatches(fits, STATIC_POLICY_TABLE[0], OpenFile, path, Some(mode));
    assert 4 < i ==> !RowMatches(fits, STATIC_POLICY_TABLE[4], OpenFile, path, Some(mode));
    assert 8 < i ==> !RowMatches(fits, STATIC_POLICY_TABLE[8], OpenFile, path, Some(mode));
    assert 13 < i ==> !RowMatches(fits, STATIC_POLICY_TABLE[13], OpenFile, path, Some(mode));
    assert 14 < i ==> !RowMatches(fits, STATIC_POLICY_TABLE[14], OpenFile, path, Some(mode));
    assert 16 < i ==> !RowMatches(fits, STATIC_POLICY_TABLE[16], OpenFile, path, Some(mode));
  }

  lemma OpenPatterns(m: map<string, string>, path: string, mode: string)
    requires PlainValues(m)
    ensures Admits(m, Ref(CURRENT, ""), path) <==> IsPath(m, CURRENT, "", path)
    ensures Admits(m, Ref(PLANNED, ""), path) <==> IsPath(m, PLANNED, "", path)
    ensures Admits(m, Ref(PASSWORD, ""), path) <==> IsPath(m, PASSWORD, "", path)
    ensures Admits(m, Ref(SSLKEY, ""), path) <==> IsPath(m, SSLKEY, "", path)
    ensures Admits(m, Ref(TRUST, "/*"), path) <==> IsUnder(m, TRUST, path)
    ensures Admits(m, Ref(CRL, "/*"), path) <==> IsUnder(m, CRL, path)
    ensures Admits(m, "w", mode) <==> mode == "w"
    ensures Admits(m, "r", mode) <==> mode == "r"
  {
    ExactPattern(m, CURRENT, "", path);
    ExactPattern(m, PLANNED, "", path);
    ExactPattern(m, PASSWORD, "", path);
    ExactPattern(m, SSLKEY, "", path);
    DirectoryPattern(m, TRUST, path);
    DirectoryPattern(m, CRL, path);
    TextPattern(m, "w", mode);
    TextPattern(m, "r", mode);
  }

  lemma OpenMeaning(m: map<string, string>, path: string, mode: string)
    requires PlainValues(m)
    ensures Decide(MatcherOf(m), STATIC_POLICY_TABLE, OpenFile, path, Some(mode)) == MayOpen(m, path, mode)
  {
    OpenRows(MatcherOf(m), path, mode);
    OpenPatterns(m, path, mode);
    assert mode == "w" ==> mode != "r";
  }

  // ---------------------------------------------------------------- the three wrappers

  /** The one-character string built from an int mode: only its low eight bits survive. */
  function ModeArg(mode: int): string {
    if mode % 256 == 0 then "" else [(mode % 256) as char]
  }

  lemma RefIsText(name: string, suffix: string)
    requires NulFree(name) && NulFree(suffix)
    ensures NulFree(Ref(name, suffix))
  {
  }

  lemma StaticTableIsWellFormed()
    ensures WellFormedTable(STATIC_POLICY_TABLE)
  {
    assert forall name, suffix :: (name in {CURRENT, PLANNED, PASSWORD, SSLKEY, TRUST, CRL, LOCALAUTH}
                                   && suffix in {"", ".bak", "/*"}) ==>
        NulFree(Ref(name, suffix)) by {
      forall name, suffix | name in {CURRENT, PLANNED, PASSWORD, SSLKEY, TRUST, CRL, LOCALAUTH}
                     && suffix in {"", ".bak", "/*"}
        ensures NulFree(Ref(name, suffix))
      {
        RefIsText(name, suffix);
      }
    }
    assert NulFree("w") && NulFree("r");
  }

  method CheckOpenFilePolicy(macros: MacroList, path: string, mode: int) returns (rc: int, flags: nat)
    requires macros.Valid()
    ensures rc == 0 || rc == -1
    ensures rc == 0 <==> Decide(MatcherOf(macros.Map()), STATIC_POLICY_TABLE, OpenFile, path, Some(ModeArg(mode))).Some?
    ensures PlainValues(macros.Map()) ==>
              && (rc == 0 <==> MayOpen(macros.Map(), path, ModeArg(mode)).Some?)
              && (rc == 0 ==> flags == MayOpen(macros.Map(), path, ModeArg(mode)).value)
  {
    StaticTableIsWellFormed();
    rc, flags := CheckPolicy(macros, STATIC_POLICY_TABLE, OpenFile, path, Some(ModeArg(mode)));
    if PlainValues(macros.Map()) {
      OpenMeaning(macros.Map(), path, ModeArg(mode));
    }
  }

  method CheckRemoveFilePolicy(macros: MacroList, path: string) returns (rc: int)
    requires macros.Valid()
    ensures rc == 0 || rc == -1
    ensures rc == 0 <==> Decide(MatcherOf(macros.Map()), STATIC_POLICY_TABLE, RemoveFile, path, None).Some?
    ensures PlainValues(macros.Map()) ==> (rc == 0 <==> MayRemove(macros.Map(), path))
  {
    var flags;
    StaticTableIsWellFormed();
    rc, flags := CheckPolicy(macros, STATIC_POLICY_TABLE, RemoveFile, path, None);
    if PlainValues(macros.Map()) {
      RemoveMeaning(macros.Map(), path);
    }
  }

  method CheckRenameFilePolicy(macros: MacroList, oldPath: string, newPath: string) returns (rc: int)
    requires macros.Valid()
    ensures rc == 0 || rc == -1
    ensures rc == 0 <==> Decide(MatcherOf(macros.Map()), STATIC_POLICY_TABLE, RenameFile, oldPath, Some(newPath)).Some?
    ensures PlainValues(macros.Map()) ==> (rc == 0 <==> MayRename(macros.Map(), oldPath, newPath))
  {
    var flags;
    StaticTableIsWellFormed();
    rc, flags := CheckPolicy(macros, STATIC_POLICY_TABLE, RenameFile, oldPath, Some(newPath));
    if PlainValues(macros.Map()) {
      RenameMeaning(macros.Map(), oldPath, newPath);
    }
  }

  // ---------------------------------------------------------------- monotonicity

  predicate OnlyDefines(ops: seq<Op>) {
    forall i :: 0 <= i < |ops| ==> ops[i].Define?
  }

  lemma {:induction false} DefinesExtend(m: map<string, string>, ops: seq<Op>)
    requires OnlyDefines(ops)
    ensures forall n :: n in m ==> n in RunMap(m, ops) && RunMap(m, ops)[n] == m[n]
    decreases |ops|
  {
    if ops != [] {
      assert ops[0].Define?;
      DefinesExtend(ApplyMap(m, ops[0]), ops[1..]);
    }
  }

  lemma AdmitsMonotone(m: map<string, string>, m': map<string, string>, pattern: string, arg: string)
    requires forall n :: n in m ==> n in m' && m'[n] == m[n]
    requires Admits(m, pattern, arg)
    ensures Admits(m', pattern, arg)
  {
    ExpandMonotone(m, m', Clip(pattern, EXECUTOR_BUFFER_SIZE));
  }

  /** Any number of DefineMacro calls, on any list and for any table: an accepted request
      stays accepted, and the deciding row can only move up the table. */
  lemma DefinitionsKeepAcceptance(bs: seq<Binding>, ops: seq<Op>, table: seq<Policy>, code: MessageCode,
                                  arg1: string, arg2: Option<string>)
    returns (i: nat, j: nat)
    requires Distinct(bs) && OnlyDefines(ops)
    requires Decide(MatcherOf(AsMap(bs)), table, code, arg1, arg2).Some?
    ensures j <= i < |table|
    ensures Decide(MatcherOf(AsMap(bs)), table, code, arg1, arg2) == Some(table[i].flags)
    ensures Decide(MatcherOf(AsMap(Run(bs, ops))), table, code, arg1, arg2) == Some(table[j].flags)
    ensures forall k :: 0 <= k < i ==> !RowMatches(MatcherOf(AsMap(bs)), table[k], code, arg1, arg2)
    ensures forall k :: 0 <= k < j ==> !RowMatches(MatcherOf(AsMap(Run(bs, ops))), table[k], code, arg1, arg2)
  {
    var m, m' := AsMap(bs), AsMap(Run(bs, ops));
    ListRefinesMap(bs, ops);
    DefinesExtend(m, ops);
    i := FindRow(MatcherOf(m), table, code, arg1, arg2);
    j := FindRow(MatcherOf(m'), table, code, arg1, arg2);
    if table[i].arg1.Some? {
      AdmitsMonotone(m, m', table[i].arg1.value, arg1);
    }
    if table[i].arg2.Some? {
      AdmitsMonotone(m, m', table[i].arg2.value, arg2.value);
    }
  }
}
