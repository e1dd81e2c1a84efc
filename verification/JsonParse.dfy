/** JSON.parse in pegasus/www/js/json2.js up to evaluation, on every JSON text and on everything
    that JSON.stringify prints. */
module JsonParse {
  import opened Collections
  import opened JsonText
  import opened Json
  import opened JsonTokens
  import opened JsonGrammar
  import opened JsonReading
  import opened JsonCheck
  import opened JsonSafety

  // ---------------------------------------------------------------- the escaping stage keeps meaning

  predicate NoCx(t: Text) {
    forall i :: 0 <= i < |t| ==> !IsCx(t[i])
  }

  lemma ArmouredCons(u: Unit, t: Text)
    ensures Armoured([u] + t) == ArmourUnit(u) + Armoured(t)
  {
    assert ([u] + t)[1..] == t;
  }

  lemma {:induction false} ArmouredPlain(a: Text, b: Text)
    requires NoCx(a)
    ensures Armoured(a + b) == a + Armoured(b)
    decreases |a|
  {
    if a == [] {
      assert a + b == b && a + Armoured(b) == Armoured(b);
    } else {
      ArmouredPlain(a[1..], b);
      assert a == [a[0]] + a[1..];
      Associative([a[0]], a[1..], b);
      ArmouredCons(a[0], a[1..] + b);
      Associative([a[0]], a[1..], Armoured(b));
    }
  }

  /** No character that upsets JavaScript is left. */
  lemma {:induction false} ArmouredHasNoCx(t: Text)
    ensures NoCx(Armoured(t))
    decreases |t|
  {
    if t != [] {
      if IsCx(t[0]) {
        Hex4Digits(t[0]);
      }
      ArmouredHasNoCx(t[1..]);
    }
  }

  /** The first character survives or turns into a backslash. */
  lemma ArmouredHead(t: Text)
    requires t != []
    ensures Armoured(t) != []
    ensures Armoured(t)[0] == if IsCx(t[0]) then BACKSLASH else t[0]
    ensures !IsCx(t[0]) ==> Armoured(t)[1..] == Armoured(t[1..])
  {
    if !IsCx(t[0]) {
      assert ([t[0]] + Armoured(t[1..]))[1..] == Armoured(t[1..]);
    }
  }

  lemma ArmouredEndsNumber(t: Text)
    requires EndsNumber(t)
    ensures EndsNumber(Armoured(t))
  {
    if t != [] {
      ArmouredHead(t);
    }
  }

  lemma {:induction false} ArmouredWs(t: Text)
    ensures SkipWs(Armoured(t)) == Armoured(SkipWs(t))
    decreases |t|
  {
    if t != [] {
      ArmouredHead(t);
      if IsWs(t[0]) {
        ArmouredWs(t[1..]);
      }
    }
  }

  lemma EscapeHasOwnText(t: Text, n: nat, rest: Text)
    requires ReadUnit(t).Some? && t[0] == BACKSLASH && n == |t| - |ReadUnit(t).value.1|
    ensures n <= |t| && NoCx(t[..n]) && t[n..] == ReadUnit(t).value.1
    ensures ReadUnit(t[..n] + rest) == Some((ReadUnit(t).value.0, rest))
  {
    assert (t[..n] + rest)[n..] == rest;
  }

  lemma ArmouredEscape(t: Text)
    requires ReadUnit(t).Some? && t[0] == BACKSLASH
    ensures ReadUnit(Armoured(t)) == Some((ReadUnit(t).value.0, Armoured(ReadUnit(t).value.1)))
  {
    var rest := ReadUnit(t).value.1;
    var n := |t| - |rest|;
    EscapeHasOwnText(t, n, Armoured(rest));
    assert t == t[..n] + rest;
    ArmouredPlain(t[..n], rest);
  }

  lemma ArmouredUnit(t: Text)
    requires ReadUnit(t).Some?
    ensures ReadUnit(Armoured(t)) == Some((ReadUnit(t).value.0, Armoured(ReadUnit(t).value.1)))
    ensures Armoured(t) != [] && Armoured(t)[0] != QUOTE
  {
    ArmouredHead(t);
    if t[0] == BACKSLASH {
      ArmouredEscape(t);
    } else if IsCx(t[0]) {
      ReadsHex4(t[0], Armoured(t[1..]));
    }
  }

  lemma {:induction false} ArmouredChars(t: Text)
    requires ReadChars(t).Some?
    ensures ReadChars(Armoured(t)) == Some((ReadChars(t).value.0, Armoured(ReadChars(t).value.1)))
    decreases |t|
  {
    if t[0] == QUOTE {
      ArmouredHead(t);
    } else {
      ArmouredUnit(t);
      ArmouredChars(ReadUnit(t).value.1);
    }
  }

  lemma ArmouredScalar(t: Text)
    requires ReadScalar(t).Some? && EndsNumber(ReadScalar(t).value.1)
    ensures ReadValue(Armoured(t)) == Some((ReadScalar(t).value.0, Armoured(ReadScalar(t).value.1)))
  {
    var rest := ReadScalar(t).value.1;
    var word := t[..|t| - |rest|];
    ScalarIs(t);
    assert word + rest == t;
    WordHasNoCx(word);
    ArmouredPlain(word, rest);
    ArmouredEndsNumber(rest);
    if Leads(t, NULL_TEXT) {
      ReadsWord(true, Armoured(rest));
    } else if Leads(t, TRUE_TEXT) {
      ReadsWord(true, Armoured(rest));
    } else if Leads(t, FALSE_TEXT) {
      ReadsWord(false, Armoured(rest));
    } else {
      NumberEndIsNumber(t);
      ReadsNumber(word, Armoured(rest));
    }
  }

  lemma WordHasNoCx(t: Text)
    requires IsWord(t)
    ensures NoCx(t)
  {
  }

  lemma {:induction false} ArmouredValue(t: Text)
    requires ReadValue(t).Some? && EndsNumber(ReadValue(t).value.1)
    ensures ReadValue(Armoured(t)) == Some((ReadValue(t).value.0, Armoured(ReadValue(t).value.1)))
    decreases |t|, 0
  {
    ArmouredHead(t);
    if t[0] == QUOTE {
      ArmouredChars(t[1..]);
    } else if t[0] == LBRACKET || t[0] == LBRACE {
      var t1 := SkipWs(t[1..]);
      ArmouredWs(t[1..]);
      if t1 != [] {
        ArmouredHead(t1);
      }
      if t[0] == LBRACKET && !(t1 != [] && t1[0] == RBRACKET) {
        ArmouredItems(t1);
      } else if t[0] == LBRACE && !(t1 != [] && t1[0] == RBRACE) {
        ArmouredMembers(t1);
      }
    } else {
      ArmouredScalar(t);
    }
  }

  lemma {:induction false} ArmouredItems(t: Text)
    requires ReadItems(t).Some?
    ensures ReadItems(Armoured(t)) == Some((ReadItems(t).value.0, Armoured(ReadItems(t).value.1)))
    decreases |t|, 1
  {
    var t' := ReadValue(t).value.1;
    var t1 := SkipWs(t');
    ArmouredValue(t);
    ArmouredWs(t');
    ArmouredHead(t1);
    if t1[0] == COMMA {
      ArmouredWs(t1[1..]);
      ArmouredItems(SkipWs(t1[1..]));
    }
  }

  lemma {:induction false} ArmouredMember(t: Text)
    requires ReadMember(t).Some? && EndsNumber(ReadMember(t).value.1)
    ensures ReadMember(Armoured(t)) == Some((ReadMember(t).value.0, Armoured(ReadMember(t).value.1)))
    decreases |t|, 1
  {
    ArmouredHead(t);
    ArmouredChars(t[1..]);
    var t' := ReadChars(t[1..]).value.1;
    var t1 := SkipWs(t');
    ArmouredWs(t');
    ArmouredHead(t1);
    ArmouredWs(t1[1..]);
    ArmouredValue(SkipWs(t1[1..]));
  }

  lemma {:induction false} ArmouredMembers(t: Text)
    requires ReadMembers(t).Some?
    ensures ReadMembers(Armoured(t)) == Some((ReadMembers(t).value.0, Armoured(ReadMembers(t).value.1)))
    decreases |t|, 2
  {
    var t' := ReadMember(t).value.1;
    var t1 := SkipWs(t');
    ArmouredMember(t);
    ArmouredWs(t');
    ArmouredHead(t1);
    if t1[0] == COMMA {
      ArmouredWs(t1[1..]);
      ArmouredMembers(SkipWs(t1[1..]));
    }
  }

  /** Whatever JSON text parse is given, the text it would evaluate passes its own check and still
      means the same value. */
  lemma EveryJsonTextIsParsed(t: Text)
    requires Read(t).Some?
    ensures Accepted(Armoured(t))
    ensures Read(Armoured(t)) == Read(t)
  {
    ArmouredWs(t);
    var rest := ReadValue(SkipWs(t)).value.1;
    ArmouredWs(rest);
    ArmouredValue(SkipWs(t));
    EveryJsonTextIsAccepted(Armoured(t));
  }

  /** JSON.parse up to eval (json2.js:439-480): the text that is evaluated, or nothing where a
      SyntaxError is thrown. What is evaluated is harmless; a JSON text is never refused and keeps its
      meaning. */
  method Prepare(text: Text) returns (r: Option<Text>)
    ensures r.Some? <==> Accepted(Armoured(text))
    ensures r.Some? ==> r.value == Armoured(text)
    ensures r.Some? ==> Harmless(r.value) && NoCx(r.value)
    ensures Read(text).Some? ==> r.Some? && Read(r.value) == Read(text)
  {
    var t := text;
    if exists i :: 0 <= i < |t| && IsCx(t[i]) {
      t := Armoured(t);
    } else {
      ArmouredPlain(t, []);
      assert t + [] == t;
    }
    if Accepted(t) {
      AcceptedIsHarmless(t);
      ArmouredHasNoCx(text);
      r := Some(t);
    } else {
      r := None;
    }
    if Read(text).Some? {
      EveryJsonTextIsParsed(text);
    }
  }

  // ---------------------------------------------------------------- printed text

  lemma EscapeUnitHasNoCx(u: Unit)
    ensures NoCx(EscapeUnit(u))
  {
    if IsEscapable(u) && |EscapeUnit(u)| != 2 {
      Hex4Digits(u);
    }
  }

  lemma {:induction false} EscapeHasNoCx(s: Text)
    ensures NoCx(Escape(s))
    decreases |s|
  {
    if s != [] {
      EscapeUnitHasNoCx(s[0]);
      EscapeHasNoCx(s[1..]);
    }
  }

  lemma QuoteHasNoCx(s: Text)
    ensures NoCx(Quote(s))
  {
    QuoteEscapes(s);
    EscapeHasNoCx(s);
  }

  lemma {:induction false} PrintedHasNoCx(v: Json, gap: Text, indent: Text)
    requires AllWs(gap) && AllWs(indent)
    ensures NoCx(Printed(v, gap, indent))
    decreases v
  {
    match v
    case Null =>
    case Bool(b) =>
    case NotFinite =>
    case Number(literal) => WordHasNoCx(literal);
    case String(s) => QuoteHasNoCx(s);
    case Array(items) =>
      var deep := gap + indent;
      forall i | 0 <= i < |items|
        ensures NoCx(ItemTexts(items, deep, indent)[i])
      {
        PrintedHasNoCx(items[i], deep, indent);
      }
      EnclosedHasNoCx(LBRACKET, ItemTexts(items, deep, indent), RBRACKET, gap, deep);
    case Object(members) =>
      var deep := gap + indent;
      forall i | 0 <= i < |members|
        ensures NoCx(MemberTexts(members, deep, indent)[i])
      {
        QuoteHasNoCx(members[i].key);
        PrintedHasNoCx(members[i].value, deep, indent);
      }
      EnclosedHasNoCx(LBRACE, MemberTexts(members, deep, indent), RBRACE, gap, deep);
  }

  lemma {:induction false} JoinHasNoCx(ts: seq<Text>, sep: Text)
    requires NoCx(sep) && forall i :: 0 <= i < |ts| ==> NoCx(ts[i])
    ensures NoCx(Join(ts, sep))
    decreases |ts|
  {
    if |ts| > 1 {
      JoinHasNoCx(ts[1..], sep);
    }
  }

  lemma EnclosedHasNoCx(open: Unit, ts: seq<Text>, close: Unit, gap: Text, deep: Text)
    requires !IsCx(open) && !IsCx(close) && AllWs(gap) && AllWs(deep)
    requires forall i :: 0 <= i < |ts| ==> NoCx(ts[i])
    ensures NoCx(Enclosed(open, ts, close, gap, deep))
  {
    JoinHasNoCx(ts, [COMMA]);
    JoinHasNoCx(ts, [COMMA, LF] + deep);
  }

  /** What stringify prints of a value without NaN or infinities, parse neither changes nor rejects,
      and it reads back as that value; a value with one of those does not come back. */
  lemma RoundTrip(v: Json, space: Space)
    requires AllWs(IndentOf(space))
    ensures Armoured(Printed(v, [], IndentOf(space))) == Printed(v, [], IndentOf(space))
    ensures Finite(v) ==> Accepted(Printed(v, [], IndentOf(space)))
    ensures Read(Printed(v, [], IndentOf(space))) == Some(v) <==> Finite(v)
  {
    var t := Printed(v, [], IndentOf(space));
    PrintedHasNoCx(v, [], IndentOf(space));
    ArmouredPlain(t, []);
    assert t + [] == t;
    PrintedReadsBack(v, [], IndentOf(space));
    if Finite(v) {
      EveryJsonTextIsAccepted(t);
    }
  }
}
