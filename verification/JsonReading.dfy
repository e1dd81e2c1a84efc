/** Reading printed text by the grammar gives the printed value back. */
module JsonReading {
  import opened Collections
  import opened JsonText
  import opened Json
  import opened JsonTokens
  import opened JsonGrammar

  // ---------------------------------------------------------------- strings

  lemma HexDigitValue(d: nat)
    requires d < 16
    ensures IsHex(HexDigit(d)) && HexValue(HexDigit(d)) == d
  {
  }

  lemma HexSum(u: Unit)
    ensures u == 4096 * (u / 16 / 16 / 16) + 256 * (u / 16 / 16 % 16) + 16 * (u / 16 % 16) + u % 16
  {
    var a := u / 16;
    var b := a / 16;
    assert u == 16 * a + u % 16 && a == 16 * b + a % 16 && b == 16 * (b / 16) + b % 16;
  }

  lemma ReadsDigits(a: nat, b: nat, c: nat, d: nat, rest: Text)
    requires a < 16 && b < 16 && c < 16 && d < 16
    ensures ReadUnit([BACKSLASH, SMALL_U, HexDigit(a), HexDigit(b), HexDigit(c), HexDigit(d)] + rest)
         == Some((4096 * a + 256 * b + 16 * c + d, rest))
  {
    HexDigitValue(a);
    HexDigitValue(b);
    HexDigitValue(c);
    HexDigitValue(d);
    var t := [BACKSLASH, SMALL_U, HexDigit(a), HexDigit(b), HexDigit(c), HexDigit(d)] + rest;
    assert t[6..] == rest;
  }

  lemma ReadsHex4(u: Unit, rest: Text)
    ensures ReadUnit([BACKSLASH, SMALL_U] + Hex4(u) + rest) == Some((u, rest))
  {
    Hex4Digits(u);
    var a, b, c, d := u / 16 / 16 / 16, u / 16 / 16 % 16, u / 16 % 16, u % 16;
    ReadsDigits(a, b, c, d, rest);
    HexSum(u);
    assert [BACKSLASH, SMALL_U] + Hex4(u) == [BACKSLASH, SMALL_U, HexDigit(a), HexDigit(b), HexDigit(c), HexDigit(d)];
  }

  /** Every escape that quote writes stands for the character it replaced. */
  lemma ReadsEscape(u: Unit, rest: Text)
    ensures ReadUnit(EscapeUnit(u) + rest) == Some((u, rest))
    ensures EscapeUnit(u)[0] != QUOTE
  {
    var t := EscapeUnit(u) + rest;
    if !IsEscapable(u) {
      assert t[1..] == rest;
    } else if |EscapeUnit(u)| == 2 {
      assert t[2..] == rest;
    } else {
      ReadsHex4(u, rest);
    }
  }

  lemma {:induction false} ReadsEscaped(s: Text, rest: Text)
    ensures ReadChars(Escape(s) + ([QUOTE] + rest)) == Some((s, rest))
    decreases |s|
  {
    var after := [QUOTE] + rest;
    if s == [] {
      assert Escape(s) + after == after;
      assert after[1..] == rest;
    } else {
      var tail := Escape(s[1..]) + after;
      ReadsEscaped(s[1..], rest);
      ReadsEscape(s[0], tail);
      Associative(EscapeUnit(s[0]), Escape(s[1..]), after);
      assert (EscapeUnit(s[0]) + tail)[0] == EscapeUnit(s[0])[0];
      assert [s[0]] + s[1..] == s;
    }
  }

  /** What quote writes is a string of the grammar that denotes the same characters. */
  lemma ReadsQuoted(s: Text, rest: Text)
    ensures Quote(s) + rest == [QUOTE] + (Escape(s) + ([QUOTE] + rest))
    ensures ReadChars((Quote(s) + rest)[1..]) == Some((s, rest))
  {
    QuoteEscapes(s);
    Assoc4([QUOTE], Escape(s), [QUOTE], rest);
    ReadsEscaped(s, rest);
    assert ([QUOTE] + (Escape(s) + ([QUOTE] + rest)))[1..] == Escape(s) + ([QUOTE] + rest);
  }

  // ---------------------------------------------------------------- whitespace

  lemma {:induction false} SkipsMarks(t: Text, rest: seq<Token>)
    requires AllWs(t)
    ensures SkipWs(TextOf(MarksThen(t, rest))) == SkipWs(TextOf(rest))
  {
    if t != [] {
      SkipsMarks(t[1..], rest);
      SkipsOne(t[0], MarksThen(t[1..], rest));
    }
  }

  lemma SkipsOne(u: Unit, rest: seq<Token>)
    requires IsWs(u)
    ensures SkipWs(TextOf([Mark(u)] + rest)) == SkipWs(TextOf(rest))
  {
    TextOfCons(Mark(u), rest);
    assert ([u] + TextOf(rest))[1..] == TextOf(rest);
  }

  lemma SkipsBreak(deep: Text, gap: Text, rest: seq<Token>)
    requires AllWs(gap)
    ensures SkipWs(TextOf(BreakThen(deep, gap, rest))) == SkipWs(TextOf(rest))
  {
    if deep != [] {
      SkipsMarks(gap, rest);
      SkipsOne(LF, MarksThen(gap, rest));
    }
  }

  lemma SkipsColon(deep: Text, rest: seq<Token>)
    ensures TextOf(ColonThen(deep, rest)) != [] && TextOf(ColonThen(deep, rest))[0] == COLON
    ensures SkipWs(TextOf(ColonThen(deep, rest))[1..]) == SkipWs(TextOf(rest))
  {
    var after := if deep == [] then rest else [Mark(SPACE)] + rest;
    if deep != [] {
      SkipsOne(SPACE, rest);
    }
    TextOfCons(Mark(COLON), after);
    assert ([COLON] + TextOf(after))[1..] == TextOf(after);
  }

  /** The text after a part in brackets: whitespace, then the given mark. */
  ghost predicate Turns(t: Text, mark: Unit, rest: Text) {
    && EndsNumber(t)
    && SkipWs(t) == [mark] + rest
  }

  lemma CommaTurns(deep: Text, rest: seq<Token>)
    ensures Turns(TextOf(CommaThen(deep, rest)), COMMA, TextOf(BreakThen(deep, deep, rest)))
  {
    TextOfCons(Mark(COMMA), BreakThen(deep, deep, rest));
  }

  lemma CloseTurns(deep: Text, gap: Text, close: Unit, rest: seq<Token>)
    requires AllWs(gap)
    requires close == RBRACKET || close == RBRACE
    ensures Turns(TextOf(BreakThen(deep, gap, [Mark(close)] + rest)), close, TextOf(rest))
  {
    TextOfCons(Mark(close), rest);
    SkipsBreak(deep, gap, [Mark(close)] + rest);
    TextOfBreak(deep, gap, [Mark(close)] + rest);
  }

  // ---------------------------------------------------------------- values

  /** A value or a member starts with neither whitespace nor a closing mark. */
  predicate Starts(t: Text) {
    t != [] && !IsWs(t[0]) && t[0] != RBRACKET && t[0] != RBRACE
  }

  lemma ValueStarts(v: Json, gap: Text, indent: Text, rest: seq<Token>)
    ensures Starts(TextOf(Tokens(v, gap, indent, rest)))
  {
    var ks := Tokens(v, gap, indent, rest);
    assert TextOf(ks) == TokenText(ks[0]) + TextOf(ks[1..]);
    match v
    case Number(literal) => NumberStarts(literal);
    case String(s) => QuoteEscapes(s);
    case _ =>
  }

  lemma ReadsAsScalar(t: Text)
    requires t != [] && t[0] != QUOTE && t[0] != LBRACKET && t[0] != LBRACE
    ensures ReadValue(t) == ReadScalar(t)
  {
  }

  lemma ReadsWord(b: bool, rest: Text)
    ensures ReadValue(NULL_TEXT + rest) == Some((Null, rest))
    ensures ReadValue((if b then TRUE_TEXT else FALSE_TEXT) + rest) == Some((Bool(b), rest))
  {
    ReadsAsScalar(NULL_TEXT + rest);
    ReadsAsScalar((if b then TRUE_TEXT else FALSE_TEXT) + rest);
    assert (NULL_TEXT + rest)[4..] == rest;
    assert (TRUE_TEXT + rest)[4..] == rest;
    assert (FALSE_TEXT + rest)[5..] == rest;
  }

  lemma ReadsNumber(literal: Numeral, rest: Text)
    requires EndsNumber(rest)
    ensures ReadValue(literal + rest) == Some((Number(literal), rest))
  {
    var t := literal + rest;
    assert t[0] == literal[0];
    NumberStarts(literal);
    ReadsAsScalar(t);
    NumberEndAppend(literal, rest);
    assert t[..|literal|] == literal && t[|literal|..] == rest;
  }

  lemma ReadsString(s: Text, rest: Text)
    ensures ReadValue(Quote(s) + rest) == Some((String(s), rest))
  {
    ReadsQuoted(s, rest);
  }

  lemma ReadsEmpty(open: Unit, close: Unit, rest: seq<Token>)
    requires (open == LBRACKET && close == RBRACKET) || (open == LBRACE && close == RBRACE)
    ensures ReadValue(TextOf([Mark(open)] + ([Mark(close)] + rest)))
         == Some((if open == LBRACKET then Array([]) else Object([]), TextOf(rest)))
  {
    TextOfCons(Mark(close), rest);
    TextOfCons(Mark(open), [Mark(close)] + rest);
    var t := [open] + ([close] + TextOf(rest));
    assert t[1..] == [close] + TextOf(rest);
    assert ([close] + TextOf(rest))[1..] == TextOf(rest);
  }

  lemma ReadsArray(deep: Text, inner: seq<Token>, items: seq<Json>, rest: Text)
    requires AllWs(deep) && Starts(TextOf(inner))
    requires ReadItems(TextOf(inner)) == Some((items, rest))
    ensures ReadValue(TextOf([Mark(LBRACKET)] + BreakThen(deep, deep, inner))) == Some((Array(items), rest))
  {
    var after := BreakThen(deep, deep, inner);
    SkipsBreak(deep, deep, inner);
    TextOfCons(Mark(LBRACKET), after);
    assert ([LBRACKET] + TextOf(after))[1..] == TextOf(after);
  }

  lemma ReadsObject(deep: Text, inner: seq<Token>, members: seq<Member>, rest: Text)
    requires AllWs(deep) && Starts(TextOf(inner))
    requires ReadMembers(TextOf(inner)) == Some((members, rest))
    ensures ReadValue(TextOf([Mark(LBRACE)] + BreakThen(deep, deep, inner))) == Some((Object(members), rest))
  {
    var after := BreakThen(deep, deep, inner);
    SkipsBreak(deep, deep, inner);
    TextOfCons(Mark(LBRACE), after);
    assert ([LBRACE] + TextOf(after))[1..] == TextOf(after);
  }

  /** Reading takes exactly the value's tokens. */
  lemma {:induction false} ReadsValue(v: Json, gap: Text, indent: Text, rest: seq<Token>)
    requires Finite(v) && AllWs(gap) && AllWs(indent) && EndsNumber(TextOf(rest))
    ensures ReadValue(TextOf(Tokens(v, gap, indent, rest))) == Some((v, TextOf(rest)))
    decreases v, 0
  {
    match v
    case Null =>
      TextOfCons(Word(NULL_TEXT), rest);
      ReadsWord(true, TextOf(rest));
    case Bool(b) =>
      TextOfCons(Word(if b then TRUE_TEXT else FALSE_TEXT), rest);
      ReadsWord(b, TextOf(rest));
    case Number(literal) =>
      TextOfCons(Word(literal), rest);
      ReadsNumber(literal, TextOf(rest));
    case String(s) =>
      TextOfCons(Str(s), rest);
      ReadsString(s, TextOf(rest));
    case Array(items) =>
      if items == [] {
        ReadsEmpty(LBRACKET, RBRACKET, rest);
      } else {
        var deep := gap + indent;
        var after := BreakThen(deep, gap, [Mark(RBRACKET)] + rest);
        CloseTurns(deep, gap, RBRACKET, rest);
        ReadsItems(items, deep, indent, after, TextOf(rest));
        ReadsArray(deep, ItemTokens(items, deep, indent, after), items, TextOf(rest));
      }
    case Object(members) =>
      if members == [] {
        ReadsEmpty(LBRACE, RBRACE, rest);
      } else {
        var deep := gap + indent;
        var after := BreakThen(deep, gap, [Mark(RBRACE)] + rest);
        CloseTurns(deep, gap, RBRACE, rest);
        ReadsMembers(members, deep, indent, after, TextOf(rest));
        ReadsObject(deep, MemberTokens(members, deep, indent, after), members, TextOf(rest));
      }
  }

  lemma {:induction false} ReadsItems(items: seq<Json>, deep: Text, indent: Text, after: seq<Token>, rest: Text)
    requires items != [] && AllWs(deep) && AllWs(indent)
    requires forall i :: 0 <= i < |items| ==> Finite(items[i])
    requires Turns(TextOf(after), RBRACKET, rest)
    ensures Starts(TextOf(ItemTokens(items, deep, indent, after)))
    ensures ReadItems(TextOf(ItemTokens(items, deep, indent, after))) == Some((items, rest))
    decreases items, 0
  {
    if |items| == 1 {
      ReadsLastItem(items[0], deep, indent, after, rest);
      assert [items[0]] == items;
    } else {
      var tail := ItemTokens(items[1..], deep, indent, after);
      ReadsItems(items[1..], deep, indent, after, rest);
      ReadsItem(items[0], deep, indent, tail, items[1..], rest);
      assert [items[0]] + items[1..] == items;
    }
  }

  lemma {:induction false} ReadsLastItem(v: Json, deep: Text, indent: Text, after: seq<Token>, rest: Text)
    requires AllWs(deep) && AllWs(indent) && Finite(v)
    requires Turns(TextOf(after), RBRACKET, rest)
    ensures Starts(TextOf(Tokens(v, deep, indent, after)))
    ensures ReadItems(TextOf(Tokens(v, deep, indent, after))) == Some(([v], rest))
    decreases v, 1
  {
    ValueStarts(v, deep, indent, after);
    ReadsValue(v, deep, indent, after);
    LastItem(TextOf(Tokens(v, deep, indent, after)), v, TextOf(after), rest);
  }

  lemma {:induction false} ReadsItem(v: Json, deep: Text, indent: Text, tail: seq<Token>, items: seq<Json>, rest: Text)
    requires AllWs(deep) && AllWs(indent) && Finite(v)
    requires Starts(TextOf(tail)) && ReadItems(TextOf(tail)) == Some((items, rest))
    ensures Starts(TextOf(Tokens(v, deep, indent, CommaThen(deep, tail))))
    ensures ReadItems(TextOf(Tokens(v, deep, indent, CommaThen(deep, tail)))) == Some(([v] + items, rest))
    decreases v, 1
  {
    var comma := CommaThen(deep, tail);
    CommaTurns(deep, tail);
    ValueStarts(v, deep, indent, comma);
    ReadsValue(v, deep, indent, comma);
    SkipsBreak(deep, deep, tail);
    ItemsStep(TextOf(Tokens(v, deep, indent, comma)), v, TextOf(comma),
              TextOf(BreakThen(deep, deep, tail)), items, rest);
  }

  lemma LastItem(t: Text, v: Json, after: Text, rest: Text)
    requires ReadValue(t) == Some((v, after)) && Turns(after, RBRACKET, rest)
    ensures ReadItems(t) == Some(([v], rest))
  {
    assert ([RBRACKET] + rest)[1..] == rest;
  }

  lemma ItemsStep(t: Text, v: Json, comma: Text, after: Text, items: seq<Json>, rest: Text)
    requires ReadValue(t) == Some((v, comma)) && Turns(comma, COMMA, after)
    requires ReadItems(SkipWs(after)) == Some((items, rest))
    ensures ReadItems(t) == Some(([v] + items, rest))
  {
    assert ([COMMA] + after)[1..] == after;
  }

  lemma {:induction false} ReadsMember(m: Member, deep: Text, indent: Text, rest: seq<Token>)
    requires Finite(m.value) && AllWs(deep) && AllWs(indent) && EndsNumber(TextOf(rest))
    ensures Starts(TextOf(MemberToken(m, deep, indent, rest)))
    ensures ReadMember(TextOf(MemberToken(m, deep, indent, rest))) == Some((m, TextOf(rest)))
    decreases m, 1
  {
    var value := Tokens(m.value, deep, indent, rest);
    ReadsValue(m.value, deep, indent, rest);
    ValueStarts(m.value, deep, indent, rest);
    SkipsColon(deep, value);
    TextOfCons(Str(m.key), ColonThen(deep, value));
    ReadsQuoted(m.key, TextOf(ColonThen(deep, value)));
  }

  lemma {:induction false} ReadsMembers(members: seq<Member>, deep: Text, indent: Text, after: seq<Token>, rest: Text)
    requires members != [] && AllWs(deep) && AllWs(indent)
    requires forall i :: 0 <= i < |members| ==> Finite(members[i].value)
    requires Turns(TextOf(after), RBRACE, rest)
    ensures Starts(TextOf(MemberTokens(members, deep, indent, after)))
    ensures ReadMembers(TextOf(MemberTokens(members, deep, indent, after))) == Some((members, rest))
    decreases members, 0
  {
    if |members| == 1 {
      ReadsMember(members[0], deep, indent, after);
      LastMember(TextOf(MemberToken(members[0], deep, indent, after)), members[0], TextOf(after), rest);
      assert [members[0]] == members;
    } else {
      var tail := MemberTokens(members[1..], deep, indent, after);
      ReadsMembers(members[1..], deep, indent, after, rest);
      ReadsMemberThen(members[0], deep, indent, tail, members[1..], rest);
      assert [members[0]] + members[1..] == members;
    }
  }

  lemma {:induction false} ReadsMemberThen(m: Member, deep: Text, indent: Text, tail: seq<Token>,
                                           members: seq<Member>, rest: Text)
    requires AllWs(deep) && AllWs(indent) && Finite(m.value)
    requires Starts(TextOf(tail)) && ReadMembers(TextOf(tail)) == Some((members, rest))
    ensures Starts(TextOf(MemberToken(m, deep, indent, CommaThen(deep, tail))))
    ensures ReadMembers(TextOf(MemberToken(m, deep, indent, CommaThen(deep, tail)))) == Some(([m] + members, rest))
    decreases m, 2
  {
    var comma := CommaThen(deep, tail);
    CommaTurns(deep, tail);
    ReadsMember(m, deep, indent, comma);
    SkipsBreak(deep, deep, tail);
    MembersStep(TextOf(MemberToken(m, deep, indent, comma)), m, TextOf(comma),
                TextOf(BreakThen(deep, deep, tail)), members, rest);
  }

  lemma LastMember(t: Text, m: Member, after: Text, rest: Text)
    requires ReadMember(t) == Some((m, after)) && Turns(after, RBRACE, rest)
    ensures ReadMembers(t) == Some(([m], rest))
  {
    assert ([RBRACE] + rest)[1..] == rest;
  }

  lemma MembersStep(t: Text, m: Member, comma: Text, after: Text, members: seq<Member>, rest: Text)
    requires ReadMember(t) == Some((m, comma)) && Turns(comma, COMMA, after)
    requires ReadMembers(SkipWs(after)) == Some((members, rest))
    ensures ReadMembers(t) == Some(([m] + members, rest))
  {
    assert ([COMMA] + after)[1..] == after;
  }

  /** Printed with any whitespace for indentation, a value reads back as itself exactly when it
      holds no NaN and no infinity. */
  lemma PrintedReadsBack(v: Json, gap: Text, indent: Text)
    requires AllWs(gap) && AllWs(indent)
    ensures Read(Printed(v, gap, indent)) == Some(v) <==> Finite(v)
  {
    if Finite(v) {
      TokensSpellPrinted(v, gap, indent, []);
      assert Printed(v, gap, indent) + [] == Printed(v, gap, indent);
      ReadsValue(v, gap, indent, []);
      ValueStarts(v, gap, indent, []);
    }
  }
}
