/** Printed JSON text cut into tokens, each value's tokens placed in front of what follows it. */
module JsonTokens {
  import opened Collections
  import opened JsonText
  import opened Json

  /** A structural character or one character of whitespace; a string; any other scalar. */
  datatype Token = Mark(u: Unit) | Str(s: Text) | Word(t: Text)

  function TokenText(k: Token): Text {
    match k
    case Mark(u) => [u]
    case Str(s) => Quote(s)
    case Word(t) => t
  }

  function TextOf(ks: seq<Token>): Text {
    if ks == [] then [] else TokenText(ks[0]) + TextOf(ks[1..])
  }

  function MarksThen(t: Text, rest: seq<Token>): seq<Token> {
    if t == [] then rest else [Mark(t[0])] + MarksThen(t[1..], rest)
  }

  /** A line break and an indentation, when there is any indentation at this depth. */
  function BreakThen(deep: Text, gap: Text, rest: seq<Token>): seq<Token> {
    if deep == [] then rest else [Mark(LF)] + MarksThen(gap, rest)
  }

  function ColonThen(deep: Text, rest: seq<Token>): seq<Token> {
    [Mark(COLON)] + if deep == [] then rest else [Mark(SPACE)] + rest
  }

  function Tokens(v: Json, gap: Text, indent: Text, rest: seq<Token>): seq<Token>
    decreases v, 0
  {
    match v
    case Null => [Word(NULL_TEXT)] + rest
    case Bool(b) => [Word(if b then TRUE_TEXT else FALSE_TEXT)] + rest
    case Number(literal) => [Word(literal)] + rest
    case NotFinite => [Word(NULL_TEXT)] + rest
    case String(s) => [Str(s)] + rest
    case Array(items) =>
      if items == [] then [Mark(LBRACKET)] + ([Mark(RBRACKET)] + rest)
      else
        var deep := gap + indent;
        [Mark(LBRACKET)]
        + BreakThen(deep, deep, ItemTokens(items, deep, indent, BreakThen(deep, gap, [Mark(RBRACKET)] + rest)))
    case Object(members) =>
      if members == [] then [Mark(LBRACE)] + ([Mark(RBRACE)] + rest)
      else
        var deep := gap + indent;
        [Mark(LBRACE)]
        + BreakThen(deep, deep, MemberTokens(members, deep, indent, BreakThen(deep, gap, [Mark(RBRACE)] + rest)))
  }

  function CommaThen(deep: Text, rest: seq<Token>): seq<Token> {
    [Mark(COMMA)] + BreakThen(deep, deep, rest)
  }

  function ItemTokens(items: seq<Json>, deep: Text, indent: Text, rest: seq<Token>): seq<Token>
    requires items != []
    decreases items
  {
    Tokens(items[0], deep, indent,
           if |items| == 1 then rest else CommaThen(deep, ItemTokens(items[1..], deep, indent, rest)))
  }

  function MemberToken(m: Member, deep: Text, indent: Text, rest: seq<Token>): seq<Token>
    decreases m, 1
  {
    [Str(m.key)] + ColonThen(deep, Tokens(m.value, deep, indent, rest))
  }

  function MemberTokens(members: seq<Member>, deep: Text, indent: Text, rest: seq<Token>): seq<Token>
    requires members != []
    decreases members
  {
    MemberToken(members[0], deep, indent,
                if |members| == 1 then rest else CommaThen(deep, MemberTokens(members[1..], deep, indent, rest)))
  }

  // ---------------------------------------------------------------- tokens spell what is printed

  lemma TextOfCons(k: Token, ks: seq<Token>)
    ensures TextOf([k] + ks) == TokenText(k) + TextOf(ks)
  {
    assert ([k] + ks)[1..] == ks;
  }

  lemma {:induction false} TextOfMarks(t: Text, rest: seq<Token>)
    ensures TextOf(MarksThen(t, rest)) == t + TextOf(rest)
  {
    if t == [] {
      assert [] + TextOf(rest) == TextOf(rest);
    } else {
      TextOfMarks(t[1..], rest);
      TextOfCons(Mark(t[0]), MarksThen(t[1..], rest));
      Associative([t[0]], t[1..], TextOf(rest));
      assert [t[0]] + t[1..] == t;
    }
  }

  function BreakText(deep: Text, gap: Text): Text {
    if deep == [] then [] else [LF] + gap
  }

  lemma TextOfBreak(deep: Text, gap: Text, rest: seq<Token>)
    ensures TextOf(BreakThen(deep, gap, rest)) == BreakText(deep, gap) + TextOf(rest)
  {
    if deep == [] {
      assert [] + TextOf(rest) == TextOf(rest);
    } else {
      TextOfMarks(gap, rest);
      TextOfCons(Mark(LF), MarksThen(gap, rest));
      Associative([LF], gap, TextOf(rest));
    }
  }

  lemma TextOfColon(deep: Text, rest: seq<Token>)
    ensures TextOf(ColonThen(deep, rest)) == Colon(deep) + TextOf(rest)
  {
    if deep == [] {
      TextOfCons(Mark(COLON), rest);
    } else {
      TextOfCons(Mark(SPACE), rest);
      TextOfCons(Mark(COLON), [Mark(SPACE)] + rest);
      Associative([COLON], [SPACE], TextOf(rest));
    }
  }

  function Separator(deep: Text): Text {
    [COMMA] + BreakText(deep, deep)
  }

  lemma TextOfComma(deep: Text, rest: seq<Token>)
    ensures TextOf(CommaThen(deep, rest)) == Separator(deep) + TextOf(rest)
  {
    TextOfBreak(deep, deep, rest);
    TextOfCons(Mark(COMMA), BreakThen(deep, deep, rest));
    Associative([COMMA], BreakText(deep, deep), TextOf(rest));
  }

  lemma Assoc4(a: Text, b: Text, c: Text, d: Text)
    ensures a + (b + (c + d)) == a + b + c + d
  {
    Associative(a, b, c + d);
    Associative(a + b, c, d);
  }

  lemma Lines(open: Text, lf: Text, deep: Text, parts: Text, gap: Text, close: Text, rest: Text)
    ensures open + lf + deep + parts + lf + gap + close + rest
         == open + ((lf + deep) + (parts + ((lf + gap) + (close + rest))))
  {
    var p := open + lf + deep + parts;
    Assoc4(p + lf, gap, close, rest);
    Associative(p, lf, gap + (close + rest));
    Associative(lf, gap, close + rest);
    Associative(open + lf + deep, parts, (lf + gap) + (close + rest));
    Associative(open, lf, deep);
    Associative(open, lf + deep, parts + ((lf + gap) + (close + rest)));
  }

  /** Both layouts of brackets are breaks and parts in turn. */
  lemma EnclosedParts(open: Unit, ts: seq<Text>, close: Unit, gap: Text, deep: Text, rest: Text)
    requires ts != []
    ensures Enclosed(open, ts, close, gap, deep) + rest
         == [open] + (BreakText(deep, deep) + (Join(ts, Separator(deep)) + (BreakText(deep, gap) + ([close] + rest))))
  {
    if deep == [] {
      assert Separator(deep) == [COMMA];
      var parts := Join(ts, [COMMA]);
      assert [] + (parts + ([] + ([close] + rest))) == parts + ([close] + rest);
      Assoc4([open], parts, [close], rest);
    } else {
      assert Separator(deep) == [COMMA, LF] + deep;
      assert [open, LF] == [open] + [LF];
      Lines([open], [LF], deep, Join(ts, Separator(deep)), gap, [close], rest);
    }
  }

  /** The tokens of a value in front of others spell its printed text in front of theirs. */
  lemma {:induction false} TokensSpellPrinted(v: Json, gap: Text, indent: Text, rest: seq<Token>)
    ensures TextOf(Tokens(v, gap, indent, rest)) == Printed(v, gap, indent) + TextOf(rest)
    decreases v, 0
  {
    match v
    case Null => TextOfCons(Word(NULL_TEXT), rest);
    case Bool(b) => TextOfCons(Word(if b then TRUE_TEXT else FALSE_TEXT), rest);
    case Number(literal) => TextOfCons(Word(literal), rest);
    case NotFinite => TextOfCons(Word(NULL_TEXT), rest);
    case String(s) => TextOfCons(Str(s), rest);
    case Array(items) =>
      if items == [] {
        TextOfCons(Mark(RBRACKET), rest);
        TextOfCons(Mark(LBRACKET), [Mark(RBRACKET)] + rest);
        Associative([LBRACKET], [RBRACKET], TextOf(rest));
      } else {
        var deep := gap + indent;
        var after := BreakThen(deep, gap, [Mark(RBRACKET)] + rest);
        ItemTokensSpell(items, deep, indent, after);
        BracketsSpell(LBRACKET, ItemTexts(items, deep, indent), ItemTokens(items, deep, indent, after),
                      RBRACKET, gap, deep, rest);
      }
    case Object(members) =>
      if members == [] {
        TextOfCons(Mark(RBRACE), rest);
        TextOfCons(Mark(LBRACE), [Mark(RBRACE)] + rest);
        Associative([LBRACE], [RBRACE], TextOf(rest));
      } else {
        var deep := gap + indent;
        var after := BreakThen(deep, gap, [Mark(RBRACE)] + rest);
        MemberTokensSpell(members, deep, indent, after);
        BracketsSpell(LBRACE, MemberTexts(members, deep, indent), MemberTokens(members, deep, indent, after),
                      RBRACE, gap, deep, rest);
      }
  }

  lemma BracketsSpell(open: Unit, ts: seq<Text>, inner: seq<Token>, close: Unit, gap: Text, deep: Text,
                      rest: seq<Token>)
    requires ts != []
    requires TextOf(inner) == Join(ts, Separator(deep)) + TextOf(BreakThen(deep, gap, [Mark(close)] + rest))
    ensures TextOf([Mark(open)] + BreakThen(deep, deep, inner)) == Enclosed(open, ts, close, gap, deep) + TextOf(rest)
  {
    TextOfCons(Mark(close), rest);
    TextOfBreak(deep, gap, [Mark(close)] + rest);
    TextOfBreak(deep, deep, inner);
    TextOfCons(Mark(open), BreakThen(deep, deep, inner));
    EnclosedParts(open, ts, close, gap, deep, TextOf(rest));
  }

  /** A part, a separator and the joined others are all of them joined. */
  lemma JoinStep(part: seq<Token>, ts: seq<Text>, deep: Text, after: seq<Token>, rest: Text)
    requires |ts| > 1
    requires TextOf(part) == ts[0] + TextOf(CommaThen(deep, after))
    requires TextOf(after) == Join(ts[1..], Separator(deep)) + rest
    ensures TextOf(part) == Join(ts, Separator(deep)) + rest
  {
    TextOfComma(deep, after);
    Assoc4(ts[0], Separator(deep), Join(ts[1..], Separator(deep)), rest);
  }

  lemma ItemTextsStep(items: seq<Json>, deep: Text, indent: Text)
    requires items != []
    ensures ItemTexts(items, deep, indent)[0] == Printed(items[0], deep, indent)
    ensures ItemTexts(items, deep, indent)[1..] == ItemTexts(items[1..], deep, indent)
  {
  }

  lemma MemberTextsStep(members: seq<Member>, deep: Text, indent: Text)
    requires members != []
    ensures MemberTexts(members, deep, indent)[0] == MemberText(members[0], deep, indent)
    ensures MemberTexts(members, deep, indent)[1..] == MemberTexts(members[1..], deep, indent)
  {
  }

  lemma {:induction false} ItemTokensSpell(items: seq<Json>, deep: Text, indent: Text, rest: seq<Token>)
    requires items != []
    ensures TextOf(ItemTokens(items, deep, indent, rest))
         == Join(ItemTexts(items, deep, indent), Separator(deep)) + TextOf(rest)
    decreases items, 0
  {
    ItemTextsStep(items, deep, indent);
    if |items| == 1 {
      TokensSpellPrinted(items[0], deep, indent, rest);
    } else {
      var after := ItemTokens(items[1..], deep, indent, rest);
      TokensSpellPrinted(items[0], deep, indent, CommaThen(deep, after));
      ItemTokensSpell(items[1..], deep, indent, rest);
      JoinStep(ItemTokens(items, deep, indent, rest), ItemTexts(items, deep, indent), deep, after, TextOf(rest));
    }
  }

  lemma {:induction false} MemberTokenSpells(m: Member, deep: Text, indent: Text, rest: seq<Token>)
    ensures TextOf(MemberToken(m, deep, indent, rest)) == MemberText(m, deep, indent) + TextOf(rest)
    decreases m, 1
  {
    var value := Tokens(m.value, deep, indent, rest);
    TokensSpellPrinted(m.value, deep, indent, rest);
    TextOfColon(deep, value);
    TextOfCons(Str(m.key), ColonThen(deep, value));
    Assoc4(Quote(m.key), Colon(deep), Printed(m.value, deep, indent), TextOf(rest));
  }

  lemma {:induction false} MemberTokensSpell(members: seq<Member>, deep: Text, indent: Text, rest: seq<Token>)
    requires members != []
    ensures TextOf(MemberTokens(members, deep, indent, rest))
         == Join(MemberTexts(members, deep, indent), Separator(deep)) + TextOf(rest)
    decreases members, 0
  {
    MemberTextsStep(members, deep, indent);
    if |members| == 1 {
      MemberTokenSpells(members[0], deep, indent, rest);
    } else {
      var after := MemberTokens(members[1..], deep, indent, rest);
      MemberTokenSpells(members[0], deep, indent, CommaThen(deep, after));
      MemberTokensSpell(members[1..], deep, indent, rest);
      JoinStep(MemberTokens(members, deep, indent, rest), MemberTexts(members, deep, indent),
               deep, after, TextOf(rest));
    }
  }
}
