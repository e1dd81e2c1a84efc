/** How JSON.stringify lays its text out: as one would who sees only the tokens of the compact text, one
    after the other, and counts brackets. */
module JsonLayout {
  import opened Collections
  import opened JsonText
  import opened Json
  import opened JsonTokens

  // ---------------------------------------------------------------- the compact text

  /** The tokens of a value without any indentation. */
  function Bare(v: Json, rest: seq<Token>): seq<Token> {
    Tokens(v, [], [], rest)
  }

  /** A structural character, a string or another scalar, but no whitespace. */
  predicate IsSolid(k: Token) {
    k.Mark? ==> k.u in {LBRACKET, RBRACKET, LBRACE, RBRACE, COLON, COMMA}
  }

  predicate AllSolid(ks: seq<Token>) {
    forall i :: 0 <= i < |ks| ==> IsSolid(ks[i])
  }

  lemma NoIndentation()
    ensures var none: Text := []; none + none == none
  {
  }

  lemma {:induction false} BareIsSolid(v: Json, rest: seq<Token>)
    requires AllSolid(rest)
    ensures AllSolid(Bare(v, rest))
    decreases v, 1
  {
    NoIndentation();
    match v
    case Array(items) =>
      if items != [] {
        ItemsAreSolid(items, [Mark(RBRACKET)] + rest);
      }
    case Object(members) =>
      if members != [] {
        MembersAreSolid(members, [Mark(RBRACE)] + rest);
      }
    case _ =>
  }

  lemma {:induction false} ItemsAreSolid(items: seq<Json>, rest: seq<Token>)
    requires items != [] && AllSolid(rest)
    ensures AllSolid(ItemTokens(items, [], [], rest))
    decreases items, 0
  {
    if |items| == 1 {
      BareIsSolid(items[0], rest);
    } else {
      ItemsAreSolid(items[1..], rest);
      BareIsSolid(items[0], [Mark(COMMA)] + ItemTokens(items[1..], [], [], rest));
    }
  }

  lemma {:induction false} MembersAreSolid(members: seq<Member>, rest: seq<Token>)
    requires members != [] && AllSolid(rest)
    ensures AllSolid(MemberTokens(members, [], [], rest))
    decreases members, 0
  {
    if |members| == 1 {
      BareIsSolid(members[0].value, rest);
    } else {
      MembersAreSolid(members[1..], rest);
      BareIsSolid(members[0].value, [Mark(COMMA)] + MemberTokens(members[1..], [], [], rest));
    }
  }

  /** Without an indentation the text is these tokens and nothing between them. */
  lemma CompactExactly(v: Json)
    ensures Printed(v, [], []) == TextOf(Bare(v, [])) && AllSolid(Bare(v, []))
  {
    TokensSpellPrinted(v, [], [], []);
    assert Printed(v, [], []) + TextOf([]) == Printed(v, [], []);
    BareIsSolid(v, []);
  }

  // ---------------------------------------------------------------- the indented text

  function Indentation(indent: Text, depth: nat): Text {
    if depth == 0 then [] else Indentation(indent, depth - 1) + indent
  }

  function NewLine(indent: Text, depth: nat): Text {
    [LF] + Indentation(indent, depth)
  }

  predicate Opens(k: Token) {
    k == Mark(LBRACKET) || k == Mark(LBRACE)
  }

  predicate Closes(k: Token) {
    k == Mark(RBRACKET) || k == Mark(RBRACE)
  }

  /** Behind an opening bracket the text goes on a line deeper, unless it is closed at once; a closing
      bracket stands on a line less deep; a comma ends its line, and a colon is followed by a blank. */
  function Pretty(ks: seq<Token>, depth: nat, indent: Text): Text
    decreases |ks|
  {
    if ks == [] then []
    else
      var k, rest := ks[0], ks[1..];
      if Opens(k) && rest != [] && Closes(rest[0]) then
        TokenText(k) + (TokenText(rest[0]) + Pretty(rest[1..], depth, indent))
      else if Opens(k) then TokenText(k) + (NewLine(indent, depth + 1) + Pretty(rest, depth + 1, indent))
      else if Closes(k) && depth > 0 then
        NewLine(indent, depth - 1) + (TokenText(k) + Pretty(rest, depth - 1, indent))
      else if k == Mark(COMMA) then [COMMA] + (NewLine(indent, depth) + Pretty(rest, depth, indent))
      else if k == Mark(COLON) then [COLON] + ([SPACE] + Pretty(rest, depth, indent))
      else TokenText(k) + Pretty(rest, depth, indent)
  }

  lemma PrettyCons(k: Token, rest: seq<Token>, depth: nat, indent: Text)
    requires !Opens(k) && !Closes(k) && k != Mark(COMMA) && k != Mark(COLON)
    ensures Pretty([k] + rest, depth, indent) == TokenText(k) + Pretty(rest, depth, indent)
  {
    assert ([k] + rest)[1..] == rest;
  }

  lemma PrettyEmpty(open: Unit, close: Unit, rest: seq<Token>, depth: nat, indent: Text)
    requires Opens(Mark(open)) && Closes(Mark(close))
    ensures Pretty([Mark(open)] + ([Mark(close)] + rest), depth, indent) == [open, close] + Pretty(rest, depth, indent)
  {
    var ks := [Mark(open)] + ([Mark(close)] + rest);
    assert ks[1..] == [Mark(close)] + rest && ks[1..][1..] == rest;
    assert [open] + ([close] + Pretty(rest, depth, indent)) == [open, close] + Pretty(rest, depth, indent);
  }

  lemma PrettyOpen(open: Unit, inner: seq<Token>, depth: nat, indent: Text)
    requires Opens(Mark(open)) && inner != [] && !Closes(inner[0])
    ensures Pretty([Mark(open)] + inner, depth, indent)
         == [open] + (NewLine(indent, depth + 1) + Pretty(inner, depth + 1, indent))
  {
    assert ([Mark(open)] + inner)[1..] == inner;
  }

  lemma PrettyClose(close: Unit, rest: seq<Token>, depth: nat, indent: Text)
    requires Closes(Mark(close))
    ensures Pretty([Mark(close)] + rest, depth + 1, indent)
         == NewLine(indent, depth) + ([close] + Pretty(rest, depth, indent))
  {
    assert ([Mark(close)] + rest)[1..] == rest;
  }

  lemma PrettyComma(rest: seq<Token>, depth: nat, indent: Text)
    ensures Pretty([Mark(COMMA)] + rest, depth, indent)
         == ([COMMA] + NewLine(indent, depth)) + Pretty(rest, depth, indent)
  {
    assert ([Mark(COMMA)] + rest)[1..] == rest;
    Associative([COMMA], NewLine(indent, depth), Pretty(rest, depth, indent));
  }

  lemma PrettyColon(rest: seq<Token>, depth: nat, indent: Text)
    ensures Pretty([Mark(COLON)] + rest, depth, indent) == [COLON, SPACE] + Pretty(rest, depth, indent)
  {
    assert ([Mark(COLON)] + rest)[1..] == rest;
    assert [COLON] + ([SPACE] + Pretty(rest, depth, indent)) == [COLON, SPACE] + Pretty(rest, depth, indent);
  }

  // ---------------------------------------------------------------- tokens of values do not close

  lemma BareStarts(v: Json, rest: seq<Token>)
    ensures Bare(v, rest) != [] && !Closes(Bare(v, rest)[0])
  {
  }

  lemma ItemsStart(items: seq<Json>, rest: seq<Token>)
    requires items != []
    ensures ItemTokens(items, [], [], rest) != [] && !Closes(ItemTokens(items, [], [], rest)[0])
  {
    BareStarts(items[0], if |items| == 1 then rest else CommaThen([], ItemTokens(items[1..], [], [], rest)));
  }

  lemma MembersStart(members: seq<Member>, rest: seq<Token>)
    requires members != []
    ensures MemberTokens(members, [], [], rest) != [] && !Closes(MemberTokens(members, [], [], rest)[0])
  {
  }

  // ---------------------------------------------------------------- the theorem

  lemma BareArray(items: seq<Json>, rest: seq<Token>)
    requires items != []
    ensures Bare(Array(items), rest) == [Mark(LBRACKET)] + ItemTokens(items, [], [], [Mark(RBRACKET)] + rest)
  {
    NoIndentation();
  }

  lemma BareObject(members: seq<Member>, rest: seq<Token>)
    requires members != []
    ensures Bare(Object(members), rest) == [Mark(LBRACE)] + MemberTokens(members, [], [], [Mark(RBRACE)] + rest)
  {
    NoIndentation();
  }

  lemma ScalarIsPretty(v: Json, rest: seq<Token>, depth: nat, indent: Text)
    requires !v.Array? && !v.Object?
    ensures Pretty(Bare(v, rest), depth, indent)
         == Printed(v, Indentation(indent, depth), indent) + Pretty(rest, depth, indent)
  {
    match v
    case Bool(b) => PrettyCons(Word(if b then TRUE_TEXT else FALSE_TEXT), rest, depth, indent);
    case Number(literal) => PrettyCons(Word(literal), rest, depth, indent);
    case String(s) => PrettyCons(Str(s), rest, depth, indent);
    case _ => PrettyCons(Word(NULL_TEXT), rest, depth, indent);
  }

  lemma {:induction false} ValueIsPretty(v: Json, rest: seq<Token>, depth: nat, indent: Text)
    requires indent != []
    ensures Pretty(Bare(v, rest), depth, indent)
         == Printed(v, Indentation(indent, depth), indent) + Pretty(rest, depth, indent)
    decreases v, 1
  {
    match v
    case Array(items) =>
      if items == [] {
        PrettyEmpty(LBRACKET, RBRACKET, rest, depth, indent);
      } else {
        ArrayIsPretty(v, rest, depth, indent);
      }
    case Object(members) =>
      if members == [] {
        PrettyEmpty(LBRACE, RBRACE, rest, depth, indent);
      } else {
        ObjectIsPretty(v, rest, depth, indent);
      }
    case _ => ScalarIsPretty(v, rest, depth, indent);
  }

  lemma {:induction false} ArrayIsPretty(v: Json, rest: seq<Token>, depth: nat, indent: Text)
    requires indent != [] && v.Array? && v.items != []
    ensures Pretty(Bare(v, rest), depth, indent)
         == Printed(v, Indentation(indent, depth), indent) + Pretty(rest, depth, indent)
    decreases v, 0
  {
    var tail, deep := [Mark(RBRACKET)] + rest, Indentation(indent, depth + 1);
    ItemsStart(v.items, tail);
    ItemsArePretty(v.items, tail, depth + 1, indent);
    BracketsArePretty(LBRACKET, ItemTexts(v.items, deep, indent), ItemTokens(v.items, [], [], tail), RBRACKET, rest,
                      depth, indent);
    BareArray(v.items, rest);
  }

  lemma {:induction false} ObjectIsPretty(v: Json, rest: seq<Token>, depth: nat, indent: Text)
    requires indent != [] && v.Object? && v.members != []
    ensures Pretty(Bare(v, rest), depth, indent)
         == Printed(v, Indentation(indent, depth), indent) + Pretty(rest, depth, indent)
    decreases v, 0
  {
    var tail, deep := [Mark(RBRACE)] + rest, Indentation(indent, depth + 1);
    MembersStart(v.members, tail);
    MembersArePretty(v.members, tail, depth + 1, indent);
    BracketsArePretty(LBRACE, MemberTexts(v.members, deep, indent), MemberTokens(v.members, [], [], tail), RBRACE, rest,
                      depth, indent);
    BareObject(v.members, rest);
  }

  lemma BracketsArePretty(open: Unit, ts: seq<Text>, inner: seq<Token>, close: Unit, rest: seq<Token>,
                          depth: nat, indent: Text)
    requires indent != [] && ts != [] && Opens(Mark(open)) && Closes(Mark(close)) && inner != [] && !Closes(inner[0])
    requires Pretty(inner, depth + 1, indent)
          == Join(ts, Separator(Indentation(indent, depth + 1))) + Pretty([Mark(close)] + rest, depth + 1, indent)
    ensures Pretty([Mark(open)] + inner, depth, indent)
         == Enclosed(open, ts, close, Indentation(indent, depth), Indentation(indent, depth + 1))
            + Pretty(rest, depth, indent)
  {
    PrettyOpen(open, inner, depth, indent);
    PrettyClose(close, rest, depth, indent);
    EnclosedParts(open, ts, close, Indentation(indent, depth), Indentation(indent, depth + 1),
                  Pretty(rest, depth, indent));
  }

  /** A part, a separator and the joined others are all of them joined. */
  lemma PrettyJoin(ts: seq<Text>, after: seq<Token>, rest: Text, depth: nat, indent: Text)
    requires |ts| > 1 && depth > 0 && indent != []
    requires Pretty(after, depth, indent) == Join(ts[1..], Separator(Indentation(indent, depth))) + rest
    ensures ts[0] + Pretty(CommaThen([], after), depth, indent)
         == Join(ts, Separator(Indentation(indent, depth))) + rest
  {
    var sep := Separator(Indentation(indent, depth));
    PrettyComma(after, depth, indent);
    assert sep == [COMMA] + NewLine(indent, depth);
    Assoc4(ts[0], sep, Join(ts[1..], sep), rest);
  }

  lemma {:induction false} ItemsArePretty(items: seq<Json>, rest: seq<Token>, depth: nat, indent: Text)
    requires indent != [] && items != [] && depth > 0
    ensures Pretty(ItemTokens(items, [], [], rest), depth, indent)
         == Join(ItemTexts(items, Indentation(indent, depth), indent), Separator(Indentation(indent, depth)))
            + Pretty(rest, depth, indent)
    decreases items, 0
  {
    var deep := Indentation(indent, depth);
    ItemTextsStep(items, deep, indent);
    if |items| == 1 {
      ValueIsPretty(items[0], rest, depth, indent);
    } else {
      var after := ItemTokens(items[1..], [], [], rest);
      ValueIsPretty(items[0], CommaThen([], after), depth, indent);
      ItemsArePretty(items[1..], rest, depth, indent);
      PrettyJoin(ItemTexts(items, deep, indent), after, Pretty(rest, depth, indent), depth, indent);
    }
  }

  lemma {:induction false} MemberIsPretty(m: Member, rest: seq<Token>, depth: nat, indent: Text)
    requires indent != [] && depth > 0
    ensures Pretty(MemberToken(m, [], [], rest), depth, indent)
         == MemberText(m, Indentation(indent, depth), indent) + Pretty(rest, depth, indent)
    decreases m, 2
  {
    var deep := Indentation(indent, depth);
    ValueIsPretty(m.value, rest, depth, indent);
    PrettyColon(Bare(m.value, rest), depth, indent);
    PrettyCons(Str(m.key), [Mark(COLON)] + Bare(m.value, rest), depth, indent);
    assert Colon(deep) == [COLON, SPACE];
    Assoc4(Quote(m.key), Colon(deep), Printed(m.value, deep, indent), Pretty(rest, depth, indent));
  }

  lemma {:induction false} MembersArePretty(members: seq<Member>, rest: seq<Token>, depth: nat, indent: Text)
    requires indent != [] && members != [] && depth > 0
    ensures Pretty(MemberTokens(members, [], [], rest), depth, indent)
         == Join(MemberTexts(members, Indentation(indent, depth), indent), Separator(Indentation(indent, depth)))
            + Pretty(rest, depth, indent)
    decreases members, 0
  {
    var deep := Indentation(indent, depth);
    MemberTextsStep(members, deep, indent);
    if |members| == 1 {
      MemberIsPretty(members[0], rest, depth, indent);
    } else {
      var after := MemberTokens(members[1..], [], [], rest);
      MemberIsPretty(members[0], CommaThen([], after), depth, indent);
      MembersArePretty(members[1..], rest, depth, indent);
      PrettyJoin(MemberTexts(members, deep, indent), after, Pretty(rest, depth, indent), depth, indent);
    }
  }

  /** With an indentation the text is the compact one laid out by counting brackets. */
  lemma IndentedExactly(v: Json, indent: Text)
    requires indent != []
    ensures Printed(v, [], indent) == Pretty(Bare(v, []), 0, indent)
  {
    ValueIsPretty(v, [], 0, indent);
    assert Printed(v, [], indent) + Pretty([], 0, indent) == Printed(v, [], indent);
  }
}
