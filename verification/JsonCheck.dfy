/** The stages of JSON.parse in pegasus/www/js/json2.js before evaluation.

    First some characters are replaced by escapes; then four regular expressions look for
    anything that is not JSON. */
module JsonCheck {
  import opened Collections
  import opened JsonText
  import opened Json
  import opened JsonGrammar

  const AT: Unit := 0x40

  // ---------------------------------------------------------------- the stages

  function ArmourUnit(u: Unit): Text {
    if IsCx(u) then [BACKSLASH, SMALL_U] + Hex4(u) else [u]
  }

  /** text.replace(cx, ...) (json2.js:439-446). */
  function Armoured(t: Text): Text {
    if t == [] then [] else ArmourUnit(t[0]) + Armoured(t[1..])
  }

  /** Length of the escape at the front, matched by \\(?:["\\\/bfnrt]|u[0-9a-fA-F]{4}). */
  function EscapeEnd(t: Text): (e: nat)
    ensures e <= |t|
  {
    if |t| >= 2 && t[0] == BACKSLASH && Unescape(t[1]).Some? then 2
    else if |t| >= 6 && t[0] == BACKSLASH && t[1] == SMALL_U && IsHex(t[2]) && IsHex(t[3]) && IsHex(t[4]) && IsHex(t[5])
    then 6
    else 0
  }

  /** Every escape becomes '@'. */
  function Masked(t: Text): Text {
    if t == [] then []
    else if EscapeEnd(t) > 0 then [AT] + Masked(t[EscapeEnd(t)..])
    else [t[0]] + Masked(t[1..])
  }

  predicate StopsString(u: Unit) {
    u == QUOTE || u == BACKSLASH || u == LF || u == CR
  }

  /** End of the longest stretch that [^"\\\n\r]* matches. */
  function BodyEnd(t: Text, i: nat): (e: nat)
    requires i <= |t|
    ensures i <= e <= |t|
    decreases |t| - i
  {
    if i < |t| && !StopsString(t[i]) then BodyEnd(t, i + 1) else i
  }

  /** The end of a fraction whose digits may be missing. */
  function LooseFracEnd(t: Text, i: nat): (f: nat)
    requires i <= |t|
    ensures i <= f <= |t|
    ensures forall k :: i <= k < f ==> IsNumeral(t[k])
  {
    if i < |t| && t[i] == DOT then DigitsEnd(t, i + 1) else i
  }

  /** Length of what -?\d+(?:\.\d*)?(?:[eE][+\-]?\d+)? matches at the front. */
  function NumeralEnd(t: Text): (e: nat)
    ensures e <= |t|
  {
    var s := if t != [] && t[0] == MINUS then 1 else 0;
    var i := DigitsEnd(t, s);
    if i == s then 0
    else ExpEnd(t, LooseFracEnd(t, i))
  }

  /** Length of the simple value token at the front. */
  function SimpleEnd(t: Text): (e: nat)
    ensures e <= |t|
  {
    if t == [] then 0
    else if t[0] == QUOTE then
      var e := BodyEnd(t, 1);
      if e < |t| && t[e] == QUOTE then e + 1 else 0
    else if Leads(t, TRUE_TEXT) then 4
    else if Leads(t, FALSE_TEXT) then 5
    else if Leads(t, NULL_TEXT) then 4
    else NumeralEnd(t)
  }

  /** Every simple value token becomes ']'. */
  function Simplified(t: Text): Text {
    if t == [] then []
    else if SimpleEnd(t) > 0 then [RBRACKET] + Simplified(t[SimpleEnd(t)..])
    else [t[0]] + Simplified(t[1..])
  }

  /** The class \s of ECMAScript. */
  predicate IsSpace(u: Unit) {
    || 0x09 <= u <= 0x0D || u == 0x20 || u == 0xA0 || u == 0x1680 || u == 0x180E || 0x2000 <= u <= 0x200A
    || u == 0x2028 || u == 0x2029 || u == 0x202F || u == 0x205F || u == 0x3000 || u == 0xFEFF
  }

  function SpaceEnd(t: Text): (e: nat)
    ensures e <= |t|
    ensures forall i :: 0 <= i < e ==> IsSpace(t[i])
    ensures e < |t| ==> !IsSpace(t[e])
  {
    if t != [] && IsSpace(t[0]) then 1 + SpaceEnd(t[1..]) else 0
  }

  /** Length of what (?:\s*\[)+ matches at the front. */
  function OpensEnd(t: Text): (e: nat)
    ensures e <= |t|
  {
    var s := SpaceEnd(t);
    if s < |t| && t[s] == LBRACKET then s + 1 + OpensEnd(t[s + 1..]) else 0
  }

  /** Open brackets that begin the text or follow a colon or a comma are deleted, those with them. */
  function Stripped(t: Text, start: bool): Text {
    if t == [] then []
    else if start && OpensEnd(t) > 0 then Stripped(t[OpensEnd(t)..], false)
    else if (t[0] == COLON || t[0] == COMMA) && OpensEnd(t[1..]) > 0 then Stripped(t[1 + OpensEnd(t[1..])..], false)
    else [t[0]] + Stripped(t[1..], false)
  }

  predicate IsRemnant(u: Unit) {
    u == RBRACKET || u == COMMA || u == COLON || u == LBRACE || u == RBRACE || IsSpace(u)
  }

  /** ^[\],:{}\s]*$ */
  predicate OnlyRemnants(t: Text) {
    forall i :: 0 <= i < |t| ==> IsRemnant(t[i])
  }

  /** The condition under which the text is evaluated (json2.js:461-464). */
  predicate Accepted(t: Text) {
    OnlyRemnants(Stripped(Simplified(Masked(t)), true))
  }

  // ---------------------------------------------------------------- JSON text, one token at a time

  /** Whatever token is at the front, the rest continues from it; an open bracket needs armed, which
      the start of the text, a colon and a comma set and whitespace and open brackets keep. */
  predicate Lawful(t: Text, armed: bool)
    decreases |t|
  {
    if t == [] then true
    else if IsWs(t[0]) then Lawful(t[1..], armed)
    else if t[0] == LBRACKET then armed && Lawful(t[1..], true)
    else if t[0] == COLON || t[0] == COMMA then Lawful(t[1..], true)
    else if t[0] == RBRACKET || t[0] == LBRACE || t[0] == RBRACE then Lawful(t[1..], false)
    else if t[0] == QUOTE then ReadChars(t[1..]).Some? && Lawful(ReadChars(t[1..]).value.1, false)
    else ReadScalar(t).Some? && EndsNumber(ReadScalar(t).value.1) && Lawful(ReadScalar(t).value.1, false)
  }

  lemma {:induction false} LawfulAfterWs(t: Text, armed: bool)
    requires Lawful(SkipWs(t), armed)
    ensures Lawful(t, armed)
    decreases |t|
  {
    if t != [] && IsWs(t[0]) {
      LawfulAfterWs(t[1..], armed);
    }
  }

  lemma {:induction false} ValueIsLawful(t: Text)
    requires ReadValue(t).Some?
    requires EndsNumber(ReadValue(t).value.1) && Lawful(ReadValue(t).value.1, false)
    ensures Lawful(t, true)
    decreases |t|, 0
  {
    if t[0] == LBRACKET {
      var t1 := SkipWs(t[1..]);
      if !(t1 != [] && t1[0] == RBRACKET) {
        ItemsAreLawful(t1);
      }
      LawfulAfterWs(t[1..], true);
    } else if t[0] == LBRACE {
      var t1 := SkipWs(t[1..]);
      if !(t1 != [] && t1[0] == RBRACE) {
        MembersAreLawful(t1, false);
      }
      LawfulAfterWs(t[1..], false);
    } else if t[0] != QUOTE {
      ScalarStarts(t);
    }
  }

  lemma ScalarStarts(t: Text)
    requires ReadScalar(t).Some?
    ensures t != [] && !IsWs(t[0])
    ensures t[0] != COLON && t[0] != COMMA && t[0] != RBRACKET && t[0] != RBRACE && t[0] != LBRACKET && t[0] != LBRACE
  {
  }

  lemma {:induction false} ItemsAreLawful(t: Text)
    requires ReadItems(t).Some? && Lawful(ReadItems(t).value.1, false)
    ensures Lawful(t, true)
    decreases |t|, 1
  {
    var t' := ReadValue(t).value.1;
    var t1 := SkipWs(t');
    if t1[0] == COMMA {
      ItemsAreLawful(SkipWs(t1[1..]));
      LawfulAfterWs(t1[1..], true);
    }
    LawfulAfterWs(t', false);
    ValueIsLawful(t);
  }

  lemma {:induction false} MemberIsLawful(t: Text, armed: bool)
    requires ReadMember(t).Some?
    requires EndsNumber(ReadMember(t).value.1) && Lawful(ReadMember(t).value.1, false)
    ensures Lawful(t, armed)
    decreases |t|, 1
  {
    var t' := ReadChars(t[1..]).value.1;
    var t1 := SkipWs(t');
    ValueIsLawful(SkipWs(t1[1..]));
    LawfulAfterWs(t1[1..], true);
    LawfulAfterWs(t', false);
  }

  lemma {:induction false} MembersAreLawful(t: Text, armed: bool)
    requires ReadMembers(t).Some? && Lawful(ReadMembers(t).value.1, false)
    ensures Lawful(t, armed)
    decreases |t|, 2
  {
    var t' := ReadMember(t).value.1;
    var t1 := SkipWs(t');
    if t1[0] == COMMA {
      MembersAreLawful(SkipWs(t1[1..]), true);
      LawfulAfterWs(t1[1..], true);
    }
    LawfulAfterWs(t', false);
    MemberIsLawful(t, armed);
  }

  lemma TextIsLawful(t: Text)
    requires Read(t).Some?
    ensures Lawful(t, true)
  {
    var rest := ReadValue(SkipWs(t)).value.1;
    LawfulAfterWs(rest, false);
    ValueIsLawful(SkipWs(t));
    LawfulAfterWs(t, true);
  }

  // ---------------------------------------------------------------- masking and simplifying

  /** A string's body with its escapes masked. */
  function MaskedBody(t: Text): (b: Text)
    requires ReadChars(t).Some?
    ensures forall i :: 0 <= i < |b| ==> !StopsString(b[i])
    decreases |t|
  {
    if t[0] == QUOTE then [] else [if t[0] == BACKSLASH then AT else t[0]] + MaskedBody(ReadUnit(t).value.1)
  }

  lemma EscapeIsOneUnit(t: Text)
    requires ReadUnit(t).Some? && t[0] == BACKSLASH
    ensures EscapeEnd(t) > 0 && t[EscapeEnd(t)..] == ReadUnit(t).value.1
  {
  }

  lemma MaskedEscape(t: Text)
    requires EscapeEnd(t) > 0
    ensures Masked(t) == [AT] + Masked(t[EscapeEnd(t)..])
  {
  }

  lemma MaskedUnit(t: Text)
    requires ReadUnit(t).Some?
    ensures Masked(t) == [if t[0] == BACKSLASH then AT else t[0]] + Masked(ReadUnit(t).value.1)
  {
    if t[0] == BACKSLASH {
      EscapeIsOneUnit(t);
      MaskedEscape(t);
    } else {
      MaskedOther(t);
    }
  }

  lemma MaskedOther(t: Text)
    requires t != [] && t[0] != BACKSLASH
    ensures Masked(t) == [t[0]] + Masked(t[1..])
  {
  }

  lemma {:induction false} MaskedString(t: Text)
    requires ReadChars(t).Some?
    ensures Masked(t) == MaskedBody(t) + ([QUOTE] + Masked(ReadChars(t).value.1))
    decreases |t|
  {
    if t[0] == QUOTE {
      MaskedOther(t);
      assert [] + ([QUOTE] + Masked(t[1..])) == [QUOTE] + Masked(t[1..]);
    } else {
      var t' := ReadUnit(t).value.1;
      MaskedUnit(t);
      MaskedString(t');
      var u := [if t[0] == BACKSLASH then AT else t[0]];
      Associative(u, MaskedBody(t'), [QUOTE] + Masked(ReadChars(t').value.1));
    }
  }

  lemma {:induction false} BodyEndUnique(t: Text, i: nat, e: nat)
    requires i <= e < |t| && StopsString(t[e])
    requires forall k :: i <= k < e ==> !StopsString(t[k])
    ensures BodyEnd(t, i) == e
    decreases e - i
  {
    if i < e {
      BodyEndUnique(t, i + 1, e);
    }
  }

  lemma SimplifiedString(body: Text, rest: Text)
    requires forall i :: 0 <= i < |body| ==> !StopsString(body[i])
    ensures Simplified([QUOTE] + (body + ([QUOTE] + rest))) == [RBRACKET] + Simplified(rest)
  {
    var t := [QUOTE] + (body + ([QUOTE] + rest));
    assert forall k :: 1 <= k < 1 + |body| ==> t[k] == body[k - 1];
    assert t[1 + |body|] == QUOTE;
    BodyEndUnique(t, 1, 1 + |body|);
    assert t[2 + |body|..] == rest;
  }

  /** Text without backslashes is left as it is. */
  lemma {:induction false} MaskedPlain(a: Text, b: Text)
    requires forall i :: 0 <= i < |a| ==> a[i] != BACKSLASH
    ensures Masked(a + b) == a + Masked(b)
    decreases |a|
  {
    if a == [] {
      assert a + b == b && a + Masked(b) == Masked(b);
    } else {
      MaskedPlain(a[1..], b);
      assert (a + b)[1..] == a[1..] + b;
      MaskedOther(a + b);
      Associative([a[0]], a[1..], Masked(b));
      assert [a[0]] + a[1..] == a;
    }
  }

  lemma MaskedEndsNumber(t: Text)
    requires EndsNumber(t)
    ensures EndsNumber(Masked(t))
  {
  }

  /** A number has no digit behind its integer part. */
  lemma IntegerIsAllDigits(a: Text, b: Text, s: nat)
    requires s < |a| && IntEnd(a, s) > s && EndsNumber(b) && ExpEnd(a, FracEnd(a, IntEnd(a, s))) == |a|
    ensures DigitsEnd(a + b, s) == IntEnd(a, s)
  {
    var i := IntEnd(a, s);
    assert i < |a| ==> !IsDigit(a[i]);
    assert forall k :: s <= k < i ==> (a + b)[k] == a[k];
    assert i < |a| ==> (a + b)[i] == a[i];
    assert i == |a| && b != [] ==> (a + b)[i] == b[0];
    DigitsEndUnique(a + b, s, i);
  }

  lemma NumberTail(a: Text, b: Text, i: nat)
    requires i <= |a| && EndsNumber(b) && ExpEnd(a, FracEnd(a, i)) == |a|
    ensures FracEnd(a + b, i) == FracEnd(a, i) && ExpEnd(a + b, FracEnd(a + b, i)) == |a|
    ensures i < |a + b| && (a + b)[i] == DOT ==> DigitsEnd(a + b, i + 1) == FracEnd(a + b, i)
  {
    FracEndAppend(a, b, i);
    ExpEndAppend(a, b, FracEnd(a, i));
    assert i < |a| ==> (a + b)[i] == a[i];
    assert i == |a| && b != [] ==> (a + b)[i] == b[0];
  }

  lemma NumeralEndAppend(a: Text, b: Text)
    requires IsNumber(a) && EndsNumber(b)
    ensures NumeralEnd(a + b) == |a|
  {
    assert (a + b)[0] == a[0];
    var s := if a[0] == MINUS then 1 else 0;
    var i := IntEnd(a, s);
    IntegerIsAllDigits(a, b, s);
    NumberTail(a, b, i);
  }

  /** What remains of lawful text when strings are masked and tokens simplified. */
  function Shape(t: Text, armed: bool): Text
    requires Lawful(t, armed)
    decreases |t|
  {
    if t == [] then []
    else if IsWs(t[0]) then [t[0]] + Shape(t[1..], armed)
    else if t[0] == LBRACKET || t[0] == COLON || t[0] == COMMA then [t[0]] + Shape(t[1..], true)
    else if t[0] == RBRACKET || t[0] == LBRACE || t[0] == RBRACE then [t[0]] + Shape(t[1..], false)
    else if t[0] == QUOTE then [RBRACKET] + Shape(ReadChars(t[1..]).value.1, false)
    else [RBRACKET] + Shape(ReadScalar(t).value.1, false)
  }

  predicate IsMark(u: Unit) {
    IsWs(u) || u == LBRACKET || u == RBRACKET || u == LBRACE || u == RBRACE || u == COLON || u == COMMA
  }

  lemma SimplifiedMark(u: Unit, rest: Text)
    requires IsMark(u)
    ensures Simplified([u] + rest) == [u] + Simplified(rest)
  {
    var t := [u] + rest;
    assert t[0] == u && t[1..] == rest;
    assert SimpleEnd(t) == 0;
  }

  lemma SimplifiedScalar(t: Text)
    requires ReadScalar(t).Some? && EndsNumber(ReadScalar(t).value.1)
    ensures Simplified(Masked(t)) == [RBRACKET] + Simplified(Masked(ReadScalar(t).value.1))
  {
    ScalarIs(t);
    var rest := ReadScalar(t).value.1;
    var word := t[..|t| - |rest|];
    MaskedPlain(word, rest);
    MaskedEndsNumber(rest);
    SimplifiedWord(word, Masked(rest));
  }

  predicate IsWord(t: Text) {
    t == TRUE_TEXT || t == FALSE_TEXT || t == NULL_TEXT || IsNumber(t)
  }

  lemma ScalarIs(t: Text)
    requires ReadScalar(t).Some?
    ensures IsWord(t[..|t| - |ReadScalar(t).value.1|])
    ensures forall i :: 0 <= i < |t| - |ReadScalar(t).value.1| ==> t[i] != BACKSLASH
    ensures t == t[..|t| - |ReadScalar(t).value.1|] + ReadScalar(t).value.1
  {
    var n := |t| - |ReadScalar(t).value.1|;
    if Leads(t, NULL_TEXT) || Leads(t, TRUE_TEXT) {
      assert n == 4 && ReadScalar(t).value.1 == t[4..];
    } else if Leads(t, FALSE_TEXT) {
      assert n == 5 && ReadScalar(t).value.1 == t[5..];
    } else {
      assert ReadScalar(t) == ReadNumber(t) && n == NumberEnd(t);
      NumberEndIsNumber(t);
    }
  }

  lemma SimplifiedWord(word: Text, rest: Text)
    requires IsWord(word) && EndsNumber(rest)
    ensures Simplified(word + rest) == [RBRACKET] + Simplified(rest)
  {
    var t := word + rest;
    assert SimpleEnd(t) == |word| by {
      assert t[0] == word[0];
      if IsNumber(word) {
        NumberStarts(word);
        NumeralEndAppend(word, rest);
        assert SimpleEnd(t) == NumeralEnd(t);
      } else {
        assert Leads(t, word);
      }
    }
    assert t[|word|..] == rest;
  }

  /** The second and third replacements see exactly the tokens that the grammar sees. */
  lemma {:induction false} SimplifiedIsShape(t: Text, armed: bool)
    requires Lawful(t, armed)
    ensures Simplified(Masked(t)) == Shape(t, armed)
    decreases |t|
  {
    if t == [] {
    } else if IsMark(t[0]) {
      MaskedOther(t);
      SimplifiedMark(t[0], Masked(t[1..]));
      SimplifiedIsShape(t[1..], if IsWs(t[0]) then armed else t[0] == LBRACKET || t[0] == COLON || t[0] == COMMA);
    } else if t[0] == QUOTE {
      var rest := ReadChars(t[1..]).value.1;
      MaskedOther(t);
      MaskedString(t[1..]);
      SimplifiedString(MaskedBody(t[1..]), Masked(rest));
      SimplifiedIsShape(rest, false);
    } else {
      SimplifiedScalar(t);
      SimplifiedIsShape(ReadScalar(t).value.1, false);
    }
  }

  // ---------------------------------------------------------------- open brackets

  /** Every open bracket is reached armed. */
  predicate Fine(t: Text, armed: bool) {
    if t == [] then true
    else if IsWs(t[0]) then Fine(t[1..], armed)
    else if t[0] == LBRACKET then armed && Fine(t[1..], true)
    else if t[0] == COLON || t[0] == COMMA then Fine(t[1..], true)
    else (t[0] == RBRACKET || t[0] == LBRACE || t[0] == RBRACE) && Fine(t[1..], false)
  }

  lemma {:induction false} ShapeIsFine(t: Text, armed: bool)
    requires Lawful(t, armed)
    ensures Fine(Shape(t, armed), armed)
    decreases |t|
  {
    if t == [] {
    } else if IsMark(t[0]) {
      ShapeIsFine(t[1..], if IsWs(t[0]) then armed else t[0] == LBRACKET || t[0] == COLON || t[0] == COMMA);
    } else if t[0] == QUOTE {
      ShapeIsFine(ReadChars(t[1..]).value.1, false);
    } else {
      ShapeIsFine(ReadScalar(t).value.1, false);
    }
  }

  lemma {:induction false} FineAfterSpace(t: Text, armed: bool)
    requires Fine(t, armed)
    ensures Fine(t[SpaceEnd(t)..], armed)
    decreases |t|
  {
    if t != [] && IsSpace(t[0]) {
      FineAfterSpace(t[1..], armed);
      assert t[SpaceEnd(t)..] == t[1..][SpaceEnd(t[1..])..];
    }
  }

  /** A run of open brackets leads to where no further one follows. */
  lemma {:induction false} FineAfterOpens(t: Text)
    requires Fine(t, true)
    ensures Fine(t[OpensEnd(t)..], true) && OpensEnd(t[OpensEnd(t)..]) == 0
    decreases |t|
  {
    var s := SpaceEnd(t);
    FineAfterSpace(t, true);
    if s < |t| && t[s] == LBRACKET {
      assert t[s..][1..] == t[s + 1..];
      FineAfterOpens(t[s + 1..]);
      assert t[OpensEnd(t)..] == t[s + 1..][OpensEnd(t[s + 1..])..];
    }
  }

  /** No run of open brackets starts here unless one is due. */
  ghost predicate Settled(t: Text, armed: bool) {
    Fine(t, armed) && (armed ==> OpensEnd(t) == 0)
  }

  lemma {:induction false} StrippedLeavesRemnants(t: Text, armed: bool)
    requires Settled(t, armed)
    ensures OnlyRemnants(Stripped(t, false))
    decreases |t|
  {
    if t == [] {
    } else if t[0] == COLON || t[0] == COMMA {
      FineAfterOpens(t[1..]);
      var n := OpensEnd(t[1..]);
      assert t[1..][n..] == t[1 + n..];
      StrippedLeavesRemnants(t[1 + n..], true);
    } else if IsWs(t[0]) {
      SpaceKeepsSettled(t, armed);
      StrippedLeavesRemnants(t[1..], armed);
    } else {
      StrippedLeavesRemnants(t[1..], false);
    }
  }

  lemma SpaceKeepsSettled(t: Text, armed: bool)
    requires Settled(t, armed) && t != [] && IsWs(t[0])
    ensures Settled(t[1..], armed)
  {
    var s := SpaceEnd(t[1..]);
    assert SpaceEnd(t) == 1 + s;
    if s < |t[1..]| {
      assert t[1..][s] == t[1 + s];
    }
  }

  /** The check lets every JSON text of RFC 8259 through. */
  lemma EveryJsonTextIsAccepted(t: Text)
    requires Read(t).Some?
    ensures Accepted(t)
  {
    TextIsLawful(t);
    SimplifiedIsShape(t, true);
    ShapeIsFine(t, true);
    var shape := Shape(t, true);
    FineAfterOpens(shape);
    if OpensEnd(shape) > 0 {
      StrippedLeavesRemnants(shape[OpensEnd(shape)..], true);
    } else {
      assert shape[0..] == shape;
      StrippedLeavesRemnants(shape, true);
      StartIsMoot(shape);
    }
  }

  lemma StartIsMoot(t: Text)
    requires OpensEnd(t) == 0
    ensures Stripped(t, true) == Stripped(t, false)
  {
  }
}
