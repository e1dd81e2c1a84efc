/** What the check of pegasus/www/js/json2.js (lines 449 to 464) is for: outside its strings an accepted
    text holds nothing but literals, numbers, marks and whitespace, so that evaluating it calls nothing
    and assigns nothing. */
module JsonSafety {
  import opened Collections
  import opened JsonText
  import opened JsonGrammar
  import opened JsonCheck

  // ---------------------------------------------------------------- harmless text

  predicate IsLoose(u: Unit) {
    IsRemnant(u) || u == LBRACKET
  }

  predicate IsNumeralText(t: Text) {
    t != [] && NumeralEnd(t) == |t|
  }

  /** Escapes, and characters that need none. */
  predicate IsBody(t: Text)
    decreases |t|
  {
    || t == []
    || (EscapeEnd(t) > 0 && IsBody(t[EscapeEnd(t)..]))
    || (EscapeEnd(t) == 0 && !StopsString(t[0]) && IsBody(t[1..]))
  }

  predicate IsQuoted(t: Text) {
    |t| >= 2 && t[0] == QUOTE && t[|t| - 1] == QUOTE && IsBody(t[1..|t| - 1])
  }

  predicate IsPiece(t: Text) {
    || (|t| == 1 && IsLoose(t[0]))
    || t == TRUE_TEXT || t == FALSE_TEXT || t == NULL_TEXT || IsNumeralText(t) || IsQuoted(t)
  }

  /** The text can be cut into such pieces. */
  ghost predicate Harmless(t: Text)
    decreases |t|
  {
    t == [] || exists n :: 0 < n <= |t| && IsPiece(t[..n]) && Harmless(t[n..])
  }

  // ---------------------------------------------------------------- what was deleted

  predicate AllLoose(t: Text) {
    forall i :: 0 <= i < |t| ==> IsLoose(t[i])
  }

  lemma {:induction false} OpensAreLoose(t: Text)
    ensures AllLoose(t[..OpensEnd(t)])
    decreases |t|
  {
    var s := SpaceEnd(t);
    if s < |t| && t[s] == LBRACKET {
      OpensAreLoose(t[s + 1..]);
      var e := OpensEnd(t[s + 1..]);
      assert t[..OpensEnd(t)] == t[..s] + [t[s]] + t[s + 1..][..e];
    }
  }

  lemma LooseAppend(t: Text, n: nat)
    requires n <= |t| && AllLoose(t[..n]) && AllLoose(t[n..])
    ensures AllLoose(t)
  {
    assert t == t[..n] + t[n..];
  }

  lemma RemnantsSplit(u: Unit, rest: Text)
    requires OnlyRemnants([u] + rest)
    ensures IsRemnant(u) && OnlyRemnants(rest)
  {
    var t := [u] + rest;
    assert IsRemnant(t[0]);
    assert forall i :: 0 <= i < |rest| ==> rest[i] == t[i + 1];
  }

  lemma MarkBeforeOpens(t: Text)
    requires t != [] && (t[0] == COLON || t[0] == COMMA) && AllLoose(t[1 + OpensEnd(t[1..])..])
    ensures AllLoose(t)
  {
    var e := OpensEnd(t[1..]);
    OpensAreLoose(t[1..]);
    TakeHead(t, 1 + e);
    LooseAppend(t, 1 + e);
  }

  /** The third replacement deletes only open brackets and whitespace, and marks before them. */
  lemma {:induction false} StrippedWasLoose(t: Text, start: bool)
    requires OnlyRemnants(Stripped(t, start))
    ensures AllLoose(t)
    decreases |t|
  {
    if t == [] {
    } else if start && OpensEnd(t) > 0 {
      StrippedWasLoose(t[OpensEnd(t)..], false);
      OpensAreLoose(t);
      LooseAppend(t, OpensEnd(t));
    } else if (t[0] == COLON || t[0] == COMMA) && OpensEnd(t[1..]) > 0 {
      StrippedWasLoose(t[1 + OpensEnd(t[1..])..], false);
      MarkBeforeOpens(t);
    } else {
      RemnantsSplit(t[0], Stripped(t[1..], false));
      StrippedWasLoose(t[1..], false);
      LooseAppend(t, 1);
    }
  }

  // ---------------------------------------------------------------- what was masked

  /** How much of the text is masked to one unit. */
  function UnitEnd(t: Text): (e: nat)
    requires t != []
    ensures 0 < e <= |t|
  {
    if EscapeEnd(t) > 0 then EscapeEnd(t) else 1
  }

  lemma MaskedStep(t: Text)
    requires t != []
    ensures Masked(t) == [if EscapeEnd(t) > 0 then AT else t[0]] + Masked(t[UnitEnd(t)..])
    ensures Masked(t)[1..] == Masked(t[UnitEnd(t)..])
  {
  }

  lemma MaskedHead(t: Text)
    requires Masked(t) != [] && Masked(t)[0] != AT
    ensures t != [] && EscapeEnd(t) == 0 && t[0] == Masked(t)[0] && Masked(t[1..]) == Masked(t)[1..]
  {
    MaskedStep(t);
  }

  /** Where no escape was masked the text is the same. */
  lemma {:induction false} UnmaskedPlain(t: Text, k: nat)
    requires k <= |Masked(t)| && forall i :: 0 <= i < k ==> Masked(t)[i] != AT
    ensures k <= |t| && t[..k] == Masked(t)[..k] && Masked(t[k..]) == Masked(t)[k..]
    decreases |t|
  {
    if k == 0 {
      assert t[0..] == t && Masked(t)[0..] == Masked(t);
    } else {
      MaskedHead(t);
      assert forall i :: 0 <= i < k - 1 ==> Masked(t)[1..][i] == Masked(t)[i + 1];
      UnmaskedPlain(t[1..], k - 1);
      TakeHead(t, k);
      TakeHead(Masked(t), k);
      DropOfDrop(t, 1, k - 1);
      DropOfDrop(Masked(t), 1, k - 1);
    }
  }

  lemma EscapeFits(t: Text, n: nat)
    requires n <= |t| && 0 < EscapeEnd(t) <= n
    ensures EscapeEnd(t[..n]) == EscapeEnd(t)
  {
  }

  lemma NoEscapeThen(t: Text, n: nat)
    requires n <= |t| && EscapeEnd(t) == 0
    ensures EscapeEnd(t[..n]) == 0
  {
  }

  lemma BodyGrows(t: Text, n: nat)
    requires t != [] && UnitEnd(t) <= n <= |t| && (EscapeEnd(t) == 0 ==> !StopsString(t[0]))
    requires IsBody(t[UnitEnd(t)..][..n - UnitEnd(t)])
    ensures IsBody(t[..n])
  {
    DropOfTake(t, UnitEnd(t), n);
    if EscapeEnd(t) > 0 {
      EscapeFits(t, n);
    } else {
      NoEscapeThen(t, n);
    }
  }

  lemma RestFollows(t: Text, e: nat, m: nat, k: nat)
    requires e + m <= |t| && 0 < k <= |Masked(t)| && Masked(t)[1..] == Masked(t[e..])
    requires Masked(t[e..][m..]) == Masked(t[e..])[k - 1..]
    ensures Masked(t[e + m..]) == Masked(t)[k..]
  {
    DropOfDrop(t, e, m);
    DropOfDrop(Masked(t), 1, k - 1);
  }

  /** A string's body in the masked form stands for one in the text. */
  lemma {:induction false} UnmaskedBody(t: Text, k: nat) returns (n: nat)
    requires k <= |Masked(t)| && forall i :: 0 <= i < k ==> !StopsString(Masked(t)[i])
    ensures n <= |t| && IsBody(t[..n]) && Masked(t[n..]) == Masked(t)[k..]
    decreases |t|
  {
    if k == 0 {
      assert t[0..] == t && Masked(t)[0..] == Masked(t);
      n := 0;
    } else {
      MaskedStep(t);
      assert !StopsString(Masked(t)[0]);
      assert forall i :: 0 <= i < k - 1 ==> Masked(t)[1..][i] == Masked(t)[i + 1];
      var e := UnitEnd(t);
      var m := UnmaskedBody(t[e..], k - 1);
      n := e + m;
      BodyGrows(t, n);
      RestFollows(t, e, m, k);
    }
  }

  // ---------------------------------------------------------------- what was simplified

  lemma {:induction false} BodyEndStops(t: Text, i: nat)
    requires i <= |t|
    ensures forall k :: i <= k < BodyEnd(t, i) ==> !StopsString(t[k])
    decreases |t| - i
  {
    if i < |t| && !StopsString(t[i]) {
      BodyEndStops(t, i + 1);
    }
  }

  lemma LooseFracEndPrefix(t: Text, i: nat, n: nat)
    requires i <= |t| && LooseFracEnd(t, i) <= n <= |t|
    ensures i < n ==> LooseFracEnd(t[..n], i) == LooseFracEnd(t, i)
  {
    if i < n && t[i] == DOT {
      DigitsEndPrefix(t, i + 1, n);
    }
  }

  lemma NumeralUnits(t: Text)
    ensures forall k :: 0 <= k < NumeralEnd(t) ==> IsNumeral(t[k])
  {
  }

  lemma NumeralIsText(t: Text)
    requires NumeralEnd(t) > 0
    ensures IsNumeralText(t[..NumeralEnd(t)])
  {
    var n := NumeralEnd(t);
    var p := t[..n];
    var s := if t[0] == MINUS then 1 else 0;
    var i := DigitsEnd(t, s);
    var f := LooseFracEnd(t, i);
    DigitsEndPrefix(t, s, n);
    LooseFracEndPrefix(t, i, n);
    ExpEndPrefix(t, f, n);
    assert DigitsEnd(p, s) == i && LooseFracEnd(p, i) == f;
  }

  lemma QuotedToken(y: Text)
    requires y != [] && y[0] == QUOTE && SimpleEnd(y) > 0
    ensures 2 <= SimpleEnd(y) <= |y| && y[SimpleEnd(y) - 1] == QUOTE
    ensures forall i :: 1 <= i < SimpleEnd(y) - 1 ==> !StopsString(y[i])
  {
    BodyEndStops(y, 1);
  }

  lemma QuotedIs(t: Text, n: nat)
    requires n + 2 <= |t| && t[0] == QUOTE && t[n + 1] == QUOTE && IsBody(t[1..][..n])
    ensures IsQuoted(t[..n + 2])
  {
    assert t[..n + 2][1..n + 1] == t[1..][..n];
  }

  /** What is behind the first quotation mark: a body, another quotation mark, the rest. */
  lemma ClosedBody(t: Text, k: nat) returns (n: nat)
    requires k < |Masked(t)| && Masked(t)[k] == QUOTE && forall i :: 0 <= i < k ==> !StopsString(Masked(t)[i])
    ensures n < |t| && t[n] == QUOTE && IsBody(t[..n]) && Masked(t[n + 1..]) == Masked(t)[k + 1..]
  {
    n := UnmaskedBody(t, k);
    MaskedHead(t[n..]);
    DropOfDrop(t, n, 1);
    DropOfDrop(Masked(t), k, 1);
  }

  /** A string token of the masked form is a string of the text. */
  lemma QuotedPiece(t: Text, k: nat) returns (n: nat)
    requires 2 <= k <= |Masked(t)| && Masked(t)[0] == QUOTE && Masked(t)[k - 1] == QUOTE
    requires forall i :: 1 <= i < k - 1 ==> !StopsString(Masked(t)[i])
    ensures 0 < n <= |t| && IsQuoted(t[..n]) && Masked(t[n..]) == Masked(t)[k..]
  {
    MaskedHead(t);
    assert forall i :: 0 <= i < k - 1 ==> Masked(t)[1..][i] == Masked(t)[i + 1];
    var m := ClosedBody(t[1..], k - 2);
    n := m + 2;
    QuotedIs(t, m);
    DropOfDrop(t, 1, m + 1);
    DropOfDrop(Masked(t), 1, k - 1);
  }

  /** Any other token is spelt the same in both. */
  lemma WordPiece(t: Text, k: nat)
    requires Masked(t) != [] && Masked(t)[0] != QUOTE && SimpleEnd(Masked(t)) == k > 0
    ensures k <= |t| && IsPiece(t[..k]) && Masked(t[k..]) == Masked(t)[k..]
  {
    WordToken(Masked(t));
    UnmaskedPlain(t, k);
  }

  lemma WordToken(y: Text)
    requires y != [] && y[0] != QUOTE && SimpleEnd(y) > 0
    ensures IsPiece(y[..SimpleEnd(y)]) && forall i :: 0 <= i < SimpleEnd(y) ==> y[i] != AT
  {
    var k := SimpleEnd(y);
    if Leads(y, TRUE_TEXT) || Leads(y, NULL_TEXT) || Leads(y, FALSE_TEXT) {
      assert y[..k] == TRUE_TEXT || y[..k] == FALSE_TEXT || y[..k] == NULL_TEXT;
      assert forall i :: 0 <= i < k ==> y[i] == y[..k][i] && y[i] != AT;
    } else {
      NumeralUnits(y);
      NumeralIsText(y);
    }
  }

  lemma LooseSplit(u: Unit, rest: Text)
    requires AllLoose([u] + rest)
    ensures IsLoose(u) && AllLoose(rest)
  {
    var t := [u] + rest;
    assert IsLoose(t[0]);
    assert forall i :: 0 <= i < |rest| ==> rest[i] == t[i + 1];
  }

  lemma SimplifiedStep(y: Text)
    requires y != [] && AllLoose(Simplified(y))
    ensures if SimpleEnd(y) > 0 then AllLoose(Simplified(y[SimpleEnd(y)..]))
            else IsLoose(y[0]) && AllLoose(Simplified(y[1..]))
  {
    if SimpleEnd(y) > 0 {
      LooseSplit(RBRACKET, Simplified(y[SimpleEnd(y)..]));
    } else {
      LooseSplit(y[0], Simplified(y[1..]));
    }
  }

  /** The piece at the front, and what is behind it. */
  lemma FirstPiece(t: Text) returns (n: nat)
    requires t != [] && AllLoose(Simplified(Masked(t)))
    ensures 0 < n <= |t| && IsPiece(t[..n]) && AllLoose(Simplified(Masked(t[n..])))
  {
    var y := Masked(t);
    var k := SimpleEnd(y);
    MaskedStep(t);
    SimplifiedStep(y);
    if k == 0 {
      MaskedHead(t);
      n := 1;
    } else if y[0] == QUOTE {
      QuotedToken(y);
      n := QuotedPiece(t, k);
    } else {
      WordPiece(t, k);
      n := k;
    }
  }

  lemma {:induction false} SimplifiedWasHarmless(t: Text)
    requires AllLoose(Simplified(Masked(t)))
    ensures Harmless(t)
    decreases |t|
  {
    if t != [] {
      var n := FirstPiece(t);
      SimplifiedWasHarmless(t[n..]);
    }
  }

  /** The check does not parse: a lone closing bracket passes it and is no JSON text. */
  lemma NotOnlyJsonIsAccepted()
    ensures Accepted([RBRACKET]) && Read([RBRACKET]).None?
  {
    var t: Text := [RBRACKET];
    assert t[1..] == [];
    assert Masked(t) == t;
    assert Simplified(t) == t;
    assert SpaceEnd(t) == 0 && OpensEnd(t) == 0;
    assert Stripped(t, true) == t;
    assert SkipWs(t) == t;
  }

  /** Whatever the text: if it is accepted, every character outside its strings belongs to a literal, a
      number, a bracket, a brace, a colon, a comma or whitespace. */
  lemma AcceptedIsHarmless(t: Text)
    requires Accepted(t)
    ensures Harmless(t)
  {
    StrippedWasLoose(Simplified(Masked(t)), true);
    SimplifiedWasHarmless(t);
  }
}
