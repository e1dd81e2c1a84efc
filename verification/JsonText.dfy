/** Text as JavaScript has it, a sequence of UTF-16 code units, and the numbers of RFC 8259. */
module JsonText {

  type Unit = u: int | 0 <= u < 0x1_0000 witness 0

  type Text = seq<Unit>

  function U(c: char): Unit
    requires c as int < 0x1_0000
  {
    c as int
  }

  const QUOTE: Unit := 0x22
  const BACKSLASH: Unit := 0x5C
  const LBRACKET: Unit := 0x5B
  const RBRACKET: Unit := 0x5D
  const LBRACE: Unit := 0x7B
  const RBRACE: Unit := 0x7D
  const COLON: Unit := 0x3A
  const COMMA: Unit := 0x2C
  const SPACE: Unit := 0x20
  const TAB: Unit := 0x09
  const LF: Unit := 0x0A
  const FF: Unit := 0x0C
  const CR: Unit := 0x0D
  const BS: Unit := 0x08
  const MINUS: Unit := 0x2D
  const PLUS: Unit := 0x2B
  const DOT: Unit := 0x2E
  const ZERO: Unit := 0x30
  const SMALL_U: Unit := 0x75

  const NULL_TEXT: Text := [0x6E, 0x75, 0x6C, 0x6C]
  const TRUE_TEXT: Text := [0x74, 0x72, 0x75, 0x65]
  const FALSE_TEXT: Text := [0x66, 0x61, 0x6C, 0x73, 0x65]

  /** Insignificant whitespace of RFC 8259 section 2. */
  predicate IsWs(u: Unit) {
    u == SPACE || u == TAB || u == LF || u == CR
  }

  predicate AllWs(t: Text) {
    forall i :: 0 <= i < |t| ==> IsWs(t[i])
  }

  predicate IsDigit(u: Unit) {
    0x30 <= u <= 0x39
  }

  // ---------------------------------------------------------------- numbers (RFC 8259 section 6)

  function DigitsEnd(t: Text, i: nat): (e: nat)
    requires i <= |t|
    ensures i <= e <= |t|
    ensures forall k :: i <= k < e ==> IsDigit(t[k])
    ensures e < |t| ==> !IsDigit(t[e])
    decreases |t| - i
  {
    if i < |t| && IsDigit(t[i]) then DigitsEnd(t, i + 1) else i
  }

  /** What numbers are made of. */
  predicate IsNumeral(u: Unit) {
    IsDigit(u) || u == MINUS || u == PLUS || u == DOT || IsE(u)
  }

  /** End of an integer part without superfluous zeros; i itself when there is none. */
  function IntEnd(t: Text, i: nat): (e: nat)
    requires i <= |t|
    ensures i <= e <= |t|
    ensures forall k :: i <= k < e ==> IsNumeral(t[k])
  {
    if i < |t| && t[i] == ZERO then i + 1 else DigitsEnd(t, i)
  }

  function FracEnd(t: Text, i: nat): (e: nat)
    requires i <= |t|
    ensures i <= e <= |t|
    ensures forall k :: i <= k < e ==> IsNumeral(t[k])
  {
    if i < |t| && t[i] == DOT && DigitsEnd(t, i + 1) > i + 1 then DigitsEnd(t, i + 1) else i
  }

  predicate IsE(u: Unit) {
    u == 0x65 || u == 0x45
  }

  function ExpEnd(t: Text, i: nat): (e: nat)
    requires i <= |t|
    ensures i <= e <= |t|
    ensures forall k :: i <= k < e ==> IsNumeral(t[k])
  {
    if i < |t| && IsE(t[i]) then
      var j := if i + 1 < |t| && (t[i + 1] == PLUS || t[i + 1] == MINUS) then i + 2 else i + 1;
      if DigitsEnd(t, j) > j then DigitsEnd(t, j) else i
    else i
  }

  /** End of the number at the front, 0 when there is none. */
  function NumberEnd(t: Text): (e: nat)
    ensures e <= |t|
    ensures forall k :: 0 <= k < e ==> IsNumeral(t[k])
  {
    var s := if t != [] && t[0] == MINUS then 1 else 0;
    var i := IntEnd(t, s);
    if i == s then 0 else ExpEnd(t, FracEnd(t, i))
  }

  predicate IsNumber(t: Text) {
    t != [] && NumberEnd(t) == |t|
  }

  // ---------------------------------------------------------------- where numbers end

  /** DigitsEnd is the only index with the property it promises. */
  lemma {:induction false} DigitsEndUnique(t: Text, i: nat, e: nat)
    requires i <= e <= |t|
    requires forall k :: i <= k < e ==> IsDigit(t[k])
    requires e < |t| ==> !IsDigit(t[e])
    ensures DigitsEnd(t, i) == e
    decreases e - i
  {
    if i < e {
      DigitsEndUnique(t, i + 1, e);
    }
  }

  /** Nothing that may continue a number. */
  predicate EndsNumber(t: Text) {
    t != [] ==> !IsDigit(t[0]) && t[0] != DOT && !IsE(t[0])
  }

  /** Digits up to the end of a, or up to a non-digit inside it, are the same with b behind. */
  lemma DigitsEndAppend(a: Text, b: Text, i: nat)
    requires i <= |a|
    requires DigitsEnd(a, i) < |a| || b == [] || !IsDigit(b[0])
    ensures DigitsEnd(a + b, i) == DigitsEnd(a, i)
  {
    var e := DigitsEnd(a, i);
    assert forall k :: i <= k < e ==> (a + b)[k] == a[k];
    assert e < |a| ==> (a + b)[e] == a[e];
    assert e == |a| && b != [] ==> (a + b)[e] == b[0];
    DigitsEndUnique(a + b, i, e);
  }

  lemma ExpEndAppend(a: Text, b: Text, i: nat)
    requires i <= |a| && EndsNumber(b) && ExpEnd(a, i) == |a|
    ensures ExpEnd(a + b, i) == |a|
  {
    if i < |a| {
      assert (a + b)[i] == a[i];
      var j := if i + 1 < |a| && (a[i + 1] == PLUS || a[i + 1] == MINUS) then i + 2 else i + 1;
      assert DigitsEnd(a, j) == |a|;
      assert i + 1 < |a| ==> (a + b)[i + 1] == a[i + 1];
      DigitsEndAppend(a, b, j);
    } else if b != [] {
      assert (a + b)[i] == b[0];
    }
  }

  lemma FracEndAppend(a: Text, b: Text, i: nat)
    requires i <= |a| && EndsNumber(b) && ExpEnd(a, FracEnd(a, i)) == |a|
    ensures FracEnd(a + b, i) == FracEnd(a, i)
  {
    if i < |a| {
      assert (a + b)[i] == a[i];
      if a[i] == DOT {
        DigitsEndAppend(a, b, i + 1);
      }
    } else if b != [] {
      assert (a + b)[i] == b[0];
    }
  }

  lemma IntEndAppend(a: Text, b: Text, i: nat)
    requires i <= |a| && EndsNumber(b)
    ensures IntEnd(a, i) > i ==> IntEnd(a + b, i) == IntEnd(a, i)
  {
    if i < |a| {
      assert (a + b)[i] == a[i];
      DigitsEndAppend(a, b, i);
    }
  }

  /** A number is read to its end whenever what follows cannot continue it. */
  lemma NumberEndAppend(a: Text, b: Text)
    requires IsNumber(a) && EndsNumber(b)
    ensures NumberEnd(a + b) == |a|
  {
    assert (a + b)[0] == a[0];
    var s := if a[0] == MINUS then 1 else 0;
    IntEndAppend(a, b, s);
    var i := IntEnd(a, s);
    FracEndAppend(a, b, i);
    ExpEndAppend(a, b, FracEnd(a, i));
  }

  lemma DigitsEndPrefix(t: Text, i: nat, e: nat)
    requires i <= e <= |t| && DigitsEnd(t, i) <= e
    ensures DigitsEnd(t[..e], i) == DigitsEnd(t, i)
  {
    DigitsEndUnique(t[..e], i, DigitsEnd(t, i));
  }

  lemma IntEndPrefix(t: Text, i: nat, e: nat)
    requires i <= e <= |t| && i < IntEnd(t, i) <= e
    ensures IntEnd(t[..e], i) == IntEnd(t, i)
  {
    if t[i] != ZERO {
      DigitsEndPrefix(t, i, e);
    }
  }

  lemma FracEndPrefix(t: Text, i: nat, e: nat)
    requires i <= e <= |t| && FracEnd(t, i) <= e
    ensures FracEnd(t[..e], i) == FracEnd(t, i)
  {
    if i < e && t[i] == DOT {
      DigitsEndPrefix(t, i + 1, e);
    }
  }

  lemma ExpEndPrefix(t: Text, i: nat, e: nat)
    requires i <= e <= |t| && ExpEnd(t, i) == e
    ensures ExpEnd(t[..e], i) == e
  {
    if i < e {
      var j := if i + 1 < |t| && (t[i + 1] == PLUS || t[i + 1] == MINUS) then i + 2 else i + 1;
      DigitsEndPrefix(t, j, e);
    }
  }

  /** What is read as a number is one. */
  lemma NumberEndIsNumber(t: Text)
    requires NumberEnd(t) > 0
    ensures IsNumber(t[..NumberEnd(t)])
  {
    var e := NumberEnd(t);
    var s := if t[0] == MINUS then 1 else 0;
    var i := IntEnd(t, s);
    IntEndPrefix(t, s, e);
    FracEndPrefix(t, i, e);
    ExpEndPrefix(t, FracEnd(t, i), e);
  }

  lemma NumberStarts(t: Text)
    requires IsNumber(t)
    ensures t[0] == MINUS || IsDigit(t[0])
  {
  }
}
