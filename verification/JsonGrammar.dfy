/** The JSON grammar of RFC 8259 sections 2 to 7 as a recursive-descent reader.

    It is the reference that printed text is judged by; json2.js itself hands the text to the
    language's own evaluator. */
module JsonGrammar {
  import opened Collections
  import opened JsonText
  import opened Json

  function SkipWs(t: Text): (r: Text)
    ensures |r| <= |t|
    ensures r != [] ==> !IsWs(r[0])
    decreases |t|
  {
    if t != [] && IsWs(t[0]) then SkipWs(t[1..]) else t
  }

  // ---------------------------------------------------------------- strings (section 7)

  predicate IsHex(u: Unit) {
    IsDigit(u) || 0x61 <= u <= 0x66 || 0x41 <= u <= 0x46
  }

  function HexValue(u: Unit): (d: nat)
    requires IsHex(u)
    ensures d < 16
  {
    if IsDigit(u) then u - 0x30 else if u >= 0x61 then u - 0x61 + 10 else u - 0x41 + 10
  }

  /** The unit that a two-character escape stands for. */
  function Unescape(u: Unit): Option<Unit> {
    if u == QUOTE || u == BACKSLASH || u == U('/') then Some(u)
    else if u == U('b') then Some(BS)
    else if u == U('f') then Some(FF)
    else if u == U('n') then Some(LF)
    else if u == U('r') then Some(CR)
    else if u == U('t') then Some(TAB)
    else None
  }

  /** The first character of a string's body and what follows it. */
  function ReadUnit(t: Text): (r: Option<(Unit, Text)>)
    ensures r.Some? ==> |r.value.1| < |t|
  {
    if t == [] then None
    else if t[0] == BACKSLASH then
      if |t| >= 6 && t[1] == SMALL_U then
        if IsHex(t[2]) && IsHex(t[3]) && IsHex(t[4]) && IsHex(t[5]) then
          Some((4096 * HexValue(t[2]) + 256 * HexValue(t[3]) + 16 * HexValue(t[4]) + HexValue(t[5]), t[6..]))
        else None
      else if |t| >= 2 && Unescape(t[1]).Some? then Some((Unescape(t[1]).value, t[2..]))
      else None
    else if t[0] < 0x20 || t[0] == QUOTE then None
    else Some((t[0], t[1..]))
  }

  /** The body of a string and its closing quotation mark. */
  function ReadChars(t: Text): (r: Option<(Text, Text)>)
    ensures r.Some? ==> |r.value.1| < |t|
    decreases |t|
  {
    if t != [] && t[0] == QUOTE then Some(([], t[1..]))
    else
      match ReadUnit(t)
      case None => None
      case Some((u, t')) =>
        match ReadChars(t')
        case None => None
        case Some((s, rest)) => Some(([u] + s, rest))
  }

  // ---------------------------------------------------------------- values (sections 3 to 6)

  predicate Leads(t: Text, word: Text) {
    word <= t
  }

  function ReadNumber(t: Text): (r: Option<(Json, Text)>)
    ensures r.Some? ==> |r.value.1| < |t| && Finite(r.value.0)
  {
    if NumberEnd(t) == 0 then None
    else
      NumberEndIsNumber(t);
      Some((Number(t[..NumberEnd(t)]), t[NumberEnd(t)..]))
  }

  /** A literal name or a number. */
  function ReadScalar(t: Text): (r: Option<(Json, Text)>)
    ensures r.Some? ==> |r.value.1| < |t| && Finite(r.value.0)
  {
    if Leads(t, NULL_TEXT) then Some((Null, t[4..]))
    else if Leads(t, TRUE_TEXT) then Some((Bool(true), t[4..]))
    else if Leads(t, FALSE_TEXT) then Some((Bool(false), t[5..]))
    else ReadNumber(t)
  }

  function ReadValue(t: Text): (r: Option<(Json, Text)>)
    ensures r.Some? ==> |r.value.1| < |t| && Finite(r.value.0)
    decreases |t|, 0
  {
    if t == [] then None
    else if t[0] == QUOTE then
      match ReadChars(t[1..])
      case None => None
      case Some((s, rest)) => Some((String(s), rest))
    else if t[0] == LBRACKET then
      var t1 := SkipWs(t[1..]);
      if t1 != [] && t1[0] == RBRACKET then Some((Array([]), t1[1..]))
      else
        match ReadItems(t1)
        case None => None
        case Some((items, rest)) => Some((Array(items), rest))
    else if t[0] == LBRACE then
      var t1 := SkipWs(t[1..]);
      if t1 != [] && t1[0] == RBRACE then Some((Object([]), t1[1..]))
      else
        match ReadMembers(t1)
        case None => None
        case Some((members, rest)) => Some((Object(members), rest))
    else ReadScalar(t)
  }

  /** Values separated by commas, up to the closing bracket. */
  function ReadItems(t: Text): (r: Option<(seq<Json>, Text)>)
    ensures r.Some? ==> |r.value.1| < |t| && forall i :: 0 <= i < |r.value.0| ==> Finite(r.value.0[i])
    decreases |t|, 1
  {
    match ReadValue(t)
    case None => None
    case Some((v, t')) =>
      var t1 := SkipWs(t');
      if t1 == [] then None
      else if t1[0] == RBRACKET then Some(([v], t1[1..]))
      else if t1[0] != COMMA then None
      else
        match ReadItems(SkipWs(t1[1..]))
        case None => None
        case Some((items, rest)) => Some(([v] + items, rest))
  }

  /** A name, a colon and a value. */
  function ReadMember(t: Text): (r: Option<(Member, Text)>)
    ensures r.Some? ==> |r.value.1| < |t| && Finite(r.value.0.value)
    decreases |t|, 1
  {
    if t == [] || t[0] != QUOTE then None
    else
      match ReadChars(t[1..])
      case None => None
      case Some((key, t')) =>
        var t1 := SkipWs(t');
        if t1 == [] || t1[0] != COLON then None
        else
          match ReadValue(SkipWs(t1[1..]))
          case None => None
          case Some((v, rest)) => Some((Member(key, v), rest))
  }

  /** Members separated by commas, up to the closing brace. */
  function ReadMembers(t: Text): (r: Option<(seq<Member>, Text)>)
    ensures r.Some? ==> |r.value.1| < |t| && forall i :: 0 <= i < |r.value.0| ==> Finite(r.value.0[i].value)
    decreases |t|, 2
  {
    match ReadMember(t)
    case None => None
    case Some((m, t')) =>
      var t1 := SkipWs(t');
      if t1 == [] then None
      else if t1[0] == RBRACE then Some(([m], t1[1..]))
      else if t1[0] != COMMA then None
      else
        match ReadMembers(SkipWs(t1[1..]))
        case None => None
        case Some((members, rest)) => Some(([m] + members, rest))
  }

  /** JSON-text = ws value ws. */
  function Read(t: Text): (r: Option<Json>)
    ensures r.Some? ==> Finite(r.value)
  {
    match ReadValue(SkipWs(t))
    case None => None
    case Some((v, rest)) => if SkipWs(rest) == [] then Some(v) else None
  }
}
