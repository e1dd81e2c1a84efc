/** JSON values and the printer of pegasus/www/js/json2.js: quote, str and JSON.stringify. */
module Json {
  import opened JsonText

  lemma ZeroIsNumber()
    ensures IsNumber([ZERO])
  {
  }

  /** What String(value) gives for a finite number. */
  type Numeral = t: Text | IsNumber(t) witness (ZeroIsNumber(); [ZERO])

  // ---------------------------------------------------------------- values

  /** Numbers are their literals; NotFinite is NaN or an infinity. */
  datatype Json =
    | Null
    | Bool(b: bool)
    | Number(literal: Numeral)
    | NotFinite
    | String(s: Text)
    | Array(items: seq<Json>)
    | Object(members: seq<Member>)

  datatype Member = Member(key: Text, value: Json)

  /** No number in the value is NaN or infinite. */
  ghost predicate Finite(v: Json) {
    match v
    case NotFinite => false
    case Array(items) => forall i :: 0 <= i < |items| ==> Finite(items[i])
    case Object(members) => forall i :: 0 <= i < |members| ==> Finite(members[i].value)
    case _ => true
  }

  // ---------------------------------------------------------------- quote

  /** The characters of cx: they upset JavaScript's own reading of source text. */
  predicate IsCx(u: Unit) {
    || u == 0 || u == 0xAD || 0x600 <= u <= 0x604 || u == 0x70F || u == 0x17B4 || u == 0x17B5
    || 0x200C <= u <= 0x200F || 0x2028 <= u <= 0x202F || 0x2060 <= u <= 0x206F || u == 0xFEFF
    || 0xFFF0 <= u <= 0xFFFF
  }

  predicate IsEscapable(u: Unit) {
    u == BACKSLASH || u == QUOTE || 0 <= u <= 0x1F || 0x7F <= u <= 0x9F || IsCx(u)
  }

  function HexDigit(d: nat): Unit
    requires d < 16
  {
    if d < 10 then 0x30 + d else 0x61 + d - 10
  }

  /** toString(16). */
  function ToHex(n: nat): (t: Text)
    ensures |t| > 0
  {
    if n < 16 then [HexDigit(n)] else ToHex(n / 16) + [HexDigit(n % 16)]
  }

  function LastFour(t: Text): Text
    requires |t| >= 4
  {
    t[|t| - 4..]
  }

  function Hex4(u: Unit): (t: Text)
    ensures |t| == 4
  {
    LastFour([ZERO, ZERO, ZERO, ZERO] + ToHex(u))
  }

  lemma Hex4Digits(u: Unit)
    ensures Hex4(u) == [HexDigit(u / 16 / 16 / 16), HexDigit(u / 16 / 16 % 16), HexDigit(u / 16 % 16), HexDigit(u % 16)]
  {
    var a := u / 16;
    var b := a / 16;
    if b == 0 {
      ToHexTwo(a, u % 16);
    } else {
      ToHexThree(b, a % 16, u % 16);
      ToHexTwo(b / 16, b % 16);
    }
  }

  lemma ToHexOne(n: nat)
    requires n < 16
    ensures ToHex(n) == [HexDigit(n)]
  {
  }

  lemma ToHexStep(y: nat, z: nat)
    requires y > 0 && z < 16
    ensures ToHex(16 * y + z) == ToHex(y) + [HexDigit(z)]
  {
    var n := 16 * y + z;
    assert n >= 16 && n / 16 == y && n % 16 == z;
  }

  lemma ToHexTwo(y: nat, z: nat)
    requires y < 16 && z < 16
    ensures ToHex(16 * y + z) == if y == 0 then [HexDigit(z)] else [HexDigit(y), HexDigit(z)]
  {
    ToHexOne(y);
    if y == 0 {
      ToHexOne(z);
    } else {
      ToHexStep(y, z);
    }
  }

  lemma ToHexThree(b: nat, y: nat, z: nat)
    requires b > 0 && y < 16 && z < 16
    ensures ToHex(16 * (16 * b + y) + z) == ToHex(b) + [HexDigit(y), HexDigit(z)]
  {
    ToHexStep(b, y);
    ToHexStep(16 * b + y, z);
  }

  /** The substitution of one character. */
  function EscapeUnit(u: Unit): Text {
    if !IsEscapable(u) then [u]
    else if u == BS then [BACKSLASH, U('b')]
    else if u == TAB then [BACKSLASH, U('t')]
    else if u == LF then [BACKSLASH, U('n')]
    else if u == FF then [BACKSLASH, U('f')]
    else if u == CR then [BACKSLASH, U('r')]
    else if u == QUOTE then [BACKSLASH, QUOTE]
    else if u == BACKSLASH then [BACKSLASH, BACKSLASH]
    else [BACKSLASH, SMALL_U] + Hex4(u)
  }

  function Escape(s: Text): Text {
    if s == [] then [] else EscapeUnit(s[0]) + Escape(s[1..])
  }

  /** One unit as it is, two for the seven short escapes, six for the others, in lower case. */
  lemma EscapeForms(u: Unit)
    ensures var t := EscapeUnit(u);
            && |t| == (if !IsEscapable(u) then 1 else if u in {BS, TAB, LF, FF, CR, QUOTE, BACKSLASH} then 2 else 6)
            && forall i :: 2 <= i < |t| ==> 0x30 <= t[i] <= 0x39 || 0x61 <= t[i] <= 0x66
  {
    Hex4Digits(u);
  }

  /** A control character, of ASCII or of its upper half. */
  predicate IsControl(u: Unit) {
    u < 0x20 || 0x7F <= u < 0xA0
  }

  /** No quoted text has control characters in it. */
  lemma {:induction false} EscapeHasNoControls(s: Text)
    ensures forall i :: 0 <= i < |Escape(s)| ==> !IsControl(Escape(s)[i])
    decreases |s|
  {
    if s != [] {
      EscapeForms(s[0]);
      EscapeHasNoControls(s[1..]);
    }
  }

  predicate NeedsEscape(s: Text) {
    exists i :: 0 <= i < |s| && IsEscapable(s[i])
  }

  /** quote: the text as it is between quotes, or with its offending characters replaced. */
  function Quote(s: Text): Text {
    if NeedsEscape(s) then [QUOTE] + Escape(s) + [QUOTE] else [QUOTE] + s + [QUOTE]
  }

  lemma {:induction false} EscapeOfPlain(s: Text)
    requires !NeedsEscape(s)
    ensures Escape(s) == s
  {
    if s != [] {
      assert forall i :: 0 <= i < |s[1..]| ==> s[1..][i] == s[i + 1];
      EscapeOfPlain(s[1..]);
      assert s == [s[0]] + s[1..];
    }
  }

  lemma QuoteEscapes(s: Text)
    ensures Quote(s) == [QUOTE] + Escape(s) + [QUOTE]
  {
    if !NeedsEscape(s) {
      EscapeOfPlain(s);
    }
  }

  // ---------------------------------------------------------------- str

  /** Array.prototype.join. */
  function Join(ts: seq<Text>, sep: Text): Text {
    if ts == [] then [] else if |ts| == 1 then ts[0] else ts[0] + sep + Join(ts[1..], sep)
  }

  /** Parts between brackets, one to a line when the depth has an indentation. */
  function Enclosed(open: Unit, ts: seq<Text>, close: Unit, gap: Text, deep: Text): Text {
    if ts == [] then [open, close]
    else if deep != [] then [open, LF] + deep + Join(ts, [COMMA, LF] + deep) + [LF] + gap + [close]
    else [open] + Join(ts, [COMMA]) + [close]
  }

  /** The text of a value that stands at indentation gap. */
  function Printed(v: Json, gap: Text, indent: Text): (t: Text)
    ensures t != []
    decreases v, 0
  {
    match v
    case Null => NULL_TEXT
    case Bool(b) => if b then TRUE_TEXT else FALSE_TEXT
    case Number(literal) => literal
    case NotFinite => NULL_TEXT
    case String(s) => Quote(s)
    case Array(items) => Enclosed(LBRACKET, ItemTexts(items, gap + indent, indent), RBRACKET, gap, gap + indent)
    case Object(members) => Enclosed(LBRACE, MemberTexts(members, gap + indent, indent), RBRACE, gap, gap + indent)
  }

  function ItemTexts(items: seq<Json>, deep: Text, indent: Text): (ts: seq<Text>)
    ensures |ts| == |items|
    decreases items, 1
  {
    seq(|items|, i requires 0 <= i < |items| => Printed(items[i], deep, indent))
  }

  function Colon(deep: Text): Text {
    if deep != [] then [COLON, SPACE] else [COLON]
  }

  function MemberText(m: Member, deep: Text, indent: Text): Text
    decreases m, 1
  {
    Quote(m.key) + Colon(deep) + Printed(m.value, deep, indent)
  }

  function MemberTexts(members: seq<Member>, deep: Text, indent: Text): (ts: seq<Text>)
    ensures |ts| == |members|
    decreases members, 1
  {
    seq(|members|, i requires 0 <= i < |members| => MemberText(members[i], deep, indent))
  }

  /** The space argument of JSON.stringify. */
  datatype Space = Absent | Count(n: int) | Text(t: Text)

  function Blanks(n: int): (t: Text)
    ensures |t| == if n < 0 then 0 else n
    ensures forall i :: 0 <= i < |t| ==> t[i] == SPACE
  {
    seq(if n < 0 then 0 else n, _ => SPACE)
  }

  function IndentOf(space: Space): (t: Text)
    ensures space.Absent? ==> t == []
    ensures space.Count? ==> |t| == (if space.n < 0 then 0 else space.n) && forall i :: 0 <= i < |t| ==> t[i] == SPACE
    ensures space.Text? ==> t == space.t
  {
    match space
    case Absent => []
    case Count(n) => Blanks(n)
    case Text(t) => t
  }

  /** The state that str shares between its calls. */
  class Printer {
    var gap: Text
    var indent: Text

    constructor ()
      ensures gap == [] && indent == []
    {
      gap, indent := [], [];
    }

    /** str (json2.js:228-354): whatever it does to gap on the way down is undone on return. */
    method Str(value: Json) returns (v: Text)
      modifies this`gap
      ensures v == Printed(value, old(gap), indent)
      ensures gap == old(gap)
      decreases value, 1
    {
      match value
      case String(s) => v := Quote(s);
      case Number(literal) => v := literal;
      case NotFinite => v := NULL_TEXT;
      case Bool(b) => v := if b then TRUE_TEXT else FALSE_TEXT;
      case Null => v := NULL_TEXT;
      case Array(items) =>
        var mind := gap;
        gap := gap + indent;
        var partial := StrItems(value);
        v := if |partial| == 0 then [LBRACKET, RBRACKET]
             else if gap != [] then [LBRACKET, LF] + gap + Join(partial, [COMMA, LF] + gap) + [LF] + mind + [RBRACKET]
             else [LBRACKET] + Join(partial, [COMMA]) + [RBRACKET];
        gap := mind;
      case Object(members) =>
        var mind := gap;
        gap := gap + indent;
        var partial := StrMembers(value);
        v := if |partial| == 0 then [LBRACE, RBRACE]
             else if gap != [] then [LBRACE, LF] + gap + Join(partial, [COMMA, LF] + gap) + [LF] + mind + [RBRACE]
             else [LBRACE] + Join(partial, [COMMA]) + [RBRACE];
        gap := mind;
    }

    /** The loop of json2.js:299-302. */
    method StrItems(value: Json) returns (partial: seq<Text>)
      requires value.Array?
      modifies this`gap
      ensures partial == ItemTexts(value.items, old(gap), indent)
      ensures gap == old(gap)
      decreases value, 0
    {
      partial := [];
      var i := 0;
      while i < |value.items|
        invariant 0 <= i <= |value.items| && |partial| == i
        invariant gap == old(gap)
        invariant forall k :: 0 <= k < i ==> partial[k] == Printed(value.items[k], gap, indent)
      {
        var t := Str(value.items[i]);
        partial := partial + [if t != [] then t else NULL_TEXT];
        i := i + 1;
      }
    }

    /** The loop of json2.js:333-340, for an object's own members in their order. */
    method StrMembers(value: Json) returns (partial: seq<Text>)
      requires value.Object?
      modifies this`gap
      ensures partial == MemberTexts(value.members, old(gap), indent)
      ensures gap == old(gap)
      decreases value, 0
    {
      partial := [];
      var i := 0;
      while i < |value.members|
        invariant 0 <= i <= |value.members| && |partial| == i
        invariant gap == old(gap)
        invariant forall k :: 0 <= k < i ==> partial[k] == MemberText(value.members[k], gap, indent)
      {
        var m := value.members[i];
        var t := Str(m.value);
        if t != [] {
          partial := partial + [Quote(m.key) + (if gap != [] then [COLON, SPACE] else [COLON]) + t];
        }
        i := i + 1;
      }
    }

    /** JSON.stringify without a replacer (json2.js:359-399). */
    method Stringify(value: Json, space: Space) returns (v: Text)
      modifies this
      ensures v == Printed(value, [], IndentOf(space))
      ensures gap == []
    {
      gap := [];
      indent := [];
      match space {
        case Absent =>
        case Count(n) =>
          var i := 0;
          while i < n
            invariant 0 <= i && (i <= n || i == 0)
            invariant indent == Blanks(i)
            invariant gap == []
          {
            indent := indent + [SPACE];
            i := i + 1;
          }
          assert indent == Blanks(n);
        case Text(t) =>
          indent := t;
      }
      v := Str(value);
    }
  }
}
