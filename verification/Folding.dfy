/** Text helpers of the command-line client (pegasus/src/Clients/cimcli/CIMCLICommon.cpp):
    splitting at a separator and folding into lines. */
module Folding {
  import opened Collections

  // ---------------------------------------------------------------- splitting

  function Join(tokens: seq<string>, separator: char): string
    requires tokens != []
  {
    if |tokens| == 1 then tokens[0] else tokens[0] + [separator] + Join(tokens[1..], separator)
  }

  predicate Free(tokens: seq<string>, separator: char) {
    forall i :: 0 <= i < |tokens| ==> separator !in tokens[i]
  }

  lemma {:induction false} JoinAppend(tokens: seq<string>, t: string, separator: char)
    requires tokens != []
    ensures Join(tokens + [t], separator) == Join(tokens, separator) + [separator] + t
    decreases |tokens|
  {
    assert (tokens + [t])[1..] == tokens[1..] + [t];
    if |tokens| == 1 {
      assert tokens[1..] + [t] == [t];
    } else {
      JoinAppend(tokens[1..], t, separator);
      var a, b := tokens[0] + [separator], Join(tokens[1..], separator);
      assert a + (b + [separator] + t) == (a + b) + [separator] + t;
    }
  }

  /** Index of the first separator from start on, or -1 for PEG_NOT_FOUND. */
  function Find(s: string, start: nat, c: char): (p: int)
    requires start <= |s|
    ensures p == -1 || (start <= p < |s| && s[p] == c)
    ensures c !in s[start..if p == -1 then |s| else p]
    decreases |s| - start
  {
    if start == |s| then -1
    else if s[start] == c then start
    else
      var p := Find(s, start + 1, c);
      var e := if p == -1 then |s| else p;
      assert s[start..e] == [s[start]] + s[start + 1..e];
      p
  }

  lemma FirstSeparator(t: string, rest: string, separator: char)
    requires separator !in t
    ensures Find(t + [separator] + rest, 0, separator) == |t|
  {
    FirstSeparatorFrom(t, rest, separator, 0);
  }

  lemma {:induction false} FirstSeparatorFrom(t: string, rest: string, separator: char, i: nat)
    requires separator !in t && i <= |t|
    ensures Find(t + [separator] + rest, i, separator) == |t|
    decreases |t| - i
  {
    if i < |t| {
      assert (t + [separator] + rest)[i] == t[i];
      FirstSeparatorFrom(t, rest, separator, i + 1);
    }
  }

  /** A text has one splitting into separator-free tokens. */
  lemma {:induction false} SplittingIsUnique(a: seq<string>, b: seq<string>, separator: char)
    requires a != [] && b != [] && Free(a, separator) && Free(b, separator)
    requires Join(a, separator) == Join(b, separator)
    ensures a == b
    decreases |a|
  {
    if |a| > 1 {
      FirstSeparator(a[0], Join(a[1..], separator), separator);
    }
    if |b| > 1 {
      FirstSeparator(b[0], Join(b[1..], separator), separator);
    }
    assert |a| == 1 ==> separator !in Join(a, separator);
    assert |b| == 1 ==> separator !in Join(b, separator);
    if |a| > 1 && |b| > 1 {
      var s := Join(a, separator);
      assert s[..|a[0]|] == a[0] && s[..|b[0]|] == b[0];
      assert s[|a[0]| + 1..] == Join(a[1..], separator) && s[|b[0]| + 1..] == Join(b[1..], separator);
      SplittingIsUnique(a[1..], b[1..], separator);
      assert a == [a[0]] + a[1..] && b == [b[0]] + b[1..];
    }
  }

  /** The tokens taken so far, each with its separator, are the input up to start. */
  predicate Taken(input: string, start: nat, tokens: seq<string>, separator: char) {
    start <= |input| && if tokens == [] then start == 0 else input[..start] == Join(tokens, separator) + [separator]
  }

  lemma TakeToken(input: string, start: nat, end: nat, tokens: seq<string>, separator: char)
    requires Taken(input, start, tokens, separator) && start <= end < |input| && input[end] == separator
    ensures Taken(input, end + 1, tokens + [input[start..end]], separator)
  {
    var token := input[start..end];
    assert input[..end + 1] == input[..start] + token + [separator];
    if tokens == [] {
      assert tokens + [token] == [token] && input[..0] + token == token;
    } else {
      JoinAppend(tokens, token, separator);
    }
  }

  lemma TakeRest(input: string, start: nat, tokens: seq<string>, separator: char)
    requires Taken(input, start, tokens, separator)
    ensures Join(tokens + [input[start..]], separator) == input
  {
    var token := input[start..];
    assert input == input[..start] + token;
    if tokens == [] {
      assert tokens + [token] == [token] && token == input;
    } else {
      JoinAppend(tokens, token, separator);
    }
  }

  method Tokenize(input: string, separator: char, allTokens: bool) returns (tokens: seq<string>)
    ensures input == "" ==> tokens == []
    ensures input != "" ==> tokens != [] && Join(tokens, separator) == input
    ensures allTokens ==> Free(tokens, separator)
    ensures input != "" && !allTokens ==> separator !in tokens[0] && |tokens| == (if separator in input then 2 else 1)
  {
    tokens := [];
    if input != "" {
      var start: nat, length, end := 0, 0, 0;
      if allTokens {
        end := Find(input, start, separator);
        while end != -1
          invariant Taken(input, start, tokens, separator) && end == Find(input, start, separator)
          invariant Free(tokens, separator)
          decreases |input| - start
        {
          length := end - start;
          TakeToken(input, start, end, tokens, separator);
          tokens := tokens + [input[start..start + length]];
          start := start + length + 1;
          end := Find(input, start, separator);
        }
      } else {
        length := Find(input, start, separator);
        if length != -1 {
          TakeToken(input, start, length, tokens, separator);
          tokens := tokens + [input[start..start + length]];
          start := start + length + 1;
        }
      }
      if start <= |input| {
        TakeRest(input, start, tokens, separator);
        tokens := tokens + [input[start..]];
      }
    }
  }

  // ---------------------------------------------------------------- what folding is

  const BLANK: char := ' '
  const NEWLINE: char := '\n'

  function Blanks(count: nat): (s: string)
    ensures |s| == count && forall i :: 0 <= i < count ==> s[i] == BLANK
  {
    seq(count, i => BLANK)
  }

  /** A stretch of the input up to the next blank or newline, with the blank in front of it; `broken` when
      a newline of the input is in front, `folded` when folding puts one there. */
  datatype Piece = Piece(broken: bool, folded: bool, text: string)

  /** The text that was cut. */
  function Source(ps: seq<Piece>): string {
    if ps == [] then ""
    else
      var p := ps[|ps| - 1];
      Source(ps[..|ps| - 1]) + (if p.broken then [NEWLINE] else "") + p.text
  }

  function Last(lines: seq<string>): string
    requires lines != []
  {
    lines[|lines| - 1]
  }

  /** A new line with the indentation, if there is to be one. */
  function Begin(lines: seq<string>, begins: bool, startPos: nat): (r: seq<string>)
    requires lines != []
    ensures r != []
  {
    if begins then lines + [Blanks(startPos)] else lines
  }

  /** Text at the end of the last line. */
  function Extend(lines: seq<string>, text: string): (r: seq<string>)
    requires lines != []
    ensures r != []
  {
    lines[..|lines| - 1] + [Last(lines) + text]
  }

  /** The lines of the folded text: both kinds of breaks go to a new line. */
  function LinesOf(ps: seq<Piece>, startPos: nat): (lines: seq<string>)
    ensures lines != []
  {
    if ps == [] then [""]
    else
      var p := ps[|ps| - 1];
      Extend(Begin(Begin(LinesOf(ps[..|ps| - 1], startPos), p.broken, startPos), p.folded, startPos), p.text)
  }

  /** The pieces are cut at every blank and newline. */
  predicate IsCut(first: bool, p: Piece) {
    && NEWLINE !in p.text && (first ==> !p.broken)
    && if first || p.broken then BLANK !in p.text
       else p.text != "" && p.text[0] == BLANK && BLANK !in p.text[1..]
  }

  predicate AreCut(ps: seq<Piece>) {
    forall k :: 0 <= k < |ps| ==> IsCut(k == 0, ps[k])
  }

  /** A piece is folded exactly when the line would have foldPos characters or more with it. */
  predicate FoldsIfFull(before: seq<Piece>, p: Piece, startPos: nat, foldPos: nat) {
    p.folded <==> |Last(Begin(LinesOf(before, startPos), p.broken, startPos))| + |p.text| >= foldPos
  }

  predicate FoldsAt(ps: seq<Piece>, k: nat, startPos: nat, foldPos: nat)
    requires k < |ps|
  {
    FoldsIfFull(ps[..k], ps[k], startPos, foldPos)
  }

  predicate AllFold(ps: seq<Piece>, startPos: nat, foldPos: nat) {
    forall k :: 0 <= k < |ps| ==> FoldsAt(ps, k, startPos, foldPos)
  }

  /** So for all pieces, but for an empty one at the end of the input. */
  predicate FoldWhereFull(ps: seq<Piece>, startPos: nat, foldPos: nat) {
    ps != [] ==>
      var front, p := ps[..|ps| - 1], ps[|ps| - 1];
      AllFold(front, startPos, foldPos) && if p.text == "" then !p.folded else FoldsIfFull(front, p, startPos, foldPos)
  }

  /** The input, cut and laid out like this. */
  predicate IsFolding(input: string, ps: seq<Piece>, startPos: nat, foldPos: nat) {
    ps != [] && Source(ps) == input && AreCut(ps) && FoldWhereFull(ps, startPos, foldPos)
  }

  /** What is put out: the last line only if it is not as long as the indentation. */
  function OutputLines(ps: seq<Piece>, startPos: nat): (lines: seq<string>)
    ensures lines != []
  {
    var all := LinesOf(ps, startPos);
    if |Last(all)| == startPos then all[..|all| - 1] + [""] else all
  }

  // ---------------------------------------------------------------- there is one folding

  /** Two cuts of one text have the same last piece and cut the same text before it. */
  lemma SameLastPiece(ps: seq<Piece>, qs: seq<Piece>)
    requires ps != [] && qs != [] && AreCut(ps) && AreCut(qs) && Source(ps) == Source(qs)
    ensures var p, q := ps[|ps| - 1], qs[|qs| - 1];
            p.broken == q.broken && p.text == q.text && (|ps| == 1 <==> |qs| == 1)
    ensures Source(ps[..|ps| - 1]) == Source(qs[..|qs| - 1])
  {
    var a := LastCut(ps);
    var b := LastCut(qs);
    NothingBehind(Source(ps), a, b);
    NothingBehind(Source(ps), b, a);
  }

  lemma NothingBehind(s: string, at: nat, k: nat)
    requires at <= |s| && BLANK !in s[at..] && NEWLINE !in s[at..]
    ensures at < k <= |s| ==> s[k - 1] != BLANK && s[k - 1] != NEWLINE
  {
    assert at < k <= |s| ==> s[k - 1] == s[at..][k - 1 - at];
  }

  /** Where the last piece begins, behind its newline or blank. */
  lemma LastCut(ps: seq<Piece>) returns (at: nat)
    requires ps != [] && AreCut(ps)
    ensures at <= |Source(ps)| && BLANK !in Source(ps)[at..] && NEWLINE !in Source(ps)[at..]
    ensures at == 0 <==> |ps| == 1
    ensures at > 0 ==> Source(ps)[at - 1] == (if ps[|ps| - 1].broken then NEWLINE else BLANK)
    ensures at == 0 ==> ps[0].text == Source(ps) && !ps[0].broken
    ensures at > 0 ==> Source(ps)[..at - 1] == Source(ps[..|ps| - 1])
    ensures at > 0 ==> ps[|ps| - 1].text == (if ps[|ps| - 1].broken then "" else [BLANK]) + Source(ps)[at..]
  {
    var n := |ps| - 1;
    var p, front := ps[n], Source(ps[..n]);
    assert IsCut(n == 0, p);
    if n == 0 {
      assert ps[..0] == [];
      at := 0;
      assert Source(ps) == p.text && Source(ps)[0..] == p.text;
    } else {
      at := |front| + 1;
      if p.broken {
        assert Source(ps)[at..] == p.text;
      } else {
        assert Source(ps) == front + p.text;
        assert Source(ps)[at..] == p.text[1..];
        assert p.text == [BLANK] + p.text[1..];
      }
    }
  }

  lemma AreCutFront(ps: seq<Piece>)
    requires ps != [] && AreCut(ps)
    ensures AreCut(ps[..|ps| - 1])
  {
  }

  /** There is only one way to cut a text. */
  lemma {:induction false} CutIsUnique(ps: seq<Piece>, qs: seq<Piece>)
    requires ps != [] && qs != [] && AreCut(ps) && AreCut(qs) && Source(ps) == Source(qs)
    ensures |ps| == |qs|
    ensures forall k :: 0 <= k < |ps| ==> ps[k].broken == qs[k].broken && ps[k].text == qs[k].text
    decreases |ps|
  {
    SameLastPiece(ps, qs);
    if |ps| > 1 {
      AreCutFront(ps);
      AreCutFront(qs);
      CutIsUnique(ps[..|ps| - 1], qs[..|qs| - 1]);
    }
  }

  lemma {:induction false} SameFolds(ps: seq<Piece>, qs: seq<Piece>, startPos: nat, foldPos: nat)
    requires |ps| == |qs| && AllFold(ps, startPos, foldPos) && AllFold(qs, startPos, foldPos)
    requires forall k :: 0 <= k < |ps| ==> ps[k].broken == qs[k].broken && ps[k].text == qs[k].text
    ensures ps == qs
  {
    if ps != [] {
      var n := |ps| - 1;
      AllFoldFront(ps, startPos, foldPos);
      AllFoldFront(qs, startPos, foldPos);
      SameFolds(ps[..n], qs[..n], startPos, foldPos);
      assert FoldsAt(ps, n, startPos, foldPos) && FoldsAt(qs, n, startPos, foldPos);
      SplitLast(ps);
      SplitLast(qs);
    }
  }

  lemma AllFoldFront(ps: seq<Piece>, startPos: nat, foldPos: nat)
    requires ps != [] && AllFold(ps, startPos, foldPos)
    ensures AllFold(ps[..|ps| - 1], startPos, foldPos)
  {
    var n := |ps| - 1;
    forall k | 0 <= k < n ensures FoldsAt(ps[..n], k, startPos, foldPos) {
      TakeOfTake(ps, n, k);
      assert FoldsAt(ps, k, startPos, foldPos);
    }
  }

  /** So a text has one folding. */
  lemma FoldingIsUnique(input: string, ps: seq<Piece>, qs: seq<Piece>, startPos: nat, foldPos: nat)
    requires IsFolding(input, ps, startPos, foldPos) && IsFolding(input, qs, startPos, foldPos)
    ensures ps == qs
  {
    CutIsUnique(ps, qs);
    var n := |ps| - 1;
    SameFolds(ps[..n], qs[..n], startPos, foldPos);
    SplitLast(ps);
    SplitLast(qs);
  }

  // ---------------------------------------------------------------- what a folding keeps

  /** The characters that are neither blanks nor newlines. */
  function Ink(s: string): string {
    if s == "" then ""
    else if s[|s| - 1] == BLANK || s[|s| - 1] == NEWLINE then Ink(s[..|s| - 1])
    else Ink(s[..|s| - 1]) + [s[|s| - 1]]
  }

  lemma {:induction false} InkAppend(a: string, b: string)
    ensures Ink(a + b) == Ink(a) + Ink(b)
    decreases |b|
  {
    if b == "" {
      assert a + b == a;
    } else {
      assert (a + b)[..|a + b| - 1] == a + b[..|b| - 1];
      InkAppend(a, b[..|b| - 1]);
    }
  }

  lemma {:induction false} BlanksHaveNoInk(s: string)
    requires forall i :: 0 <= i < |s| ==> s[i] == BLANK
    ensures Ink(s) == ""
  {
    if s != "" {
      BlanksHaveNoInk(s[..|s| - 1]);
    }
  }

  /** Complete lines, each with its newline. */
  function Flat(lines: seq<string>): string {
    if lines == [] then "" else Flat(lines[..|lines| - 1]) + Last(lines) + [NEWLINE]
  }

  /** The lines with newlines between them. */
  function TextOf(lines: seq<string>): string
    requires lines != []
  {
    Flat(lines[..|lines| - 1]) + Last(lines)
  }

  lemma {:induction false} FlatIsJoin(lines: seq<string>)
    requires lines != []
    ensures Flat(lines) == Join(lines, NEWLINE) + [NEWLINE] && TextOf(lines) == Join(lines, NEWLINE)
    decreases |lines|
  {
    var n := |lines| - 1;
    if n == 0 {
      assert lines[..0] == [];
    } else {
      FlatIsJoin(lines[..n]);
      SplitLast(lines);
      JoinAppend(lines[..n], lines[n], NEWLINE);
    }
  }

  lemma TextOfExtend(lines: seq<string>, text: string)
    requires lines != []
    ensures TextOf(Extend(lines, text)) == TextOf(lines) + text
  {
    assert Extend(lines, text)[..|lines| - 1] == lines[..|lines| - 1];
  }

  lemma TextOfBegin(lines: seq<string>, begins: bool, startPos: nat)
    requires lines != []
    ensures TextOf(Begin(lines, begins, startPos))
            == TextOf(lines) + if begins then [NEWLINE] + Blanks(startPos) else ""
  {
    if begins {
      assert (lines + [Blanks(startPos)])[..|lines|] == lines;
    }
  }

  lemma InkOfNewLine(startPos: nat)
    ensures Ink([NEWLINE] + Blanks(startPos)) == "" && Ink([NEWLINE]) == ""
  {
    InkAppend([NEWLINE], Blanks(startPos));
    BlanksHaveNoInk(Blanks(startPos));
    assert [NEWLINE][..0] == "";
  }

  lemma InkOfBreak(before: string, breaks: bool, startPos: nat)
    ensures Ink(before + (if breaks then [NEWLINE] + Blanks(startPos) else "")) == Ink(before)
    ensures Ink(before + (if breaks then [NEWLINE] else "")) == Ink(before)
  {
    InkOfNewLine(startPos);
    InkAppend(before, if breaks then [NEWLINE] + Blanks(startPos) else "");
    InkAppend(before, if breaks then [NEWLINE] else "");
  }

  /** Folding loses and adds only blanks and newlines. */
  lemma {:induction false} InkOfLines(ps: seq<Piece>, startPos: nat)
    ensures Ink(TextOf(LinesOf(ps, startPos))) == Ink(Source(ps))
    decreases |ps|
  {
    if ps == [] {
      assert [""][..0] == [];
    } else {
      var p, front := ps[|ps| - 1], ps[..|ps| - 1];
      var lines := LinesOf(front, startPos);
      InkOfLines(front, startPos);
      TextOfBegin(lines, p.broken, startPos);
      TextOfBegin(Begin(lines, p.broken, startPos), p.folded, startPos);
      TextOfExtend(Begin(Begin(lines, p.broken, startPos), p.folded, startPos), p.text);
      InkOfBreak(TextOf(lines), p.broken, startPos);
      InkOfBreak(TextOf(Begin(lines, p.broken, startPos)), p.folded, startPos);
      InkAppend(TextOf(Begin(Begin(lines, p.broken, startPos), p.folded, startPos)), p.text);
      InkOfBreak(Source(front), p.broken, startPos);
      InkAppend(Source(front) + (if p.broken then [NEWLINE] else ""), p.text);
    }
  }

  /** Undoing the folds and no other breaks, newline and indentation, gives the input back. */
  lemma {:induction false} UnfoldedIsSource(ps: seq<Piece>)
    ensures TextOf(LinesOf(Unfolded(ps), 0)) == Source(ps)
    decreases |ps|
  {
    var qs := Unfolded(ps);
    if ps == [] {
      assert [""][..0] == [];
    } else {
      var p, front := ps[|ps| - 1], ps[..|ps| - 1];
      var lines := LinesOf(Unfolded(front), 0);
      assert qs[..|qs| - 1] == Unfolded(front);
      UnfoldedIsSource(front);
      TextOfBegin(lines, p.broken, 0);
      TextOfExtend(Begin(lines, p.broken, 0), p.text);
      assert [NEWLINE] + Blanks(0) == [NEWLINE];
    }
  }

  function Unfolded(ps: seq<Piece>): (qs: seq<Piece>)
    ensures |qs| == |ps|
  {
    seq(|ps|, k requires 0 <= k < |ps| => ps[k].(folded := false))
  }

  /** At most one word, with at most one blank in front. */
  predicate IsWord(w: string) {
    NEWLINE !in w && forall i :: 0 < i < |w| ==> w[i] != BLANK
  }

  predicate Indented(line: string, startPos: nat, w: string) {
    IsWord(w) && line == Blanks(startPos) + w
  }

  /** Short, or the indentation with at most one word; the first line may also be empty. */
  ghost predicate GoodLine(line: string, startPos: nat, foldPos: nat) {
    NEWLINE !in line && (line == "" || |line| < foldPos || exists w :: Indented(line, startPos, w))
  }

  ghost predicate GoodLines(lines: seq<string>, startPos: nat, foldPos: nat) {
    forall i :: 0 <= i < |lines| ==> GoodLine(lines[i], startPos, foldPos)
  }

  /** Every line but the first starts with the indentation; after a final newline nothing follows. */
  ghost predicate IndentedLines(lines: seq<string>, startPos: nat) {
    forall k :: 1 <= k < |lines| ==> Blanks(startPos) <= lines[k] || (k == |lines| - 1 && lines[k] == "")
  }

  ghost predicate AllIndented(lines: seq<string>, startPos: nat) {
    forall k :: 1 <= k < |lines| ==> Blanks(startPos) <= lines[k]
  }

  /** The texts that are lost: one line whose length is exactly the indentation. */
  predicate Dropped(input: string, startPos: nat, foldPos: nat) {
    input != "" && NEWLINE !in input && |input| == startPos < foldPos
  }

  lemma PieceIsWord(first: bool, p: Piece)
    requires IsCut(first, p)
    ensures IsWord(p.text)
  {
    if !(first || p.broken) {
      assert forall i :: 0 < i < |p.text| ==> p.text[i] == p.text[1..][i - 1];
    }
  }

  lemma GoodBegin(lines: seq<string>, begins: bool, startPos: nat, foldPos: nat)
    requires lines != [] && GoodLines(lines, startPos, foldPos) && AllIndented(lines, startPos)
    ensures GoodLines(Begin(lines, begins, startPos), startPos, foldPos)
    ensures AllIndented(Begin(lines, begins, startPos), startPos)
  {
    assert Blanks(startPos) + "" == Blanks(startPos);
    assert Indented(Blanks(startPos), startPos, "");
  }

  /** A word keeps a line good that it fits on, or that is only indentation. */
  lemma GoodExtend(lines: seq<string>, text: string, startPos: nat, foldPos: nat)
    requires lines != [] && GoodLines(lines, startPos, foldPos) && AllIndented(lines, startPos) && IsWord(text)
    requires text == "" || |Last(lines)| + |text| < foldPos || Last(lines) == Blanks(startPos)
    ensures GoodLines(Extend(lines, text), startPos, foldPos) && AllIndented(Extend(lines, text), startPos)
  {
    var line := Last(lines);
    assert GoodLine(line, startPos, foldPos);
    assert text == "" ==> line + text == line;
    if line == Blanks(startPos) {
      assert Indented(line + text, startPos, text);
    }
    assert GoodLine(line + text, startPos, foldPos);
  }

  lemma GoodPiece(lines: seq<string>, p: Piece, startPos: nat, foldPos: nat)
    requires lines != [] && GoodLines(lines, startPos, foldPos) && AllIndented(lines, startPos) && IsWord(p.text)
    requires p.text == "" || p.folded || |Last(Begin(lines, p.broken, startPos))| + |p.text| < foldPos
    ensures var r := Extend(Begin(Begin(lines, p.broken, startPos), p.folded, startPos), p.text);
            GoodLines(r, startPos, foldPos) && AllIndented(r, startPos)
  {
    GoodBegin(lines, p.broken, startPos, foldPos);
    GoodBegin(Begin(lines, p.broken, startPos), p.folded, startPos, foldPos);
    GoodExtend(Begin(Begin(lines, p.broken, startPos), p.folded, startPos), p.text, startPos, foldPos);
  }

  /** No piece is put on a line that it does not fit on. */
  predicate Fits(before: seq<Piece>, p: Piece, startPos: nat, foldPos: nat) {
    p.text == "" || p.folded || |Last(Begin(LinesOf(before, startPos), p.broken, startPos))| + |p.text| < foldPos
  }

  predicate FitsAt(ps: seq<Piece>, k: nat, startPos: nat, foldPos: nat)
    requires k < |ps|
  {
    Fits(ps[..k], ps[k], startPos, foldPos)
  }

  predicate AllFit(ps: seq<Piece>, startPos: nat, foldPos: nat) {
    forall k :: 0 <= k < |ps| ==> FitsAt(ps, k, startPos, foldPos)
  }

  lemma FoldingFits(ps: seq<Piece>, startPos: nat, foldPos: nat)
    requires FoldWhereFull(ps, startPos, foldPos)
    ensures AllFit(ps, startPos, foldPos)
  {
    var n := |ps| - 1;
    forall k | 0 <= k < |ps| ensures FitsAt(ps, k, startPos, foldPos) {
      if k < n {
        TakeOfTake(ps, n, k);
        assert FoldsAt(ps[..n], k, startPos, foldPos);
      }
    }
  }

  lemma AllFitFront(ps: seq<Piece>, startPos: nat, foldPos: nat)
    requires ps != [] && AllFit(ps, startPos, foldPos)
    ensures AllFit(ps[..|ps| - 1], startPos, foldPos)
  {
    var n := |ps| - 1;
    forall k | 0 <= k < n ensures FitsAt(ps[..n], k, startPos, foldPos) {
      TakeOfTake(ps, n, k);
      assert FitsAt(ps, k, startPos, foldPos);
    }
  }

  lemma {:induction false} LinesAreGood(ps: seq<Piece>, startPos: nat, foldPos: nat)
    requires AreCut(ps) && AllFit(ps, startPos, foldPos)
    ensures GoodLines(LinesOf(ps, startPos), startPos, foldPos) && AllIndented(LinesOf(ps, startPos), startPos)
    decreases |ps|
  {
    if ps != [] {
      var n := |ps| - 1;
      AllFitFront(ps, startPos, foldPos);
      LinesAreGood(ps[..n], startPos, foldPos);
      assert IsCut(n == 0, ps[n]) && FitsAt(ps, n, startPos, foldPos);
      PieceIsWord(n == 0, ps[n]);
      GoodPiece(LinesOf(ps[..n], startPos), ps[n], startPos, foldPos);
    }
  }

  lemma NothingBetween(a: string, b: string)
    ensures a + "" + b == a + b
  {
  }

  lemma ExtendOne(line: string, text: string)
    ensures Extend([line], text) == [line + text]
  {
  }

  /** The number of lines counts the breaks. */
  lemma BreaksCount(ps: seq<Piece>, startPos: nat)
    requires ps != []
    ensures var n := |ps| - 1;
            |LinesOf(ps, startPos)| == |LinesOf(ps[..n], startPos)| + (if ps[n].broken then 1 else 0)
                                       + (if ps[n].folded then 1 else 0)
  {
  }

  /** A piece without a break goes to the end of the one line. */
  lemma OneLineMore(ps: seq<Piece>, startPos: nat)
    requires ps != [] && LinesOf(ps[..|ps| - 1], startPos) == [Source(ps[..|ps| - 1])]
    requires !ps[|ps| - 1].broken && !ps[|ps| - 1].folded
    ensures LinesOf(ps, startPos) == [Source(ps)]
  {
    var n := |ps| - 1;
    var front, text := Source(ps[..n]), ps[n].text;
    calc {
      LinesOf(ps, startPos);
      Extend([front], text);
      { ExtendOne(front, text); }
      [front + text];
      { NothingBetween(front, text); }
      [front + "" + text];
      [Source(ps)];
    }
  }

  /** Without any break the one line is the text. */
  lemma {:induction false} OneLine(ps: seq<Piece>, startPos: nat)
    requires AreCut(ps) && |LinesOf(ps, startPos)| == 1
    ensures NEWLINE !in Source(ps) && LinesOf(ps, startPos) == [Source(ps)]
    decreases |ps|
  {
    if ps != [] {
      var n := |ps| - 1;
      assert IsCut(n == 0, ps[n]);
      BreaksCount(ps, startPos);
      AreCutFront(ps);
      OneLine(ps[..n], startPos);
      OneLineMore(ps, startPos);
    }
  }

  lemma NoNewline(a: string, breaks: bool, b: string)
    requires NEWLINE !in a + (if breaks then [NEWLINE] else "") + b
    ensures !breaks && NEWLINE !in a
  {
    var s := a + (if breaks then [NEWLINE] else "") + b;
    assert forall k :: 0 <= k < |a| ==> a[k] == s[k];
    if breaks {
      NewlineAt(a, b);
    }
  }

  lemma NewlineAt(a: string, b: string)
    ensures NEWLINE in a + [NEWLINE] + b
  {
    assert (a + [NEWLINE] + b)[|a|] == NEWLINE;
  }

  lemma SourceFront(ps: seq<Piece>)
    requires ps != [] && NEWLINE !in Source(ps)
    ensures var n := |ps| - 1;
            !ps[n].broken && NEWLINE !in Source(ps[..n]) && |Source(ps[..n])| + |ps[n].text| == |Source(ps)|
  {
    var n := |ps| - 1;
    NoNewline(Source(ps[..n]), ps[n].broken, ps[n].text);
  }

  /** A text without newlines that is shorter than foldPos has only the one. */
  lemma {:induction false} ShortIsOneLine(ps: seq<Piece>, startPos: nat, foldPos: nat)
    requires AreCut(ps) && NEWLINE !in Source(ps) && |Source(ps)| < foldPos && AllFold(ps, startPos, foldPos)
    ensures LinesOf(ps, startPos) == [Source(ps)]
    decreases |ps|
  {
    if ps != [] {
      var n := |ps| - 1;
      AreCutFront(ps);
      AllFoldFront(ps, startPos, foldPos);
      SourceFront(ps);
      ShortIsOneLine(ps[..n], startPos, foldPos);
      assert FoldsAt(ps, n, startPos, foldPos);
      OneLineMore(ps, startPos);
    }
  }

  lemma ShortFolding(input: string, ps: seq<Piece>, startPos: nat, foldPos: nat)
    requires IsFolding(input, ps, startPos, foldPos) && NEWLINE !in input && |input| < foldPos
    ensures LinesOf(ps, startPos) == [input]
  {
    var n := |ps| - 1;
    AreCutFront(ps);
    SourceFront(ps);
    ShortIsOneLine(ps[..n], startPos, foldPos);
    OneLineMore(ps, startPos);
  }

  // ---------------------------------------------------------------- the C++ code

  /** The loop state: all lines but the last are out, with their newlines. */
  predicate Shown(strOut: string, line: string, lines: seq<string>) {
    lines != [] && strOut == Flat(lines[..|lines| - 1]) && line == Last(lines)
  }

  lemma LineEnds(strOut: string, line: string, lines: seq<string>, startPos: nat)
    requires Shown(strOut, line, lines)
    ensures Shown(strOut + line + [NEWLINE], Blanks(startPos), lines + [Blanks(startPos)])
  {
    SplitLast(lines);
    assert (lines + [Blanks(startPos)])[..|lines|] == lines;
  }

  lemma WordMoves(strOut: string, line: string, lines: seq<string>, word: string)
    requires Shown(strOut, line, lines)
    ensures Shown(strOut, line + word, Extend(lines, word))
  {
    assert Extend(lines, word)[..|lines| - 1] == lines[..|lines| - 1];
  }

  /** Pieces of the input up to i that are closed, and the open word behind them. */
  ghost predicate Laying(input: string, i: nat, startPos: nat, foldPos: nat, ps: seq<Piece>, broken: bool, word: string)
    requires i <= |input|
  {
    && AreCut(ps) && IsCut(ps == [], Piece(broken, false, word)) && AllFold(ps, startPos, foldPos)
    && Source(ps) + (if broken then [NEWLINE] else "") + word == input[..i]
  }

  /** What the loop keeps: the closed pieces are out but for their last line. */
  ghost predicate State(input: string, i: nat, startPos: nat, foldPos: nat, ps: seq<Piece>, broken: bool,
                        strOut: string, line: string, word: string)
    requires i <= |input|
  {
    && Laying(input, i, startPos, foldPos, ps, broken, word)
    && Shown(strOut, line, Begin(LinesOf(ps, startPos), broken, startPos))
  }

  /** The line has room for the word: it had, or a new one was begun. */
  predicate HasRoom(startPos: nat, foldPos: nat, strOut: string, line: string, word: string, strOut': string,
                    line': string) {
    if |line| + |word| >= foldPos then strOut' == strOut + line + [NEWLINE] && line' == Blanks(startPos)
    else strOut' == strOut && line' == line
  }

  lemma StateAtStart(input: string, startPos: nat, foldPos: nat)
    ensures State(input, 0, startPos, foldPos, [], false, "", "", "")
  {
    assert [""][..0] == [];
  }

  lemma OutputIs(ps: seq<Piece>, startPos: nat, strOut: string, line: string)
    requires Shown(strOut, line, LinesOf(ps, startPos))
    ensures TextOf(OutputLines(ps, startPos)) == if |line| != startPos then strOut + line else strOut
  {
    var all := LinesOf(ps, startPos);
    var n := |all| - 1;
    assert (all[..n] + [""])[..n] == all[..n];
  }

  lemma AllFoldMore(ps: seq<Piece>, p: Piece, startPos: nat, foldPos: nat)
    requires AllFold(ps, startPos, foldPos) && FoldsIfFull(ps, p, startPos, foldPos)
    ensures AllFold(ps + [p], startPos, foldPos)
  {
    forall k | 0 <= k <= |ps| ensures FoldsAt(ps + [p], k, startPos, foldPos) {
      assert (ps + [p])[..k] == ps[..k];
      if k < |ps| {
        assert FoldsAt(ps, k, startPos, foldPos);
      } else {
        assert ps[..k] == ps;
      }
    }
  }

  /** The word as a piece, on the line that has room for it. */
  lemma PieceShown(input: string, i: nat, startPos: nat, foldPos: nat, ps: seq<Piece>, broken: bool,
                   strOut: string, line: string, word: string, strOut': string, line': string) returns (p: Piece)
    requires i <= |input| && State(input, i, startPos, foldPos, ps, broken, strOut, line, word)
    requires HasRoom(startPos, foldPos, strOut, line, word, strOut', line')
    ensures p.broken == broken && p.text == word && FoldsIfFull(ps, p, startPos, foldPos)
    ensures Shown(strOut', line' + word, LinesOf(ps + [p], startPos))
  {
    p := Piece(broken, |line| + |word| >= foldPos, word);
    var lines := Begin(LinesOf(ps, startPos), broken, startPos);
    if p.folded {
      LineEnds(strOut, line, lines, startPos);
    }
    WordMoves(strOut', line', Begin(lines, p.folded, startPos), word);
    assert (ps + [p])[..|ps|] == ps;
  }

  lemma PieceClosed(input: string, i: nat, startPos: nat, foldPos: nat, ps: seq<Piece>, p: Piece)
    requires i <= |input| && Laying(input, i, startPos, foldPos, ps, p.broken, p.text)
    requires FoldsIfFull(ps, p, startPos, foldPos)
    ensures AreCut(ps + [p]) && AllFold(ps + [p], startPos, foldPos) && Source(ps + [p]) == input[..i]
  {
    assert (ps + [p])[..|ps|] == ps;
    AllFoldMore(ps, p, startPos, foldPos);
  }

  lemma BlankOpens(input: string, i: nat, startPos: nat, foldPos: nat, ps: seq<Piece>)
    requires i < |input| && input[i] == BLANK && ps != []
    requires AreCut(ps) && AllFold(ps, startPos, foldPos) && Source(ps) == input[..i]
    ensures Laying(input, i + 1, startPos, foldPos, ps, false, [BLANK])
  {
    NothingBetween(input[..i], [BLANK]);
    assert input[..i] + [BLANK] == input[..i + 1];
  }

  lemma NewlineOpens(input: string, i: nat, startPos: nat, foldPos: nat, ps: seq<Piece>)
    requires i < |input| && input[i] == NEWLINE && ps != []
    requires AreCut(ps) && AllFold(ps, startPos, foldPos) && Source(ps) == input[..i]
    ensures Laying(input, i + 1, startPos, foldPos, ps, true, "")
  {
    assert input[..i] + [NEWLINE] == input[..i + 1];
    assert input[..i + 1] + "" == input[..i + 1];
  }

  lemma BlankTurn(input: string, i: nat, startPos: nat, foldPos: nat, ps: seq<Piece>, broken: bool,
                  strOut: string, line: string, word: string, strOut': string, line': string) returns (p: Piece)
    requires i < |input| && input[i] == BLANK && State(input, i, startPos, foldPos, ps, broken, strOut, line, word)
    requires HasRoom(startPos, foldPos, strOut, line, word, strOut', line')
    ensures State(input, i + 1, startPos, foldPos, ps + [p], false, strOut', line' + word, [BLANK])
  {
    p := PieceShown(input, i, startPos, foldPos, ps, broken, strOut, line, word, strOut', line');
    PieceClosed(input, i, startPos, foldPos, ps, p);
    BlankOpens(input, i, startPos, foldPos, ps + [p]);
  }

  lemma NewlineTurn(input: string, i: nat, startPos: nat, foldPos: nat, ps: seq<Piece>, broken: bool,
                    strOut: string, line: string, word: string, strOut': string, line': string) returns (p: Piece)
    requires i < |input| && input[i] == NEWLINE && State(input, i, startPos, foldPos, ps, broken, strOut, line, word)
    requires HasRoom(startPos, foldPos, strOut, line, word, strOut', line')
    ensures State(input, i + 1, startPos, foldPos, ps + [p], true, strOut' + (line' + word + [NEWLINE]),
                  Blanks(startPos), "")
  {
    p := PieceShown(input, i, startPos, foldPos, ps, broken, strOut, line, word, strOut', line');
    PieceClosed(input, i, startPos, foldPos, ps, p);
    NewlineOpens(input, i, startPos, foldPos, ps + [p]);
    LineEnds(strOut', line' + word, LinesOf(ps + [p], startPos), startPos);
    Associative(strOut', line' + word, [NEWLINE]);
  }

  lemma LetterTurn(input: string, i: nat, startPos: nat, foldPos: nat, ps: seq<Piece>, broken: bool,
                   strOut: string, line: string, word: string)
    requires i < |input| && input[i] != BLANK && input[i] != NEWLINE
    requires State(input, i, startPos, foldPos, ps, broken, strOut, line, word)
    ensures State(input, i + 1, startPos, foldPos, ps, broken, strOut, line, word + [input[i]])
  {
    Associative(Source(ps) + (if broken then [NEWLINE] else ""), word, [input[i]]);
    assert input[..i] + [input[i]] == input[..i + 1];
    assert word != "" ==> (word + [input[i]])[1..] == word[1..] + [input[i]];
  }

  /** At the end of the input a word is closed like any other, and no word is not folded. */
  lemma LastTurn(input: string, startPos: nat, foldPos: nat, ps: seq<Piece>, broken: bool,
                 strOut: string, line: string, word: string, strOut': string, line': string) returns (p: Piece)
    requires State(input, |input|, startPos, foldPos, ps, broken, strOut, line, word)
    requires if word == "" then strOut' == strOut && line' == line
             else HasRoom(startPos, foldPos, strOut, line, word, strOut', line')
    ensures IsFolding(input, ps + [p], startPos, foldPos)
    ensures Shown(strOut', line' + word, LinesOf(ps + [p], startPos))
  {
    if word == "" {
      p := Piece(broken, false, "");
      EmptyShown(ps, broken, startPos, strOut, line);
    } else {
      p := PieceShown(input, |input|, startPos, foldPos, ps, broken, strOut, line, word, strOut', line');
    }
    LastFolds(input, startPos, foldPos, ps, p);
  }

  lemma EmptyShown(ps: seq<Piece>, broken: bool, startPos: nat, strOut: string, line: string)
    requires Shown(strOut, line, Begin(LinesOf(ps, startPos), broken, startPos))
    ensures Shown(strOut, line + "", LinesOf(ps + [Piece(broken, false, "")], startPos))
  {
    WordMoves(strOut, line, Begin(LinesOf(ps, startPos), broken, startPos), "");
    assert (ps + [Piece(broken, false, "")])[..|ps|] == ps;
  }

  lemma LastFolds(input: string, startPos: nat, foldPos: nat, ps: seq<Piece>, p: Piece)
    requires Laying(input, |input|, startPos, foldPos, ps, p.broken, p.text)
    requires if p.text == "" then !p.folded else FoldsIfFull(ps, p, startPos, foldPos)
    ensures IsFolding(input, ps + [p], startPos, foldPos)
  {
    assert (ps + [p])[..|ps|] == ps && input[..|input|] == input;
  }

  /** What is said of every folding, with the lines that are put out. */
  lemma FoldingKeeps(input: string, ps: seq<Piece>, startPos: nat, foldPos: nat)
    requires IsFolding(input, ps, startPos, foldPos)
    ensures var lines := OutputLines(ps, startPos);
            var strOut := TextOf(lines);
            && (Dropped(input, startPos, foldPos) ==> strOut == "")
            && (!Dropped(input, startPos, foldPos) ==> Ink(strOut) == Ink(input))
            && (!Dropped(input, startPos, foldPos) && NEWLINE !in input && |input| < foldPos ==> strOut == input)
            && strOut == Join(lines, NEWLINE)
            && GoodLines(lines, startPos, foldPos) && IndentedLines(lines, startPos)
  {
    FlatIsJoin(OutputLines(ps, startPos));
    LinesOutAreGood(ps, startPos, foldPos);
    if NEWLINE !in input && |input| < foldPos {
      ShortOut(input, ps, startPos, foldPos);
    }
    if !Dropped(input, startPos, foldPos) {
      InkOut(input, ps, startPos, foldPos);
    }
  }

  lemma InkOut(input: string, ps: seq<Piece>, startPos: nat, foldPos: nat)
    requires IsFolding(input, ps, startPos, foldPos) && !Dropped(input, startPos, foldPos)
    ensures Ink(TextOf(OutputLines(ps, startPos))) == Ink(input)
  {
    var all := LinesOf(ps, startPos);
    InkOfLines(ps, startPos);
    TextWithoutLast(all);
    if |Last(all)| == startPos {
      LastLineOut(input, ps, startPos, foldPos);
    }
  }

  lemma TextOfOne(s: string)
    ensures TextOf([s]) == s && [s][..0] + [""] == [""]
  {
    assert [s][..0] == [] && "" + s == s;
  }

  lemma ShortOut(input: string, ps: seq<Piece>, startPos: nat, foldPos: nat)
    requires IsFolding(input, ps, startPos, foldPos) && NEWLINE !in input && |input| < foldPos
    ensures TextOf(OutputLines(ps, startPos)) == if |input| == startPos then "" else input
  {
    ShortFolding(input, ps, startPos, foldPos);
    TextOfOne(input);
    TextOfOne("");
  }

  lemma LinesOutAreGood(ps: seq<Piece>, startPos: nat, foldPos: nat)
    requires AreCut(ps) && FoldWhereFull(ps, startPos, foldPos)
    ensures var lines := OutputLines(ps, startPos);
            GoodLines(lines, startPos, foldPos) && IndentedLines(lines, startPos)
  {
    FoldingFits(ps, startPos, foldPos);
    LinesAreGood(ps, startPos, foldPos);
  }

  lemma TextWithoutLast(lines: seq<string>)
    requires lines != []
    ensures var n := |lines| - 1; TextOf(lines[..n] + [""]) == Flat(lines[..n])
    ensures Ink(TextOf(lines)) == Ink(Flat(lines[..|lines| - 1])) + Ink(Last(lines))
  {
    var n := |lines| - 1;
    assert (lines[..n] + [""])[..n] == lines[..n] && Flat(lines[..n]) + "" == Flat(lines[..n]);
    InkAppend(Flat(lines[..n]), Last(lines));
  }

  lemma OnlyIndentation(line: string, startPos: nat)
    requires Blanks(startPos) <= line && |line| == startPos
    ensures Ink(line) == ""
  {
    BlanksHaveNoInk(line);
  }

  /** A last line as long as the indentation has nothing behind it, or is the text. */
  lemma LastLineOut(input: string, ps: seq<Piece>, startPos: nat, foldPos: nat)
    requires IsFolding(input, ps, startPos, foldPos) && |Last(LinesOf(ps, startPos))| == startPos
    requires !Dropped(input, startPos, foldPos)
    ensures Ink(Last(LinesOf(ps, startPos))) == ""
  {
    var all := LinesOf(ps, startPos);
    var n := |all| - 1;
    FoldingFits(ps, startPos, foldPos);
    LinesAreGood(ps, startPos, foldPos);
    if n == 0 {
      OneLine(ps, startPos);
      OneShortLine(input, ps, startPos, foldPos);
    } else {
      OnlyIndentation(all[n], startPos);
    }
  }

  /** A text that is one line is shorter than foldPos, or empty. */
  lemma OneShortLine(input: string, ps: seq<Piece>, startPos: nat, foldPos: nat)
    requires IsFolding(input, ps, startPos, foldPos) && LinesOf(ps, startPos) == [input]
    ensures input == "" || |input| < foldPos
  {
    var n := |ps| - 1;
    AreCutFront(ps);
    BreaksCount(ps, startPos);
    OneLine(ps[..n], startPos);
    if n == 0 {
      assert ps[..0] == [];
    }
    assert IsCut(n == 0, ps[n]);
    OneLineMore(ps, startPos);
  }

  /** _fill. */
  method Fill(count: nat) returns (str: string)
    ensures str == Blanks(count)
  {
    str := "";
    for i := 0 to count
      invariant str == Blanks(i)
    {
      str := str + [BLANK];
    }
  }

  /** A new line if the word does not fit on this one (CIMCLICommon.cpp:524-529, 542-548, 567-572). */
  method Overflow(strOut: string, line: string, word: string, startPos: nat, foldPos: nat)
    returns (strOut': string, line': string)
    ensures HasRoom(startPos, foldPos, strOut, line, word, strOut', line')
  {
    strOut', line' := strOut, line;
    if |line| + |word| >= foldPos {
      strOut' := strOut + line + [NEWLINE];
      line' := Fill(startPos);
    }
  }

  method FoldString(input: string, startPos: nat, foldPos: nat)
    returns (strOut: string, ghost lines: seq<string>, ghost ps: seq<Piece>)
    ensures IsFolding(input, ps, startPos, foldPos) && lines == OutputLines(ps, startPos)
    ensures Dropped(input, startPos, foldPos) ==> strOut == ""
    ensures !Dropped(input, startPos, foldPos) ==> Ink(strOut) == Ink(input)
    ensures !Dropped(input, startPos, foldPos) && NEWLINE !in input && |input| < foldPos ==> strOut == input
    ensures strOut == Join(lines, NEWLINE)
    ensures GoodLines(lines, startPos, foldPos) && IndentedLines(lines, startPos)
  {
    strOut, ps := "", [];
    var line, word := "", "";
    ghost var p;
    ghost var broken := false;
    StateAtStart(input, startPos, foldPos);
    for i := 0 to |input|
      invariant State(input, i, startPos, foldPos, ps, broken, strOut, line, word)
    {
      ghost var out, begun := strOut, line;
      if input[i] == BLANK {
        strOut, line := Overflow(strOut, line, word, startPos, foldPos);
        p := BlankTurn(input, i, startPos, foldPos, ps, broken, out, begun, word, strOut, line);
        ps, broken := ps + [p], false;
        line := line + word;
        word := [input[i]];
      } else if input[i] == NEWLINE {
        strOut, line := Overflow(strOut, line, word, startPos, foldPos);
        p := NewlineTurn(input, i, startPos, foldPos, ps, broken, out, begun, word, strOut, line);
        ps, broken := ps + [p], true;
        line := line + word;
        word := "";
        line := line + [NEWLINE];
        strOut := strOut + line;
        line := Fill(startPos);
      } else {
        LetterTurn(input, i, startPos, foldPos, ps, broken, strOut, line, word);
        word := word + [input[i]];
      }
    }
    if word != "" {
      ghost var out, begun := strOut, line;
      strOut, line := Overflow(strOut, line, word, startPos, foldPos);
      p := LastTurn(input, startPos, foldPos, ps, broken, out, begun, word, strOut, line);
      line := line + word;
    } else {
      p := LastTurn(input, startPos, foldPos, ps, broken, strOut, line, word, strOut, line);
      assert line + word == line;
    }
    ps := ps + [p];
    lines := OutputLines(ps, startPos);
    FoldingKeeps(input, ps, startPos, foldPos);
    OutputIs(ps, startPos, strOut, line);
    if |line| != startPos {
      strOut := strOut + line;
    }
  }
}
