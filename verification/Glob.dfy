/** The policy pattern matcher (pegasus/src/Executor/Match.h). */
module Glob {

  const STAR: char := '*'

  function Stars(p: string): nat {
    if p == "" then 0 else (if p[0] == STAR then 1 else 0) + Stars(p[1..])
  }

  /** The pattern with its k-th star replaced by ws[k]. */
  function Fill(p: string, ws: seq<string>): string
    requires |ws| == Stars(p)
  {
    if p == "" then ""
    else if p[0] == STAR then ws[0] + Fill(p[1..], ws[1..])
    else [p[0]] + Fill(p[1..], ws)
  }

  /** The glob relation the matcher is written for: every star stands for some string. */
  ghost predicate IsGlob(p: string, s: string) {
    exists ws: seq<string> :: |ws| == Stars(p) && Fill(p, ws) == s
  }

  predicate EndsInTwoStars(p: string) {
    |p| >= 2 && p[|p| - 1] == STAR && p[|p| - 2] == STAR
  }

  /** The relation the matcher decides: the glob relation, except that a pattern ending
      in two stars needs its last star to stand for a nonempty string. */
  ghost predicate Fits(p: string, s: string) {
    exists ws: seq<string> :: FitsBy(p, s, ws)
  }

  ghost predicate FitsBy(p: string, s: string, ws: seq<string>) {
    |ws| == Stars(p) && Fill(p, ws) == s && (EndsInTwoStars(p) ==> |ws| > 0 && ws[|ws| - 1] != "")
  }

  lemma FitsEmptyPattern(s: string)
    ensures Fits("", s) <==> s == ""
  {
    if s == "" {
      assert FitsBy("", s, []);
    }
  }

  lemma FitsLiteral(p: string, s: string)
    requires p != "" && p[0] != STAR
    ensures Fits(p, s) <==> s != "" && s[0] == p[0] && Fits(p[1..], s[1..])
  {
    assert EndsInTwoStars(p) <==> EndsInTwoStars(p[1..]);
    if Fits(p, s) {
      var ws :| FitsBy(p, s, ws);
      assert s[1..] == Fill(p[1..], ws);
      assert FitsBy(p[1..], s[1..], ws);
    }
    if s != "" && s[0] == p[0] && Fits(p[1..], s[1..]) {
      var ws :| FitsBy(p[1..], s[1..], ws);
      assert FitsBy(p, s, ws) by {
        assert s == [s[0]] + s[1..];
      }
    }
  }

  lemma FitsSingleStar(s: string)
    ensures Fits("*", s)
  {
    assert "*"[1..] == "";
    assert Fill("*", [s]) == s + Fill("", []) == s;
    assert FitsBy("*", s, [s]);
  }

  lemma StarsTail(p: string)
    requires p != "" && p[0] == STAR
    ensures Stars(p) == 1 + Stars(p[1..])
    ensures EndsInTwoStars(p) <==> EndsInTwoStars(p[1..]) || p[1..] == "*"
  {
    if |p| == 2 {
      assert p[1..] == "*" <==> p[1] == STAR;
    }
  }

  lemma LastStarPositive(p: string)
    requires EndsInTwoStars(p)
    ensures Stars(p) >= 2
  {
    if |p| == 2 {
      assert p[1..][1..] == "";
    } else {
      LastStarPositive(p[1..]);
    }
  }

  /** A leading star absorbs any prefix. */
  lemma FitsStarIntro(p: string, s: string, k: nat)
    requires p != "" && p[0] == STAR && k <= |s|
    requires Fits(p[1..], s[k..])
    requires p[1..] == "*" ==> s != ""
    ensures Fits(p, s)
  {
    StarsTail(p);
    if p[1..] == "*" {
      assert p[1..][1..] == "";
      assert Fill(p[1..], [s]) == s;
      assert Fill(p, ["", s]) == "" + Fill(p[1..], ["", s][1..]) == s;
      assert FitsBy(p, s, ["", s]);
    } else {
      var ws :| FitsBy(p[1..], s[k..], ws);
      var vs := [s[..k]] + ws;
      assert vs[1..] == ws;
      assert s == s[..k] + s[k..];
      if EndsInTwoStars(p) {
        LastStarPositive(p[1..]);
      }
      assert FitsBy(p, s, vs);
    }
  }

  lemma FitsStarElim(p: string, s: string) returns (k: nat)
    requires p != "" && p[0] == STAR && Fits(p, s)
    ensures k <= |s| && Fits(p[1..], s[k..])
    ensures p[1..] == "*" ==> s != ""
  {
    StarsTail(p);
    var ws :| FitsBy(p, s, ws);
    k := |ws[0]|;
    assert s[k..] == Fill(p[1..], ws[1..]);
    if p[1..] == "*" {
      FitsSingleStar(s[k..]);
      assert ws[1..][0] == ws[1] != "";
      assert p[1..][1..] == "";
      assert Fill(p[1..], ws[1..]) == ws[1..][0] + "";
    } else {
      if EndsInTwoStars(p) {
        LastStarPositive(p[1..]);
      }
      assert FitsBy(p[1..], s[k..], ws[1..]);
    }
  }

  /** An exhausted string is fitted only by the empty pattern and by one star. */
  lemma FitsExhausted(p: string)
    ensures Fits(p, "") <==> p == "" || p == "*"
  {
    FitsEmptyPattern("");
    FitsSingleStar("");
    assert p != "" ==> p == [p[0]] + p[1..];
    if p != "" && p != "*" && Fits(p, "") {
      if p[0] != STAR {
        FitsLiteral(p, "");
      } else {
        var k := FitsStarElim(p, "");
        FitsExhausted(p[1..]);
      }
    }
  }

  /** The shortest-match search is complete: with r the first position from which the rest
      of the pattern fits (or the end), skipping to r loses no match. */
  lemma ShortestMatch(p: string, s: string, r: nat)
    requires p != "" && p[0] == STAR && s != "" && r <= |s|
    requires forall i :: 0 <= i < r ==> !Fits(p[1..], s[i..])
    requires r < |s| ==> Fits(p[1..], s[r..])
    ensures Fits(p, s) <==> Fits(p[1..], s[r..])
  {
    if Fits(p[1..], s[r..]) {
      FitsStarIntro(p, s, r);
    }
    if Fits(p, s) && !Fits(p[1..], s[r..]) {
      var k := FitsStarElim(p, s);
      assert false;
    }
  }

  /** 0 when str fits the pattern, -1 otherwise. */
  method Match(pattern: string, str: string) returns (rc: int)
    ensures rc == 0 || rc == -1
    ensures rc == 0 <==> Fits(pattern, str)
    decreases |pattern|
  {
    var p, q := 0, 0;
    assert pattern[0..] == pattern && str[0..] == str;
    while p < |pattern| && q < |str|
      invariant 0 <= p <= |pattern| && 0 <= q <= |str|
      invariant Fits(pattern, str) <==> Fits(pattern[p..], str[q..])
    {
      if pattern[p] == STAR {
        p := p + 1;
        ghost var pat, s := pattern[p - 1..], str[q..];
        assert pat[1..] == pattern[p..];
        var r := q;
        while r < |str|
          invariant q <= r <= |str|
          invariant forall i :: 0 <= i < r - q ==> !Fits(pat[1..], s[i..])
        {
          var m := Match(pattern[p..], str[r..]);
          assert s[r - q..] == str[r..];
          if m == 0 {
            break;
          }
          r := r + 1;
        }
        ShortestMatch(pat, s, r - q);
        assert s[r - q..] == str[r..];
        q := r;
      } else if pattern[p] == str[q] {
        FitsLiteral(pattern[p..], str[q..]);
        assert pattern[p..][1..] == pattern[p + 1..] && str[q..][1..] == str[q + 1..];
        p, q := p + 1, q + 1;
      } else {
        FitsLiteral(pattern[p..], str[q..]);
        return -1;
      }
    }
    if p < |pattern| {
      assert str[q..] == "";
      FitsExhausted(pattern[p..]);
    } else {
      FitsEmptyPattern(str[q..]);
    }
    if p < |pattern| && pattern[p] == STAR && p + 1 == |pattern| {
      assert pattern[p..] == "*";
      return 0;
    }
    if p < |pattern| || q < |str| {
      return -1;
    }
    return 0;
  }

  lemma {:induction false} FillAppend(p: string, q: string, ws: seq<string>, vs: seq<string>)
    requires |ws| == Stars(p) && |vs| == Stars(q)
    ensures Stars(p + q) == Stars(p) + Stars(q)
    ensures Fill(p + q, ws + vs) == Fill(p, ws) + Fill(q, vs)
  {
    if p == "" {
      assert p + q == q && ws + vs == vs;
    } else {
      var rest := p[1..];
      assert (p + q)[1..] == rest + q;
      if p[0] == STAR {
        assert (ws + vs)[1..] == ws[1..] + vs;
        FillAppend(rest, q, ws[1..], vs);
        assert ws[0] + (Fill(rest, ws[1..]) + Fill(q, vs)) == (ws[0] + Fill(rest, ws[1..])) + Fill(q, vs);
      } else {
        FillAppend(rest, q, ws, vs);
        assert [p[0]] + (Fill(rest, ws) + Fill(q, vs)) == ([p[0]] + Fill(rest, ws)) + Fill(q, vs);
      }
    }
  }

  /** Soundness for all patterns, and the exact set on which the matcher is incomplete:
      a pattern that ends in two stars, on a string that only the pattern without
      its last two stars can spell out completely. */
  lemma MatcherVersusGlob(p: string, s: string)
    ensures Fits(p, s) ==> IsGlob(p, s)
    ensures !EndsInTwoStars(p) ==> (Fits(p, s) <==> IsGlob(p, s))
    ensures EndsInTwoStars(p) ==> (Fits(p, s) <==> exists k: nat :: k < |s| && IsGlob(p[..|p| - 2], s[..k]))
  {
    if Fits(p, s) {
      var ws :| FitsBy(p, s, ws);
      assert IsGlob(p, s);
      if EndsInTwoStars(p) {
        var k := SplitTrailingStars(p, s, ws);
      }
    }
    if !EndsInTwoStars(p) && IsGlob(p, s) {
      var ws: seq<string> :| |ws| == Stars(p) && Fill(p, ws) == s;
      assert FitsBy(p, s, ws);
    }
    if EndsInTwoStars(p) && exists k: nat :: k < |s| && IsGlob(p[..|p| - 2], s[..k]) {
      var k: nat :| k < |s| && IsGlob(p[..|p| - 2], s[..k]);
      AddTrailingStars(p, s, k);
    }
  }

  lemma AddTrailingStars(p: string, s: string, k: nat)
    requires EndsInTwoStars(p) && k < |s| && IsGlob(p[..|p| - 2], s[..k])
    ensures Fits(p, s)
  {
    var core := p[..|p| - 2];
    var ws: seq<string> :| |ws| == Stars(core) && Fill(core, ws) == s[..k];
    TwoStars("", s[k..]);
    FillAppend(core, "**", ws, ["", s[k..]]);
    assert p == core + "**" && s == s[..k] + s[k..];
    assert FitsBy(p, s, ws + ["", s[k..]]);
  }

  lemma TwoStars(a: string, b: string)
    ensures Stars("**") == 2 && Fill("**", [a, b]) == a + b
  {
    assert "**"[1..] == "*" && "*"[1..] == "";
    assert [a, b][1..] == [b] && [b][1..] == [];
    assert Fill("*", [b]) == b + Fill("", []) == b;
  }

  lemma SplitTrailingStars(p: string, s: string, ws: seq<string>) returns (k: nat)
    requires EndsInTwoStars(p) && FitsBy(p, s, ws)
    ensures k < |s| && IsGlob(p[..|p| - 2], s[..k])
  {
    var core := p[..|p| - 2];
    assert p == core + "**";
    TwoStars("", "");
    FillAppend(core, "**", seq(Stars(core), i => ""), ["", ""]);
    var n := |ws| - 2;
    var a, b := ws[n], ws[n + 1];
    assert ws == ws[..n] + [a, b];
    FillAppend(core, "**", ws[..n], [a, b]);
    TwoStars(a, b);
    k := |Fill(core, ws[..n])|;
    assert s[..k] == Fill(core, ws[..n]);
  }

  /** The documented tests of an incomplete case: one star matches nothing, two do not. */
  lemma TwoStarsRejectNothing()
    ensures IsGlob("**", "") && !Fits("**", "")
  {
    TwoStars("", "");
    assert |["", ""]| == Stars("**") && Fill("**", ["", ""]) == "";
    FitsExhausted("**");
  }
}
