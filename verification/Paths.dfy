/** In-place path editing (pegasus/src/Executor/Path.c). */
module Paths {
  import opened CStrings
  import opened Expansion

  const SLASH: char := '/'

  // ---------------------------------------------------------------- the dirname utility

  function StripSlashes(s: string): string {
    if s != "" && s[|s| - 1] == SLASH then StripSlashes(s[..|s| - 1]) else s
  }

  function StripName(s: string): string {
    if s != "" && s[|s| - 1] != SLASH then StripName(s[..|s| - 1]) else s
  }

  predicate AllSlashes(s: string) {
    s != "" && forall i :: 0 <= i < |s| ==> s[i] == SLASH
  }

  /** The eight steps of the DESCRIPTION of the dirname utility in POSIX.1-2017 XCU; in step 6
      the remaining steps are processed. */
  function PosixDirname(s: string): string {
    if s == "//" then Steps6To8(s)
    else if AllSlashes(s) then "/"
    else
      var s3 := StripSlashes(s);
      if SLASH !in s3 then "." else Steps6To8(StripName(s3))
  }

  function Steps6To8(s: string): string {
    var s7 := StripSlashes(s);
    if s7 == "" then "/" else s7
  }

  // ---------------------------------------------------------------- index form

  /** Index of the last slash, or -1 (strrchr). */
  function LastSlash(s: string): (p: int)
    ensures -1 <= p < |s|
    ensures p >= 0 ==> s[p] == SLASH
    ensures forall i :: p < i < |s| ==> s[i] != SLASH
  {
    if s == "" then -1 else if s[|s| - 1] == SLASH then |s| - 1 else
      assert forall i :: 0 <= i < |s| - 1 ==> s[..|s| - 1][i] == s[i];
      LastSlash(s[..|s| - 1])
  }

  lemma LastSlashUnique(s: string, p: int)
    requires -1 <= p < |s|
    requires p >= 0 ==> s[p] == SLASH
    requires forall i :: p < i < |s| ==> s[i] != SLASH
    ensures LastSlash(s) == p
  {
  }

  lemma {:induction false} StripNameIsPrefix(s: string)
    ensures StripName(s) == s[..LastSlash(s) + 1]
  {
    if s != "" && s[|s| - 1] != SLASH {
      StripNameIsPrefix(s[..|s| - 1]);
    }
  }

  /** Where the backward loop over slashes stops. */
  function TrimTo(s: string, p: nat): (t: nat)
    requires p < |s|
    ensures t <= p
    ensures t == 0 || s[t] != SLASH
    ensures forall i :: t < i <= p ==> s[i] == SLASH
  {
    if p != 0 && s[p] == SLASH then TrimTo(s, p - 1) else p
  }

  /** Stopping at index 0 keeps one character where stripping would keep none. */
  lemma {:induction false} TrimIsStrip(s: string, p: nat)
    requires p < |s|
    ensures s[..TrimTo(s, p) + 1] == if StripSlashes(s[..p + 1]) == "" then s[..1] else StripSlashes(s[..p + 1])
  {
    if s[p] == SLASH {
      assert s[..p + 1][..p] == s[..p];
      if p != 0 {
        TrimIsStrip(s, p - 1);
      } else {
        assert StripSlashes(s[..0]) == "";
      }
    }
  }

  /** First half of the edit: trailing slashes of a path with a slash. */
  function WithoutTrailing(s: string): string {
    if s != "" && LastSlash(s) == |s| - 1 then s[..TrimTo(s, |s| - 1) + 1] else s
  }

  /** Second half: the last component and the slashes before it. */
  function WithoutComponent(s: string): string {
    var p := LastSlash(s);
    if p == -1 then "." else if p == 0 then s[..1] else s[..TrimTo(s, p - 1) + 1]
  }

  lemma {:induction false} StripAllSlashes(s: string)
    ensures StripSlashes(s) == "" <==> s == "" || AllSlashes(s)
  {
    if s != "" && s[|s| - 1] == SLASH {
      StripAllSlashes(s[..|s| - 1]);
      assert |s| > 1 ==> s[0] == s[..|s| - 1][0];
      assert AllSlashes(s) <==> s[..|s| - 1] == "" || AllSlashes(s[..|s| - 1]);
    } else if s != "" {
      assert s[|s| - 1] != SLASH;
    }
  }

  lemma SlashIn(s: string)
    ensures SLASH in s <==> LastSlash(s) >= 0
  {
  }

  lemma {:induction false} StripLeavesName(s: string)
    ensures StripSlashes(s) <= s
    ensures StripSlashes(s) != "" ==> StripSlashes(s)[|StripSlashes(s)| - 1] != SLASH
    ensures s != "" && s[|s| - 1] != SLASH ==> StripSlashes(s) == s
  {
    if s != "" && s[|s| - 1] == SLASH {
      StripLeavesName(s[..|s| - 1]);
    }
  }

  /** Steps 6 to 8 on a string ending in the slash at p. */
  lemma FinalSteps(s: string, p: nat)
    requires p < |s| && s[p] == SLASH
    ensures Steps6To8(s[..p + 1]) == if p == 0 then s[..1] else s[..TrimTo(s, p - 1) + 1]
  {
    assert s[..p + 1][..p] == s[..p];
    if p == 0 {
      assert StripSlashes(s[..0]) == "";
      assert s[..1] == "/";
    } else {
      TrimIsStrip(s, p - 1);
      StripAllSlashes(s[..p]);
      assert s[..p] != "" && AllSlashes(s[..p]) ==> s[..p][0] == SLASH;
      assert s[..1] == [s[0]];
    }
  }

  lemma DirNameOfSlashes(s: string)
    requires AllSlashes(s)
    ensures LastSlash(s) == |s| - 1 && WithoutComponent(WithoutTrailing(s)) == "/" && PosixDirname(s) == "/"
  {
    StripAllSlashes(s);
    TrimIsStrip(s, |s| - 1);
    assert s[..|s|] == s && s[..1] == "/";
    LastSlashUnique(s, |s| - 1);
    LastSlashUnique("/", 0);
    StripAllSlashes("//");
  }

  lemma FirstHalfIsStep3(s: string)
    requires s != "" && !AllSlashes(s)
    ensures WithoutTrailing(s) == StripSlashes(s)
  {
    StripAllSlashes(s);
    StripLeavesName(s);
    TrimIsStrip(s, |s| - 1);
    assert s[..|s|] == s;
  }

  lemma SecondHalfIsSteps4To8(s: string)
    ensures WithoutComponent(s) == if SLASH !in s then "." else Steps6To8(StripName(s))
  {
    SlashIn(s);
    if LastSlash(s) >= 0 {
      StripNameIsPrefix(s);
      FinalSteps(s, LastSlash(s));
    }
  }

  /** The two halves together are the standard's algorithm. */
  lemma EditIsPosix(s: string)
    ensures (if LastSlash(s) == -1 then "." else WithoutComponent(WithoutTrailing(s))) == PosixDirname(s)
  {
    if AllSlashes(s) {
      DirNameOfSlashes(s);
    } else if s != "" {
      FirstHalfIsStep3(s);
      SecondHalfIsSteps4To8(StripSlashes(s));
      StripLeavesName(s);
      SlashIn(s);
    }
  }

  // ---------------------------------------------------------------- iteration

  function Iterate(s: string, n: nat): string
    decreases n
  {
    if n == 0 then s else Iterate(PosixDirname(s), n - 1)
  }

  lemma {:induction false} StripNameLeavesSlash(s: string)
    ensures StripName(s) <= s
    ensures StripName(s) != "" ==> StripName(s)[|StripName(s)| - 1] == SLASH
  {
    if s != "" && s[|s| - 1] != SLASH {
      StripNameLeavesSlash(s[..|s| - 1]);
    }
  }

  /** A directory name is a fixed point or is shorter than the path. */
  lemma DirnameShortens(s: string)
    ensures PosixDirname(s) == "/" || PosixDirname(s) == "." || |PosixDirname(s)| < |s|
  {
    StripLeavesName(s);
    var s3 := StripSlashes(s);
    StripNameLeavesSlash(s3);
    StripLeavesName(StripName(s3));
    StripLeavesName(s);
    if s == "//" {
      DirNameOfSlashes(s);
    } else if !AllSlashes(s) && SLASH in s3 {
      StripAllSlashes(s);
      assert s3 != "" && s3[|s3| - 1] != SLASH;
      assert |StripName(s3)| < |s3|;
    }
  }

  lemma DotAndRootAreFixed()
    ensures PosixDirname("/") == "/" && PosixDirname(".") == "."
  {
    assert "."[0] == '.';
    StripLeavesName(".");
  }

  lemma {:induction false} IterationEnds(s: string) returns (n: nat)
    ensures n <= |s| + 1
    ensures Iterate(s, n) == "/" || Iterate(s, n) == "."
    ensures forall k :: k >= n ==> Iterate(s, k) == Iterate(s, n)
    decreases |s|
  {
    DirnameShortens(s);
    var d := PosixDirname(s);
    if d == "/" || d == "." {
      n := 1;
      DotAndRootAreFixed();
      assert Iterate(d, 0) == d;
      forall k: nat | k >= 1 ensures Iterate(s, k) == d {
        FixedForever(d, k - 1);
      }
    } else {
      var m := IterationEnds(d);
      n := m + 1;
      forall k: nat | k >= n ensures Iterate(s, k) == Iterate(s, n) {
        assert Iterate(d, k - 1) == Iterate(d, m);
      }
    }
  }

  lemma {:induction false} FixedForever(d: string, k: nat)
    requires PosixDirname(d) == d
    ensures Iterate(d, k) == d
    decreases k
  {
    if k > 0 {
      FixedForever(d, k - 1);
    }
  }

  // ---------------------------------------------------------------- the C code

  /** strrchr(buffer, '/'). */
  method FindLastSlash(buffer: array<char>) returns (p: int)
    requires buffer.Length > 0
    ensures p == LastSlash(StrOf(buffer[..]))
  {
    var s := StrOf(buffer[..]);
    p := |s| - 1;
    while p >= 0 && s[p] != SLASH
      invariant -1 <= p < |s|
      invariant forall i :: p < i < |s| ==> s[i] != SLASH
    {
      p := p - 1;
    }
    LastSlashUnique(s, p);
  }

  /** Writes terminators backward over the slashes that end at p, never over index 0. */
  method TrimSlashes(buffer: array<char>, p: nat, ghost s: string)
    requires StrOf(buffer[..]) == s && p < |s| < buffer.Length
    requires p != 0 ==> s[p] == SLASH
    modifies buffer
    ensures StrOf(buffer[..]) == if p == 0 then s else s[..TrimTo(s, p - 1) + 1]
    ensures p == 0 ==> buffer[..] == old(buffer[..])
  {
    assert forall i :: 0 <= i < |s| ==> buffer[..][i] == s[i];
    var q := p;
    while q != 0 && buffer[q] == SLASH
      invariant 0 <= q <= p
      invariant forall i :: 0 <= i <= q ==> buffer[i] == s[i]
      invariant q == p ==> buffer[..] == old(buffer[..])
      invariant q < p ==> buffer[q + 1] == NUL
      invariant p != 0 ==> TrimTo(s, q) == TrimTo(s, p)
    {
      buffer[q] := NUL;
      q := q - 1;
    }
    if p != 0 {
      assert buffer[..][..q + 1] == s[..q + 1];
      assert NulFree(s[..q + 1]);
      StrOfUnique(buffer[..], s[..q + 1]);
    }
  }

  method RemoveTrailing(path2: array<char>, p: nat, ghost s: string)
    requires StrOf(path2[..]) == s && |s| < path2.Length && p == LastSlash(s)
    modifies path2
    ensures StrOf(path2[..]) == WithoutTrailing(s)
  {
    assert path2[p + 1] == NUL <==> p == |s| - 1 by {
      assert p + 1 < |s| ==> path2[..][p + 1] == s[p + 1];
    }
    if path2[p + 1] == NUL {
      TrimSlashes(path2, p, s);
    }
  }

  method RemoveComponent(path2: array<char>, ghost s: string)
    requires path2.Length == EXECUTOR_BUFFER_SIZE
    requires StrOf(path2[..]) == s && |s| < path2.Length
    modifies path2
    ensures StrOf(path2[..]) == WithoutComponent(s)
  {
    var p := FindLastSlash(path2);
    if p != -1 {
      if p == 0 {
        path2[1] := NUL;
        assert path2[..][..1] == s[..1];
        StrOfUnique(path2[..], s[..1]);
      } else {
        TrimSlashes(path2, p, s);
      }
    } else {
      var _ := Strlcpy(path2, ".", EXECUTOR_BUFFER_SIZE);
    }
  }

  method DirName(path1: string, path2: array<char>)
    requires NulFree(path1) && path2.Length == EXECUTOR_BUFFER_SIZE
    modifies path2
    ensures StrOf(path2[..]) == PosixDirname(Clip(path1, EXECUTOR_BUFFER_SIZE))
  {
    ghost var s := Clip(path1, EXECUTOR_BUFFER_SIZE);
    EditIsPosix(s);
    var _ := Strlcpy(path2, path1, EXECUTOR_BUFFER_SIZE);
    var p := FindLastSlash(path2);
    if path2[0] == NUL || p == -1 {
      var _ := Strlcpy(path2, ".", EXECUTOR_BUFFER_SIZE);
      return;
    }
    RemoveTrailing(path2, p, s);
    RemoveComponent(path2, StrOf(path2[..]));
  }
}
