/** C strings and the executor's two truncating copy routines
    (pegasus/src/Executor/Strlcpy.h and Strlcat.h).

    A `const char*` argument is modelled by the characters before its terminator;
    a `char[]` buffer that is written is an `array<char>`. */
module CStrings {

  const NUL: char := '\0'

  predicate NulFree(s: string) {
    NUL !in s
  }

  /** The C string held by a buffer: everything before the first terminator,
      or the whole buffer when there is none. */
  function StrOf(b: string): (s: string)
    ensures |s| <= |b| && s == b[..|s|] && NulFree(s)
    ensures |s| < |b| ==> b[|s|] == NUL
  {
    if b == "" || b[0] == NUL then "" else
      assert b == [b[0]] + b[1..];
      [b[0]] + StrOf(b[1..])
  }

  lemma {:induction false} StrOfUnique(b: string, s: string)
    requires NulFree(s) && |s| < |b| && b[..|s|] == s && b[|s|] == NUL
    ensures StrOf(b) == s
  {
    if s != "" {
      assert b[0] == s[0];
      StrOfUnique(b[1..], s[1..]);
    }
  }

  /** The buffer holds exactly the C string s. */
  ghost predicate Shows(buffer: array<char>, s: string)
    reads buffer
  {
    |s| < buffer.Length && NulFree(s) && buffer[..|s|] == s && buffer[|s|] == NUL
  }

  lemma ShowsStrOf(buffer: array<char>, s: string)
    requires |s| < buffer.Length
    ensures Shows(buffer, s) <==> StrOf(buffer[..]) == s
  {
    if Shows(buffer, s) {
      assert buffer[..][..|s|] == s;
      StrOfUnique(buffer[..], s);
    }
    if StrOf(buffer[..]) == s {
      assert buffer[..|s|] == buffer[..][..|s|];
    }
  }

  /** What a buffer of `size` bytes can hold of s, terminator included. */
  function Clip(s: string, size: nat): (c: string)
    requires size > 0
    ensures c <= s && |c| < size
    ensures |s| < size <==> c == s
    ensures |s| >= size ==> |c| == size - 1
    ensures NulFree(s) ==> NulFree(c)
  {
    if |s| < size then s else s[..size - 1]
  }

  /** Clipping early loses nothing that clipping at the end would keep. */
  lemma ClipThenAppend(s: string, t: string, size: nat)
    requires size > 0
    ensures Clip(Clip(s, size) + t, size) == Clip(s + t, size)
  {
    if |s| < size {
    } else {
      assert Clip(s, size) == s[..size - 1];
      assert (s[..size - 1] + t)[..size - 1] == s[..size - 1] == (s + t)[..size - 1];
    }
  }

  method Strlcpy(dest: array<char>, src: string, size: nat) returns (n: nat)
    requires size <= dest.Length && NulFree(src)
    modifies dest
    ensures n == |src|
    ensures size > 0 ==> StrOf(dest[..size]) == StrOf(dest[..]) == Clip(src, size)
    ensures forall k :: (if size == 0 then 0 else |Clip(src, size)| + 1) <= k < dest.Length ==> dest[k] == old(dest[k])
  {
    var i := 0;
    while i < |src| && i + 1 < size
      invariant 0 <= i <= |src| && (size > 0 ==> i < size) && (size == 0 ==> i == 0)
      invariant forall k :: 0 <= k < i ==> dest[k] == src[k]
      invariant forall k :: i <= k < dest.Length ==> dest[k] == old(dest[k])
    {
      dest[i] := src[i];
      i := i + 1;
    }
    if size > 0 {
      dest[i] := NUL;
      assert dest[..size][..i] == src[..i] == Clip(src, size);
      assert dest[..][..i] == src[..i];
      StrOfUnique(dest[..size], Clip(src, size));
      StrOfUnique(dest[..], Clip(src, size));
    }
    while i < |src|
      invariant i <= |src|
    {
      i := i + 1;
    }
    n := i;
  }

  /** `size` is the size of dest; nothing at or beyond it is read or written. */
  method Strlcat(dest: array<char>, src: string, size: nat) returns (n: nat)
    requires size <= dest.Length && NulFree(src)
    modifies dest
    ensures n == |StrOf(old(dest[..size]))| + |src|
    ensures |StrOf(old(dest[..size]))| == size ==> dest[..] == old(dest[..])
    ensures |StrOf(old(dest[..size]))| < size ==>
              StrOf(dest[..size]) == Clip(StrOf(old(dest[..size])) + src, size)
    ensures forall k :: size <= k < dest.Length ==> dest[k] == old(dest[k])
  {
    ghost var before := StrOf(dest[..size]);
    var i := 0;
    while i < size && dest[i] != NUL
      invariant 0 <= i <= |before|
      invariant NulFree(dest[..i])
    {
      assert dest[..size][i] == dest[i];
      i := i + 1;
    }
    if i < size {
      StrOfUnique(dest[..size], dest[..i]);
    }
    if i == size {
      var k := 0;
      while k < |src|
        invariant k <= |src|
      {
        k := k + 1;
      }
      return size + k;
    }
    ghost var w := before + src;
    var j := 0;
    while j < |src| && i + 1 < size
      invariant 0 <= j <= |src| && i == |before| + j < size
      invariant dest[..i] == w[..i]
      invariant forall k :: size <= k < dest.Length ==> dest[k] == old(dest[k])
    {
      dest[i] := src[j];
      i, j := i + 1, j + 1;
    }
    dest[i] := NUL;
    assert dest[..size][..i] == w[..i] == Clip(w, size);
    StrOfUnique(dest[..size], Clip(w, size));
    while j < |src|
      invariant j <= |src| && i == |before| + j
    {
      j, i := j + 1, i + 1;
    }
    n := i;
  }
}
