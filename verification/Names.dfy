/** What the words of a path mean when nothing on the way is a link: repeated slashes and `.` change
    nothing, `..` goes up (the Base Definitions of POSIX.1-2017, section 4.13). */
module Names {
  import opened Collections
  import opened Kernels

  function FirstSlash(s: string): (n: nat)
    ensures n <= |s| && '/' !in s[..n] && (n < |s| ==> s[n] == '/')
  {
    if s == "" || s[0] == '/' then 0
    else
      var n := 1 + FirstSlash(s[1..]);
      assert s[..n] == [s[0]] + s[1..][..n - 1];
      n
  }

  /** What stands between the slashes, which may be nothing. */
  function Components(path: string): (cs: seq<string>)
    ensures cs != []
  {
    var n := FirstSlash(path);
    if n == |path| then [path] else [path[..n]] + Components(path[n + 1..])
  }

  function Follow(at: Name, c: string): Name {
    if c == "" || c == "." then at
    else if c == ".." then if at == [] then [] else at[..|at| - 1]
    else at + [c]
  }

  function Walk(at: Name, cs: seq<string>): Name {
    if cs == [] then at else Follow(Walk(at, cs[..|cs| - 1]), cs[|cs| - 1])
  }

  function Start(cwd: Name, path: string): Name {
    if path != "" && path[0] == '/' then [] else cwd
  }

  /** The file of a path, from the root. */
  function Lexical(cwd: Name, path: string): Name {
    Walk(Start(cwd, path), Components(path))
  }

  // ---------------------------------------------------------------- where a walk ends

  /** A walk without its detours: so many steps up, then down these. */
  datatype Net = Net(ups: nat, downs: Name)

  function NetOf(cs: seq<string>): Net {
    if cs == [] then Net(0, []) else Further(NetOf(cs[..|cs| - 1]), cs[|cs| - 1])
  }

  function Further(net: Net, c: string): Net {
    if c == "" || c == "." then net
    else if c != ".." then Net(net.ups, net.downs + [c])
    else if net.downs == [] then Net(net.ups + 1, [])
    else Net(net.ups, net.downs[..|net.downs| - 1])
  }

  /** What is left of a place after going up; the root is its own parent. */
  function Above(at: Name, ups: nat): Name {
    if ups <= |at| then at[..|at| - ups] else []
  }

  /** The place that a net walk leads to. */
  function Reached(at: Name, net: Net): Name {
    Above(at, net.ups) + net.downs
  }

  lemma FollowNet(at: Name, net: Net, c: string)
    ensures Follow(Reached(at, net), c) == Reached(at, Further(net, c))
  {
  }

  lemma {:induction false} WalkIsNet(at: Name, cs: seq<string>)
    ensures Walk(at, cs) == Reached(at, NetOf(cs))
    decreases |cs|
  {
    if cs != [] {
      WalkIsNet(at, cs[..|cs| - 1]);
      FollowNet(at, NetOf(cs[..|cs| - 1]), cs[|cs| - 1]);
    }
  }

  /** The walk climbs above the place where it begins. */
  predicate Climbs(cs: seq<string>) {
    NetOf(cs).ups > 0
  }

  /** A walk ends below its beginning exactly when it does not climb, or goes down again the same way. */
  lemma BelowExactly(at: Name, cs: seq<string>)
    ensures at <= Walk(at, cs) <==> !Climbs(cs) || at[|Above(at, NetOf(cs).ups)|..] <= NetOf(cs).downs
  {
    var net := NetOf(cs);
    var above := Above(at, net.ups);
    WalkIsNet(at, cs);
    assert at == above + at[|above|..];
    if at <= Walk(at, cs) {
      assert at[|above|..] <= (above + net.downs)[|above|..];
    }
  }

  lemma {:induction false} WalkAppend(at: Name, a: seq<string>, b: seq<string>)
    ensures Walk(at, a + b) == Walk(Walk(at, a), b)
    decreases |b|
  {
    if b == [] {
      assert a + b == a;
    } else {
      assert (a + b)[..|a + b| - 1] == a + b[..|b| - 1];
      WalkAppend(at, a, b[..|b| - 1]);
    }
  }

  lemma {:induction false} FirstSlashAt(a: string, b: string)
    requires '/' !in a
    ensures FirstSlash(a + "/" + b) == |a| && FirstSlash(a) == |a|
  {
    if a != "" {
      assert (a + "/" + b)[1..] == a[1..] + "/" + b;
      FirstSlashAt(a[1..], b);
    }
  }

  lemma ComponentInFront(c: string, path: string)
    requires '/' !in c
    ensures Components(c + "/" + path) == [c] + Components(path)
  {
    FirstSlashAt(c, path);
    assert (c + "/" + path)[..|c|] == c && (c + "/" + path)[|c| + 1..] == path;
  }

  lemma OneComponent(c: string)
    requires '/' !in c
    ensures Components(c) == [c]
  {
    FirstSlashAt(c, "");
  }

  lemma SlashMoves(a: string, n: nat, b: string)
    requires n < |a| && a[n] == '/'
    ensures a + "/" + b == a[..n] + "/" + (a[n + 1..] + "/" + b)
  {
  }

  lemma {:induction false} ComponentsAppend(a: string, b: string)
    ensures Components(a + "/" + b) == Components(a) + Components(b)
    decreases |a|
  {
    var n := FirstSlash(a);
    if n == |a| {
      OneComponent(a);
      ComponentInFront(a, b);
    } else {
      var x, y := a[..n], a[n + 1..];
      calc {
        Components(a + "/" + b);
        { SlashMoves(a, n, b); }
        Components(x + "/" + (y + "/" + b));
        { ComponentInFront(x, y + "/" + b); }
        [x] + Components(y + "/" + b);
        { ComponentsAppend(y, b); }
        [x] + (Components(y) + Components(b));
        { Associative([x], Components(y), Components(b)); }
        [x] + Components(y) + Components(b);
        Components(a) + Components(b);
      }
    }
  }

  /** The walk behind a directory begins at that directory. */
  lemma LexicalBehind(cwd: Name, dir: string, rest: string)
    ensures Lexical(cwd, dir + "/" + rest) == Walk(Lexical(cwd, dir + "/"), Components(rest))
  {
    var at := Start(cwd, dir + "/");
    assert Start(cwd, dir + "/" + rest) == at by {
      assert (dir + "/" + rest)[0] == (dir + "/")[0];
    }
    ComponentsAppend(dir, rest);
    WalkAppend(at, Components(dir), Components(rest));
    assert dir + "/" + "" == dir + "/";
    WalkOn(at, dir, "");
  }

  /** A path behind a directory stands for something below it exactly when its rest does not climb, or
      comes down again through the same directories. */
  lemma ConfinedExactly(cwd: Name, dir: string, rest: string)
    ensures var d, net := Lexical(cwd, dir + "/"), NetOf(Components(rest));
            d <= Lexical(cwd, dir + "/" + rest) <==> !Climbs(Components(rest)) || d[|Above(d, net.ups)|..] <= net.downs
  {
    LexicalBehind(cwd, dir, rest);
    BelowExactly(Lexical(cwd, dir + "/"), Components(rest));
  }

  // ---------------------------------------------------------------- what paths can stand for

  /** A component that is the name of an entry. */
  predicate IsEntry(c: string) {
    c != "" && c != "." && c != ".." && '/' !in c
  }

  predicate IsProper(n: Name) {
    forall i :: 0 <= i < |n| ==> IsEntry(n[i])
  }

  lemma WalkOne(at: Name, c: string)
    ensures Walk(at, [c]) == Follow(at, c)
  {
    assert [c][..0] == [];
  }

  /** One component more, behind. */
  lemma WalkOn(at: Name, path: string, c: string)
    requires '/' !in c
    ensures Walk(at, Components(path + "/" + c)) == Follow(Walk(at, Components(path)), c)
  {
    ComponentsAppend(path, c);
    OneComponent(c);
    WalkAppend(at, Components(path), [c]);
    WalkOne(Walk(at, Components(path)), c);
  }

  /** One component more, in front. */
  lemma WalkFrom(at: Name, c: string, path: string)
    requires '/' !in c
    ensures Walk(at, Components(c + "/" + path)) == Walk(Follow(at, c), Components(path))
  {
    ComponentInFront(c, path);
    WalkAppend(at, [c], Components(path));
    WalkOne(at, c);
  }

  lemma LexicalEntry(cwd: Name, dir: string, entry: string)
    requires IsEntry(entry)
    ensures Lexical(cwd, dir + "/" + entry) == Lexical(cwd, dir + "/") + [entry]
  {
    LexicalBehind(cwd, dir, entry);
    OneComponent(entry);
    WalkOne(Lexical(cwd, dir + "/"), entry);
  }

  function DownTo(n: Name): string {
    if n == [] then "." else DownTo(n[..|n| - 1]) + "/" + n[|n| - 1]
  }

  /** Up so many times, and then down to a name. */
  function Detour(ups: nat, n: Name): string {
    if ups == 0 then DownTo(n) else ".." + "/" + Detour(ups - 1, n)
  }

  lemma {:induction false} WalkDown(at: Name, n: Name)
    requires IsProper(n)
    ensures Walk(at, Components(DownTo(n))) == at + n
    decreases |n|
  {
    if n == [] {
      OneComponent(".");
      WalkOne(at, ".");
    } else {
      var front, last := n[..|n| - 1], n[|n| - 1];
      WalkDown(at, front);
      WalkOn(at, DownTo(front), last);
      assert at + n == at + front + [last];
    }
  }

  lemma AboveAgain(at: Name, ups: nat)
    requires ups > 0
    ensures Above(Follow(at, ".."), ups - 1) == Above(at, ups)
  {
  }

  lemma {:induction false} WalkDetour(at: Name, ups: nat, n: Name)
    requires IsProper(n)
    ensures Walk(at, Components(Detour(ups, n))) == Above(at, ups) + n
    decreases ups
  {
    if ups == 0 {
      WalkDown(at, n);
    } else {
      WalkFrom(at, "..", Detour(ups - 1, n));
      WalkDetour(Follow(at, ".."), ups - 1, n);
      AboveAgain(at, ups);
    }
  }

  /** Every name is what some path behind the directory stands for. */
  lemma AnyNameBehind(cwd: Name, dir: string, n: Name)
    requires IsProper(n)
    ensures Lexical(cwd, dir + "/" + Detour(|Lexical(cwd, dir + "/")|, n)) == n
  {
    var d := Lexical(cwd, dir + "/");
    LexicalBehind(cwd, dir, Detour(|d|, n));
    WalkDetour(d, |d|, n);
  }
}
