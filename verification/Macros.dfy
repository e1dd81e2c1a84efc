/** The executor's macro list and macro expansion (pegasus/src/Executor/Macro.c). */
module Macros {
  import opened Collections
  import opened CStrings

  // ---------------------------------------------------------------- the binding list

  datatype Binding = Binding(name: string, value: string)

  ghost predicate Distinct(bs: seq<Binding>) {
    forall i, j :: 0 <= i < j < |bs| ==> bs[i].name != bs[j].name
  }

  ghost predicate NulFreeBindings(bs: seq<Binding>) {
    forall i :: 0 <= i < |bs| ==> NulFree(bs[i].name) && NulFree(bs[i].value)
  }

  /** The finite map a binding list stands for. */
  function AsMap(bs: seq<Binding>): (m: map<string, string>) {
    if bs == [] then map[] else AsMap(bs[1..])[bs[0].name := bs[0].value]
  }

  ghost predicate Bound(bs: seq<Binding>, name: string) {
    exists i :: 0 <= i < |bs| && bs[i].name == name
  }

  lemma {:induction false} AsMapKeys(bs: seq<Binding>, name: string)
    ensures name in AsMap(bs) <==> Bound(bs, name)
  {
    if bs != [] {
      AsMapKeys(bs[1..], name);
      assert Bound(bs, name) <==> bs[0].name == name || Bound(bs[1..], name) by {
        if Bound(bs, name) {
          var i :| 0 <= i < |bs| && bs[i].name == name;
          assert i > 0 ==> bs[1..][i - 1].name == name;
        }
        if Bound(bs[1..], name) {
          var i :| 0 <= i < |bs[1..]| && bs[1..][i].name == name;
          assert bs[i + 1].name == name;
        }
      }
    }
  }

  lemma {:induction false} AsMapAt(bs: seq<Binding>, i: nat)
    requires Distinct(bs) && i < |bs|
    ensures bs[i].name in AsMap(bs) && AsMap(bs)[bs[i].name] == bs[i].value
  {
    if i > 0 {
      AsMapAt(bs[1..], i - 1);
    }
  }

  lemma {:induction false} AsMapAppend(bs: seq<Binding>, b: Binding)
    requires b.name !in AsMap(bs)
    ensures AsMap(bs + [b]) == AsMap(bs)[b.name := b.value]
  {
    if bs != [] {
      assert (bs + [b])[1..] == bs[1..] + [b];
      AsMapAppend(bs[1..], b);
    }
  }

  lemma {:induction false} AsMapRemove(bs: seq<Binding>, i: nat)
    requires Distinct(bs) && i < |bs|
    ensures AsMap(bs[..i] + bs[i + 1..]) == AsMap(bs) - {bs[i].name}
  {
    if i == 0 {
      assert bs[..0] + bs[1..] == bs[1..];
      AsMapKeys(bs[1..], bs[0].name);
      assert !Bound(bs[1..], bs[0].name);
    } else {
      var rest := bs[1..];
      assert bs[..i] + bs[i + 1..] == [bs[0]] + (rest[..i - 1] + rest[i..]);
      assert (bs[..i] + bs[i + 1..])[1..] == rest[..i - 1] + rest[i..];
      AsMapRemove(rest, i - 1);
      assert bs[i] == rest[i - 1] && bs[0].name != bs[i].name;
    }
  }

  /** One list operation, as a caller sees it. */
  datatype Op = Define(name: string, value: string, mallocOk: bool) | Undefine(name: string)

  function Apply(bs: seq<Binding>, op: Op): seq<Binding> {
    match op
    case Define(n, v, mallocOk) =>
      if n in AsMap(bs) || !mallocOk then bs else bs + [Binding(n, v)]
    case Undefine(n) => Without(bs, n)
  }

  function Without(bs: seq<Binding>, name: string): seq<Binding> {
    if bs == [] then [] else if bs[0].name == name then bs[1..] else [bs[0]] + Without(bs[1..], name)
  }

  lemma {:induction false} WithoutAt(bs: seq<Binding>, i: nat)
    requires Distinct(bs) && i < |bs|
    ensures Without(bs, bs[i].name) == bs[..i] + bs[i + 1..]
  {
    if i > 0 {
      WithoutAt(bs[1..], i - 1);
    }
  }

  lemma {:induction false} WithoutMissing(bs: seq<Binding>, name: string)
    requires name !in AsMap(bs)
    ensures Without(bs, name) == bs
  {
    if bs != [] {
      WithoutMissing(bs[1..], name);
    }
  }

  function Run(bs: seq<Binding>, ops: seq<Op>): seq<Binding>
    decreases |ops|
  {
    if ops == [] then bs else Run(Apply(bs, ops[0]), ops[1..])
  }

  function RunMap(m: map<string, string>, ops: seq<Op>): map<string, string>
    decreases |ops|
  {
    if ops == [] then m else RunMap(ApplyMap(m, ops[0]), ops[1..])
  }

  function ApplyMap(m: map<string, string>, op: Op): map<string, string> {
    match op
    case Define(n, v, mallocOk) => if n in m || !mallocOk then m else m[n := v]
    case Undefine(n) => m - {n}
  }

  lemma ApplyKeepsDistinct(bs: seq<Binding>, op: Op)
    requires Distinct(bs)
    ensures Distinct(Apply(bs, op))
  {
    match op {
      case Define(n, v, mallocOk) =>
        AsMapKeys(bs, n);
      case Undefine(n) =>
        AsMapKeys(bs, n);
        if Bound(bs, n) {
          var i :| 0 <= i < |bs| && bs[i].name == n;
          WithoutAt(bs, i);
        } else {
          WithoutMissing(bs, n);
        }
    }
  }

  lemma ApplyRefinesMap(bs: seq<Binding>, op: Op)
    requires Distinct(bs)
    ensures AsMap(Apply(bs, op)) == ApplyMap(AsMap(bs), op)
  {
    match op {
      case Define(n, v, mallocOk) =>
        if n !in AsMap(bs) {
          AsMapAppend(bs, Binding(n, v));
        }
      case Undefine(n) =>
        AsMapKeys(bs, n);
        if Bound(bs, n) {
          var i :| 0 <= i < |bs| && bs[i].name == n;
          WithoutAt(bs, i);
          AsMapRemove(bs, i);
        } else {
          WithoutMissing(bs, n);
          assert AsMap(bs) - {n} == AsMap(bs);
        }
    }
  }

  /** Any sequence of definitions and removals, run on the list, is that sequence run on a
      map: definitions never overwrite, removals drop one name; names stay distinct. */
  lemma {:induction false} ListRefinesMap(bs: seq<Binding>, ops: seq<Op>)
    requires Distinct(bs)
    ensures Distinct(Run(bs, ops))
    ensures AsMap(Run(bs, ops)) == RunMap(AsMap(bs), ops)
    decreases |ops|
  {
    if ops != [] {
      ApplyKeepsDistinct(bs, ops[0]);
      ApplyRefinesMap(bs, ops[0]);
      ListRefinesMap(Apply(bs, ops[0]), ops[1..]);
    }
  }

  /** Undefining what was just defined restores the list, order included. */
  lemma DefineThenUndefine(bs: seq<Binding>, name: string, value: string)
    requires Distinct(bs) && name !in AsMap(bs)
    ensures Run(bs, [Define(name, value, true), Undefine(name)]) == bs
  {
    var more := bs + [Binding(name, value)];
    assert Apply(bs, Define(name, value, true)) == more;
    AsMapKeys(bs, name);
    WithoutAt(more, |bs|);
    assert more[..|bs|] + more[|bs| + 1..] == bs;
    var ops := [Define(name, value, true), Undefine(name)];
    assert ops[1..] == [Undefine(name)] && ops[1..][1..] == [];
    assert Run(more, ops[1..]) == Run(bs, ops[1..][1..]);
  }

  class Macro {
    const name: string
    const value: string
    var next: Macro?

    constructor (name: string, value: string)
      ensures this.name == name && this.value == value && next == null
    {
      this.name, this.value, next := name, value, null;
    }
  }

  /** The singly linked list headed by `_macros`. */
  class MacroList {
    var head: Macro?
    ghost var spine: seq<Macro>

    ghost predicate Valid()
      reads this, spine
    {
      Linked() && Distinct(Bindings()) && NulFreeBindings(Bindings())
    }

    /** head and the next fields spell out the spine, which has no repeated node. */
    ghost predicate Linked()
      reads this, spine
    {
      && (head == if spine == [] then null else spine[0])
      && (forall i {:trigger spine[i].next} :: 0 <= i < |spine| ==> spine[i].next == Successor(spine, i))
      && (forall i, j :: 0 <= i < j < |spine| ==> spine[i] != spine[j])
    }

    static ghost function Successor(s: seq<Macro>, i: nat): Macro?
      requires i < |s|
    {
      if i + 1 < |s| then s[i + 1] else null
    }

    /** The bindings of a chain of nodes; names and values never change. */
    static ghost function BindingsOf(nodes: seq<Macro>): (bs: seq<Binding>)
      ensures |bs| == |nodes|
      ensures forall i :: 0 <= i < |nodes| ==> bs[i] == Binding(nodes[i].name, nodes[i].value)
    {
      seq(|nodes|, i requires 0 <= i < |nodes| => Binding(nodes[i].name, nodes[i].value))
    }

    ghost function Bindings(): (bs: seq<Binding>)
      reads this
    {
      BindingsOf(spine)
    }

    ghost function Map(): map<string, string>
      reads this
    {
      AsMap(Bindings())
    }

    constructor ()
      ensures Valid() && Bindings() == [] && fresh(set m | m in spine)
    {
      head, spine := null, [];
    }

    /** None stands for the NULL pointer. */
    method FindMacro(name: string) returns (value: Option<string>)
      requires Valid()
      ensures value.Some? <==> name in Map()
      ensures value.Some? ==> value.value == Map()[name] && NulFree(value.value)
    {
      var p := head;
      ghost var i := 0;
      while p != null
        invariant 0 <= i <= |spine|
        invariant p == if i < |spine| then spine[i] else null
        invariant forall k :: 0 <= k < i ==> spine[k].name != name
        decreases |spine| - i
      {
        if p.name == name {
          AsMapAt(Bindings(), i);
          return Some(p.value);
        }
        p := p.next;
        i := i + 1;
      }
      AsMapKeys(Bindings(), name);
      return None;
    }

    /** `mallocOk` is whether malloc delivers; a name already bound is refused. */
    method DefineMacro(name: string, value: string, mallocOk: bool) returns (rc: int)
      requires Valid() && NulFree(name) && NulFree(value)
      modifies this, spine
      ensures Valid() && Bindings() == Apply(old(Bindings()), Define(name, value, mallocOk))
      ensures rc == if name !in old(Map()) && mallocOk then 0 else -1
      ensures rc != 0 ==> unchanged(this) && spine == old(spine)
      ensures fresh((set m | m in spine) - (set m | m in old(spine)))
    {
      var found := FindMacro(name);
      if found.Some? {
        return -1;
      }
      if !mallocOk {
        return -1;
      }
      var macro := new Macro(name, value);
      ghost var was, before := spine, Bindings();
      var p := head;
      var prev: Macro? := null;
      ghost var i := 0;
      while p != null
        invariant 0 <= i <= |spine|
        invariant p == if i < |spine| then spine[i] else null
        invariant prev == if i > 0 then spine[i - 1] else null
        decreases |spine| - i
      {
        prev := p;
        p := p.next;
        i := i + 1;
      }
      if prev != null {
        prev.next := macro;
      } else {
        head := macro;
      }
      macro.next := null;
      spine := spine + [macro];
      assert Bindings() == before + [Binding(name, value)];
      AsMapKeys(before, name);
      return 0;
    }

    /** Takes the i-th node out of the chain. */
    method Unlink(prev: Macro?, p: Macro, ghost i: nat)
      requires Linked() && i < |spine| && spine[i] == p
      requires prev == if i > 0 then spine[i - 1] else null
      modifies this, spine
      ensures Linked() && spine == old(spine)[..i] + old(spine)[i + 1..]
    {
      ghost var was := spine;
      if prev != null {
        prev.next := p.next;
      } else {
        head := p.next;
      }
      spine := was[..i] + was[i + 1..];
      assert forall k :: 0 <= k < |spine| ==> spine[k] == was[if k < i then k else k + 1];
    }

    method UndefineMacro(name: string) returns (rc: int)
      requires Valid()
      modifies this, spine
      ensures Valid() && Bindings() == Apply(old(Bindings()), Undefine(name))
      ensures rc == if name in old(Map()) then 0 else -1
      ensures (set m | m in spine) <= (set m | m in old(spine))
    {
      ghost var before := Bindings();
      var p := head;
      var prev: Macro? := null;
      ghost var i := 0;
      while p != null
        invariant 0 <= i <= |spine|
        invariant p == if i < |spine| then spine[i] else null
        invariant prev == if i > 0 then spine[i - 1] else null
        invariant forall k :: 0 <= k < i ==> before[k].name != name
        decreases |spine| - i
      {
        if p.name == name {
          Unlink(prev, p, i);
          assert Bindings() == before[..i] + before[i + 1..];
          WithoutAt(before, i);
          ApplyKeepsDistinct(before, Undefine(name));
          AsMapKeys(before, name);
          return 0;
        }
        prev := p;
        p := p.next;
        i := i + 1;
      }
      AsMapKeys(before, name);
      WithoutMissing(before, name);
      return -1;
    }
  }
}
