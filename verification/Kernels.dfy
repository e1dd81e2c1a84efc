/** The kernel objects the executor handles: descriptors, files and pipes, with the executor's
    own descriptor routines (pegasus/src/Executor/FileHandle.c).

    Whether a system call succeeds is an argument of the call. */
module Kernels {

  /** What a path stands for. Two paths may stand for one file. */
  type Name = seq<string>

  type Files = map<Name, string>

  datatype Resource =
    | DevNull
    | Regular(name: Name)
    | PipeEnd(id: nat, writing: bool)
    | Foreign(id: nat)

  type Descriptors = map<int, Resource>

  /** The smallest descriptor number that is not in use, from k on. */
  function LowestFreeFrom(fds: Descriptors, k: nat): (fd: nat)
    requires forall i :: 0 <= i < k ==> i in fds
    ensures fd !in fds && fd >= k
    ensures forall i :: 0 <= i < fd ==> i in fds
    decreases |fds.Keys| - k
  {
    InUseBounded(fds, k);
    if k in fds then InUseBounded(fds, k + 1); LowestFreeFrom(fds, k + 1) else k
  }

  lemma InUseBounded(fds: Descriptors, k: nat)
    requires forall i :: 0 <= i < k ==> i in fds
    ensures k <= |fds.Keys|
  {
    var used := Below(k);
    assert fds.Keys == used + (fds.Keys - used);
  }

  ghost function Below(k: nat): (s: set<int>)
    ensures |s| == k
    ensures forall i :: i in s <==> 0 <= i < k
  {
    if k == 0 then {} else Below(k - 1) + {k - 1}
  }

  function LowestFree(fds: Descriptors): (fd: nat)
    ensures fd !in fds
    ensures forall i :: 0 <= i < fd ==> i in fds
  {
    LowestFreeFrom(fds, 0)
  }

  lemma LowestFreeIs(fds: Descriptors, k: nat)
    requires k !in fds && forall i :: 0 <= i < k ==> i in fds
    ensures LowestFree(fds) == k
  {
  }

  predicate Swept(fd: int, limit: int, fd1: int, fd2: int) {
    3 <= fd < limit && fd != fd1 && fd != fd2
  }

  /** What a sweep from 3 up to the limit leaves. */
  function Unswept(fds: Descriptors, limit: int, fd1: int, fd2: int): Descriptors {
    map fd | fd in fds && !Swept(fd, limit, fd1, fd2) :: fds[fd]
  }

  const STDIO: set<int> := {0, 1, 2}

  /** Which of the three opens of /dev/null succeed. */
  datatype NullOpens = NullOpens(input: bool, output: bool, error: bool)

  function Opened(calls: NullOpens): nat {
    (if calls.input then 1 else 0) + (if calls.output then 1 else 0) + (if calls.error then 1 else 0)
  }

  /** The first n of 0, 1, 2 on /dev/null. */
  function OnDevNull(base: Descriptors, n: nat): Descriptors {
    if n == 0 then base
    else if n == 1 then base[0 := DevNull]
    else if n == 2 then base[0 := DevNull][1 := DevNull]
    else base[0 := DevNull][1 := DevNull][2 := DevNull]
  }

  /** 0, 1, 2 are closed, and the opens that succeed take the lowest of them. */
  function Redirected(fds: Descriptors, calls: NullOpens): Descriptors {
    OnDevNull(fds - STDIO, Opened(calls))
  }

  datatype OpenFlags = OpenFlags(create: bool, exclusive: bool, truncate: bool)

  lemma OpenTakesLowest(base: Descriptors, n: nat)
    requires base.Keys !! STDIO && n < 3
    ensures LowestFree(OnDevNull(base, n)) == n
    ensures OnDevNull(base, n)[n := DevNull] == OnDevNull(base, n + 1)
  {
    LowestFreeIs(OnDevNull(base, n), n);
  }

  /** What was opened and closed again leaves no trace. */
  lemma ClosedAgain(fds: Descriptors, a: int, ra: Resource, b: int, rb: Resource)
    requires a !in fds && b !in fds && a != b
    ensures fds[a := ra] - {a} == fds
    ensures fds[a := ra][b := rb] - {a} - {b} == fds && fds[a := ra][b := rb] - {b} - {a} == fds
  {
  }

  class Kernel {
    /** How the system reads a path; it is the same for every call. */
    const resolve: string -> Name
    var fds: Descriptors
    var files: Files
    var nextPipe: nat

    constructor (resolve: string -> Name, fds: Descriptors, files: Files)
      ensures this.resolve == resolve && this.fds == fds && this.files == files
    {
      this.resolve, this.fds, this.files, nextPipe := resolve, fds, files, 0;
    }

    method Allocate(r: Resource) returns (fd: nat)
      modifies this`fds
      ensures fd == LowestFree(old(fds)) && fds == old(fds)[fd := r]
    {
      fd := LowestFree(fds);
      fds := fds[fd := r];
    }

    /** open(2) on a regular file; `permitted` stands for everything but existence. */
    method Open(path: string, flags: OpenFlags, permitted: bool) returns (fd: int)
      modifies this`fds, this`files
      ensures fd >= 0 <==> permitted
                           && (if resolve(path) in old(files) then !(flags.create && flags.exclusive) else flags.create)
      ensures fd < 0 ==> fd == -1 && fds == old(fds) && files == old(files)
      ensures fd >= 0 ==> fd == LowestFree(old(fds)) && fds == old(fds)[fd := Regular(resolve(path))]
      ensures fd >= 0 ==>
                files == if resolve(path) in old(files) && !flags.truncate then old(files)
                         else old(files)[resolve(path) := ""]
    {
      var name := resolve(path);
      if !permitted || (name in files && flags.create && flags.exclusive) || (name !in files && !flags.create) {
        return -1;
      }
      if name !in files || flags.truncate {
        files := files[name := ""];
      }
      fd := Allocate(Regular(name));
    }

    /** open("/dev/null", ...). */
    method OpenDevNull(ok: bool) returns (fd: int)
      modifies this`fds
      ensures ok ==> fd == LowestFree(old(fds)) && fds == old(fds)[fd := DevNull]
      ensures !ok ==> fd == -1 && fds == old(fds)
    {
      if !ok {
        return -1;
      }
      fd := Allocate(DevNull);
    }

    /** write(2) at the end of a regular file; at most `room` characters go out. */
    method Write(fd: int, data: string, room: nat) returns (n: nat)
      requires fd in fds && fds[fd].Regular? && fds[fd].name in files
      modifies this`files
      ensures n == if room < |data| then room else |data|
      ensures files == old(files)[fds[fd].name := old(files)[fds[fd].name] + data[..n]]
    {
      n := if room < |data| then room else |data|;
      files := files[fds[fd].name := files[fds[fd].name] + data[..n]];
    }

    method Close(fd: int) returns (rc: int)
      modifies this`fds
      ensures fds == old(fds) - {fd}
      ensures rc == if fd in old(fds) then 0 else -1
    {
      rc := if fd in fds then 0 else -1;
      fds := fds - {fd};
    }

    method Pipe(ok: bool) returns (rc: int, readEnd: int, writeEnd: int)
      modifies this`fds, this`nextPipe
      ensures rc == if ok then 0 else -1
      ensures !ok ==> fds == old(fds) && nextPipe == old(nextPipe)
      ensures ok ==> readEnd >= 0 && writeEnd >= 0 && readEnd != writeEnd
      ensures ok ==> readEnd !in old(fds) && writeEnd !in old(fds)
      ensures ok ==> fds == old(fds)[readEnd := PipeEnd(old(nextPipe), false)][writeEnd := PipeEnd(old(nextPipe), true)]
      ensures ok ==> nextPipe == old(nextPipe) + 1
    {
      if !ok {
        return -1, -1, -1;
      }
      readEnd := Allocate(PipeEnd(nextPipe, false));
      writeEnd := Allocate(PipeEnd(nextPipe, true));
      nextPipe := nextPipe + 1;
      rc := 0;
    }

    method Unlink(path: string, permitted: bool) returns (rc: int)
      modifies this`files
      ensures rc == if permitted && resolve(path) in old(files) then 0 else -1
      ensures files == if rc == 0 then old(files) - {resolve(path)} else old(files)
    {
      var name := resolve(path);
      if !permitted || name !in files {
        return -1;
      }
      files := files - {name};
      rc := 0;
    }

    /** Nothing happens when both paths stand for one file. */
    method Rename(oldPath: string, newPath: string, permitted: bool) returns (rc: int)
      modifies this`files
      ensures rc == if permitted && resolve(oldPath) in old(files) then 0 else -1
      ensures files == if rc != 0 then old(files)
                       else (old(files) - {resolve(oldPath)})[resolve(newPath) := old(files)[resolve(oldPath)]]
    {
      var source, target := resolve(oldPath), resolve(newPath);
      if !permitted || source !in files {
        return -1;
      }
      files := (files - {source})[target := files[source]];
      rc := 0;
    }

    /** Closes 0, 1, 2 and lets three opens take the lowest free numbers: whatever was open
        before, with all three open the set is as before exactly when it held these three. */
    method RedirectTerminalIO(calls: NullOpens)
      modifies this`fds
      ensures fds == Redirected(old(fds), calls)
      ensures Opened(calls) == 3 ==> (fds.Keys == old(fds).Keys <==> STDIO <= old(fds).Keys)
      ensures forall fd :: fd !in STDIO ==> (fd in fds <==> fd in old(fds)) && (fd in fds ==> fds[fd] == old(fds)[fd])
    {
      var _ := Close(0);
      var _ := Close(1);
      var _ := Close(2);
      ghost var base := fds;
      assert base == old(fds) - STDIO;
      var _ := OpenDevNull(calls.input);
      OpenTakesLowest(base, 0);
      ghost var n := if calls.input then 1 else 0;
      assert fds == OnDevNull(base, n);
      var _ := OpenDevNull(calls.output);
      OpenTakesLowest(base, n);
      n := n + if calls.output then 1 else 0;
      assert fds == OnDevNull(base, n);
      var _ := OpenDevNull(calls.error);
      OpenTakesLowest(base, n);
      assert fds == OnDevNull(base, Opened(calls));
    }

    /** `softLimit` is rlim_cur cast to int, so that an infinite limit is -1 and nothing is
        closed, as after a failed getrlimit. */
    method CloseUnusedDescriptors(fd1: int, fd2: int, softLimit: int)
      modifies this`fds
      ensures fds == Unswept(old(fds), softLimit, fd1, fd2)
    {
      var i := 3;
      assert fds == Unswept(fds, 3, fd1, fd2);
      while i < softLimit
        invariant 3 <= i
        invariant if softLimit >= 3 then i <= softLimit else i == 3
        invariant fds == Unswept(old(fds), i, fd1, fd2)
      {
        if i != fd1 && i != fd2 {
          var _ := Close(i);
        }
        assert fds == Unswept(old(fds), i + 1, fd1, fd2);
        i := i + 1;
      }
      assert fds == Unswept(old(fds), softLimit, fd1, fd2);
    }
  }
}
