/** Partial transfers on the executor's non-blocking socket (pegasus/src/Executor/Socket.c).

    The peer's stream, and what select, read and write answer, are the state of a Socket:
    `incoming` is every byte the peer will still send before it closes its end, `events` is
    what the waits observe, from `at` on. A run that uses up its events is still waiting. */
module Sockets {
  import opened Collections
  import opened Messages
  import opened Kernels

  type Positive = n: nat | n > 0 witness 1

  datatype Event =
    | Quiet                                      // select times out
    | Signal                                     // SIGTERM or SIGINT arrives during select
    | Ready(most: Positive, interruptions: nat)  // select is truthful; the transfer is restarted after EINTR
    | Woken                                      // select fails or is wrong; the transfer finds EWOULDBLOCK
    | Broken                                     // the transfer fails otherwise

  /** Select tells the truth and the connection holds. */
  predicate Sound(e: Event) {
    !e.Woken? && !e.Broken?
  }

  predicate SoundFrom(es: seq<Event>, i: nat) {
    forall k :: i <= k < |es| ==> Sound(es[k])
  }

  predicate QuietFrom(es: seq<Event>, i: nat) {
    forall k :: i <= k < |es| ==> !es[k].Signal?
  }

  /** How many times select still reports readiness. */
  function Readies(es: seq<Event>, i: nat): nat
    decreases |es| - i
  {
    if i >= |es| then 0 else (if es[i].Ready? then 1 else 0) + Readies(es, i + 1)
  }

  // ---------------------------------------------------------------- one transfer, as a function of the schedule

  /** Why a transfer loop stops: all moved; the peer has closed its end; the observed run is over;
      a termination signal; nothing there after all; another failure. */
  datatype Why = Complete | Exhausted | OutOfEvents | Caught | Unready | Failed

  /** `next` is the first event that is not used. */
  datatype Transfer = Transfer(why: Why, moved: nat, next: nat)

  /** The transfer of which t is what comes after the first `moved` bytes. */
  function Onwards(moved: nat, t: Transfer): Transfer {
    Transfer(t.why, moved + t.moved, t.next)
  }

  function Min(a: nat, b: nat): nat {
    if a <= b then a else b
  }

  /** Moving r bytes when `available` can be moved at all, from event i on. */
  function Transferring(es: seq<Event>, i: nat, signalled: bool, available: nat, r: nat): (t: Transfer)
    ensures i <= t.next && (t.next == i || t.next <= |es|) && t.moved <= r && t.moved <= available
    decreases |es| - i
  {
    if r == 0 then Transfer(Complete, 0, i)
    else if i >= |es| then Transfer(OutOfEvents, 0, i)
    else if signalled then Transfer(Caught, 0, i + 1)
    else
      match es[i]
      case Signal => Transfer(Caught, 0, i + 1)
      case Quiet => Transferring(es, i + 1, signalled, available, r)
      case Woken => Transfer(Unready, 0, i + 1)
      case Broken => Transfer(Failed, 0, i + 1)
      case Ready(most, _) =>
        var got := Min(Min(most, r), available);
        if got == 0 then Transfer(Exhausted, 0, i + 1)
        else Onwards(got, Transferring(es, i + 1, signalled, available - got, r - got))
  }

  /** One event that does not end the transfer takes what was moved from m to m'. */
  predicate IsTurn(e: Event, available: nat, r: nat, m: nat, m': nat) {
    && m < r && m <= available && m <= m'
    && if e.Ready? then m < m' && m' - m == Min(Min(e.most, r - m), available - m) else e.Quiet? && m' == m
  }

  /** The counts of a loop that has gone around |ms| - 1 times. */
  ghost predicate Turns(es: seq<Event>, i: nat, signalled: bool, available: nat, r: nat, ms: seq<nat>) {
    && ms != [] && ms[0] == 0 && (|ms| > 1 ==> !signalled && i + |ms| - 1 <= |es|)
    && forall k :: 0 <= k < |ms| - 1 ==> TurnAt(es, i, available, r, ms, k)
  }

  predicate TurnAt(es: seq<Event>, i: nat, available: nat, r: nat, ms: seq<nat>, k: nat) {
    k + 1 < |ms| && i + k < |es| && IsTurn(es[i + k], available, r, ms[k], ms[k + 1])
  }

  lemma TurnsGrow(es: seq<Event>, i: nat, signalled: bool, available: nat, r: nat, ms: seq<nat>, m: nat)
    requires Turns(es, i, signalled, available, r, ms) && !signalled && i + |ms| <= |es|
    requires IsTurn(es[i + |ms| - 1], available, r, ms[|ms| - 1], m)
    ensures Turns(es, i, signalled, available, r, ms + [m])
  {
    var more := ms + [m];
    forall k | 0 <= k < |more| - 1 ensures TurnAt(es, i, available, r, more, k) {
      assert k < |ms| - 1 ==> TurnAt(es, i, available, r, ms, k);
    }
  }

  /** The event at i ends the transfer for this reason, with m moved. */
  predicate Ends(es: seq<Event>, i: nat, signalled: bool, available: nat, r: nat, m: nat, why: Why) {
    && m <= r && m <= available
    && match why
       case Complete => m == r
       case OutOfEvents => m < r && i >= |es|
       case Caught => m < r && i < |es| && (signalled || es[i].Signal?)
       case Unready => m < r && i < |es| && !signalled && es[i].Woken?
       case Failed => m < r && i < |es| && !signalled && es[i].Broken?
       case Exhausted => m < r && i < |es| && !signalled && es[i].Ready? && m == available
  }

  function NextAfter(i: nat, why: Why): nat {
    if why == Complete || why == OutOfEvents then i else i + 1
  }

  lemma EndMeaning(es: seq<Event>, i: nat, signalled: bool, available: nat, r: nat, m: nat, why: Why)
    requires Ends(es, i, signalled, available, r, m, why)
    ensures Transferring(es, i, signalled, available - m, r - m) == Transfer(why, 0, NextAfter(i, why))
  {
  }

  lemma OneTurn(es: seq<Event>, i: nat, available: nat, r: nat, m: nat, m': nat, last: nat, t: Transfer)
    requires i < |es| && IsTurn(es[i], available, r, m, m') && m' <= r && m' <= available && m' <= last
    requires Transferring(es, i + 1, false, available - m', r - m') == Transfer(t.why, last - m', t.next)
    ensures Transferring(es, i, false, available - m, r - m) == Transfer(t.why, last - m, t.next)
  {
  }

  lemma TurnIsBounded(e: Event, available: nat, r: nat, m: nat, m': nat)
    requires IsTurn(e, available, r, m, m')
    ensures m <= m' <= r && m' <= available
  {
  }

  /** From turn k on, such a loop moves what the function says. */
  lemma {:induction false} TurnsMeaning(es: seq<Event>, i: nat, signalled: bool, available: nat, r: nat,
                                        ms: seq<nat>, why: Why, k: nat)
    requires Turns(es, i, signalled, available, r, ms) && k < |ms|
    requires Ends(es, i + |ms| - 1, signalled, available, r, ms[|ms| - 1], why)
    ensures ms[k] <= ms[|ms| - 1]
    ensures Transferring(es, i + k, signalled, available - ms[k], r - ms[k])
         == Transfer(why, ms[|ms| - 1] - ms[k], NextAfter(i + |ms| - 1, why))
    decreases |ms| - k
  {
    if k == |ms| - 1 {
      EndMeaning(es, i + k, signalled, available, r, ms[k], why);
    } else {
      assert TurnAt(es, i, available, r, ms, k);
      TurnIsBounded(es[i + k], available, r, ms[k], ms[k + 1]);
      TurnsMeaning(es, i, signalled, available, r, ms, why, k + 1);
      OneTurn(es, i + k, available, r, ms[k], ms[k + 1], ms[|ms| - 1], Transfer(why, 0, NextAfter(i + |ms| - 1, why)));
    }
  }

  lemma AllTurns(es: seq<Event>, i: nat, signalled: bool, available: nat, r: nat, ms: seq<nat>, why: Why)
    requires Turns(es, i, signalled, available, r, ms)
    requires Ends(es, i + |ms| - 1, signalled, available, r, ms[|ms| - 1], why)
    ensures Transferring(es, i, signalled, available, r)
         == Transfer(why, ms[|ms| - 1], NextAfter(i + |ms| - 1, why))
  {
    TurnsMeaning(es, i, signalled, available, r, ms, why, 0);
  }

  /** What the reason says about the schedule and the bytes; and every readiness that is used
      moves a byte, but for one that meets the end of the stream or a signal. */
  lemma {:induction false} TransferMeaning(es: seq<Event>, i: nat, signalled: bool, available: nat, r: nat)
    ensures var t := Transferring(es, i, signalled, available, r);
            && (t.why == Complete <==> t.moved == r)
            && (t.why == Exhausted ==> t.moved == available < r)
            && (t.why == OutOfEvents ==> t.next >= |es|)
            && (t.why == Caught ==> signalled || !QuietFrom(es, i))
            && (t.why == Unready || t.why == Failed ==> !SoundFrom(es, i))
            && Readies(es, i) <= Readies(es, t.next) + t.moved
                                 + (if t.why == Exhausted || t.why == Caught then 1 else 0)
    decreases |es| - i
  {
    if r != 0 && i < |es| && !signalled {
      if es[i].Quiet? {
        TransferMeaning(es, i + 1, signalled, available, r);
      } else if es[i].Ready? && available > 0 {
        var got := Min(Min(es[i].most, r), available);
        TransferMeaning(es, i + 1, signalled, available - got, r - got);
      }
    }
  }

  /** Time-outs only pass the time, and one readiness with enough room moves everything at once. */
  lemma {:induction false} OneReadinessSuffices(es: seq<Event>, i: nat, quiet: nat, available: nat, r: nat)
    requires i + quiet < |es| && 0 < r <= available
    requires forall k :: i <= k < i + quiet ==> es[k].Quiet?
    requires es[i + quiet].Ready? && es[i + quiet].most >= r
    ensures Transferring(es, i, false, available, r) == Transfer(Complete, r, i + quiet + 1)
    decreases quiet
  {
    if quiet > 0 {
      OneReadinessSuffices(es, i + 1, quiet - 1, available, r);
    }
  }

  /** A schedule in order, without signals and with enough readiness, moves everything there is. */
  lemma CalmTransfer(es: seq<Event>, i: nat, available: nat, r: nat)
    requires SoundFrom(es, i) && QuietFrom(es, i) && Readies(es, i) > r
    ensures Transferring(es, i, false, available, r).why == if available >= r then Complete else Exhausted
  {
    TransferMeaning(es, i, false, available, r);
  }

  datatype Item = Data(b: Byte) | Rights(passed: seq<Resource>)

  function AsItems(bytes: seq<Byte>): seq<Item> {
    seq(|bytes|, i requires 0 <= i < |bytes| => Data(bytes[i]))
  }

  /** How many of the items are bytes. */
  function Bytes(items: seq<Item>): nat {
    if items == [] then 0 else Bytes(items[..|items| - 1]) + (if items[|items| - 1].Data? then 1 else 0)
  }

  lemma {:induction false} BytesAppend(a: seq<Item>, b: seq<Item>)
    ensures Bytes(a + b) == Bytes(a) + Bytes(b)
    decreases |b|
  {
    if b == [] {
      assert a + b == a;
    } else {
      BytesAppend(a, b[..|b| - 1]);
      assert (a + b)[..|a + b| - 1] == a + b[..|b| - 1];
    }
  }

  lemma {:induction false} BytesOfData(bytes: seq<Byte>)
    ensures Bytes(AsItems(bytes)) == |bytes|
    decreases |bytes|
  {
    if bytes != [] {
      BytesOfData(bytes[..|bytes| - 1]);
      assert AsItems(bytes)[..|bytes| - 1] == AsItems(bytes[..|bytes| - 1]);
    }
  }

  lemma BytesSent(out: seq<Item>, bytes: seq<Byte>)
    ensures Bytes(out + AsItems(bytes)) == Bytes(out) + |bytes|
  {
    BytesAppend(out, AsItems(bytes));
    BytesOfData(bytes);
  }

  /** Whether control came back to the caller. */
  datatype Halt = Running | Exited | Waiting

  function HaltOf(why: Why): Halt {
    match why case OutOfEvents => Waiting case Caught => Exited case _ => Running
  }

  /** The count that RecvNonBlock returns. */
  function Received(t: Transfer): int {
    match t.why
    case Unready => if t.moved > 0 then t.moved else -1
    case Failed => -1
    case _ => t.moved
  }

  /** The count that SendNonBlock returns. */
  function Sent(t: Transfer): int {
    if t.why == Failed then -1 else t.moved
  }

  /** The counts are the bytes moved, but for failures: -1 when nothing had been there after all, and
      when the transfer failed otherwise. */
  lemma CountsMeaning(es: seq<Event>, i: nat, signalled: bool, available: nat, r: nat)
    ensures var t := Transferring(es, i, signalled, available, r);
            && (SoundFrom(es, i) ==> Received(t) == t.moved && Sent(t) == t.moved)
            && (Received(t) == -1 <==> t.why == Failed || (t.why == Unready && t.moved == 0))
            && (Sent(t) == -1 <==> t.why == Failed)
            && (Received(t) != -1 ==> Received(t) == t.moved) && (Sent(t) != -1 ==> Sent(t) == t.moved)
  {
    TransferMeaning(es, i, signalled, available, r);
  }

  class Socket {
    const events: seq<Event>
    var at: nat
    var incoming: seq<Byte>
    var outgoing: seq<Item>
    var signalled: bool

    constructor (incoming: seq<Byte>, events: seq<Event>)
      ensures this.incoming == incoming && this.events == events && at == 0 && outgoing == [] && !signalled
    {
      this.incoming, this.events, at, outgoing, signalled := incoming, events, 0, [], false;
    }

    /** The next wait. Exited when a termination signal has been caught, Waiting at the end
        of the observed run. */
    method Wait() returns (e: Event, halt: Halt)
      modifies this`at, this`signalled
      ensures halt == Waiting <==> old(at) >= |events|
      ensures halt == Waiting ==> at == old(at) && signalled == old(signalled)
      ensures halt != Waiting ==> e == events[old(at)] && at == old(at) + 1
      ensures halt != Waiting ==> signalled == (old(signalled) || e.Signal?) && (halt == Exited <==> signalled)
    {
      if at >= |events| {
        return Quiet, Waiting;
      }
      e, at := events[at], at + 1;
      if e.Signal? {
        signalled := true;
      }
      halt := if signalled then Exited else Running;
    }

    /** What is left to be ready for, together with what was moved: a transfer that comes back
        complete, or is still waiting, never lowers it. */
    ghost function Balance(): int
      reads this
    {
      Readies(events, at) - |incoming| + Bytes(outgoing)
    }

    /** The loop itself, with its turns: what came in is in the buffer, in order. */
    method Receive(buffer: array<Byte>, size: nat) returns (p: nat, ghost ms: seq<nat>, why: Why)
      requires size <= buffer.Length
      modifies this`incoming, this`at, this`signalled, buffer
      ensures Turns(events, old(at), old(signalled), |old(incoming)|, size, ms) && ms[|ms| - 1] == p
      ensures Ends(events, old(at) + |ms| - 1, old(signalled), |old(incoming)|, size, p, why)
      ensures at == NextAfter(old(at) + |ms| - 1, why) && signalled == (old(signalled) || why == Caught)
      ensures incoming == old(incoming)[p..] && buffer[..p] == old(incoming)[..p]
    {
      var r := size;
      p, ms, why := 0, [0], Complete;
      while r != 0
        invariant p + r == size && 0 <= r && p <= |old(incoming)| && why == Complete
        invariant incoming == old(incoming)[p..] && buffer[..p] == old(incoming)[..p]
        invariant signalled == old(signalled)
        invariant Turns(events, old(at), signalled, |old(incoming)|, size, ms)
        invariant at == old(at) + |ms| - 1 && ms[|ms| - 1] == p
        decreases |events| - at
      {
        var e, halt := Wait();
        if halt != Running {
          why := if halt == Exited then Caught else OutOfEvents;
          return;
        }
        if e.Woken? {
          why := Unready;
          return;
        }
        if e.Broken? {
          why := Failed;
          return;
        }
        if !e.Quiet? {
          var restarts := e.interruptions;
          while restarts > 0 {
            restarts := restarts - 1;
          }
          var got := Min(Min(e.most, r), |incoming|);
          if got == 0 {
            why := Exhausted;
            return;
          }
          forall k | 0 <= k < got {
            buffer[p + k] := incoming[k];
          }
          assert buffer[..p + got] == old(incoming)[..p + got];
          incoming := incoming[got..];
          r, p := r - got, p + got;
        }
        TurnsGrow(events, old(at), signalled, |old(incoming)|, size, ms, p);
        ms := ms + [p];
      }
    }

    /** Whatever the fragmentation, what was taken from the stream is in the buffer, in order; how
        much that is, the count and the way out are those of the schedule before the call. */
    method RecvNonBlock(buffer: array<Byte>, size: nat) returns (n: int, halt: Halt)
      requires size <= buffer.Length
      modifies this`incoming, this`at, this`signalled, buffer
      ensures var t := Transferring(events, old(at), old(signalled), |old(incoming)|, size);
              && incoming == old(incoming)[t.moved..] && buffer[..t.moved] == old(incoming)[..t.moved]
              && at == t.next
              && halt == HaltOf(t.why)
              && (halt == Running ==> n == if size == 0 then -1 else Received(t))
              && signalled == (old(signalled) || t.why == Caught)
    {
      if size == 0 {
        return -1, Running;
      }
      var p, ms, why := Receive(buffer, size);
      AllTurns(events, old(at), old(signalled), |old(incoming)|, size, ms, why);
      n := match why case Failed => -1 case Unready => if p > 0 then p else -1 case _ => p;
      halt := HaltOf(why);
    }

    /** A prefix of the data is on the wire, as the schedule before the call says. */
    method SendNonBlock(data: seq<Byte>) returns (n: int, halt: Halt)
      modifies this`outgoing, this`at, this`signalled
      ensures var t := Transferring(events, old(at), old(signalled), |data|, |data|);
              && outgoing == old(outgoing) + AsItems(data[..t.moved])
              && at == t.next
              && halt == HaltOf(t.why)
              && (halt == Running ==> n == Sent(t))
              && signalled == (old(signalled) || t.why == Caught)
    {
      halt := Running;
      var r, p := |data|, 0;
      assert old(outgoing) + AsItems(data[..0]) == old(outgoing);
      while r != 0
        invariant 0 <= p && 0 <= r && p + r == |data| && halt == Running
        invariant outgoing == old(outgoing) + AsItems(data[..p])
        invariant signalled == old(signalled)
        invariant Transferring(events, old(at), signalled, |data|, |data|)
                  == Onwards(p, Transferring(events, at, signalled, r, r))
        decreases |events| - at
      {
        var e;
        e, halt := Wait();
        if halt != Running {
          return -1, halt;
        }
        if e.Quiet? {
          continue;
        }
        if e.Woken? {
          return |data| - r, Running;
        }
        if e.Broken? {
          return -1, Running;
        }
        var restarts := e.interruptions;
        while restarts > 0 {
          restarts := restarts - 1;
        }
        var put := Min(e.most, r);
        assert AsItems(data[..p + put]) == AsItems(data[..p]) + AsItems(data[p..p + put]);
        outgoing := outgoing + AsItems(data[p..p + put]);
        r, p := r - put, p + put;
      }
      return |data| - r, Running;
    }

    /** One message that carries all the descriptors, or nothing when sendmsg fails. */
    method SendDescriptorArray(kernel: Kernel, descriptors: seq<int>, ok: bool) returns (rc: int)
      requires forall i :: 0 <= i < |descriptors| ==> descriptors[i] in kernel.fds
      modifies this`outgoing
      ensures rc == if ok then 0 else -1
      ensures outgoing == old(outgoing) + (if ok then [Rights(Passed(kernel.fds, descriptors))] else [])
    {
      if !ok {
        assert outgoing + [] == outgoing;
        return -1;
      }
      outgoing := outgoing + [Rights(Passed(kernel.fds, descriptors))];
      rc := 0;
    }
  }

  /** What the receiver gets for the listed descriptors. */
  function Passed(fds: Descriptors, descriptors: seq<int>): (passed: seq<Resource>)
    requires forall i :: 0 <= i < |descriptors| ==> descriptors[i] in fds
    ensures |passed| == |descriptors| && forall i :: 0 <= i < |descriptors| ==> passed[i] == fds[descriptors[i]]
  {
    seq(|descriptors|, i requires 0 <= i < |descriptors| => fds[descriptors[i]])
  }
}
