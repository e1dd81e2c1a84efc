/** How the executor's requests and the start-up handshake fit together: whether the launcher leaves
    with a byte is decided by what the executor serves. */
module Launching {
  import opened Collections
  import opened Messages
  import opened Service
  import H = Handshake

  /** In one run of all processes: the executor serves its next request, or another process, the
      launcher included, takes a step. */
  datatype Move = Serve(r: Request) | Otherwise(step: H.Step)

  predicate AllFormed(moves: seq<Move>) {
    forall k :: 0 <= k < |moves| && moves[k].Serve? ==> WellFormed(moves[k].r)
  }

  /** The requests among the moves. */
  function Served(moves: seq<Move>): (rs: seq<Request>)
    requires AllFormed(moves)
    ensures AllWellFormed(rs)
  {
    if moves == [] then []
    else
      var n := |moves| - 1;
      Served(moves[..n]) + if moves[n].Serve? then [moves[n].r] else []
  }

  function TakeIf(h: H.State, step: H.Step): Option<H.State> {
    if H.Enabled(h, step) then Some(H.Take(h, step)) else None
  }

  /** A request served, as the handshake sees it; only two kinds concern it. */
  function ServeStep(s: Setting, w: World, h: H.State, r: Request, a: Answers): Option<H.State>
    requires WellFormed(r)
  {
    if r.code == DaemonizeExecutor then
      TakeIf(h, H.ExecDaemonizes(a.pipeWrite && ReachesLauncher(w.fds, s.bindVerbose, a.devNull, w.pipe)))
    else if r.code == StartProviderAgent then TakeIf(h, H.ExecForksAgent(AgentStarts(r.body, a)))
    else Some(h)
  }

  /** The handshake's state after these moves, or None when one is not possible. */
  ghost function Handshaking(s: Setting, w: World, world: nat -> Answers, h: H.State, moves: seq<Move>): Option<H.State>
    requires AllFormed(moves)
    decreases |moves|
  {
    if moves == [] then Some(h)
    else
      var n := |moves| - 1;
      var before := Handshaking(s, w, world, h, moves[..n]);
      if before.None? then None
      else
        match moves[n]
        case Serve(r) =>
          ServeStep(s, After(s, w, world, Served(moves[..n])), before.value, r, world(|Served(moves[..n])|))
        case Otherwise(step) => if H.OfExec(step) then None else TakeIf(before.value, step)
  }

  /** The executor holds the launcher's pipe as long as it has not daemonized; what it wrote is what is
      in the pipe; and the launcher has not read a byte that is not there. */
  predicate Agrees(w: World, told: nat, h: H.State) {
    && H.Inv(h) && h.exec == H.Serving
    && (w.pipe != -1 <==> H.Exec in h.holders)
    && w.told == told + |h.pipe|
    && (h.launcher.Left? && h.launcher.verdict == H.ByByte ==> h.pipe != [])
  }

  lemma ServingAgrees(s: Setting, w: World, told: nat, h: H.State, r: Request, a: Answers)
    requires WellFormed(r) && Agrees(w, told, h) && ServeStep(s, w, h, r, a).Some?
    ensures Agrees(Service.Next(s, w, r, a), told, ServeStep(s, w, h, r, a).value)
  {
    if r.code == DaemonizeExecutor {
      H.StepKeepsInv(h, H.ExecDaemonizes(a.pipeWrite && ReachesLauncher(w.fds, s.bindVerbose, a.devNull, w.pipe)));
    } else if r.code == StartProviderAgent {
      H.StepKeepsInv(h, H.ExecForksAgent(AgentStarts(r.body, a)));
    }
  }

  lemma OthersAgree(w: World, told: nat, h: H.State, step: H.Step)
    requires Agrees(w, told, h) && H.Enabled(h, step) && !H.OfExec(step)
    ensures Agrees(w, told, H.Take(h, step))
  {
    H.StepKeepsInv(h, step);
  }

  lemma {:induction false} AllMovesAgree(s: Setting, w: World, world: nat -> Answers, told: nat, h: H.State,
                                         moves: seq<Move>)
    requires AllFormed(moves) && Agrees(w, told, h) && Handshaking(s, w, world, h, moves).Some?
    ensures Agrees(After(s, w, world, Served(moves)), told, Handshaking(s, w, world, h, moves).value)
    decreases |moves|
  {
    if moves != [] {
      var n := |moves| - 1;
      var rs, before := Served(moves[..n]), Handshaking(s, w, world, h, moves[..n]).value;
      AllMovesAgree(s, w, world, told, h, moves[..n]);
      match moves[n] {
        case Serve(r) =>
          RunStep(s, w, world, rs, r);
          ServingAgrees(s, After(s, w, world, rs), told, before, r, world(|rs|));
        case Otherwise(step) =>
          assert rs + [] == rs;
          OthersAgree(After(s, w, world, rs), told, before, step);
      }
    }
  }

  /** Over every interleaving: once the executor has served these requests, a launcher that still waits
      would read a byte, and leave with 0, exactly when the first daemonize request among them reached
      it; and a launcher that has left by a byte was told so. */
  lemma LauncherIsTold(s: Setting, w: World, world: nat -> Answers, h: H.State, moves: seq<Move>)
    requires AllFormed(moves) && Handshaking(s, w, world, h, moves).Some?
    requires H.Inv(h) && h.exec == H.Serving && h.launcher == H.AtWait && h.pipe == []
             && (w.pipe != -1 <==> H.Exec in h.holders)
    ensures var t, rs := Handshaking(s, w, world, h, moves).value, Served(moves);
            var told := Daemonizings(rs) > 0 && TellsLauncher(s, w, world(FirstDaemonizing(rs)));
            && (t.launcher == H.AtWait ==> (told <==> H.Leave(t, false).launcher == H.Left(H.ByByte, 0)))
            && (t.launcher.Left? && t.launcher.verdict == H.ByByte ==> told && t.launcher.code == 0)
  {
    AllMovesAgree(s, w, world, w.told, h, moves);
    ToldExactly(s, w, world, Served(moves));
  }
}
