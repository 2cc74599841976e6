/** Traces of one connection (src/connection.rs, src/server.rs): its own calls and turns, in order, with
    everything that others do to the limiter in between. */
module Traces {
  import opened Addresses
  import opened Channels
  import opened Ledger
  import opened Queues
  import opened Scripts
  import opened Tls
  import opened Wrappers
  import S = Sessions
  import W = Worlds

  lemma OneMoreTurn(cfg: LimitsConfig, w: W.World, moves: seq<W.Move>, front: seq<W.Move>, last: W.Move, id: nat)
    requires W.TurnsOf(cfg, w, moves + front, id)
             == W.TurnsOf(cfg, w, moves, id) + W.TurnsOf(cfg, W.After(cfg, w, moves), front, id)
    ensures W.TurnsOf(cfg, w, moves + (front + [last]), id)
            == W.TurnsOf(cfg, w, moves, id) + W.TurnsOf(cfg, W.After(cfg, w, moves), front + [last], id)
  {
    hide *;
    var a, b := W.TurnsOf(cfg, w, moves, id), W.TurnsOf(cfg, W.After(cfg, w, moves), front, id);
    Reassociate(moves, front, [last]);
    W.AfterCat(cfg, w, moves, front);
    W.TurnsSnoc(cfg, w, moves + front, last, id);
    W.TurnsSnoc(cfg, W.After(cfg, w, moves), front, last, id);
    var v := W.After(cfg, w, moves + front);
    if last.Pump? && last.id == id && id in v.clients {
      Reassociate(a, b, [S.Turn(last.ev, W.Granted(cfg, v, id, last.ev, last.now))]);
    }
  }

  lemma {:induction false} TurnsCat(cfg: LimitsConfig, w: W.World, moves: seq<W.Move>, more: seq<W.Move>, id: nat)
    ensures W.TurnsOf(cfg, w, moves + more, id)
            == W.TurnsOf(cfg, w, moves, id) + W.TurnsOf(cfg, W.After(cfg, w, moves), more, id)
  {
    if more == [] {
      assert moves + more == moves;
    } else {
      assert more == more[..|more| - 1] + [more[|more| - 1]];
      hide *;
      TurnsCat(cfg, w, moves, more[..|more| - 1], id);
      OneMoreTurn(cfg, w, moves, more[..|more| - 1], more[|more| - 1], id);
    }
  }

  // ------------------------------------------------------------ the event loop

  /** Turns of session `id`, and others who spare its lease. */
  predicate LoopMove(m: W.Move, id: nat) { W.Spares(m, {id}) || (m.Pump? && m.id == id) }

  /** The session was open before each of its turns. */
  predicate OpenBefore(cap: u64, ts: seq<S.Turn>) { forall k | 0 <= k < |ts| :: S.Run(cap, ts[..k]).open }

  /** One round of the loop: others make `calls`, and then comes the turn for `ev`. */
  predicate Round(round: seq<W.Move>, id: nat, ev: S.Event, calls: seq<Call>) {
    && round != [] && W.Did(round[..|round| - 1], calls, {id})
    && round[|round| - 1].Pump? && round[|round| - 1].id == id && round[|round| - 1].ev == ev
  }

  function Flatten(rounds: seq<seq<W.Move>>): seq<W.Move> {
    if rounds == [] then [] else Flatten(rounds[..|rounds| - 1]) + rounds[|rounds| - 1]
  }

  /** The loop takes the events of the script one after the other, as long as the session is open. */
  predicate LoopTrace(cfg: LimitsConfig, w: W.World, rounds: seq<seq<W.Move>>, id: nat, cap: u64, script: Script)
    requires script.Valid()
  {
    && (forall k | 0 <= k < |rounds| :: Round(rounds[k], id, script.EventAt(k), script.awaiting(k)))
    && |W.TurnsOf(cfg, w, Flatten(rounds), id)| == |rounds|
    && Follows(W.TurnsOf(cfg, w, Flatten(rounds), id), script)
    && OpenBefore(cap, W.TurnsOf(cfg, w, Flatten(rounds), id))
  }

  lemma LoopStarts(cfg: LimitsConfig, w: W.World, id: nat, cap: u64, script: Script)
    requires script.Valid()
    ensures LoopTrace(cfg, w, [], id, cap, script) && W.After(cfg, w, Flatten([])) == w
  {
  }

  lemma RoundTurn(cfg: LimitsConfig, w: W.World, round: seq<W.Move>, id: nat, ev: S.Event, calls: seq<Call>)
    requires Round(round, id, ev, calls) && id in w.clients
    ensures var ts := W.TurnsOf(cfg, w, round, id); |ts| == 1 && ts[0].ev == ev
  {
    var others := round[..|round| - 1];
    W.DidSpares(others, calls, {id});
    W.OthersQuiet(cfg, w, others, {id}, id);
    W.TurnsSnoc(cfg, w, others, round[|round| - 1], id);
    assert round == others + [round[|round| - 1]];
  }

  lemma FlattenSnoc(rounds: seq<seq<W.Move>>, round: seq<W.Move>)
    ensures Flatten(rounds + [round]) == Flatten(rounds) + round
  {
    assert (rounds + [round])[..|rounds|] == rounds;
  }

  lemma LoopGoesOn(cfg: LimitsConfig, w: W.World, rounds: seq<seq<W.Move>>, round: seq<W.Move>, id: nat, cap: u64,
                   script: Script)
    requires script.Valid() && LoopTrace(cfg, w, rounds, id, cap, script)
    requires id in w.clients && w.clients[id].session == S.NewSession
    requires id in W.After(cfg, w, Flatten(rounds)).clients && W.After(cfg, w, Flatten(rounds)).clients[id].cap == cap
    requires W.After(cfg, w, Flatten(rounds)).clients[id].session.open
    requires Round(round, id, script.EventAt(|rounds|), script.awaiting(|rounds|))
    ensures LoopTrace(cfg, w, rounds + [round], id, cap, script)
    ensures W.After(cfg, w, Flatten(rounds + [round])) == W.After(cfg, W.After(cfg, w, Flatten(rounds)), round)
  {
    hide S.Run, Round, W.After, W.TurnsOf, Flatten;
    var moves := Flatten(rounds);
    var v, ts, k := W.After(cfg, w, moves), W.TurnsOf(cfg, w, moves, id), |rounds|;
    W.SessionsSeparate(cfg, w, moves, id);
    RoundTurn(cfg, v, round, id, script.EventAt(k), script.awaiting(k));
    FlattenSnoc(rounds, round);
    TurnsCat(cfg, w, moves, round, id);
    W.AfterCat(cfg, w, moves, round);
    var t := W.TurnsOf(cfg, v, round, id)[0];
    TurnFollows(ts, t, cap, script);
    assert W.TurnsOf(cfg, w, moves + round, id) == ts + [t];
    hide Follows, OpenBefore;
  }

  lemma {:induction false} RoundsAreLoopMoves(rounds: seq<seq<W.Move>>, id: nat, script: Script)
    requires script.Valid()
    requires forall k | 0 <= k < |rounds| :: Round(rounds[k], id, script.EventAt(k), script.awaiting(k))
    ensures forall k | 0 <= k < |Flatten(rounds)| :: LoopMove(Flatten(rounds)[k], id)
  {
    if rounds != [] {
      var n := |rounds| - 1;
      RoundsAreLoopMoves(rounds[..n], id, script);
      var round := rounds[n];
      assert Round(round, id, script.EventAt(n), script.awaiting(n));
      forall k | 0 <= k < |round| ensures LoopMove(round[k], id) {
        if k < |round| - 1 { assert W.Spares(round[..|round| - 1][k], {id}); }
      }
    }
  }

  lemma TurnFollows(ts: seq<S.Turn>, t: S.Turn, cap: u64, script: Script)
    requires script.Valid() && Follows(ts, script) && OpenBefore(cap, ts)
    requires S.Run(cap, ts).open && t.ev == script.EventAt(|ts|)
    ensures Follows(ts + [t], script) && OpenBefore(cap, ts + [t])
  {
    hide S.Run;
    forall k | 0 <= k < |ts + [t]| ensures S.Run(cap, (ts + [t])[..k]).open {
      assert (ts + [t])[..k] == ts[..k];
      assert ts[..|ts|] == ts;
    }
  }

  // ------------------------------------------------------------ a lease, from its grant to its release

  predicate HeldMove(m: W.Move, id: nat, ip: IpAddr, cap: u64) {
    W.Spares(m, {id}) || m == W.Open(id, ip, cap) || (m.Pump? && m.id == id)
  }

  /** Lease `id` is released once, at the end; until then its session may open and take turns. */
  predicate HeldTrace(moves: seq<W.Move>, id: nat, ip: IpAddr, cap: u64) {
    && moves != [] && moves[|moves| - 1] == W.Own(DoRelease(id))
    && forall k | 0 <= k < |moves| - 1 :: HeldMove(moves[k], id, ip, cap)
  }

  lemma WaitThenHeld(waited: seq<W.Move>, held: seq<W.Move>, id: nat, ip: IpAddr, cap: u64)
    requires W.OthersOnly(waited, {id}) && HeldTrace(held, id, ip, cap)
    ensures HeldTrace(waited + held, id, ip, cap)
  {
    var moves := waited + held;
    forall k | 0 <= k < |moves| - 1 ensures HeldMove(moves[k], id, ip, cap) {
      if k < |waited| { assert W.Spares(waited[k], {id}); } else { assert moves[k] == held[k - |waited|]; }
    }
  }

  /** What a connection does after its probe: it opens a session, runs it and releases the lease. */
  function Served(rounds: seq<seq<W.Move>>, id: nat, ip: IpAddr, cap: u64): seq<W.Move> {
    [W.Open(id, ip, cap)] + Flatten(rounds) + [W.Own(DoRelease(id))]
  }

  lemma ServedHeld(cfg: LimitsConfig, w: W.World, rounds: seq<seq<W.Move>>, id: nat, ip: IpAddr, cap: u64,
                   script: Script)
    requires script.Valid() && LoopTrace(cfg, w, rounds, id, cap, script)
    ensures HeldTrace(Served(rounds, id, ip, cap), id, ip, cap)
  {
    RoundsAreLoopMoves(rounds, id, script);
    hide Flatten;
    var loop, moves := Flatten(rounds), Served(rounds, id, ip, cap);
    forall k | 0 <= k < |moves| - 1 ensures HeldMove(moves[k], id, ip, cap) {
      if k > 0 { assert moves[k] == loop[k - 1] && LoopMove(loop[k - 1], id); }
    }
  }

  function Opened(w: W.World, id: nat, ip: IpAddr, cap: u64): W.World {
    w.(clients := w.clients[id := W.Client(ip, cap, S.NewSession)])
  }

  lemma ServedAfter(cfg: LimitsConfig, w: W.World, rounds: seq<seq<W.Move>>, id: nat, ip: IpAddr, cap: u64)
    requires id !in w.clients
    ensures var v, end := Opened(w, id, ip, cap), W.After(cfg, Opened(w, id, ip, cap), Flatten(rounds));
            && W.After(cfg, w, Served(rounds, id, ip, cap)) == end.(book := AfterRelease(end.book, id))
            && W.TurnsOf(cfg, w, Served(rounds, id, ip, cap), id) == W.TurnsOf(cfg, v, Flatten(rounds), id)
  {
    var loop, open, release := Flatten(rounds), [W.Open(id, ip, cap)], W.Own(DoRelease(id));
    assert Served(rounds, id, ip, cap) == open + loop + [release];
    OpenIs(cfg, w, id, ip, cap);
    hide *;
    W.AfterCat(cfg, w, open, loop);
    TurnsCat(cfg, w, open, loop, id);
    W.AfterSnoc(cfg, w, open + loop, release);
    W.TurnsSnoc(cfg, w, open + loop, release, id);
    ReleaseIs(cfg, W.After(cfg, w, open + loop), id);
  }

  lemma OpenIs(cfg: LimitsConfig, w: W.World, id: nat, ip: IpAddr, cap: u64)
    requires id !in w.clients
    ensures W.After(cfg, w, [W.Open(id, ip, cap)]) == Opened(w, id, ip, cap)
    ensures W.TurnsOf(cfg, w, [W.Open(id, ip, cap)], id) == []
  {
    W.FirstMove(cfg, w, W.Open(id, ip, cap));
    hide W.After;
  }

  lemma ReleaseIs(cfg: LimitsConfig, w: W.World, id: nat)
    ensures W.Advance(cfg, w, W.Own(DoRelease(id))) == w.(book := AfterRelease(w.book, id))
  {
  }

  /** A whole connection that got past its probe, seen from the start of its trace. */
  lemma WholeConnection(cfg: LimitsConfig, b: Book, waited: seq<W.Move>, rounds: seq<seq<W.Move>>, id: nat, ip: IpAddr,
                        cap: u64, script: Script)
    requires script.Valid() && W.OthersOnly(waited, {id})
    requires LoopTrace(cfg, Opened(W.After(cfg, W.Start(b), waited), id, ip, cap), rounds, id, cap, script)
    ensures var v, moves := Opened(W.After(cfg, W.Start(b), waited), id, ip, cap), waited + Served(rounds, id, ip, cap);
            var end := W.After(cfg, v, Flatten(rounds));
            && HeldTrace(moves, id, ip, cap)
            && W.TurnsOf(cfg, W.Start(b), moves, id) == W.TurnsOf(cfg, v, Flatten(rounds), id)
            && W.After(cfg, W.Start(b), moves) == end.(book := AfterRelease(end.book, id))
  {
    var w, served := W.Start(b), Served(rounds, id, ip, cap);
    W.OthersQuiet(cfg, w, waited, {id}, id);
    hide LoopTrace, W.After, W.TurnsOf, Served, HeldTrace, LoopMove, W.OthersOnly;
    ServedHeld(cfg, Opened(W.After(cfg, w, waited), id, ip, cap), rounds, id, ip, cap, script);
    WaitThenHeld(waited, served, id, ip, cap);
    ServedAfter(cfg, W.After(cfg, w, waited), rounds, id, ip, cap);
    W.AfterCat(cfg, w, waited, served);
    TurnsCat(cfg, w, waited, served, id);
  }

  /** The bytes a connection has forwarded are the deliveries of its trace, and they keep the quota. */
  lemma DeliveriesAreForwarded(cfg: LimitsConfig, b: Book, moves: seq<W.Move>, id: nat)
    requires var w := W.After(cfg, W.Start(b), moves); w.clients.Keys == {id}
    ensures var w := W.After(cfg, W.Start(b), moves); W.Total(w.deliveries) == S.Forwarded(w.clients[id].session)
  {
    var w := W.After(cfg, W.Start(b), moves);
    W.DeliveriesComplete(cfg, b, moves, [id]);
    assert W.ForwardedBy(w.clients, [id][..0]) == 0;
  }

  /** The session of a trace took the events of the script up to the one that ended it, each with the
      ledger's answer to its charge, and `s` is where that left it. */
  predicate RanToEnd(cfg: LimitsConfig, b: Book, moves: seq<W.Move>, id: nat, cap: u64, script: Script, s: S.Session)
    requires script.Valid()
  {
    var ts := W.TurnsOf(cfg, W.Start(b), moves, id);
    Follows(ts, script) && OpenBefore(cap, ts) && S.Run(cap, ts) == s && !s.open
  }

  /** A whole connection whose session has come to `s`. */
  lemma WholeRun(cfg: LimitsConfig, b: Book, waited: seq<W.Move>, rounds: seq<seq<W.Move>>, id: nat, ip: IpAddr,
                 cap: u64, script: Script, s: S.Session)
    requires script.Valid() && W.OthersOnly(waited, {id}) && !s.open
    requires var v := Opened(W.After(cfg, W.Start(b), waited), id, ip, cap);
             && LoopTrace(cfg, v, rounds, id, cap, script)
             && W.After(cfg, v, Flatten(rounds)).clients == map[id := W.Client(ip, cap, s)]
    ensures var v, moves := Opened(W.After(cfg, W.Start(b), waited), id, ip, cap), waited + Served(rounds, id, ip, cap);
            && HeldTrace(moves, id, ip, cap) && RanToEnd(cfg, b, moves, id, cap, script, s)
            && W.After(cfg, W.Start(b), moves).book == AfterRelease(W.After(cfg, v, Flatten(rounds)).book, id)
            && W.Total(W.After(cfg, W.Start(b), moves).deliveries) == S.Forwarded(s)
  {
    var v, moves := Opened(W.After(cfg, W.Start(b), waited), id, ip, cap), waited + Served(rounds, id, ip, cap);
    WholeConnection(cfg, b, waited, rounds, id, ip, cap, script);
    hide W.After, W.TurnsOf, Served, HeldTrace, S.Run, Round, Flatten, Follows, OpenBefore, W.OthersOnly;
    W.SessionsSeparate(cfg, v, Flatten(rounds), id);
    DeliveriesAreForwarded(cfg, b, moves, id);
  }

  /** Waiting first makes no difference to the session. */
  lemma WaitThenRan(cfg: LimitsConfig, b: Book, waited: seq<W.Move>, c: Book, moves: seq<W.Move>, id: nat, cap: u64,
                    script: Script, s: S.Session)
    requires script.Valid() && W.OthersOnly(waited, {id}) && W.After(cfg, W.Start(b), waited) == W.Start(c)
    requires RanToEnd(cfg, c, moves, id, cap, script, s)
    ensures RanToEnd(cfg, b, waited + moves, id, cap, script, s)
  {
    W.OthersQuiet(cfg, W.Start(b), waited, {id}, id);
    TurnsCat(cfg, W.Start(b), waited, moves, id);
    assert [] + W.TurnsOf(cfg, W.Start(c), moves, id) == W.TurnsOf(cfg, W.Start(c), moves, id);
    hide Follows, OpenBefore, S.Run, W.After, W.TurnsOf;
  }

  /** A lease that no session uses: others, and then its release. */
  lemma OnlyReleased(cfg: LimitsConfig, w: W.World, waited: seq<W.Move>, id: nat, ip: IpAddr, cap: u64)
    requires W.OthersOnly(waited, {id})
    ensures var moves := waited + [W.Own(DoRelease(id))];
            && HeldTrace(moves, id, ip, cap) && moves[..|moves| - 1] == waited
            && W.After(cfg, w, moves).book == AfterRelease(W.After(cfg, w, waited).book, id)
  {
    W.AfterSnoc(cfg, w, waited, W.Own(DoRelease(id)));
    var moves := waited + [W.Own(DoRelease(id))];
    forall k | 0 <= k < |moves| - 1 ensures HeldMove(moves[k], id, ip, cap) { assert W.Spares(waited[k], {id}); }
  }

  /** What a whole connection has moved, from its first byte. */
  lemma WholeStreams(cfg: LimitsConfig, b: Book, moves: seq<W.Move>, id: nat, cap: u64, script: Script, s: S.Session,
                     up: bytes, down: bytes)
    requires script.Valid() && RanToEnd(cfg, b, moves, id, cap, script, s)
    requires up == Stream(script.sockets.client[..script.client])
    requires down == ReadStream(script.sockets.upstream[..script.upstream])
    ensures up + s.toTcp <= Stream(script.sockets.client) && down + s.toClient <= ReadStream(script.sockets.upstream)
  {
    var ts := W.TurnsOf(cfg, W.Start(b), moves, id);
    S.Transparent(cap, ts);
    ClientPrefix(script, ts, up, s.toTcp);
    UpstreamPrefix(script, ts, down, s.toClient);
  }
}
