/** A connection (src/connection.rs): the object that owns a session's lease and runs its probe and its
    event loop against the shared limiter. */
module Connections {
  import opened Addresses
  import opened Channels
  import opened Ledger
  import opened Limits
  import opened Neighbours
  import opened Queues
  import opened Remotes
  import opened Scripts
  import opened Tls
  import opened Traces
  import opened Wrappers
  import G = GreetingProbe
  import P = TlsProbe
  import Rows
  import S = Sessions
  import W = Worlds

  datatype ConnectionConfig = ConnectionConfig(maxBytesPerConnection: u64, requireProtocolProbe: bool)

  datatype ProbeKind = TlsSni | Greeting(kind: G.GreetingKind)

  function ProbeForPort(port: u16): Option<ProbeKind> {
    if port == 993 || port == 465 then Some(TlsSni)
    else if port == 143 then Some(Greeting(G.Imap))
    else if port == 587 then Some(Greeting(G.Smtp))
    else None
  }

  function ProbeOf(config: ConnectionConfig, remote: Remote): Option<ProbeKind> {
    if config.requireProtocolProbe then ProbeForPort(remote.port) else None
  }

  /** A greeting probe reads into 256 bytes. */
  predicate FitsProbe(kind: Option<ProbeKind>, sockets: Sockets) {
    kind.Some? && kind.value.Greeting? ==> G.ReadsFit(sockets.upstream)
  }

  /** What a probe did: the bytes it passed on either way, and how far it read the two sockets. */
  datatype Probed = Probed(accepted: bool, up: bytes, down: bytes, client: nat, upstream: nat)

  /** The verdict of a probe, which is lost when what was read cannot be passed on. */
  ghost predicate ProbePasses(kind: ProbeKind, remote: Remote, sockets: Sockets) {
    sockets.probeWrite.Sent? && match kind
      case TlsSni => P.Accepts(sockets.client, remote.host, remote.ipLiteral.Some?)
      case Greeting(k) => G.Accepts(sockets.upstream, k)
  }

  /** What a session has to show to reach its event loop, port by port: over TLS on 993 and 465 a ClientHello
      that names the destination, on 143 an IMAP greeting, on 587 an SMTP one, and elsewhere nothing. */
  ghost predicate ReachesLoop(config: ConnectionConfig, remote: Remote, sockets: Sockets) {
    config.requireProtocolProbe
    ==> && (remote.port == 993 || remote.port == 465
            ==> sockets.probeWrite.Sent? && P.ShowsHello(sockets.client, remote.host, remote.ipLiteral.Some?))
        && (remote.port == 143 ==> sockets.probeWrite.Sent? && G.ShowsGreeting(sockets.upstream, {"* "}))
        && (remote.port == 587 ==> sockets.probeWrite.Sent? && G.ShowsGreeting(sockets.upstream, {"220 ", "220-"}))
  }

  lemma ReachesLoopIs(config: ConnectionConfig, remote: Remote, sockets: Sockets)
    ensures ReachesLoop(config, remote, sockets)
            <==> (ProbeOf(config, remote).Some? ==> ProbePasses(ProbeOf(config, remote).value, remote, sockets))
  {
    hide P.Accepts, P.ShowsHello, G.Accepts, G.ShowsGreeting, G.Texts;
    P.AcceptsExactly(sockets.client, remote.host, remote.ipLiteral.Some?);
    G.AcceptsExactly(sockets.upstream, G.Imap);
    G.AcceptsExactly(sockets.upstream, G.Smtp);
  }

  /** Where the loop finds the sockets: untouched, or read exactly up to the outcome that completed the
      probe. */
  predicate LeftAt(kind: Option<ProbeKind>, sockets: Sockets, p: Probed) {
    match kind
    case None => p.client == 0 && p.upstream == 0
    case Some(TlsSni) => p.upstream == 0 && 0 < p.client <= |sockets.client| && P.CompletesAt(sockets.client, p.client)
    case Some(Greeting(_)) =>
      p.client == 0 && 0 < p.upstream <= |sockets.upstream| && G.CompletesAt(sockets.upstream, p.upstream)
  }

  /** What others do during the probe, if there is one. */
  function ProbingCalls(config: ConnectionConfig, remote: Remote, calls: seq<Call>): seq<Call> {
    if ProbeOf(config, remote).Some? then calls else []
  }

  class Connection {
    const remote: Remote
    const clientIp: IpAddr
    const limits: LimitState
    const config: ConnectionConfig
    var tcp: bool
    var lease: Option<ConnectionLease>

    /** The bytes the event loop has put on either socket, the pings and pongs, and the final close. */
    var toTcp: bytes
    var toClient: bytes
    var control: seq<WsMessage>
    var closed: bool

    constructor (remote: Remote, clientIp: IpAddr, lease: ConnectionLease, limits: LimitState, config: ConnectionConfig)
      ensures this.remote == remote && this.clientIp == clientIp && this.limits == limits && this.config == config
      ensures tcp && this.lease == Some(lease) && toTcp == [] && toClient == [] && control == [] && !closed
    {
      this.remote, this.clientIp, this.limits, this.config := remote, clientIp, limits, config;
      tcp, this.lease := true, Some(lease);
      toTcp, toClient, control, closed := [], [], [], false;
    }

    /** The lease is this limiter's, and live. */
    ghost predicate Valid()
      reads this, limits, limits.Repr, limits.perIp.Values
    {
      && limits.Valid() && this !in limits.Repr
      && (lease.Some? ==> lease.value.state == limits && lease.value.Live()) && (tcp ==> lease.Some?)
    }

    ghost function View(open: bool, connBytes: u64): S.Session
      reads this
    {
      S.Session(open, connBytes, toTcp, toClient, control)
    }

    /** The others use the same limiter, and this connection's lease is not theirs. */
    ghost predicate Beside(others: Others)
      reads this, others, limits
    {
      && others.limits == limits && others !in limits.Repr && (others as object) != this
      && others.Holding(limits.past) && lease.Some? && others.Spare({lease.value.id})
    }

    /** The world of a trace that has come to this point: the ledger, and this session alone. */
    ghost predicate Mirrors(w: W.World, open: bool, connBytes: u64)
      reads this, limits
    {
      && lease.Some? && w.book == limits.past
      && w.clients == map[lease.value.id := W.Client(clientIp, config.maxBytesPerConnection, View(open, connBytes))]
    }

    /** `account_bytes`. */
    method AccountBytes(n: u64) returns (ok: bool)
      requires limits.Valid()
      modifies limits.Repr
      ensures limits.Valid() && fresh(limits.Repr - old(limits.Repr)) && limits.clock >= old(limits.clock)
      ensures limits.past == AfterCharge(limits.cfg, old(limits.past), limits.cfg.Key(clientIp), n, limits.clock)
      ensures ok <==> ChargeError(limits.cfg, old(limits.past).charges, limits.cfg.Key(clientIp), n, limits.clock).None?
    {
      hide Rows.Tied, Ledger.RecentBytes, Addresses.LimitKey;
      if n == 0 {
        return true;
      }
      var r := limits.AddBytes(clientIp, n);
      ok := r.Ok?;
    }

    /** Counts and charges a chunk before anything is written. */
    method Account(connBytes: u64, n: u64) returns (ok: bool, total: u64, ghost granted: bool)
      requires limits.Valid()
      modifies limits.Repr
      ensures limits.Valid() && fresh(limits.Repr - old(limits.Repr)) && limits.clock >= old(limits.clock)
      ensures total == SatAdd(connBytes, n)
      ensures var asked := if S.OverConnBytes(config.maxBytesPerConnection, total) then 0 else n;
              var key, cfg := limits.cfg.Key(clientIp), limits.cfg;
              && limits.past == AfterCharge(cfg, old(limits.past), key, asked, limits.clock)
              && (granted <==> ChargeError(cfg, old(limits.past).charges, key, asked, limits.clock).None?)
      ensures ok <==> !S.OverConnBytes(config.maxBytesPerConnection, total) && granted
    {
      hide Rows.Tied, Ledger.RecentBytes, Addresses.LimitKey;
      total, granted := SatAdd(connBytes, n), true;
      if S.OverConnBytes(config.maxBytesPerConnection, total) {
        return false, total, true;
      }
      ok := AccountBytes(n);
      granted := ok;
    }

    method SendControl(msg: WsMessage, write: WriteOutcome) returns (go: bool)
      modifies this`control
      ensures go == write.Sent? && control == if go then old(control) + [msg] else old(control)
    {
      go := write.Sent?;
      if go { control := control + [msg]; }
    }

    /** One turn of the loop is the session's step, with the ledger's answer to its charge. */
    method TakeTurn(ev: S.Event, connBytes: u64) returns (go: bool, total: u64, ghost granted: bool)
      requires limits.Valid() && this !in limits.Repr
      modifies this`toTcp, this`toClient, this`control, limits.Repr
      ensures limits.Valid() && fresh(limits.Repr - old(limits.Repr)) && this !in limits.Repr
      ensures limits.clock >= old(limits.clock)
      ensures var cfg, key := limits.cfg, limits.cfg.Key(clientIp);
              var asked := S.Wants(config.maxBytesPerConnection, old(View(true, connBytes)), ev);
              && limits.past == AfterCharge(cfg, old(limits.past), key, asked, limits.clock)
              && (granted <==> ChargeError(cfg, old(limits.past).charges, key, asked, limits.clock).None?)
      ensures View(go, total) == S.Step(config.maxBytesPerConnection, old(View(true, connBytes)), ev, granted)
    {
      hide Rows.Tied, Ledger.RecentBytes, Addresses.LimitKey;
      total, granted, go := connBytes, true, false;
      match ev {
        case Deadline =>
        case FromClient(Got(Binary(data)), w) =>
          go, total, granted := Account(connBytes, |data|);
          if go {
            toTcp := toTcp + w.Reached(data);
            go := w.Sent?;
          }
        case FromClient(Got(Text(text)), w) =>
          go, total, granted := Account(connBytes, |text|);
          if go {
            toTcp := toTcp + w.Reached(text);
            go := w.Sent?;
          }
        case FromClient(Got(Ping(payload)), w) => go := SendControl(Pong(payload), w);
        case FromClient(Got(Pong(_)), _) => go := true;
        case FromClient(Got(Close), _) =>
        case FromClient(WsTimedOut, w) => go := SendControl(Ping([]), w);
        case FromClient(_, _) =>
        case FromUpstream(Read(data), w) =>
          if data != [] {
            go, total, granted := Account(connBytes, |data|);
            if go {
              toClient := toClient + w.Reached(data);
              go := w.Sent?;
            }
          }
        case FromUpstream(_, _) =>
      }
    }

    /** `probe`. */
    method Probe(sockets: Sockets, kind: ProbeKind) returns (p: Probed)
      requires sockets.Valid() && FitsProbe(Some(kind), sockets)
      ensures p.client <= |sockets.client| && p.upstream <= |sockets.upstream|
      ensures p.up <= Stream(sockets.client[..p.client]) && p.down <= ReadStream(sockets.upstream[..p.upstream])
      ensures p.accepted <==> ProbePasses(kind, remote, sockets)
      ensures kind == TlsSni
              ==> (p.accepted
                   <==> sockets.probeWrite.Sent?
                        && P.ShowsHello(sockets.client, remote.host, remote.ipLiteral.Some?))
      ensures kind == Greeting(G.Imap)
              ==> (p.accepted <==> sockets.probeWrite.Sent? && G.ShowsGreeting(sockets.upstream, {"* "}))
      ensures kind == Greeting(G.Smtp)
              ==> (p.accepted <==> sockets.probeWrite.Sent? && G.ShowsGreeting(sockets.upstream, {"220 ", "220-"}))
      ensures p.accepted ==> LeftAt(Some(kind), sockets, p)
      ensures p.accepted ==> p.up == Stream(sockets.client[..p.client])
      ensures p.accepted ==> p.down == ReadStream(sockets.upstream[..p.upstream])
    {
      hide P.Accepts, G.Accepts, P.CompletesAt, G.CompletesAt, P.ShowsHello, G.ShowsGreeting;
      match kind {
        case TlsSni =>
          var ok, sent, used := P.ProbeTlsSni(sockets.client, remote.host, remote.ipLiteral.Some?, sockets.probeWrite);
          p := Probed(ok, sent, [], used, 0);
          assert sockets.upstream[..0] == [];
        case Greeting(k) =>
          var ok, sent, used := G.Probe(sockets.upstream, k, sockets.probeWrite);
          p := Probed(ok, [], sent, 0, used);
          assert sockets.client[..0] == [];
      }
    }

    /** Waiting for an event while others make `calls`, then the turn. */
    method AwaitTurn(ev: S.Event, connBytes: u64, others: Others, calls: seq<Call>, ghost w: W.World)
      returns (go: bool, total: u64, ghost round: seq<W.Move>)
      requires Valid() && Mirrors(w, true, connBytes) && Beside(others)
      modifies this`toTcp, this`toClient, this`control, limits.Repr, others
      ensures Valid() && fresh(limits.Repr - old(limits.Repr)) && limits.clock >= old(limits.clock) && Beside(others)
      ensures Round(round, lease.value.id, ev, calls) && Mirrors(W.After(limits.cfg, w, round), go, total)
      ensures ev.Deadline? ==> !go
    {
      hide Rows.Tied, Ledger.ChargeError, Ledger.AfterCharge, Addresses.LimitKey, S.Step, S.Wants;
      hide Others.Holding, Others.Spare, W.Did, W.After, W.Advance;
      ghost var id := lease.value.id;
      ghost var before := others.Meanwhile(calls, {id}, w);
      ghost var s := View(true, connBytes);
      ghost var granted;
      ghost var b := limits.past;
      go, total, granted := TakeTurn(ev, connBytes);
      W.ChargeKeepsLeases(limits.cfg, b, limits.cfg.Key(clientIp), S.Wants(config.maxBytesPerConnection, s, ev),
                          limits.clock);
      others.HoldingSame(b, limits.past);
      W.PumpIs(limits.cfg, W.After(limits.cfg, w, before), id, ev, limits.clock, granted);
      S.DeadlineEnds(config.maxBytesPerConnection, s, ev, granted);
      round := before + [W.Pump(id, ev, limits.clock)];
      W.AfterSnoc(limits.cfg, w, before, W.Pump(id, ev, limits.clock));
      assert round[..|round| - 1] == before;
    }

    /** The event loop, from a new session to its end. */
    method Pump(script: Script, others: Others, ghost w: W.World)
      returns (connBytes: u64, ghost rounds: seq<seq<W.Move>>)
      requires Valid() && script.Valid() && Mirrors(w, true, 0) && toTcp == [] && toClient == [] && control == []
      requires Beside(others)
      modifies this`toTcp, this`toClient, this`control, limits.Repr, others
      ensures Valid() && fresh(limits.Repr - old(limits.Repr)) && limits.clock >= old(limits.clock) && Beside(others)
      ensures LoopTrace(limits.cfg, w, rounds, lease.value.id, config.maxBytesPerConnection, script)
      ensures Mirrors(W.After(limits.cfg, w, Flatten(rounds)), false, connBytes)
    {
      hide LimitState.Valid, LimitState.Shape, LimitState.RowMap, LoopTrace, W.After, W.TurnsOf, Round, Flatten;
      hide Others.Holding, Others.Spare;
      var go, k := true, 0;
      connBytes, rounds := 0, [];
      ghost var id, cap := lease.value.id, config.maxBytesPerConnection;
      LoopStarts(limits.cfg, w, id, cap, script);
      while go
        invariant Valid() && lease.Some? && fresh(limits.Repr - old(limits.Repr)) && limits.clock >= old(limits.clock)
        invariant 0 <= k <= |script.choices| + 1 && (k == |script.choices| + 1 ==> !go)
        invariant Beside(others) && |rounds| == k && LoopTrace(limits.cfg, w, rounds, id, cap, script)
        invariant Mirrors(W.After(limits.cfg, w, Flatten(rounds)), go, connBytes)
        decreases if go then 1 + |script.choices| - k else 0
      {
        ghost var round;
        var ev := script.EventAt(k);
        ghost var v := W.After(limits.cfg, w, Flatten(rounds));
        go, connBytes, round := AwaitTurn(ev, connBytes, others, script.awaiting(k), v);
        LoopGoesOn(limits.cfg, w, rounds, round, id, cap, script);
        rounds, k := rounds + [round], k + 1;
      }
    }

    /** The probe, where the port and the configuration call for one. */
    method MaybeProbe(sockets: Sockets, others: Others, calls: seq<Call>, ghost w: W.World)
      returns (p: Probed, ghost waited: seq<W.Move>)
      requires Valid() && lease.Some? && w.book == limits.past && Beside(others)
      requires sockets.Valid() && FitsProbe(ProbeOf(config, remote), sockets)
      modifies limits.Repr, others
      ensures Valid() && fresh(limits.Repr - old(limits.Repr)) && limits.clock >= old(limits.clock) && Beside(others)
      ensures W.Did(waited, ProbingCalls(config, remote, calls), {lease.value.id})
      ensures W.After(limits.cfg, w, waited) == w.(book := limits.past)
      ensures p.client <= |sockets.client| && p.upstream <= |sockets.upstream|
      ensures p.up <= Stream(sockets.client[..p.client]) && p.down <= ReadStream(sockets.upstream[..p.upstream])
      ensures p.accepted <==> ReachesLoop(config, remote, sockets)
      ensures p.accepted ==> LeftAt(ProbeOf(config, remote), sockets, p)
      ensures p.accepted ==> p.up == Stream(sockets.client[..p.client])
      ensures p.accepted ==> p.down == ReadStream(sockets.upstream[..p.upstream])
    {
      hide Rows.Tied, ProbePasses, P.CompletesAt, G.CompletesAt, G.ReadsFit;
      var kind := ProbeOf(config, remote);
      ReachesLoopIs(config, remote, sockets);
      hide ReachesLoop;
      if kind.Some? {
        waited := others.Meanwhile(calls, {lease.value.id}, w);
        p := Probe(sockets, kind.value);
      } else {
        p, waited := Probed(true, [], [], 0, 0), [];
        assert sockets.client[..0] == [] && sockets.upstream[..0] == [];
      }
    }

    /** `run`: the probe, the loop and the final close. The pipe is transparent as a whole and what the loop
        forwards keeps the quota of every key; the lease is given back, except that a failed probe leaves
        that to `Drop`. */
    method Run(sockets: Sockets, choices: seq<Choice>, others: Others, probing: seq<Call>, awaiting: nat -> seq<Call>)
      returns (probed: Probed, connBytes: u64, ghost waited: seq<W.Move>, ghost rounds: seq<seq<W.Move>>)
      requires Valid() && tcp && toTcp == [] && toClient == [] && control == [] && Beside(others)
      requires sockets.Valid() && FitsProbe(ProbeOf(config, remote), sockets)
      modifies this, limits.Repr, others
      ensures Valid() && !tcp && closed && fresh(limits.Repr - old(limits.Repr)) && limits.clock >= old(limits.clock)
      ensures others !in limits.Repr && others.Holding(limits.past) && others.Spare({old(lease).value.id})
      ensures probed.client <= |sockets.client| && probed.up + toTcp <= Stream(sockets.client)
      ensures probed.upstream <= |sockets.upstream| && probed.down + toClient <= ReadStream(sockets.upstream)
      ensures probed.accepted <==> ReachesLoop(config, remote, sockets)
      ensures W.Did(waited, ProbingCalls(config, remote, probing), {old(lease).value.id})
      ensures !probed.accepted
              ==> toTcp == [] && toClient == [] && lease == old(lease)
                  && W.After(limits.cfg, W.Start(old(limits.past)), waited).book == limits.past
      ensures probed.accepted
              ==> lease == None && LeftAt(ProbeOf(config, remote), sockets, probed)
                  && Finished(old(limits.past), limits.past, waited, rounds, old(lease).value.id,
                              Script(sockets, probed.client, probed.upstream, choices, awaiting), connBytes)
    {
      hide Rows.Tied, Addresses.LimitKey, ReachesLoop, LeftAt, ProbeOf, FitsProbe, Stream, ReadStream, W.After;
      hide Finished, Others.Holding, Others.Spare, W.Did, Ledger.Lawful;
      tcp, connBytes, rounds := false, 0, [];
      ghost var b, id := limits.past, lease.value.id;
      limits.IsLawful();
      probed, waited := MaybeProbe(sockets, others, probing, W.Start(b));
      if !probed.accepted {
        ProbeStreams(sockets, probed);
        closed := true;
        return;
      }
      W.DidSpares(waited, ProbingCalls(config, remote, probing), {id});
      var script := Script(sockets, probed.client, probed.upstream, choices, awaiting);
      connBytes, rounds := ServeScript(script, others, b, waited);
      FinishedStreams(b, limits.past, waited, rounds, id, script, connBytes, probed);
    }

    /** What follows the probe: the loop, the close, and the lease. */
    method ServeScript(script: Script, others: Others, ghost b: Book, ghost waited: seq<W.Move>)
      returns (connBytes: u64, ghost rounds: seq<seq<W.Move>>)
      requires Valid() && !tcp && toTcp == [] && toClient == [] && control == [] && Beside(others)
      requires script.Valid() && Lawful(limits.cfg, b) && W.OthersOnly(waited, {lease.value.id})
      requires W.After(limits.cfg, W.Start(b), waited) == W.Start(limits.past)
      modifies this, limits.Repr, others
      ensures Valid() && !tcp && closed && lease == None
      ensures fresh(limits.Repr - old(limits.Repr)) && limits.clock >= old(limits.clock)
      ensures others !in limits.Repr && others.Holding(limits.past) && others.Spare({old(lease).value.id})
      ensures Finished(b, limits.past, waited, rounds, old(lease).value.id, script, connBytes)
    {
      hide Rows.Tied, Addresses.LimitKey, W.After, W.OthersOnly, Finished, LoopTrace, Others.Holding, Others.Spare;
      hide Ledger.Lawful;
      ghost var v := Opened(W.Start(limits.past), lease.value.id, clientIp, config.maxBytesPerConnection);
      connBytes, rounds := Pump(script, others, v);
      FinishedNow(b, waited, rounds, script, connBytes);
      others.StillHolding(limits.past, lease.value.id);
      closed := true;
      Drop();
    }

    /** The session has run to its end along the script, and its lease is released. The limiter has gone
        from `b` to `c` by the moves of the connection and those of others, all the session forwarded is in
        the deliveries of that trace, and they keep the quota of every key. */
    ghost predicate Finished(b: Book, c: Book, waited: seq<W.Move>, rounds: seq<seq<W.Move>>, id: nat, script: Script,
                             connBytes: u64)
      requires script.Valid()
      reads this`toTcp, this`toClient, this`control
    {
      var moves := waited + Served(rounds, id, clientIp, config.maxBytesPerConnection);
      var end := W.After(limits.cfg, W.Start(b), moves);
      && end.book == c
      && HeldTrace(moves, id, clientIp, config.maxBytesPerConnection)
      && (forall k | 0 <= k < |rounds| :: Round(rounds[k], id, script.EventAt(k), script.awaiting(k)))
      && RanToEnd(limits.cfg, b, moves, id, config.maxBytesPerConnection, script,
                  S.Session(false, connBytes, toTcp, toClient, control))
      && W.Total(end.deliveries) == |toTcp| + |toClient|
      && (0 < limits.cfg.maxBytesPerIp < MaxU64 ==> KeepsQuota(limits.cfg, end.deliveries))
    }

    lemma FinishedNow(b: Book, waited: seq<W.Move>, rounds: seq<seq<W.Move>>, script: Script, connBytes: u64)
      requires lease.Some? && script.Valid() && W.OthersOnly(waited, {lease.value.id}) && Lawful(limits.cfg, b)
      requires var id, cap := lease.value.id, config.maxBytesPerConnection;
               var v := Opened(W.After(limits.cfg, W.Start(b), waited), id, clientIp, cap);
               && LoopTrace(limits.cfg, v, rounds, id, cap, script)
               && Mirrors(W.After(limits.cfg, v, Flatten(rounds)), false, connBytes)
      ensures Finished(b, AfterRelease(limits.past, lease.value.id), waited, rounds, lease.value.id, script, connBytes)
    {
      var id, cap := lease.value.id, config.maxBytesPerConnection;
      var v := Opened(W.After(limits.cfg, W.Start(b), waited), id, clientIp, cap);
      var moves := waited + Served(rounds, id, clientIp, cap);
      assert forall k | 0 <= k < |rounds| :: Round(rounds[k], id, script.EventAt(k), script.awaiting(k));
      hide W.After, W.TurnsOf, Served, HeldTrace, S.Run, Lawful, KeepsQuota, Round, Flatten, LoopTrace, RanToEnd;
      WholeRun(limits.cfg, b, waited, rounds, id, clientIp, cap, script, View(false, connBytes));
      QuotaKept(limits.cfg, b, moves);
    }

    lemma FinishedStreams(b: Book, c: Book, waited: seq<W.Move>, rounds: seq<seq<W.Move>>, id: nat, script: Script,
                          connBytes: u64, p: Probed)
      requires script.Valid() && Finished(b, c, waited, rounds, id, script, connBytes)
      requires p.client == script.client && p.up == Stream(script.sockets.client[..script.client])
      requires p.upstream == script.upstream && p.down == ReadStream(script.sockets.upstream[..script.upstream])
      ensures p.up + toTcp <= Stream(script.sockets.client) && p.down + toClient <= ReadStream(script.sockets.upstream)
    {
      hide Stream, ReadStream, HeldTrace, RanToEnd, W.After, Served, Round;
      WholeStreams(limits.cfg, b, waited + Served(rounds, id, clientIp, config.maxBytesPerConnection), id,
                   config.maxBytesPerConnection, script, S.Session(false, connBytes, toTcp, toClient, control),
                   p.up, p.down);
    }

    /** The connection goes out of scope, and with it a lease it still holds. */
    method Drop()
      requires Valid() && !tcp
      modifies this`lease, limits.Repr
      ensures Valid() && lease == None && fresh(limits.Repr - old(limits.Repr)) && limits.clock >= old(limits.clock)
      ensures limits.past == if old(lease).Some? then AfterRelease(old(limits.past), old(lease).value.id)
                             else old(limits.past)
    {
      hide Rows.Tied;
      if lease.Some? {
        lease.value.Drop();
        lease := None;
      }
    }
  }

  /** The quota of every key holds in every window. */
  ghost predicate KeepsQuota(cfg: LimitsConfig, deliveries: seq<W.Delivery>) {
    forall key, from: int :: W.DeliveredWithin(deliveries, key, from, cfg.bytesWindow) <= cfg.maxBytesPerIp
  }

  lemma QuotaKept(cfg: LimitsConfig, b: Book, moves: seq<W.Move>)
    requires Lawful(cfg, b)
    ensures 0 < cfg.maxBytesPerIp < MaxU64 ==> KeepsQuota(cfg, W.After(cfg, W.Start(b), moves).deliveries)
  {
    if 0 < cfg.maxBytesPerIp < MaxU64 {
      forall key, from: int
        ensures W.DeliveredWithin(W.After(cfg, W.Start(b), moves).deliveries, key, from, cfg.bytesWindow)
                <= cfg.maxBytesPerIp
      {
        W.SessionsKeepQuota(cfg, b, moves, key, from);
      }
    }
  }

  /** A probe on its own passes on a prefix of what there was. */
  lemma ProbeStreams(sockets: Sockets, p: Probed)
    requires p.client <= |sockets.client| && p.up <= Stream(sockets.client[..p.client])
    requires p.upstream <= |sockets.upstream| && p.down <= ReadStream(sockets.upstream[..p.upstream])
    ensures p.up + [] <= Stream(sockets.client) && p.down + [] <= ReadStream(sockets.upstream)
  {
    StreamSplit(sockets.client, p.client);
    ReadStreamSplit(sockets.upstream, p.upstream);
    hide Stream, ReadStream;
    PrefixOfWhole(p.up, Stream(sockets.client[..p.client]), Stream(sockets.client[p.client..]));
    PrefixOfWhole(p.down, ReadStream(sockets.upstream[..p.upstream]), ReadStream(sockets.upstream[p.upstream..]));
  }

  lemma PrefixOfWhole(b: bytes, part: bytes, rest: bytes)
    requires b <= part
    ensures b + [] <= part + rest
  {
  }
}
