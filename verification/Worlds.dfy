/** Any number of sessions over one limiter, interleaved in any order (src/connection.rs over
    src/limits.rs): what they forward for one client network in any window. */
module Worlds {
  import opened Addresses
  import opened Ledger
  import opened Queues
  import opened Safety
  import opened Wrappers
  import S = Sessions

  datatype Client = Client(ip: IpAddr, cap: u64, session: S.Session)

  /** Bytes that reached either side in a turn, dated by the time they were accounted. */
  datatype Delivery = Delivery(at: Instant, key: IpAddr, amount: nat)

  datatype World = World(book: Book, clients: map<nat, Client>, deliveries: seq<Delivery>)

  /** Before anyone is connected. */
  function Start(b: Book): World { World(b, map[], []) }

  /** `Own` is a call on the limiter by the request that a trace follows, `Other` any other call by anyone. */
  datatype Move = Open(id: nat, ip: IpAddr, cap: u64) | Pump(id: nat, ev: S.Event, now: Instant)
                | Own(op: Op) | Other(op: Op)

  /** The answer to a session's charge for an event. */
  function Granted(cfg: LimitsConfig, w: World, id: nat, ev: S.Event, now: Instant): bool
    requires id in w.clients
  {
    var c := w.clients[id];
    Step(cfg, w.book, DoCharge(c.ip, S.Wants(c.cap, c.session, ev), now)).1.Done?
  }

  /** One turn of a session: its bytes are charged before they are forwarded. */
  function PumpStep(cfg: LimitsConfig, w: World, id: nat, ev: S.Event, now: Instant): World
    requires id in w.clients
  {
    var c := w.clients[id];
    var book := Step(cfg, w.book, DoCharge(c.ip, S.Wants(c.cap, c.session, ev), now)).0;
    var after := S.Step(c.cap, c.session, ev, Granted(cfg, w, id, ev, now));
    World(book, w.clients[id := c.(session := after)],
          w.deliveries + [Delivery(now, cfg.Key(c.ip), S.Forwarded(after) - S.Forwarded(c.session))])
  }

  function Advance(cfg: LimitsConfig, w: World, m: Move): World {
    match m
    case Open(id, ip, cap) =>
      if id in w.clients then w else w.(clients := w.clients[id := Client(ip, cap, S.NewSession)])
    case Pump(id, ev, now) => if id in w.clients then PumpStep(cfg, w, id, ev, now) else w
    case Own(op) => w.(book := Step(cfg, w.book, op).0)
    case Other(op) => w.(book := Step(cfg, w.book, op).0)
  }

  /** A turn in terms of the ledger. */
  lemma PumpIs(cfg: LimitsConfig, w: World, id: nat, ev: S.Event, now: Instant, granted: bool)
    requires id in w.clients
    requires var c := w.clients[id];
             granted <==> ChargeError(cfg, w.book.charges, cfg.Key(c.ip), S.Wants(c.cap, c.session, ev), now).None?
    ensures var c, v := w.clients[id], Advance(cfg, w, Pump(id, ev, now));
            && v.book == AfterCharge(cfg, w.book, cfg.Key(c.ip), S.Wants(c.cap, c.session, ev), now)
            && v.clients == w.clients[id := c.(session := S.Step(c.cap, c.session, ev, granted))]
  {
  }

  lemma ChargeKeepsLeases(cfg: LimitsConfig, b: Book, key: IpAddr, n: u64, now: Instant)
    ensures var c := AfterCharge(cfg, b, key, n, now); c.leases == b.leases && c.nextLease == b.nextLease
  {
  }

  /** The world after a trace that starts at `w`. */
  function After(cfg: LimitsConfig, w: World, moves: seq<Move>): World {
    if moves == [] then w else Advance(cfg, After(cfg, w, moves[..|moves| - 1]), moves[|moves| - 1])
  }

  lemma AfterSnoc(cfg: LimitsConfig, w: World, moves: seq<Move>, m: Move)
    ensures After(cfg, w, moves + [m]) == Advance(cfg, After(cfg, w, moves), m)
  {
    assert (moves + [m])[..|moves|] == moves;
  }

  lemma NoMoves(cfg: LimitsConfig, w: World, numbers: seq<nat>)
    ensures After(cfg, w, []) == w && NumbersAfter(cfg, w, [], numbers) == numbers
    ensures DropsOwn(cfg, w, [], [], numbers)
  {
  }

  lemma FirstMove(cfg: LimitsConfig, w: World, m: Move)
    ensures After(cfg, w, [m]) == Advance(cfg, w, m)
  {
    AfterSnoc(cfg, w, [], m);
    assert [] + [m] == [m];
  }

  lemma {:induction false} AfterCat(cfg: LimitsConfig, w: World, moves: seq<Move>, more: seq<Move>)
    ensures After(cfg, w, moves + more) == After(cfg, After(cfg, w, moves), more)
  {
    if more == [] {
      assert moves + more == moves;
    } else {
      hide *;
      var front, last := more[..|more| - 1], more[|more| - 1];
      AfterCat(cfg, w, moves, front);
      Reassociate(moves, front, [last]);
      assert more == front + [last];
      AfterSnoc(cfg, w, moves + front, last);
      AfterSnoc(cfg, After(cfg, w, moves), front, last);
    }
  }

  function DeliveredWithin(d: seq<Delivery>, key: IpAddr, from: int, window: Duration): nat {
    if d == [] then 0
    else
      var last := d[|d| - 1];
      DeliveredWithin(d[..|d| - 1], key, from, window)
      + if last.key == key && Within(last.at, from, window) then last.amount else 0
  }

  lemma DeliverySnoc(d: seq<Delivery>, x: Delivery, key: IpAddr, from: int, window: Duration)
    ensures DeliveredWithin(d + [x], key, from, window)
            == DeliveredWithin(d, key, from, window)
               + if x.key == key && Within(x.at, from, window) then x.amount else 0
  {
    assert (d + [x])[..|d|] == d;
  }

  /** Charges are never taken back. */
  lemma ChargesKept(cfg: LimitsConfig, b: Book, op: Op, key: IpAddr, from: int, window: Duration)
    ensures BytesWithin(b.charges, key, from, window) <= BytesWithin(Step(cfg, b, op).0.charges, key, from, window)
  {
    match op
    case DoCharge(ip, n, now) =>
      ChargeSnoc(b.charges, Charge(now, cfg.Key(ip), n), key, from, window);
    case _ =>
  }

  /** What one turn delivers has been charged, to the same key at the same time. */
  lemma PumpCharged(cfg: LimitsConfig, w: World, id: nat, ev: S.Event, now: Instant,
                    key: IpAddr, from: int, window: Duration)
    requires id in w.clients && cfg.maxBytesPerIp != 0
    requires DeliveredWithin(w.deliveries, key, from, window) <= BytesWithin(w.book.charges, key, from, window)
    ensures var v := PumpStep(cfg, w, id, ev, now);
            DeliveredWithin(v.deliveries, key, from, window) <= BytesWithin(v.book.charges, key, from, window)
  {
    var c := w.clients[id];
    var n := S.Wants(c.cap, c.session, ev);
    var granted := Step(cfg, w.book, DoCharge(c.ip, n, now)).1.Done?;
    S.ForwardsWhatItWants(c.cap, c.session, ev, granted);
    var sent := S.Forwarded(S.Step(c.cap, c.session, ev, granted)) - S.Forwarded(c.session);
    DeliverySnoc(w.deliveries, Delivery(now, cfg.Key(c.ip), sent), key, from, window);
    ChargeSnoc(w.book.charges, Charge(now, cfg.Key(c.ip), n), key, from, window);
    hide S.Step, S.Wants, S.Forwarded, DeliveredWithin, BytesWithin, ChargeError;
  }

  lemma {:induction false} DeliveriesCharged(cfg: LimitsConfig, w: World, moves: seq<Move>,
                                             key: IpAddr, from: int, window: Duration)
    requires cfg.maxBytesPerIp != 0
    requires DeliveredWithin(w.deliveries, key, from, window) <= BytesWithin(w.book.charges, key, from, window)
    ensures var v := After(cfg, w, moves);
            DeliveredWithin(v.deliveries, key, from, window) <= BytesWithin(v.book.charges, key, from, window)
  {
    if moves != [] {
      var before := After(cfg, w, moves[..|moves| - 1]);
      DeliveriesCharged(cfg, w, moves[..|moves| - 1], key, from, window);
      match moves[|moves| - 1]
      case Open(_, _, _) =>
      case Pump(id, ev, now) => if id in before.clients { PumpCharged(cfg, before, id, ev, now, key, from, window); }
      case Own(op) => ChargesKept(cfg, before.book, op, key, from, window);
      case Other(op) => ChargesKept(cfg, before.book, op, key, from, window);
    }
  }

  lemma {:induction false} AfterLawful(cfg: LimitsConfig, w: World, moves: seq<Move>)
    requires Lawful(cfg, w.book)
    ensures Lawful(cfg, After(cfg, w, moves).book)
  {
    if moves != [] {
      hide Lawful, Step;
      var v := After(cfg, w, moves[..|moves| - 1]);
      AfterLawful(cfg, w, moves[..|moves| - 1]);
      match moves[|moves| - 1]
      case Open(_, _, _) =>
      case Pump(id, ev, now) =>
        if id in v.clients {
          var c := v.clients[id];
          StepLawful(cfg, v.book, DoCharge(c.ip, S.Wants(c.cap, c.session, ev), now));
        }
      case Own(op) => StepLawful(cfg, v.book, op);
      case Other(op) => StepLawful(cfg, v.book, op);
    }
  }

  /** However many sessions share a key and however their turns interleave, the bytes they forward in
      both directions total at most `max_bytes_per_ip` in every closed interval of `bytes_window`. The
      ledger may have any lawful past. */
  lemma SessionsKeepQuota(cfg: LimitsConfig, b: Book, moves: seq<Move>, key: IpAddr, from: int)
    requires 0 < cfg.maxBytesPerIp < MaxU64 && Lawful(cfg, b)
    ensures DeliveredWithin(After(cfg, Start(b), moves).deliveries, key, from, cfg.bytesWindow) <= cfg.maxBytesPerIp
  {
    DeliveriesCharged(cfg, Start(b), moves, key, from, cfg.bytesWindow);
    AfterLawful(cfg, Start(b), moves);
    ByteWindow(cfg, After(cfg, Start(b), moves).book.charges, key, from);
  }

  // ------------------------------------------------------------ nothing forwarded is left out

  function Total(d: seq<Delivery>): nat { if d == [] then 0 else Total(d[..|d| - 1]) + d[|d| - 1].amount }

  function ForwardedBy(clients: map<nat, Client>, ids: seq<nat>): nat {
    if ids == [] then 0
    else
      var id := ids[|ids| - 1];
      ForwardedBy(clients, ids[..|ids| - 1]) + if id in clients then S.Forwarded(clients[id].session) else 0
  }

  lemma {:induction false} ForwardedChanges(clients: map<nat, Client>, id: nat, c: Client, ids: seq<nat>)
    requires Distinct(ids)
    ensures ForwardedBy(clients[id := c], ids)
            == ForwardedBy(clients, ids)
               + if id !in ids then 0
                 else S.Forwarded(c.session) - (if id in clients then S.Forwarded(clients[id].session) else 0)
  {
    if ids != [] {
      var front, last := ids[..|ids| - 1], ids[|ids| - 1];
      ForwardedChanges(clients, id, c, front);
      assert ids == front + [last];
    }
  }

  /** The deliveries account for every byte on either socket of every session. */
  lemma {:induction false} DeliveriesComplete(cfg: LimitsConfig, b: Book, moves: seq<Move>, ids: seq<nat>)
    requires Distinct(ids) && forall id | id in After(cfg, Start(b), moves).clients :: id in ids
    ensures Total(After(cfg, Start(b), moves).deliveries) == ForwardedBy(After(cfg, Start(b), moves).clients, ids)
  {
    if moves == [] {
      NothingForwarded(ids);
    } else {
      var w := After(cfg, Start(b), moves[..|moves| - 1]);
      DeliveriesComplete(cfg, b, moves[..|moves| - 1], ids);
      match moves[|moves| - 1]
      case Open(id, ip, cap) => ForwardedChanges(w.clients, id, Client(ip, cap, S.NewSession), ids);
      case Pump(id, ev, now) => if id in w.clients { PumpComplete(cfg, w, id, ev, now, ids); }
      case Own(_) =>
      case Other(_) =>
    }
  }

  lemma PumpComplete(cfg: LimitsConfig, w: World, id: nat, ev: S.Event, now: Instant, ids: seq<nat>)
    requires id in w.clients && id in ids && Distinct(ids)
    ensures var v := PumpStep(cfg, w, id, ev, now);
            Total(v.deliveries) - Total(w.deliveries) == ForwardedBy(v.clients, ids) - ForwardedBy(w.clients, ids)
  {
    var v := PumpStep(cfg, w, id, ev, now);
    ForwardedChanges(w.clients, id, v.clients[id], ids);
    assert v.deliveries[..|w.deliveries|] == w.deliveries;
  }

  lemma {:induction false} NothingForwarded(ids: seq<nat>)
    ensures ForwardedBy(map[], ids) == 0
  {
    if ids != [] { NothingForwarded(ids[..|ids| - 1]); }
  }

  // ------------------------------------------------------------ each session on its own

  /** The turns of one session, each with the answer its charge was given. */
  function TurnsOf(cfg: LimitsConfig, w: World, moves: seq<Move>, id: nat): seq<S.Turn> {
    if moves == [] then []
    else
      var before, m := moves[..|moves| - 1], moves[|moves| - 1];
      var front, v := TurnsOf(cfg, w, before, id), After(cfg, w, before);
      if m.Pump? && m.id == id && id in v.clients then front + [S.Turn(m.ev, Granted(cfg, v, id, m.ev, m.now))]
      else front
  }

  lemma TurnsSnoc(cfg: LimitsConfig, w: World, moves: seq<Move>, m: Move, id: nat)
    ensures var v := After(cfg, w, moves);
            TurnsOf(cfg, w, moves + [m], id)
            == if m.Pump? && m.id == id && id in v.clients
               then TurnsOf(cfg, w, moves, id) + [S.Turn(m.ev, Granted(cfg, v, id, m.ev, m.now))]
               else TurnsOf(cfg, w, moves, id)
  {
    assert (moves + [m])[..|moves|] == moves;
  }

  /** Sharing the limiter affects a session only through those answers, so what is proved of every run
      of one session holds of each of many. */
  lemma {:induction false} SessionsSeparate(cfg: LimitsConfig, w: World, moves: seq<Move>, id: nat)
    requires id in w.clients ==> w.clients[id].session == S.NewSession
    ensures id in After(cfg, w, moves).clients
            ==> var c := After(cfg, w, moves).clients[id]; c.session == S.Run(c.cap, TurnsOf(cfg, w, moves, id))
    ensures id !in After(cfg, w, moves).clients ==> TurnsOf(cfg, w, moves, id) == []
  {
    if moves != [] {
      var front, last := moves[..|moves| - 1], moves[|moves| - 1];
      SessionsSeparate(cfg, w, front, id);
      if last.Pump? && last.id == id && id in After(cfg, w, front).clients {
        var c := After(cfg, w, front).clients[id];
        var ts := TurnsOf(cfg, w, moves, id);
        assert ts[..|ts| - 1] == TurnsOf(cfg, w, front, id);
        S.Snoc(c.cap, ts);
      }
    }
  }

  // ------------------------------------------------------------ other people's calls

  /** A call by someone else, who cannot drop the leases of `mine`. */
  predicate Spares(m: Move, mine: set<nat>) { m.Other? && (m.op.DoRelease? ==> m.op.id !in mine) }

  predicate OthersOnly(moves: seq<Move>, mine: set<nat>) { forall k | 0 <= k < |moves| :: Spares(moves[k], mine) }

  predicate Does(m: Move, c: Call) {
    m.Other? && match c
      case Try(ip, dest) => m.op.DoAttempt? && m.op.ip == ip && m.op.dest == dest
      case Acquire(ip, dest) => m.op == DoAcquire(ip, dest)
      case End(_) => m.op.DoRelease? || m.op.DoCollect?
      case AddBytes(ip, n) => m.op.DoCharge? && m.op.ip == ip && m.op.n == n
      case Collect => m.op.DoCollect?
  }

  /** Others did exactly what they were going to do, and spared the leases of `mine`. */
  predicate Did(moves: seq<Move>, calls: seq<Call>, mine: set<nat>) {
    |moves| == |calls| && forall k | 0 <= k < |moves| :: Does(moves[k], calls[k]) && Spares(moves[k], mine)
  }

  lemma DidSpares(moves: seq<Move>, calls: seq<Call>, mine: set<nat>)
    requires Did(moves, calls, mine)
    ensures OthersOnly(moves, mine)
  {
  }

  /** Others move no session. */
  lemma {:induction false} OthersQuiet(cfg: LimitsConfig, w: World, moves: seq<Move>, mine: set<nat>, id: nat)
    requires OthersOnly(moves, mine)
    ensures var v := After(cfg, w, moves); v == w.(book := v.book)
    ensures TurnsOf(cfg, w, moves, id) == []
  {
    if moves != [] {
      assert Spares(moves[|moves| - 1], mine);
      OthersQuiet(cfg, w, moves[..|moves| - 1], mine, id);
    }
  }

  // ------------------------------------------------------------ leases over a trace

  /** Lease numbers are handed out in order. */
  predicate Numbered(b: Book) { forall id | id in b.leases :: id < b.nextLease }

  predicate IsCall(m: Move) { m.Own? || m.Other? }

  predicate Releases(m: Move, id: nat) { IsCall(m) && m.op == DoRelease(id) }

  /** Move `k` of a trace is a call that was granted lease `id`. */
  predicate Grants(cfg: LimitsConfig, w: World, moves: seq<Move>, k: nat, id: nat)
    requires k < |moves|
  {
    IsCall(moves[k]) && Step(cfg, After(cfg, w, moves[..k]).book, moves[k].op).1 == Ledger.Granted(id)
  }

  /** What one call does to a lease. */
  lemma CallOnLease(cfg: LimitsConfig, b: Book, op: Op, id: nat)
    requires Numbered(b)
    ensures var (c, answer) := Step(cfg, b, op);
            && Numbered(c) && b.nextLease <= c.nextLease
            && (id in b.leases && op != DoRelease(id) ==> id in c.leases && c.leases[id] == b.leases[id])
            && (id in c.leases ==> id in b.leases || answer == Ledger.Granted(id))
            && (op == DoRelease(id) ==> id !in c.leases)
            && (answer == Ledger.Granted(id) ==> op.DoAcquire? && id == b.nextLease)
  {
  }

  lemma SparedStay(cfg: LimitsConfig, b: Book, op: Op, mine: set<nat>)
    requires Numbered(b) && mine <= b.leases.Keys && Spares(Other(op), mine)
    ensures var c := Step(cfg, b, op).0; forall id | id in mine :: id in c.leases && c.leases[id] == b.leases[id]
  {
    hide Step;
    forall id | id in mine
      ensures var c := Step(cfg, b, op).0; id in c.leases && c.leases[id] == b.leases[id]
    {
      CallOnLease(cfg, b, op, id);
    }
  }

  lemma MoveOnLease(cfg: LimitsConfig, w: World, m: Move, id: nat)
    requires Numbered(w.book)
    ensures var v := Advance(cfg, w, m);
            && Numbered(v.book) && w.book.nextLease <= v.book.nextLease
            && (id in w.book.leases && !Releases(m, id)
                ==> id in v.book.leases && v.book.leases[id] == w.book.leases[id])
            && (id in v.book.leases
                ==> id in w.book.leases || (IsCall(m) && Step(cfg, w.book, m.op).1 == Ledger.Granted(id)))
            && (Releases(m, id) ==> id !in v.book.leases)
  {
    if IsCall(m) {
      CallOnLease(cfg, w.book, m.op, id);
    } else if m.Pump? && m.id in w.clients {
      var c := w.clients[m.id];
      CallOnLease(cfg, w.book, DoCharge(c.ip, S.Wants(c.cap, c.session, m.ev), m.now), id);
    }
  }

  lemma {:induction false} StaysNumbered(cfg: LimitsConfig, w: World, moves: seq<Move>)
    requires Numbered(w.book)
    ensures Numbered(After(cfg, w, moves).book) && w.book.nextLease <= After(cfg, w, moves).book.nextLease
  {
    if moves != [] {
      hide Numbered, Advance;
      StaysNumbered(cfg, w, moves[..|moves| - 1]);
      MoveOnLease(cfg, After(cfg, w, moves[..|moves| - 1]), moves[|moves| - 1], 0);
    }
  }

  /** A lease that no one releases stays as it was. */
  lemma {:induction false} LeaseStays(cfg: LimitsConfig, w: World, moves: seq<Move>, id: nat)
    requires Numbered(w.book) && id in w.book.leases
    requires forall k | 0 <= k < |moves| :: !Releases(moves[k], id)
    ensures var v := After(cfg, w, moves); id in v.book.leases && v.book.leases[id] == w.book.leases[id]
  {
    if moves != [] {
      hide Numbered, Advance, Releases;
      var front := moves[..|moves| - 1];
      LeaseStays(cfg, w, front, id);
      StaysNumbered(cfg, w, front);
      MoveOnLease(cfg, After(cfg, w, front), moves[|moves| - 1], id);
    }
  }

  /** A lease that is live at the end was live at the start, or a call of the trace was granted it. */
  lemma {:induction false} LeaseOrigin(cfg: LimitsConfig, w: World, moves: seq<Move>, id: nat)
    requires Numbered(w.book) && id in After(cfg, w, moves).book.leases
    ensures id in w.book.leases || exists k | 0 <= k < |moves| :: Grants(cfg, w, moves, k, id)
  {
    if moves != [] {
      hide Numbered, Advance;
      var front, n := moves[..|moves| - 1], |moves| - 1;
      StaysNumbered(cfg, w, front);
      MoveOnLease(cfg, After(cfg, w, front), moves[n], id);
      if id in After(cfg, w, front).book.leases {
        LeaseOrigin(cfg, w, front, id);
        if k :| 0 <= k < |front| && Grants(cfg, w, front, k, id) {
          assert front[..k] == moves[..k];
          assert Grants(cfg, w, moves, k, id);
        }
      } else {
        assert Grants(cfg, w, moves, n, id);
      }
    }
  }

  // ------------------------------------------------------------ which leases others drop

  /** The leases others have been granted after a trace. */
  function NumbersAfter(cfg: LimitsConfig, w: World, moves: seq<Move>, numbers: seq<nat>): seq<nat> {
    if moves == [] then numbers
    else
      var front, m := moves[..|moves| - 1], moves[|moves| - 1];
      var before := NumbersAfter(cfg, w, front, numbers);
      if m.Other? then MoreNumbers(before, Step(cfg, After(cfg, w, front).book, m.op).1) else before
  }

  /** Each `End(k)` drops the lease that others were granted as their `k`-th, and no other. */
  predicate DropsOwn(cfg: LimitsConfig, w: World, moves: seq<Move>, calls: seq<Call>, numbers: seq<nat>)
    requires |moves| == |calls|
  {
    forall k | 0 <= k < |calls| && calls[k].End? ::
      moves[k] == Other(calls[k].OpAt(0, false, NumbersAfter(cfg, w, moves[..k], numbers)))
  }

  lemma DropsSnoc(cfg: LimitsConfig, w: World, moves: seq<Move>, m: Move, calls: seq<Call>, c: Call, numbers: seq<nat>)
    requires |moves| == |calls| && DropsOwn(cfg, w, moves, calls, numbers) && m.Other?
    requires c.End? ==> m == Other(c.OpAt(0, false, NumbersAfter(cfg, w, moves, numbers)))
    ensures DropsOwn(cfg, w, moves + [m], calls + [c], numbers)
    ensures NumbersAfter(cfg, w, moves + [m], numbers)
            == MoreNumbers(NumbersAfter(cfg, w, moves, numbers), Step(cfg, After(cfg, w, moves).book, m.op).1)
  {
    var longer, more := moves + [m], calls + [c];
    assert longer[..|moves|] == moves;
    forall k | 0 <= k < |more| && more[k].End?
      ensures longer[k] == Other(more[k].OpAt(0, false, NumbersAfter(cfg, w, longer[..k], numbers)))
    {
      assert longer[..k] == moves[..k] && moves[..|moves|] == moves;
    }
  }
}
