/** The request handler (src/server.rs): the order of its admission steps, and the comparison of bearer
    tokens. */
module Server {
  import opened Addresses
  import opened Connections
  import opened Ledger
  import opened Limits
  import opened Neighbours
  import opened Queues
  import opened Remotes
  import opened Scripts
  import opened Tls
  import opened Traces
  import opened Wrappers
  import Bits
  import Rows
  import S = Sessions
  import W = Worlds

  // ------------------------------------------------------------ tokens

  /** `*b.get(i).unwrap_or(&0)`. */
  function ByteAt(b: bytes, i: nat): u8 { if i < |b| then b[i] else 0 }

  /** `token_eq`: the shorter token is padded with zeros, and every difference is folded into `diff`. */
  method TokenEq(a: bytes, b: bytes) returns (eq: bool)
    ensures eq <==> a == b
  {
    var diff := Bits.Xor(|a|, |b|);
    Bits.XorZero(|a|, |b|);
    var n := if |a| < |b| then |b| else |a|;
    for i := 0 to n
      invariant diff == 0 <==> |a| == |b| && forall k | 0 <= k < i :: ByteAt(a, k) == ByteAt(b, k)
    {
      var x, y := ByteAt(a, i), ByteAt(b, i);
      Bits.XorZero(x, y);
      Bits.OrZero(diff, Bits.Xor(x, y));
      diff := Bits.Or(diff, Bits.Xor(x, y));
    }
    eq := diff == 0;
    if eq {
      assert forall k | 0 <= k < |a| :: a[k] == ByteAt(a, k) == ByteAt(b, k) == b[k];
    }
  }

  // ------------------------------------------------------------ the handler

  datatype Rejection = ByLimits(limit: LimitError) | ByDest(dest: DestError)

  /** The world's part in one request: resolving, dialling, the upgrade, the sockets and their schedule,
      and what others do to the limiter while the request waits for each of them. */
  datatype Fate = Fate(resolved: Result<(), DestError>, dialled: Result<(), DestError>, upgraded: bool,
                       sockets: Sockets, choices: seq<Choice>,
                       dialling: seq<Call>, upgrading: seq<Call>, probing: seq<Call>, awaiting: nat -> seq<Call>)

  /** One request, with all it depends on besides the limiter. */
  datatype Request = Request(config: ConnectionConfig, client: IpAddr, remote: Remote, fate: Fate) {
    predicate Valid() { fate.sockets.Valid() && FitsProbe(ProbeOf(config, remote), fate.sockets) }

    function Attempt(at: Instant, tracked: bool): W.Move { W.Own(DoAttempt(client, remote.DestKey(), at, tracked)) }

    function Acquire(): Op { DoAcquire(client, remote.DestKey()) }

    function ScriptFrom(p: Probed): Script {
      Script(fate.sockets, p.client, p.upstream, fate.choices, fate.awaiting)
    }
  }

  /** What happens while the request holds lease `id`: it is released once, at the very end, and everything
      before is as the world's part in the request has it. */
  ghost predicate Held(cfg: LimitsConfig, b: Book, moves: seq<W.Move>, id: nat, q: Request)
    requires q.Valid()
  {
    && HeldTrace(moves, id, q.client, q.config.maxBytesPerConnection)
    && exists waited, probing, rounds :: HeldAs(cfg, b, moves, id, q, waited, probing, rounds)
  }

  ghost predicate HeldAs(cfg: LimitsConfig, b: Book, moves: seq<W.Move>, id: nat, q: Request,
                         waited: seq<W.Move>, probing: seq<W.Move>, rounds: seq<seq<W.Move>>)
    requires q.Valid()
  {
    && W.Did(waited, q.fate.upgrading, {id})
    && if !q.fate.upgraded then moves == waited + [W.Own(DoRelease(id))]
       else
         && W.Did(probing, ProbingCalls(q.config, q.remote, q.fate.probing), {id})
         && if !ReachesLoop(q.config, q.remote, q.fate.sockets) then moves == waited + probing + [W.Own(DoRelease(id))]
            else
              && moves == waited + (probing + Served(rounds, id, q.client, q.config.maxBytesPerConnection))
              && exists p: Probed, s :: LeftAndRan(cfg, b, moves, id, q, rounds, p, s)
  }

  /** The session ran to its end along its script, from where the probe left the sockets. */
  ghost predicate LeftAndRan(cfg: LimitsConfig, b: Book, moves: seq<W.Move>, id: nat, q: Request,
                             rounds: seq<seq<W.Move>>, p: Probed, s: S.Session)
    requires q.Valid()
  {
    && p.client <= |q.fate.sockets.client| && p.upstream <= |q.fate.sockets.upstream|
    && LeftAt(ProbeOf(q.config, q.remote), q.fate.sockets, p)
    && (forall k | 0 <= k < |rounds| ::
          Round(rounds[k], id, q.ScriptFrom(p).EventAt(k), q.ScriptFrom(p).awaiting(k)))
    && RanToEnd(cfg, b, moves, id, q.config.maxBytesPerConnection, q.ScriptFrom(p), s)
  }

  /** A connection that runs, and is then dropped. */
  method RunConnection(limits: LimitState, q: Request, lease: ConnectionLease, others: Others)
    returns (p: Probed, ghost probing: seq<W.Move>, ghost rounds: seq<seq<W.Move>>, ghost moves: seq<W.Move>,
             ghost s: S.Session)
    requires others.Valid() && others.limits == limits && others.Spare({lease.id})
    requires q.Valid() && lease.state == limits && lease.Live()
    modifies limits.Repr, others
    ensures others.Valid() && fresh(limits.Repr - old(limits.Repr)) && limits.clock >= old(limits.clock)
    ensures W.After(limits.cfg, W.Start(old(limits.past)), moves).book == limits.past
    ensures HeldTrace(moves, lease.id, q.client, q.config.maxBytesPerConnection)
    ensures W.Did(probing, ProbingCalls(q.config, q.remote, q.fate.probing), {lease.id})
    ensures p.accepted <==> ReachesLoop(q.config, q.remote, q.fate.sockets)
    ensures !p.accepted ==> moves == probing + [W.Own(DoRelease(lease.id))]
    ensures p.accepted
            ==> moves == probing + Served(rounds, lease.id, q.client, q.config.maxBytesPerConnection)
                && LeftAndRan(limits.cfg, old(limits.past), moves, lease.id, q, rounds, p, s)
  {
    hide Rows.Tied, Addresses.LimitKey, W.After, HeldTrace, RanToEnd, LeftAt, ReachesLoop, FitsProbe, ProbeOf;
    hide Others.Holding, Others.Spare, W.Did, Round;
    ghost var id, cap, b := lease.id, q.config.maxBytesPerConnection, limits.past;
    var conn := new Connection(q.remote, q.client, lease, limits, q.config);
    var connBytes;
    p, connBytes, probing, rounds :=
      conn.Run(q.fate.sockets, q.fate.choices, others, q.fate.probing, q.fate.awaiting);
    s := S.Session(false, connBytes, conn.toTcp, conn.toClient, conn.control);
    if p.accepted {
      moves := probing + Served(rounds, id, q.client, cap);
    } else {
      moves := probing + [W.Own(DoRelease(id))];
      W.DidSpares(probing, ProbingCalls(q.config, q.remote, q.fate.probing), {id});
      OnlyReleased(limits.cfg, W.Start(b), probing, id, q.client, cap);
      others.StillHolding(limits.past, id);
    }
    conn.Drop();
  }

  /** From the upgrade on, the lease belongs to the connection, or is dropped with the failed upgrade. */
  method HoldLease(limits: LimitState, q: Request, lease: ConnectionLease, others: Others)
    returns (ghost moves: seq<W.Move>)
    requires others.Valid() && others.limits == limits && others.Spare({lease.id})
    requires q.Valid() && lease.state == limits && lease.Live()
    modifies limits.Repr, others
    ensures others.Valid() && fresh(limits.Repr - old(limits.Repr)) && limits.clock >= old(limits.clock)
    ensures W.After(limits.cfg, W.Start(old(limits.past)), moves).book == limits.past
    ensures Held(limits.cfg, old(limits.past), moves, lease.id, q)
  {
    hide Rows.Tied, Addresses.LimitKey, W.After, HeldTrace, RanToEnd, LeftAt, ReachesLoop, FitsProbe, ProbeOf;
    hide Others.Holding, Others.Spare, W.Did, LeftAndRan, Request.Valid;
    ghost var id, cap, b := lease.id, q.config.maxBytesPerConnection, limits.past;
    ghost var waited := others.Meanwhile(q.fate.upgrading, {id}, W.Start(b));
    W.DidSpares(waited, q.fate.upgrading, {id});
    ghost var c := limits.past;
    if !q.fate.upgraded {
      others.StillHolding(limits.past, id);
      lease.Drop();
      moves := waited + [W.Own(DoRelease(id))];
      OnlyReleased(limits.cfg, W.Start(b), waited, id, q.client, cap);
      assert HeldAs(limits.cfg, b, moves, id, q, waited, [], []);
      return;
    }
    var p;
    ghost var probing, rounds, ran, s;
    p, probing, rounds, ran, s := RunConnection(limits, q, lease, others);
    moves := waited + ran;
    W.AfterCat(limits.cfg, W.Start(b), waited, ran);
    WaitThenHeld(waited, ran, id, q.client, cap);
    if p.accepted {
      WaitThenLeft(limits.cfg, b, waited, c, ran, id, q, rounds, p, s);
    } else {
      Reassociate(waited, probing, [W.Own(DoRelease(id))]);
    }
    assert HeldAs(limits.cfg, b, moves, id, q, waited, probing, rounds);
  }

  lemma WaitThenLeft(cfg: LimitsConfig, b: Book, waited: seq<W.Move>, c: Book, moves: seq<W.Move>, id: nat, q: Request,
                     rounds: seq<seq<W.Move>>, p: Probed, s: S.Session)
    requires q.Valid() && W.OthersOnly(waited, {id}) && W.After(cfg, W.Start(b), waited) == W.Start(c)
    requires LeftAndRan(cfg, c, moves, id, q, rounds, p, s)
    ensures LeftAndRan(cfg, b, waited + moves, id, q, rounds, p, s)
  {
    hide W.After, W.OthersOnly, RanToEnd, LeftAt, Round;
    WaitThenRan(cfg, b, waited, c, moves, id, q.config.maxBytesPerConnection, q.ScriptFrom(p), s);
  }

  /** From the call for a slot on. */
  ghost predicate SlotTaken(cfg: LimitsConfig, b: Book, moves: seq<W.Move>, q: Request, r: Result<(), Rejection>)
    requires q.Valid()
  {
    && moves != [] && moves[0] == W.Own(q.Acquire())
    && match Step(cfg, b, q.Acquire())
       case (_, Refused(e)) => |moves| == 1 && r == Err(ByLimits(e))
       case (c, Granted(id)) => Held(cfg, c, moves[1..], id, q) && r == Ok(())
       case (_, Done) => false
  }

  /** A live slot, for as long as the session lasts. */
  method TakeSlot(limits: LimitState, q: Request, others: Others)
    returns (r: Result<(), Rejection>, ghost moves: seq<W.Move>)
    requires others.Valid() && others.limits == limits && q.Valid()
    modifies limits.Repr, others
    ensures others.Valid() && fresh(limits.Repr - old(limits.Repr)) && limits.clock >= old(limits.clock)
    ensures W.After(limits.cfg, W.Start(old(limits.past)), moves).book == limits.past
    ensures SlotTaken(limits.cfg, old(limits.past), moves, q, r)
  {
    hide LimitState.Valid, Others.Holding, Ledger.AcquireError, Addresses.LimitKey, Held, W.After;
    limits.LeasesNumbered();
    ghost var b, ask := limits.past, W.Own(q.Acquire());
    W.FirstMove(limits.cfg, W.Start(b), ask);
    others.NextIsNotTheirs();
    var acquired := limits.Acquire(q.client, q.remote.DestKey());
    others.HoldingKept(b, limits.past);
    if acquired.Err? {
      return Err(ByLimits(acquired.error)), [ask];
    }
    ghost var held := HoldLease(limits, q, acquired.value, others);
    moves := [ask] + held;
    W.AfterCat(limits.cfg, W.Start(b), [ask], held);
    r := Ok(());
  }

  /** Resolving, dialling and only then a slot. */
  ghost predicate Connected(cfg: LimitsConfig, b: Book, waited: seq<W.Move>, slot: seq<W.Move>, q: Request,
                            r: Result<(), Rejection>)
    requires q.Valid()
  {
    && W.Did(waited, q.fate.dialling, {})
    && if q.fate.resolved.Err? then slot == [] && r == Err(ByDest(q.fate.resolved.error))
       else if q.fate.dialled.Err? then slot == [] && r == Err(ByDest(q.fate.dialled.error))
       else SlotTaken(cfg, W.After(cfg, W.Start(b), waited).book, slot, q, r)
  }

  method Connect(limits: LimitState, q: Request, others: Others)
    returns (r: Result<(), Rejection>, ghost waited: seq<W.Move>, ghost slot: seq<W.Move>)
    requires others.Valid() && others.limits == limits && q.Valid()
    modifies limits.Repr, others
    ensures others.Valid() && fresh(limits.Repr - old(limits.Repr)) && limits.clock >= old(limits.clock)
    ensures W.After(limits.cfg, W.Start(old(limits.past)), waited + slot).book == limits.past
    ensures Connected(limits.cfg, old(limits.past), waited, slot, q, r)
  {
    hide Rows.Tied, SlotTaken, W.After, W.Did, Others.Holding;
    ghost var b := limits.past;
    waited := others.Meanwhile(q.fate.dialling, {}, W.Start(b));
    slot := [];
    assert waited + slot == waited;
    if q.fate.resolved.Err? {
      r := Err(ByDest(q.fate.resolved.error));
      return;
    }
    if q.fate.dialled.Err? {
      r := Err(ByDest(q.fate.dialled.error));
      return;
    }
    r, slot := TakeSlot(limits, q, others);
    W.AfterCat(limits.cfg, W.Start(b), waited, slot);
  }

  /** The trace of a request is its attempt, then `waited`, then `slot`. */
  ghost predicate Handled(cfg: LimitsConfig, b: Book, at: Instant, tracked: bool, waited: seq<W.Move>,
                          slot: seq<W.Move>, q: Request, r: Result<(), Rejection>)
    requires q.Valid()
  {
    match AttemptError(cfg, b, cfg.Key(q.client), q.remote.DestKey(), at, tracked)
    case Some(e) => waited == slot == [] && r == Err(ByLimits(e))
    case None => Connected(cfg, W.After(cfg, W.Start(b), [q.Attempt(at, tracked)]).book, waited, slot, q, r)
  }

  /** `proxy_handler` from the point where the destination is known. The limiter's ledger at the end is
      that of the trace: the attempt, counted first at `at`; resolving and dialling; and only if they
      succeed the call for a slot, which is released once, after the session. */
  method ProxyHandler(limits: LimitState, q: Request, others: Others)
    returns (r: Result<(), Rejection>, ghost at: Instant, ghost tracked: bool, ghost waited: seq<W.Move>,
             ghost slot: seq<W.Move>)
    requires others.Valid() && others.limits == limits && q.Valid()
    modifies limits.Repr, others
    ensures others.Valid() && fresh(limits.Repr - old(limits.Repr)) && old(limits.clock) <= at <= limits.clock
    ensures W.After(limits.cfg, W.Start(old(limits.past)), [q.Attempt(at, tracked)] + waited + slot).book == limits.past
    ensures Handled(limits.cfg, old(limits.past), at, tracked, waited, slot, q, r)
    ensures tracked <==> old(limits.Tracks(limits.cfg.Key(q.client), at))
    ensures !tracked ==> !Active(limits.cfg, old(limits.past), limits.cfg.Key(q.client), at)
    ensures NothingLeaks(limits.cfg, old(limits.past), [q.Attempt(at, tracked)] + waited + slot)
  {
    hide LimitState.Valid, Others.Holding, Connected, NothingLeaks, W.After;
    hide Ledger.AttemptError, Ledger.Active, Addresses.LimitKey;
    ghost var b, key := limits.past, limits.cfg.Key(q.client);
    limits.UntrackedInactive(key);
    limits.LeasesNumbered();
    hide Request.Valid, W.Numbered;
    var attempt := limits.RecordAttempt(q.client, q.remote.DestKey());
    others.HoldingSame(b, limits.past);
    at := limits.clock;
    tracked := old(limits.Tracks(key, at));
    waited, slot := [], [];
    W.FirstMove(limits.cfg, W.Start(b), q.Attempt(at, tracked));
    assert [q.Attempt(at, tracked)] + [] + [] == [q.Attempt(at, tracked)];
    if attempt.Err? {
      r := Err(ByLimits(attempt.error));
    } else {
      r, waited, slot := Connect(limits, q, others);
      W.AfterCat(limits.cfg, W.Start(b), [q.Attempt(at, tracked)], waited + slot);
      Reassociate([q.Attempt(at, tracked)], waited, slot);
    }
    HandledLeaksNothing(limits.cfg, b, at, tracked, waited, slot, q, r);
  }

  // ------------------------------------------------------------ nothing leaks

  /** The leases that are live after a trace are those others were granted, and those of before that others
      did not release. */
  ghost predicate NothingLeaks(cfg: LimitsConfig, b: Book, moves: seq<W.Move>) {
    var end := W.After(cfg, W.Start(b), moves).book;
    && (forall id | id in end.leases && id !in b.leases ::
          exists k | 0 <= k < |moves| :: moves[k].Other? && W.Grants(cfg, W.Start(b), moves, k, id))
    && forall id | id in b.leases && forall k | 0 <= k < |moves| :: !(moves[k].Other? && W.Releases(moves[k], id)) ::
         id in end.leases && end.leases[id] == b.leases[id]
  }

  ghost predicate OwnGrantsIn(cfg: LimitsConfig, b: Book, moves: seq<W.Move>, gone: set<nat>) {
    forall k, id | 0 <= k < |moves| && moves[k].Own? && W.Grants(cfg, W.Start(b), moves, k, id) :: id in gone
  }

  ghost predicate OwnReleasesIn(moves: seq<W.Move>, gone: set<nat>) {
    forall k, id | 0 <= k < |moves| && moves[k].Own? && W.Releases(moves[k], id) :: id in gone
  }

  /** The request's own calls touch only the leases of `gone`, which are new and do not outlive it. */
  ghost predicate OwnCallsReturn(cfg: LimitsConfig, b: Book, moves: seq<W.Move>, gone: set<nat>) {
    && OwnGrantsIn(cfg, b, moves, gone) && OwnReleasesIn(moves, gone)
    && forall id | id in gone :: id >= b.nextLease && id !in W.After(cfg, W.Start(b), moves).book.leases
  }

  lemma ReturningLeaksNothing(cfg: LimitsConfig, b: Book, moves: seq<W.Move>, gone: set<nat>)
    requires W.Numbered(b) && OwnCallsReturn(cfg, b, moves, gone)
    ensures NothingLeaks(cfg, b, moves)
  {
    var w, end := W.Start(b), W.After(cfg, W.Start(b), moves).book;
    hide W.After;
    forall id | id in end.leases && id !in b.leases
      ensures exists k | 0 <= k < |moves| :: moves[k].Other? && W.Grants(cfg, w, moves, k, id)
    {
      W.LeaseOrigin(cfg, w, moves, id);
      var k :| 0 <= k < |moves| && W.Grants(cfg, w, moves, k, id);
      assert !moves[k].Own?;
    }
    forall id | id in b.leases && forall k | 0 <= k < |moves| :: !(moves[k].Other? && W.Releases(moves[k], id))
      ensures id in end.leases && end.leases[id] == b.leases[id]
    {
      forall k | 0 <= k < |moves| ensures !W.Releases(moves[k], id) {
        assert moves[k].Own? && W.Releases(moves[k], id) ==> id in gone;
      }
      W.LeaseStays(cfg, w, moves, id);
    }
  }

  /** Without a slot there is nothing to give back. */
  lemma NoSlotReturns(cfg: LimitsConfig, b: Book, attempt: W.Move, waited: seq<W.Move>)
    requires attempt.Own? && attempt.op.DoAttempt? && W.OthersOnly(waited, {})
    ensures OwnCallsReturn(cfg, b, [attempt] + waited, {})
  {
    var moves := [attempt] + waited;
    forall k | 0 < k < |moves| ensures !moves[k].Own? { assert W.Spares(waited[k - 1], {}); }
  }

  /** A slot that was granted is given back by the last call. */
  lemma SlotReturns(cfg: LimitsConfig, b: Book, attempt: W.Move, waited: seq<W.Move>, slot: seq<W.Move>, q: Request,
                    r: Result<(), Rejection>) returns (gone: set<nat>)
    requires q.Valid() && W.Numbered(b) && attempt.Own? && attempt.op.DoAttempt? && W.OthersOnly(waited, {})
    requires SlotTaken(cfg, W.After(cfg, W.Start(b), [attempt] + waited).book, slot, q, r)
    ensures OwnCallsReturn(cfg, b, [attempt] + waited + slot, gone)
  {
    hide W.After, W.OthersOnly, W.Numbered, SlotTaken, Step, Request.Valid, Request.Acquire;
    hide OwnCallsReturn, OwnGrantsIn, OwnReleasesIn;
    var moves, n := [attempt] + waited + slot, 1 + |waited|;
    var c := W.After(cfg, W.Start(b), [attempt] + waited).book;
    var answer := Step(cfg, c, q.Acquire()).1;
    gone := if answer.Granted? then {answer.id} else {};
    OwnMoves(attempt, waited, slot, q, cfg, c, r);
    OnlyAt(cfg, b, moves, n, attempt, waited, slot, q, answer);
    W.StaysNumbered(cfg, W.Start(b), [attempt] + waited);
    if answer.Granted? {
      W.CallOnLease(cfg, c, q.Acquire(), answer.id);
      LastReleases(cfg, b, moves, answer.id);
    }
    TogetherReturn(cfg, b, moves, gone);
  }

  lemma TogetherReturn(cfg: LimitsConfig, b: Book, moves: seq<W.Move>, gone: set<nat>)
    requires OwnGrantsIn(cfg, b, moves, gone) && OwnReleasesIn(moves, gone)
    requires forall id | id in gone :: id >= b.nextLease && id !in W.After(cfg, W.Start(b), moves).book.leases
    ensures OwnCallsReturn(cfg, b, moves, gone)
  {
  }

  /** The only own call that is granted a lease is the one for the slot, and the only one released is that. */
  lemma OnlyAt(cfg: LimitsConfig, b: Book, moves: seq<W.Move>, n: nat, attempt: W.Move, waited: seq<W.Move>,
               slot: seq<W.Move>, q: Request, answer: Outcome)
    requires W.Numbered(b) && moves == [attempt] + waited + slot && n == 1 + |waited| < |moves|
    requires attempt.Own? && attempt.op.DoAttempt? && moves[n] == W.Own(q.Acquire())
    requires answer == Step(cfg, W.After(cfg, W.Start(b), [attempt] + waited).book, q.Acquire()).1
    requires forall k | 0 <= k < |moves| && moves[k].Own? ::
               k == 0 || k == n || (k == |moves| - 1 && answer.Granted? && moves[k] == W.Own(DoRelease(answer.id)))
    ensures var gone := if answer.Granted? then {answer.id} else {};
            OwnGrantsIn(cfg, b, moves, gone) && OwnReleasesIn(moves, gone)
  {
    hide W.After, Step;
    assert moves[..n] == [attempt] + waited && moves[0] == attempt;
    forall k, id | 0 <= k < |moves| && moves[k].Own? && W.Grants(cfg, W.Start(b), moves, k, id)
      ensures answer == Ledger.Granted(id)
    {
      GrantNeedsAcquire(cfg, b, moves, k, id);
      assert k == n;
    }
  }

  lemma GrantNeedsAcquire(cfg: LimitsConfig, b: Book, moves: seq<W.Move>, k: nat, id: nat)
    requires W.Numbered(b) && k < |moves| && W.Grants(cfg, W.Start(b), moves, k, id)
    ensures moves[k].op.DoAcquire?
  {
    hide W.After, Step;
    W.StaysNumbered(cfg, W.Start(b), moves[..k]);
    W.CallOnLease(cfg, W.After(cfg, W.Start(b), moves[..k]).book, moves[k].op, id);
  }

  lemma LastReleases(cfg: LimitsConfig, b: Book, moves: seq<W.Move>, id: nat)
    requires moves != [] && moves[|moves| - 1] == W.Own(DoRelease(id))
    ensures id !in W.After(cfg, W.Start(b), moves).book.leases
  {
    assert moves == moves[..|moves| - 1] + [W.Own(DoRelease(id))];
    W.AfterSnoc(cfg, W.Start(b), moves[..|moves| - 1], W.Own(DoRelease(id)));
  }

  /** Which of the moves are the request's own calls. */
  lemma OwnMoves(attempt: W.Move, waited: seq<W.Move>, slot: seq<W.Move>, q: Request, cfg: LimitsConfig, c: Book,
                 r: Result<(), Rejection>)
    requires q.Valid() && W.OthersOnly(waited, {}) && SlotTaken(cfg, c, slot, q, r)
    ensures var moves, n, answer := [attempt] + waited + slot, 1 + |waited|, Step(cfg, c, q.Acquire()).1;
            && n < |moves| && moves[n] == W.Own(q.Acquire())
            && (answer.Granted? ==> n < |moves| - 1 && moves[|moves| - 1] == W.Own(DoRelease(answer.id)))
            && forall k | 0 <= k < |moves| && moves[k].Own? ::
                 k == 0 || k == n || (k == |moves| - 1 && answer.Granted? && moves[k] == W.Own(DoRelease(answer.id)))
  {
    var moves, n, answer := [attempt] + waited + slot, 1 + |waited|, Step(cfg, c, q.Acquire()).1;
    SlotMoves(slot, q, cfg, c, r);
    hide Step, SlotTaken;
    forall k | 0 < k < n ensures !moves[k].Own? { assert W.Spares(waited[k - 1], {}); }
    hide W.OthersOnly;
    forall k | n <= k < |moves| ensures moves[k] == slot[k - n] {}
  }

  /** Of the moves from the call for a slot on, these are the request's own. */
  lemma SlotMoves(slot: seq<W.Move>, q: Request, cfg: LimitsConfig, c: Book, r: Result<(), Rejection>)
    requires q.Valid() && SlotTaken(cfg, c, slot, q, r)
    ensures slot != [] && slot[0] == W.Own(q.Acquire())
    ensures var answer := Step(cfg, c, q.Acquire()).1;
            if answer.Granted? then |slot| >= 2 && slot[|slot| - 1] == W.Own(DoRelease(answer.id)) else |slot| == 1
    ensures forall k | 0 < k < |slot| - 1 :: !slot[k].Own?
  {
    hide Step, HeldAs, Request.Valid;
    var answer := Step(cfg, c, q.Acquire()).1;
    if answer.Granted? {
      var held := slot[1..];
      assert held[|held| - 1] == W.Own(DoRelease(answer.id));
      forall k | 0 < k < |slot| - 1 ensures !slot[k].Own? {
        assert slot[k] == held[k - 1];
        assert HeldMove(held[k - 1], answer.id, q.client, q.config.maxBytesPerConnection);
      }
    }
  }

  lemma HandledLeaksNothing(cfg: LimitsConfig, b: Book, at: Instant, tracked: bool, waited: seq<W.Move>,
                            slot: seq<W.Move>, q: Request, r: Result<(), Rejection>)
    requires q.Valid() && W.Numbered(b) && Handled(cfg, b, at, tracked, waited, slot, q, r)
    ensures NothingLeaks(cfg, b, [q.Attempt(at, tracked)] + waited + slot)
  {
    var attempt := q.Attempt(at, tracked);
    var w := W.After(cfg, W.Start(b), [attempt]);
    W.FirstMove(cfg, W.Start(b), attempt);
    assert w == W.Start(w.book);
    W.AfterCat(cfg, W.Start(b), [attempt], waited);
    if waited != [] || slot != [] { W.DidSpares(waited, q.fate.dialling, {}); }
    hide W.After, Step, SlotTaken, AttemptError, W.Did;
    if slot == [] {
      assert [attempt] + waited + slot == [attempt] + waited;
      NoSlotReturns(cfg, b, attempt, waited);
      ReturningLeaksNothing(cfg, b, [attempt] + waited, {});
    } else {
      var gone := SlotReturns(cfg, b, attempt, waited, slot, q, r);
      ReturningLeaksNothing(cfg, b, [attempt] + waited + slot, gone);
    }
  }
}
