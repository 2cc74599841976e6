/** Whole runs of the limiter: whatever calls arrive, in whatever order and at whatever times, it answers
    each one as the ledger that forgets nothing would. */
module Replays {
  import opened Addresses
  import opened Answers
  import opened Ledger
  import opened Limits
  import opened Neighbours
  import opened Queues
  import opened Safety
  import opened Wrappers

  /** The ledger's operation for a call of everyone there is: their `k`-th lease is number `k`. */
  function OpOf(c: Call, now: Instant, tracked: bool): Op {
    c.OpAt(now, tracked, if c.End? then seq(c.k + 1, i => i) else [])
  }

  /** No one else has ever been granted a lease. */
  ghost predicate Alone(others: Others)
    reads others, others.limits
  {
    |others.numbers| == others.limits.past.nextLease && forall k | 0 <= k < |others.numbers| :: others.numbers[k] == k
  }

  lemma SameStep(cfg: LimitsConfig, b: Book, c: Call, now: Instant, tracked: bool, numbers: seq<nat>)
    requires forall k | 0 <= k < |numbers| :: numbers[k] == k
    requires forall id | id in b.leases :: id < |numbers|
    ensures Step(cfg, b, c.OpAt(now, tracked, numbers)) == Step(cfg, b, OpOf(c, now, tracked))
  {
    if c.End? && c.k >= |numbers| { assert b.leases - {c.k} == b.leases; }
  }

  lemma AnswersShow(cfg: LimitsConfig, b: Book, c: Call, now: Instant, tracked: bool)
    ensures var (v, answer) := Step(cfg, b, OpOf(c, now, tracked));
            && (answer.Granted? ==> c.Acquire? && answer.id == b.nextLease)
            && (c.Acquire? ==> !answer.Done?)
            && v.nextLease == b.nextLease + if answer.Granted? then 1 else 0
  {
  }

  /** One call of any kind is one step of the ledger, and gets its answer. */
  method Serve(others: Others, c: Call) returns (out: Outcome, ghost tracked: bool)
    requires others.Valid() && Alone(others)
    modifies others, others.limits.Repr
    ensures others.Valid() && Alone(others) && fresh(others.limits.Repr - old(others.limits.Repr))
    ensures others.limits.clock >= old(others.limits.clock)
    ensures (others.limits.past, out)
            == Step(others.limits.cfg, old(others.limits.past), OpOf(c, others.limits.clock, tracked))
    ensures var now := others.limits.clock;
            c.Try? ==> (tracked <==> old(others.limits.Tracks(others.limits.cfg.Key(c.ip), now)))
    ensures others.limits.perIp.Keys <= old(others.limits.perIp.Keys) + c.Keys(others.limits.cfg)
  {
    hide LimitState.Valid, LimitState.Tracks, Ledger.Step, OpOf, Others.Holding, Call.OpAt;
    var limits := others.limits;
    limits.LeasesNumbered();
    ghost var b, numbers := limits.past, others.numbers;
    var error;
    error, tracked := others.Make(c, {});
    others.AsManyNumbers();
    SameStep(limits.cfg, b, c, limits.clock, tracked, numbers);
    AnswersShow(limits.cfg, b, c, limits.clock, tracked);
    out := if error.Some? then Refused(error.value) else if c.Acquire? then Granted(|others.held| - 1) else Done;
  }

  // ------------------------------------------------------------ whole runs

  predicate Rising(times: seq<Instant>) { forall i, j | 0 <= i < j < |times| :: times[i] <= times[j] }

  /** The operations of a run: call `i` at `times[i]`. */
  function OpsAt(reqs: seq<Call>, times: seq<Instant>, tracked: seq<bool>): seq<Op>
    requires |reqs| == |times| == |tracked|
  {
    if reqs == [] then []
    else
      var n := |reqs| - 1;
      OpsAt(reqs[..n], times[..n], tracked[..n]) + [OpOf(reqs[n], times[n], tracked[n])]
  }

  lemma OpsSnoc(reqs: seq<Call>, r: Call, times: seq<Instant>, now: Instant, tracked: seq<bool>, t: bool)
    requires |reqs| == |times| == |tracked|
    ensures OpsAt(reqs + [r], times + [now], tracked + [t]) == OpsAt(reqs, times, tracked) + [OpOf(r, now, t)]
  {
    assert (reqs + [r])[..|reqs|] == reqs && (times + [now])[..|times|] == times;
    assert (tracked + [t])[..|tracked|] == tracked;
  }

  /** A ledger that is never told what the limiter still tracks. */
  function Unaware(n: nat): (tracked: seq<bool>)
    ensures |tracked| == n
  {
    seq(n, _ => false)
  }

  lemma UnawareStep(cfg: LimitsConfig, b: Book, c: Call, now: Instant, tracked: bool)
    requires cfg.maxTrackedIps == 0
    ensures Step(cfg, b, OpOf(c, now, tracked)) == Step(cfg, b, OpOf(c, now, false))
  {
  }

  lemma {:induction false} TrackingIrrelevant(cfg: LimitsConfig, reqs: seq<Call>, times: seq<Instant>,
                                              tracked: seq<bool>)
    requires cfg.maxTrackedIps == 0 && |reqs| == |times| == |tracked|
    ensures Run(cfg, OpsAt(reqs, times, tracked)) == Run(cfg, OpsAt(reqs, times, Unaware(|reqs|)))
    ensures Outcomes(cfg, OpsAt(reqs, times, tracked)) == Outcomes(cfg, OpsAt(reqs, times, Unaware(|reqs|)))
  {
    if reqs != [] {
      hide Step, OpOf, Run, Outcomes;
      var n := |reqs| - 1;
      TrackingIrrelevant(cfg, reqs[..n], times[..n], tracked[..n]);
      assert Unaware(n + 1)[..n] == Unaware(n);
      var ops := OpsAt(reqs[..n], times[..n], tracked[..n]);
      UnawareStep(cfg, Run(cfg, ops), reqs[n], times[n], tracked[n]);
      RunSnoc(cfg, ops, OpOf(reqs[n], times[n], tracked[n]));
      RunSnoc(cfg, OpsAt(reqs[..n], times[..n], Unaware(n)), OpOf(reqs[n], times[n], false));
    }
  }

  /** The operations of a run are in the order of their times. */
  lemma {:induction false} RisingInOrder(reqs: seq<Call>, times: seq<Instant>, tracked: seq<bool>)
    requires |reqs| == |times| == |tracked| && Rising(times)
    ensures var ops := OpsAt(reqs, times, tracked);
            |ops| == |reqs| && InOrder(ops) && forall i | 0 <= i < |ops| && Stamped(ops[i]) :: ops[i].now == times[i]
  {
    if reqs != [] {
      var n := |reqs| - 1;
      RisingInOrder(reqs[..n], times[..n], tracked[..n]);
    }
  }

  /** The keys that calls may have created rows for. */
  function Touched(cfg: LimitsConfig, reqs: seq<Call>): set<IpAddr> {
    if reqs == [] then {} else Touched(cfg, reqs[..|reqs| - 1]) + reqs[|reqs| - 1].Keys(cfg)
  }

  /** What the limiter takes for a tracked key at call `i` is one an earlier call has touched, and what it
      takes for an untracked one no longer matters to the ledger. */
  predicate RightlyTracked(cfg: LimitsConfig, reqs: seq<Call>, times: seq<Instant>, tracked: seq<bool>, i: nat)
    requires |reqs| == |times| == |tracked| && i < |reqs|
  {
    reqs[i].Try?
    ==> var key := cfg.Key(reqs[i].ip);
        if tracked[i] then key in Touched(cfg, reqs[..i])
        else !Active(cfg, Run(cfg, OpsAt(reqs[..i], times[..i], tracked[..i])), key, times[i])
  }

  lemma TrackedSnoc(cfg: LimitsConfig, reqs: seq<Call>, r: Call, times: seq<Instant>, now: Instant,
                    tracked: seq<bool>, t: bool)
    requires |reqs| == |times| == |tracked|
    requires forall k | 0 <= k < |reqs| :: RightlyTracked(cfg, reqs, times, tracked, k)
    requires r.Try? && t ==> cfg.Key(r.ip) in Touched(cfg, reqs)
    requires r.Try? && !t ==> !Active(cfg, Run(cfg, OpsAt(reqs, times, tracked)), cfg.Key(r.ip), now)
    ensures forall k | 0 <= k <= |reqs| :: RightlyTracked(cfg, reqs + [r], times + [now], tracked + [t], k)
    ensures Touched(cfg, reqs + [r]) == Touched(cfg, reqs) + r.Keys(cfg)
  {
    assert (reqs + [r])[..|reqs|] == reqs;
    forall k | 0 <= k <= |reqs| ensures RightlyTracked(cfg, reqs + [r], times + [now], tracked + [t], k) {
      assert (reqs + [r])[..k] == reqs[..k] && (times + [now])[..k] == times[..k];
      assert (tracked + [t])[..k] == tracked[..k];
      if k < |reqs| {
        assert RightlyTracked(cfg, reqs, times, tracked, k);
      } else {
        assert reqs[..k] == reqs && times[..k] == times && tracked[..k] == tracked;
      }
    }
  }

  /** The refinement: the answers of the limiter, whatever it prunes, drops and recreates meanwhile, are
      those of the ledger for the same calls at `times`, the limiter's own clock readings. With no cap on
      tracked keys they do not depend on what it still tracked either. */
  method Replay(cfg: LimitsConfig, reqs: seq<Call>)
    returns (outs: seq<Outcome>, times: seq<Instant>, ghost tracked: seq<bool>)
    ensures |times| == |tracked| == |reqs| == |outs| && Rising(times)
    ensures outs == Outcomes(cfg, OpsAt(reqs, times, tracked))
    ensures forall i | 0 <= i < |reqs| :: RightlyTracked(cfg, reqs, times, tracked, i)
    ensures cfg.maxTrackedIps == 0 ==> outs == Outcomes(cfg, OpsAt(reqs, times, Unaware(|reqs|)))
    ensures AnswersExactly(cfg, reqs, outs, times, tracked)
    ensures KeepsPromises(cfg, reqs, outs, times)
  {
    hide LimitState.Valid, LimitState.Tracks, Step, Run, Outcomes, OpsAt, OpOf, Unaware, RightlyTracked, Active;
    hide Touched, KeepsPromises, AnswersExactly, Others.Valid, Alone;
    var limits := new LimitState(cfg);
    var all := new Others(limits);
    AloneAtFirst(all);
    outs, times, tracked := [], [], [];
    EmptyRun(cfg);
    for i := 0 to |reqs|
      invariant all.Valid() && all.limits == limits && limits.cfg == cfg && fresh(limits.Repr) && fresh(all)
      invariant Alone(all) && |times| == |tracked| == |outs| == i
      invariant limits.past == Run(cfg, OpsAt(reqs[..i], times, tracked))
      invariant outs == Outcomes(cfg, OpsAt(reqs[..i], times, tracked))
      invariant forall k | 0 <= k < i :: RightlyTracked(cfg, reqs[..i], times, tracked, k)
      invariant limits.perIp.Keys <= Touched(cfg, reqs[..i])
      invariant Rising(times) && forall k | 0 <= k < i :: times[k] <= limits.clock
    {
      ghost var ops, keys := OpsAt(reqs[..i], times, tracked), limits.perIp.Keys;
      TrackedMeans(all, reqs[i]);
      var out; ghost var kept;
      out, kept := Serve(all, reqs[i]);
      OpsSnoc(reqs[..i], reqs[i], times, limits.clock, tracked, kept);
      RunSnoc(cfg, ops, OpOf(reqs[i], limits.clock, kept));
      assert reqs[..i + 1] == reqs[..i] + [reqs[i]];
      TrackedSnoc(cfg, reqs[..i], reqs[i], times, limits.clock, tracked, kept);
      outs, times, tracked := outs + [out], times + [limits.clock], tracked + [kept];
    }
    assert reqs[..|reqs|] == reqs;
    if cfg.maxTrackedIps == 0 { TrackingIrrelevant(cfg, reqs, times, tracked); }
    AnswersAreExact(cfg, reqs, outs, times, tracked);
    PromisesKept(cfg, reqs, outs, times, tracked);
  }

  lemma AloneAtFirst(all: Others)
    requires all.limits.Valid() && all !in all.limits.Repr && all.held == [] && all.numbers == []
    requires all.limits.past == EmptyBook
    ensures all.Valid() && Alone(all)
  {
    hide LimitState.Valid;
  }

  /** What being tracked at any later time means. */
  lemma TrackedMeans(all: Others, c: Call)
    requires all.Valid()
    ensures c.Try?
            ==> forall now | now >= all.limits.clock ::
                  var key, limits := all.limits.cfg.Key(c.ip), all.limits;
                  if limits.Tracks(key, now) then key in limits.perIp else !Active(limits.cfg, limits.past, key, now)
  {
    hide LimitState.Valid, Active;
    if c.Try? { all.limits.UntrackedInactive(all.limits.cfg.Key(c.ip)); }
  }

  lemma EmptyRun(cfg: LimitsConfig)
    ensures OpsAt([], [], []) == [] && Run(cfg, []) == EmptyBook && Outcomes(cfg, []) == []
    ensures Touched(cfg, []) == {}
  {
  }

  // ------------------------------------------------------------ the promises, read off calls and answers

  predicate AcceptedAt(c: Call, out: Outcome, at: Instant, from: int, window: Duration) {
    c.Try? && out == Done && Within(at, from, window)
  }

  /** The accepted attempts in an interval. */
  function Accepted(reqs: seq<Call>, outs: seq<Outcome>, times: seq<Instant>, from: int, window: Duration): set<nat>
    requires |reqs| == |outs| == |times|
  {
    set i: nat | i < |reqs| && AcceptedAt(reqs[i], outs[i], times[i], from, window)
  }

  function AcceptedOf(cfg: LimitsConfig, reqs: seq<Call>, outs: seq<Outcome>, times: seq<Instant>, key: IpAddr,
                      from: int, window: Duration): set<nat>
    requires |reqs| == |outs| == |times|
  {
    set i: nat | i < |reqs| && AcceptedAt(reqs[i], outs[i], times[i], from, window) && cfg.Key(reqs[i].ip) == key
  }

  function DestsAccepted(cfg: LimitsConfig, reqs: seq<Call>, outs: seq<Outcome>, times: seq<Instant>, key: IpAddr,
                         from: int, window: Duration): set<string>
    requires |reqs| == |outs| == |times|
  {
    set i: nat | i < |reqs| && AcceptedAt(reqs[i], outs[i], times[i], from, window) && cfg.Key(reqs[i].ip) == key
      :: reqs[i].dest
  }

  /** The bytes accepted in an interval. */
  function BytesAccepted(cfg: LimitsConfig, reqs: seq<Call>, outs: seq<Outcome>, times: seq<Instant>, key: IpAddr,
                         from: int, window: Duration): nat
    requires |reqs| == |outs| == |times|
  {
    if reqs == [] then 0
    else
      var n := |reqs| - 1;
      BytesAccepted(cfg, reqs[..n], outs[..n], times[..n], key, from, window)
      + if reqs[n].AddBytes? && outs[n] == Done && cfg.Key(reqs[n].ip) == key && Within(times[n], from, window)
        then reqs[n].n else 0
  }

  /** Every window cap that is set holds in every closed interval of its length. */
  ghost predicate KeepsPromises(cfg: LimitsConfig, reqs: seq<Call>, outs: seq<Outcome>, times: seq<Instant>)
    requires |reqs| == |outs| == |times|
  {
    forall key, from: int :: KeepsPromisesAt(cfg, reqs, outs, times, key, from)
  }

  predicate KeepsPromisesAt(cfg: LimitsConfig, reqs: seq<Call>, outs: seq<Outcome>, times: seq<Instant>, key: IpAddr,
                            from: int)
    requires |reqs| == |outs| == |times|
  {
    && Under(cfg.globalConnects, |Accepted(reqs, outs, times, from, cfg.globalConnectsWindow)|)
    && Under(cfg.connectsPerIp, |AcceptedOf(cfg, reqs, outs, times, key, from, cfg.connectsPerIpWindow)|)
    && Under(cfg.distinctDestsPerIp, |DestsAccepted(cfg, reqs, outs, times, key, from, cfg.distinctDestsWindow)|)
    && (cfg.maxBytesPerIp < MaxU64
        ==> Under(cfg.maxBytesPerIp, BytesAccepted(cfg, reqs, outs, times, key, from, cfg.bytesWindow)))
  }

  lemma AcceptedSnoc(cfg: LimitsConfig, reqs: seq<Call>, outs: seq<Outcome>, times: seq<Instant>, key: IpAddr,
                     from: int, window: Duration)
    requires |reqs| == |outs| == |times| && reqs != []
    ensures var n := |reqs| - 1;
            var yes := AcceptedAt(reqs[n], outs[n], times[n], from, window);
            var its := yes && cfg.Key(reqs[n].ip) == key;
            && Accepted(reqs, outs, times, from, window)
               == Accepted(reqs[..n], outs[..n], times[..n], from, window) + (if yes then {n} else {})
            && AcceptedOf(cfg, reqs, outs, times, key, from, window)
               == AcceptedOf(cfg, reqs[..n], outs[..n], times[..n], key, from, window) + (if its then {n} else {})
            && DestsAccepted(cfg, reqs, outs, times, key, from, window)
               == DestsAccepted(cfg, reqs[..n], outs[..n], times[..n], key, from, window)
                  + (if its then {reqs[n].dest} else {})
  {
  }

  /** The accepted attempts of a run are those in the ledger. */
  lemma {:induction false} AcceptedAreLogged(cfg: LimitsConfig, reqs: seq<Call>, outs: seq<Outcome>,
                                             times: seq<Instant>, tracked: seq<bool>, key: IpAddr, from: int,
                                             window: Duration)
    requires |reqs| == |outs| == |times| == |tracked| && outs == Outcomes(cfg, OpsAt(reqs, times, tracked))
    ensures var a := Run(cfg, OpsAt(reqs, times, tracked)).attempts;
            && |Accepted(reqs, outs, times, from, window)| == |AttemptsWithin(a, from, window)|
            && |AcceptedOf(cfg, reqs, outs, times, key, from, window)| == |AttemptsOfWithin(a, key, from, window)|
            && DestsAccepted(cfg, reqs, outs, times, key, from, window) == DestsWithin(a, key, from, window)
  {
    if reqs != [] {
      var n := |reqs| - 1;
      var ops := OpsAt(reqs[..n], times[..n], tracked[..n]);
      var b, op := Run(cfg, ops), OpOf(reqs[n], times[n], tracked[n]);
      RunSnoc(cfg, ops, op);
      assert outs == Outcomes(cfg, ops) + [Step(cfg, b, op).1];
      assert outs[..n] == Outcomes(cfg, ops);
      AcceptedAreLogged(cfg, reqs[..n], outs[..n], times[..n], tracked[..n], key, from, window);
      AcceptedSnoc(cfg, reqs, outs, times, key, from, window);
      StepLogged(cfg, b, reqs[n], times[n], tracked[n], key, from, window);
    }
  }

  lemma StepLogged(cfg: LimitsConfig, b: Book, c: Call, now: Instant, t: bool, key: IpAddr, from: int, window: Duration)
    ensures var (v, out) := Step(cfg, b, OpOf(c, now, t));
            var yes := AcceptedAt(c, out, now, from, window);
            var its := yes && cfg.Key(c.ip) == key;
            && |AttemptsWithin(v.attempts, from, window)|
               == |AttemptsWithin(b.attempts, from, window)| + (if yes then 1 else 0)
            && |AttemptsOfWithin(v.attempts, key, from, window)|
               == |AttemptsOfWithin(b.attempts, key, from, window)| + (if its then 1 else 0)
            && DestsWithin(v.attempts, key, from, window)
               == DestsWithin(b.attempts, key, from, window) + (if its then {c.dest} else {})
  {
    AttemptIs(cfg, b, c, now, t);
    hide Step, OpOf, AttemptsWithin, AttemptsOfWithin, DestsWithin;
    if c.Try? { OneMoreLogged(b.attempts, Attempt(now, cfg.Key(c.ip), c.dest), key, from, window); }
  }

  lemma AttemptIs(cfg: LimitsConfig, b: Book, c: Call, now: Instant, t: bool)
    ensures var (v, out) := Step(cfg, b, OpOf(c, now, t));
            v.attempts == if c.Try? && out == Done then b.attempts + [Attempt(now, cfg.Key(c.ip), c.dest)]
                          else b.attempts
  {
  }

  lemma OneMoreLogged(a: seq<Attempt>, x: Attempt, key: IpAddr, from: int, window: Duration)
    ensures var yes := Within(x.at, from, window);
            var its := yes && x.key == key;
            && |AttemptsWithin(a + [x], from, window)| == |AttemptsWithin(a, from, window)| + (if yes then 1 else 0)
            && |AttemptsOfWithin(a + [x], key, from, window)|
               == |AttemptsOfWithin(a, key, from, window)| + (if its then 1 else 0)
            && DestsWithin(a + [x], key, from, window)
               == DestsWithin(a, key, from, window) + (if its then {x.dest} else {})
  {
    assert (a + [x])[..|a|] == a;
    LastWithin(a + [x], key, from, window);
    LastDest(a + [x], key, from, window);
    hide DestsWithin;
  }

  lemma {:induction false} BytesAreLogged(cfg: LimitsConfig, reqs: seq<Call>, outs: seq<Outcome>,
                                          times: seq<Instant>, tracked: seq<bool>, key: IpAddr, from: int,
                                          window: Duration)
    requires |reqs| == |outs| == |times| == |tracked| && outs == Outcomes(cfg, OpsAt(reqs, times, tracked))
    requires cfg.maxBytesPerIp != 0
    ensures BytesAccepted(cfg, reqs, outs, times, key, from, window)
            == BytesWithin(Run(cfg, OpsAt(reqs, times, tracked)).charges, key, from, window)
  {
    if reqs != [] {
      var n := |reqs| - 1;
      var ops := OpsAt(reqs[..n], times[..n], tracked[..n]);
      var b, op := Run(cfg, ops), OpOf(reqs[n], times[n], tracked[n]);
      RunSnoc(cfg, ops, op);
      assert outs == Outcomes(cfg, ops) + [Step(cfg, b, op).1];
      assert outs[..n] == Outcomes(cfg, ops);
      BytesAreLogged(cfg, reqs[..n], outs[..n], times[..n], tracked[..n], key, from, window);
      StepCharged(cfg, b, reqs[n], times[n], tracked[n], key, from, window);
    }
  }

  lemma StepCharged(cfg: LimitsConfig, b: Book, c: Call, now: Instant, t: bool, key: IpAddr, from: int,
                    window: Duration)
    requires cfg.maxBytesPerIp != 0
    ensures var (v, out) := Step(cfg, b, OpOf(c, now, t));
            BytesWithin(v.charges, key, from, window)
            == BytesWithin(b.charges, key, from, window)
               + if c.AddBytes? && out == Done && cfg.Key(c.ip) == key && Within(now, from, window) then c.n else 0
  {
    hide BytesWithin, LimitsConfig.Key, RecentBytes, AttemptError, AcquireError;
    if c.AddBytes? { ChargeSnoc(b.charges, Charge(now, cfg.Key(c.ip), c.n), key, from, window); }
  }

  /** What the limits promise, of every run of calls and their answers. */
  lemma PromisesKept(cfg: LimitsConfig, reqs: seq<Call>, outs: seq<Outcome>, times: seq<Instant>, tracked: seq<bool>)
    requires |reqs| == |outs| == |times| == |tracked| && outs == Outcomes(cfg, OpsAt(reqs, times, tracked))
    requires Rising(times)
    ensures KeepsPromises(cfg, reqs, outs, times)
  {
    var ops := OpsAt(reqs, times, tracked);
    RisingInOrder(reqs, times, tracked);
    forall key, from: int ensures KeepsPromisesAt(cfg, reqs, outs, times, key, from) {
      AcceptedAreLogged(cfg, reqs, outs, times, tracked, key, from, cfg.globalConnectsWindow);
      AcceptedAreLogged(cfg, reqs, outs, times, tracked, key, from, cfg.connectsPerIpWindow);
      AcceptedAreLogged(cfg, reqs, outs, times, tracked, key, from, cfg.distinctDestsWindow);
      hide Accepted, AcceptedOf, DestsAccepted, BytesAccepted, AttemptsWithin, AttemptsOfWithin, DestsWithin;
      hide BytesWithin, Run, Outcomes, OpsAt, InOrder;
      if cfg.globalConnects != 0 { GlobalRateHolds(cfg, ops, from); }
      if cfg.connectsPerIp != 0 { ConnectRateHolds(cfg, ops, key, from); }
      if cfg.distinctDestsPerIp != 0 { DistinctDestsHold(cfg, ops, key, from); }
      if 0 < cfg.maxBytesPerIp < MaxU64 {
        BytesAreLogged(cfg, reqs, outs, times, tracked, key, from, cfg.bytesWindow);
        ByteQuotaHolds(cfg, ops, key, from);
      }
    }
  }

  // ------------------------------------------------------------ the answers, read off calls and answers

  /** The connections that are live after the calls, by number. */
  function Live(cfg: LimitsConfig, reqs: seq<Call>, outs: seq<Outcome>): map<nat, Lease>
    requires |reqs| == |outs|
  {
    if reqs == [] then map[]
    else
      var n := |reqs| - 1;
      var before := Live(cfg, reqs[..n], outs[..n]);
      match (reqs[n], outs[n])
      case (Acquire(ip, dest), Granted(id)) => before[id := Lease(cfg.Key(ip), dest)]
      case (End(k), _) => before - {k}
      case _ => before
  }

  function Grants(outs: seq<Outcome>): nat {
    if outs == [] then 0 else Grants(outs[..|outs| - 1]) + if outs[|outs| - 1].Granted? then 1 else 0
  }

  /** A key with a live connection, or with an accepted attempt or accepted bytes in a window that ends now. */
  predicate EngagedBy(cfg: LimitsConfig, reqs: seq<Call>, outs: seq<Outcome>, times: seq<Instant>, key: IpAddr,
                      now: Instant)
    requires |reqs| == |outs| == |times|
  {
    var own, spread, bytes := cfg.connectsPerIpWindow, cfg.distinctDestsWindow, cfg.bytesWindow;
    || LeasesOf(Live(cfg, reqs, outs), key) != {}
    || AcceptedOf(cfg, reqs, outs, times, key, now - own, own) != {}
    || AcceptedOf(cfg, reqs, outs, times, key, now - spread, spread) != {}
    || (cfg.maxBytesPerIp > 0 && BytesAccepted(cfg, reqs, outs, times, key, now - bytes, bytes) > 0)
  }

  function EngagedSoFar(cfg: LimitsConfig, reqs: seq<Call>, outs: seq<Outcome>, times: seq<Instant>, now: Instant)
    : set<IpAddr>
    requires |reqs| == |outs| == |times|
  {
    set key | key in Touched(cfg, reqs) && EngagedBy(cfg, reqs, outs, times, key, now)
  }

  /** The answer that is due to a call, given all calls before it, their answers and their times. */
  function Due(cfg: LimitsConfig, reqs: seq<Call>, outs: seq<Outcome>, times: seq<Instant>, c: Call, now: Instant,
               tracked: bool): Outcome
    requires |reqs| == |outs| == |times|
  {
    match c
    case Try(ip, dest) => DueToAttempt(cfg, reqs, outs, times, cfg.Key(ip), dest, now, tracked)
    case Acquire(ip, dest) =>
      var live, key := Live(cfg, reqs, outs), cfg.Key(ip);
      if cfg.maxGlobalConnections > 0 && |live| == cfg.maxGlobalConnections then Refused(GlobalFull)
      else if cfg.maxConnsPerIp > 0 && |LeasesOf(live, key)| == cfg.maxConnsPerIp then Refused(PerIpFull)
      else if cfg.maxConnsPerDest > 0 && |LeasesTo(live, dest)| == cfg.maxConnsPerDest then Refused(PerDestFull)
      else Granted(Grants(outs))
    case AddBytes(ip, n) =>
      var taken := BytesAccepted(cfg, reqs, outs, times, cfg.Key(ip), now - cfg.bytesWindow, cfg.bytesWindow);
      if Overdrawn(cfg, taken, n) then Refused(ByteCap) else Done
    case End(_) => Done
    case Collect => Done
  }

  function DueToAttempt(cfg: LimitsConfig, reqs: seq<Call>, outs: seq<Outcome>, times: seq<Instant>, key: IpAddr,
                        dest: string, now: Instant, tracked: bool): Outcome
    requires |reqs| == |outs| == |times|
  {
    var global, own, spread := cfg.globalConnectsWindow, cfg.connectsPerIpWindow, cfg.distinctDestsWindow;
    var dests := DestsAccepted(cfg, reqs, outs, times, key, now - spread, spread);
    if !tracked && cfg.maxTrackedIps > 0 && |EngagedSoFar(cfg, reqs, outs, times, now)| >= cfg.maxTrackedIps
    then Refused(GlobalConnectRate)
    else if cfg.globalConnects > 0 && |Accepted(reqs, outs, times, now - global, global)| == cfg.globalConnects
    then Refused(GlobalConnectRate)
    else if cfg.connectsPerIp > 0 && |AcceptedOf(cfg, reqs, outs, times, key, now - own, own)| == cfg.connectsPerIp
    then Refused(ConnectRate)
    else if cfg.distinctDestsPerIp > 0 && dest !in dests && |dests| == cfg.distinctDestsPerIp
    then Refused(DistinctDests)
    else Done
  }

  predicate AnswersExactly(cfg: LimitsConfig, reqs: seq<Call>, outs: seq<Outcome>, times: seq<Instant>,
                           tracked: seq<bool>)
    requires |reqs| == |outs| == |times| == |tracked|
  {
    forall i | 0 <= i < |reqs| ::
      outs[i] == Due(cfg, reqs[..i], outs[..i], times[..i], reqs[i], times[i], tracked[i])
  }

  /** The live connections of a run are those in the ledger. */
  lemma {:induction false} LiveAreLogged(cfg: LimitsConfig, reqs: seq<Call>, outs: seq<Outcome>,
                                         times: seq<Instant>, tracked: seq<bool>)
    requires |reqs| == |outs| == |times| == |tracked| && outs == Outcomes(cfg, OpsAt(reqs, times, tracked))
    ensures var b := Run(cfg, OpsAt(reqs, times, tracked));
            b.leases == Live(cfg, reqs, outs) && b.nextLease == Grants(outs)
  {
    if reqs != [] {
      var n := |reqs| - 1;
      var ops := OpsAt(reqs[..n], times[..n], tracked[..n]);
      var b, op := Run(cfg, ops), OpOf(reqs[n], times[n], tracked[n]);
      RunSnoc(cfg, ops, op);
      assert outs == Outcomes(cfg, ops) + [Step(cfg, b, op).1];
      assert outs[..n] == Outcomes(cfg, ops);
      LiveAreLogged(cfg, reqs[..n], outs[..n], times[..n], tracked[..n]);
      LeasesStep(cfg, b, reqs[n], times[n], tracked[n]);
      hide Step, Run, Outcomes, OpsAt, OpOf, Addresses.LimitKey;
    }
  }

  lemma LeasesStep(cfg: LimitsConfig, b: Book, c: Call, now: Instant, t: bool)
    ensures var (v, out) := Step(cfg, b, OpOf(c, now, t));
            && v.nextLease == b.nextLease + (if out.Granted? then 1 else 0)
            && (out.Granted? ==> c.Acquire?)
            && v.leases == (match (c, out)
                            case (Acquire(ip, dest), Granted(id)) => b.leases[id := Lease(cfg.Key(ip), dest)]
                            case (End(k), _) => b.leases - {k}
                            case _ => b.leases)
  {
    hide Addresses.LimitKey, AttemptError, AcquireError, ChargeError;
  }

  /** Only touched keys are in the ledger. */
  lemma {:induction false} SeenAreTouched(cfg: LimitsConfig, reqs: seq<Call>, times: seq<Instant>, tracked: seq<bool>)
    requires |reqs| == |times| == |tracked|
    ensures SeenKeys(Run(cfg, OpsAt(reqs, times, tracked))) <= Touched(cfg, reqs)
  {
    if reqs != [] {
      var n := |reqs| - 1;
      var ops := OpsAt(reqs[..n], times[..n], tracked[..n]);
      SeenAreTouched(cfg, reqs[..n], times[..n], tracked[..n]);
      RunSnoc(cfg, ops, OpOf(reqs[n], times[n], tracked[n]));
      SeenStep(cfg, Run(cfg, ops), reqs[n], times[n], tracked[n]);
      hide SeenKeys, Step, OpOf, Run;
    }
  }

  lemma SeenStep(cfg: LimitsConfig, b: Book, c: Call, now: Instant, t: bool)
    ensures SeenKeys(Step(cfg, b, OpOf(c, now, t)).0) <= SeenKeys(b) + c.Keys(cfg)
  {
    hide Addresses.LimitKey, AttemptError, AcquireError, ChargeError;
  }

  lemma {:induction false} NothingMetered(cfg: LimitsConfig, ops: seq<Op>, key: IpAddr, from: int, window: Duration)
    requires cfg.maxBytesPerIp == 0
    ensures BytesWithin(Run(cfg, ops).charges, key, from, window) == 0
  {
    if ops != [] {
      NothingMetered(cfg, ops[..|ops| - 1], key, from, window);
      hide BytesWithin, AttemptError, AcquireError, ChargeError, Addresses.LimitKey;
    }
  }

  lemma EngagedIsLogged(cfg: LimitsConfig, reqs: seq<Call>, outs: seq<Outcome>, times: seq<Instant>,
                        tracked: seq<bool>, key: IpAddr, now: Instant)
    requires |reqs| == |outs| == |times| == |tracked| && outs == Outcomes(cfg, OpsAt(reqs, times, tracked))
    ensures EngagedBy(cfg, reqs, outs, times, key, now)
            <==> Engaged(cfg, Run(cfg, OpsAt(reqs, times, tracked)), key, now)
  {
    hide Live, LeasesOf, Accepted, AcceptedOf, DestsAccepted, AttemptsWithin, AttemptsOfWithin, DestsWithin;
    hide BytesAccepted, BytesWithin, Run, OpsAt, Outcomes;
    var own, spread, bytes := cfg.connectsPerIpWindow, cfg.distinctDestsWindow, cfg.bytesWindow;
    LiveAreLogged(cfg, reqs, outs, times, tracked);
    AcceptedAreLogged(cfg, reqs, outs, times, tracked, key, now - own, own);
    AcceptedAreLogged(cfg, reqs, outs, times, tracked, key, now - spread, spread);
    if cfg.maxBytesPerIp > 0 {
      BytesAreLogged(cfg, reqs, outs, times, tracked, key, now - bytes, bytes);
    } else {
      NothingMetered(cfg, OpsAt(reqs, times, tracked), key, now - bytes, bytes);
    }
  }

  lemma EngagedAreLogged(cfg: LimitsConfig, reqs: seq<Call>, outs: seq<Outcome>, times: seq<Instant>,
                         tracked: seq<bool>, now: Instant)
    requires |reqs| == |outs| == |times| == |tracked| && outs == Outcomes(cfg, OpsAt(reqs, times, tracked))
    ensures EngagedSoFar(cfg, reqs, outs, times, now) == EngagedKeys(cfg, Run(cfg, OpsAt(reqs, times, tracked)), now)
  {
    var b := Run(cfg, OpsAt(reqs, times, tracked));
    SeenAreTouched(cfg, reqs, times, tracked);
    forall key ensures EngagedBy(cfg, reqs, outs, times, key, now) <==> Engaged(cfg, b, key, now) {
      EngagedIsLogged(cfg, reqs, outs, times, tracked, key, now);
    }
    forall key | Engaged(cfg, b, key, now) ensures key in SeenKeys(b) { EngagedSeen(cfg, b, key, now); }
    hide EngagedBy, Engaged, SeenKeys, Touched, Run, OpsAt;
  }

  lemma AttemptDue(cfg: LimitsConfig, reqs: seq<Call>, outs: seq<Outcome>, times: seq<Instant>, tracked: seq<bool>,
                   key: IpAddr, dest: string, now: Instant, t: bool)
    requires |reqs| == |outs| == |times| == |tracked| && outs == Outcomes(cfg, OpsAt(reqs, times, tracked))
    ensures DueToAttempt(cfg, reqs, outs, times, key, dest, now, t)
            == match AttemptRefusal(cfg, Run(cfg, OpsAt(reqs, times, tracked)), key, dest, now, t)
               case Some(e) => Refused(e)
               case None => Done
  {
    hide EngagedSoFar, EngagedKeys, Accepted, AcceptedOf, DestsAccepted, AttemptsWithin, AttemptsOfWithin, DestsWithin;
    hide Run, OpsAt, Outcomes;
    var global, own, spread := cfg.globalConnectsWindow, cfg.connectsPerIpWindow, cfg.distinctDestsWindow;
    EngagedAreLogged(cfg, reqs, outs, times, tracked, now);
    AcceptedAreLogged(cfg, reqs, outs, times, tracked, key, now - global, global);
    AcceptedAreLogged(cfg, reqs, outs, times, tracked, key, now - own, own);
    AcceptedAreLogged(cfg, reqs, outs, times, tracked, key, now - spread, spread);
  }

  lemma TakenIsLogged(cfg: LimitsConfig, reqs: seq<Call>, outs: seq<Outcome>, times: seq<Instant>,
                      tracked: seq<bool>, key: IpAddr, n: u64, from: int, window: Duration)
    requires |reqs| == |outs| == |times| == |tracked| && outs == Outcomes(cfg, OpsAt(reqs, times, tracked))
    ensures Overdrawn(cfg, BytesAccepted(cfg, reqs, outs, times, key, from, window), n)
            <==> Overdrawn(cfg, BytesWithin(Run(cfg, OpsAt(reqs, times, tracked)).charges, key, from, window), n)
  {
    hide Run, OpsAt, BytesAccepted, BytesWithin, Outcomes;
    if cfg.maxBytesPerIp > 0 { BytesAreLogged(cfg, reqs, outs, times, tracked, key, from, window); }
  }

  lemma ChargeDue(cfg: LimitsConfig, reqs: seq<Call>, outs: seq<Outcome>, times: seq<Instant>, tracked: seq<bool>,
                  ip: IpAddr, n: u64, now: Instant, t: bool)
    requires |reqs| == |outs| == |times| == |tracked| && outs == Outcomes(cfg, OpsAt(reqs, times, tracked))
    requires InOrder(OpsAt(reqs, times, tracked) + [DoCharge(ip, n, now)])
    ensures Step(cfg, Run(cfg, OpsAt(reqs, times, tracked)), DoCharge(ip, n, now)).1
            == Due(cfg, reqs, outs, times, AddBytes(ip, n), now, t)
  {
    hide Step, Run, OpsAt, BytesAccepted, BytesWithin, LimitsConfig.Key, InOrder, Outcomes;
    hide DueToAttempt, Live, Grants, LeasesOf, LeasesTo, Overdrawn;
    ChargeAnswered(cfg, OpsAt(reqs, times, tracked), ip, n, now);
    TakenIsLogged(cfg, reqs, outs, times, tracked, cfg.Key(ip), n, now - cfg.bytesWindow, cfg.bytesWindow);
  }

  lemma LeaseDue(cfg: LimitsConfig, reqs: seq<Call>, outs: seq<Outcome>, times: seq<Instant>, tracked: seq<bool>,
                 ip: IpAddr, dest: string, now: Instant, t: bool)
    requires |reqs| == |outs| == |times| == |tracked| && outs == Outcomes(cfg, OpsAt(reqs, times, tracked))
    ensures Step(cfg, Run(cfg, OpsAt(reqs, times, tracked)), DoAcquire(ip, dest)).1
            == Due(cfg, reqs, outs, times, Acquire(ip, dest), now, t)
  {
    LeaseAnswered(cfg, OpsAt(reqs, times, tracked), ip, dest);
    LiveAreLogged(cfg, reqs, outs, times, tracked);
    hide Step, Run, OpsAt, Live, Grants, LeasesOf, LeasesTo, Addresses.LimitKey;
  }

  lemma AnswerIsDue(cfg: LimitsConfig, reqs: seq<Call>, outs: seq<Outcome>, times: seq<Instant>, tracked: seq<bool>,
                    c: Call, now: Instant, t: bool)
    requires |reqs| == |outs| == |times| == |tracked| && outs == Outcomes(cfg, OpsAt(reqs, times, tracked))
    requires InOrder(OpsAt(reqs, times, tracked) + [OpOf(c, now, t)])
    ensures Step(cfg, Run(cfg, OpsAt(reqs, times, tracked)), OpOf(c, now, t)).1
            == Due(cfg, reqs, outs, times, c, now, t)
  {
    var ops := OpsAt(reqs, times, tracked);
    hide Run, OpsAt, Live, Grants, DueToAttempt, AttemptRefusal, LimitsConfig.Key, InOrder, Outcomes, Overdrawn;
    hide BytesAccepted, BytesWithin, LeasesOf, LeasesTo, AttemptError, AcquireError, ChargeError;
    match c {
      case Try(ip, dest) =>
        AttemptAnswered(cfg, ops, ip, dest, now, t);
        AttemptDue(cfg, reqs, outs, times, tracked, cfg.Key(ip), dest, now, t);
      case Acquire(ip, dest) => LeaseDue(cfg, reqs, outs, times, tracked, ip, dest, now, t);
      case AddBytes(ip, n) => ChargeDue(cfg, reqs, outs, times, tracked, ip, n, now, t);
      case _ =>
    }
  }

  /** Every answer of a run is the one that is due: a call is refused exactly when a cap that is set has been
      reached by the calls accepted before it, within the closed window that ends at its time. */
  lemma {:induction false} AnswersAreExact(cfg: LimitsConfig, reqs: seq<Call>, outs: seq<Outcome>,
                                           times: seq<Instant>, tracked: seq<bool>)
    requires |reqs| == |outs| == |times| == |tracked| && outs == Outcomes(cfg, OpsAt(reqs, times, tracked))
    requires Rising(times)
    ensures AnswersExactly(cfg, reqs, outs, times, tracked)
  {
    if reqs != [] {
      var n := |reqs| - 1;
      var front, before, early, t := reqs[..n], outs[..n], times[..n], tracked[..n];
      var ops, op := OpsAt(front, early, t), OpOf(reqs[n], times[n], tracked[n]);
      RisingInOrder(reqs, times, tracked);
      hide Step, Run, Due, InOrder, OpOf, OpsAt, Outcomes;
      RunSnoc(cfg, ops, op);
      assert outs == Outcomes(cfg, ops) + [Step(cfg, Run(cfg, ops), op).1];
      assert before == Outcomes(cfg, ops);
      AnswersAreExact(cfg, front, before, early, t);
      AnswerIsDue(cfg, front, before, early, t, reqs[n], times[n], tracked[n]);
      forall i | 0 <= i < n
        ensures outs[i] == Due(cfg, reqs[..i], outs[..i], times[..i], reqs[i], times[i], tracked[i])
      {
        assert front[..i] == reqs[..i] && before[..i] == outs[..i] && early[..i] == times[..i];
        assert before[i] == Due(cfg, front[..i], before[..i], early[..i], front[i], early[i], t[i]);
      }
    }
  }
}
