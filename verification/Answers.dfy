/** When exactly the limiter refuses (src/limits.rs), over every run: the bounds that hold of every run are
    reached at the instant of a refusal, and nothing else is ever refused. */
module Answers {
  import opened Addresses
  import opened Ledger
  import opened Queues
  import opened Safety
  import opened Wrappers

  /** Nothing in the log is later than `now`. */
  ghost predicate UpTo(b: Book, now: Instant) {
    && (forall i | 0 <= i < |b.attempts| :: b.attempts[i].at <= now)
    && (forall i | 0 <= i < |b.charges| :: b.charges[i].at <= now)
  }

  lemma {:induction false} RunUpTo(cfg: LimitsConfig, ops: seq<Op>, now: Instant)
    requires forall i | 0 <= i < |ops| && Stamped(ops[i]) :: ops[i].now <= now
    ensures UpTo(Run(cfg, ops), now)
  {
    hide Step;
    if ops != [] {
      RunUpTo(cfg, ops[..|ops| - 1], now);
      StepUpTo(cfg, Run(cfg, ops[..|ops| - 1]), ops[|ops| - 1], now);
    }
  }

  lemma StepUpTo(cfg: LimitsConfig, b: Book, op: Op, now: Instant)
    requires UpTo(b, now) && (Stamped(op) ==> op.now <= now)
    ensures UpTo(Step(cfg, b, op).0, now)
  {
    hide LimitsConfig.Key, AttemptError, AcquireError, ChargeError;
  }

  /** Up to now, what has not expired is what lies in the closed window that ends now. */
  lemma RecentIsWindow(b: Book, key: IpAddr, now: Instant, window: Duration)
    requires UpTo(b, now)
    ensures Recent(b.attempts, now, window) == AttemptsWithin(b.attempts, now - window, window)
    ensures RecentOf(b.attempts, key, now, window) == AttemptsOfWithin(b.attempts, key, now - window, window)
    ensures RecentDests(b.attempts, key, now, window) == DestsWithin(b.attempts, key, now - window, window)
  {
    RecentAreWithin(b.attempts, key, now, window);
  }

  lemma {:induction false} RecentBytesInWindow(c: seq<Charge>, key: IpAddr, now: Instant, window: Duration)
    requires forall i | 0 <= i < |c| :: c[i].at <= now
    ensures RecentBytes(c, key, now, window) == BytesWithin(c, key, now - window, window)
  {
    if c != [] { RecentBytesInWindow(c[..|c| - 1], key, now, window); }
  }

  /** A key that counts as tracked: it has a live lease, an accepted attempt in one of the two windows that
      end now, or bytes charged in the third. */
  predicate Engaged(cfg: LimitsConfig, b: Book, key: IpAddr, now: Instant) {
    || LeasesOf(b.leases, key) != {}
    || AttemptsOfWithin(b.attempts, key, now - cfg.connectsPerIpWindow, cfg.connectsPerIpWindow) != {}
    || AttemptsOfWithin(b.attempts, key, now - cfg.distinctDestsWindow, cfg.distinctDestsWindow) != {}
    || BytesWithin(b.charges, key, now - cfg.bytesWindow, cfg.bytesWindow) > 0
  }

  function EngagedKeys(cfg: LimitsConfig, b: Book, now: Instant): set<IpAddr> {
    set key | key in SeenKeys(b) && Engaged(cfg, b, key, now)
  }

  /** Bytes are charged exactly where there are charges, for none is empty. */
  lemma {:induction false} ChargedBytes(c: seq<Charge>, key: IpAddr, now: Instant, window: Duration)
    requires forall i | 0 <= i < |c| :: c[i].amount > 0
    ensures RecentBytes(c, key, now, window) > 0 <==> RecentCharges(c, key, now, window) != {}
  {
    if c != [] {
      var n := |c| - 1;
      ChargedBytes(c[..n], key, now, window);
      assert RecentCharges(c, key, now, window)
        == RecentCharges(c[..n], key, now, window)
           + (if c[n].key == key && !Expired(c[n].at, now, window) then {n} else {});
    }
  }

  lemma EngagedIsActive(cfg: LimitsConfig, b: Book, key: IpAddr, now: Instant)
    requires UpTo(b, now) && LawfulCharges(cfg, b.charges)
    ensures Engaged(cfg, b, key, now) <==> Active(cfg, b, key, now)
  {
    forall i | 0 <= i < |b.charges| ensures b.charges[i].amount > 0 { assert Paid(cfg, b.charges, i); }
    RecentIsWindow(b, key, now, cfg.connectsPerIpWindow);
    RecentIsWindow(b, key, now, cfg.distinctDestsWindow);
    RecentBytesInWindow(b.charges, key, now, cfg.bytesWindow);
    ChargedBytes(b.charges, key, now, cfg.bytesWindow);
    hide RecentOf, RecentCharges, AttemptsOfWithin, BytesWithin, RecentBytes;
  }

  lemma EngagedAreActive(cfg: LimitsConfig, b: Book, now: Instant)
    requires UpTo(b, now) && LawfulCharges(cfg, b.charges)
    ensures EngagedKeys(cfg, b, now) == ActiveKeys(cfg, b, now)
  {
    forall key ensures key in EngagedKeys(cfg, b, now) <==> key in ActiveKeys(cfg, b, now) {
      EngagedIsActive(cfg, b, key, now);
      if Active(cfg, b, key, now) { ActiveSeen(cfg, b, key, now); }
    }
    hide Active, Engaged;
  }

  lemma EngagedSeen(cfg: LimitsConfig, b: Book, key: IpAddr, now: Instant)
    requires Engaged(cfg, b, key, now)
    ensures key in SeenKeys(b)
  {
    var own, spread := cfg.connectsPerIpWindow, cfg.distinctDestsWindow;
    if LeasesOf(b.leases, key) != {} {
      var id :| id in LeasesOf(b.leases, key);
      assert b.leases[id].key in SeenKeys(b);
    } else if BytesWithin(b.charges, key, now - cfg.bytesWindow, cfg.bytesWindow) > 0 {
      var i := SomeCharge(b.charges, key, now - cfg.bytesWindow, cfg.bytesWindow);
      assert b.charges[i].key in SeenKeys(b);
    } else {
      var i := SomeAttempt(b.attempts, key, now, own, spread);
      assert b.attempts[i].key in SeenKeys(b);
    }
  }

  lemma SomeAttempt(a: seq<Attempt>, key: IpAddr, now: Instant, own: Duration, spread: Duration) returns (i: nat)
    requires AttemptsOfWithin(a, key, now - own, own) + AttemptsOfWithin(a, key, now - spread, spread) != {}
    ensures i < |a| && a[i].key == key
  {
    i :| i in AttemptsOfWithin(a, key, now - own, own) + AttemptsOfWithin(a, key, now - spread, spread);
  }

  lemma {:induction false} SomeCharge(c: seq<Charge>, key: IpAddr, from: int, window: Duration) returns (i: nat)
    requires BytesWithin(c, key, from, window) > 0
    ensures i < |c| && c[i].key == key
  {
    var n := |c| - 1;
    if c[n].key == key { i := n; } else { i := SomeCharge(c[..n], key, from, window); }
  }

  // ------------------------------------------------------------ attempts

  /** The first rule that speaks against one more attempt. */
  function AttemptRefusal(cfg: LimitsConfig, b: Book, key: IpAddr, dest: string, now: Instant, tracked: bool)
    : Option<LimitError>
  {
    var global, own, spread := cfg.globalConnectsWindow, cfg.connectsPerIpWindow, cfg.distinctDestsWindow;
    var dests := DestsWithin(b.attempts, key, now - spread, spread);
    if !tracked && cfg.maxTrackedIps > 0 && |EngagedKeys(cfg, b, now)| >= cfg.maxTrackedIps
    then Some(GlobalConnectRate)
    else if cfg.globalConnects > 0 && |AttemptsWithin(b.attempts, now - global, global)| == cfg.globalConnects
    then Some(GlobalConnectRate)
    else if cfg.connectsPerIp > 0 && |AttemptsOfWithin(b.attempts, key, now - own, own)| == cfg.connectsPerIp
    then Some(ConnectRate)
    else if cfg.distinctDestsPerIp > 0 && dest !in dests && |dests| == cfg.distinctDestsPerIp
    then Some(DistinctDests)
    else None
  }

  /** In order of time, an attempt is refused exactly when the closed window that ends with it already holds
      all that its cap allows, by the first such cap. */
  lemma AttemptAnswered(cfg: LimitsConfig, ops: seq<Op>, ip: IpAddr, dest: string, now: Instant, tracked: bool)
    requires InOrder(ops + [DoAttempt(ip, dest, now, tracked)])
    ensures Step(cfg, Run(cfg, ops), DoAttempt(ip, dest, now, tracked)).1
            == match AttemptRefusal(cfg, Run(cfg, ops), cfg.Key(ip), dest, now, tracked)
               case Some(e) => Refused(e)
               case None => Done
  {
    var b, key := Run(cfg, ops), cfg.Key(ip);
    OrderedBefore(ops, DoAttempt(ip, dest, now, tracked));
    RunUpTo(cfg, ops, now);
    RunLawful(cfg, ops);
    EngagedAreActive(cfg, b, now);
    RecentIsWindow(b, key, now, cfg.globalConnectsWindow);
    RecentIsWindow(b, key, now, cfg.connectsPerIpWindow);
    RecentIsWindow(b, key, now, cfg.distinctDestsWindow);
    AttemptBounds(cfg, ops, key, now);
    hide *;
    AttemptRefusalIs(cfg, b, key, dest, now, tracked);
    AttemptStep(cfg, b, ip, dest, now, tracked);
  }

  lemma OrderedBefore(ops: seq<Op>, op: Op)
    requires InOrder(ops + [op])
    ensures InOrder(ops)
    ensures Stamped(op) ==> forall i | 0 <= i < |ops| && Stamped(ops[i]) :: ops[i].now <= op.now
  {
    var all := ops + [op];
    assert all[|ops|] == op && forall i | 0 <= i < |ops| :: all[i] == ops[i];
  }

  lemma AttemptStep(cfg: LimitsConfig, b: Book, ip: IpAddr, dest: string, now: Instant, tracked: bool)
    ensures Step(cfg, b, DoAttempt(ip, dest, now, tracked)).1
            == match AttemptError(cfg, b, cfg.Key(ip), dest, now, tracked)
               case Some(e) => Refused(e)
               case None => Done
  {
    hide AttemptError, Addresses.LimitKey;
  }

  /** What holds of every window holds of the three that end now. */
  ghost predicate Bounded(cfg: LimitsConfig, a: seq<Attempt>, key: IpAddr, now: Instant) {
    var global, own, spread := cfg.globalConnectsWindow, cfg.connectsPerIpWindow, cfg.distinctDestsWindow;
    && (cfg.globalConnects > 0 ==> |AttemptsWithin(a, now - global, global)| <= cfg.globalConnects)
    && (cfg.connectsPerIp > 0 ==> |AttemptsOfWithin(a, key, now - own, own)| <= cfg.connectsPerIp)
    && (cfg.distinctDestsPerIp > 0 ==> |DestsWithin(a, key, now - spread, spread)| <= cfg.distinctDestsPerIp)
  }

  lemma AttemptBounds(cfg: LimitsConfig, ops: seq<Op>, key: IpAddr, now: Instant)
    requires InOrder(ops)
    ensures Bounded(cfg, Run(cfg, ops).attempts, key, now)
  {
    hide InOrder, Run, AttemptsWithin, AttemptsOfWithin, DestsWithin;
    if cfg.globalConnects > 0 { GlobalRateHolds(cfg, ops, now - cfg.globalConnectsWindow); }
    if cfg.connectsPerIp > 0 { ConnectRateHolds(cfg, ops, key, now - cfg.connectsPerIpWindow); }
    if cfg.distinctDestsPerIp > 0 { DistinctDestsHold(cfg, ops, key, now - cfg.distinctDestsWindow); }
  }

  lemma AttemptRefusalIs(cfg: LimitsConfig, b: Book, key: IpAddr, dest: string, now: Instant, tracked: bool)
    requires Bounded(cfg, b.attempts, key, now) && EngagedKeys(cfg, b, now) == ActiveKeys(cfg, b, now)
    requires var w := cfg.globalConnectsWindow;
             Recent(b.attempts, now, w) == AttemptsWithin(b.attempts, now - w, w)
    requires var w := cfg.connectsPerIpWindow;
             RecentOf(b.attempts, key, now, w) == AttemptsOfWithin(b.attempts, key, now - w, w)
    requires var w := cfg.distinctDestsWindow;
             RecentDests(b.attempts, key, now, w) == DestsWithin(b.attempts, key, now - w, w)
    ensures AttemptError(cfg, b, key, dest, now, tracked) == AttemptRefusal(cfg, b, key, dest, now, tracked)
  {
    hide Recent, RecentOf, RecentDests, AttemptsWithin, AttemptsOfWithin, DestsWithin, EngagedKeys, ActiveKeys;
  }

  // ------------------------------------------------------------ leases

  /** The first rule that speaks against one more connection, given the live ones. */
  function LeaseRefusal(cfg: LimitsConfig, leases: map<nat, Lease>, key: IpAddr, dest: string): Option<LimitError> {
    if cfg.maxGlobalConnections > 0 && |leases| == cfg.maxGlobalConnections then Some(GlobalFull)
    else if cfg.maxConnsPerIp > 0 && |LeasesOf(leases, key)| == cfg.maxConnsPerIp then Some(PerIpFull)
    else if cfg.maxConnsPerDest > 0 && |LeasesTo(leases, dest)| == cfg.maxConnsPerDest then Some(PerDestFull)
    else None
  }

  /** A connection is refused exactly when as many are live as its cap allows. */
  lemma LeaseAnswered(cfg: LimitsConfig, ops: seq<Op>, ip: IpAddr, dest: string)
    ensures Step(cfg, Run(cfg, ops), DoAcquire(ip, dest)).1
            == match LeaseRefusal(cfg, Run(cfg, ops).leases, cfg.Key(ip), dest)
               case Some(e) => Refused(e)
               case None => Granted(Run(cfg, ops).nextLease)
  {
    LeaseCapsHold(cfg, ops, cfg.Key(ip), dest);
    hide LeasesOf, LeasesTo, Run, Addresses.LimitKey;
  }

  // ------------------------------------------------------------ bytes

  /** A charge of `n` bytes does not fit on top of `taken` in the same window. A cap of `2^64 - 1` is none. */
  predicate Overdrawn(cfg: LimitsConfig, taken: nat, n: u64) {
    n > 0 && 0 < cfg.maxBytesPerIp < 0xffff_ffff_ffff_ffff && taken + n > cfg.maxBytesPerIp
  }

  /** In order of time, a charge is refused exactly when it does not fit into what the closed window that
      ends with it leaves of the cap. */
  lemma ChargeAnswered(cfg: LimitsConfig, ops: seq<Op>, ip: IpAddr, n: u64, now: Instant)
    requires InOrder(ops + [DoCharge(ip, n, now)])
    ensures var taken := BytesWithin(Run(cfg, ops).charges, cfg.Key(ip), now - cfg.bytesWindow, cfg.bytesWindow);
            Step(cfg, Run(cfg, ops), DoCharge(ip, n, now)).1
            == if Overdrawn(cfg, taken, n) then Refused(ByteCap) else Done
  {
    hide BytesWithin, RecentBytes, Run, Step, LimitsConfig.Key, Overdrawn;
    OrderedBefore(ops, DoCharge(ip, n, now));
    RunUpTo(cfg, ops, now);
    RecentBytesInWindow(Run(cfg, ops).charges, cfg.Key(ip), now, cfg.bytesWindow);
    ChargeStep(cfg, Run(cfg, ops), ip, n, now);
  }

  lemma ChargeStep(cfg: LimitsConfig, b: Book, ip: IpAddr, n: u64, now: Instant)
    ensures Step(cfg, b, DoCharge(ip, n, now)).1
            == if Overdrawn(cfg, RecentBytes(b.charges, cfg.Key(ip), now, cfg.bytesWindow), n) then Refused(ByteCap)
               else Done
  {
    hide RecentBytes, LimitsConfig.Key;
  }
}
