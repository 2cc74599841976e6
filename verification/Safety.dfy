/** What the limits promise about every run: no closed interval as long as a window ever holds more than
    the window's cap allows, and live connections stay under theirs. */
module Safety {
  import opened Addresses
  import opened Ledger
  import opened Queues

  /** `at` lies in the closed interval of length `window` that starts at `from`. */
  predicate Within(at: Instant, from: int, window: Duration) { from <= at <= from + window }

  function AttemptsWithin(a: seq<Attempt>, from: int, window: Duration): set<nat> {
    set i: nat | i < |a| && Within(a[i].at, from, window)
  }

  function AttemptsOfWithin(a: seq<Attempt>, key: IpAddr, from: int, window: Duration): set<nat> {
    set i: nat | i < |a| && a[i].key == key && Within(a[i].at, from, window)
  }

  function DestsWithin(a: seq<Attempt>, key: IpAddr, from: int, window: Duration): set<string> {
    set i: nat | i < |a| && a[i].key == key && Within(a[i].at, from, window) :: a[i].dest
  }

  function BytesWithin(c: seq<Charge>, key: IpAddr, from: int, window: Duration): nat {
    if c == [] then 0
    else
      var last := c[|c| - 1];
      BytesWithin(c[..|c| - 1], key, from, window)
      + if last.key == key && Within(last.at, from, window) then last.amount else 0
  }

  lemma LawfulFront(cfg: LimitsConfig, a: seq<Attempt>)
    requires a != [] && LawfulAttempts(cfg, a)
    ensures LawfulAttempts(cfg, a[..|a| - 1])
  {
    var front := a[..|a| - 1];
    forall j | 0 <= j < |front| ensures Admitted(cfg, front, j) {
      assert front[..j] == a[..j] && Admitted(cfg, a, j);
    }
  }

  /** What the limiter had counted when it accepted the last attempt. */
  lemma CountsBeforeLast(cfg: LimitsConfig, a: seq<Attempt>)
    requires a != [] && LawfulAttempts(cfg, a)
    ensures var front, last := a[..|a| - 1], a[|a| - 1];
            var dests := RecentDests(front, last.key, last.at, cfg.distinctDestsWindow);
            && (cfg.globalConnects != 0 ==> |Recent(front, last.at, cfg.globalConnectsWindow)| < cfg.globalConnects)
            && (cfg.connectsPerIp != 0
                ==> |RecentOf(front, last.key, last.at, cfg.connectsPerIpWindow)| < cfg.connectsPerIp)
            && (cfg.distinctDestsPerIp != 0 && last.dest !in dests ==> |dests| < cfg.distinctDestsPerIp)
  {
    var n := |a| - 1;
    assert Admitted(cfg, a, n);
  }

  lemma LastWithin(a: seq<Attempt>, key: IpAddr, from: int, window: Duration)
    requires a != []
    ensures var n := |a| - 1;
            && AttemptsWithin(a, from, window)
               == AttemptsWithin(a[..n], from, window) + (if Within(a[n].at, from, window) then {n} else {})
            && AttemptsOfWithin(a, key, from, window)
               == AttemptsOfWithin(a[..n], key, from, window)
                  + (if a[n].key == key && Within(a[n].at, from, window) then {n} else {})
  {
  }

  lemma {:induction false} GlobalWindow(cfg: LimitsConfig, a: seq<Attempt>, from: int)
    requires LawfulAttempts(cfg, a) && cfg.globalConnects != 0
    ensures |AttemptsWithin(a, from, cfg.globalConnectsWindow)| <= cfg.globalConnects
  {
    var w := cfg.globalConnectsWindow;
    if a != [] {
      var front, last := a[..|a| - 1], a[|a| - 1];
      LastWithin(a, last.key, from, w);
      if Within(last.at, from, w) {
        // the interval starts no earlier than the window that ended at the last attempt
        CountsBeforeLast(cfg, a);
        SubsetSize(AttemptsWithin(front, from, w), Recent(front, last.at, w));
      } else {
        LawfulFront(cfg, a);
        GlobalWindow(cfg, front, from);
      }
    }
  }

  lemma {:induction false} KeyWindow(cfg: LimitsConfig, a: seq<Attempt>, key: IpAddr, from: int)
    requires LawfulAttempts(cfg, a) && cfg.connectsPerIp != 0
    ensures |AttemptsOfWithin(a, key, from, cfg.connectsPerIpWindow)| <= cfg.connectsPerIp
  {
    var w := cfg.connectsPerIpWindow;
    if a != [] {
      var front, last := a[..|a| - 1], a[|a| - 1];
      LastWithin(a, key, from, w);
      if last.key == key && Within(last.at, from, w) {
        CountsBeforeLast(cfg, a);
        SubsetSize(AttemptsOfWithin(front, key, from, w), RecentOf(front, key, last.at, w));
      } else {
        LawfulFront(cfg, a);
        KeyWindow(cfg, front, key, from);
      }
    }
  }

  /** The destinations recent at `now` are those of an interval that ends at `now` or later. */
  lemma RecentAreWithin(a: seq<Attempt>, key: IpAddr, now: Instant, window: Duration)
    requires forall i | 0 <= i < |a| :: a[i].at <= now
    ensures RecentDests(a, key, now, window) == DestsWithin(a, key, now - window, window)
  {
  }

  predicate Ordered(a: seq<Attempt>) { forall i, j | 0 <= i < j < |a| :: a[i].at <= a[j].at }

  /** Repeats are admitted when the set is full, so the bound on the interval that ends at the last
      attempt is used for the destinations that attempt did not add. */
  lemma {:induction false} DestWindow(cfg: LimitsConfig, a: seq<Attempt>, key: IpAddr, from: int)
    requires LawfulAttempts(cfg, a) && Ordered(a) && cfg.distinctDestsPerIp != 0
    ensures |DestsWithin(a, key, from, cfg.distinctDestsWindow)| <= cfg.distinctDestsPerIp
  {
    if a != [] {
      var w, front, last := cfg.distinctDestsWindow, a[..|a| - 1], a[|a| - 1];
      LawfulFront(cfg, a);
      LastDest(a, key, from, w);
      hide LawfulAttempts, DestsWithin, RecentDests;
      if last.key == key && Within(last.at, from, w) {
        DestWindow(cfg, front, key, last.at - w);
        CountsBeforeLast(cfg, a);
        OneMoreDest(front, last, from, w, cfg.distinctDestsPerIp);
      } else {
        DestWindow(cfg, front, key, from);
      }
    }
  }

  lemma OneMoreDest(front: seq<Attempt>, last: Attempt, from: int, window: Duration, cap: nat)
    requires forall i | 0 <= i < |front| :: front[i].at <= last.at
    requires Within(last.at, from, window)
    requires |DestsWithin(front, last.key, last.at - window, window)| <= cap
    requires last.dest !in RecentDests(front, last.key, last.at, window)
             ==> |RecentDests(front, last.key, last.at, window)| < cap
    ensures |DestsWithin(front, last.key, from, window) + {last.dest}| <= cap
  {
    var before := DestsWithin(front, last.key, from, window);
    var recent := RecentDests(front, last.key, last.at, window);
    RecentAreWithin(front, last.key, last.at, window);
    WithinAreRecent(front, last.key, from, last.at, window);
    if last.dest in recent {
      SubsetSize(before + {last.dest}, recent);
    } else {
      SubsetSize(before, recent);
    }
  }

  lemma WithinAreRecent(a: seq<Attempt>, key: IpAddr, from: int, now: Instant, window: Duration)
    requires Within(now, from, window)
    ensures DestsWithin(a, key, from, window) <= RecentDests(a, key, now, window)
  {
  }

  lemma LastDest(a: seq<Attempt>, key: IpAddr, from: int, window: Duration)
    requires a != []
    ensures var n := |a| - 1;
            DestsWithin(a, key, from, window)
            == DestsWithin(a[..n], key, from, window)
               + (if a[n].key == key && Within(a[n].at, from, window) then {a[n].dest} else {})
  {
  }

  lemma ChargeSnoc(c: seq<Charge>, x: Charge, key: IpAddr, from: int, window: Duration)
    ensures BytesWithin(c + [x], key, from, window)
            == BytesWithin(c, key, from, window) + if x.key == key && Within(x.at, from, window) then x.amount else 0
  {
    assert (c + [x])[..|c|] == c;
  }

  lemma {:induction false} RecentCovers(c: seq<Charge>, key: IpAddr, from: int, now: Instant, window: Duration)
    requires from <= now <= from + window
    ensures BytesWithin(c, key, from, window) <= RecentBytes(c, key, now, window)
  {
    if c != [] { RecentCovers(c[..|c| - 1], key, from, now, window); }
  }

  lemma {:induction false} ByteWindow(cfg: LimitsConfig, c: seq<Charge>, key: IpAddr, from: int)
    requires LawfulCharges(cfg, c) && 0 < cfg.maxBytesPerIp < MaxU64
    ensures BytesWithin(c, key, from, cfg.bytesWindow) <= cfg.maxBytesPerIp
  {
    if c != [] {
      var front, last := c[..|c| - 1], c[|c| - 1];
      forall j | 0 <= j < |front| ensures Paid(cfg, front, j) {
        assert front[..j] == c[..j] && Paid(cfg, c, j);
      }
      if last.key == key && Within(last.at, from, cfg.bytesWindow) {
        assert Paid(cfg, c, |c| - 1);
        RecentCovers(front, key, from, last.at, cfg.bytesWindow);
      } else {
        ByteWindow(cfg, front, key, from);
      }
    }
  }

  // ------------------------------------------------------------ over whole runs

  /** Operations are stamped under the lock with a clock that never runs backwards. */
  predicate Stamped(op: Op) { op.DoAttempt? || op.DoCharge? }

  ghost predicate InOrder(ops: seq<Op>) {
    forall i, j | 0 <= i < j < |ops| && Stamped(ops[i]) && Stamped(ops[j]) :: ops[i].now <= ops[j].now
  }

  lemma {:induction false} RunOrdered(cfg: LimitsConfig, ops: seq<Op>, end: Instant)
    requires InOrder(ops) && forall i | 0 <= i < |ops| && Stamped(ops[i]) :: ops[i].now <= end
    ensures Ordered(Run(cfg, ops).attempts)
    ensures forall i | 0 <= i < |Run(cfg, ops).attempts| :: Run(cfg, ops).attempts[i].at <= end
  {
    if ops != [] {
      var front, last := ops[..|ops| - 1], ops[|ops| - 1];
      RunOrdered(cfg, front, if Stamped(last) then last.now else end);
    }
  }

  lemma {:induction false} LastStamp(ops: seq<Op>) returns (end: Instant)
    ensures forall i | 0 <= i < |ops| && Stamped(ops[i]) :: ops[i].now <= end
  {
    if ops == [] {
      end := 0;
    } else {
      var front, last := ops[..|ops| - 1], ops[|ops| - 1];
      end := LastStamp(front);
      assert forall i | 0 <= i < |front| :: front[i] == ops[i];
      if Stamped(last) && last.now > end { end := last.now; }
    }
  }

  /** At most `connects_per_ip` attempts of a key are accepted in any window. */
  lemma ConnectRateHolds(cfg: LimitsConfig, ops: seq<Op>, key: IpAddr, from: int)
    requires cfg.connectsPerIp != 0
    ensures |AttemptsOfWithin(Run(cfg, ops).attempts, key, from, cfg.connectsPerIpWindow)| <= cfg.connectsPerIp
  {
    RunLawful(cfg, ops);
    KeyWindow(cfg, Run(cfg, ops).attempts, key, from);
  }

  /** At most `global_connects` attempts are accepted in any window. */
  lemma GlobalRateHolds(cfg: LimitsConfig, ops: seq<Op>, from: int)
    requires cfg.globalConnects != 0
    ensures |AttemptsWithin(Run(cfg, ops).attempts, from, cfg.globalConnectsWindow)| <= cfg.globalConnects
  {
    RunLawful(cfg, ops);
    GlobalWindow(cfg, Run(cfg, ops).attempts, from);
  }

  /** A key reaches at most `distinct_dests_per_ip` destinations in any window. */
  lemma DistinctDestsHold(cfg: LimitsConfig, ops: seq<Op>, key: IpAddr, from: int)
    requires cfg.distinctDestsPerIp != 0 && InOrder(ops)
    ensures |DestsWithin(Run(cfg, ops).attempts, key, from, cfg.distinctDestsWindow)| <= cfg.distinctDestsPerIp
  {
    RunLawful(cfg, ops);
    var end := LastStamp(ops);
    RunOrdered(cfg, ops, end);
    DestWindow(cfg, Run(cfg, ops).attempts, key, from);
  }

  /** A key is charged at most `max_bytes_per_ip` bytes in any window. */
  lemma ByteQuotaHolds(cfg: LimitsConfig, ops: seq<Op>, key: IpAddr, from: int)
    requires 0 < cfg.maxBytesPerIp < MaxU64
    ensures BytesWithin(Run(cfg, ops).charges, key, from, cfg.bytesWindow) <= cfg.maxBytesPerIp
  {
    RunLawful(cfg, ops);
    ByteWindow(cfg, Run(cfg, ops).charges, key, from);
  }

  /** Charges to one key within one closed interval. */
  predicate ChargesTo(cfg: LimitsConfig, ops: seq<Op>, key: IpAddr, from: int) {
    forall k | 0 <= k < |ops| ::
      ops[k].DoCharge? && cfg.Key(ops[k].ip) == key && Within(ops[k].now, from, cfg.bytesWindow)
  }

  function TotalCharged(ops: seq<Op>): nat {
    if ops == [] then 0
    else TotalCharged(ops[..|ops| - 1]) + if ops[|ops| - 1].DoCharge? then ops[|ops| - 1].n else 0
  }

  predicate AllDone(outs: seq<Outcome>) { forall k | 0 <= k < |outs| :: outs[k] == Done }

  lemma OneMoreUncapped(cfg: LimitsConfig, front: seq<Op>, op: Op, key: IpAddr, from: int)
    requires cfg.maxBytesPerIp == MaxU64 && op.DoCharge? && cfg.Key(op.ip) == key
    requires Within(op.now, from, cfg.bytesWindow)
    ensures Outcomes(cfg, front + [op]) == Outcomes(cfg, front) + [Done]
    ensures BytesWithin(Run(cfg, front + [op]).charges, key, from, cfg.bytesWindow)
            == BytesWithin(Run(cfg, front).charges, key, from, cfg.bytesWindow) + op.n
  {
    hide Step, Run, Outcomes, BytesWithin, Addresses.LimitKey;
    var b := Run(cfg, front);
    RunSnoc(cfg, front, op);
    NeverRefused(cfg, b, op.ip, op.n, op.now);
    ChargeSnoc(b.charges, Charge(op.now, key, op.n), key, from, cfg.bytesWindow);
  }

  /** The exception: `u64::MAX` is no cap, because the limiter's sum saturates there. Charges of whatever
      sizes are all accepted, however many bytes they come to within one window. */
  lemma {:induction false} LargestCapUnenforced(cfg: LimitsConfig, ops: seq<Op>, key: IpAddr, from: int)
    requires cfg.maxBytesPerIp == MaxU64 && ChargesTo(cfg, ops, key, from)
    ensures |Outcomes(cfg, ops)| == |ops| && AllDone(Outcomes(cfg, ops))
    ensures BytesWithin(Run(cfg, ops).charges, key, from, cfg.bytesWindow) == TotalCharged(ops)
  {
    if ops != [] {
      var front, op := ops[..|ops| - 1], ops[|ops| - 1];
      LargestCapUnenforced(cfg, front, key, from);
      OneMoreUncapped(cfg, front, op, key, from);
      assert ops == front + [op];
      hide Run, Outcomes, BytesWithin, Addresses.LimitKey;
    }
  }

  /** There are such runs that pass the cap, for buffers of any size. */
  lemma LargestCapPassed(cfg: LimitsConfig, ip: IpAddr, n: u64, now: Instant) returns (ops: seq<Op>)
    requires cfg.maxBytesPerIp == MaxU64 && 0 < n <= MaxBuffer
    ensures ChargesTo(cfg, ops, cfg.Key(ip), now) && forall k | 0 <= k < |ops| :: ops[k] == DoCharge(ip, n, now)
    ensures BytesWithin(Run(cfg, ops).charges, cfg.Key(ip), now, cfg.bytesWindow) > cfg.maxBytesPerIp
  {
    ops := seq(MaxU64 + 1, _ => DoCharge(ip, n, now));
    AlikeTotal(ops, ip, n, now);
    LargestCapUnenforced(cfg, ops, cfg.Key(ip), now);
  }

  lemma {:induction false} AlikeTotal(ops: seq<Op>, ip: IpAddr, n: u64, now: Instant)
    requires n > 0 && forall k | 0 <= k < |ops| :: ops[k] == DoCharge(ip, n, now)
    ensures TotalCharged(ops) >= |ops|
  {
    if ops != [] { AlikeTotal(ops[..|ops| - 1], ip, n, now); }
  }

  lemma NeverRefused(cfg: LimitsConfig, b: Book, ip: IpAddr, n: u64, now: Instant)
    requires cfg.maxBytesPerIp == MaxU64
    ensures var (c, answer) := Step(cfg, b, DoCharge(ip, n, now));
            answer == Done && c.charges == if n == 0 then b.charges else b.charges + [Charge(now, cfg.Key(ip), n)]
  {
  }

  /** Live connections never exceed their three caps. */
  lemma LeaseCapsHold(cfg: LimitsConfig, ops: seq<Op>, key: IpAddr, dest: string)
    ensures var leases := Run(cfg, ops).leases;
            && (cfg.maxGlobalConnections != 0 ==> |leases| <= cfg.maxGlobalConnections)
            && (cfg.maxConnsPerIp != 0 ==> |LeasesOf(leases, key)| <= cfg.maxConnsPerIp)
            && (cfg.maxConnsPerDest != 0 ==> |LeasesTo(leases, dest)| <= cfg.maxConnsPerDest)
  {
    RunLawful(cfg, ops);
    assert Under(cfg.maxConnsPerIp, |LeasesOf(Run(cfg, ops).leases, key)|);
    assert Under(cfg.maxConnsPerDest, |LeasesTo(Run(cfg, ops).leases, dest)|);
  }
}
