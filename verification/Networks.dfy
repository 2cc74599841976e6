/** Whom the limiter takes for one client (src/limits.rs): the network that the configured prefixes draw
    around an address, and that no one outside it counts against it. */
module Networks {
  import opened Addresses
  import opened Bits
  import opened Ledger
  import opened Queues
  import opened Wrappers
  import Safety

  /** What an address is taken for: `::ffff:a.b.c.d` is `a.b.c.d`, and every other address is itself. */
  lemma UnmapExactly(ip: IpAddr)
    ensures forall a: u32 :: Unmap(ip) == V4(a) <==> ip == V4(a) || ip == V6(0xffff_0000_0000 + a)
    ensures ip.V6? && !(0xffff_0000_0000 <= ip.b <= 0xffff_ffff_ffff) ==> Unmap(ip) == ip
  {
  }

  /** The second address lies in the network of the first: the aligned block of addresses, as long as the
      configured prefix leaves bits, that holds it. */
  predicate SharesNetwork(cfg: LimitsConfig, a: IpAddr, b: IpAddr) {
    match Unmap(a)
    case V4(x) =>
      var size := Pow2(32 - Min(cfg.ipv4Prefix, 32));
      Unmap(b).V4? && x - x % size <= Unmap(b).a < x - x % size + size
    case V6(x) =>
      var size := Pow2(128 - Min(cfg.ipv6Prefix, 128));
      Unmap(b).V6? && x - x % size <= Unmap(b).b < x - x % size + size
  }

  /** The limiter tells two clients apart exactly when they are in different networks. */
  lemma KeyExactly(cfg: LimitsConfig, a: IpAddr, b: IpAddr)
    ensures cfg.Key(a) == cfg.Key(b) <==> SharesNetwork(cfg, a, b)
  {
    UnmapKeepsKey(a, cfg.ipv4Prefix, cfg.ipv6Prefix);
    hide Addresses.LimitKey, Pow2, Addresses.ToMapped;
    match Unmap(a) {
      case V4(x) => LimitKeyIntervalV4(x, b, cfg.ipv4Prefix, cfg.ipv6Prefix);
      case V6(x) => LimitKeyIntervalV6(x, b, cfg.ipv4Prefix, cfg.ipv6Prefix);
    }
  }

  // ------------------------------------------------------------ no one else counts

  /** An attempt or a charge of a client outside the network of `a`. */
  predicate Elsewhere(cfg: LimitsConfig, a: IpAddr, op: Op) {
    (op.DoAttempt? || op.DoCharge?) && !SharesNetwork(cfg, a, op.ip)
  }

  /** A run without the attempts and charges made elsewhere. */
  function Without(cfg: LimitsConfig, ops: seq<Op>, a: IpAddr): seq<Op> {
    if ops == [] then []
    else
      var front, last := Without(cfg, ops[..|ops| - 1], a), ops[|ops| - 1];
      if Elsewhere(cfg, a, last) then front else front + [last]
  }

  /** Two logs that no count for a key tells apart. */
  ghost predicate AttemptsAlike(a: seq<Attempt>, c: seq<Attempt>, key: IpAddr) {
    forall now: Instant, window: Duration :: AlikeAt(a, c, key, now, window)
  }

  predicate AlikeAt(a: seq<Attempt>, c: seq<Attempt>, key: IpAddr, now: Instant, window: Duration) {
    && |RecentOf(a, key, now, window)| == |RecentOf(c, key, now, window)|
    && RecentDests(a, key, now, window) == RecentDests(c, key, now, window)
  }

  ghost predicate ChargesAlike(a: seq<Charge>, c: seq<Charge>, key: IpAddr) {
    forall now: Instant, window: Duration :: RecentBytes(a, key, now, window) == RecentBytes(c, key, now, window)
  }

  lemma OneMoreRecent(a: seq<Attempt>, x: Attempt, key: IpAddr, now: Instant, window: Duration)
    ensures var its := x.key == key && !Expired(x.at, now, window);
            && |RecentOf(a + [x], key, now, window)| == |RecentOf(a, key, now, window)| + (if its then 1 else 0)
            && RecentDests(a + [x], key, now, window)
               == RecentDests(a, key, now, window) + (if its then {x.dest} else {})
  {
    var its := x.key == key && !Expired(x.at, now, window);
    hide Expired;
    assert RecentOf(a + [x], key, now, window) == RecentOf(a, key, now, window) + if its then {|a|} else {};
    OneMoreRecentDest(a, x, key, now, window);
  }

  lemma OneMoreRecentDest(a: seq<Attempt>, x: Attempt, key: IpAddr, now: Instant, window: Duration)
    ensures RecentDests(a + [x], key, now, window)
            == RecentDests(a, key, now, window)
               + (if x.key == key && !Expired(x.at, now, window) then {x.dest} else {})
  {
    hide Expired;
    assert (a + [x])[|a|] == x && forall i | 0 <= i < |a| :: (a + [x])[i] == a[i];
  }

  lemma AttemptElsewhere(a: seq<Attempt>, c: seq<Attempt>, x: Attempt, key: IpAddr)
    requires AttemptsAlike(a, c, key) && x.key != key
    ensures AttemptsAlike(a + [x], c, key)
  {
    forall now: Instant, window: Duration ensures AlikeAt(a + [x], c, key, now, window) {
      assert AlikeAt(a, c, key, now, window);
      OneMoreRecent(a, x, key, now, window);
    }
  }

  lemma AttemptHere(a: seq<Attempt>, c: seq<Attempt>, x: Attempt, key: IpAddr)
    requires AttemptsAlike(a, c, key)
    ensures AttemptsAlike(a + [x], c + [x], key)
  {
    forall now: Instant, window: Duration ensures AlikeAt(a + [x], c + [x], key, now, window) {
      assert AlikeAt(a, c, key, now, window);
      OneMoreRecent(a, x, key, now, window);
      OneMoreRecent(c, x, key, now, window);
    }
  }

  lemma ChargeElsewhere(a: seq<Charge>, c: seq<Charge>, x: Charge, key: IpAddr)
    requires ChargesAlike(a, c, key) && x.key != key
    ensures ChargesAlike(a + [x], c, key)
  {
    assert (a + [x])[..|a|] == a;
  }

  lemma ChargeHere(a: seq<Charge>, c: seq<Charge>, x: Charge, key: IpAddr)
    requires ChargesAlike(a, c, key)
    ensures ChargesAlike(a + [x], c + [x], key)
  {
    assert (a + [x])[..|a|] == a && (c + [x])[..|c|] == c;
  }

  /** The books of two runs that differ only in what was done elsewhere. Without caps on all attempts together
      and on tracked keys, attempts made elsewhere do not show either. */
  ghost predicate BooksAlike(cfg: LimitsConfig, b: Book, c: Book, key: IpAddr) {
    && ChargesAlike(b.charges, c.charges, key) && b.leases == c.leases && b.nextLease == c.nextLease
    && (Separate(cfg) ==> AttemptsAlike(b.attempts, c.attempts, key))
  }

  predicate Separate(cfg: LimitsConfig) { cfg.globalConnects == 0 && cfg.maxTrackedIps == 0 }

  lemma SameAttemptError(cfg: LimitsConfig, b: Book, c: Book, key: IpAddr, dest: string, now: Instant, tracked: bool)
    requires Separate(cfg) && AttemptsAlike(b.attempts, c.attempts, key)
    ensures AttemptError(cfg, b, key, dest, now, tracked) == AttemptError(cfg, c, key, dest, now, tracked)
  {
    assert AlikeAt(b.attempts, c.attempts, key, now, cfg.connectsPerIpWindow);
    assert AlikeAt(b.attempts, c.attempts, key, now, cfg.distinctDestsWindow);
    hide RecentOf, RecentDests, Recent;
  }

  lemma SameChargeError(cfg: LimitsConfig, b: Book, c: Book, key: IpAddr, n: u64, now: Instant)
    requires ChargesAlike(b.charges, c.charges, key)
    ensures ChargeError(cfg, b.charges, key, n, now) == ChargeError(cfg, c.charges, key, n, now)
  {
    assert RecentBytes(b.charges, key, now, cfg.bytesWindow) == RecentBytes(c.charges, key, now, cfg.bytesWindow);
  }

  /** Something done elsewhere is not seen from `a`. */
  lemma StepElsewhere(cfg: LimitsConfig, b: Book, c: Book, a: IpAddr, op: Op)
    requires BooksAlike(cfg, b, c, cfg.Key(a)) && Elsewhere(cfg, a, op)
    ensures BooksAlike(cfg, Step(cfg, b, op).0, c, cfg.Key(a))
  {
    var key := cfg.Key(op.ip);
    KeyExactly(cfg, a, op.ip);
    hide SharesNetwork, Addresses.LimitKey, AttemptsAlike, ChargesAlike, AttemptError, ChargeError;
    match op {
      case DoAttempt(_, dest, now, _) =>
        if Separate(cfg) { AttemptElsewhere(b.attempts, c.attempts, Attempt(now, key, dest), cfg.Key(a)); }
      case DoCharge(_, n, now) => ChargeElsewhere(b.charges, c.charges, Charge(now, key, n), cfg.Key(a));
      case _ =>
    }
  }

  /** And anything else leads to the same answer and the same view, from `a`. */
  lemma StepAlike(cfg: LimitsConfig, b: Book, c: Book, a: IpAddr, op: Op)
    requires BooksAlike(cfg, b, c, cfg.Key(a)) && !Elsewhere(cfg, a, op)
    ensures BooksAlike(cfg, Step(cfg, b, op).0, Step(cfg, c, op).0, cfg.Key(a))
    ensures op.DoAttempt? ==> Separate(cfg) ==> Step(cfg, b, op).1 == Step(cfg, c, op).1
    ensures !op.DoAttempt? ==> Step(cfg, b, op).1 == Step(cfg, c, op).1
  {
    var key := cfg.Key(a);
    hide SharesNetwork, Addresses.LimitKey, AttemptsAlike, ChargesAlike, AttemptError, ChargeError;
    match op {
      case DoAttempt(ip, dest, now, tracked) =>
        KeyExactly(cfg, a, ip);
        if Separate(cfg) {
          SameAttemptError(cfg, b, c, key, dest, now, tracked);
          AttemptHere(b.attempts, c.attempts, Attempt(now, key, dest), key);
        }
      case DoCharge(ip, n, now) =>
        KeyExactly(cfg, a, ip);
        SameChargeError(cfg, b, c, key, n, now);
        ChargeHere(b.charges, c.charges, Charge(now, key, n), key);
      case _ =>
    }
  }

  lemma {:induction false} RunsAlike(cfg: LimitsConfig, ops: seq<Op>, a: IpAddr)
    ensures BooksAlike(cfg, Run(cfg, ops), Run(cfg, Without(cfg, ops, a)), cfg.Key(a))
  {
    if ops != [] {
      var front, last := ops[..|ops| - 1], ops[|ops| - 1];
      var kept := Without(cfg, front, a);
      RunsAlike(cfg, front, a);
      hide Step, BooksAlike, Elsewhere, LimitsConfig.Key;
      if Elsewhere(cfg, a, last) {
        StepElsewhere(cfg, Run(cfg, front), Run(cfg, kept), a, last);
      } else {
        StepAlike(cfg, Run(cfg, front), Run(cfg, kept), a, last);
        RunSnoc(cfg, kept, last);
      }
    }
  }

  /** Whatever attempts and charges are made in other networks, at any times, the answers to `a` are those of
      a run without them: to its charges and its leases always, and to its attempts unless a cap is on all
      attempts together or on tracked keys. */
  lemma OthersDoNotCount(cfg: LimitsConfig, ops: seq<Op>, a: IpAddr, op: Op)
    requires !Elsewhere(cfg, a, op)
    requires op.DoAttempt? ==> cfg.globalConnects == 0 && cfg.maxTrackedIps == 0
    ensures Step(cfg, Run(cfg, ops), op).1 == Step(cfg, Run(cfg, Without(cfg, ops, a)), op).1
  {
    RunsAlike(cfg, ops, a);
    hide Step, Run, Without, BooksAlike, Elsewhere;
    StepAlike(cfg, Run(cfg, ops), Run(cfg, Without(cfg, ops, a)), a, op);
  }
}
