/** The limiter as its documentation describes it: a ledger that forgets nothing. Every decision counts
    the events of the ledger that lie within a window, or the leases that are live. What is proved about
    all runs of the ledger is what the limits promise (src/limits.rs, README.md "Limits"). */
module Ledger {
  import opened Addresses
  import opened Queues
  import opened Wrappers

  datatype LimitError = GlobalFull | PerIpFull | PerDestFull | ConnectRate | GlobalConnectRate
                      | DistinctDests | ByteCap

  /** `0` on a cap means unlimited. */
  datatype LimitsConfig = LimitsConfig(
    maxGlobalConnections: nat, maxConnsPerIp: nat, maxConnsPerDest: nat,
    connectsPerIp: nat, connectsPerIpWindow: Duration,
    distinctDestsPerIp: nat, distinctDestsWindow: Duration,
    globalConnects: nat, globalConnectsWindow: Duration,
    maxBytesPerIp: u64, bytesWindow: Duration,
    ipv4Prefix: u8, ipv6Prefix: u8, maxTrackedIps: nat)
  {
    function Key(ip: IpAddr): IpAddr { LimitKey(ip, ipv4Prefix, ipv6Prefix) }
  }

  datatype Attempt = Attempt(at: Instant, key: IpAddr, dest: string)

  datatype Charge = Charge(at: Instant, key: IpAddr, amount: u64)

  datatype Lease = Lease(key: IpAddr, dest: string)

  datatype Book = Book(attempts: seq<Attempt>, charges: seq<Charge>, leases: map<nat, Lease>, nextLease: nat)

  const EmptyBook := Book([], [], map[], 0)

  // ------------------------------------------------------------ counting

  function Recent(a: seq<Attempt>, now: Instant, window: Duration): set<nat> {
    set i: nat | i < |a| && !Expired(a[i].at, now, window)
  }

  function RecentOf(a: seq<Attempt>, key: IpAddr, now: Instant, window: Duration): set<nat> {
    set i: nat | i < |a| && a[i].key == key && !Expired(a[i].at, now, window)
  }

  function RecentDests(a: seq<Attempt>, key: IpAddr, now: Instant, window: Duration): set<string> {
    set i: nat | i < |a| && a[i].key == key && !Expired(a[i].at, now, window) :: a[i].dest
  }

  function RecentCharges(c: seq<Charge>, key: IpAddr, now: Instant, window: Duration): set<nat> {
    set i: nat | i < |c| && c[i].key == key && !Expired(c[i].at, now, window)
  }

  function RecentBytes(c: seq<Charge>, key: IpAddr, now: Instant, window: Duration): nat {
    if c == [] then 0
    else
      var last := c[|c| - 1];
      RecentBytes(c[..|c| - 1], key, now, window)
      + if last.key == key && !Expired(last.at, now, window) then last.amount else 0
  }

  function LeasesOf(leases: map<nat, Lease>, key: IpAddr): set<nat> {
    set id | id in leases && leases[id].key == key
  }

  function LeasesTo(leases: map<nat, Lease>, dest: string): set<nat> {
    set id | id in leases && leases[id].dest == dest
  }

  /** A key that still matters: it holds a lease or has an event within the event's window. */
  predicate Active(cfg: LimitsConfig, b: Book, key: IpAddr, now: Instant) {
    || LeasesOf(b.leases, key) != {}
    || RecentOf(b.attempts, key, now, cfg.connectsPerIpWindow) != {}
    || RecentOf(b.attempts, key, now, cfg.distinctDestsWindow) != {}
    || RecentCharges(b.charges, key, now, cfg.bytesWindow) != {}
  }

  function SeenKeys(b: Book): set<IpAddr> {
    (set i | 0 <= i < |b.attempts| :: b.attempts[i].key) + (set i | 0 <= i < |b.charges| :: b.charges[i].key)
    + (set id | id in b.leases :: b.leases[id].key)
  }

  function ActiveKeys(cfg: LimitsConfig, b: Book, now: Instant): (keys: set<IpAddr>)
    ensures forall key :: key in keys <==> Active(cfg, b, key, now)
  {
    var keys := set key | key in SeenKeys(b) && Active(cfg, b, key, now);
    assert forall key | Active(cfg, b, key, now) :: key in SeenKeys(b) by {
      forall key | Active(cfg, b, key, now) ensures key in SeenKeys(b) { ActiveSeen(cfg, b, key, now); }
    }
    keys
  }

  lemma ActiveSeen(cfg: LimitsConfig, b: Book, key: IpAddr, now: Instant)
    requires Active(cfg, b, key, now)
    ensures key in SeenKeys(b)
  {
    if id :| id in LeasesOf(b.leases, key) {
      assert b.leases[id].key in SeenKeys(b);
    } else if i :| i in RecentOf(b.attempts, key, now, cfg.connectsPerIpWindow) {
      assert b.attempts[i].key in SeenKeys(b);
    } else if i :| i in RecentOf(b.attempts, key, now, cfg.distinctDestsWindow) {
      assert b.attempts[i].key in SeenKeys(b);
    } else {
      var i :| i in RecentCharges(b.charges, key, now, cfg.bytesWindow);
      assert b.charges[i].key in SeenKeys(b);
    }
  }

  // ------------------------------------------------------------ decisions

  function Capped(limit: nat, used: nat): bool { limit != 0 && used >= limit }

  /** The rate and diversity limits on one more attempt. */
  function RateError(cfg: LimitsConfig, a: seq<Attempt>, key: IpAddr, dest: string, now: Instant)
    : Option<LimitError>
  {
    var dests := RecentDests(a, key, now, cfg.distinctDestsWindow);
    if Capped(cfg.globalConnects, |Recent(a, now, cfg.globalConnectsWindow)|) then Some(GlobalConnectRate)
    else if Capped(cfg.connectsPerIp, |RecentOf(a, key, now, cfg.connectsPerIpWindow)|) then Some(ConnectRate)
    else if cfg.distinctDestsPerIp != 0 && dest !in dests && |dests| >= cfg.distinctDestsPerIp
    then Some(DistinctDests)
    else None
  }

  /** `tracked`: the limiter still has a row for the key, which may be a stale one. Only a key without
      a row can be refused for the number of tracked keys, and only active keys count against it. */
  function AttemptError(cfg: LimitsConfig, b: Book, key: IpAddr, dest: string, now: Instant, tracked: bool)
    : Option<LimitError>
  {
    if !tracked && Capped(cfg.maxTrackedIps, |ActiveKeys(cfg, b, now)|) then Some(GlobalConnectRate)
    else RateError(cfg, b.attempts, key, dest, now)
  }

  lemma AttemptErrorIs(cfg: LimitsConfig, b: Book, key: IpAddr, dest: string, now: Instant, tracked: bool, full: bool)
    requires full <==> !tracked && Capped(cfg.maxTrackedIps, |ActiveKeys(cfg, b, now)|)
    ensures AttemptError(cfg, b, key, dest, now, tracked)
            == if full then Some(GlobalConnectRate) else RateError(cfg, b.attempts, key, dest, now)
  {
  }

  function AcquireError(cfg: LimitsConfig, b: Book, key: IpAddr, dest: string): Option<LimitError> {
    if Capped(cfg.maxGlobalConnections, |b.leases|) then Some(GlobalFull)
    else if Capped(cfg.maxConnsPerIp, |LeasesOf(b.leases, key)|) then Some(PerIpFull)
    else if Capped(cfg.maxConnsPerDest, |LeasesTo(b.leases, dest)|) then Some(PerDestFull)
    else None
  }

  /** A cap of `u64::MAX` is no limit, because the source's sum saturates there. */
  function ChargeError(cfg: LimitsConfig, c: seq<Charge>, key: IpAddr, n: u64, now: Instant): Option<LimitError> {
    if n != 0 && 0 < cfg.maxBytesPerIp < MaxU64
       && RecentBytes(c, key, now, cfg.bytesWindow) + n > cfg.maxBytesPerIp
    then Some(ByteCap) else None
  }

  /** Whether a charge leaves a trace. */
  predicate IsMetered(cfg: LimitsConfig, n: u64) { n != 0 && cfg.maxBytesPerIp != 0 }

  // ------------------------------------------------------------ steps and runs

  datatype Op =
    | DoAttempt(ip: IpAddr, dest: string, now: Instant, tracked: bool)
    | DoAcquire(ip: IpAddr, dest: string)
    | DoRelease(id: nat)
    | DoCharge(ip: IpAddr, n: u64, now: Instant)
    | DoCollect

  datatype Outcome = Done | Granted(id: nat) | Refused(error: LimitError)

  /** A call on the limiter, whatever its answer will be. `End(k)` drops the lease that the callers were
      granted as their `k`-th, if they still hold it. */
  datatype Call = Try(ip: IpAddr, dest: string) | Acquire(ip: IpAddr, dest: string) | End(k: nat)
                | AddBytes(ip: IpAddr, n: u64) | Collect
  {
    /** The keys it may create a row for. */
    function Keys(cfg: LimitsConfig): set<IpAddr> { if Try? || Acquire? || AddBytes? then {cfg.Key(ip)} else {} }

    /** The ledger's operation for it, at the time the limiter read, when the callers have been granted
        the leases `numbers`. */
    function OpAt(now: Instant, tracked: bool, numbers: seq<nat>): Op {
      match this
      case Try(ip, dest) => DoAttempt(ip, dest, now, tracked)
      case Acquire(ip, dest) => DoAcquire(ip, dest)
      case End(k) => if k < |numbers| then DoRelease(numbers[k]) else DoCollect
      case AddBytes(ip, n) => DoCharge(ip, n, now)
      case Collect => DoCollect
    }
  }

  /** The leases granted so far, after one more answer. */
  function MoreNumbers(numbers: seq<nat>, answer: Outcome): seq<nat> {
    if answer.Granted? then numbers + [answer.id] else numbers
  }

  function AfterAttempt(cfg: LimitsConfig, b: Book, key: IpAddr, dest: string, now: Instant, tracked: bool): Book {
    if AttemptError(cfg, b, key, dest, now, tracked).Some? then b
    else b.(attempts := b.attempts + [Attempt(now, key, dest)])
  }

  function AfterAcquire(cfg: LimitsConfig, b: Book, key: IpAddr, dest: string): Book {
    if AcquireError(cfg, b, key, dest).Some? then b
    else b.(leases := b.leases[b.nextLease := Lease(key, dest)], nextLease := b.nextLease + 1)
  }

  function AfterRelease(b: Book, id: nat): Book { b.(leases := b.leases - {id}) }

  function AfterCharge(cfg: LimitsConfig, b: Book, key: IpAddr, n: u64, now: Instant): Book {
    if ChargeError(cfg, b.charges, key, n, now).Some? || !IsMetered(cfg, n) then b
    else b.(charges := b.charges + [Charge(now, key, n)])
  }

  function Answer(e: Option<LimitError>, granted: Outcome): Outcome {
    match e case None => granted case Some(err) => Refused(err)
  }

  function Step(cfg: LimitsConfig, b: Book, op: Op): (Book, Outcome) {
    match op
    case DoAttempt(ip, dest, now, tracked) =>
      (AfterAttempt(cfg, b, cfg.Key(ip), dest, now, tracked),
       Answer(AttemptError(cfg, b, cfg.Key(ip), dest, now, tracked), Done))
    case DoAcquire(ip, dest) =>
      (AfterAcquire(cfg, b, cfg.Key(ip), dest), Answer(AcquireError(cfg, b, cfg.Key(ip), dest), Granted(b.nextLease)))
    case DoRelease(id) => (AfterRelease(b, id), Done)
    case DoCharge(ip, n, now) =>
      (AfterCharge(cfg, b, cfg.Key(ip), n, now), Answer(ChargeError(cfg, b.charges, cfg.Key(ip), n, now), Done))
    case DoCollect => (b, Done)
  }

  /** An attempt has no bearing on leases. */
  lemma AttemptKeepsLeases(cfg: LimitsConfig, b: Book, ip: IpAddr, dest: string, now: Instant, tracked: bool)
    ensures var (c, answer) := Step(cfg, b, DoAttempt(ip, dest, now, tracked));
            c.leases == b.leases && c.nextLease == b.nextLease && !answer.Granted?
  {
  }

  /** The ledger after any sequence of operations by any number of sessions. */
  function Run(cfg: LimitsConfig, ops: seq<Op>): Book {
    if ops == [] then EmptyBook else Step(cfg, Run(cfg, ops[..|ops| - 1]), ops[|ops| - 1]).0
  }

  function Outcomes(cfg: LimitsConfig, ops: seq<Op>): seq<Outcome> {
    if ops == [] then []
    else Outcomes(cfg, ops[..|ops| - 1]) + [Step(cfg, Run(cfg, ops[..|ops| - 1]), ops[|ops| - 1]).1]
  }

  lemma RunSnoc(cfg: LimitsConfig, ops: seq<Op>, op: Op)
    ensures Run(cfg, ops + [op]) == Step(cfg, Run(cfg, ops), op).0
    ensures Outcomes(cfg, ops + [op]) == Outcomes(cfg, ops) + [Step(cfg, Run(cfg, ops), op).1]
  {
    assert (ops + [op])[..|ops|] == ops;
  }

  // ------------------------------------------------------------ what every run keeps

  /** Attempt `j` was within the rate limits when it was made. */
  predicate Admitted(cfg: LimitsConfig, a: seq<Attempt>, j: nat)
    requires j < |a|
  {
    RateError(cfg, a[..j], a[j].key, a[j].dest, a[j].at).None?
  }

  predicate LawfulAttempts(cfg: LimitsConfig, a: seq<Attempt>) { forall j | 0 <= j < |a| :: Admitted(cfg, a, j) }

  /** Charge `j` was within the byte quota when it was made. */
  predicate Paid(cfg: LimitsConfig, c: seq<Charge>, j: nat)
    requires j < |c|
  {
    ChargeError(cfg, c[..j], c[j].key, c[j].amount, c[j].at).None? && c[j].amount > 0
  }

  predicate LawfulCharges(cfg: LimitsConfig, c: seq<Charge>) { forall j | 0 <= j < |c| :: Paid(cfg, c, j) }

  predicate Under(limit: nat, used: nat) { limit == 0 || used <= limit }

  ghost predicate LawfulLeases(cfg: LimitsConfig, b: Book) {
    && (forall id | id in b.leases :: id < b.nextLease)
    && Under(cfg.maxGlobalConnections, |b.leases|)
    && (forall key :: Under(cfg.maxConnsPerIp, |LeasesOf(b.leases, key)|))
    && (forall dest :: Under(cfg.maxConnsPerDest, |LeasesTo(b.leases, dest)|))
  }

  ghost predicate Lawful(cfg: LimitsConfig, b: Book) {
    LawfulAttempts(cfg, b.attempts) && LawfulCharges(cfg, b.charges) && LawfulLeases(cfg, b)
  }

  predicate Distinct<T(==)>(s: seq<T>) { forall i, j | 0 <= i < j < |s| :: s[i] != s[j] }

  lemma SubsetSize<T>(a: set<T>, b: set<T>)
    requires a <= b
    ensures |a| <= |b|
  {
    assert b == a + (b - a);
  }

  lemma AdmittedSnoc(cfg: LimitsConfig, a: seq<Attempt>, x: Attempt)
    requires LawfulAttempts(cfg, a) && RateError(cfg, a, x.key, x.dest, x.at).None?
    ensures LawfulAttempts(cfg, a + [x])
  {
    forall j | 0 <= j < |a + [x]| ensures Admitted(cfg, a + [x], j) {
      assert (a + [x])[..j] == a[..j];
      if j < |a| { assert Admitted(cfg, a, j); }
    }
    assert a[..|a|] == a;
  }

  lemma PaidSnoc(cfg: LimitsConfig, c: seq<Charge>, x: Charge)
    requires LawfulCharges(cfg, c) && ChargeError(cfg, c, x.key, x.amount, x.at).None? && x.amount > 0
    ensures LawfulCharges(cfg, c + [x])
  {
    forall j | 0 <= j < |c + [x]| ensures Paid(cfg, c + [x], j) {
      assert (c + [x])[..j] == c[..j];
      if j < |c| { assert Paid(cfg, c, j); }
    }
    assert c[..|c|] == c;
  }

  /** How one more lease changes the counts. */
  lemma LeaseAdded(leases: map<nat, Lease>, id: nat, lease: Lease, key: IpAddr, dest: string)
    requires id !in leases
    ensures |leases[id := lease]| == |leases| + 1
    ensures |LeasesOf(leases[id := lease], key)| == |LeasesOf(leases, key)| + if key == lease.key then 1 else 0
    ensures |LeasesTo(leases[id := lease], dest)| == |LeasesTo(leases, dest)| + if dest == lease.dest then 1 else 0
  {
    OneMoreOf(leases, id, lease, key);
    OneMoreTo(leases, id, lease, dest);
  }

  lemma OneMoreOf(leases: map<nat, Lease>, id: nat, lease: Lease, key: IpAddr)
    requires id !in leases
    ensures LeasesOf(leases[id := lease], key)
            == if key == lease.key then LeasesOf(leases, key) + {id} else LeasesOf(leases, key)
  {
  }

  lemma OneMoreTo(leases: map<nat, Lease>, id: nat, lease: Lease, dest: string)
    requires id !in leases
    ensures LeasesTo(leases[id := lease], dest)
            == if dest == lease.dest then LeasesTo(leases, dest) + {id} else LeasesTo(leases, dest)
  {
  }

  /** A release takes back exactly what the lease added. */
  lemma LeaseRemoved(leases: map<nat, Lease>, id: nat, key: IpAddr, dest: string)
    requires id in leases
    ensures |leases - {id}| == |leases| - 1
    ensures |LeasesOf(leases - {id}, key)| == |LeasesOf(leases, key)| - if key == leases[id].key then 1 else 0
    ensures |LeasesTo(leases - {id}, dest)| == |LeasesTo(leases, dest)| - if dest == leases[id].dest then 1 else 0
  {
    var less := leases - {id};
    assert leases == less[id := leases[id]];
    LeaseAdded(less, id, leases[id], key, dest);
  }

  lemma AcquireLawful(cfg: LimitsConfig, b: Book, key: IpAddr, dest: string)
    requires LawfulLeases(cfg, b)
    ensures LawfulLeases(cfg, AfterAcquire(cfg, b, key, dest))
  {
    var c := AfterAcquire(cfg, b, key, dest);
    if c != b {
      LeaseAdded(b.leases, b.nextLease, Lease(key, dest), key, dest);
      forall k ensures Under(cfg.maxConnsPerIp, |LeasesOf(c.leases, k)|) {
        LeaseAdded(b.leases, b.nextLease, Lease(key, dest), k, dest);
        assert Under(cfg.maxConnsPerIp, |LeasesOf(b.leases, k)|);
      }
      forall d ensures Under(cfg.maxConnsPerDest, |LeasesTo(c.leases, d)|) {
        LeaseAdded(b.leases, b.nextLease, Lease(key, dest), key, d);
        assert Under(cfg.maxConnsPerDest, |LeasesTo(b.leases, d)|);
      }
    }
  }

  lemma ReleaseLawful(cfg: LimitsConfig, b: Book, id: nat)
    requires LawfulLeases(cfg, b)
    ensures LawfulLeases(cfg, AfterRelease(b, id))
  {
    if id in b.leases {
      LeaseRemoved(b.leases, id, b.leases[id].key, b.leases[id].dest);
      forall k ensures Under(cfg.maxConnsPerIp, |LeasesOf(b.leases - {id}, k)|) {
        LeaseRemoved(b.leases, id, k, "");
        assert Under(cfg.maxConnsPerIp, |LeasesOf(b.leases, k)|);
      }
      forall d ensures Under(cfg.maxConnsPerDest, |LeasesTo(b.leases - {id}, d)|) {
        LeaseRemoved(b.leases, id, b.leases[id].key, d);
        assert Under(cfg.maxConnsPerDest, |LeasesTo(b.leases, d)|);
      }
    } else {
      assert b.leases - {id} == b.leases;
    }
  }

  lemma StepLawful(cfg: LimitsConfig, b: Book, op: Op)
    requires Lawful(cfg, b)
    ensures Lawful(cfg, Step(cfg, b, op).0)
  {
    match op
    case DoAttempt(ip, dest, now, tracked) =>
      if AttemptError(cfg, b, cfg.Key(ip), dest, now, tracked).None? {
        AdmittedSnoc(cfg, b.attempts, Attempt(now, cfg.Key(ip), dest));
      }
    case DoAcquire(ip, dest) => AcquireLawful(cfg, b, cfg.Key(ip), dest);
    case DoRelease(id) => ReleaseLawful(cfg, b, id);
    case DoCharge(ip, n, now) =>
      if ChargeError(cfg, b.charges, cfg.Key(ip), n, now).None? && IsMetered(cfg, n) {
        PaidSnoc(cfg, b.charges, Charge(now, cfg.Key(ip), n));
      }
    case DoCollect =>
  }

  lemma EmptyLawful(cfg: LimitsConfig)
    ensures Lawful(cfg, EmptyBook)
  {
    assert forall key :: LeasesOf(map[], key) == {};
    assert forall dest :: LeasesTo(map[], dest) == {};
  }

  lemma {:induction false} RunLawful(cfg: LimitsConfig, ops: seq<Op>)
    ensures Lawful(cfg, Run(cfg, ops))
  {
    hide Lawful, Step, EmptyBook;
    if ops == [] {
      EmptyLawful(cfg);
    } else {
      RunLawful(cfg, ops[..|ops| - 1]);
      StepLawful(cfg, Run(cfg, ops[..|ops| - 1]), ops[|ops| - 1]);
    }
  }
}
