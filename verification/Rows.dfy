/** The limiter's own state as values (src/limits.rs): one pruned row per tracked key, and how it ties
    to the ledger that forgets nothing. */
module Rows {
  import opened Addresses
  import opened Ledger
  import opened Queues

  datatype Row = Row(connections: nat, connects: seq<Entry<()>>, dests: seq<Entry<string>>,
                     bytes: seq<Entry<u64>>, bytesSum: u64)

  const EmptyRow := Row(0, [], [], [], 0)

  predicate IsIdle(row: Row) { row.connections == 0 && row.connects == [] && row.dests == [] && row.bytes == [] }

  function PruneRow(row: Row, now: Instant, cfg: LimitsConfig): Row {
    Row(row.connections,
        Fresh(row.connects, now, cfg.connectsPerIpWindow),
        Fresh(row.dests, now, cfg.distinctDestsWindow),
        Fresh(row.bytes, now, cfg.bytesWindow),
        PrunedSum(row.bytes, row.bytesSum, now, cfg.bytesWindow))
  }

  function RowAt(rows: map<IpAddr, Row>, key: IpAddr): Row { if key in rows then rows[key] else EmptyRow }

  // ------------------------------------------------------------ the ledger, key by key

  function AllConnects(a: seq<Attempt>): seq<Entry<()>> {
    if a == [] then [] else AllConnects(a[..|a| - 1]) + [Entry(a[|a| - 1].at, ())]
  }

  function ConnectsOf(a: seq<Attempt>, key: IpAddr): seq<Entry<()>> {
    if a == [] then []
    else
      var last := a[|a| - 1];
      var front := ConnectsOf(a[..|a| - 1], key);
      if last.key == key then front + [Entry(last.at, ())] else front
  }

  function DestsOf(a: seq<Attempt>, key: IpAddr): seq<Entry<string>> {
    if a == [] then []
    else
      var last := a[|a| - 1];
      var front := DestsOf(a[..|a| - 1], key);
      if last.key == key then front + [Entry(last.at, last.dest)] else front
  }

  function BytesOf(c: seq<Charge>, key: IpAddr): seq<Entry<u64>> {
    if c == [] then []
    else
      var last := c[|c| - 1];
      var front := BytesOf(c[..|c| - 1], key);
      if last.key == key then front + [Entry(last.at, last.amount)] else front
  }

  lemma {:induction false} CountAll(a: seq<Attempt>, now: Instant, window: Duration)
    ensures |Fresh(AllConnects(a), now, window)| == |Recent(a, now, window)|
  {
    if a != [] {
      var front, last := a[..|a| - 1], a[|a| - 1];
      CountAll(front, now, window);
      FreshSnoc(AllConnects(front), Entry(last.at, ()), now, window);
      assert Recent(a, now, window)
             == Recent(front, now, window) + (if Expired(last.at, now, window) then {} else {|a| - 1});
    }
  }

  lemma RecentOfSnoc(a: seq<Attempt>, key: IpAddr, now: Instant, window: Duration)
    requires a != []
    ensures var last := a[|a| - 1];
            RecentOf(a, key, now, window)
            == RecentOf(a[..|a| - 1], key, now, window)
               + (if last.key == key && !Expired(last.at, now, window) then {|a| - 1} else {})
  {
  }

  lemma {:induction false} CountOf(a: seq<Attempt>, key: IpAddr, now: Instant, window: Duration)
    ensures |Fresh(ConnectsOf(a, key), now, window)| == |RecentOf(a, key, now, window)|
  {
    if a != [] {
      var front, last := a[..|a| - 1], a[|a| - 1];
      CountOf(front, key, now, window);
      RecentOfSnoc(a, key, now, window);
      if last.key == key { FreshSnoc(ConnectsOf(front, key), Entry(last.at, ()), now, window); }
    }
  }

  function Items<T>(q: seq<Entry<T>>): set<T> { set i | 0 <= i < |q| :: q[i].item }

  lemma ItemsSnoc<T>(q: seq<Entry<T>>, e: Entry<T>)
    ensures Items(q + [e]) == Items(q) + {e.item}
  {
    var r := q + [e];
    assert r[|q|] == e;
    forall x | x in Items(q) ensures x in Items(r) {
      var i :| 0 <= i < |q| && q[i].item == x;
      assert r[i].item == x;
    }
  }

  lemma {:induction false} DestsCounted(a: seq<Attempt>, key: IpAddr, now: Instant, window: Duration)
    ensures Items(Fresh(DestsOf(a, key), now, window)) == RecentDests(a, key, now, window)
    ensures Fresh(DestsOf(a, key), now, window) == [] <==> RecentOf(a, key, now, window) == {}
  {
    if a != [] {
      var front, last := a[..|a| - 1], a[|a| - 1];
      DestsCounted(front, key, now, window);
      RecentOfSnoc(a, key, now, window);
      RecentDestsSnoc(a, key, now, window);
      if last.key == key {
        FreshSnoc(DestsOf(front, key), Entry(last.at, last.dest), now, window);
        ItemsSnoc(Fresh(DestsOf(front, key), now, window), Entry(last.at, last.dest));
      }
    }
  }

  lemma RecentDestsSnoc(a: seq<Attempt>, key: IpAddr, now: Instant, window: Duration)
    requires a != []
    ensures var last := a[|a| - 1];
            RecentDests(a, key, now, window)
            == RecentDests(a[..|a| - 1], key, now, window)
               + (if last.key == key && !Expired(last.at, now, window) then {last.dest} else {})
  {
  }

  lemma RecentChargesSnoc(c: seq<Charge>, key: IpAddr, now: Instant, window: Duration)
    requires c != []
    ensures var last := c[|c| - 1];
            RecentCharges(c, key, now, window)
            == RecentCharges(c[..|c| - 1], key, now, window)
               + (if last.key == key && !Expired(last.at, now, window) then {|c| - 1} else {})
  {
  }

  lemma {:induction false} BytesCounted(c: seq<Charge>, key: IpAddr, now: Instant, window: Duration)
    ensures Sum(Fresh(BytesOf(c, key), now, window)) == RecentBytes(c, key, now, window)
  {
    if c != [] {
      BytesCounted(c[..|c| - 1], key, now, window);
      BytesSnoc(c, key);
      if c[|c| - 1].key == key {
        SumFreshSnoc(BytesOf(c[..|c| - 1], key), Entry(c[|c| - 1].at, c[|c| - 1].amount), now, window);
      }
      RecentBytesSnoc(c, key, now, window);
    }
  }

  lemma BytesSnoc(c: seq<Charge>, key: IpAddr)
    requires c != []
    ensures var front, last := BytesOf(c[..|c| - 1], key), c[|c| - 1];
            BytesOf(c, key) == if last.key == key then front + [Entry(last.at, last.amount)] else front
  {
  }

  lemma RecentBytesSnoc(c: seq<Charge>, key: IpAddr, now: Instant, window: Duration)
    requires c != []
    ensures var last := c[|c| - 1];
            RecentBytes(c, key, now, window)
            == RecentBytes(c[..|c| - 1], key, now, window)
               + if last.key == key && !Expired(last.at, now, window) then last.amount else 0
  {
  }

  lemma {:induction false} ChargesCounted(c: seq<Charge>, key: IpAddr, now: Instant, window: Duration)
    ensures Fresh(BytesOf(c, key), now, window) == [] <==> RecentCharges(c, key, now, window) == {}
  {
    if c != [] {
      var last := c[|c| - 1];
      ChargesCounted(c[..|c| - 1], key, now, window);
      RecentChargesSnoc(c, key, now, window);
      if last.key == key {
        FreshSnoc<u64>(BytesOf(c[..|c| - 1], key), Entry(last.at, last.amount), now, window);
      }
    }
  }

  // ------------------------------------------------------------ one row

  /** The row holds everything of the key's history that can still matter, the live leases, and a
      cached sum that is never too large, and exact unless the cap is `u64::MAX`. */
  ghost predicate RowTied(cfg: LimitsConfig, b: Book, clock: Instant, key: IpAddr, row: Row) {
    && row.connections == |LeasesOf(b.leases, key)|
    && Agrees(row.connects, ConnectsOf(b.attempts, key), clock, cfg.connectsPerIpWindow)
    && Agrees(row.dests, DestsOf(b.attempts, key), clock, cfg.distinctDestsWindow)
    && Agrees(row.bytes, BytesOf(b.charges, key), clock, cfg.bytesWindow)
    && row.bytesSum <= Sum(row.bytes)
    && (cfg.maxBytesPerIp < MaxU64 ==> row.bytesSum == Sum(row.bytes) <= cfg.maxBytesPerIp)
  }

  lemma RowLater(cfg: LimitsConfig, b: Book, clock: Instant, now: Instant, key: IpAddr, row: Row)
    requires RowTied(cfg, b, clock, key, row) && clock <= now
    ensures RowTied(cfg, b, now, key, row)
  {
    AgreesLater(row.connects, ConnectsOf(b.attempts, key), clock, now, cfg.connectsPerIpWindow);
    AgreesLater(row.dests, DestsOf(b.attempts, key), clock, now, cfg.distinctDestsWindow);
    AgreesLater(row.bytes, BytesOf(b.charges, key), clock, now, cfg.bytesWindow);
  }

  lemma RowPruned(cfg: LimitsConfig, b: Book, now: Instant, key: IpAddr, row: Row)
    requires RowTied(cfg, b, now, key, row)
    ensures RowTied(cfg, b, now, key, PruneRow(row, now, cfg))
  {
    AgreesPruned(row.connects, ConnectsOf(b.attempts, key), now, cfg.connectsPerIpWindow);
    AgreesPruned(row.dests, DestsOf(b.attempts, key), now, cfg.distinctDestsWindow);
    AgreesPruned(row.bytes, BytesOf(b.charges, key), now, cfg.bytesWindow);
    PrunedSumBounded(row.bytes, row.bytesSum, now, cfg.bytesWindow);
    if cfg.maxBytesPerIp < MaxU64 { PrunedSumExact(row.bytes, row.bytesSum, now, cfg.bytesWindow); }
  }

  /** A pruned row shows exactly the counts of the ledger. */
  lemma PrunedCounts(cfg: LimitsConfig, b: Book, now: Instant, key: IpAddr, row: Row)
    requires RowTied(cfg, b, now, key, row)
    ensures var p := PruneRow(row, now, cfg);
            && |p.connects| == |RecentOf(b.attempts, key, now, cfg.connectsPerIpWindow)|
            && Items(p.dests) == RecentDests(b.attempts, key, now, cfg.distinctDestsWindow)
            && Sum(p.bytes) == RecentBytes(b.charges, key, now, cfg.bytesWindow)
            && (IsIdle(p) <==> !Active(cfg, b, key, now))
  {
    CountOf(b.attempts, key, now, cfg.connectsPerIpWindow);
    DestsCounted(b.attempts, key, now, cfg.distinctDestsWindow);
    BytesCounted(b.charges, key, now, cfg.bytesWindow);
    ChargesCounted(b.charges, key, now, cfg.bytesWindow);
    NoneLeft(LeasesOf(b.leases, key));
    NoneLeft(RecentOf(b.attempts, key, now, cfg.connectsPerIpWindow));
  }

  lemma NoneLeft<T>(s: set<T>)
    ensures |s| == 0 <==> s == {}
  {
  }

  lemma IdleIsEmpty(cfg: LimitsConfig, b: Book, now: Instant, key: IpAddr, row: Row)
    requires RowTied(cfg, b, now, key, row) && IsIdle(row)
    ensures RowTied(cfg, b, now, key, EmptyRow)
  {
  }

  lemma AttemptSnoc(a: seq<Attempt>, x: Attempt, key: IpAddr)
    ensures AllConnects(a + [x]) == AllConnects(a) + [Entry(x.at, ())]
    ensures ConnectsOf(a + [x], key)
            == if x.key == key then ConnectsOf(a, key) + [Entry(x.at, ())] else ConnectsOf(a, key)
    ensures DestsOf(a + [x], key)
            == if x.key == key then DestsOf(a, key) + [Entry(x.at, x.dest)] else DestsOf(a, key)
  {
    assert (a + [x])[..|a|] == a;
  }

  lemma RowAttempted(cfg: LimitsConfig, b: Book, x: Attempt, key: IpAddr, row: Row)
    requires RowTied(cfg, b, x.at, key, row)
    ensures var b' := b.(attempts := b.attempts + [x]);
            RowTied(cfg, b', x.at, key,
                    if x.key == key
                    then row.(connects := row.connects + [Entry(x.at, ())], dests := row.dests + [Entry(x.at, x.dest)])
                    else row)
  {
    AttemptSnoc(b.attempts, x, key);
    if x.key == key {
      AgreesPushed(row.connects, ConnectsOf(b.attempts, key), Entry(x.at, ()), cfg.connectsPerIpWindow);
      AgreesPushed(row.dests, DestsOf(b.attempts, key), Entry(x.at, x.dest), cfg.distinctDestsWindow);
    }
  }

  lemma RowCharged(cfg: LimitsConfig, b: Book, x: Charge, key: IpAddr, row: Row)
    requires RowTied(cfg, b, x.at, key, row)
    requires x.key == key && cfg.maxBytesPerIp < MaxU64 ==> row.bytesSum + x.amount <= cfg.maxBytesPerIp
    ensures var b' := b.(charges := b.charges + [x]);
            RowTied(cfg, b', x.at, key,
                    if x.key == key
                    then row.(bytes := row.bytes + [Entry(x.at, x.amount)], bytesSum := SatAdd(row.bytesSum, x.amount))
                    else row)
  {
    assert (b.charges + [x])[..|b.charges|] == b.charges;
    BytesSnoc(b.charges + [x], key);
    if x.key == key {
      AgreesPushed(row.bytes, BytesOf(b.charges, key), Entry(x.at, x.amount), cfg.bytesWindow);
      SumSnoc(row.bytes, Entry(x.at, x.amount));
    }
    hide BytesOf, ConnectsOf, DestsOf, Agrees, Sum, LeasesOf;
  }

  // ------------------------------------------------------------ all rows

  function CountAt(perDest: map<string, nat>, dest: string): nat { if dest in perDest then perDest[dest] else 0 }

  /** The whole state agrees with the ledger at `clock`. */
  ghost predicate Tied(cfg: LimitsConfig, b: Book, clock: Instant, globalConnections: nat,
                       globalConnects: seq<Entry<()>>, rows: map<IpAddr, Row>, perDest: map<string, nat>)
  {
    && Lawful(cfg, b)
    && globalConnections == |b.leases|
    && Agrees(globalConnects, AllConnects(b.attempts), clock, cfg.globalConnectsWindow)
    && RowsTied(cfg, b, clock, rows)
    && DestsTied(b, perDest)
  }

  ghost predicate RowsTied(cfg: LimitsConfig, b: Book, clock: Instant, rows: map<IpAddr, Row>) {
    forall key :: RowTied(cfg, b, clock, key, RowAt(rows, key))
  }

  ghost predicate DestsTied(b: Book, perDest: map<string, nat>) {
    && (forall dest :: CountAt(perDest, dest) == |LeasesTo(b.leases, dest)|)
    && forall dest | dest in perDest :: perDest[dest] > 0
  }

  lemma EmptyTied(cfg: LimitsConfig)
    ensures Tied(cfg, EmptyBook, 0, 0, [], map[], map[])
  {
    RunLawful(cfg, []);
    assert forall key :: LeasesOf(map[], key) == {};
    assert forall dest :: LeasesTo(map[], dest) == {};
    forall key ensures RowTied(cfg, EmptyBook, 0, key, RowAt(map[], key)) {
      assert LeasesOf(EmptyBook.leases, key) == {};
    }
  }

  lemma RowsLater(cfg: LimitsConfig, b: Book, clock: Instant, now: Instant, rows: map<IpAddr, Row>)
    requires RowsTied(cfg, b, clock, rows) && clock <= now
    ensures RowsTied(cfg, b, now, rows)
  {
    forall key ensures RowTied(cfg, b, now, key, RowAt(rows, key)) {
      RowLater(cfg, b, clock, now, key, RowAt(rows, key));
    }
  }

  /** The rows while a sweep at `now` has dealt with the keys in `swept`. */
  function Swept(rows: map<IpAddr, Row>, swept: set<IpAddr>, now: Instant, cfg: LimitsConfig): map<IpAddr, Row> {
    map key | key in rows && !(key in swept && IsIdle(PruneRow(rows[key], now, cfg))) ::
      if key in swept then PruneRow(rows[key], now, cfg) else rows[key]
  }

  lemma SweptNothing(rows: map<IpAddr, Row>, now: Instant, cfg: LimitsConfig)
    ensures Swept(rows, {}, now, cfg) == rows
  {
  }

  /** What dealing with one more key does to the rows. */
  lemma SweptAt(rows: map<IpAddr, Row>, swept: set<IpAddr>, key: IpAddr, now: Instant, cfg: LimitsConfig)
    requires key in rows && key !in swept
    ensures var part, p := Swept(rows, swept, now, cfg), PruneRow(rows[key], now, cfg);
            && key in part && part[key] == rows[key]
            && Swept(rows, swept + {key}, now, cfg) == if IsIdle(p) then part[key := p] - {key} else part[key := p]
  {
  }

  /** A full sweep keeps the rows tied, and keeps exactly the active keys. */
  lemma SweepKeepsActive(cfg: LimitsConfig, b: Book, now: Instant, rows: map<IpAddr, Row>)
    requires RowsTied(cfg, b, now, rows)
    ensures var swept := Swept(rows, rows.Keys, now, cfg);
            RowsTied(cfg, b, now, swept) && forall key :: key in swept <==> Active(cfg, b, key, now)
  {
    var swept := Swept(rows, rows.Keys, now, cfg);
    forall key
      ensures RowTied(cfg, b, now, key, RowAt(swept, key))
      ensures key in swept <==> Active(cfg, b, key, now)
    {
      var row := RowAt(rows, key);
      RowPruned(cfg, b, now, key, row);
      PrunedCounts(cfg, b, now, key, row);
      if key in rows && IsIdle(PruneRow(row, now, cfg)) {
        IdleIsEmpty(cfg, b, now, key, PruneRow(row, now, cfg));
      } else if key !in rows {
        assert IsIdle(PruneRow(EmptyRow, now, cfg));
      }
    }
  }

  /** A key that is active at any later time has a row: nothing that still counts is ever dropped. */
  lemma ActiveIsTracked(cfg: LimitsConfig, b: Book, clock: Instant, now: Instant, rows: map<IpAddr, Row>, key: IpAddr)
    requires RowsTied(cfg, b, clock, rows) && clock <= now && Active(cfg, b, key, now)
    ensures key in rows
  {
    RowsLater(cfg, b, clock, now, rows);
    PrunedCounts(cfg, b, now, key, RowAt(rows, key));
    assert IsIdle(PruneRow(EmptyRow, now, cfg));
  }

  ghost predicate SortedRow(row: Row) { Sorted(row.connects) && Sorted(row.dests) && Sorted(row.bytes) }

  lemma TiedSorted(cfg: LimitsConfig, b: Book, now: Instant, rows: map<IpAddr, Row>)
    requires RowsTied(cfg, b, now, rows)
    ensures forall key | key in rows :: SortedRow(rows[key])
  {
    forall key | key in rows ensures SortedRow(rows[key]) {
      assert RowTied(cfg, b, now, key, RowAt(rows, key));
    }
  }

  /** Pruning one row, and dropping it if that leaves it idle, keeps the rows tied. */
  lemma PruneOneTied(cfg: LimitsConfig, b: Book, now: Instant, rows: map<IpAddr, Row>, key: IpAddr)
    requires RowsTied(cfg, b, now, rows) && key in rows
    ensures RowsTied(cfg, b, now, rows[key := PruneRow(rows[key], now, cfg)])
    ensures IsIdle(PruneRow(rows[key], now, cfg)) ==> RowsTied(cfg, b, now, rows - {key})
  {
    var p := PruneRow(rows[key], now, cfg);
    var pruned, without := rows[key := p], rows - {key};
    RowPruned(cfg, b, now, key, rows[key]) by { assert RowTied(cfg, b, now, key, RowAt(rows, key)); }
    forall k ensures RowTied(cfg, b, now, k, RowAt(pruned, k)) {
      assert RowTied(cfg, b, now, k, RowAt(rows, k));
    }
    if IsIdle(p) {
      IdleIsEmpty(cfg, b, now, key, p);
      forall k ensures RowTied(cfg, b, now, k, RowAt(without, k)) {
        assert RowTied(cfg, b, now, k, RowAt(rows, k));
      }
    }
  }

  // ------------------------------------------------------------ what a row shows

  /** From `now` on both tables show the same rows, once pruned. */
  ghost predicate SameFrom(rows: map<IpAddr, Row>, others: map<IpAddr, Row>, now: Instant, cfg: LimitsConfig) {
    forall key, t: Instant | t >= now :: PruneRow(RowAt(rows, key), t, cfg) == PruneRow(RowAt(others, key), t, cfg)
  }

  lemma SameAsSelf(rows: map<IpAddr, Row>, now: Instant, cfg: LimitsConfig)
    ensures SameFrom(rows, rows, now, cfg)
  {
  }

  lemma SameAt(rows: map<IpAddr, Row>, others: map<IpAddr, Row>, now: Instant, t: Instant, key: IpAddr,
               cfg: LimitsConfig)
    requires SameFrom(rows, others, now, cfg) && t >= now
    ensures PruneRow(RowAt(rows, key), t, cfg) == PruneRow(RowAt(others, key), t, cfg)
  {
  }

  lemma PruneTwice(row: Row, early: Instant, late: Instant, cfg: LimitsConfig)
    requires SortedRow(row) && early <= late
    ensures PruneRow(PruneRow(row, early, cfg), late, cfg) == PruneRow(row, late, cfg)
  {
    FreshTwice(row.connects, early, late, cfg.connectsPerIpWindow);
    FreshTwice(row.dests, early, late, cfg.distinctDestsWindow);
    FreshTwice(row.bytes, early, late, cfg.bytesWindow);
    PrunedSumTwice(row.bytes, row.bytesSum, early, late, cfg.bytesWindow);
  }

  /** A sweep changes nothing that shows afterwards. */
  lemma SweptShowsSame(cfg: LimitsConfig, b: Book, now: Instant, rows: map<IpAddr, Row>)
    requires RowsTied(cfg, b, now, rows)
    ensures SameFrom(rows, Swept(rows, rows.Keys, now, cfg), now, cfg)
  {
    var swept := Swept(rows, rows.Keys, now, cfg);
    forall key, t: Instant | t >= now
      ensures PruneRow(RowAt(rows, key), t, cfg) == PruneRow(RowAt(swept, key), t, cfg)
    {
      if key in rows {
        assert RowTied(cfg, b, now, key, RowAt(rows, key));
        RowPruned(cfg, b, now, key, rows[key]);
        IdleIsBlank(cfg, b, now, key, PruneRow(rows[key], now, cfg));
        PruneTwice(rows[key], now, t, cfg);
      }
    }
  }

  lemma IdleIsBlank(cfg: LimitsConfig, b: Book, now: Instant, key: IpAddr, row: Row)
    requires RowTied(cfg, b, now, key, row)
    ensures IsIdle(row) ==> row == EmptyRow
  {
  }

  /** The row that a charge leaves behind. */
  function ChargedRow(row: Row, n: u64, now: Instant, cfg: LimitsConfig): Row {
    var p := PruneRow(row, now, cfg);
    p.(bytes := p.bytes + [Entry(now, n)], bytesSum := SatAdd(p.bytesSum, n))
  }

  /** Everything in the row is from `first` on: `total` bytes, of which the cached sum shows at most
      `u64::MAX`. */
  ghost predicate Saturated(row: Row, first: Instant, total: nat) {
    && (forall k | 0 <= k < |row.bytes| :: first <= row.bytes[k].at)
    && Sum(row.bytes) == total && row.bytesSum == if total > MaxU64 then MaxU64 else total
  }

  /** Charges within one window add up in the queue, and saturate in the cached sum. */
  lemma ChargedInWindow(row: Row, n: u64, now: Instant, cfg: LimitsConfig, first: Instant, total: nat)
    requires Saturated(row, first, total) && first <= now && now - first <= cfg.bytesWindow
    ensures Saturated(ChargedRow(row, n, now, cfg), first, total + n)
  {
    FreshKeepsAll(row.bytes, now, cfg.bytesWindow);
    SumSnoc(row.bytes, Entry(now, n));
  }

  // ------------------------------------------------------------ how each step keeps the state tied

  lemma TiedLater(cfg: LimitsConfig, b: Book, clock: Instant, now: Instant, n: nat, q: seq<Entry<()>>,
                  rows: map<IpAddr, Row>, perDest: map<string, nat>)
    requires Tied(cfg, b, clock, n, q, rows, perDest) && clock <= now
    ensures Tied(cfg, b, now, n, q, rows, perDest)
  {
    RowsLater(cfg, b, clock, now, rows);
    AgreesLater(q, AllConnects(b.attempts), clock, now, cfg.globalConnectsWindow);
  }

  lemma TiedGlobalPruned(cfg: LimitsConfig, b: Book, now: Instant, n: nat, q: seq<Entry<()>>,
                         rows: map<IpAddr, Row>, perDest: map<string, nat>)
    requires Tied(cfg, b, now, n, q, rows, perDest)
    ensures var q' := Fresh(q, now, cfg.globalConnectsWindow);
            && Sorted(q) && Tied(cfg, b, now, n, q', rows, perDest)
            && |q'| == |Recent(b.attempts, now, cfg.globalConnectsWindow)|
  {
    AgreesPruned(q, AllConnects(b.attempts), now, cfg.globalConnectsWindow);
    CountAll(b.attempts, now, cfg.globalConnectsWindow);
  }

  lemma TiedSwept(cfg: LimitsConfig, b: Book, now: Instant, n: nat, q: seq<Entry<()>>,
                  rows: map<IpAddr, Row>, perDest: map<string, nat>)
    requires Tied(cfg, b, now, n, q, rows, perDest)
    ensures var swept := Swept(rows, rows.Keys, now, cfg);
            && (forall key | key in rows :: SortedRow(rows[key]))
            && Tied(cfg, b, now, n, q, swept, perDest)
            && SameFrom(rows, swept, now, cfg)
            && forall key :: key in swept <==> Active(cfg, b, key, now)
  {
    SweepKeepsActive(cfg, b, now, rows);
    SweptShowsSame(cfg, b, now, rows);
    TiedSorted(cfg, b, now, rows);
  }

  lemma TiedActive(cfg: LimitsConfig, b: Book, now: Instant, n: nat, q: seq<Entry<()>>,
                   rows: map<IpAddr, Row>, perDest: map<string, nat>, key: IpAddr)
    requires Tied(cfg, b, now, n, q, rows, perDest) && Active(cfg, b, key, now)
    ensures key in rows
  {
    ActiveIsTracked(cfg, b, now, now, rows, key);
  }

  /** `entry(key).or_default()`. */
  lemma TiedEntry(cfg: LimitsConfig, b: Book, now: Instant, n: nat, q: seq<Entry<()>>,
                  rows: map<IpAddr, Row>, perDest: map<string, nat>, key: IpAddr)
    requires Tied(cfg, b, now, n, q, rows, perDest)
    ensures Tied(cfg, b, now, n, q, rows[key := RowAt(rows, key)], perDest)
    ensures SortedRow(RowAt(rows, key)) && RowAt(rows, key).connections == |LeasesOf(b.leases, key)|
  {
    var rows' := rows[key := RowAt(rows, key)];
    assert RowTied(cfg, b, now, key, RowAt(rows, key));
    forall k ensures RowTied(cfg, b, now, k, RowAt(rows', k)) {
      assert RowTied(cfg, b, now, k, RowAt(rows, k));
    }
  }

  lemma TiedPrunedAt(cfg: LimitsConfig, b: Book, now: Instant, n: nat, q: seq<Entry<()>>,
                     rows: map<IpAddr, Row>, perDest: map<string, nat>, key: IpAddr)
    requires Tied(cfg, b, now, n, q, rows, perDest) && key in rows
    ensures SortedRow(rows[key])
    ensures var p := PruneRow(rows[key], now, cfg);
            && Tied(cfg, b, now, n, q, rows[key := p], perDest)
            && |p.connects| == |RecentOf(b.attempts, key, now, cfg.connectsPerIpWindow)|
            && Items(p.dests) == RecentDests(b.attempts, key, now, cfg.distinctDestsWindow)
            && (cfg.maxBytesPerIp < MaxU64 ==> p.bytesSum == RecentBytes(b.charges, key, now, cfg.bytesWindow))
            && (IsIdle(p) <==> !Active(cfg, b, key, now))
            && (IsIdle(p) ==> Tied(cfg, b, now, n, q, rows - {key}, perDest))
  {
    assert RowTied(cfg, b, now, key, RowAt(rows, key));
    PruneOneTied(cfg, b, now, rows, key);
    PrunedCounts(cfg, b, now, key, rows[key]);
    RowPruned(cfg, b, now, key, rows[key]);
  }

  lemma TiedAttempt(cfg: LimitsConfig, b: Book, x: Attempt, n: nat, q: seq<Entry<()>>,
                    rows: map<IpAddr, Row>, perDest: map<string, nat>)
    requires Tied(cfg, b, x.at, n, q, rows, perDest) && x.key in rows
    requires RateError(cfg, b.attempts, x.key, x.dest, x.at).None?
    ensures var row := rows[x.key];
            var row' := row.(connects := row.connects + [Entry(x.at, ())], dests := row.dests + [Entry(x.at, x.dest)]);
            Tied(cfg, b.(attempts := b.attempts + [x]), x.at, n, q + [Entry(x.at, ())], rows[x.key := row'], perDest)
  {
    var row := rows[x.key];
    var row' := row.(connects := row.connects + [Entry(x.at, ())], dests := row.dests + [Entry(x.at, x.dest)]);
    var b' := b.(attempts := b.attempts + [x]);
    var rows' := rows[x.key := row'];
    AgreesPushed(q, AllConnects(b.attempts), Entry(x.at, ()), cfg.globalConnectsWindow);
    AttemptSnoc(b.attempts, x, x.key);
    AdmittedSnoc(cfg, b.attempts, x);
    hide RowTied, Agrees, RateError, LawfulAttempts, LawfulCharges, LawfulLeases;
    RowsAttempted(cfg, b, x, rows);
    hide RowsTied;
    LeasesAlone(cfg, b, b');
    DestsAlone(b, b', perDest);
    hide DestsTied;
  }

  lemma RowsAttempted(cfg: LimitsConfig, b: Book, x: Attempt, rows: map<IpAddr, Row>)
    requires RowsTied(cfg, b, x.at, rows) && x.key in rows
    ensures var row := rows[x.key];
            var row' := row.(connects := row.connects + [Entry(x.at, ())], dests := row.dests + [Entry(x.at, x.dest)]);
            RowsTied(cfg, b.(attempts := b.attempts + [x]), x.at, rows[x.key := row'])
  {
    var row := rows[x.key];
    var row' := row.(connects := row.connects + [Entry(x.at, ())], dests := row.dests + [Entry(x.at, x.dest)]);
    var b', rows' := b.(attempts := b.attempts + [x]), rows[x.key := row'];
    hide RowTied;
    forall key ensures RowTied(cfg, b', x.at, key, RowAt(rows', key)) {
      assert RowTied(cfg, b, x.at, key, RowAt(rows, key));
      RowAttempted(cfg, b, x, key, RowAt(rows, key));
    }
  }

  lemma DestsAlone(b: Book, c: Book, perDest: map<string, nat>)
    requires DestsTied(b, perDest) && b.leases == c.leases
    ensures DestsTied(c, perDest)
  {
  }

  /** The laws about leases are about leases only. */
  lemma LeasesAlone(cfg: LimitsConfig, b: Book, c: Book)
    requires LawfulLeases(cfg, b) && b.leases == c.leases && b.nextLease == c.nextLease
    ensures LawfulLeases(cfg, c)
  {
  }

  lemma TiedCharge(cfg: LimitsConfig, b: Book, x: Charge, n: nat, q: seq<Entry<()>>,
                   rows: map<IpAddr, Row>, perDest: map<string, nat>)
    requires Tied(cfg, b, x.at, n, q, rows, perDest) && x.key in rows && x.amount > 0
    requires ChargeError(cfg, b.charges, x.key, x.amount, x.at).None?
    requires cfg.maxBytesPerIp < MaxU64 ==> rows[x.key].bytesSum + x.amount <= cfg.maxBytesPerIp
    ensures var row := rows[x.key];
            var row' := row.(bytes := row.bytes + [Entry(x.at, x.amount)], bytesSum := SatAdd(row.bytesSum, x.amount));
            Tied(cfg, b.(charges := b.charges + [x]), x.at, n, q, rows[x.key := row'], perDest)
  {
    var row := rows[x.key];
    var row' := row.(bytes := row.bytes + [Entry(x.at, x.amount)], bytesSum := SatAdd(row.bytesSum, x.amount));
    var b' := b.(charges := b.charges + [x]);
    var rows' := rows[x.key := row'];
    forall key ensures RowTied(cfg, b', x.at, key, RowAt(rows', key)) {
      assert RowTied(cfg, b, x.at, key, RowAt(rows, key));
      RowCharged(cfg, b, x, key, RowAt(rows, key));
    }
    PaidSnoc(cfg, b.charges, x);
  }

  lemma RowLeased(cfg: LimitsConfig, b: Book, clock: Instant, id: nat, lease: Lease, key: IpAddr, row: Row)
    requires RowTied(cfg, b, clock, key, row) && id !in b.leases
    ensures var b' := b.(leases := b.leases[id := lease], nextLease := id + 1);
            RowTied(cfg, b', clock, key,
                    if key == lease.key then row.(connections := row.connections + 1) else row)
  {
    LeaseAdded(b.leases, id, lease, key, "");
    hide LeasesOf, Agrees, Sum, ConnectsOf, DestsOf, BytesOf;
  }

  lemma DestsLeased(b: Book, id: nat, lease: Lease, perDest: map<string, nat>)
    requires DestsTied(b, perDest) && id !in b.leases
    ensures var b' := b.(leases := b.leases[id := lease], nextLease := id + 1);
            DestsTied(b', perDest[lease.dest := CountAt(perDest, lease.dest) + 1])
  {
    var b' := b.(leases := b.leases[id := lease], nextLease := id + 1);
    var perDest' := perDest[lease.dest := CountAt(perDest, lease.dest) + 1];
    forall dest ensures CountAt(perDest', dest) == |LeasesTo(b'.leases, dest)| {
      LeaseAdded(b.leases, id, lease, lease.key, dest);
      assert CountAt(perDest, dest) == |LeasesTo(b.leases, dest)|;
    }
  }

  lemma LeaseTied(cfg: LimitsConfig, b: Book, clock: Instant, id: nat, lease: Lease,
                  rows: map<IpAddr, Row>, perDest: map<string, nat>)
    requires RowsTied(cfg, b, clock, rows) && DestsTied(b, perDest) && id !in b.leases && lease.key in rows
    ensures var b' := b.(leases := b.leases[id := lease], nextLease := id + 1);
            var row := rows[lease.key];
            && RowsTied(cfg, b', clock, rows[lease.key := row.(connections := row.connections + 1)])
            && DestsTied(b', perDest[lease.dest := CountAt(perDest, lease.dest) + 1])
  {
    var b' := b.(leases := b.leases[id := lease], nextLease := id + 1);
    var row := rows[lease.key];
    var rows' := rows[lease.key := row.(connections := row.connections + 1)];
    DestsLeased(b, id, lease, perDest);
    hide RowTied, DestsTied;
    forall key ensures RowTied(cfg, b', clock, key, RowAt(rows', key)) {
      assert RowTied(cfg, b, clock, key, RowAt(rows, key));
      RowLeased(cfg, b, clock, id, lease, key, RowAt(rows, key));
    }
  }

  lemma TiedLease(cfg: LimitsConfig, b: Book, clock: Instant, n: nat, q: seq<Entry<()>>,
                  rows: map<IpAddr, Row>, perDest: map<string, nat>, key: IpAddr, dest: string)
    requires Tied(cfg, b, clock, n, q, rows, perDest) && key in rows && AcquireError(cfg, b, key, dest).None?
    ensures var row := rows[key];
            Tied(cfg, AfterAcquire(cfg, b, key, dest), clock, n + 1, q,
                 rows[key := row.(connections := row.connections + 1)],
                 perDest[dest := CountAt(perDest, dest) + 1])
  {
    LeaseTied(cfg, b, clock, b.nextLease, Lease(key, dest), rows, perDest);
    LeaseAdded(b.leases, b.nextLease, Lease(key, dest), key, dest);
    AcquireLawful(cfg, b, key, dest);
  }

  /** A live lease has a row and a destination count to give back: no decrement saturates. */
  lemma LeaseCounted(cfg: LimitsConfig, b: Book, clock: Instant, id: nat,
                     rows: map<IpAddr, Row>, perDest: map<string, nat>)
    requires RowsTied(cfg, b, clock, rows) && DestsTied(b, perDest) && id in b.leases
    ensures var lease := b.leases[id];
            && lease.key in rows && rows[lease.key].connections > 0
            && lease.dest in perDest && perDest[lease.dest] > 0 && |b.leases| > 0
  {
    var lease := b.leases[id];
    assert id in LeasesOf(b.leases, lease.key) && id in LeasesTo(b.leases, lease.dest);
    assert RowTied(cfg, b, clock, lease.key, RowAt(rows, lease.key));
    assert CountAt(perDest, lease.dest) == |LeasesTo(b.leases, lease.dest)|;
  }

  lemma UnleaseTied(cfg: LimitsConfig, b: Book, clock: Instant, id: nat,
                    rows: map<IpAddr, Row>, perDest: map<string, nat>, perDest': map<string, nat>)
    requires RowsTied(cfg, b, clock, rows) && DestsTied(b, perDest) && id in b.leases && b.leases[id].key in rows
    requires var dest := b.leases[id].dest;
             && (forall d | d != dest :: CountAt(perDest', d) == CountAt(perDest, d))
             && CountAt(perDest', dest) == CountAt(perDest, dest) - 1
             && forall d | d in perDest' :: perDest'[d] > 0
    ensures var b' := AfterRelease(b, id);
            var row := rows[b.leases[id].key];
            && row.connections > 0
            && RowsTied(cfg, b', clock, rows[b.leases[id].key := row.(connections := row.connections - 1)])
            && DestsTied(b', perDest')
  {
    var lease, b' := b.leases[id], AfterRelease(b, id);
    LeaseCounted(cfg, b, clock, id, rows, perDest);
    var row := rows[lease.key];
    var rows' := rows[lease.key := row.(connections := row.connections - 1)];
    forall key ensures RowTied(cfg, b', clock, key, RowAt(rows', key)) {
      LeaseRemoved(b.leases, id, key, "");
      assert RowTied(cfg, b, clock, key, RowAt(rows, key));
    }
    forall dest ensures CountAt(perDest', dest) == |LeasesTo(b'.leases, dest)| {
      LeaseRemoved(b.leases, id, lease.key, dest);
      assert CountAt(perDest, dest) == |LeasesTo(b.leases, dest)|;
    }
  }

  lemma TiedUnlease(cfg: LimitsConfig, b: Book, clock: Instant, n: nat, q: seq<Entry<()>>, id: nat,
                    rows: map<IpAddr, Row>, perDest: map<string, nat>)
    requires Tied(cfg, b, clock, n, q, rows, perDest) && id in b.leases
    ensures var lease := b.leases[id];
            && n > 0 && lease.key in rows && rows[lease.key].connections > 0
            && lease.dest in perDest && perDest[lease.dest] > 0
            && var row, left := rows[lease.key], perDest[lease.dest] - 1;
               Tied(cfg, AfterRelease(b, id), clock, n - 1, q,
                    rows[lease.key := row.(connections := row.connections - 1)],
                    if left == 0 then perDest - {lease.dest} else perDest[lease.dest := left])
  {
    var lease := b.leases[id];
    LeaseCounted(cfg, b, clock, id, rows, perDest);
    var left := perDest[lease.dest] - 1;
    var perDest' := if left == 0 then perDest - {lease.dest} else perDest[lease.dest := left];
    UnleaseTied(cfg, b, clock, id, rows, perDest, perDest');
    LeaseRemoved(b.leases, id, lease.key, lease.dest);
    ReleaseLawful(cfg, b, id);
  }

  // ------------------------------------------------------------ conservation

  function SumOver(rows: map<IpAddr, Row>, keys: seq<IpAddr>): nat {
    if keys == [] then 0 else SumOver(rows, keys[..|keys| - 1]) + RowAt(rows, keys[|keys| - 1]).connections
  }

  function LeasesIn(leases: map<nat, Lease>, keys: seq<IpAddr>): set<nat> {
    set id | id in leases && leases[id].key in keys
  }

  lemma {:induction false} SumIsLeases(cfg: LimitsConfig, b: Book, clock: Instant, rows: map<IpAddr, Row>,
                                       keys: seq<IpAddr>)
    requires RowsTied(cfg, b, clock, rows) && Distinct(keys)
    ensures SumOver(rows, keys) == |LeasesIn(b.leases, keys)|
  {
    if keys != [] {
      var front, last := keys[..|keys| - 1], keys[|keys| - 1];
      SumIsLeases(cfg, b, clock, rows, front);
      assert RowTied(cfg, b, clock, last, RowAt(rows, last));
      assert keys == front + [last] && last !in front;
      hide RowTied, RowsTied, Distinct;
      LeasesInOneMore(b.leases, front, last);
    }
  }

  lemma LeasesInOneMore(leases: map<nat, Lease>, front: seq<IpAddr>, last: IpAddr)
    requires last !in front
    ensures LeasesIn(leases, front + [last]) == LeasesIn(leases, front) + LeasesOf(leases, last)
    ensures LeasesIn(leases, front) !! LeasesOf(leases, last)
  {
  }

  function SumOfDests(perDest: map<string, nat>, dests: seq<string>): nat {
    if dests == [] then 0 else SumOfDests(perDest, dests[..|dests| - 1]) + CountAt(perDest, dests[|dests| - 1])
  }

  function LeasesToAny(leases: map<nat, Lease>, dests: seq<string>): set<nat> {
    set id | id in leases && leases[id].dest in dests
  }

  lemma {:induction false} SumIsLeasesTo(b: Book, perDest: map<string, nat>, dests: seq<string>)
    requires DestsTied(b, perDest) && Distinct(dests)
    ensures SumOfDests(perDest, dests) == |LeasesToAny(b.leases, dests)|
  {
    if dests != [] {
      var front, last := dests[..|dests| - 1], dests[|dests| - 1];
      SumIsLeasesTo(b, perDest, front);
      assert CountAt(perDest, last) == |LeasesTo(b.leases, last)|;
      assert dests == front + [last] && last !in front;
      hide DestsTied, Distinct;
      LeasesToOneMore(b.leases, front, last);
    }
  }

  lemma LeasesToOneMore(leases: map<nat, Lease>, front: seq<string>, last: string)
    requires last !in front
    ensures LeasesToAny(leases, front + [last]) == LeasesToAny(leases, front) + LeasesTo(leases, last)
    ensures LeasesToAny(leases, front) !! LeasesTo(leases, last)
  {
  }

  /** The global counter, the per-key counters and the per-destination counters all total the live
      leases, whatever order the tables are added up in. */
  lemma Conservation(cfg: LimitsConfig, b: Book, clock: Instant, globalConnections: nat,
                     globalConnects: seq<Entry<()>>, rows: map<IpAddr, Row>, perDest: map<string, nat>,
                     keys: seq<IpAddr>, dests: seq<string>)
    requires Tied(cfg, b, clock, globalConnections, globalConnects, rows, perDest)
    requires Distinct(keys) && forall key :: key in keys <==> key in rows
    requires Distinct(dests) && forall dest :: dest in dests <==> dest in perDest
    ensures globalConnections == SumOver(rows, keys) == SumOfDests(perDest, dests) == |b.leases|
  {
    SumIsLeases(cfg, b, clock, rows, keys);
    SumIsLeasesTo(b, perDest, dests);
    forall id | id in b.leases
      ensures b.leases[id].key in keys && b.leases[id].dest in dests
    {
      var lease := b.leases[id];
      assert id in LeasesOf(b.leases, lease.key) && id in LeasesTo(b.leases, lease.dest);
      assert RowTied(cfg, b, clock, lease.key, RowAt(rows, lease.key));
      assert CountAt(perDest, lease.dest) == |LeasesTo(b.leases, lease.dest)|;
    }
    assert LeasesIn(b.leases, keys) == b.leases.Keys == LeasesToAny(b.leases, dests);
  }
}
