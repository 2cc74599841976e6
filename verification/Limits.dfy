/** The limiter itself (src/limits.rs): rows that are updated in place, pruned lazily and dropped when
    idle. Every method runs under the lock, so each is one step; its contract is the step the ledger that
    forgets nothing would take. */
module Limits {
  import opened Addresses
  import opened Ledger
  import opened Queues
  import opened Rows
  import opened Wrappers

  /** 30 seconds, in nanoseconds. */
  const GcInterval: Duration := 30_000_000_000
  const GcRows: nat := 10_000

  /** `saturating_sub(1)`. */
  function SatDec(n: nat): nat { if n == 0 then 0 else n - 1 }

  /** `prune_instants`. */
  method PruneInstants(q: seq<Entry<()>>, now: Instant, window: Duration) returns (r: seq<Entry<()>>)
    requires Sorted(q)
    ensures r == Fresh(q, now, window)
  {
    r := q;
    while r != [] && Expired(r[0].at, now, window)
      invariant Sorted(r) && Fresh(r, now, window) == Fresh(q, now, window)
      decreases |r|
    {
      FreshDropsFirst(r, now, window);
      r := r[1..];
    }
    FreshKeepsAll(r, now, window);
  }

  /** A call for `key` creates at most its row, and not beyond the larger of the rows before and the cap. */
  predicate RowsBounded(before: set<IpAddr>, after: set<IpAddr>, key: IpAddr, cap: nat) {
    after <= before + {key} && (cap != 0 ==> |after| <= |before| || |after| <= cap)
  }

  lemma RoomBounds(before: set<IpAddr>, keys: set<IpAddr>, key: IpAddr, cap: nat)
    requires keys <= before
    ensures RowsBounded(before, keys, key, cap)
    ensures key in keys || cap == 0 || |keys| < cap ==> RowsBounded(before, keys + {key}, key, cap)
  {
    SubsetSize(keys, before);
    if key in keys { assert keys + {key} == keys; }
  }

  class IpState {
    var connections: nat
    var connects: seq<Entry<()>>
    var dests: seq<Entry<string>>
    var bytes: seq<Entry<u64>>
    var bytesSum: u64

    ghost function View(): Row
      reads this
    {
      Row(connections, connects, dests, bytes, bytesSum)
    }

    constructor ()
      ensures View() == EmptyRow
    {
      connections, connects, dests, bytes, bytesSum := 0, [], [], [], 0;
    }

    predicate Idle()
      reads this
      ensures Idle() <==> IsIdle(View())
    {
      connections == 0 && connects == [] && dests == [] && bytes == []
    }

    /** Popping the expired front of sorted queues leaves exactly the fresh entries. */
    method Prune(now: Instant, cfg: LimitsConfig)
      requires Sorted(connects) && Sorted(dests) && Sorted(bytes)
      modifies this
      ensures View() == PruneRow(old(View()), now, cfg)
    {
      connects := PruneInstants(connects, now, cfg.connectsPerIpWindow);
      PruneDests(now, cfg);
      PruneBytes(now, cfg);
    }

    method PruneDests(now: Instant, cfg: LimitsConfig)
      requires Sorted(dests)
      modifies this`dests
      ensures dests == Fresh(old(dests), now, cfg.distinctDestsWindow)
    {
      var w := cfg.distinctDestsWindow;
      while dests != [] && Expired(dests[0].at, now, w)
        invariant Sorted(dests) && Fresh(dests, now, w) == Fresh(old(dests), now, w)
        decreases |dests|
      {
        FreshDropsFirst(dests, now, w);
        dests := dests[1..];
      }
      FreshKeepsAll(dests, now, w);
    }

    method PruneBytes(now: Instant, cfg: LimitsConfig)
      requires Sorted(bytes)
      modifies this`bytes, this`bytesSum
      ensures bytes == Fresh(old(bytes), now, cfg.bytesWindow)
      ensures bytesSum == PrunedSum(old(bytes), old(bytesSum), now, cfg.bytesWindow)
    {
      var w := cfg.bytesWindow;
      while bytes != [] && Expired(bytes[0].at, now, w)
        invariant Sorted(bytes) && Fresh(bytes, now, w) == Fresh(old(bytes), now, w)
        invariant PrunedSum(bytes, bytesSum, now, w) == PrunedSum(old(bytes), old(bytesSum), now, w)
        decreases |bytes|
      {
        FreshDropsFirst(bytes, now, w);
        bytesSum := SatSub(bytesSum, bytes[0].item);
        bytes := bytes[1..];
      }
      FreshKeepsAll(bytes, now, w);
    }
  }

  /** A slot reserved by `Acquire`, given back once. */
  class ConnectionLease {
    const state: LimitState
    const ip: IpAddr
    const dest: string
    ghost const id: nat

    constructor (state: LimitState, ip: IpAddr, dest: string, ghost id: nat)
      ensures this.state == state && this.ip == ip && this.dest == dest && this.id == id
    {
      this.state, this.ip, this.dest, this.id := state, ip, dest, id;
    }

    ghost predicate Live()
      reads state
    {
      id in state.past.leases && state.past.leases[id] == Lease(ip, dest)
    }

    /** `drop`. */
    method Drop()
      requires state.Valid() && Live()
      modifies state.Repr
      ensures state.Valid() && fresh(state.Repr - old(state.Repr)) && state.clock >= old(state.clock)
      ensures state.past == AfterRelease(old(state.past), id) && state.perIp.Keys <= old(state.perIp.Keys)
    {
      state.Release(ip, dest, id);
    }
  }

  class LimitState {
    const cfg: LimitsConfig
    var globalConnections: nat
    var globalConnects: seq<Entry<()>>
    var perIp: map<IpAddr, IpState>
    var perDest: map<string, nat>
    var lastGc: Instant
    /** The monotonic clock, as last read under the lock. */
    var clock: Instant

    /** Everything that ever happened. */
    ghost var past: Book
    ghost var Repr: set<object>

    ghost predicate Shape()
      reads this`perIp, this`Repr
    {
      && this in Repr
      && (forall k | k in perIp :: perIp[k] in Repr)
      && forall j, k | j in perIp && k in perIp && j != k :: perIp[j] != perIp[k]
    }

    ghost function RowMap(): map<IpAddr, Row>
      requires Shape()
      reads this`perIp, this`Repr, perIp.Values
    {
      map k | k in perIp :: perIp[k].View()
    }

    ghost predicate Valid()
      reads this, Repr, perIp.Values
    {
      && Shape() && lastGc <= clock
      && Tied(cfg, past, clock, globalConnections, globalConnects, RowMap(), perDest)
    }

    constructor (cfg: LimitsConfig)
      ensures Valid() && fresh(Repr) && this.cfg == cfg && past == EmptyBook && perIp == map[]
    {
      this.cfg := cfg;
      globalConnections, globalConnects, perIp, perDest := 0, [], map[], map[];
      lastGc, clock := 0, 0;
      past, Repr := EmptyBook, {this};
      new;
      EmptyTied(cfg);
      assert RowMap() == map[];
    }

    /** Reading the clock: it has advanced by any amount. */
    method Now() returns (now: Instant)
      requires Valid()
      modifies this`clock
      ensures Valid() && now == clock >= old(clock) && RowMap() == old(RowMap())
    {
      hide Rows.Tied;
      var elapsed: nat :| true;
      ghost var rows := RowMap();
      now := clock + elapsed;
      TiedLater(cfg, past, clock, now, globalConnections, globalConnects, rows, perDest);
      clock := now;
      assert RowMap() == rows;
    }

    method PruneGlobal(now: Instant)
      requires Valid() && now == clock
      modifies this`globalConnects
      ensures Valid() && RowMap() == old(RowMap())
      ensures |globalConnects| == |Recent(past.attempts, now, cfg.globalConnectsWindow)|
    {
      hide Rows.Tied;
      ghost var rows := RowMap();
      TiedGlobalPruned(cfg, past, now, globalConnections, globalConnects, rows, perDest);
      globalConnects := PruneInstants(globalConnects, now, cfg.globalConnectsWindow);
      assert RowMap() == rows;
    }

    /** The rows are the views of the objects, and these are all different. */
    lemma RowsAre(key: IpAddr)
      requires Shape() && key in perIp
      ensures RowMap().Keys == perIp.Keys && forall k | k in perIp :: RowMap()[k] == perIp[k].View()
      ensures forall k | k in perIp && k != key :: perIp[k] != perIp[key]
    {
    }

    /** One row has become `row`, and the counters have followed. */
    lemma NowValid(rows: map<IpAddr, Row>, key: IpAddr, row: Row)
      requires Shape() && lastGc <= clock && key in perIp && rows.Keys == perIp.Keys && perIp[key].View() == row
      requires forall k | k in perIp && k != key :: perIp[k].View() == rows[k]
      requires Tied(cfg, past, clock, globalConnections, globalConnects, rows[key := row], perDest)
      ensures Valid() && RowMap() == rows[key := row]
    {
      OneRowChanged(rows, key);
    }

    lemma OneRowChanged(rows: map<IpAddr, Row>, key: IpAddr)
      requires Shape() && key in perIp && rows.Keys == perIp.Keys
      requires forall k | k in perIp && k != key :: perIp[k].View() == rows[k]
      ensures RowMap() == rows[key := perIp[key].View()]
    {
    }

    /** Prunes the row of `key` where it stands. */
    method PruneAt(key: IpAddr, now: Instant)
      requires Shape() && key in perIp && SortedRow(RowMap()[key])
      modifies perIp[key]
      ensures Shape() && RowMap() == old(RowMap())[key := PruneRow(old(RowMap())[key], now, cfg)]
    {
      ghost var rows := RowMap();
      RowsAre(key);
      hide Shape, RowMap;
      perIp[key].Prune(now, cfg);
      OneRowChanged(rows, key);
    }

    method Forget(key: IpAddr)
      requires Shape()
      modifies this`perIp
      ensures Shape() && perIp == old(perIp) - {key} && RowMap() == old(RowMap()) - {key}
    {
      ghost var rows := RowMap();
      perIp := perIp - {key};
      assert RowMap() == rows - {key};
    }

    /** What `retain` does with one key. */
    method RetainAt(key: IpAddr, now: Instant)
      requires Shape() && key in perIp && SortedRow(RowMap()[key])
      modifies this`perIp, perIp[key]
      ensures Shape()
      ensures var rows, p := old(RowMap()), PruneRow(old(RowMap())[key], now, cfg);
              RowMap() == if IsIdle(p) then rows[key := p] - {key} else rows[key := p]
    {
      PruneAt(key, now);
      assert perIp[key].View() == RowMap()[key];
      if perIp[key].Idle() {
        Forget(key);
      }
    }

    /** `retain`: every row is pruned, and dropped if that leaves it idle. */
    method RetainBusy(now: Instant)
      requires Shape() && forall k | k in perIp :: SortedRow(RowMap()[k])
      modifies this`perIp, Repr - {this}
      ensures Shape() && RowMap() == Swept(old(RowMap()), old(RowMap()).Keys, now, cfg)
    {
      hide Rows.Swept, Rows.PruneRow;
      ghost var rows := RowMap();
      var todo := perIp.Keys;
      SweptNothing(rows, now, cfg);
      ghost var done: set<IpAddr> := {};
      while todo != {}
        invariant Shape() && todo !! done && todo + done == rows.Keys
        invariant RowMap() == Swept(rows, done, now, cfg)
        decreases todo
      {
        var k :| k in todo;
        SweptAt(rows, done, k, now, cfg);
        assert k in RowMap();
        RetainAt(k, now);
        todo, done := todo - {k}, done + {k};
      }
      assert done == rows.Keys;
    }

    method SweepRows(now: Instant)
      requires Valid() && now == clock
      modifies this`perIp, Repr - {this}
      ensures Valid() && perIp.Keys <= old(perIp.Keys) && SameFrom(old(RowMap()), RowMap(), now, cfg)
      ensures forall key :: key in perIp <==> Active(cfg, past, key, now)
    {
      hide Rows.Tied, Rows.SameFrom, Ledger.Active;
      ghost var rows := RowMap();
      TiedSwept(cfg, past, now, globalConnections, globalConnects, rows, perDest);
      RetainBusy(now);
      assert perIp.Keys == RowMap().Keys <= rows.Keys;
    }

    /** The sweep keeps exactly the keys with a live lease or an event within its window. */
    method GcIdle(now: Instant)
      requires Valid() && now == clock
      modifies Repr
      ensures Valid() && Repr == old(Repr) && past == old(past) && clock == old(clock) && lastGc == now
      ensures forall key :: key in perIp <==> Active(cfg, past, key, now)
      ensures perIp.Keys <= old(perIp.Keys) && SameFrom(old(RowMap()), RowMap(), now, cfg)
      ensures |globalConnects| == |Recent(past.attempts, now, cfg.globalConnectsWindow)|
    {
      hide Rows.Tied, Rows.SameFrom, Ledger.Active, Ledger.Recent;
      PruneGlobal(now);
      SweepRows(now);
      lastGc := now;
    }

    ghost predicate GcDue(now: Instant)
      reads this
    {
      now - lastGc >= GcInterval || |perIp| >= GcRows
    }

    /** Whether `key` still has a row once a collection due at `now` is done. */
    ghost predicate Tracks(key: IpAddr, now: Instant)
      reads this
    {
      key in perIp && (GcDue(now) ==> Active(cfg, past, key, now))
    }

    method MaybeGc(now: Instant)
      requires Valid() && now == clock
      modifies Repr
      ensures Valid() && Repr == old(Repr) && past == old(past) && clock == old(clock)
      ensures forall key :: key in perIp <==> old(Tracks(key, now))
      ensures SameFrom(old(RowMap()), RowMap(), now, cfg)
      ensures lastGc == if old(now >= lastGc + 30_000_000_000 || |perIp| >= 10_000) then now else old(lastGc)
    {
      SameAsSelf(RowMap(), now, cfg);
      hide Rows.Tied, Rows.SameFrom;
      var overdue := now - lastGc >= GcInterval;
      var large := |perIp| >= GcRows;
      if overdue || large {
        GcIdle(now);
      }
    }

    /** `entry(key).or_default()`. */
    method EntryOf(key: IpAddr) returns (st: IpState)
      requires Valid()
      modifies this`perIp, this`Repr
      ensures Valid() && fresh(Repr - old(Repr)) && old(Repr) <= Repr
      ensures key in perIp && st == perIp[key] && perIp.Keys == old(perIp.Keys) + {key}
      ensures RowMap() == old(RowMap())[key := RowAt(old(RowMap()), key)]
      ensures st.connections == |LeasesOf(past.leases, key)|
    {
      hide Rows.Tied, Ledger.LeasesOf;
      ghost var rows := RowMap();
      TiedEntry(cfg, past, clock, globalConnections, globalConnects, rows, perDest, key);
      if key !in perIp {
        AddRow(key);
      }
      assert RowMap() == rows[key := RowAt(rows, key)];
      hide Shape;
      st := perIp[key];
      assert RowMap()[key] == st.View();
    }

    method AddRow(key: IpAddr)
      requires Shape() && key !in perIp
      modifies this`perIp, this`Repr
      ensures Shape() && fresh(Repr - old(Repr)) && old(Repr) <= Repr && perIp.Keys == old(perIp.Keys) + {key}
      ensures RowMap() == old(RowMap())[key := EmptyRow]
    {
      ghost var rows := RowMap();
      var st := new IpState();
      perIp := perIp[key := st];
      Repr := Repr + {st};
      assert RowMap() == rows[key := EmptyRow];
    }

    /** The row of `key`, created if missing and pruned: it shows exactly the ledger's counts. */
    method PrunedEntry(key: IpAddr, now: Instant) returns (st: IpState)
      requires Valid() && now == clock
      modifies Repr
      ensures Valid() && fresh(Repr - old(Repr)) && old(Repr) <= Repr
      ensures past == old(past) && clock == old(clock) && lastGc == old(lastGc)
      ensures key in perIp && st == perIp[key] && perIp.Keys == old(perIp.Keys) + {key}
      ensures globalConnects == old(globalConnects)
      ensures st.View() == PruneRow(RowAt(old(RowMap()), key), now, cfg)
      ensures |st.connects| == |RecentOf(past.attempts, key, now, cfg.connectsPerIpWindow)|
      ensures Items(st.dests) == RecentDests(past.attempts, key, now, cfg.distinctDestsWindow)
      ensures cfg.maxBytesPerIp < MaxU64 ==> st.bytesSum == RecentBytes(past.charges, key, now, cfg.bytesWindow)
    {
      hide Rows.Tied;
      st := EntryOf(key);
      ghost var rows, b, n, q, d := RowMap(), past, globalConnections, globalConnects, perDest;
      TiedPrunedAt(cfg, b, now, n, q, rows, d, key);
      PruneAt(key, now);
      assert past == b && globalConnections == n && globalConnects == q && perDest == d;
      assert RowMap()[key] == st.View();
    }

    /** Whether a new key must be turned away: at least `max_tracked_ips` keys are active. */
    method TooManyTracked(key: IpAddr, now: Instant) returns (full: bool)
      requires Valid() && now == clock
      requires |globalConnects| == |Recent(past.attempts, now, cfg.globalConnectsWindow)|
      modifies Repr
      ensures Valid() && Repr == old(Repr) && past == old(past) && clock == old(clock)
      ensures |globalConnects| == |Recent(past.attempts, now, cfg.globalConnectsWindow)|
      ensures perIp.Keys <= old(perIp.Keys) && (key in perIp <==> key in old(perIp))
      ensures full <==> key !in old(perIp) && Capped(cfg.maxTrackedIps, |ActiveKeys(cfg, past, now)|)
      ensures !full && key !in perIp && cfg.maxTrackedIps != 0 ==> |perIp| < cfg.maxTrackedIps
    {
      hide Rows.Tied;
      full := false;
      ghost var active := ActiveKeys(cfg, past, now);
      assert active <= perIp.Keys by {
        forall k | k in active ensures k in RowMap() {
          TiedActive(cfg, past, now, globalConnections, globalConnects, RowMap(), perDest, k);
        }
      }
      SubsetSize(active, perIp.Keys);
      if Capped(cfg.maxTrackedIps, |perIp|) && key !in perIp {
        GcIdle(now);
        assert perIp.Keys == active;
        full := Capped(cfg.maxTrackedIps, |perIp|) && key !in perIp;
      }
    }

    method PushAttempt(st: IpState, key: IpAddr, dest: string, now: Instant)
      requires Valid() && now == clock && key in perIp && st == perIp[key]
      requires RateError(cfg, past.attempts, key, dest, now).None?
      modifies st, this`globalConnects, this`past
      ensures Valid() && past == old(past).(attempts := old(past).attempts + [Attempt(now, key, dest)])
    {
      hide Rows.Tied;
      ghost var rows := RowMap();
      TiedAttempt(cfg, past, Attempt(now, key, dest), globalConnections, globalConnects, rows, perDest);
      RowsAre(key);
      hide Valid, Shape, RowMap;
      st.connects := st.connects + [Entry(now, ())];
      st.dests := st.dests + [Entry(now, dest)];
      globalConnects := globalConnects + [Entry(now, ())];
      past := past.(attempts := past.attempts + [Attempt(now, key, dest)]);
      ghost var row := rows[key];
      NowValid(rows, key, row.(connects := row.connects + [Entry(now, ())], dests := row.dests + [Entry(now, dest)]));
    }

    /** The limits on the key itself, and the attempt recorded if none is reached. */
    method CountAttempt(key: IpAddr, dest: string, now: Instant) returns (r: Result<(), LimitError>)
      requires Valid() && now == clock
      requires !Capped(cfg.globalConnects, |Recent(past.attempts, now, cfg.globalConnectsWindow)|)
      modifies Repr
      ensures Valid() && fresh(Repr - old(Repr)) && clock == old(clock) && perIp.Keys == old(perIp.Keys) + {key}
      ensures r == match RateError(cfg, old(past).attempts, key, dest, now)
                   case None => Ok(())
                   case Some(e) => Err(e)
      ensures past == if r.Ok? then old(past).(attempts := old(past).attempts + [Attempt(now, key, dest)])
                      else old(past)
    {
      hide Rows.Tied, Rows.Items, Ledger.Recent, Ledger.RecentOf, Ledger.RecentDests;
      var st := PrunedEntry(key, now);
      if Capped(cfg.connectsPerIp, |st.connects|) {
        return Err(ConnectRate);
      }
      if cfg.distinctDestsPerIp != 0 {
        var unique := Items(st.dests);
        if dest !in unique && |unique| >= cfg.distinctDestsPerIp {
          return Err(DistinctDests);
        }
      }
      PushAttempt(st, key, dest, now);
      r := Ok(());
    }

    /** The collection that comes before every attempt, and the cap on tracked keys. */
    method MakeRoom(key: IpAddr, now: Instant) returns (full: bool)
      requires Valid() && now == clock
      modifies Repr
      ensures Valid() && Repr == old(Repr) && past == old(past) && clock == old(clock)
      ensures |globalConnects| == |Recent(past.attempts, now, cfg.globalConnectsWindow)|
      ensures perIp.Keys <= old(perIp.Keys)
      ensures full <==> !old(Tracks(key, now)) && Capped(cfg.maxTrackedIps, |ActiveKeys(cfg, past, now)|)
      ensures !full && key !in perIp && cfg.maxTrackedIps != 0 ==> |perIp| < cfg.maxTrackedIps
    {
      hide Rows.Tied, Ledger.Active, Ledger.ActiveKeys, Ledger.Recent;
      MaybeGc(now);
      PruneGlobal(now);
      full := TooManyTracked(key, now);
    }

    /** Counts a connect attempt toward the rate and diversity limits. */
    method RecordAttempt(ip: IpAddr, dest: string) returns (r: Result<(), LimitError>)
      requires Valid()
      modifies Repr
      ensures Valid() && fresh(Repr - old(Repr)) && clock >= old(clock)
      ensures var key, now := cfg.Key(ip), clock;
              var tracked := old(Tracks(key, now));
              && past == AfterAttempt(cfg, old(past), key, dest, now, tracked)
              && r == match AttemptError(cfg, old(past), key, dest, now, tracked)
                      case None => Ok(())
                      case Some(e) => Err(e)
      ensures RowsBounded(old(perIp.Keys), perIp.Keys, cfg.Key(ip), cfg.maxTrackedIps)
    {
      assert this in Repr;
      hide Valid, Shape, RowMap, Tracks, Ledger.AttemptError, Ledger.ActiveKeys, Ledger.Recent, Addresses.LimitKey;
      var key := cfg.Key(ip);
      var now := Now();
      ghost var before := perIp.Keys;
      var full := MakeRoom(key, now);
      ghost var b, keys := past, perIp.Keys;
      AttemptErrorIs(cfg, b, key, dest, now, old(Tracks(key, now)), full);
      RoomBounds(before, keys, key, cfg.maxTrackedIps);
      hide RowsBounded;
      if full {
        return Err(GlobalConnectRate);
      }
      r := CheckRates(key, dest, now);
    }

    /** The rate and diversity limits, and the attempt recorded if none is reached. */
    method CheckRates(key: IpAddr, dest: string, now: Instant) returns (r: Result<(), LimitError>)
      requires Valid() && now == clock
      requires |globalConnects| == |Recent(past.attempts, now, cfg.globalConnectsWindow)|
      modifies Repr
      ensures Valid() && fresh(Repr - old(Repr)) && clock == old(clock)
      ensures perIp.Keys == old(perIp.Keys) || perIp.Keys == old(perIp.Keys) + {key}
      ensures r == match RateError(cfg, old(past).attempts, key, dest, now)
                   case None => Ok(())
                   case Some(e) => Err(e)
      ensures past == if r.Ok? then old(past).(attempts := old(past).attempts + [Attempt(now, key, dest)])
                      else old(past)
    {
      hide Valid, Shape, RowMap, Ledger.Recent, Ledger.RecentOf, Ledger.RecentDests;
      if Capped(cfg.globalConnects, |globalConnects|) {
        return Err(GlobalConnectRate);
      }
      hide Ledger.RateError;
      r := CountAttempt(key, dest, now);
    }

    method PushLease(st: IpState, key: IpAddr, dest: string)
      requires Valid() && key in perIp && st == perIp[key]
      requires AcquireError(cfg, past, key, dest).None?
      modifies st, this`globalConnections, this`perDest, this`past
      ensures Valid() && past == AfterAcquire(cfg, old(past), key, dest)
    {
      hide Rows.Tied, Ledger.AcquireError, Ledger.AfterAcquire, Ledger.LeasesOf, Ledger.LeasesTo;
      ghost var rows := RowMap();
      TiedLease(cfg, past, clock, globalConnections, globalConnects, rows, perDest, key, dest);
      RowsAre(key);
      hide Valid, Shape, RowMap;
      globalConnections := globalConnections + 1;
      st.connections := st.connections + 1;
      perDest := perDest[dest := CountAt(perDest, dest) + 1];
      past := AfterAcquire(cfg, past, key, dest);
      NowValid(rows, key, rows[key].(connections := rows[key].connections + 1));
    }

    /** Reserves a live connection slot. */
    method Acquire(ip: IpAddr, dest: string) returns (r: Result<ConnectionLease, LimitError>)
      requires Valid()
      modifies Repr
      ensures Valid() && fresh(Repr - old(Repr)) && clock >= old(clock)
      ensures past == AfterAcquire(cfg, old(past), cfg.Key(ip), dest)
      ensures perIp.Keys <= old(perIp.Keys) + {cfg.Key(ip)}
      ensures match AcquireError(cfg, old(past), cfg.Key(ip), dest)
              case Some(e) => r == Err(e)
              case None => r.Ok? && fresh(r.value) && r.value.state == this && r.value.id == old(past).nextLease
                           && r.value.ip == cfg.Key(ip) && r.value.dest == dest && r.value.Live()
    {
      hide Rows.Tied, Ledger.Active, Ledger.AcquireError, Addresses.LimitKey;
      var key := cfg.Key(ip);
      var now := Now();
      MaybeGc(now);
      ghost var b := past;
      var error := Reserve(key, dest);
      if error.Some? {
        return Err(error.value);
      }
      var lease := new ConnectionLease(this, key, dest, b.nextLease);
      r := Ok(lease);
    }

    /** The caps on live connections, in the source's order, and the slot if none is reached. */
    method Reserve(key: IpAddr, dest: string) returns (error: Option<LimitError>)
      requires Valid()
      modifies Repr
      ensures Valid() && fresh(Repr - old(Repr)) && clock == old(clock) && perIp.Keys <= old(perIp.Keys) + {key}
      ensures past == AfterAcquire(cfg, old(past), key, dest) && error == AcquireError(cfg, old(past), key, dest)
    {
      hide Rows.Tied, Ledger.LeasesOf, Ledger.LeasesTo;
      LeaseCounts(dest);
      if Capped(cfg.maxGlobalConnections, globalConnections) {
        return Some(GlobalFull);
      }
      var st := EntryOf(key);
      if Capped(cfg.maxConnsPerIp, st.connections) {
        return Some(PerIpFull);
      }
      var destCount := CountAt(perDest, dest);
      if Capped(cfg.maxConnsPerDest, destCount) {
        return Some(PerDestFull);
      }
      PushLease(st, key, dest);
      error := None;
    }

    lemma LeaseCounts(dest: string)
      requires Valid()
      ensures globalConnections == |past.leases| && CountAt(perDest, dest) == |LeasesTo(past.leases, dest)|
    {
    }

    /** Every valid state has a lawful past. */
    lemma IsLawful()
      requires Valid()
      ensures Lawful(cfg, past)
    {
      hide Ledger.Lawful;
    }

    /** Lease numbers are handed out in order, so none is reused. */
    lemma LeasesNumbered()
      requires Valid()
      ensures forall id | id in past.leases :: id < past.nextLease
    {
    }

    method PopLease(st: IpState, key: IpAddr, dest: string, ghost id: nat)
      requires Valid() && key in perIp && st == perIp[key] && id in past.leases && past.leases[id] == Lease(key, dest)
      modifies st, this`globalConnections, this`perDest, this`past
      ensures Valid() && past == AfterRelease(old(past), id)
    {
      hide Rows.Tied;
      ghost var rows := RowMap();
      TiedUnlease(cfg, past, clock, globalConnections, globalConnects, id, rows, perDest);
      RowsAre(key);
      hide Valid, Shape, RowMap;
      globalConnections := SatDec(globalConnections);
      st.connections := SatDec(st.connections);
      var left := SatDec(perDest[dest]);
      perDest := if left == 0 then perDest - {dest} else perDest[dest := left];
      past := AfterRelease(past, id);
      NowValid(rows, key, rows[key].(connections := rows[key].connections - 1));
    }

    /** Gives a slot back: no counter is zero beforehand, and a row left idle is dropped. */
    method Release(key: IpAddr, dest: string, ghost id: nat)
      requires Valid() && id in past.leases && past.leases[id] == Lease(key, dest)
      modifies Repr
      ensures Valid() && fresh(Repr - old(Repr)) && clock >= old(clock)
      ensures past == AfterRelease(old(past), id) && perIp.Keys <= old(perIp.Keys)
      ensures key in perIp <==> Active(cfg, past, key, clock)
    {
      hide Rows.Tied, Ledger.Active;
      var now := Now();
      Leased(id);
      var st := perIp[key];
      PopLease(st, key, dest, id);
      PruneOrForget(st, key, now);
    }

    /** Prunes the row of `key`, and drops it if that leaves it idle. */
    method PruneOrForget(st: IpState, key: IpAddr, now: Instant)
      requires Valid() && now == clock && key in perIp && st == perIp[key]
      modifies st, this`perIp
      ensures Valid() && (key in perIp <==> Active(cfg, past, key, now)) && perIp.Keys <= old(perIp.Keys)
    {
      hide Rows.Tied, Ledger.Active;
      ghost var rows, q, d := RowMap(), globalConnects, perDest;
      TiedPrunedAt(cfg, past, now, globalConnections, q, rows, d, key);
      PruneAt(key, now);
      assert RowMap()[key] == st.View();
      if st.Idle() {
        Forget(key);
        assert rows[key := PruneRow(rows[key], now, cfg)] - {key} == rows - {key};
      }
    }

    /** A live lease is counted everywhere, so its release has something to take back. */
    lemma Leased(id: nat)
      requires Valid() && id in past.leases
      ensures past.leases[id].key in perIp && perIp[past.leases[id].key].connections > 0
      ensures past.leases[id].dest in perDest && perDest[past.leases[id].dest] > 0 && globalConnections > 0
    {
      TiedUnlease(cfg, past, clock, globalConnections, globalConnects, id, RowMap(), perDest);
      assert past.leases[id].key in RowMap();
    }

    method PushCharge(st: IpState, key: IpAddr, n: u64, now: Instant)
      requires Valid() && now == clock && key in perIp && st == perIp[key] && n > 0
      requires ChargeError(cfg, past.charges, key, n, now).None?
      requires cfg.maxBytesPerIp < MaxU64 ==> st.bytesSum + n <= cfg.maxBytesPerIp
      modifies st, this`past
      ensures Valid() && past == old(past).(charges := old(past).charges + [Charge(now, key, n)])
      ensures st.bytes == old(st.bytes) + [Entry(now, n)] && st.bytesSum == SatAdd(old(st.bytesSum), n)
      ensures st.connections == old(st.connections) && st.connects == old(st.connects) && st.dests == old(st.dests)
    {
      hide Rows.Tied;
      ghost var rows := RowMap();
      TiedCharge(cfg, past, Charge(now, key, n), globalConnections, globalConnects, rows, perDest);
      RowsAre(key);
      hide Valid, Shape, RowMap;
      st.bytes := st.bytes + [Entry(now, n)];
      st.bytesSum := SatAdd(st.bytesSum, n);
      past := past.(charges := past.charges + [Charge(now, key, n)]);
      ghost var row := rows[key];
      NowValid(rows, key, row.(bytes := row.bytes + [Entry(now, n)], bytesSum := SatAdd(row.bytesSum, n)));
    }

    /** Charges `n` bytes to the quota of the key. */
    method AddBytes(ip: IpAddr, n: u64) returns (r: Result<(), LimitError>)
      requires Valid()
      modifies Repr
      ensures Valid() && fresh(Repr - old(Repr)) && clock >= old(clock)
      ensures past == AfterCharge(cfg, old(past), cfg.Key(ip), n, clock)
      ensures perIp.Keys <= old(perIp.Keys) + {cfg.Key(ip)}
      ensures r == match ChargeError(cfg, old(past).charges, cfg.Key(ip), n, clock)
                   case None => Ok(())
                   case Some(e) => Err(e)
      ensures r.Ok? && IsMetered(cfg, n)
              ==> cfg.Key(ip) in perIp
                  && perIp[cfg.Key(ip)].View() == ChargedRow(RowAt(old(RowMap()), cfg.Key(ip)), n, clock, cfg)
    {
      hide Rows.Tied, Rows.SameFrom, Rows.PruneRow, Ledger.Active, Ledger.RecentBytes, Addresses.LimitKey;
      if n == 0 {
        return Ok(());
      }
      var key := cfg.Key(ip);
      var gcNow := Now();
      MaybeGc(gcNow);
      if cfg.maxBytesPerIp == 0 {
        return Ok(());
      }
      var now := Now();
      SameAt(old(RowMap()), RowMap(), gcNow, now, key, cfg);
      var st := PrunedEntry(key, now);
      if SatAdd(st.bytesSum, n) > cfg.maxBytesPerIp {
        return Err(ByteCap);
      }
      PushCharge(st, key, n, now);
      r := Ok(());
    }

    // ---------------------------------------------------------- what holds in every reachable state

    /** The three kinds of live-connection counters all total the live leases. */
    lemma LeasesConserved(keys: seq<IpAddr>, dests: seq<string>)
      requires Valid()
      requires Distinct(keys) && forall key :: key in keys <==> key in perIp
      requires Distinct(dests) && forall dest :: dest in dests <==> dest in perDest
      ensures globalConnections == SumOver(RowMap(), keys) == SumOfDests(perDest, dests) == |past.leases|
      ensures forall key | key in perIp :: perIp[key].connections == |LeasesOf(past.leases, key)|
      ensures forall dest | dest in perDest :: perDest[dest] == |LeasesTo(past.leases, dest)| > 0
    {
      var rows := RowMap();
      Conservation(cfg, past, clock, globalConnections, globalConnects, rows, perDest, keys, dests);
      forall key | key in perIp ensures perIp[key].connections == |LeasesOf(past.leases, key)| {
        assert RowTied(cfg, past, clock, key, RowAt(rows, key));
      }
      forall dest | dest in perDest ensures perDest[dest] == |LeasesTo(past.leases, dest)| > 0 {
        assert CountAt(perDest, dest) == |LeasesTo(past.leases, dest)|;
      }
    }

    /** The cached sum never counts more than the queue holds. */
    lemma CachedSumBounded(key: IpAddr)
      requires Valid() && key in perIp
      ensures perIp[key].bytesSum <= Sum(perIp[key].bytes)
    {
      assert RowTied(cfg, past, clock, key, RowAt(RowMap(), key));
    }

    /** Below the largest cap the cached sum is the sum of its queue, and within the cap. */
    lemma CachedSumExact(key: IpAddr)
      requires Valid() && key in perIp && cfg.maxBytesPerIp < MaxU64
      ensures perIp[key].bytesSum == Sum(perIp[key].bytes) <= cfg.maxBytesPerIp
    {
      assert RowTied(cfg, past, clock, key, RowAt(RowMap(), key));
    }

    /** A key that holds a lease, or has an event that will still be inside its window at `now`, is never
        without a row. */
    lemma ActiveKeyTracked(key: IpAddr, now: Instant)
      requires Valid() && now >= clock && Active(cfg, past, key, now)
      ensures key in perIp
    {
      ActiveIsTracked(cfg, past, clock, now, RowMap(), key);
      assert key in RowMap();
    }

    /** A key without a row no longer matters, now or later. */
    lemma UntrackedInactive(key: IpAddr)
      requires Valid()
      ensures key !in perIp ==> forall now | now >= clock :: !Active(cfg, past, key, now)
    {
      hide Ledger.Active;
      forall now | now >= clock && Active(cfg, past, key, now) ensures key in perIp { ActiveKeyTracked(key, now); }
    }
  }

  function Total(amounts: seq<u64>): nat {
    if amounts == [] then 0 else Total(amounts[..|amounts| - 1]) + amounts[|amounts| - 1]
  }

  /** The exception to `CachedSumExact`: with a cap of `u64::MAX`, charges that pass it together within one
      window leave a limiter whose cached sum is short of its queue. */
  method SaturateSum(cfg: LimitsConfig, ip: IpAddr, amounts: seq<u64>) returns (limits: LimitState, first: Instant)
    requires cfg.maxBytesPerIp == MaxU64 && Total(amounts) > MaxU64
    requires forall k | 0 <= k < |amounts| :: amounts[k] > 0
    ensures limits.Valid() && limits.cfg == cfg && limits.clock >= first
    ensures limits.clock - first <= cfg.bytesWindow
            ==> var key := cfg.Key(ip);
                && key in limits.perIp && limits.perIp[key].bytesSum == MaxU64
                && Sum(limits.perIp[key].bytes) == Total(amounts)
  {
    hide Rows.Tied, Ledger.RecentBytes, Addresses.LimitKey, ChargedRow, Saturated, Sum;
    limits := new LimitState(cfg);
    var key := cfg.Key(ip);
    var now := limits.Now();
    first := now;
    NothingYet(first);
    ghost var row := EmptyRow;
    for i := 0 to |amounts|
      invariant limits.Valid() && limits.cfg == cfg && limits.clock >= first && fresh(limits.Repr)
      invariant RowAt(limits.RowMap(), key) == row && (i > 0 ==> key in limits.perIp)
      invariant limits.clock - first <= cfg.bytesWindow ==> Saturated(row, first, Total(amounts[..i]))
    {
      ghost var before := row;
      var r := limits.AddBytes(ip, amounts[i]);
      row := ChargedRow(before, amounts[i], limits.clock, cfg);
      assert amounts[..i + 1][..i] == amounts[..i];
      if limits.clock - first <= cfg.bytesWindow {
        ChargedInWindow(before, amounts[i], limits.clock, cfg, first, Total(amounts[..i]));
      }
    }
    assert amounts[..|amounts|] == amounts;
    if limits.clock - first <= cfg.bytesWindow { SaturatedShows(row, first, Total(amounts)); }
  }

  lemma NothingYet(first: Instant)
    ensures Saturated(EmptyRow, first, 0)
  {
  }

  lemma SaturatedShows(row: Row, first: Instant, total: nat)
    requires Saturated(row, first, total) && total > MaxU64
    ensures row.bytesSum == MaxU64 && Sum(row.bytes) == total
  {
  }
}
