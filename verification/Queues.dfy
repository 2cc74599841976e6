/** Timestamped queues (src/limits.rs): dropping expired entries from the front against filtering the
    whole history, and the saturating sum kept beside the byte queue. */
module Queues {

  /** `Instant`: ticks of a monotonic clock. */
  type Instant = nat

  type Duration = nat

  const MaxU64: nat := 0xffff_ffff_ffff_ffff

  type u64 = n: nat | n <= 0xffff_ffff_ffff_ffff

  /** The longest buffer there is: `isize::MAX` bytes. */
  const MaxBuffer: nat := 0x7fff_ffff_ffff_ffff

  datatype Entry<T> = Entry(at: Instant, item: T)

  predicate Expired(at: Instant, now: Instant, window: Duration) { now - at > window }

  /** The entries not expired at `now`, oldest first. */
  function Fresh<T>(q: seq<Entry<T>>, now: Instant, window: Duration): seq<Entry<T>> {
    if q == [] then []
    else
      var last := q[|q| - 1];
      var front := Fresh(q[..|q| - 1], now, window);
      if Expired(last.at, now, window) then front else front + [last]
  }

  predicate Sorted<T>(q: seq<Entry<T>>) { forall i, j | 0 <= i < j < |q| :: q[i].at <= q[j].at }

  predicate Before<T>(q: seq<Entry<T>>, now: Instant) { forall i | 0 <= i < |q| :: q[i].at <= now }

  lemma FreshSnoc<T>(q: seq<Entry<T>>, e: Entry<T>, now: Instant, window: Duration)
    ensures Fresh(q + [e], now, window)
            == if Expired(e.at, now, window) then Fresh(q, now, window) else Fresh(q, now, window) + [e]
  {
    assert (q + [e])[..|q|] == q;
  }

  /** Filtering at an earlier time first loses nothing that is still fresh later. */
  lemma {:induction false} FreshTwice<T>(q: seq<Entry<T>>, early: Instant, late: Instant, window: Duration)
    requires early <= late
    ensures Fresh(Fresh(q, early, window), late, window) == Fresh(q, late, window)
  {
    if q != [] {
      var front, last := q[..|q| - 1], q[|q| - 1];
      FreshTwice(front, early, late, window);
      if Expired(last.at, early, window) {
        assert Fresh(q, early, window) == Fresh(front, early, window);
      } else {
        FreshSnoc(Fresh(front, early, window), last, late, window);
      }
    }
  }

  lemma {:induction false} FreshKeepsAll<T>(q: seq<Entry<T>>, now: Instant, window: Duration)
    requires forall i | 0 <= i < |q| :: !Expired(q[i].at, now, window)
    ensures Fresh(q, now, window) == q
  {
    if q != [] { FreshKeepsAll(q[..|q| - 1], now, window); }
  }

  lemma {:induction false} FreshDropsFirst<T>(q: seq<Entry<T>>, now: Instant, window: Duration)
    requires q != [] && Expired(q[0].at, now, window)
    ensures Fresh(q, now, window) == Fresh(q[1..], now, window)
  {
    var n := |q| - 1;
    if n > 0 {
      FreshDropsFirst(q[..n], now, window);
      assert q[..n][1..] == q[1..][..n - 1];
    }
  }

  lemma {:induction false} FreshSubset<T>(q: seq<Entry<T>>, now: Instant, window: Duration)
    ensures forall e | e in Fresh(q, now, window) :: e in q && !Expired(e.at, now, window)
    ensures forall e | e in q && !Expired(e.at, now, window) :: e in Fresh(q, now, window)
  {
    if q != [] {
      FreshSubset(q[..|q| - 1], now, window);
      assert q == q[..|q| - 1] + [q[|q| - 1]];
    }
  }

  lemma {:induction false} FreshSorted<T>(q: seq<Entry<T>>, now: Instant, window: Duration)
    requires Sorted(q)
    ensures Sorted(Fresh(q, now, window))
  {
    if q != [] {
      var front, last := q[..|q| - 1], q[|q| - 1];
      FreshSorted(front, now, window);
      FreshSubset(front, now, window);
      var f := Fresh(front, now, window);
      forall i | 0 <= i < |f| ensures f[i].at <= last.at { assert f[i] in front; }
    }
  }

  /** A queue that holds everything of `history` still fresh at `clock`, and perhaps stale entries. */
  ghost predicate Agrees<T>(q: seq<Entry<T>>, history: seq<Entry<T>>, clock: Instant, window: Duration) {
    Sorted(q) && Before(q, clock) && Fresh(q, clock, window) == Fresh(history, clock, window)
  }

  lemma AgreesLater<T>(q: seq<Entry<T>>, history: seq<Entry<T>>, clock: Instant, now: Instant, window: Duration)
    requires Agrees(q, history, clock, window) && clock <= now
    ensures Agrees(q, history, now, window)
  {
    FreshTwice(q, clock, now, window);
    FreshTwice(history, clock, now, window);
  }

  lemma AgreesPruned<T>(q: seq<Entry<T>>, history: seq<Entry<T>>, now: Instant, window: Duration)
    requires Agrees(q, history, now, window)
    ensures Agrees(Fresh(q, now, window), history, now, window)
    ensures Fresh(q, now, window) == Fresh(history, now, window)
  {
    FreshSubset(q, now, window);
    FreshSorted(q, now, window);
    FreshTwice(q, now, now, window);
    var f := Fresh(q, now, window);
    forall i | 0 <= i < |f| ensures f[i].at <= now { assert f[i] in q; }
  }

  lemma AgreesPushed<T>(q: seq<Entry<T>>, history: seq<Entry<T>>, e: Entry<T>, window: Duration)
    requires Agrees(q, history, e.at, window)
    ensures Agrees(q + [e], history + [e], e.at, window)
  {
    FreshSnoc(q, e, e.at, window);
    FreshSnoc(history, e, e.at, window);
  }

  // ------------------------------------------------------------ byte sums

  function SatAdd(a: u64, b: u64): u64 { if a + b > MaxU64 then MaxU64 else a + b }

  function SatSub(a: u64, b: u64): u64 { if a < b then 0 else a - b }

  function Sum(q: seq<Entry<u64>>): nat {
    if q == [] then 0 else Sum(q[..|q| - 1]) + q[|q| - 1].item
  }

  /** The cached sum after the expired front of the queue has been subtracted entry by entry. */
  function PrunedSum(q: seq<Entry<u64>>, sum: u64, now: Instant, window: Duration): u64 {
    if q != [] && Expired(q[0].at, now, window) then PrunedSum(q[1..], SatSub(sum, q[0].item), now, window) else sum
  }

  lemma {:induction false} SumCons(q: seq<Entry<u64>>)
    requires q != []
    ensures Sum(q) == q[0].item + Sum(q[1..])
  {
    var n := |q| - 1;
    if n > 0 {
      SumCons(q[..n]);
      assert q[..n][1..] == q[1..][..n - 1];
    }
  }

  lemma SumSnoc(q: seq<Entry<u64>>, e: Entry<u64>)
    ensures Sum(q + [e]) == Sum(q) + e.item
  {
    assert (q + [e])[..|q|] == q;
  }

  lemma SumFreshSnoc(q: seq<Entry<u64>>, e: Entry<u64>, now: Instant, window: Duration)
    ensures Sum(Fresh(q + [e], now, window))
            == Sum(Fresh(q, now, window)) + if Expired(e.at, now, window) then 0 else e.item
  {
    FreshSnoc<u64>(q, e, now, window);
    SumSnoc(Fresh<u64>(q, now, window), e);
  }

  /** An exact cached sum stays exact through pruning: no subtraction saturates. */
  lemma {:induction false} PrunedSumExact(q: seq<Entry<u64>>, sum: u64, now: Instant, window: Duration)
    requires Sorted(q) && sum == Sum(q)
    ensures PrunedSum(q, sum, now, window) == Sum(Fresh(q, now, window)) <= sum
  {
    if q != [] && Expired(q[0].at, now, window) {
      SumCons(q);
      FreshDropsFirst(q, now, window);
      PrunedSumExact(q[1..], sum - q[0].item, now, window);
    } else {
      FreshKeepsAll(q, now, window);
    }
  }

  /** At any cap the cached sum never counts more than the queue holds. */
  lemma {:induction false} PrunedSumBounded(q: seq<Entry<u64>>, sum: u64, now: Instant, window: Duration)
    requires Sorted(q) && sum <= Sum(q)
    ensures PrunedSum(q, sum, now, window) <= Sum(Fresh(q, now, window))
  {
    if q != [] && Expired(q[0].at, now, window) {
      SumCons(q);
      FreshDropsFirst(q, now, window);
      PrunedSumBounded(q[1..], SatSub(sum, q[0].item), now, window);
    } else {
      FreshKeepsAll(q, now, window);
    }
  }

  lemma {:induction false} PrunedSumTwice(q: seq<Entry<u64>>, sum: u64, early: Instant, late: Instant, window: Duration)
    requires Sorted(q) && early <= late
    ensures PrunedSum(Fresh(q, early, window), PrunedSum(q, sum, early, window), late, window)
            == PrunedSum(q, sum, late, window)
  {
    if q != [] && Expired(q[0].at, early, window) {
      FreshDropsFirst(q, early, window);
      PrunedSumTwice(q[1..], SatSub(sum, q[0].item), early, late, window);
    } else {
      FreshKeepsAll(q, early, window);
    }
  }
}
