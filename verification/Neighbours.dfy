/** Users of the limiter (src/limits.rs) as one party: everyone but the connection that is followed, or
    everyone there is. */
module Neighbours {
  import opened Addresses
  import opened Ledger
  import opened Limits
  import opened Queues
  import opened Wrappers
  import Rows
  import W = Worlds

  /** An answer as the caller sees it: a lease has no visible number. */
  function ErrorOf(answer: Outcome): Option<LimitError> {
    match answer
    case Refused(e) => Some(e)
    case _ => None
  }

  class Others {
    const limits: LimitState

    /** The leases they were granted, in order, `None` once dropped, and the numbers of those leases. */
    var held: seq<Option<ConnectionLease>>
    ghost var numbers: seq<nat>

    constructor (limits: LimitState)
      ensures this.limits == limits && held == [] && numbers == []
    {
      this.limits, held, numbers := limits, [], [];
    }

    /** What they hold is live and what they dropped is not. */
    ghost predicate Holding(b: Book)
      reads this
    {
      HeldBy(held, numbers, b)
    }

    ghost predicate HeldBy(held: seq<Option<ConnectionLease>>, numbers: seq<nat>, b: Book) {
      && |numbers| == |held|
      && (forall k | 0 <= k < |numbers| :: numbers[k] < b.nextLease)
      && (forall j, k | 0 <= j < k < |numbers| :: numbers[j] < numbers[k])
      && forall k | 0 <= k < |held| :: HeldAt(held[k], numbers[k], b)
    }

    ghost predicate HeldAt(lease: Option<ConnectionLease>, number: nat, b: Book) {
      match lease
      case None => number !in b.leases
      case Some(l) =>
        l.state == limits && l.id == number && l.id in b.leases && b.leases[l.id] == Lease(l.ip, l.dest)
    }

    lemma OneMoreHeld(held: seq<Option<ConnectionLease>>, numbers: seq<nat>, b: Book, number: nat,
                      lease: ConnectionLease)
      requires HeldBy(held, numbers, b) && HeldAt(Some(lease), number, b) && number < b.nextLease
      requires forall k | 0 <= k < |numbers| :: numbers[k] < number
      ensures HeldBy(held + [Some(lease)], numbers + [number], b)
    {
      hide HeldAt;
    }

    lemma OneDropped(held: seq<Option<ConnectionLease>>, numbers: seq<nat>, b: Book, k: nat)
      requires HeldBy(held, numbers, b) && k < |held|
      ensures HeldBy(held[k := None], numbers, AfterRelease(b, numbers[k]))
    {
      var less := held[k := None];
      forall j | 0 <= j < |held| ensures HeldAt(less[j], numbers[j], AfterRelease(b, numbers[k])) {
        assert HeldAt(held[j], numbers[j], b);
      }
    }

    /** None of `mine` was ever theirs. */
    ghost predicate Spare(mine: set<nat>)
      reads this
    {
      forall k | 0 <= k < |numbers| :: numbers[k] !in mine
    }

    lemma StillHolding(b: Book, id: nat)
      requires Holding(b) && Spare({id})
      ensures Holding(AfterRelease(b, id))
    {
      forall k | 0 <= k < |held| ensures HeldAt(held[k], numbers[k], AfterRelease(b, id)) {
        assert HeldAt(held[k], numbers[k], b);
      }
    }

    /** Nothing that leaves the leases handed out so far alone has a bearing on theirs. */
    lemma HoldingKept(b: Book, c: Book)
      requires Holding(b) && b.nextLease <= c.nextLease
      requires forall n | n in b.leases || n in c.leases ::
                 n < b.nextLease ==> n in b.leases && n in c.leases && b.leases[n] == c.leases[n]
      ensures Holding(c)
    {
      forall k | 0 <= k < |held| ensures HeldAt(held[k], numbers[k], c) { assert HeldAt(held[k], numbers[k], b); }
    }

    lemma HoldingSame(b: Book, c: Book)
      requires Holding(b) && b.nextLease == c.nextLease && b.leases == c.leases
      ensures Holding(c)
    {
      HoldingKept(b, c);
    }

    ghost predicate Valid()
      reads this, limits, limits.Repr, limits.perIp.Values
    {
      limits.Valid() && this !in limits.Repr && Holding(limits.past)
    }

    lemma AsManyNumbers()
      requires Valid()
      ensures |numbers| == |held|
    {
    }

    /** A number not handed out yet is not theirs. */
    lemma NextIsNotTheirs()
      requires Valid()
      ensures Spare({limits.past.nextLease})
    {
      forall k | 0 <= k < |numbers| ensures numbers[k] < limits.past.nextLease {}
    }

    method TakeSlot(ip: IpAddr, dest: string, ghost mine: set<nat>) returns (error: Option<LimitError>)
      requires Valid() && mine <= limits.past.leases.Keys && Spare(mine)
      modifies this, limits.Repr
      ensures Valid() && fresh(limits.Repr - old(limits.Repr)) && limits.clock >= old(limits.clock) && Spare(mine)
      ensures var (b, answer) := Step(limits.cfg, old(limits.past), DoAcquire(ip, dest));
              limits.past == b && numbers == MoreNumbers(old(numbers), answer) && error == ErrorOf(answer)
      ensures limits.perIp.Keys <= old(limits.perIp.Keys) + {limits.cfg.Key(ip)}
    {
      hide LimitState.Valid, Ledger.AcquireError, Addresses.LimitKey;
      limits.LeasesNumbered();
      ghost var b := limits.past;
      var a := limits.Acquire(ip, dest);
      match a {
        case Err(e) =>
          error := Some(e);
        case Ok(lease) =>
          HoldingKept(b, limits.past);
          held, numbers, error := held + [Some(lease)], numbers + [b.nextLease], None;
          OneMoreHeld(old(held), old(numbers), limits.past, b.nextLease, lease);
      }
    }

    method DropSlot(k: nat, ghost mine: set<nat>)
      requires Valid() && Spare(mine)
      modifies this, limits.Repr
      ensures Valid() && fresh(limits.Repr - old(limits.Repr)) && limits.clock >= old(limits.clock) && Spare(mine)
      ensures numbers == old(numbers) && limits.perIp.Keys <= old(limits.perIp.Keys)
      ensures limits.past == Step(limits.cfg, old(limits.past), End(k).OpAt(0, false, numbers)).0
    {
      hide LimitState.Valid;
      ghost var b := limits.past;
      if k < |held| {
        assert HeldAt(held[k], numbers[k], b);
        if held[k].Some? {
          OneDropped(held, numbers, b, k);
          var lease := held[k].value;
          held := held[k := None];
          lease.Drop();
        } else {
          assert b.leases - {numbers[k]} == b.leases;
        }
      }
    }

    method TryOnce(ip: IpAddr, dest: string) returns (error: Option<LimitError>, ghost tracked: bool)
      requires Valid()
      modifies limits.Repr
      ensures Valid() && fresh(limits.Repr - old(limits.Repr)) && limits.clock >= old(limits.clock)
      ensures var (b, answer) := Step(limits.cfg, old(limits.past), DoAttempt(ip, dest, limits.clock, tracked));
              limits.past == b && error == ErrorOf(answer) && !answer.Granted?
      ensures var now := limits.clock; tracked <==> old(limits.Tracks(limits.cfg.Key(ip), now))
      ensures limits.perIp.Keys <= old(limits.perIp.Keys) + {limits.cfg.Key(ip)}
    {
      hide LimitState.Valid, LimitState.Tracks, Ledger.AttemptError, Addresses.LimitKey, Holding;
      ghost var b := limits.past;
      var a := limits.RecordAttempt(ip, dest);
      ghost var now := limits.clock;
      tracked := old(limits.Tracks(limits.cfg.Key(ip), now));
      error := if a.Err? then Some(a.error) else None;
      AttemptKeepsLeases(limits.cfg, b, ip, dest, now, tracked);
      HoldingSame(b, limits.past);
    }

    method ChargeOnce(ip: IpAddr, n: u64) returns (error: Option<LimitError>)
      requires Valid()
      modifies limits.Repr
      ensures Valid() && fresh(limits.Repr - old(limits.Repr)) && limits.clock >= old(limits.clock)
      ensures var (b, answer) := Step(limits.cfg, old(limits.past), DoCharge(ip, n, limits.clock));
              limits.past == b && error == ErrorOf(answer) && !answer.Granted?
      ensures limits.perIp.Keys <= old(limits.perIp.Keys) + {limits.cfg.Key(ip)}
    {
      hide LimitState.Valid, Ledger.ChargeError, Addresses.LimitKey, Holding;
      ghost var b := limits.past;
      var a := limits.AddBytes(ip, n);
      error := if a.Err? then Some(a.error) else None;
      HoldingSame(b, limits.past);
    }

    method Sweep()
      requires Valid()
      modifies limits.Repr
      ensures Valid() && fresh(limits.Repr - old(limits.Repr)) && limits.clock >= old(limits.clock)
      ensures limits.past == old(limits.past) && limits.perIp.Keys <= old(limits.perIp.Keys)
    {
      hide Rows.Tied, Ledger.Active, Holding;
      var now := limits.Now();
      limits.GcIdle(now);
    }

    /** One call, by whoever it is: the ledger's step, and its answer. */
    method Make(call: Call, ghost mine: set<nat>) returns (error: Option<LimitError>, ghost tracked: bool)
      requires Valid() && mine <= limits.past.leases.Keys && Spare(mine)
      modifies this, limits.Repr
      ensures Valid() && fresh(limits.Repr - old(limits.Repr)) && limits.clock >= old(limits.clock) && Spare(mine)
      ensures var op := call.OpAt(limits.clock, tracked, old(numbers));
              var (b, answer) := Step(limits.cfg, old(limits.past), op);
              limits.past == b && numbers == MoreNumbers(old(numbers), answer) && error == ErrorOf(answer)
      ensures var now := limits.clock; call.Try? ==> (tracked <==> old(limits.Tracks(limits.cfg.Key(call.ip), now)))
      ensures limits.perIp.Keys <= old(limits.perIp.Keys) + call.Keys(limits.cfg)
    {
      hide Ledger.AttemptError, Ledger.AcquireError, Ledger.ChargeError, Addresses.LimitKey;
      hide LimitState.Valid, LimitState.Tracks, Holding, Spare;
      error, tracked := None, false;
      match call {
        case Try(ip, dest) => error, tracked := TryOnce(ip, dest);
        case Acquire(ip, dest) => error := TakeSlot(ip, dest, mine);
        case End(k) => DropSlot(k, mine);
        case AddBytes(ip, n) => error := ChargeOnce(ip, n);
        case Collect => Sweep();
      }
    }

    /** What they do while one waits: exactly `calls`, on which the leases of `mine` have no bearing. */
    method Meanwhile(calls: seq<Call>, ghost mine: set<nat>, ghost w: W.World) returns (ghost moves: seq<W.Move>)
      requires Valid() && mine <= limits.past.leases.Keys && Spare(mine) && w.book == limits.past
      modifies this, limits.Repr
      ensures Valid() && fresh(limits.Repr - old(limits.Repr)) && limits.clock >= old(limits.clock) && Spare(mine)
      ensures W.Did(moves, calls, mine) && W.After(limits.cfg, w, moves) == w.(book := limits.past)
      ensures W.DropsOwn(limits.cfg, w, moves, calls, old(numbers))
      ensures forall id | id in mine ::
                id in limits.past.leases && limits.past.leases[id] == old(limits.past.leases)[id]
    {
      hide Ledger.Step, W.Does, W.After, W.NumbersAfter, W.DropsOwn, LimitState.Valid, Holding;
      moves := [];
      W.NoMoves(limits.cfg, w, numbers);
      for i := 0 to |calls|
        invariant Valid() && fresh(limits.Repr - old(limits.Repr)) && limits.clock >= old(limits.clock) && Spare(mine)
        invariant W.Did(moves, calls[..i], mine) && W.After(limits.cfg, w, moves) == w.(book := limits.past)
        invariant W.DropsOwn(limits.cfg, w, moves, calls[..i], old(numbers))
        invariant numbers == W.NumbersAfter(limits.cfg, w, moves, old(numbers))
        invariant forall id | id in mine ::
                    id in limits.past.leases && limits.past.leases[id] == old(limits.past.leases)[id]
      {
        limits.LeasesNumbered();
        ghost var b, before := limits.past, numbers;
        var error; ghost var tracked;
        error, tracked := Make(calls[i], mine);
        ghost var op := calls[i].OpAt(limits.clock, tracked, before);
        OpSpares(calls[i], limits.clock, tracked, before, mine);
        W.SparedStay(limits.cfg, b, op, mine);
        W.AfterSnoc(limits.cfg, w, moves, W.Other(op));
        W.DropsSnoc(limits.cfg, w, moves, W.Other(op), calls[..i], calls[i], old(numbers));
        assert calls[..i + 1] == calls[..i] + [calls[i]];
        moves := moves + [W.Other(op)];
      }
      assert calls[..|calls|] == calls;
    }
  }

  lemma OpSpares(call: Call, now: nat, tracked: bool, numbers: seq<nat>, mine: set<nat>)
    requires forall k | 0 <= k < |numbers| :: numbers[k] !in mine
    ensures var m := W.Other(call.OpAt(now, tracked, numbers)); W.Does(m, call) && W.Spares(m, mine)
  {
  }
}
