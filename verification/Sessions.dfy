/** One session's event loop (`run` in src/connection.rs) as a function of its events: what is charged,
    what is forwarded, and when the loop ends. */
module Sessions {
  import opened Channels
  import opened Queues
  import opened Tls

  /** What one turn of the loop awaits, with the outcome of the write it leads to. */
  datatype AnyEvent =
    | Deadline
    | FromClient(message: WsOutcome, write: WriteOutcome)
    | FromUpstream(read: ReadOutcome, write: WriteOutcome)
  {
    /** The bytes to pass on. */
    function Chunk(): bytes {
      match this
      case FromClient(o, _) => Payload(o)
      case FromUpstream(Read(d), _) => d
      case _ => []
    }
  }

  type Event = e: AnyEvent | |e.Chunk()| <= MaxBuffer witness Deadline

  /** `toTcp` and `toClient` are the bytes that reached either side, `control` the pings and pongs. */
  datatype Session = Session(open: bool, connBytes: u64, toTcp: bytes, toClient: bytes, control: seq<WsMessage>)

  const NewSession := Session(true, 0, [], [], [])

  /** The data messages of either side. An upstream read of no bytes is the end of the stream. */
  predicate Carries(ev: Event) {
    match ev
    case FromClient(o, _) => IsData(o)
    case FromUpstream(Read(d), _) => d != []
    case _ => false
  }

  /** `over_conn_bytes`. */
  predicate OverConnBytes(cap: u64, total: u64) { cap != 0 && total > cap }

  /** The bytes a turn asks the quota for. */
  function Wants(cap: u64, s: Session, ev: Event): u64 {
    if s.open && Carries(ev) && !OverConnBytes(cap, SatAdd(s.connBytes, |ev.Chunk()|)) then |ev.Chunk()| else 0
  }

  /** Passing on a chunk: counted, charged and only then written. */
  function Forward(cap: u64, s: Session, ev: Event, granted: bool): Session
    requires Carries(ev)
  {
    var counted := s.(connBytes := SatAdd(s.connBytes, |ev.Chunk()|));
    if OverConnBytes(cap, counted.connBytes) || (ev.Chunk() != [] && !granted) then counted.(open := false)
    else
      var sent := ev.write.Reached(ev.Chunk());
      var written := if ev.FromClient? then counted.(toTcp := counted.toTcp + sent)
                     else counted.(toClient := counted.toClient + sent);
      written.(open := ev.write.Sent?)
  }

  function SendControl(s: Session, msg: WsMessage, write: WriteOutcome): Session {
    if write.Sent? then s.(control := s.control + [msg]) else s.(open := false)
  }

  function Step(cap: u64, s: Session, ev: Event, granted: bool): Session {
    if !s.open then s
    else if Carries(ev) then Forward(cap, s, ev, granted)
    else
      match ev
      case FromClient(Got(Ping(p)), w) => SendControl(s, Pong(p), w)
      case FromClient(Got(Pong(_)), _) => s
      case FromClient(WsTimedOut, w) => SendControl(s, Ping([]), w)
      case _ => s.(open := false)
  }

  lemma DeadlineEnds(cap: u64, s: Session, ev: Event, granted: bool)
    ensures ev.Deadline? ==> !Step(cap, s, ev, granted).open
  {
  }

  /** A turn, and whether the quota granted its bytes. */
  datatype Turn = Turn(ev: Event, granted: bool)

  function Run(cap: u64, ts: seq<Turn>): Session {
    if ts == [] then NewSession
    else Step(cap, Run(cap, ts[..|ts| - 1]), ts[|ts| - 1].ev, ts[|ts| - 1].granted)
  }

  // ------------------------------------------------------------ the events by themselves

  function ToUpstream(ev: Event): bytes { if ev.FromClient? then ev.Chunk() else [] }

  function ToDownstream(ev: Event): bytes { if ev.FromUpstream? then ev.Chunk() else [] }

  /** The answer an event calls for: a pong to a ping, a ping to an idle wait. */
  function Reply(ev: Event): seq<WsMessage> {
    match ev
    case FromClient(Got(Ping(p)), _) => [Pong(p)]
    case FromClient(WsTimedOut, _) => [Ping([])]
    case _ => []
  }

  function ClientBytes(ts: seq<Turn>): bytes {
    if ts == [] then []
    else
      ClientBytes(ts[..|ts| - 1]) + ToUpstream(ts[|ts| - 1].ev)
  }

  function UpstreamBytes(ts: seq<Turn>): bytes {
    if ts == [] then []
    else
      UpstreamBytes(ts[..|ts| - 1]) + ToDownstream(ts[|ts| - 1].ev)
  }

  function Replies(ts: seq<Turn>): seq<WsMessage> {
    if ts == [] then [] else Replies(ts[..|ts| - 1]) + Reply(ts[|ts| - 1].ev)
  }

  function Total(ts: seq<Turn>): nat { |ClientBytes(ts)| + |UpstreamBytes(ts)| }

  /** A pong, a ping that was answered, or an idle wait that was. */
  predicate Answered(ev: Event) {
    ev.FromClient? && ((ev.message.Got? && ev.message.msg.Pong?)
                       || (((ev.message.Got? && ev.message.msg.Ping?) || ev.message.WsTimedOut?) && ev.write.Sent?))
  }

  /** The turn does not end the session: nothing was lost or refused, and the bytes so far are within
      the connection's cap. Idle waits and pings are no reason to end it. */
  predicate Harmless(cap: u64, ts: seq<Turn>, k: nat)
    requires k < |ts|
  {
    var ev := ts[k].ev;
    if Carries(ev) then
      && (0 < cap < MaxU64 ==> Total(ts[..k + 1]) <= cap)
      && (ev.Chunk() == [] || ts[k].granted)
      && ev.write.Sent?
    else Answered(ev)
  }

  predicate AllHarmless(cap: u64, ts: seq<Turn>) { forall k | 0 <= k < |ts| :: Harmless(cap, ts, k) }

  lemma Snoc(cap: u64, ts: seq<Turn>)
    requires ts != []
    ensures var front, last := ts[..|ts| - 1], ts[|ts| - 1];
            && Run(cap, ts) == Step(cap, Run(cap, front), last.ev, last.granted)
            && Total(ts) == Total(front) + |last.ev.Chunk()|
  {
  }

  /** A turn passes on a prefix of its chunk, in its direction; all of it if the session stays open. */
  lemma StepSends(cap: u64, s: Session, ev: Event, granted: bool)
    requires s.open
    ensures var n := Step(cap, s, ev, granted);
            && n.toTcp <= s.toTcp + ToUpstream(ev) && n.toClient <= s.toClient + ToDownstream(ev)
            && (n.open ==> n.toTcp == s.toTcp + ToUpstream(ev) && n.toClient == s.toClient + ToDownstream(ev)
                           && n.control == s.control + Reply(ev)
                           && n.connBytes == SatAdd(s.connBytes, |ev.Chunk()|))
  {
  }

  /** An open session has lost nothing: its counter, both byte streams and its answers are exactly
      those its events call for. */
  lemma {:induction false} OpenIsExact(cap: u64, ts: seq<Turn>)
    requires Run(cap, ts).open
    ensures var s := Run(cap, ts);
            && s.toTcp == ClientBytes(ts) && s.toClient == UpstreamBytes(ts) && s.control == Replies(ts)
            && s.connBytes == if Total(ts) > MaxU64 then MaxU64 else Total(ts)
  {
    if ts != [] {
      var front, last := ts[..|ts| - 1], ts[|ts| - 1];
      Snoc(cap, ts);
      assert Run(cap, front).open;
      hide Step;
      OpenIsExact(cap, front);
      StepSends(cap, Run(cap, front), last.ev, last.granted);
    }
  }

  lemma HarmlessFront(cap: u64, ts: seq<Turn>, k: nat)
    requires ts != [] && k < |ts| - 1
    ensures Harmless(cap, ts[..|ts| - 1], k) == Harmless(cap, ts, k)
  {
    assert ts[..|ts| - 1][..k + 1] == ts[..k + 1];
  }

  lemma HarmlessSnoc(cap: u64, ts: seq<Turn>)
    requires ts != []
    ensures AllHarmless(cap, ts) <==> AllHarmless(cap, ts[..|ts| - 1]) && Harmless(cap, ts, |ts| - 1)
  {
    var front := ts[..|ts| - 1];
    forall k | 0 <= k < |front| ensures Harmless(cap, front, k) == Harmless(cap, ts, k) { HarmlessFront(cap, ts, k); }
    hide Harmless;
  }

  lemma ClosedStays(cap: u64, ts: seq<Turn>)
    requires ts != [] && !Run(cap, ts[..|ts| - 1]).open
    ensures !Run(cap, ts).open
  {
  }

  /** The session is still open exactly when every event so far was harmless. */
  lemma {:induction false} OpenExactly(cap: u64, ts: seq<Turn>)
    ensures Run(cap, ts).open <==> AllHarmless(cap, ts)
  {
    if ts != [] {
      hide Harmless, AllHarmless, Step, Run;
      var front := ts[..|ts| - 1];
      OpenExactly(cap, front);
      HarmlessSnoc(cap, ts);
      if Run(cap, front).open {
        OpenIsExact(cap, front);
        LastHarmless(cap, ts);
      } else {
        ClosedStays(cap, ts);
      }
    }
  }

  /** What keeps one turn from ending an open session whose counter shows `before`. */
  lemma StaysOpen(cap: u64, s: Session, ev: Event, granted: bool, before: nat)
    requires s.open && s.connBytes == if before > MaxU64 then MaxU64 else before
    ensures Step(cap, s, ev, granted).open
            <==> if Carries(ev) then
                   && (0 < cap < MaxU64 ==> before + |ev.Chunk()| <= cap)
                   && (ev.Chunk() == [] || granted)
                   && ev.write.Sent?
                 else Answered(ev)
  {
  }

  lemma LastHarmless(cap: u64, ts: seq<Turn>)
    requires ts != [] && Run(cap, ts[..|ts| - 1]).open
    requires var before := Total(ts[..|ts| - 1]);
             Run(cap, ts[..|ts| - 1]).connBytes == if before > MaxU64 then MaxU64 else before
    ensures Run(cap, ts).open <==> Harmless(cap, ts, |ts| - 1)
  {
    var front, last := ts[..|ts| - 1], ts[|ts| - 1];
    Snoc(cap, ts);
    assert ts[..|ts|] == ts;
    hide Step, Run, Total, Answered, Carries;
    StaysOpen(cap, Run(cap, front), last.ev, last.granted, Total(front));
  }

  /** The pipe is transparent: whatever happens, each side receives a prefix of what the other sent. */
  lemma {:induction false} Transparent(cap: u64, ts: seq<Turn>)
    ensures Run(cap, ts).toTcp <= ClientBytes(ts) && Run(cap, ts).toClient <= UpstreamBytes(ts)
  {
    if ts != [] {
      var front, last := ts[..|ts| - 1], ts[|ts| - 1];
      Transparent(cap, front);
      Snoc(cap, ts);
      if Run(cap, front).open {
        hide Step;
        OpenIsExact(cap, front);
        StepSends(cap, Run(cap, front), last.ev, last.granted);
      }
    }
  }

  function Forwarded(s: Session): nat { |s.toTcp| + |s.toClient| }

  /** Each turn forwards at most what it asked the quota for, and nothing that was refused. */
  lemma ForwardsWhatItWants(cap: u64, s: Session, ev: Event, granted: bool)
    ensures Forwarded(s) <= Forwarded(Step(cap, s, ev, granted)) <= Forwarded(s) + Wants(cap, s, ev)
    ensures Wants(cap, s, ev) > 0 && !granted ==> Forwarded(Step(cap, s, ev, granted)) == Forwarded(s)
  {
  }

  /** A session never forwards more than `max_bytes_per_connection`. */
  lemma {:induction false} ConnCapHolds(cap: u64, ts: seq<Turn>)
    requires 0 < cap < MaxU64
    ensures Forwarded(Run(cap, ts)) <= cap
  {
    if ts != [] {
      var front := ts[..|ts| - 1];
      ConnCapHolds(cap, front);
      Snoc(cap, ts);
      if Run(cap, front).open {
        OpenIsExact(cap, front);
        ForwardsWhatItWants(cap, Run(cap, front), ts[|ts| - 1].ev, ts[|ts| - 1].granted);
      }
    }
  }

  /** A turn that passes its whole chunk on. */
  predicate PassesOn(t: Turn) { Carries(t.ev) && t.granted && t.ev.write.Sent? }

  /** The largest cap is no cap: the counter saturates before it can exceed it. However small the chunks,
      a session that is granted and sends all of them stays open past `u64::MAX` bytes. */
  lemma LargestCapUnbounded(ts: seq<Turn>)
    requires forall k | 0 <= k < |ts| :: PassesOn(ts[k])
    requires Total(ts) > MaxU64
    ensures Run(MaxU64, ts).open && Forwarded(Run(MaxU64, ts)) > MaxU64
  {
    forall k | 0 <= k < |ts| ensures Harmless(MaxU64, ts, k) { assert PassesOn(ts[k]); }
    OpenExactly(MaxU64, ts);
    OpenIsExact(MaxU64, ts);
  }

  /** `n` messages alike. */
  function Repeated(data: bytes, n: nat): (ts: seq<Turn>)
    requires 0 < |data| <= MaxBuffer
    ensures |ts| == n && forall k | 0 <= k < n :: ts[k] == Turn(FromClient(Got(Binary(data)), Sent), true)
  {
    if n == 0 then [] else Repeated(data, n - 1) + [Turn(FromClient(Got(Binary(data)), Sent), true)]
  }

  lemma TotalSnoc(ts: seq<Turn>, t: Turn)
    ensures Total(ts + [t]) == Total(ts) + |t.ev.Chunk()|
  {
    assert (ts + [t])[..|ts|] == ts;
  }

  lemma {:induction false} RepeatedTotal(data: bytes, n: nat)
    requires 0 < |data| <= MaxBuffer
    ensures Total(Repeated(data, n)) >= n
  {
    if n > 0 {
      RepeatedTotal(data, n - 1);
      var less, t := Repeated(data, n - 1), Turn(FromClient(Got(Binary(data)), Sent), true);
      assert Repeated(data, n) == less + [t];
      TotalSnoc(less, t);
    }
  }

  /** There are such sessions for messages of any size. */
  lemma LargestCapPassed(data: bytes) returns (ts: seq<Turn>)
    requires 0 < |data| <= MaxBuffer
    ensures forall k | 0 <= k < |ts| :: PassesOn(ts[k]) && ts[k].ev.Chunk() == data
    ensures Forwarded(Run(MaxU64, ts)) > MaxU64
  {
    ts := Repeated(data, MaxU64 + 1);
    RepeatedTotal(data, MaxU64 + 1);
    LargestCapUnbounded(ts);
  }

  predicate IsIdlePing(t: Turn) { t.ev.FromClient? && t.ev.message.WsTimedOut? && t.ev.write.Sent? }

  function Busy(ts: seq<Turn>): seq<Turn> {
    if ts == [] then []
    else
      var front := Busy(ts[..|ts| - 1]);
      if IsIdlePing(ts[|ts| - 1]) then front else front + [ts[|ts| - 1]]
  }

  lemma ControlIrrelevant(cap: u64, s: Session, u: Session, ev: Event, granted: bool)
    requires s.(control := []) == u.(control := [])
    ensures Step(cap, s, ev, granted).(control := []) == Step(cap, u, ev, granted).(control := [])
  {
  }

  lemma IdlePingStep(cap: u64, s: Session, t: Turn)
    requires IsIdlePing(t)
    ensures Step(cap, s, t.ev, t.granted).(control := []) == s.(control := [])
  {
  }

  lemma BusySnoc(ts: seq<Turn>)
    requires ts != []
    ensures var front, last := ts[..|ts| - 1], ts[|ts| - 1];
            Busy(ts) == if IsIdlePing(last) then Busy(front) else Busy(front) + [last]
  {
  }

  lemma RunSnoc(cap: u64, ts: seq<Turn>, t: Turn)
    ensures Run(cap, ts + [t]) == Step(cap, Run(cap, ts), t.ev, t.granted)
  {
    assert (ts + [t])[..|ts|] == ts;
  }

  /** Idle waits answered by a ping change nothing but the pings: without them the session forwards
      the same bytes and ends at the same event. */
  lemma {:induction false} IdleChangesNothing(cap: u64, ts: seq<Turn>)
    ensures Run(cap, ts).(control := []) == Run(cap, Busy(ts)).(control := [])
  {
    if ts != [] {
      hide Step, Run, Busy, IsIdlePing;
      var front, last := ts[..|ts| - 1], ts[|ts| - 1];
      IdleChangesNothing(cap, front);
      BusySnoc(ts);
      Snoc(cap, ts);
      if IsIdlePing(last) {
        IdlePingStep(cap, Run(cap, front), last);
      } else {
        ControlIrrelevant(cap, Run(cap, front), Run(cap, Busy(front)), last.ev, last.granted);
        RunSnoc(cap, Busy(front), last);
      }
    }
  }
}
