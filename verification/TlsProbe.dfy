/** The TLS probe of a session (src/connection.rs): it collects WebSocket messages until the first
    TLS record is complete, validates the ClientHello and forwards what it collected. */
module TlsProbe {
  import opened Channels
  import opened ClientHellos
  import opened Tls
  import opened Wrappers
  import Remotes
  import Utf8

  /** The probe waits on, answering pings. */
  predicate Passes(o: WsOutcome) { o.Got? && !o.msg.Close? }

  predicate AllPass(os: seq<WsOutcome>) { forall i | 0 <= i < |os| :: Passes(os[i]) }

  /** After `k` outcomes the buffer is short of a record, and not too long to go on. */
  predicate Waiting(os: seq<WsOutcome>, k: nat)
    requires k <= |os|
  {
    var hello := Stream(os[..k]);
    TlsRecordNeeded(hello).Ok? && TlsRecordNeeded(hello).value > 0 && |hello| <= MaxTlsRecord
  }

  /** The probe stops collecting, successfully, right after outcome `k - 1`. */
  predicate CompletesAt(os: seq<WsOutcome>, k: nat)
    requires 0 < k <= |os|
  {
    && AllPass(os[..k])
    && IsData(os[k - 1])
    && TlsRecordNeeded(Stream(os[..k])) == Ok(0)
    && forall j | 0 <= j < k :: Waiting(os, j)
  }

  ghost predicate Completes(os: seq<WsOutcome>) { exists k | 0 < k <= |os| :: CompletesAt(os, k) }

  /** The ClientHello is complete at some message boundary and passes validation. */
  ghost predicate Accepts(os: seq<WsOutcome>, expectedHost: string, isLiteral: bool) {
    exists k | 0 < k <= |os| ::
      CompletesAt(os, k) && ValidateTlsClientHello(Stream(os[..k]), expectedHost, isLiteral).Ok?
  }

  lemma CompletesOnce(os: seq<WsOutcome>, k: nat, l: nat)
    requires 0 < k <= |os| && 0 < l <= |os| && CompletesAt(os, k) && CompletesAt(os, l)
    ensures k == l
  {
    assert k < l ==> Waiting(os, k);
    assert l < k ==> Waiting(os, l);
  }

  lemma NeverCompletes(os: seq<WsOutcome>, used: nat)
    requires used <= |os|
    requires forall j | 0 <= j < used :: Waiting(os, j)
    requires || (used == |os| && Waiting(os, used))
             || (used > 0 && !Passes(os[used - 1]))
             || (!Waiting(os, used) && TlsRecordNeeded(Stream(os[..used])) != Ok(0))
    ensures !Completes(os)
  {
    forall k | 0 < k <= |os| ensures !CompletesAt(os, k) {
      assert k < used ==> Waiting(os, k);
      assert 0 < used <= k ==> os[..k][used - 1] == os[used - 1];
    }
  }

  lemma StreamStep(os: seq<WsOutcome>, k: nat)
    requires k < |os|
    ensures Stream(os[..k + 1]) == Stream(os[..k]) + Payload(os[k])
    ensures !IsData(os[k]) ==> Stream(os[..k + 1]) == Stream(os[..k])
    ensures AllPass(os[..k]) && Passes(os[k]) ==> AllPass(os[..k + 1])
  {
    assert os[..k + 1][..k] == os[..k];
  }

  /** The probe has taken the first `k` outcomes and waits for more. */
  predicate Collecting(os: seq<WsOutcome>, k: nat)
    requires k <= |os|
  {
    AllPass(os[..k]) && forall j | 0 <= j <= k :: Waiting(os, j)
  }

  lemma CollectingStarts(os: seq<WsOutcome>)
    ensures Collecting(os, 0) && Stream(os[..0]) == []
  {
  }

  lemma CollectingGoesOn(os: seq<WsOutcome>, k: nat)
    requires k < |os| && Collecting(os, k) && Passes(os[k])
    requires !IsData(os[k]) || Waiting(os, k + 1)
    ensures Collecting(os, k + 1)
  {
    StreamStep(os, k);
    assert Waiting(os, k);
    hide TlsRecordNeeded, Stream;
  }

  lemma CollectingDone(os: seq<WsOutcome>, k: nat)
    requires k < |os| && Collecting(os, k) && Passes(os[k]) && IsData(os[k])
    requires TlsRecordNeeded(Stream(os[..k + 1])) == Ok(0)
    ensures CompletesAt(os, k + 1)
  {
    StreamStep(os, k);
    hide TlsRecordNeeded, Stream, Waiting;
  }

  lemma CollectingStops(os: seq<WsOutcome>, k: nat)
    requires k <= |os| && Collecting(os, k)
    requires k == |os| || !Passes(os[k]) || (!Waiting(os, k + 1) && TlsRecordNeeded(Stream(os[..k + 1])) != Ok(0))
    ensures !Completes(os)
  {
    hide TlsRecordNeeded, Stream, Waiting, CompletesAt, Completes;
    NeverCompletes(os, if k == |os| then k else k + 1);
  }

  /** The collecting loop. */
  method CollectRecord(os: seq<WsOutcome>) returns (done: bool, hello: bytes, used: nat)
    ensures used <= |os| && hello == Stream(os[..used])
    ensures done ==> 0 < used && CompletesAt(os, used)
    ensures !done ==> !Completes(os)
  {
    hello, used := [], 0;
    CollectingStarts(os);
    hide TlsRecordNeeded, Stream, Collecting, CompletesAt, Completes, AllPass;
    while used < |os|
      invariant used <= |os| && hello == Stream(os[..used]) && Collecting(os, used)
    {
      StreamStep(os, used);
      var o := os[used];
      used := used + 1;
      hello := hello + Payload(o);
      if !Passes(o) {
        CollectingStops(os, used - 1);
        return false, hello, used;
      }
      if !IsData(o) {
        CollectingGoesOn(os, used - 1);
        continue;
      }
      var needed := TlsRecordNeeded(hello);
      if needed == Ok(0) {
        CollectingDone(os, used - 1);
        return true, hello, used;
      }
      if needed.Err? || |hello| > 16 * 1024 {
        CollectingStops(os, used - 1);
        return false, hello, used;
      }
      CollectingGoesOn(os, used - 1);
    }
    // the client is gone
    CollectingStops(os, used);
    return false, hello, used;
  }

  /** `probe_tls_sni`: `sent` is what reached the upstream socket, `used` the outcomes awaited. */
  method ProbeTlsSni(os: seq<WsOutcome>, expectedHost: string, isLiteral: bool, write: WriteOutcome)
    returns (accepted: bool, sent: bytes, used: nat)
    ensures used <= |os|
    ensures accepted <==> write.Sent? && Accepts(os, expectedHost, isLiteral)
    ensures accepted <==> write.Sent? && ShowsHello(os, expectedHost, isLiteral)
    ensures accepted ==> 0 < used && CompletesAt(os, used) && sent == Stream(os[..used])
    ensures sent == if Accepts(os, expectedHost, isLiteral) then write.Reached(Stream(os[..used])) else []
  {
    var done, hello;
    AcceptsExactly(os, expectedHost, isLiteral);
    done, hello, used := CollectRecord(os);
    accepted, sent := false, [];
    if !done {
      return;
    }
    if Accepts(os, expectedHost, isLiteral) {
      ghost var k :| 0 < k <= |os| && CompletesAt(os, k)
                     && ValidateTlsClientHello(Stream(os[..k]), expectedHost, isLiteral).Ok?;
      CompletesOnce(os, used, k);
    }
    if ValidateTlsClientHello(hello, expectedHost, isLiteral).Err? {
      return;
    }
    sent := write.Reached(hello);
    accepted := write.Sent?;
  }

  // ------------------------------------------------------------ what is accepted

  /** The host name in a record suits a destination: any hello will do for a literal, and otherwise it
      must name the destination's host, up to spelling. */
  predicate Suits(record: bytes, host: string, isLiteral: bool) {
    match SniResult(record)
    case Err(_) => false
    case Ok(None) => isLiteral
    case Ok(Some(name)) => isLiteral || Remotes.NormalizeHostname(name) == Remotes.NormalizeHostname(host)
  }

  /** The stream that `hello` grew from was short of its record, and not too long. */
  predicate WasShort(os: seq<WsOutcome>, j: nat, hello: bytes)
    requires j <= |os| && |hello| >= 5
  {
    |Stream(os[..j])| < 5 + Declared(hello) && |Stream(os[..j])| <= 16384
  }

  /** With message `k - 1`, a data message, the stream first holds the whole of a record that suits the
      destination. Nothing before was a close or an error, or left more than 16384 bytes waiting. */
  predicate HelloAt(os: seq<WsOutcome>, k: nat, host: string, isLiteral: bool)
    requires 0 < k <= |os|
  {
    var hello := Stream(os[..k]);
    && (forall i | 0 <= i < k :: os[i].Got? && !os[i].msg.Close?)
    && (os[k - 1].msg.Binary? || os[k - 1].msg.Text?)
    && IsRecordStart(hello) && 5 + Declared(hello) <= |hello|
    && (forall j | 0 <= j < k :: WasShort(os, j, hello))
    && Suits(hello, host, isLiteral)
  }

  ghost predicate ShowsHello(os: seq<WsOutcome>, host: string, isLiteral: bool) {
    exists k | 0 < k <= |os| :: HelloAt(os, k, host, isLiteral)
  }

  lemma SuitsExactly(record: bytes, host: string, isLiteral: bool)
    requires TlsRecordNeeded(record) == Ok(0)
    ensures ValidateTlsClientHello(record, host, isLiteral).Ok? <==> Suits(record, host, isLiteral)
  {
    hide TlsRecordNeeded, SniResult, Remotes.NormalizeHostname;
  }

  /** Short of a whole record, the probe waits exactly while what it has is not too long. */
  lemma WaitingBefore(os: seq<WsOutcome>, k: nat, j: nat)
    requires j <= k <= |os| && TlsRecordNeeded(Stream(os[..k])) == Ok(0)
    ensures Waiting(os, j)
            <==> |Stream(os[..j])| < 5 + Declared(Stream(os[..k])) && |Stream(os[..j])| <= 16384
  {
    var p, s := Stream(os[..j]), Stream(os[..k]);
    StreamPrefix(os[..k], j);
    assert os[..k][..j] == os[..j];
    hide *;
    NeededExactly(s);
    PrefixNeedsMore(s, p);
  }

  lemma PassesExactly(os: seq<WsOutcome>, k: nat)
    requires k <= |os|
    ensures AllPass(os[..k]) <==> forall i | 0 <= i < k :: os[i].Got? && !os[i].msg.Close?
  {
    forall i | 0 <= i < k ensures os[..k][i] == os[i] {}
  }

  lemma WaitedExactly(os: seq<WsOutcome>, k: nat)
    requires k <= |os| && TlsRecordNeeded(Stream(os[..k])) == Ok(0)
    ensures |Stream(os[..k])| >= 5
    ensures (forall j | 0 <= j < k :: Waiting(os, j)) <==> forall j | 0 <= j < k :: WasShort(os, j, Stream(os[..k]))
  {
    RecordFits(Stream(os[..k]));
    hide TlsRecordNeeded, Stream, Waiting, Declared;
    forall j | 0 <= j < k ensures Waiting(os, j) <==> WasShort(os, j, Stream(os[..k])) { WaitingBefore(os, k, j); }
  }

  lemma HelloAtExactly(os: seq<WsOutcome>, k: nat, host: string, isLiteral: bool)
    requires 0 < k <= |os|
    ensures HelloAt(os, k, host, isLiteral)
            <==> CompletesAt(os, k) && ValidateTlsClientHello(Stream(os[..k]), host, isLiteral).Ok?
  {
    hide TlsRecordNeeded, Stream, Waiting, Suits, ValidateTlsClientHello, Declared, IsRecordStart, AllPass, WasShort;
    var hello := Stream(os[..k]);
    NeededExactly(hello);
    PassesExactly(os, k);
    if TlsRecordNeeded(hello) == Ok(0) {
      SuitsExactly(hello, host, isLiteral);
      WaitedExactly(os, k);
    }
  }

  /** What the probe accepts, told without the functions it is made of. */
  lemma AcceptsExactly(os: seq<WsOutcome>, host: string, isLiteral: bool)
    ensures Accepts(os, host, isLiteral) <==> ShowsHello(os, host, isLiteral)
  {
    forall k | 0 < k <= |os|
      ensures HelloAt(os, k, host, isLiteral)
              <==> CompletesAt(os, k) && ValidateTlsClientHello(Stream(os[..k]), host, isLiteral).Ok?
    {
      HelloAtExactly(os, k, host, isLiteral);
    }
    hide HelloAt, CompletesAt, ValidateTlsClientHello, Stream;
  }

  // ------------------------------------------------------------ fragmentation

  /** The length of the record the stream starts with. */
  function RecordLength(s: bytes): nat
    requires TlsRecordNeeded(s) == Ok(0)
  {
    5 + ReadU16(s, 3)
  }

  /** Bytes short of the record are answered with "more", never with an error. */
  lemma PrefixNeedsMore(s: bytes, p: bytes)
    requires TlsRecordNeeded(s) == Ok(0) && p <= s
    ensures TlsRecordNeeded(p).Ok?
    ensures TlsRecordNeeded(p) == Ok(0) <==> |p| >= RecordLength(s)
  {
  }

  /** No message boundary falls between the probe's buffer limit and the end of the record. */
  ghost predicate NoOverlongWait(os: seq<WsOutcome>, total: nat) {
    forall k | 0 <= k <= |os| :: |Stream(os[..k])| <= MaxTlsRecord || |Stream(os[..k])| >= total
  }

  lemma {:induction false} FirstBoundary(os: seq<WsOutcome>, total: nat, n: nat) returns (k: nat)
    requires n <= |os| && 0 < total <= |Stream(os[..n])|
    ensures 0 < k <= n && |Stream(os[..k])| >= total && IsData(os[k - 1])
    ensures forall j | 0 <= j < k :: |Stream(os[..j])| < total
    decreases n
  {
    assert n > 0 by { assert os[..0] == []; }
    assert os[..n][..n - 1] == os[..n - 1];
    if |Stream(os[..n - 1])| >= total {
      k := FirstBoundary(os, total, n - 1);
    } else {
      k := n;
      forall j | 0 <= j < n ensures |Stream(os[..j])| < total {
        StreamPrefix(os[..n - 1], j);
        assert os[..n - 1][..j] == os[..j];
      }
    }
  }

  lemma WaitingExactly(os: seq<WsOutcome>, j: nat)
    requires j <= |os| && TlsRecordNeeded(Stream(os)) == Ok(0)
    ensures TlsRecordNeeded(Stream(os[..j])) == Ok(0) <==> |Stream(os[..j])| >= RecordLength(Stream(os))
    ensures Waiting(os, j) <==> |Stream(os[..j])| < RecordLength(Stream(os)) && |Stream(os[..j])| <= MaxTlsRecord
  {
    StreamPrefix(os, j);
    PrefixNeedsMore(Stream(os), Stream(os[..j]));
  }

  lemma Monotone(os: seq<WsOutcome>, j: nat, k: nat)
    requires j <= k <= |os|
    ensures |Stream(os[..j])| <= |Stream(os[..k])|
  {
    StreamPrefix(os[..k], j);
    assert os[..k][..j] == os[..j];
  }

  /** A stream that holds a whole first record completes the probe, at the first message boundary
      past that record, exactly when no boundary makes the probe give up before. */
  lemma CompletionExactly(os: seq<WsOutcome>) returns (k: nat)
    requires AllPass(os) && TlsRecordNeeded(Stream(os)) == Ok(0)
    ensures 0 < k <= |os| && |Stream(os[..k])| >= RecordLength(Stream(os))
    ensures forall j | 0 <= j < k :: |Stream(os[..j])| < RecordLength(Stream(os))
    ensures NoOverlongWait(os, RecordLength(Stream(os))) <==> CompletesAt(os, k)
    ensures Completes(os) <==> CompletesAt(os, k)
  {
    var total := RecordLength(Stream(os));
    assert os[..|os|] == os;
    k := FirstBoundary(os, total, |os|);
    hide CompletesAt, Waiting, TlsRecordNeeded, RecordLength, Stream;
    WaitingExactly(os, k);
    WaitsUpTo(os, k);
    forall j | k <= j <= |os| ensures |Stream(os[..j])| >= total { Monotone(os, k, j); }
    if l :| 0 < l <= |os| && CompletesAt(os, l) {
      WaitingExactly(os, l);
      WaitsBefore(os, l, k);
      WaitingExactly(os, k);
    }
  }

  /** At the first boundary past the record the probe completes, unless it gave up before. */
  lemma WaitsUpTo(os: seq<WsOutcome>, k: nat)
    requires AllPass(os) && TlsRecordNeeded(Stream(os)) == Ok(0) && 0 < k <= |os| && IsData(os[k - 1])
    requires |Stream(os[..k])| >= RecordLength(Stream(os))
    requires forall j | 0 <= j < k :: |Stream(os[..j])| < RecordLength(Stream(os))
    ensures CompletesAt(os, k) <==> forall j | 0 <= j < k :: |Stream(os[..j])| <= MaxTlsRecord
  {
    hide Waiting, TlsRecordNeeded, RecordLength, Stream;
    WaitingExactly(os, k);
    forall j | 0 <= j < k ensures Waiting(os, j) <==> |Stream(os[..j])| <= MaxTlsRecord { WaitingExactly(os, j); }
  }

  lemma WaitsBefore(os: seq<WsOutcome>, l: nat, j: nat)
    requires 0 < l <= |os| && j <= |os| && CompletesAt(os, l)
    ensures j < l ==> Waiting(os, j)
    ensures TlsRecordNeeded(Stream(os[..l])) == Ok(0)
  {
    hide Waiting, TlsRecordNeeded, Stream;
  }

  /** Validation reads the record and nothing after it. */
  lemma OnlyRecordMatters(s: bytes, b: bytes, expectedHost: string, isLiteral: bool)
    requires TlsRecordNeeded(s) == Ok(0) && b <= s && |b| >= RecordLength(s)
    ensures ValidateTlsClientHello(b, expectedHost, isLiteral).Ok?
            <==> ValidateTlsClientHello(s[..RecordLength(s)], expectedHost, isLiteral).Ok?
  {
    var record := s[..RecordLength(s)];
    PrefixNeedsMore(s, record);
    assert b == record + b[|record|..];
    ValidationIgnoresRest(record, b[|record|..], expectedHost, isLiteral);
  }

  lemma AcceptsAt(os: seq<WsOutcome>, k: nat, expectedHost: string, isLiteral: bool)
    requires 0 < k <= |os| && (Completes(os) <==> CompletesAt(os, k))
    ensures Accepts(os, expectedHost, isLiteral)
            <==> CompletesAt(os, k) && ValidateTlsClientHello(Stream(os[..k]), expectedHost, isLiteral).Ok?
  {
    hide CompletesAt, ValidateTlsClientHello;
    if CompletesAt(os, k) {
      forall l | 0 < l <= |os| && CompletesAt(os, l) ensures l == k { CompletesOnce(os, k, l); }
    }
  }

  /** The verdict on a stream that holds a whole first record. */
  lemma VerdictExactly(os: seq<WsOutcome>, s: bytes, expectedHost: string, isLiteral: bool)
    requires AllPass(os) && s == Stream(os) && TlsRecordNeeded(s) == Ok(0)
    ensures Accepts(os, expectedHost, isLiteral)
            <==> NoOverlongWait(os, RecordLength(s))
                 && ValidateTlsClientHello(s[..RecordLength(s)], expectedHost, isLiteral).Ok?
  {
    var k := CompletionExactly(os);
    hide *;
    StreamPrefix(os, k);
    OnlyRecordMatters(s, Stream(os[..k]), expectedHost, isLiteral);
    AcceptsAt(os, k, expectedHost, isLiteral);
  }

  lemma StableInStream(s: bytes, b: bytes)
    requires b <= s && TlsRecordNeeded(b) == Ok(0)
    ensures TlsRecordNeeded(s) == Ok(0)
  {
    assert s == b + s[|b|..];
    NeededIsStable(b, s[|b|..]);
  }

  lemma CompleteStays(os: seq<WsOutcome>, k: nat)
    requires 0 < k <= |os|
    ensures CompletesAt(os, k) ==> TlsRecordNeeded(Stream(os)) == Ok(0)
  {
    if CompletesAt(os, k) {
      hide TlsRecordNeeded, Waiting;
      StreamPrefix(os, k);
      StableInStream(Stream(os), Stream(os[..k]));
    }
  }

  /** A stream that is refused, or never holds a whole record, is rejected in every fragmentation. */
  lemma IncompleteRejected(os: seq<WsOutcome>, expectedHost: string, isLiteral: bool)
    requires TlsRecordNeeded(Stream(os)) != Ok(0)
    ensures !Accepts(os, expectedHost, isLiteral)
  {
    forall k | 0 < k <= |os| ensures !CompletesAt(os, k) { CompleteStays(os, k); }
  }

  /** When the first record declares at most 16380 bytes, the verdict depends on the bytes alone,
      however they are split into messages and whatever pings and pongs come between. */
  lemma FragmentationIndependent(os: seq<WsOutcome>, ps: seq<WsOutcome>, expectedHost: string, isLiteral: bool)
    requires AllPass(os) && AllPass(ps) && Stream(os) == Stream(ps)
    requires TlsRecordNeeded(Stream(os)) == Ok(0) ==> ReadU16(Stream(os), 3) <= 16380
    ensures Accepts(os, expectedHost, isLiteral) == Accepts(ps, expectedHost, isLiteral)
  {
    if TlsRecordNeeded(Stream(os)) == Ok(0) {
      VerdictExactly(os, Stream(os), expectedHost, isLiteral);
      VerdictExactly(ps, Stream(os), expectedHost, isLiteral);
    } else {
      IncompleteRejected(os, expectedHost, isLiteral);
      IncompleteRejected(ps, expectedHost, isLiteral);
    }
  }

  // ------------------------------------------------------------ every ClientHello, judged

  /** The first host name of a ClientHello is the UTF-8 spelling of the destination's; without a host name,
      or with any that is a text, it may only go to a literal. */
  ghost predicate Names(h: ClientHello, host: string, isLiteral: bool) {
    match h.HostName()
    case None => isLiteral
    case Some(b) =>
      exists name :: name != "" && b == Utf8.Encode(name)
                     && (isLiteral || Remotes.NormalizeHostname(name) == Remotes.NormalizeHostname(host))
  }

  lemma VerdictNames(h: ClientHello, record: bytes, host: string, isLiteral: bool)
    requires SniResult(record) == Verdict(h.HostName())
    ensures Suits(record, host, isLiteral) <==> Names(h, host, isLiteral)
  {
    hide SniResult, NameResult, Remotes.NormalizeHostname, Utf8.Encode;
    if h.HostName().Some? {
      Utf8.NameExactly(h.HostName().value);
      var r := NameResult(h.HostName().value);
      if r.Ok? {
        NameResultIsSome(h.HostName().value);
        assert r == Ok(Some(r.value.value));
      }
    }
  }

  /** A ClientHello of the grammar, whatever else it holds and whatever follows it, is accepted exactly when
      it names the destination and no message boundary makes the probe give up on it. */
  lemma EncodedHelloJudged(os: seq<WsOutcome>, h: ClientHello, version: bytes, rest: bytes, host: string,
                           isLiteral: bool)
    requires h.Valid() && |version| == 2 && version[0] == 3 && |h.Encode()| + 4 <= 16384
    requires AllPass(os) && Stream(os) == h.EncodeRecord(version) + rest
    ensures ShowsHello(os, host, isLiteral)
            <==> NoOverlongWait(os, 9 + |h.Encode()|) && Names(h, host, isLiteral)
  {
    var record := h.EncodeRecord(version);
    hide TlsRecordNeeded, SniResult, ReadU16, Verdict, ClientHello.Encode, ClientHello.EncodeRecord, ClientHello.Valid;
    hide Stream, AllPass, NoOverlongWait, Accepts, ShowsHello, ValidateTlsClientHello, Suits, Names;
    EncodedRecordComplete(h, version, rest);
    EncodedRecordComplete(h, version, []);
    EncodedHelloUnderstood(h, version, []);
    EncodedLength(h, version);
    assert record + [] == record;
    assert (record + rest)[..|record|] == record;
    assert RecordLength(record + rest) == |record| by { RecordAtFront(record, rest); }
    VerdictExactly(os, record + rest, host, isLiteral);
    SuitsExactly(record, host, isLiteral);
    VerdictNames(h, record, host, isLiteral);
    AcceptsExactly(os, host, isLiteral);
  }

  lemma RecordAtFront(record: bytes, rest: bytes)
    requires |record| >= 5
    ensures ReadU16(record + rest, 3) == ReadU16(record, 3)
  {
  }

  /** So sent whole in one message it is accepted for a host exactly when it names it. */
  lemma WholeHelloJudged(h: ClientHello, version: bytes, name: string, host: string)
    requires h.Valid() && |version| == 2 && version[0] == 3 && |h.Encode()| + 4 <= 16384
    requires name != "" && h.HostName() == Some(Utf8.Encode(name))
    ensures ShowsHello([Got(Binary(h.EncodeRecord(version)))], host, false)
            <==> Remotes.NormalizeHostname(name) == Remotes.NormalizeHostname(host)
  {
    assert h.head.Valid();
    hide *;
    var record := h.EncodeRecord(version);
    EncodedLength(h, version);
    WholeMessage(record);
    EncodedHelloJudged([Got(Binary(record))], h, version, [], host, false);
    NamesOne(h, name, host);
  }

  lemma WholeMessage(record: bytes)
    ensures AllPass([Got(Binary(record))]) && Stream([Got(Binary(record))]) == record + []
    ensures NoOverlongWait([Got(Binary(record))], |record|)
  {
    TwoStreams(record, 0);
    OneMessagePasses(record);
    WholeNeverWaits(record, |record|);
    assert record + [] == record;
  }

  lemma NamesOne(h: ClientHello, name: string, host: string)
    requires name != "" && h.HostName() == Some(Utf8.Encode(name))
    ensures Names(h, host, false) <==> Remotes.NormalizeHostname(name) == Remotes.NormalizeHostname(host)
  {
    hide ClientHello.HostName, Remotes.NormalizeHostname, Utf8.Encode, NameResult;
    forall s ensures Utf8.Encode(s) == Utf8.Encode(name) ==> s == name { Utf8.EncodeInjective(s, name); }
  }

  function Cut(s: bytes, n: nat): seq<WsOutcome>
    requires n <= |s|
  {
    [Got(Binary(s[..n])), Got(Binary(s[n..]))]
  }

  lemma RecordFits(s: bytes)
    requires TlsRecordNeeded(s) == Ok(0)
    ensures 5 <= RecordLength(s) <= |s|
  {
  }

  lemma TwoMessagesPass(s: bytes, n: nat)
    requires n <= |s|
    ensures AllPass(Cut(s, n))
  {
  }

  lemma GivesUp(os: seq<WsOutcome>)
    requires AllPass(os) && TlsRecordNeeded(Stream(os)) == Ok(0) && !NoOverlongWait(os, RecordLength(Stream(os)))
    ensures !Completes(os)
  {
    var k := CompletionExactly(os);
  }

  lemma NotComplete(os: seq<WsOutcome>, expectedHost: string, isLiteral: bool)
    requires !Completes(os)
    ensures !Accepts(os, expectedHost, isLiteral)
  {
    hide CompletesAt;
  }

  lemma OneMessagePasses(s: bytes)
    ensures AllPass([Got(Binary(s))])
  {
  }

  lemma WholeAccepted(s: bytes, expectedHost: string, isLiteral: bool)
    requires TlsRecordNeeded(s) == Ok(0)
    requires ValidateTlsClientHello(s[..RecordLength(s)], expectedHost, isLiteral).Ok?
    ensures Accepts([Got(Binary(s))], expectedHost, isLiteral)
  {
    hide ValidateTlsClientHello, AllPass, NoOverlongWait, Accepts;
    TwoStreams(s, 0);
    RecordFits(s);
    OneMessagePasses(s);
    hide *;
    WholeNeverWaits(s, RecordLength(s));
    VerdictExactly([Got(Binary(s))], s, expectedHost, isLiteral);
  }

  /** A longer record is rejected when cut anywhere past the buffer limit and before its end. */
  lemma CutRejected(s: bytes, n: nat, expectedHost: string, isLiteral: bool)
    requires TlsRecordNeeded(s) == Ok(0) && MaxTlsRecord < n < RecordLength(s)
    ensures !Accepts(Cut(s, n), expectedHost, isLiteral)
  {
    RecordFits(s);
    TwoMessagesPass(s, n);
    hide *;
    TwoStreams(s, n);
    CutWaits(s, n, RecordLength(s));
    GivesUp(Cut(s, n));
    NotComplete(Cut(s, n), expectedHost, isLiteral);
  }

  lemma WholeNeverWaits(s: bytes, total: nat)
    requires total <= |s|
    ensures NoOverlongWait([Got(Binary(s))], total)
  {
    var whole := [Got(Binary(s))];
    TwoStreams(s, 0);
    assert whole[..0] == [] && whole[..1] == whole;
  }

  lemma CutWaits(s: bytes, n: nat, total: nat)
    requires MaxTlsRecord < n < total <= |s|
    ensures !NoOverlongWait(Cut(s, n), total)
  {
    TwoStreams(s, n);
    assert |Stream(Cut(s, n)[..1])| == n;
  }

  lemma OneMore(os: seq<WsOutcome>, d: bytes)
    ensures Stream(os + [Got(Binary(d))]) == Stream(os) + d
  {
    assert (os + [Got(Binary(d))])[..|os|] == os;
  }

  lemma TwoStreams(s: bytes, n: nat)
    requires n <= |s|
    ensures Stream([Got(Binary(s))]) == s
    ensures Stream(Cut(s, n)) == s && Stream(Cut(s, n)[..1]) == s[..n]
  {
    OneMore([], s);
    OneMore([], s[..n]);
    OneMore([Got(Binary(s[..n]))], s[n..]);
    assert Stream([]) == [];
    hide Stream;
    NoneBefore(Got(Binary(s)), Got(Binary(s)));
    NoneBefore(Got(Binary(s[..n])), Got(Binary(s[n..])));
    Joined(s, n);
  }

  lemma NoneBefore(o: WsOutcome, p: WsOutcome)
    ensures [] + [o] == [o] && [o] + [p] == [o, p] && [o, p][..1] == [o]
  {
  }

  lemma Joined(s: bytes, n: nat)
    requires n <= |s|
    ensures [] + s == s && [] + s[..n] == s[..n] && s[..n] + s[n..] == s
  {
  }

  /** The probe gives one verdict on the stream, however it is split and interleaved. */
  ghost predicate OneVerdict(s: bytes, expectedHost: string, isLiteral: bool) {
    forall os, ps | AllPass(os) && AllPass(ps) && Stream(os) == s && Stream(ps) == s ::
      Accepts(os, expectedHost, isLiteral) == Accepts(ps, expectedHost, isLiteral)
  }

  lemma ShortRecordOneVerdict(s: bytes, expectedHost: string, isLiteral: bool)
    requires TlsRecordNeeded(s) == Ok(0) && RecordLength(s) <= MaxTlsRecord + 1
    ensures OneVerdict(s, expectedHost, isLiteral)
  {
    forall os, ps | AllPass(os) && AllPass(ps) && Stream(os) == s && Stream(ps) == s
      ensures Accepts(os, expectedHost, isLiteral) == Accepts(ps, expectedHost, isLiteral)
    {
      FragmentationIndependent(os, ps, expectedHost, isLiteral);
    }
  }

  lemma RefusedOneVerdict(s: bytes, expectedHost: string, isLiteral: bool)
    requires TlsRecordNeeded(s) == Ok(0)
    requires ValidateTlsClientHello(s[..RecordLength(s)], expectedHost, isLiteral).Err?
    ensures OneVerdict(s, expectedHost, isLiteral)
  {
    forall os | AllPass(os) && Stream(os) == s ensures !Accepts(os, expectedHost, isLiteral) {
      VerdictExactly(os, s, expectedHost, isLiteral);
    }
    hide Accepts, AllPass;
  }

  lemma LongRecordTwoVerdicts(s: bytes, expectedHost: string, isLiteral: bool)
    requires TlsRecordNeeded(s) == Ok(0) && RecordLength(s) > MaxTlsRecord + 1
    requires ValidateTlsClientHello(s[..RecordLength(s)], expectedHost, isLiteral).Ok?
    ensures !OneVerdict(s, expectedHost, isLiteral)
  {
    RecordFits(s);
    OneMessagePasses(s);
    TwoMessagesPass(s, MaxTlsRecord + 1);
    TwoStreams(s, MaxTlsRecord + 1);
    WholeAccepted(s, expectedHost, isLiteral);
    CutRejected(s, MaxTlsRecord + 1, expectedHost, isLiteral);
    hide Accepts, AllPass, Stream;
  }

  /** Fragmentation makes no difference exactly for records that declare at most 16380 bytes, and for
      those that are refused anyway. */
  lemma IndependentExactly(s: bytes, expectedHost: string, isLiteral: bool)
    requires TlsRecordNeeded(s) == Ok(0)
    ensures OneVerdict(s, expectedHost, isLiteral)
            <==> ReadU16(s, 3) <= 16380
                 || ValidateTlsClientHello(s[..RecordLength(s)], expectedHost, isLiteral).Err?
  {
    hide OneVerdict, ValidateTlsClientHello;
    RecordFits(s);
    if ReadU16(s, 3) <= 16380 {
      ShortRecordOneVerdict(s, expectedHost, isLiteral);
    } else if ValidateTlsClientHello(s[..RecordLength(s)], expectedHost, isLiteral).Err? {
      RefusedOneVerdict(s, expectedHost, isLiteral);
    } else {
      LongRecordTwoVerdicts(s, expectedHost, isLiteral);
    }
  }

  lemma LongestBody() returns (h: ClientHello)
    ensures h.Valid() && h.extensions.None? && |h.Encode()| == MaxTlsRecord - 4
  {
    var zeros: bytes := seq(MaxTlsRecord - 42, _ => 0);
    var random: bytes := seq(32, _ => 0);
    h := ClientHello(HelloHead([3, 3], random, [], zeros, []), None);
  }

  /** The longest record there is: a ClientHello without extensions. */
  lemma LongestHello() returns (s: bytes)
    ensures TlsRecordNeeded(s) == Ok(0) && RecordLength(s) == |s| == MaxTlsRecord + 5
    ensures SniResult(s) == Ok(None)
  {
    var h := LongestBody();
    s := h.EncodeRecord([3, 1]);
    assert s + [] == s && h.HostName() == None;
    EncodedLength(h, [3, 1]);
    hide SniResult, TlsRecordNeeded, ReadU16, ClientHello.EncodeRecord, ClientHello.Encode, ClientHello.Valid;
    EncodedRecordComplete(h, [3, 1], []);
    EncodedHelloUnderstood(h, [3, 1], []);
  }

  /** So the bound of `FragmentationIndependent` is needed: the same bytes, sent to an IP literal,
      are accepted in one message and rejected in two. */
  lemma FragmentationMatters() returns (s: bytes, n: nat)
    ensures n <= |s| && Stream([Got(Binary(s))]) == Stream(Cut(s, n))
    ensures Accepts([Got(Binary(s))], "", true) && !Accepts(Cut(s, n), "", true)
  {
    s := LongestHello();
    n := MaxTlsRecord + 1;
    TwoStreams(s, n);
    assert s[..RecordLength(s)] == s;
    WholeAccepted(s, "", true);
    CutRejected(s, n, "", true);
  }
}
