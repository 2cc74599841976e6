/** The world's side of one session (src/connection.rs): what the two sockets yield, and in which order the
    branches of the loop become ready. */
module Scripts {
  import opened Channels
  import opened Ledger
  import opened Queues
  import opened Tls
  import S = Sessions

  /** Which branch of the `select!` completes next. */
  datatype Choice = LifetimeOver | ClientReady(write: WriteOutcome) | UpstreamReady(write: WriteOutcome)

  /** Everything the client and the upstream will send, probe and loop alike, as it will be read. The loop
      reads into 1024 bytes. */
  datatype Sockets = Sockets(client: seq<WsOutcome>, upstream: seq<ReadOutcome>, probeWrite: WriteOutcome) {
    predicate Valid() {
      && (forall i | 0 <= i < |client| :: |Payload(client[i])| <= MaxBuffer)
      && (forall i | 0 <= i < |upstream| && upstream[i].Read? :: |upstream[i].data| <= 1024)
    }
  }

  /** A loop that finds the sockets read up to `client` and `upstream`. Others make the calls
      `awaiting(k)` while it waits for event `k`. */
  datatype Script = Script(sockets: Sockets, client: nat, upstream: nat, choices: seq<Choice>,
                           awaiting: nat -> seq<Call>)
  {
    predicate Valid() { sockets.Valid() && client <= |sockets.client| && upstream <= |sockets.upstream| }

    /** The schedule ends with the connection's lifetime. */
    function ChoiceAt(k: nat): Choice { if k < |choices| then choices[k] else LifetimeOver }

    /** How far the client has been read before event `k`. */
    function ClientAt(k: nat): (i: nat)
      requires Valid()
      ensures client <= i <= |sockets.client|
    {
      if k == 0 then client
      else
        var i := ClientAt(k - 1);
        if ChoiceAt(k - 1).ClientReady? && i < |sockets.client| then i + 1 else i
    }

    function UpstreamAt(k: nat): (j: nat)
      requires Valid()
      ensures upstream <= j <= |sockets.upstream|
    {
      if k == 0 then upstream
      else
        var j := UpstreamAt(k - 1);
        if ChoiceAt(k - 1).UpstreamReady? && j < |sockets.upstream| then j + 1 else j
    }

    /** Event `k` of the loop. An exhausted socket has been closed. */
    function EventAt(k: nat): S.Event
      requires Valid()
    {
      match ChoiceAt(k)
      case LifetimeOver => S.Deadline
      case ClientReady(w) =>
        var i := ClientAt(k);
        S.FromClient(if i < |sockets.client| then sockets.client[i] else WsEnded, w)
      case UpstreamReady(w) =>
        var j := UpstreamAt(k);
        S.FromUpstream(if j < |sockets.upstream| then sockets.upstream[j] else ReadEof, w)
    }
  }

  /** The turns have the events of the script, in order. */
  predicate Follows(ts: seq<S.Turn>, script: Script)
    requires script.Valid()
  {
    forall k | 0 <= k < |ts| :: ts[k].ev == script.EventAt(k)
  }

  lemma NextOfClient(client: seq<WsOutcome>, from: nat, i: nat)
    requires from <= i < |client|
    ensures Stream(client[from..i + 1]) == Stream(client[from..i]) + Payload(client[i])
  {
    assert client[from..i + 1][..i - from] == client[from..i];
  }

  lemma NextOfUpstream(upstream: seq<ReadOutcome>, from: nat, j: nat)
    requires from <= j < |upstream|
    ensures ReadStream(upstream[from..j + 1])
            == ReadStream(upstream[from..j]) + match upstream[j] case Read(d) => d case _ => []
  {
    assert upstream[from..j + 1][..j - from] == upstream[from..j];
  }

  lemma NextClientBytes(script: Script, k: nat)
    requires script.Valid()
    ensures Stream(script.sockets.client[script.client..script.ClientAt(k + 1)])
            == Stream(script.sockets.client[script.client..script.ClientAt(k)]) + S.ToUpstream(script.EventAt(k))
  {
    var client, i := script.sockets.client, script.ClientAt(k);
    hide Stream;
    if script.ChoiceAt(k).ClientReady? && i < |client| {
      NextOfClient(client, script.client, i);
      assert script.ClientAt(k + 1) == i + 1 && S.ToUpstream(script.EventAt(k)) == Payload(client[i]);
      hide *;
    } else {
      assert script.ClientAt(k + 1) == i && S.ToUpstream(script.EventAt(k)) == [];
      hide *;
    }
  }

  lemma NextUpstreamBytes(script: Script, k: nat)
    requires script.Valid()
    ensures ReadStream(script.sockets.upstream[script.upstream..script.UpstreamAt(k + 1)])
            == ReadStream(script.sockets.upstream[script.upstream..script.UpstreamAt(k)])
               + S.ToDownstream(script.EventAt(k))
  {
    var upstream, j := script.sockets.upstream, script.UpstreamAt(k);
    hide ReadStream;
    if script.ChoiceAt(k).UpstreamReady? && j < |upstream| {
      NextOfUpstream(upstream, script.upstream, j);
      assert script.UpstreamAt(k + 1) == j + 1;
      assert S.ToDownstream(script.EventAt(k)) == match upstream[j] case Read(d) => d case _ => [];
      hide *;
    } else {
      assert script.UpstreamAt(k + 1) == j && S.ToDownstream(script.EventAt(k)) == [];
      hide *;
    }
  }

  /** The turns bring the bytes of both sockets, in order and without gaps. */
  lemma {:induction false} FollowedBytes(ts: seq<S.Turn>, script: Script)
    requires script.Valid() && Follows(ts, script)
    ensures S.ClientBytes(ts) == Stream(script.sockets.client[script.client..script.ClientAt(|ts|)])
    ensures S.UpstreamBytes(ts) == ReadStream(script.sockets.upstream[script.upstream..script.UpstreamAt(|ts|)])
  {
    if ts == [] {
      assert script.sockets.client[script.client..script.client] == [];
      assert script.sockets.upstream[script.upstream..script.upstream] == [];
    } else {
      var n := |ts| - 1;
      FollowedBytes(ts[..n], script);
      NextClientBytes(script, n);
      NextUpstreamBytes(script, n);
      assert ts[n].ev == script.EventAt(n);
      hide Stream, ReadStream;
    }
  }

  lemma {:induction false} StreamSplit(os: seq<WsOutcome>, k: nat)
    requires k <= |os|
    ensures Stream(os) == Stream(os[..k]) + Stream(os[k..])
    decreases |os|
  {
    if k < |os| {
      var front := os[..|os| - 1];
      StreamSplit(front, k);
      assert front[..k] == os[..k];
      assert front[k..] == os[k..][..|os| - 1 - k];
    } else {
      assert os[..k] == os;
    }
  }

  lemma {:induction false} ReadStreamSplit(rs: seq<ReadOutcome>, k: nat)
    requires k <= |rs|
    ensures ReadStream(rs) == ReadStream(rs[..k]) + ReadStream(rs[k..])
    decreases |rs|
  {
    if k < |rs| {
      var front := rs[..|rs| - 1];
      ReadStreamSplit(front, k);
      assert front[..k] == rs[..k];
      assert front[k..] == rs[k..][..|rs| - 1 - k];
    } else {
      assert rs[..k] == rs;
    }
  }

  lemma PrefixAppends(b: bytes, c: bytes, d: bytes, e: bytes)
    requires c <= d && d <= e
    ensures b + c <= b + e
  {
  }

  lemma ClientUpTo(os: seq<WsOutcome>, from: nat, i: nat)
    requires from <= i <= |os|
    ensures Stream(os[from..i]) <= Stream(os[from..])
  {
    StreamPrefix(os[from..], i - from);
    assert os[from..][..i - from] == os[from..i];
  }

  lemma UpstreamUpTo(rs: seq<ReadOutcome>, from: nat, j: nat)
    requires from <= j <= |rs|
    ensures ReadStream(rs[from..j]) <= ReadStream(rs[from..])
  {
    ReadStreamPrefix(rs[from..], j - from);
    assert rs[from..][..j - from] == rs[from..j];
  }

  /** What was passed on before the loop, and then by it, is a prefix of all there was. */
  lemma ClientPrefix(script: Script, ts: seq<S.Turn>, before: bytes, passed: bytes)
    requires script.Valid() && Follows(ts, script)
    requires before == Stream(script.sockets.client[..script.client]) && passed <= S.ClientBytes(ts)
    ensures before + passed <= Stream(script.sockets.client)
  {
    var os, from, i := script.sockets.client, script.client, script.ClientAt(|ts|);
    hide *;
    FollowedBytes(ts, script);
    StreamSplit(os, from);
    ClientUpTo(os, from, i);
    PrefixAppends(before, passed, Stream(os[from..i]), Stream(os[from..]));
  }

  lemma UpstreamPrefix(script: Script, ts: seq<S.Turn>, before: bytes, passed: bytes)
    requires script.Valid() && Follows(ts, script)
    requires before == ReadStream(script.sockets.upstream[..script.upstream]) && passed <= S.UpstreamBytes(ts)
    ensures before + passed <= ReadStream(script.sockets.upstream)
  {
    var rs, from, j := script.sockets.upstream, script.upstream, script.UpstreamAt(|ts|);
    hide *;
    FollowedBytes(ts, script);
    ReadStreamSplit(rs, from);
    UpstreamUpTo(rs, from, j);
    PrefixAppends(before, passed, ReadStream(rs[from..j]), ReadStream(rs[from..]));
  }
}
