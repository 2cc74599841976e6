/** What a session sees of its two sockets: the outcome of each await, in order. */
module Channels {
  import opened Tls

  datatype WsMessage = Binary(data: bytes) | Text(data: bytes) | Ping(data: bytes) | Pong(data: bytes) | Close

  /** `timeout(.., ws.next()).await`. */
  datatype WsOutcome = Got(msg: WsMessage) | WsFailed | WsEnded | WsTimedOut

  /** `tcp.read(..).await`, under a timeout where the source sets one. */
  datatype ReadOutcome = Read(data: bytes) | ReadEof | ReadFailed | ReadTimedOut

  /** `write_all` and `send` under a timeout: all the bytes, or an error after some of them. */
  datatype WriteOutcome = Sent | Broken(reached: nat) {
    function Reached(data: bytes): bytes {
      if Sent? || reached > |data| then data else data[..reached]
    }
  }

  /** The bytes a message carries upstream. */
  function Payload(o: WsOutcome): bytes {
    match o
    case Got(Binary(d)) => d
    case Got(Text(d)) => d
    case _ => []
  }

  predicate IsData(o: WsOutcome) { o.Got? && (o.msg.Binary? || o.msg.Text?) }

  /** The client's data payloads, concatenated. */
  function Stream(os: seq<WsOutcome>): bytes {
    if os == [] then [] else Stream(os[..|os| - 1]) + Payload(os[|os| - 1])
  }

  function ReadStream(rs: seq<ReadOutcome>): bytes {
    if rs == [] then []
    else ReadStream(rs[..|rs| - 1]) + match rs[|rs| - 1] case Read(d) => d case _ => []
  }

  lemma {:induction false} StreamPrefix(os: seq<WsOutcome>, k: nat)
    requires k <= |os|
    ensures Stream(os[..k]) <= Stream(os)
    decreases |os|
  {
    if k < |os| {
      StreamPrefix(os[..|os| - 1], k);
      assert os[..|os| - 1][..k] == os[..k];
    } else {
      assert os[..k] == os;
    }
  }

  lemma {:induction false} ReadStreamPrefix(rs: seq<ReadOutcome>, k: nat)
    requires k <= |rs|
    ensures ReadStream(rs[..k]) <= ReadStream(rs)
    decreases |rs|
  {
    if k < |rs| {
      ReadStreamPrefix(rs[..|rs| - 1], k);
      assert rs[..|rs| - 1][..k] == rs[..k];
    } else {
      assert rs[..k] == rs;
    }
  }
}
