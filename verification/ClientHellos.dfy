/** The grammar of a ClientHello with its server names (RFC 8446 sections 4.1.2 and 4.2, RFC 6066
    section 3), its encoding, and what `parse_sni` (src/proto.rs) makes of it. */
module ClientHellos {
  import opened Addresses
  import opened Tls
  import opened Wrappers

  // ------------------------------------------------------------ grammar and encoding

  datatype HelloHead = HelloHead(version: bytes, random: bytes, sessionId: bytes, cipherSuites: bytes,
                                 compressions: bytes)
  {
    predicate Valid() {
      |version| == 2 && |random| == 32 && |sessionId| < 0x100 && |cipherSuites| < 0x1_0000 && |compressions| < 0x100
    }

    function Encode(): bytes
      requires Valid()
    {
      version + random + [|sessionId|] + sessionId + U16(|cipherSuites|) + cipherSuites
      + [|compressions|] + compressions
    }
  }

  datatype ServerName = ServerName(nameType: u8, name: bytes)

  datatype Extension = ServerNames(names: seq<ServerName>) | Other(typ: u16, data: bytes) {
    predicate Valid() {
      match this
      case ServerNames(ns) => ValidNames(ns) && |EncodeNames(ns)| < 0xfffe
      case Other(t, d) => t != 0 && |d| < 0x1_0000
    }
  }

  predicate ValidNames(ns: seq<ServerName>) { forall i | 0 <= i < |ns| :: |ns[i].name| < 0x1_0000 }

  function EncodeName(n: ServerName): bytes { [n.nameType] + U16(|n.name|) + n.name }

  function EncodeNames(ns: seq<ServerName>): bytes {
    if ns == [] then [] else EncodeName(ns[0]) + EncodeNames(ns[1..])
  }

  function WithLength16(b: bytes): bytes { U16(|b|) + b }

  function EncodeExtension(e: Extension): bytes {
    match e
    case ServerNames(ns) => U16(0) + WithLength16(WithLength16(EncodeNames(ns)))
    case Other(t, d) => U16(t) + WithLength16(d)
  }

  function EncodeExtensions(es: seq<Extension>): bytes {
    if es == [] then [] else EncodeExtension(es[0]) + EncodeExtensions(es[1..])
  }

  datatype ClientHello = ClientHello(head: HelloHead, extensions: Option<seq<Extension>>) {
    predicate Valid() {
      && head.Valid()
      && (extensions.Some? ==> && (forall i | 0 <= i < |extensions.value| :: extensions.value[i].Valid())
                               && |EncodeExtensions(extensions.value)| < 0x1_0000)
      && |Encode()| + 4 < 0x1_0000
    }

    function Encode(): bytes
      requires head.Valid()
    {
      head.Encode() + match extensions case None => [] case Some(es) => WithLength16(EncodeExtensions(es))
    }

    /** One handshake message in one record. */
    function EncodeRecord(version: bytes): bytes
      requires Valid()
    {
      RecordOf(version, Encode(), [])
    }

    /** The first `host_name` of the first server-name extension. */
    function HostName(): Option<bytes> {
      match extensions
      case None => None
      case Some(es) => FirstServerNames(es)
    }
  }

  function RecordOf(version: bytes, hello: bytes, bodyTail: bytes): bytes {
    [0x16] + version + WithLength16([0x01] + U24(|hello|) + hello + bodyTail)
  }

  function FirstServerNames(es: seq<Extension>): Option<bytes> {
    if es == [] then None
    else match es[0]
      case ServerNames(ns) => FirstHost(ns)
      case Other(_, _) => FirstServerNames(es[1..])
  }

  function FirstHost(ns: seq<ServerName>): Option<bytes> {
    if ns == [] then None else if ns[0].nameType == 0 then Some(ns[0].name) else FirstHost(ns[1..])
  }

  // ------------------------------------------------------------ reading what was written

  lemma OneName(n: ServerName, tail: bytes)
    requires |n.name| < 0x1_0000
    ensures FirstHostName(EncodeName(n) + tail) == if n.nameType == 0 then NameResult(n.name) else FirstHostName(tail)
  {
    var b := EncodeName(n) + tail;
    var k := |n.name|;
    assert b[0] == n.nameType && ReadU16(b, 1) == k;
    assert b[3..3 + k] == n.name && b[3 + k..] == tail;
  }

  lemma OneOther(t: u16, d: bytes, tail: bytes)
    requires t != 0 && |d| < 0x1_0000
    ensures FindSni(EncodeExtension(Other(t, d)) + tail) == FindSni(tail)
  {
    var b := EncodeExtension(Other(t, d)) + tail;
    assert ReadU16(b, 0) == t && ReadU16(b, 2) == |d|;
    assert b[4..4 + |d|] == d && b[4 + |d|..] == tail;
  }

  lemma OneServerNames(data: bytes, tail: bytes)
    requires |data| < 0x1_0000
    ensures FindSni(U16(0) + WithLength16(data) + tail) == SniOf(data)
  {
    var b := U16(0) + WithLength16(data) + tail;
    assert ReadU16(b, 0) == 0 && ReadU16(b, 2) == |data|;
    assert b[4..4 + |data|] == data;
  }

  lemma OneList(list: bytes, tail: bytes)
    requires |list| < 0x1_0000
    ensures ListOf(WithLength16(list) + tail) == Some(list)
  {
    var b := WithLength16(list) + tail;
    assert ReadU16(b, 0) == |list|;
    assert b[2..2 + |list|] == list;
  }

  lemma HeadSkipped(head: HelloHead, tail: bytes)
    requires head.Valid()
    ensures ExtensionsOffset(head.Encode() + tail) == Some(|head.Encode()|)
  {
    var b := head.Encode() + tail;
    assert b[34] == |head.sessionId|;
    var i := 35 + |head.sessionId|;
    assert ReadU16(b, i) == |head.cipherSuites|;
    var j := i + 2 + |head.cipherSuites|;
    assert b[j] == |head.compressions|;
  }

  lemma U16Read(b: bytes, i: nat, n: nat)
    requires i + 2 <= |b| && n < 0x1_0000 && b[i] == n / 0x100 % 0x100 && b[i + 1] == n % 0x100
    ensures ReadU16(b, i) == n
  {
  }

  lemma U24Read(b: bytes, i: nat, n: nat)
    requires i + 3 <= |b| && n < 0x100_0000
    requires b[i] == n / 0x1_0000 % 0x100 && b[i + 1] == n / 0x100 % 0x100 && b[i + 2] == n % 0x100
    ensures ReadU24(b, i) == n
  {
    var q := n / 0x100;
    assert q / 0x100 == n / 0x1_0000 < 0x100;
    assert n == q * 0x100 + n % 0x100 && q == q / 0x100 * 0x100 + q % 0x100;
  }

  /** A record is read as it was written. */
  lemma RecordRead(version: bytes, body: bytes, rest: bytes)
    requires |version| == 2 && |body| < 0x1_0000
    ensures var b := [0x16] + version + WithLength16(body) + rest;
            && |b| == 5 + |body| + |rest| && b[0] == 0x16 && b[1] == version[0]
            && ReadU16(b, 3) == |body| && b[5..5 + |body|] == body
  {
    var b := [0x16] + version + WithLength16(body) + rest;
    assert b[1] == version[0] && b[3] == U16(|body|)[0] && b[4] == U16(|body|)[1];
    U16Read(b, 3, |body|);
    hide ReadU16, U16;
    assert b == ([0x16] + version + U16(|body|)) + body + rest;
    Middle([0x16] + version + U16(|body|), body, rest);
  }

  lemma Middle(a: bytes, b: bytes, c: bytes)
    ensures (a + b + c)[|a|..|a| + |b|] == b
  {
  }

  /** And so is a handshake message. */
  lemma HandshakeRead(hello: bytes, tail: bytes)
    requires |hello| < 0x100_0000
    ensures var body := [0x01] + U24(|hello|) + hello + tail;
            && |body| == 4 + |hello| + |tail| && body[0] == 0x01
            && ReadU24(body, 1) == |hello| && body[4..4 + |hello|] == hello
  {
    var head := [0x01] + U24(|hello|);
    var body := head + hello + tail;
    assert body[1] == head[1] && body[2] == head[2] && body[3] == head[3];
    U24Read(body, 1, |hello|);
    hide ReadU24, U24;
    Middle(head, hello, tail);
  }

  /** A length-prefixed field is read where it was written. */
  lemma FieldRead(front: bytes, field: bytes, tail: bytes)
    requires |field| < 0x1_0000
    ensures var b, i := front + WithLength16(field) + tail, |front|;
            && |b| == i + 2 + |field| + |tail| && ReadU16(b, i) == |field| && b[i + 2..i + 2 + |field|] == field
  {
    var b, i, length := front + WithLength16(field) + tail, |front|, U16(|field|);
    assert b[i] == length[0] && b[i + 1] == length[1];
    U16Read(b, i, |field|);
    hide ReadU16, U16;
    assert b == (front + length) + field + tail;
    Middle(front + length, field, tail);
  }

  lemma BlockFound(head: HelloHead, exts: bytes, tail: bytes)
    requires head.Valid() && |exts| < 0x1_0000
    ensures ExtensionsOf(head.Encode() + WithLength16(exts) + tail) == Ok(Some(exts))
  {
    var front := head.Encode();
    HeadSkipped(head, WithLength16(exts) + tail);
    Reassociate(front, WithLength16(exts), tail);
    FieldRead(front, exts, tail);
    hide ReadU16, WithLength16, ExtensionsOffset, HelloHead.Encode;
  }

  lemma HelloFound(version: bytes, hello: bytes, bodyTail: bytes, rest: bytes)
    requires |version| == 2 && |hello| + |bodyTail| + 4 < 0x1_0000
    ensures HelloOf(RecordOf(version, hello, bodyTail) + rest) == Ok(hello)
  {
    var body := [0x01] + U24(|hello|) + hello + bodyTail;
    HandshakeRead(hello, bodyTail);
    RecordRead(version, body, rest);
    hide ReadU16, ReadU24, U24, WithLength16;
  }

  // ------------------------------------------------------------ every encoding is understood

  function Verdict(host: Option<bytes>): Result<Option<string>, ProtoError> {
    match host
    case None => Ok(None)
    case Some(name) => NameResult(name)
  }

  lemma {:induction false} NamesUnderstood(ns: seq<ServerName>)
    requires ValidNames(ns)
    ensures FirstHostName(EncodeNames(ns)) == Verdict(FirstHost(ns))
  {
    if ns != [] {
      OneName(ns[0], EncodeNames(ns[1..]));
      NamesUnderstood(ns[1..]);
    }
  }

  lemma {:induction false} ExtensionsUnderstood(es: seq<Extension>)
    requires forall i | 0 <= i < |es| :: es[i].Valid()
    ensures FindSni(EncodeExtensions(es)) == Verdict(FirstServerNames(es))
  {
    if es != [] {
      var tail := EncodeExtensions(es[1..]);
      match es[0] {
        case ServerNames(ns) =>
          var list := EncodeNames(ns);
          OneServerNames(WithLength16(list), tail);
          OneList(list, []);
          assert WithLength16(list) + [] == WithLength16(list);
          NamesUnderstood(ns);
        case Other(t, d) =>
          OneOther(t, d, tail);
          ExtensionsUnderstood(es[1..]);
      }
    }
  }

  /** The parser returns exactly the host name of any ClientHello it is sent, and refuses one whose
      host name is empty or not UTF-8. */
  lemma EncodedHelloUnderstood(h: ClientHello, version: bytes, rest: bytes)
    requires h.Valid() && |version| == 2
    ensures SniResult(h.EncodeRecord(version) + rest) == Verdict(h.HostName())
  {
    HelloFound(version, h.Encode(), [], rest);
    match h.extensions {
      case None =>
        HeadSkipped(h.head, []);
        assert h.head.Encode() + [] == h.Encode();
      case Some(es) =>
        BlockFound(h.head, EncodeExtensions(es), []);
        assert h.Encode() == h.head.Encode() + WithLength16(EncodeExtensions(es)) + [];
        ExtensionsUnderstood(es);
    }
  }

  lemma EncodedRecordComplete(h: ClientHello, version: bytes, rest: bytes)
    requires h.Valid() && |version| == 2 && version[0] == 0x03 && |h.Encode()| + 4 <= MaxTlsRecord
    ensures TlsRecordNeeded(h.EncodeRecord(version) + rest) == Ok(0)
  {
    var hello := h.Encode();
    var body := [0x01] + U24(|hello|) + hello + [];
    HandshakeRead(hello, []);
    RecordRead(version, body, rest);
    hide ReadU16, ReadU24, U24, WithLength16, ClientHello.Encode, ClientHello.Valid;
  }

  lemma EncodedLength(h: ClientHello, version: bytes)
    requires h.Valid() && |version| == 2
    ensures var b := h.EncodeRecord(version);
            |b| == 9 + |h.Encode()| && ReadU16(b, 3) == 4 + |h.Encode()|
  {
    var hello := h.Encode();
    var body := [0x01] + U24(|hello|) + hello + [];
    HandshakeRead(hello, []);
    RecordRead(version, body, []);
    hide ReadU16, ReadU24, U24, WithLength16, ClientHello.Encode, ClientHello.Valid;
    assert [0x16] + version + WithLength16(body) + [] == [0x16] + version + WithLength16(body);
  }

  lemma Framed(s: bytes, a: nat, b: nat, c: nat)
    requires a <= b <= c <= |s|
    ensures s == s[..a] + (s[a..b] + s[b..c]) + s[c..]
  {
  }

  lemma Extend(s: bytes, a: nat, b: nat)
    requires a <= b <= |s|
    ensures s[..b] == s[..a] + s[a..b]
  {
  }

  lemma U16Shown(s: bytes, i: nat)
    requires i + 2 <= |s|
    ensures ReadU16(s, i) < 0x1_0000 && s[i..i + 2] == U16(ReadU16(s, i))
  {
  }

  lemma U24Shown(s: bytes, i: nat)
    requires i + 3 <= |s|
    ensures s[i..i + 3] == U24(ReadU24(s, i))
  {
    U24Digits(s[i], s[i + 1], s[i + 2]);
  }

  lemma U24Digits(a: u8, b: u8, c: u8)
    ensures var n := a * 0x1_0000 + b * 0x100 + c;
            n / 0x1_0000 % 0x100 == a && n / 0x100 % 0x100 == b && n % 0x100 == c
  {
  }

  // ------------------------------------------------------------ nothing else is

  /** Everything the parser looks at on its way to a name, and the bytes it never looks at. */
  datatype SniLayout = SniLayout(version: bytes, head: HelloHead, before: seq<Extension>,
                                 namesBefore: seq<ServerName>, name: bytes, listTail: bytes, dataTail: bytes,
                                 extsTail: bytes, helloTail: bytes, bodyTail: bytes, recordTail: bytes)
  {
    function List(): bytes { EncodeNames(namesBefore) + EncodeName(ServerName(0, name)) + listTail }

    function Data(): bytes { WithLength16(List()) + dataTail }

    function Exts(): bytes { EncodeExtensions(before) + (U16(0) + WithLength16(Data()) + extsTail) }

    function Hello(): bytes
      requires head.Valid()
    {
      head.Encode() + WithLength16(Exts()) + helloTail
    }

    function Record(): bytes
      requires head.Valid()
    {
      RecordOf(version, Hello(), bodyTail) + recordTail
    }

    /** Lengths fit their fields; nothing before the name would have stopped the search. */
    predicate Valid() {
      && |version| == 2 && head.Valid() && |name| < 0x1_0000 && ValidNames(namesBefore)
      && |List()| < 0x1_0000 && |Data()| < 0x1_0000 && |Exts()| < 0x1_0000
      && |Hello()| + |bodyTail| + 4 < 0x1_0000
      && (forall i | 0 <= i < |namesBefore| :: namesBefore[i].nameType != 0)
      && SkippedExtensions(before)
    }
  }

  predicate SkippedExtensions(es: seq<Extension>) {
    forall i | 0 <= i < |es| :: es[i].Other? && es[i].typ != 0 && |es[i].data| < 0x1_0000
  }

  lemma {:induction false} NamesSkipped(ns: seq<ServerName>, tail: bytes)
    requires ValidNames(ns) && forall i | 0 <= i < |ns| :: ns[i].nameType != 0
    ensures FirstHostName(EncodeNames(ns) + tail) == FirstHostName(tail)
  {
    if ns == [] {
      assert EncodeNames(ns) + tail == tail;
    } else {
      NamesSkipped(ns[1..], tail);
      OneName(ns[0], EncodeNames(ns[1..]) + tail);
      Reassociate(EncodeName(ns[0]), EncodeNames(ns[1..]), tail);
    }
  }

  lemma {:induction false} OthersSkipped(es: seq<Extension>, tail: bytes)
    requires SkippedExtensions(es)
    ensures FindSni(EncodeExtensions(es) + tail) == FindSni(tail)
  {
    if es == [] {
      assert EncodeExtensions(es) + tail == tail;
    } else {
      OthersSkipped(es[1..], tail);
      var first, rest := EncodeExtension(es[0]), EncodeExtensions(es[1..]);
      assert es[0] == Other(es[0].typ, es[0].data);
      OneOther(es[0].typ, es[0].data, rest + tail);
      Reassociate(first, rest, tail);
    }
  }

  lemma LayoutFinds(l: SniLayout)
    requires l.Valid()
    ensures FindSni(l.Exts()) == FirstHostName(l.List())
  {
    var tail := U16(0) + WithLength16(l.Data()) + l.extsTail;
    OthersSkipped(l.before, tail);
    OneServerNames(l.Data(), l.extsTail);
    OneList(l.List(), l.dataTail);
  }

  lemma LayoutNames(l: SniLayout)
    requires l.Valid()
    ensures FirstHostName(l.List()) == NameResult(l.name)
  {
    var host := EncodeName(ServerName(0, l.name));
    Reassociate(EncodeNames(l.namesBefore), host, l.listTail);
    NamesSkipped(l.namesBefore, host + l.listTail);
    OneName(ServerName(0, l.name), l.listTail);
  }

  lemma LayoutParses(l: SniLayout)
    requires l.Valid()
    ensures SniResult(l.Record()) == NameResult(l.name)
  {
    HelloFound(l.version, l.Hello(), l.bodyTail, l.recordTail);
    BlockFound(l.head, l.Exts(), l.helloTail);
    LayoutFinds(l);
    LayoutNames(l);
  }

  lemma NameStep(list: bytes) returns (here: ServerName, rest: bytes)
    requires FirstHostName(list).Ok? && |list| >= 3
    ensures |here.name| < 0x1_0000 && list == EncodeName(here) + rest
    ensures FirstHostName(list) == if here.nameType == 0 then NameResult(here.name) else FirstHostName(rest)
  {
    var n: nat := ReadU16(list, 1);
    here, rest := ServerName(list[0], list[3..3 + n]), list[3 + n..];
    U16Shown(list, 1);
    hide ReadU16, U16, NameResult, FirstHostName;
    Framed(list, 1, 3, 3 + n);
    assert list[..1] == [list[0]];
    Reassociate([list[0]], U16(n), here.name);
  }

  lemma {:induction false} NameLocated(list: bytes, s: string)
    returns (before: seq<ServerName>, name: bytes, tail: bytes)
    requires FirstHostName(list) == Ok(Some(s))
    ensures ValidNames(before) && |name| < 0x1_0000 && NameResult(name) == Ok(Some(s))
    ensures forall i | 0 <= i < |before| :: before[i].nameType != 0
    ensures list == EncodeNames(before) + EncodeName(ServerName(0, name)) + tail
    decreases |list|
  {
    var here, rest := NameStep(list);
    if here.nameType == 0 {
      before, name, tail := [], here.name, rest;
    } else {
      var later;
      later, name, tail := NameLocated(rest, s);
      before := [here] + later;
      assert before[1..] == later;
      Reassociate(EncodeName(here), EncodeNames(later), EncodeName(ServerName(0, name)));
      Reassociate(EncodeName(here), EncodeNames(later) + EncodeName(ServerName(0, name)), tail);
    }
  }

  lemma ExtensionStep(exts: bytes) returns (typ: u16, data: bytes, rest: bytes)
    requires FindSni(exts).Ok? && |exts| >= 4
    ensures |data| < 0x1_0000 && exts == U16(typ) + WithLength16(data) + rest
    ensures FindSni(exts) == if typ == 0 then SniOf(data) else FindSni(rest)
  {
    var n: nat := ReadU16(exts, 2);
    typ, data, rest := ReadU16(exts, 0), exts[4..4 + n], exts[4 + n..];
    U16Shown(exts, 0);
    U16Shown(exts, 2);
    hide ReadU16, U16, SniOf, FindSni;
    Framed(exts, 2, 4, 4 + n);
  }

  lemma {:induction false} ExtensionLocated(exts: bytes, s: string)
    returns (before: seq<Extension>, data: bytes, tail: bytes)
    requires FindSni(exts) == Ok(Some(s))
    ensures SkippedExtensions(before)
    decreases |exts|
    ensures |data| < 0x1_0000 && SniOf(data) == Ok(Some(s))
    ensures exts == EncodeExtensions(before) + (U16(0) + WithLength16(data) + tail)
  {
    var typ, here, rest := ExtensionStep(exts);
    if typ == 0 {
      before, data, tail := [], here, rest;
    } else {
      var later;
      later, data, tail := ExtensionLocated(rest, s);
      before := [Other(typ, here)] + later;
      PrependOther(typ, here, later, U16(0) + WithLength16(data) + tail);
    }
  }

  lemma PrependOther(typ: u16, data: bytes, later: seq<Extension>, tail: bytes)
    ensures EncodeExtensions([Other(typ, data)] + later) + tail
            == U16(typ) + WithLength16(data) + (EncodeExtensions(later) + tail)
  {
    assert ([Other(typ, data)] + later)[1..] == later;
    Reassociate(U16(typ) + WithLength16(data), EncodeExtensions(later), tail);
  }

  lemma HeadLocated(hello: bytes, i: nat, j: nat, k: nat) returns (head: HelloHead)
    requires 34 < |hello| && i == 35 + hello[34] as nat && i + 2 <= |hello|
    requires j == i + 2 + ReadU16(hello, i) < |hello| && k == j + 1 + hello[j] as nat <= |hello|
    ensures head.Valid() && head.Encode() == hello[..k]
  {
    U16Shown(hello, i);
    hide ReadU16, U16;
    head := HelloHead(hello[..2], hello[2..34], hello[35..i], hello[i + 2..j], hello[j + 1..k]);
    EightParts(hello, i, j, k);
    OneByte(hello, 34);
    OneByte(hello, j);
  }

  lemma OneByte(s: bytes, i: nat)
    requires i < |s|
    ensures s[i..i + 1] == [s[i]]
  {
  }

  lemma EightParts(s: bytes, i: nat, j: nat, k: nat)
    requires 35 <= i && i + 2 <= j < j + 1 <= k <= |s|
    ensures s[..k] == s[..2] + s[2..34] + s[34..35] + s[35..i] + s[i..i + 2] + s[i + 2..j] + s[j..j + 1] + s[j + 1..k]
  {
    Extend(s, 2, 34);
    Extend(s, 34, 35);
    Extend(s, 35, i);
    Extend(s, i, i + 2);
    Extend(s, i + 2, j);
    Extend(s, j, j + 1);
    Extend(s, j + 1, k);
  }

  lemma BlockLocated(hello: bytes) returns (head: HelloHead, tail: bytes)
    requires ExtensionsOf(hello).Ok? && ExtensionsOf(hello).value.Some?
    ensures head.Valid() && |ExtensionsOf(hello).value.value| < 0x1_0000
    ensures hello == head.Encode() + WithLength16(ExtensionsOf(hello).value.value) + tail
  {
    var i := 35 + hello[34] as nat;
    var j := i + 2 + ReadU16(hello, i);
    var k := j + 1 + hello[j] as nat;
    var n := ReadU16(hello, k);
    head := HeadLocated(hello, i, j, k);
    tail := hello[k + 2 + n..];
    U16Shown(hello, k);
    hide ReadU16, U16, HelloHead.Encode, HelloHead.Valid;
    assert hello == hello[..k] + (hello[k..k + 2] + hello[k + 2..k + 2 + n]) + tail;
  }

  lemma HandshakeLocated(body: bytes, hello: bytes)
    requires |body| >= 4 && body[0] == 0x01 && Get(body, 4, ReadU24(body, 1)) == Some(hello)
    ensures |body| >= 4 + |hello| && body == [0x01] + U24(|hello|) + hello + body[4 + |hello|..]
  {
    U24Shown(body, 1);
    hide ReadU24, U24;
    Extend(body, 1, 4);
    Extend(body, 4, 4 + |hello|);
    Extend(body, 4 + |hello|, |body|);
    assert body[..1] == [0x01] && body[..|body|] == body;
  }

  lemma RecordLocated(record: bytes, n: nat)
    requires |record| >= 5 + n && record[0] == 0x16 && n == ReadU16(record, 3)
    ensures record == [0x16] + record[1..3] + WithLength16(record[5..5 + n]) + record[5 + n..]
  {
    U16Shown(record, 3);
    hide ReadU16, U16;
    assert record == record[..1] + record[1..3] + (record[3..5] + record[5..5 + n]) + record[5 + n..];
    assert record[..1] == [0x16];
  }

  lemma HelloLocated(record: bytes) returns (version: bytes, bodyTail: bytes, rest: bytes)
    requires HelloOf(record).Ok?
    ensures var hello := HelloOf(record).value;
            |version| == 2 && |hello| + |bodyTail| + 4 < 0x1_0000
            && record == RecordOf(version, hello, bodyTail) + rest
  {
    var n := ReadU16(record, 3);
    var hello := HelloOf(record).value;
    U16Shown(record, 3);
    RecordLocated(record, n);
    HandshakeLocated(record[5..5 + n], hello);
    version, bodyTail, rest := record[1..3], record[5..5 + n][4 + |hello|..], record[5 + n..];
  }

  lemma ListLocated(data: bytes) returns (list: bytes, tail: bytes)
    requires ListOf(data).Some?
    ensures ListOf(data) == Some(list) && |list| < 0x1_0000 && data == WithLength16(list) + tail
  {
    var n: nat := ReadU16(data, 0);
    list, tail := data[2..2 + n], data[2 + n..];
    U16Shown(data, 0);
    hide ReadU16, U16, ListOf;
    Framed(data, 0, 2, 2 + n);
  }

  lemma LayoutOf(record: bytes, s: string) returns (l: SniLayout)
    requires SniResult(record) == Ok(Some(s))
    ensures l.Valid() && l.Record() == record && NameResult(l.name) == Ok(Some(s))
  {
    var version, bodyTail, recordTail := HelloLocated(record);
    var head, helloTail := BlockLocated(HelloOf(record).value);
    var before, data, extsTail := ExtensionLocated(ExtensionsOf(HelloOf(record).value).value.value, s);
    var list, dataTail := ListLocated(data);
    var namesBefore, name, listTail := NameLocated(list, s);
    l := SniLayout(version, head, before, namesBefore, name, listTail, dataTail, extsTail, helloTail,
                   bodyTail, recordTail);
  }

  /** A name is returned exactly for the records of the layout, and it is the one laid out there. */
  lemma SomeIffLayout(record: bytes, s: string)
    ensures SniResult(record) == Ok(Some(s))
            <==> exists l: SniLayout :: l.Valid() && l.Record() == record && NameResult(l.name) == Ok(Some(s))
  {
    if SniResult(record) == Ok(Some(s)) {
      var l := LayoutOf(record, s);
    }
    forall l: SniLayout | l.Valid() && l.Record() == record && NameResult(l.name) == Ok(Some(s))
      ensures SniResult(record) == Ok(Some(s))
    {
      LayoutParses(l);
    }
  }

  // ------------------------------------------------------------ the records without a name

  /** What a record without a host name looks like: no extension block, no server-name extension in it, or
      no `host_name` in that. A few bytes too short for a further entry may follow. */
  datatype Nameless =
    | NoBlock(version: bytes, head: HelloHead, bodyTail: bytes, recordTail: bytes)
    | NoServerNames(version: bytes, head: HelloHead, before: seq<Extension>, extsTail: bytes, helloTail: bytes,
                    bodyTail: bytes, recordTail: bytes)
    | NoHostName(version: bytes, head: HelloHead, before: seq<Extension>, names: seq<ServerName>, listTail: bytes,
                 dataTail: bytes, extsTail: bytes, helloTail: bytes, bodyTail: bytes, recordTail: bytes)
  {
    function List(): bytes
      requires NoHostName?
    {
      EncodeNames(names) + listTail
    }

    function Exts(): bytes
      requires !NoBlock?
    {
      match this
      case NoServerNames(_, _, es, tail, _, _, _) => EncodeExtensions(es) + tail
      case NoHostName(_, _, es, _, _, dt, tail, _, _, _) =>
        EncodeExtensions(es) + (U16(0) + WithLength16(WithLength16(List()) + dt) + tail)
    }

    function Hello(): bytes
      requires head.Valid()
    {
      if NoBlock? then head.Encode() else head.Encode() + WithLength16(Exts()) + helloTail
    }

    function Record(): bytes
      requires head.Valid()
    {
      RecordOf(version, Hello(), bodyTail) + recordTail
    }

    predicate Valid() {
      && |version| == 2 && head.Valid() && |Hello()| + |bodyTail| + 4 < 0x1_0000
      && (!NoBlock? ==> SkippedExtensions(before) && |Exts()| < 0x1_0000)
      && (NoServerNames? ==> |extsTail| < 4)
      && (NoHostName? ==>
            && ValidNames(names) && (forall i | 0 <= i < |names| :: names[i].nameType != 0)
            && |listTail| < 3 && |WithLength16(List()) + dataTail| < 0x1_0000)
    }
  }

  lemma NamelessExts(l: Nameless)
    requires l.Valid() && !l.NoBlock?
    ensures FindSni(l.Exts()) == Ok(None)
  {
    hide HelloHead.Encode, HelloHead.Valid, RecordOf;
    if l.NoServerNames? {
      OthersSkipped(l.before, l.extsTail);
    } else {
      var data := WithLength16(l.List()) + l.dataTail;
      OthersSkipped(l.before, U16(0) + WithLength16(data) + l.extsTail);
      OneServerNames(data, l.extsTail);
      OneList(l.List(), l.dataTail);
      NamesSkipped(l.names, l.listTail);
    }
  }

  lemma NoBlockFound(head: HelloHead)
    requires head.Valid()
    ensures ExtensionsOf(head.Encode()) == Ok(None)
  {
    HeadSkipped(head, []);
    assert head.Encode() + [] == head.Encode();
  }

  lemma NamelessParses(l: Nameless)
    requires l.Valid()
    ensures SniResult(l.Record()) == Ok(None)
  {
    HelloFound(l.version, l.Hello(), l.bodyTail, l.recordTail);
    if l.NoBlock? {
      NoBlockFound(l.head);
    } else {
      BlockFound(l.head, l.Exts(), l.helloTail);
      NamelessExts(l);
    }
    hide HelloOf, ExtensionsOf, FindSni, RecordOf, HelloHead.Encode, WithLength16;
  }

  lemma NameResultIsSome(name: bytes)
    ensures NameResult(name) != Ok(None)
  {
  }

  lemma {:induction false} NamelessList(list: bytes) returns (names: seq<ServerName>, tail: bytes)
    requires FirstHostName(list) == Ok(None)
    ensures ValidNames(names) && (forall i | 0 <= i < |names| :: names[i].nameType != 0) && |tail| < 3
    ensures list == EncodeNames(names) + tail
    decreases |list|
  {
    if |list| < 3 {
      names, tail := [], list;
    } else {
      var here, rest := NameStep(list);
      NameResultIsSome(here.name);
      var later;
      later, tail := NamelessList(rest);
      names := [here] + later;
      assert names[1..] == later;
      Reassociate(EncodeName(here), EncodeNames(later), tail);
    }
  }

  /** Either no server-name extension, or the first one, whose data is `data`. */
  lemma {:induction false} NamelessBlock(exts: bytes)
    returns (before: seq<Extension>, found: bool, data: bytes, tail: bytes)
    requires FindSni(exts) == Ok(None)
    ensures SkippedExtensions(before) && |data| < 0x1_0000
    ensures if found
            then SniOf(data) == Ok(None) && exts == EncodeExtensions(before) + (U16(0) + WithLength16(data) + tail)
            else |tail| < 4 && exts == EncodeExtensions(before) + tail
    decreases |exts|
  {
    if |exts| < 4 {
      before, found, data, tail := [], false, [], exts;
    } else {
      var typ, here, rest := ExtensionStep(exts);
      if typ == 0 {
        before, found, data, tail := [], true, here, rest;
      } else {
        var later;
        later, found, data, tail := NamelessBlock(rest);
        before := [Other(typ, here)] + later;
        PrependOther(typ, here, later, if found then U16(0) + WithLength16(data) + tail else tail);
      }
    }
  }

  lemma WholeHead(hello: bytes) returns (head: HelloHead)
    requires ExtensionsOf(hello) == Ok(None)
    ensures head.Valid() && hello == head.Encode()
  {
    var i: nat := 35 + hello[34] as nat;
    var j: nat := i + 2 + ReadU16(hello, i) as nat;
    var k: nat := j + 1 + hello[j] as nat;
    head := HeadLocated(hello, i, j, k);
    assert hello[..k] == hello;
  }

  lemma NamelessOf(record: bytes) returns (l: Nameless)
    requires SniResult(record) == Ok(None)
    ensures l.Valid() && l.Record() == record
  {
    var version, bodyTail, recordTail := HelloLocated(record);
    var hello := HelloOf(record).value;
    if ExtensionsOf(hello).value.None? {
      var head := WholeHead(hello);
      l := NoBlock(version, head, bodyTail, recordTail);
    } else {
      var head, helloTail := BlockLocated(hello);
      var before, found, data, tail := NamelessBlock(ExtensionsOf(hello).value.value);
      if found {
        var list, dataTail := ListLocated(data);
        var names, listTail := NamelessList(list);
        l := NoHostName(version, head, before, names, listTail, dataTail, tail, helloTail, bodyTail, recordTail);
      } else {
        l := NoServerNames(version, head, before, tail, helloTail, bodyTail, recordTail);
      }
    }
  }

  /** No name is returned, and no error, exactly for the records laid out without one. */
  lemma NoneIffLayout(record: bytes)
    ensures SniResult(record) == Ok(None) <==> exists l: Nameless :: l.Valid() && l.Record() == record
  {
    if SniResult(record) == Ok(None) {
      var l := NamelessOf(record);
    }
    forall l: Nameless | l.Valid() && l.Record() == record ensures SniResult(record) == Ok(None) { NamelessParses(l); }
  }
}
