/** The first TLS record of a client (src/proto.rs): how many bytes it needs, and the server name in
    the ClientHello it carries (RFC 8446 sections 4.1.2, 4.2 and 5.1, RFC 6066 section 3). */
module Tls {
  import opened Addresses
  import opened Wrappers
  import Remotes

  type bytes = seq<u8>

  datatype ProtoError = NotTls | Malformed | SniMismatch | MissingSni | BadGreeting

  const MaxTlsRecord: nat := 16 * 1024

  // ------------------------------------------------------------ integers and slices

  function ReadU16(b: bytes, i: nat): u16
    requires i + 2 <= |b|
  {
    b[i] as nat * 0x100 + b[i + 1]
  }

  function ReadU24(b: bytes, i: nat): nat
    requires i + 3 <= |b|
  {
    b[i] as nat * 0x1_0000 + b[i + 1] as nat * 0x100 + b[i + 2]
  }

  function U16(n: nat): bytes { [n / 0x100 % 0x100, n % 0x100] }

  function U24(n: nat): bytes { [n / 0x1_0000 % 0x100, n / 0x100 % 0x100, n % 0x100] }

  /** `slice.get(i..i + n)`. */
  function Get(b: bytes, i: nat, n: nat): Option<bytes> {
    if i + n <= |b| then Some(b[i..i + n]) else None
  }

  // ------------------------------------------------------------ UTF-8

  predicate Continues(b: bytes, i: nat) { i < |b| && 0x80 <= b[i] <= 0xbf }

  /** The length of the well-formed sequence at the front, or 0. */
  function SequenceLength(b: bytes): (n: nat)
    requires b != []
    ensures n <= |b|
  {
    var lead := b[0];
    if lead < 0x80 then 1
    else if !Continues(b, 1) then 0
    else if 0xc2 <= lead <= 0xdf then 2
    else if !Continues(b, 2) then 0
    else if 0xe0 <= lead <= 0xef then
      if (lead == 0xe0 && b[1] < 0xa0) || (lead == 0xed && b[1] >= 0xa0) then 0 else 3
    else if !Continues(b, 3) then 0
    else if 0xf0 <= lead <= 0xf4 then
      if (lead == 0xf0 && b[1] < 0x90) || (lead == 0xf4 && b[1] >= 0x90) then 0 else 4
    else 0
  }

  function CodePoint(b: bytes): char
    requires b != [] && SequenceLength(b) > 0
  {
    match SequenceLength(b)
    case 1 => b[0] as char
    case 2 => (MarkedBits(b, 0, 0xc0) * 0x40 + MarkedBits(b, 1, 0x80)) as char
    case 3 => (MarkedBits(b, 0, 0xe0) * 0x1000 + MarkedBits(b, 1, 0x80) * 0x40 + MarkedBits(b, 2, 0x80)) as char
    case _ => (MarkedBits(b, 0, 0xf0) * 0x4_0000 + MarkedBits(b, 1, 0x80) * 0x1000 + MarkedBits(b, 2, 0x80) * 0x40
               + MarkedBits(b, 3, 0x80)) as char
  }

  /** The bits of byte `i` under its UTF-8 marker. */
  function MarkedBits(b: bytes, i: nat, marker: nat): nat
    requires i < |b| && b[i] >= marker
  {
    b[i] - marker
  }

  /** `str::from_utf8`. */
  function DecodeUtf8(b: bytes): Option<string> {
    if b == [] then Some("")
    else
      var n := SequenceLength(b);
      if n == 0 then None
      else
        match DecodeUtf8(b[n..])
        case None => None
        case Some(s) => Some([CodePoint(b)] + s)
  }

  // ------------------------------------------------------------ tls_record_needed

  function TlsRecordNeeded(buf: bytes): Result<nat, ProtoError> {
    if buf == [] then Ok(5)
    else if buf[0] != 0x16 then Err(NotTls)
    else if |buf| < 5 then Ok(5 - |buf|)
    else if buf[1] != 0x03 then Err(NotTls)
    else
      var recordLen := ReadU16(buf, 3);
      if recordLen == 0 || recordLen > MaxTlsRecord then Err(Malformed)
      else if |buf| >= 5 + recordLen then Ok(0)
      else Ok(5 + recordLen - |buf|)
  }

  /** The declared length, most significant byte first. */
  function Declared(buf: bytes): nat
    requires |buf| >= 5
  {
    256 * buf[3] as nat + buf[4] as nat
  }

  /** A handshake record (type 22) of some TLS version (major number 3), declaring 1 to 16384 bytes. */
  predicate IsRecordStart(buf: bytes) { |buf| >= 5 && buf[0] == 22 && buf[1] == 3 && 0 < Declared(buf) <= 16384 }

  /** What is complete, what can still become so and how much it lacks, and what never will. */
  lemma NeededExactly(buf: bytes)
    ensures TlsRecordNeeded(buf) == Ok(0) <==> IsRecordStart(buf) && |buf| >= 5 + Declared(buf)
    ensures |buf| < 5 && (buf == [] || buf[0] == 22) ==> TlsRecordNeeded(buf) == Ok(5 - |buf|)
    ensures IsRecordStart(buf) && |buf| < 5 + Declared(buf) ==> TlsRecordNeeded(buf) == Ok(5 + Declared(buf) - |buf|)
    ensures TlsRecordNeeded(buf) == Err(NotTls) <==> buf != [] && (buf[0] != 22 || (|buf| >= 5 && buf[1] != 3))
    ensures TlsRecordNeeded(buf) == Err(Malformed)
            <==> |buf| >= 5 && buf[0] == 22 && buf[1] == 3 && !(0 < Declared(buf) <= 16384)
  {
  }

  // ------------------------------------------------------------ what parse_sni computes

  /** The ClientHello inside the record's handshake message. */
  function HelloOf(record: bytes): Result<bytes, ProtoError> {
    if |record| < 5 || record[0] != 0x16 then Err(NotTls)
    else
      match Get(record, 5, ReadU16(record, 3))
      case None => Err(Malformed)
      case Some(body) =>
        if |body| < 4 || body[0] != 0x01 then Err(NotTls)
        else
          match Get(body, 4, ReadU24(body, 1))
          case None => Err(Malformed)
          case Some(hello) => Ok(hello)
  }

  /** Where the extension block starts, after the fields that precede it. */
  function ExtensionsOffset(hello: bytes): Option<nat> {
    if 34 >= |hello| then None
    else
      var i: nat := 35 + hello[34] as nat;
      if i + 2 > |hello| then None
      else
        var j := i + 2 + ReadU16(hello, i);
        if j >= |hello| then None else Some(j + 1 + hello[j] as nat)
  }

  /** The contents of the extension block, `None` when the ClientHello ends before one. */
  function ExtensionsOf(hello: bytes): Result<Option<bytes>, ProtoError> {
    match ExtensionsOffset(hello)
    case None => Err(Malformed)
    case Some(i) =>
      if i == |hello| then Ok(None)
      else if i + 2 > |hello| then Err(Malformed)
      else
        match Get(hello, i + 2, ReadU16(hello, i))
        case None => Err(Malformed)
        case Some(exts) => Ok(Some(exts))
  }

  function NameResult(name: bytes): Result<Option<string>, ProtoError> {
    match DecodeUtf8(name)
    case None => Err(Malformed)
    case Some(s) => if s == "" then Err(Malformed) else Ok(Some(s))
  }

  function FirstHostName(list: bytes): Result<Option<string>, ProtoError> {
    if |list| < 3 then Ok(None)
    else
      match Get(list, 3, ReadU16(list, 1))
      case None => Err(Malformed)
      case Some(name) => if list[0] == 0 then NameResult(name) else FirstHostName(list[3 + |name|..])
  }

  /** The server-name list inside the extension. */
  function ListOf(data: bytes): Option<bytes> {
    if |data| < 2 then None else Get(data, 2, ReadU16(data, 0))
  }

  function SniOf(data: bytes): Result<Option<string>, ProtoError> {
    match ListOf(data)
    case None => Err(Malformed)
    case Some(list) => FirstHostName(list)
  }

  function FindSni(exts: bytes): Result<Option<string>, ProtoError> {
    if |exts| < 4 then Ok(None)
    else
      match Get(exts, 4, ReadU16(exts, 2))
      case None => Err(Malformed)
      case Some(data) => if ReadU16(exts, 0) == 0 then SniOf(data) else FindSni(exts[4 + |data|..])
  }

  function SniResult(record: bytes): Result<Option<string>, ProtoError> {
    match HelloOf(record)
    case Err(e) => Err(e)
    case Ok(hello) =>
      match ExtensionsOf(hello)
      case Err(e) => Err(e)
      case Ok(None) => Ok(None)
      case Ok(Some(exts)) => FindSni(exts)
  }

  // ------------------------------------------------------------ the parser

  function NamesFrom(list: bytes, i: nat): Result<Option<string>, ProtoError>
    requires i <= |list|
  {
    FirstHostName(list[i..])
  }

  /** One round of the loop over server names, at cursor `i`. */
  lemma NamesAt(list: bytes, i: nat)
    requires i + 3 <= |list|
    ensures var n := ReadU16(list, i + 1) as nat;
            && (Get(list, i + 3, n).Some? <==> i + 3 + n <= |list|)
            && NamesFrom(list, i)
               == match Get(list, i + 3, n)
                  case None => Err(Malformed)
                  case Some(name) => if list[i] == 0 then NameResult(name) else NamesFrom(list, i + 3 + n)
  {
    var rest, n := list[i..], ReadU16(list, i + 1) as nat;
    assert ReadU16(rest, 1) == n && rest[0] == list[i];
    if i + 3 + n <= |list| {
      assert rest[3..3 + n] == list[i + 3..i + 3 + n];
      assert rest[3 + n..] == list[i + 3 + n..];
    }
  }

  lemma NamesEnds(list: bytes)
    ensures NamesFrom(list, 0) == FirstHostName(list)
    ensures forall i: nat | i <= |list| < i + 3 :: NamesFrom(list, i) == Ok(None)
  {
    assert list[0..] == list;
  }

  function SniFrom(exts: bytes, j: nat): Result<Option<string>, ProtoError>
    requires j <= |exts|
  {
    FindSni(exts[j..])
  }

  /** One round of the loop over extensions, at cursor `j`. */
  lemma ExtensionsAt(exts: bytes, j: nat)
    requires j + 4 <= |exts|
    ensures var n := ReadU16(exts, j + 2) as nat;
            && (Get(exts, j + 4, n).Some? <==> j + 4 + n <= |exts|)
            && SniFrom(exts, j)
               == match Get(exts, j + 4, n)
                  case None => Err(Malformed)
                  case Some(data) => if ReadU16(exts, j) == 0 then SniOf(data) else SniFrom(exts, j + 4 + n)
  {
    var rest, n := exts[j..], ReadU16(exts, j + 2) as nat;
    assert ReadU16(rest, 2) == n && ReadU16(rest, 0) == ReadU16(exts, j);
    if j + 4 + n <= |exts| {
      assert rest[4..4 + n] == exts[j + 4..j + 4 + n];
      assert rest[4 + n..] == exts[j + 4 + n..];
    }
  }

  lemma ExtensionsEnds(exts: bytes)
    ensures SniFrom(exts, 0) == FindSni(exts)
    ensures forall j: nat | j <= |exts| < j + 4 :: SniFrom(exts, j) == Ok(None)
  {
    assert exts[0..] == exts;
  }

  method ParseSniExtension(data: bytes) returns (r: Result<Option<string>, ProtoError>)
    ensures r == SniOf(data)
  {
    if |data| < 2 { return Err(Malformed); }
    var list := Get(data, 2, ReadU16(data, 0));
    if list.None? { return Err(Malformed); }
    r := ScanNames(list.value);
  }

  /** The loop over the server-name list that ends `parse_sni_extension`. */
  method ScanNames(names: bytes) returns (r: Result<Option<string>, ProtoError>)
    ensures r == FirstHostName(names)
  {
    var i := 0;
    NamesEnds(names);
    hide *;
    while i + 3 <= |names|
      invariant i <= |names|
      invariant FirstHostName(names) == NamesFrom(names, i)
    {
      NamesAt(names, i);
      var nameType := names[i];
      var nameLen := ReadU16(names, i + 1);
      i := i + 3;
      var name := Get(names, i, nameLen);
      if name.None? { return Err(Malformed); }
      i := i + nameLen;
      if nameType == 0 {
        r := HostName(name.value);
        return;
      }
    }
    return Ok(None);
  }

  /** A `host_name` entry. */
  method HostName(name: bytes) returns (r: Result<Option<string>, ProtoError>)
    ensures r == NameResult(name)
  {
    var s := DecodeUtf8(name);
    if s.None? { return Err(Malformed); }
    if s.value == "" { return Err(Malformed); }
    return Ok(Some(s.value));
  }

  method ParseSni(record: bytes) returns (r: Result<Option<string>, ProtoError>)
    ensures r == SniResult(record)
  {
    if |record| < 5 || record[0] != 0x16 { return Err(NotTls); }
    var recordLen := ReadU16(record, 3);
    var body := Get(record, 5, recordLen);
    if body.None? { return Err(Malformed); }
    if |body.value| < 4 || body.value[0] != 0x01 { return Err(NotTls); }
    var hsLen := ReadU24(body.value, 1);
    var got := Get(body.value, 4, hsLen);
    if got.None? { return Err(Malformed); }
    var hello := got.value;

    var i := 2 + 32;
    if i >= |hello| { return Err(Malformed); }
    i := i + 1 + hello[i] as nat;
    if i + 2 > |hello| { return Err(Malformed); }
    i := i + 2 + ReadU16(hello, i);
    if i >= |hello| { return Err(Malformed); }
    i := i + 1 + hello[i] as nat;
    if i == |hello| { return Ok(None); }
    if i + 2 > |hello| { return Err(Malformed); }
    var extLen := ReadU16(hello, i);
    i := i + 2;
    var block := Get(hello, i, extLen);
    if block.None? { return Err(Malformed); }
    var exts := block.value;

    r := ScanExtensions(exts);
  }

  /** The loop over the extension block that ends `parse_sni`. */
  method ScanExtensions(exts: bytes) returns (r: Result<Option<string>, ProtoError>)
    ensures r == FindSni(exts)
  {
    var j := 0;
    ExtensionsEnds(exts);
    hide *;
    while j + 4 <= |exts|
      invariant j <= |exts|
      invariant FindSni(exts) == SniFrom(exts, j)
    {
      ExtensionsAt(exts, j);
      var typ := ReadU16(exts, j);
      var len := ReadU16(exts, j + 2);
      j := j + 4;
      var data := Get(exts, j, len);
      if data.None? { return Err(Malformed); }
      j := j + len;
      if typ == 0 {
        r := ParseSniExtension(data.value);
        return;
      }
    }
    return Ok(None);
  }

  function ValidateTlsClientHello(buf: bytes, expectedHost: string, destIsIpLiteral: bool)
    : Result<(), ProtoError>
  {
    match TlsRecordNeeded(buf)
    case Err(e) => Err(e)
    case Ok(needed) =>
      if needed != 0 then Err(Malformed)
      else
        match SniResult(buf)
        case Err(e) => Err(e)
        case Ok(sni) =>
          if destIsIpLiteral then Ok(())
          else
            match sni
            case None => Err(MissingSni)
            case Some(name) =>
              if Remotes.NormalizeHostname(name) == Remotes.NormalizeHostname(expectedHost)
              then Ok(()) else Err(SniMismatch)
  }

  // ------------------------------------------------------------ stability under extension

  /** Once a prefix of the stream is refused or complete, more bytes change nothing. */
  lemma NeededIsStable(buf: bytes, more: bytes)
    requires TlsRecordNeeded(buf).Err? || TlsRecordNeeded(buf) == Ok(0)
    ensures TlsRecordNeeded(buf + more) == TlsRecordNeeded(buf)
  {
  }

  lemma ValidationIgnoresRest(record: bytes, more: bytes, expectedHost: string, destIsIpLiteral: bool)
    requires TlsRecordNeeded(record) == Ok(0)
    ensures SniResult(record + more) == SniResult(record)
    ensures ValidateTlsClientHello(record + more, expectedHost, destIsIpLiteral)
            == ValidateTlsClientHello(record, expectedHost, destIsIpLiteral)
  {
    NeededIsStable(record, more);
    var n := ReadU16(record, 3);
    assert (record + more)[5..5 + n] == record[5..5 + n];
  }
}
