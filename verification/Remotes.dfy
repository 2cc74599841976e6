/** The `remote=host:port` parameter (src/dest.rs): parsing, the normal form of hostnames and the
    destination key. */
module Remotes {
  import opened Addresses
  import opened Routability
  import opened Text
  import opened Wrappers
  import Loose = LooseIpv4

  datatype DestError = InvalidRemote | BadPort | IpLiteral | PrivateIp | Dns | Connect

  datatype Remote = Remote(host: string, port: u16, ipLiteral: Option<IpAddr>) {
    function DestKey(): string { host + ":" + Decimal(port) }
  }

  /** The standard library's reader and writer of IPv6 text, which this model does not define. All it
      relies on is that IPv6 text contains a colon, and is written without brackets or a leading space. */
  datatype Ipv6Text = Ipv6Text(parse: string -> Option<u128>, show: u128 -> string) {
    ghost predicate Valid() {
      && (forall s :: parse(s).Some? ==> ':' in s)
      && forall b :: ':' in show(b) && ']' !in show(b) && show(b)[0] != '[' && !IsSpace(show(b)[0])
    }
  }

  // ------------------------------------------------------------ IPv4 text

  predicate IsOctet(p: string) {
    && 1 <= |p| <= 3 && AllDigits(p, 10) && (|p| > 1 ==> p[0] != '0') && Positional(p, 10) <= 0xff
  }

  /** The standard library's strict dotted quad. */
  function ParseStrictIpv4(s: string): Option<u32> {
    var parts := Split(s, '.');
    if |s| <= 15 && |parts| == 4 && forall i | 0 <= i < 4 :: IsOctet(parts[i]) then
      Some(FromOctets(Positional(parts[0], 10), Positional(parts[1], 10),
                      Positional(parts[2], 10), Positional(parts[3], 10)))
    else None
  }

  function ShowIpv4(a: u32): string {
    Join([Decimal(Octet(a, 0)), Decimal(Octet(a, 1)), Decimal(Octet(a, 2)), Decimal(Octet(a, 3))], '.')
  }

  function ParseIpAddr(s: string, v6: Ipv6Text): Option<IpAddr> {
    match ParseStrictIpv4(s)
    case Some(a) => Some(V4(a))
    case None =>
      match v6.parse(s)
      case Some(b) => Some(V6(b))
      case None => None
  }

  function IpCanonical(ip: IpAddr, v6: Ipv6Text): string {
    match ip
    case V4(a) => ShowIpv4(a)
    case V6(b) => if ToMapped(b).Some? then ShowIpv4(ToMapped(b).value) else v6.show(b)
  }

  // ------------------------------------------------------------ hostnames

  function TrimEndDots(s: string): string {
    if s != "" && s[|s| - 1] == '.' then TrimEndDots(s[..|s| - 1]) else s
  }

  function NormalizeHostname(host: string): string { Lower(TrimEndDots(Trim(host))) }

  const MaxHostnameLen: nat := 253
  const MaxDnsLabelLen: nat := 63

  predicate IsValidDnsLabel(name: string) {
    && 0 < |name| <= MaxDnsLabelLen
    && IsAlphanumeric(name[0]) && IsAlphanumeric(name[|name| - 1])
    && forall i | 0 <= i < |name| :: IsAlphanumeric(name[i]) || name[i] == '-'
  }

  predicate IsValidDnsHostname(host: string) {
    && host != "" && |host| <= MaxHostnameLen
    && host[0] != '.' && (forall i | 0 < i < |host| :: !(host[i - 1] == '.' && host[i] == '.'))
    && var labels := Split(host, '.');
       forall i | 0 <= i < |labels| :: IsValidDnsLabel(labels[i])
  }

  // ------------------------------------------------------------ parse_remote

  /** `str::find` of one character. */
  function Find(s: string, c: char): (r: Option<nat>)
    ensures r.Some? ==> r.value < |s| && s[r.value] == c && c !in s[..r.value]
    ensures r.None? ==> c !in s
  {
    if s == "" then None
    else if s[0] == c then Some(0)
    else
      match Find(s[1..], c)
      case None => None
      case Some(i) =>
        assert s[..i + 1] == [s[0]] + s[1..][..i];
        Some(i + 1)
  }

  /** The index at which `str::rsplit_once` splits. */
  function RFind(s: string, c: char): (r: Option<nat>)
    ensures r.Some? ==> r.value < |s| && s[r.value] == c && c !in s[r.value + 1..]
    ensures r.None? ==> c !in s
  {
    if s == "" then None
    else if s[|s| - 1] == c then Some(|s| - 1)
    else
      match RFind(s[..|s| - 1], c)
      case None => None
      case Some(i) =>
        assert s[i + 1..] == s[..|s| - 1][i + 1..] + [s[|s| - 1]];
        Some(i)
  }

  /** `str::parse::<u16>`, which admits a leading plus sign. */
  function ParsePort(s: string): Option<u16> {
    var digits := if s != "" && s[0] == '+' then s[1..] else s;
    if digits == "" || !AllDigits(digits, 10) || Positional(digits, 10) > 0xffff then None
    else Some(Positional(digits, 10))
  }

  /** The host and port texts, or `None` where the source reports `InvalidRemote`. */
  function SplitHostPort(raw: string): Option<(string, string)> {
    if raw != "" && raw[0] == '[' then
      var rest := raw[1..];
      match Find(rest, ']')
      case None => None
      case Some(close) =>
        var after := rest[close + 1..];
        if after != "" && after[0] == ':' then Some((rest[..close], after[1..])) else None
    else
      match RFind(raw, ':')
      case None => None
      case Some(i) =>
        var host := raw[..i];
        if host == "" || ':' in host then None else Some((host, raw[i + 1..]))
  }

  function ParseRemote(text: string, v6: Ipv6Text): Result<Remote, DestError> {
    var raw := Trim(text);
    if raw == "" then Err(InvalidRemote)
    else
      match SplitHostPort(raw)
      case None => Err(InvalidRemote)
      case Some((hostRaw, portStr)) =>
        if hostRaw == "" then Err(InvalidRemote)
        else
          var port := ParsePort(portStr);
          if port.None? || port.value == 0 then Err(InvalidRemote)
          else if ParseIpAddr(hostRaw, v6).Some? then
            var ip := ParseIpAddr(hostRaw, v6).value;
            Ok(Remote(IpCanonical(ip, v6), port.value, Some(ip)))
          else if Loose.Parse(hostRaw).Some? then
            var ip := V4(Loose.Parse(hostRaw).value);
            Ok(Remote(IpCanonical(ip, v6), port.value, Some(ip)))
          else
            var host := NormalizeHostname(hostRaw);
            if !IsValidDnsHostname(host) then Err(InvalidRemote)
            else Ok(Remote(host, port.value, None))
  }

  // ------------------------------------------------------------ normal form

  predicate IsLdhLower(c: char) { IsDigit(c) || 'a' <= c <= 'z' || c == '-' || c == '.' }

  lemma {:induction false} JoinChars(parts: seq<string>, sep: char, k: nat)
    requires k < |Join(parts, sep)|
    ensures Join(parts, sep)[k] == sep || exists i | 0 <= i < |parts| :: Join(parts, sep)[k] in parts[i]
  {
    if |parts| > 1 {
      var skip := |parts[0]| + 1;
      if k >= skip {
        JoinChars(parts[1..], sep, k - skip);
        if i :| 0 <= i < |parts[1..]| && Join(parts, sep)[k] in parts[1..][i] {
          assert Join(parts, sep)[k] in parts[i + 1];
        }
      } else if k < |parts[0]| {
        assert Join(parts, sep)[k] in parts[0];
      }
    }
  }

  lemma {:induction false} JoinEnds(parts: seq<string>, sep: char)
    requires |parts| > 0 && forall i | 0 <= i < |parts| :: parts[i] != ""
    ensures var s, last := Join(parts, sep), parts[|parts| - 1];
            s != "" && s[0] == parts[0][0] && s[|s| - 1] == last[|last| - 1]
  {
    if |parts| > 1 { JoinEnds(parts[1..], sep); }
  }

  lemma ValidHostChars(host: string)
    requires IsValidDnsHostname(host)
    ensures forall i | 0 <= i < |host| :: IsAlphanumeric(host[i]) || host[i] == '-' || host[i] == '.'
    ensures IsAlphanumeric(host[0]) && IsAlphanumeric(host[|host| - 1])
  {
    var labels := Split(host, '.');
    JoinSplit(host, '.');
    JoinEnds(labels, '.');
    assert IsValidDnsLabel(labels[0]) && IsValidDnsLabel(labels[|labels| - 1]);
    forall i | 0 <= i < |host| ensures IsAlphanumeric(host[i]) || host[i] == '-' || host[i] == '.' {
      JoinChars(labels, '.', i);
      if host[i] != '.' {
        var j :| 0 <= j < |labels| && host[i] in labels[j];
        assert IsValidDnsLabel(labels[j]);
      }
    }
  }

  lemma TrimmedIsFixed(s: string)
    requires IsTrimmed(s)
    ensures Trim(s) == s
  {
  }

  /** What the parser accepts as a hostname is in normal form. */
  lemma AcceptedHostIsNormal(text: string, v6: Ipv6Text)
    requires ParseRemote(text, v6).Ok? && ParseRemote(text, v6).value.ipLiteral.None?
    ensures var host := ParseRemote(text, v6).value.host;
            && IsValidDnsHostname(host)
            && (forall i | 0 <= i < |host| :: IsLdhLower(host[i]))
            && NormalizeHostname(host) == host
  {
    var host := ParseRemote(text, v6).value.host;
    ValidHostChars(host);
    forall i | 0 <= i < |host| ensures IsLdhLower(host[i]) {
      var hostRaw := SplitHostPort(Trim(text)).value.0;
      assert host[i] == LowerChar(TrimEndDots(Trim(hostRaw))[i]);
    }
    LdhIsFixed(host);
  }

  lemma LdhIsFixed(host: string)
    requires host != "" && host[|host| - 1] != '.'
    requires forall i | 0 <= i < |host| :: IsLdhLower(host[i])
    ensures NormalizeHostname(host) == host
  {
    TrimmedIsFixed(host);
    assert forall i | 0 <= i < |host| :: LowerChar(host[i]) == host[i];
  }

  lemma {:induction false} LowerSpace(s: string)
    ensures forall i | 0 <= i < |s| :: IsSpace(Lower(s)[i]) == IsSpace(s[i]) && (Lower(s)[i] == '.' <==> s[i] == '.')
    ensures Lower(Lower(s)) == Lower(s)
  {
  }

  lemma {:induction false} TrimEndDotsStops(s: string)
    ensures var t := TrimEndDots(s); t <= s && (t != "" ==> t[|t| - 1] != '.')
  {
    if s != "" && s[|s| - 1] == '.' { TrimEndDotsStops(s[..|s| - 1]); }
  }

  /** Normalising twice differs from normalising once exactly when white space hides behind
      the trailing dots. */
  lemma NormalizeTwice(host: string)
    ensures NormalizeHostname(NormalizeHostname(host)) == NormalizeHostname(host)
            <==> var t := TrimEndDots(Trim(host)); t != "" ==> !IsSpace(t[|t| - 1])
  {
    var t := TrimEndDots(Trim(host));
    TrimTrims(host);
    TrimEndDotsStops(Trim(host));
    LowerSpace(t);
    var n := Lower(t);
    if t == "" {
    } else if IsSpace(t[|t| - 1]) {
      TrimShorter(n);
      TrimEndDotsStops(Trim(n));
    } else {
      TrimmedIsFixed(n);
    }
  }

  lemma {:induction false} TrimShorter(s: string)
    requires s != "" && IsSpace(s[|s| - 1])
    ensures |Trim(s)| < |s|
  {
    TrimLengths(s);
    var t := TrimStart(s);
    if t == s { TrimLengths(s[..|s| - 1]); }
  }

  lemma {:induction false} TrimLengths(s: string)
    ensures |TrimStart(s)| <= |s| && (TrimStart(s) != s ==> |TrimStart(s)| < |s|)
    ensures |TrimEnd(s)| <= |s| && |TrimEnd(TrimStart(s))| <= |TrimStart(s)|
    decreases |s|
  {
    if s != "" {
      TrimLengths(s[1..]);
      TrimLengths(s[..|s| - 1]);
    }
  }

  lemma NormalizeIsNotIdempotent()
    ensures NormalizeHostname("a .") == "a " && NormalizeHostname("a ") == "a"
  {
    assert TrimStart("a .") == "a ." && TrimEnd("a .") == "a .";
    assert "a ."[..2] == "a ";
    assert TrimEndDots("a .") == TrimEndDots("a ") == "a ";
    assert "a "[..1] == "a";
    assert TrimStart("a ") == "a " && TrimEnd("a ") == TrimEnd("a") == "a";
    assert Lower("a ") == "a ";
    assert TrimEndDots("a") == "a";
    assert Lower("a") == "a";
  }

  // ------------------------------------------------------------ round trips

  lemma {:induction false} RFindLast(a: string, b: string, c: char)
    requires c !in b
    ensures RFind(a + [c] + b, c) == Some(|a|)
  {
    var s := a + [c] + b;
    if b == "" {
      assert s[|s| - 1] == c;
    } else {
      RFindLast(a, b[..|b| - 1], c);
      assert s[..|s| - 1] == a + [c] + b[..|b| - 1];
      assert s[|s| - 1] == b[|b| - 1];
    }
  }

  lemma DestKeySplits(host: string, port: u16)
    ensures var key := host + ":" + Decimal(port);
            RFind(key, ':') == Some(|host|) && key[..|host|] == host && key[|host| + 1..] == Decimal(port)
  {
    RFindLast(host, Decimal(port), ':');
    assert host + ":" + Decimal(port) == host + [':'] + Decimal(port);
  }

  /** Distinct destinations never share a key, whatever their host texts. */
  lemma DestKeyInjective(r: Remote, q: Remote)
    requires r.DestKey() == q.DestKey()
    ensures r.host == q.host && r.port == q.port
  {
    DestKeySplits(r.host, r.port);
    DestKeySplits(q.host, q.port);
    DecimalInjective(r.port, q.port);
  }

  lemma DecimalPort(port: u16)
    ensures ParsePort(Decimal(port)) == Some(port)
  {
    DecimalValue(port);
    var s := Decimal(port);
    assert IsDigit(s[0]);
    assert AllDigits(s, 10);
  }

  /** How a key whose host has no colon is taken apart again. */
  lemma ParseDestKey(host: string, port: u16, v6: Ipv6Text)
    requires v6.Valid() && port != 0
    requires host != "" && ':' !in host && host[0] != '[' && !IsSpace(host[0])
    ensures ParseRemote(host + ":" + Decimal(port), v6)
            == match ParseStrictIpv4(host)
               case Some(a) => Ok(Remote(ShowIpv4(a), port, Some(V4(a))))
               case None =>
                 match Loose.Parse(host)
                 case Some(a) => Ok(Remote(ShowIpv4(a), port, Some(V4(a))))
                 case None =>
                   if IsValidDnsHostname(NormalizeHostname(host))
                   then Ok(Remote(NormalizeHostname(host), port, None)) else Err(InvalidRemote)
  {
    KeySplits(host, port);
    DecimalPort(port);
    assert v6.parse(host).None?;
  }

  lemma KeySplits(host: string, port: u16)
    requires host != "" && ':' !in host && host[0] != '[' && !IsSpace(host[0])
    ensures var key := host + ":" + Decimal(port);
            key != "" && Trim(key) == key && SplitHostPort(key) == Some((host, Decimal(port)))
  {
    var key := host + ":" + Decimal(port);
    assert key[|key| - 1] == Decimal(port)[|Decimal(port)| - 1];
    assert key[0] == host[0];
    TrimmedIsFixed(key);
    DestKeySplits(host, port);
  }

  lemma OctetSpelling(p: string)
    requires IsOctet(p)
    ensures Loose.ParseComponent(p) == Some(Positional(p, 10))
  {
    assert DigitValue('x') == DigitValue('X') == 16;
  }

  /** Whatever the strict reader accepts, the loose one reads alike. */
  lemma StrictIsLoose(s: string)
    requires ParseStrictIpv4(s).Some?
    ensures Loose.Parse(s) == ParseStrictIpv4(s)
  {
    var parts := Split(s, '.');
    forall i | 0 <= i < 4 ensures Loose.ParseComponent(parts[i]) == Some(Positional(parts[i], 10)) {
      OctetSpelling(parts[i]);
    }
    assert |Split("", '.')| == 1;
    var nums := Loose.Numbers(parts);
    assert nums.Some? && |nums.value| == 4;
  }

  /** An accepted hostname survives the trip through its key exactly when it is not itself a loose
      spelling of an IPv4 address. */
  lemma HostnameRoundTrip(text: string, v6: Ipv6Text)
    requires v6.Valid()
    requires ParseRemote(text, v6).Ok? && ParseRemote(text, v6).value.ipLiteral.None?
    ensures var r := ParseRemote(text, v6).value;
            ParseRemote(r.DestKey(), v6) == Ok(r) <==> Loose.Parse(r.host).None?
  {
    var r := ParseRemote(text, v6).value;
    AcceptedHostIsNormal(text, v6);
    ValidHostChars(r.host);
    ParseDestKey(r.host, r.port, v6);
    if ParseStrictIpv4(r.host).Some? { StrictIsLoose(r.host); }
  }

  lemma {:induction false} JoinSnoc(parts: seq<string>, last: string, sep: char)
    requires parts != []
    ensures Join(parts + [last], sep) == Join(parts, sep) + [sep] + last
  {
    if |parts| > 1 {
      JoinSnoc(parts[1..], last, sep);
      assert (parts + [last])[1..] == parts[1..] + [last];
    } else {
      assert (parts + [last])[1..] == [last];
    }
  }

  lemma TrailingDotHides(host: string)
    ensures ParseStrictIpv4(host + ".").None? && Loose.Parse(host + ".").None?
  {
    var parts := Split(host, '.') + [""];
    JoinSplit(host, '.');
    JoinSnoc(Split(host, '.'), "", '.');
    assert host + "." == Join(parts, '.');
    SplitJoin(parts, '.');
    assert parts[|parts| - 1] == "" && !IsOctet("") && Loose.ParseComponent("").None?;
  }

  lemma DottedNormal(host: string)
    requires IsValidDnsHostname(host) && forall i | 0 <= i < |host| :: IsLdhLower(host[i])
    ensures NormalizeHostname(host + ".") == host
  {
    var dotted := host + ".";
    ValidHostChars(host);
    TrimmedIsFixed(dotted);
    assert dotted[..|host|] == host && TrimEndDots(host) == host;
    assert TrimEndDots(dotted) == host;
    assert forall i | 0 <= i < |host| :: LowerChar(host[i]) == host[i];
    assert Lower(host) == host;
  }

  lemma DottedParses(host: string, port: u16, v6: Ipv6Text)
    requires v6.Valid() && port != 0
    requires IsValidDnsHostname(host) && forall i | 0 <= i < |host| :: IsLdhLower(host[i])
    ensures ParseRemote(host + ".:" + Decimal(port), v6) == Ok(Remote(host, port, None))
  {
    hide *;
    TrailingDotHides(host);
    DottedNormal(host);
    HostHead(host);
    HeadOfDotted(host);
    DotBeforeColon(host, Decimal(port));
    ParseDestKey(host + ".", port, v6);
  }

  lemma HostHead(host: string)
    requires IsValidDnsHostname(host)
    ensures host != "" && ':' !in host && host[0] != '[' && !IsSpace(host[0])
  {
    ValidHostChars(host);
  }

  lemma DotBeforeColon(host: string, port: string)
    ensures (host + ".") + ":" + port == host + ".:" + port
  {
  }

  lemma HeadOfDotted(host: string)
    requires host != "" && ':' !in host && host[0] != '[' && !IsSpace(host[0])
    ensures var dotted := host + ".";
            dotted != "" && ':' !in dotted && dotted[0] != '[' && !IsSpace(dotted[0])
  {
  }

  lemma LooseNameReadAsLiteral(host: string, port: u16, v6: Ipv6Text)
    requires v6.Valid() && port != 0 && IsValidDnsHostname(host) && Loose.Parse(host).Some?
    ensures ParseRemote(host + ":" + Decimal(port), v6) != Ok(Remote(host, port, None))
  {
    hide *;
    HostHead(host);
    ParseDestKey(host, port, v6);
  }

  /** The exception is real: a trailing dot hides any loose IPv4 spelling from the loose reader the
      first time, but the normalised host in the key no longer has it. */
  lemma HostnameRoundTripFails(host: string, port: u16, v6: Ipv6Text)
    requires v6.Valid() && port != 0
    requires IsValidDnsHostname(host) && forall i | 0 <= i < |host| :: IsLdhLower(host[i])
    requires Loose.Parse(host).Some?
    ensures var r := Remote(host, port, None);
            ParseRemote(host + ".:" + Decimal(port), v6) == Ok(r) && ParseRemote(r.DestKey(), v6) != Ok(r)
  {
    DottedParses(host, port, v6);
    LooseNameReadAsLiteral(host, port, v6);
    hide ParseRemote, Decimal;
  }

  lemma HostnameRoundTripFailsOn(v6: Ipv6Text)
    requires v6.Valid()
    ensures var r := Remote("1", 993, None);
            ParseRemote("1" + ".:" + Decimal(993), v6) == Ok(r) && ParseRemote(r.DestKey(), v6) != Ok(r)
  {
    OneIsHostname();
    OneIsLoose();
    hide *;
    HostnameRoundTripFails("1", 993, v6);
  }

  lemma OneIsHostname()
    ensures IsValidDnsHostname("1") && forall i | 0 <= i < |"1"| :: IsLdhLower("1"[i])
  {
    SplitJoin(["1"], '.');
  }

  lemma OneIsLoose()
    ensures Loose.Parse("1").Some?
  {
    var sps := [Loose.Dec("1")];
    assert Loose.Texts(sps) == ["1"];
    assert Positional("1", 10) == 1 by { assert "1"[1..] == ""; }
    Loose.SpelledResult(sps);
  }

  lemma SmallDecimal(n: u8)
    ensures IsOctet(Decimal(n)) && '.' !in Decimal(n) && Positional(Decimal(n), 10) == n
  {
    DecimalValue(n);
    assert |Decimal(n)| <= 3 by {
      assert |Decimal(n)| == 1 + if n < 10 then 0 else |Decimal(n / 10)|;
      assert n >= 10 ==> |Decimal(n / 10)| == 1 + if n / 10 < 10 then 0 else |Decimal(n / 100)|;
    }
  }

  lemma StrictReadsShown(a: u32)
    ensures ParseStrictIpv4(ShowIpv4(a)) == Some(a)
    ensures var s := ShowIpv4(a); s != "" && IsDigit(s[0]) && ':' !in s
  {
    var parts := [Decimal(Octet(a, 0)), Decimal(Octet(a, 1)), Decimal(Octet(a, 2)), Decimal(Octet(a, 3))];
    forall i | 0 <= i < 4 ensures IsOctet(parts[i]) && '.' !in parts[i] && Positional(parts[i], 10) == Octet(a, i) {
      SmallDecimal(Octet(a, i));
    }
    SplitJoin(parts, '.');
    JoinEnds(parts, '.');
    var s := Join(parts, '.');
    assert |s| <= 15 by {
      assert |s| == |parts[0]| + 1 + |Join(parts[1..], '.')|;
      assert |Join(parts[1..], '.')| == |parts[1]| + 1 + |Join(parts[1..][1..], '.')|;
      assert |Join(parts[1..][1..], '.')| == |parts[2]| + 1 + |parts[3]|;
    }
    if ':' in s {
      var k :| 0 <= k < |s| && s[k] == ':';
      JoinChars(parts, '.', k);
    }
    OctetsOf(a);
  }

  lemma OctetsOf(a: u32)
    ensures FromOctets(Octet(a, 0), Octet(a, 1), Octet(a, 2), Octet(a, 3)) == a
  {
    OctetsSum(a);
    hide Octet;
  }

  /** Every IPv4 literal survives the trip through its key. */
  lemma Ipv4RoundTrip(a: u32, port: u16, v6: Ipv6Text)
    requires v6.Valid() && port != 0
    ensures var r := Remote(IpCanonical(V4(a), v6), port, Some(V4(a)));
            ParseRemote(r.DestKey(), v6) == Ok(r)
  {
    StrictReadsShown(a);
    ParseDestKey(ShowIpv4(a), port, v6);
  }

  /** The key of an IPv6 literal is refused: it has no brackets. */
  lemma Ipv6KeyRefused(b: u128, port: u16, v6: Ipv6Text)
    requires v6.Valid()
    ensures ParseRemote(v6.show(b) + ":" + Decimal(port), v6) == Err(InvalidRemote)
  {
    var host := v6.show(b);
    assert ':' in host && host[0] != '[' && !IsSpace(host[0]);
    DestKeySplits(host, port);
    KeyTrimmed(host, port);
    hide RFind, Decimal, Trim, IsTrimmed, ParseIpAddr, Loose.Parse;
  }

  lemma KeyTrimmed(host: string, port: u16)
    requires host != "" && !IsSpace(host[0])
    ensures var key := host + ":" + Decimal(port); Trim(key) == key && key[0] == host[0]
  {
    var key := host + ":" + Decimal(port);
    DecimalValue(port);
    assert IsDigit(key[|key| - 1]);
    TrimmedIsFixed(key);
  }

  lemma LiteralHost(text: string, v6: Ipv6Text)
    requires ParseRemote(text, v6).Ok?
    ensures var r := ParseRemote(text, v6).value;
            r.port != 0 && (r.ipLiteral.Some? ==> r.host == IpCanonical(r.ipLiteral.value, v6))
  {
  }

  lemma MappedRoundTripFails(b: u128, port: u16, v6: Ipv6Text)
    requires v6.Valid() && port != 0 && ToMapped(b).Some?
    ensures var r := Remote(IpCanonical(V6(b), v6), port, Some(V6(b))); ParseRemote(r.DestKey(), v6) != Ok(r)
  {
    var a := ToMapped(b).value;
    StrictReadsShown(a);
    ParseDestKey(ShowIpv4(a), port, v6);
    hide ParseRemote, ShowIpv4, Decimal, ParseStrictIpv4;
  }

  /** Which accepted destinations survive the trip through their key: hostnames that are no loose spelling
      of an IPv4 address, and IPv4 literals. */
  lemma RoundTripExactly(text: string, v6: Ipv6Text)
    requires v6.Valid() && ParseRemote(text, v6).Ok?
    ensures var r := ParseRemote(text, v6).value;
            ParseRemote(r.DestKey(), v6) == Ok(r)
            <==> match r.ipLiteral
                 case None => Loose.Parse(r.host).None?
                 case Some(ip) => ip.V4?
  {
    var r := ParseRemote(text, v6).value;
    LiteralHost(text, v6);
    match r.ipLiteral {
      case None => HostnameRoundTrip(text, v6);
      case Some(V4(a)) => Ipv4RoundTrip(a, r.port, v6);
      case Some(V6(b)) =>
        if ToMapped(b).Some? { MappedRoundTripFails(b, r.port, v6); } else { Ipv6KeyRefused(b, r.port, v6); }
    }
  }
}
