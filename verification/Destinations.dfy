/** The texts `parse_remote` (src/dest.rs) accepts, and the destination each of them names, in terms of
    the texts themselves. */
module Destinations {
  import opened Addresses
  import opened Bits
  import opened Remotes
  import opened Routability
  import opened Text
  import opened Wrappers
  import Loose = LooseIpv4

  // ------------------------------------------------------------ host and port

  /** `[host]:port`, or `host:port` without a further colon. */
  predicate Splits(raw: string, h: string, p: string) {
    || (raw == "[" + h + "]:" + p && ']' !in h)
    || (raw == h + ":" + p && h != "" && h[0] != '[' && ':' !in h && ':' !in p)
  }

  lemma {:induction false} FindFirst(h: string, rest: string, c: char)
    requires c !in h
    ensures Find(h + [c] + rest, c) == Some(|h|)
  {
    var s := h + [c] + rest;
    if h != "" {
      FindFirst(h[1..], rest, c);
      assert s[1..] == h[1..] + [c] + rest && s[0] == h[0];
    }
  }

  lemma BracketSplits(h: string, p: string)
    requires ']' !in h
    ensures SplitHostPort("[" + h + "]:" + p) == Some((h, p))
  {
    var raw := "[" + h + "]:" + p;
    var rest := raw[1..];
    assert rest == h + [']'] + (":" + p);
    FindFirst(h, ":" + p, ']');
    assert rest[|h| + 1..] == ":" + p && rest[..|h|] == h;
    assert (":" + p)[1..] == p;
  }

  lemma PlainSplits(h: string, p: string)
    requires h != "" && h[0] != '[' && ':' !in h && ':' !in p
    ensures SplitHostPort(h + ":" + p) == Some((h, p))
  {
    RFindLast(h, p, ':');
    var raw := h + ":" + p;
    assert raw == h + [':'] + p && raw[..|h|] == h && raw[|h| + 1..] == p && raw[0] == h[0];
  }

  lemma SplitIsOne(raw: string, h: string, p: string)
    requires SplitHostPort(raw) == Some((h, p))
    ensures Splits(raw, h, p)
  {
    if raw != "" && raw[0] == '[' {
      var rest := raw[1..];
      var i := Find(rest, ']').value;
      assert raw == "[" + rest;
      assert rest == h + [']'] + rest[i + 1..];
      assert rest[i + 1..] == ":" + p;
      assert raw == "[" + h + "]:" + p;
    } else {
      var i := RFind(raw, ':').value;
      assert raw == h + [':'] + p && raw[0] == h[0];
    }
  }

  lemma SplitExactly(raw: string, h: string, p: string)
    ensures SplitHostPort(raw) == Some((h, p)) <==> Splits(raw, h, p)
  {
    if SplitHostPort(raw) == Some((h, p)) { SplitIsOne(raw, h, p); }
    if raw == "[" + h + "]:" + p && ']' !in h { BracketSplits(h, p); }
    if raw == h + ":" + p && h != "" && h[0] != '[' && ':' !in h && ':' !in p { PlainSplits(h, p); }
  }

  /** A decimal numeral, which may have a plus sign and leading zeros. */
  predicate ReadsAs(s: string, digits: string, n: nat) {
    && (s == digits || s == "+" + digits)
    && digits != "" && (forall i | 0 <= i < |digits| :: digits[i] in Digits) && Positional(digits, 10) == n
  }

  lemma DecimalDigits(s: string)
    ensures AllDigits(s, 10) <==> forall i | 0 <= i < |s| :: s[i] in Digits
  {
    forall i | 0 <= i < |s| ensures DigitValue(s[i]) < 10 <==> s[i] in Digits { DigitIn(s[i]); }
  }

  /** A port is any decimal numeral up to 65535. */
  lemma PortExactly(s: string, port: u16)
    ensures ParsePort(s) == Some(port) <==> exists digits :: ReadsAs(s, digits, port)
  {
    var digits := if s != "" && s[0] == '+' then s[1..] else s;
    DecimalDigits(digits);
    if ParsePort(s) == Some(port) {
      assert s == digits || s == "+" + digits;
      assert ReadsAs(s, digits, port);
    }
    forall ds | ReadsAs(s, ds, port) ensures ds == digits && ParsePort(s) == Some(port) {
      DigitIn('+');
      if s == "+" + ds { assert s[1..] == ds; }
    }
  }

  // ------------------------------------------------------------ strict IPv4

  lemma {:induction false} CanonicalNumeral(s: string)
    requires s != "" && AllDigits(s, 10) && (|s| > 1 ==> s[0] != '0')
    ensures Decimal(Positional(s, 10)) == s
    ensures |s| > 1 ==> Positional(s, 10) >= 10
  {
    var n := |s| - 1;
    PositionalSnoc(s, 10);
    assert DigitValue(s[n]) < 10;
    LastDigit(s[n]);
    if n == 0 {
      assert s[..0] == "" && s == [s[0]];
    } else {
      var front := s[..n];
      CanonicalNumeral(front);
      NonzeroStart(front);
      assert s == front + [s[n]];
      hide Positional, DigitValue, AllDigits;
      DecimalSnoc(Positional(front, 10), DigitValue(s[n]), s[n]);
    }
  }

  lemma LastDigit(c: char)
    requires DigitValue(c) < 10
    ensures c as int == '0' as int + DigitValue(c)
  {
  }

  lemma DecimalSnoc(v: nat, d: nat, c: char)
    requires v >= 1 && d < 10 && c as int == '0' as int + d
    ensures Decimal(v * 10 + d) == Decimal(v) + [c]
  {
    var n := v * 10 + d;
    assert n / 10 == v && n % 10 == d;
  }

  lemma NonzeroStart(s: string)
    requires s != "" && AllDigits(s, 10) && s[0] != '0'
    ensures Positional(s, 10) >= 1
  {
    PowAtLeast(|s| - 1);
    assert DigitValue(s[0]) >= 1;
    Product(DigitValue(s[0]), Pow(10, |s| - 1));
  }

  lemma PowAtLeast(e: nat)
    ensures Pow(10, e) >= 1
  {
  }

  lemma Product(a: nat, b: nat)
    requires a >= 1 && b >= 1
    ensures a * b >= 1
  {
  }

  /** The strict reader accepts exactly the canonical dotted quad of each address. */
  lemma StrictExactly(s: string, a: u32)
    ensures ParseStrictIpv4(s) == Some(a) <==> s == ShowIpv4(a)
  {
    StrictReadsShown(a);
    if ParseStrictIpv4(s) == Some(a) {
      var parts := Split(s, '.');
      forall i | 0 <= i < 4 ensures parts[i] == Decimal(Octet(a, i)) {
        assert IsOctet(parts[i]);
        CanonicalNumeral(parts[i]);
        OctetsBack(Positional(parts[0], 10), Positional(parts[1], 10), Positional(parts[2], 10),
                   Positional(parts[3], 10));
      }
      JoinSplit(s, '.');
      assert parts == [parts[0], parts[1], parts[2], parts[3]];
    }
  }

  lemma OctetsBack(o0: u8, o1: u8, o2: u8, o3: u8)
    ensures var a := FromOctets(o0, o1, o2, o3);
            Octet(a, 0) == o0 && Octet(a, 1) == o1 && Octet(a, 2) == o2 && Octet(a, 3) == o3
  {
    var a := FromOctets(o0, o1, o2, o3);
    var q2 := o0 * 0x100 + o1;
    var q1 := q2 * 0x100 + o2;
    ModUnique(a, q1, o3, 0x100);
    ModUnique(q1, q2, o2, 0x100);
    ModUnique(q2, o0, o1, 0x100);
    DivTwice(a);
  }

  // ------------------------------------------------------------ hostnames

  predicate IsAlnum(c: char) { c in Digits || c in Smalls || c in Capitals }

  /** A label: 1 to 63 letters, digits and hyphens, with none of these at either end. */
  predicate IsLabel(l: string) {
    && 1 <= |l| <= 63 && IsAlnum(l[0]) && IsAlnum(l[|l| - 1])
    && forall i | 0 <= i < |l| :: IsAlnum(l[i]) || l[i] == '-'
  }

  predicate AreLabels(labels: seq<string>) {
    labels != [] && forall i | 0 <= i < |labels| :: IsLabel(labels[i])
  }

  lemma LabelExactly(l: string)
    ensures IsValidDnsLabel(l) <==> IsLabel(l)
    ensures IsLabel(l) ==> '.' !in l
  {
    forall c: char ensures IsAlphanumeric(c) <==> IsAlnum(c) { DigitExactly(c); }
    hide Digits, Smalls, Capitals, IsAlnum;
  }

  lemma {:induction false} NoDoubleDot(labels: seq<string>, i: nat)
    requires labels != [] && forall k | 0 <= k < |labels| :: labels[k] != "" && '.' !in labels[k]
    requires 0 < i < |Join(labels, '.')|
    ensures var s := Join(labels, '.'); !(s[i - 1] == '.' && s[i] == '.')
  {
    var first := labels[0];
    if |labels| > 1 && i > |first| {
      var rest := Join(labels[1..], '.');
      assert Join(labels, '.') == (first + ['.']) + rest;
      JoinEnds(labels[1..], '.');
      if i > |first| + 1 { NoDoubleDot(labels[1..], i - |first| - 1); }
    }
  }

  /** A valid hostname: such labels with dots between them, 253 characters at most. */
  lemma HostnameExactly(host: string)
    ensures IsValidDnsHostname(host)
            <==> |host| <= 253 && exists labels :: AreLabels(labels) && host == Join(labels, '.')
  {
    if IsValidDnsHostname(host) {
      var labels := Split(host, '.');
      JoinSplit(host, '.');
      forall i | 0 <= i < |labels| ensures IsLabel(labels[i]) { LabelExactly(labels[i]); }
      assert AreLabels(labels) && host == Join(labels, '.');
    }
    forall labels | |host| <= 253 && AreLabels(labels) && host == Join(labels, '.')
      ensures IsValidDnsHostname(host)
    {
      LabelsMakeHostname(labels);
    }
  }

  lemma LabelsMakeHostname(labels: seq<string>)
    requires AreLabels(labels) && |Join(labels, '.')| <= 253
    ensures IsValidDnsHostname(Join(labels, '.'))
  {
    var host := Join(labels, '.');
    forall i | 0 <= i < |labels| ensures '.' !in labels[i] && labels[i] != "" && IsValidDnsLabel(labels[i]) {
      LabelExactly(labels[i]);
    }
    hide IsLabel, IsValidDnsLabel;
    SplitJoin(labels, '.');
    JoinEnds(labels, '.');
    forall i | 0 < i < |host| ensures !(host[i - 1] == '.' && host[i] == '.') { NoDoubleDot(labels, i); }
  }

  // ------------------------------------------------------------ normal form

  predicate AllDots(s: string) { forall i | 0 <= i < |s| :: s[i] == '.' }

  lemma {:induction false} DotsTrimmed(t: string, dots: string)
    requires AllDots(dots) && (t != "" ==> t[|t| - 1] != '.')
    ensures TrimEndDots(t + dots) == t
  {
    if dots == "" {
      assert t + dots == t;
    } else {
      DotsTrimmed(t, dots[..|dots| - 1]);
      assert (t + dots)[..|t + dots| - 1] == t + dots[..|dots| - 1];
    }
  }

  lemma {:induction false} DotsCut(s: string) returns (dots: string)
    ensures s == TrimEndDots(s) + dots && AllDots(dots)
  {
    dots := "";
    if s != "" && s[|s| - 1] == '.' {
      dots := DotsCut(s[..|s| - 1]);
      dots := dots + ".";
    }
  }

  /** Normalising: white space off both ends, then all trailing dots, then lower case. */
  lemma NormalExactly(host: string, n: string)
    ensures NormalizeHostname(host) == n
            <==> exists t, dots ::
                   Trim(host) == t + dots && AllDots(dots) && (t != "" ==> t[|t| - 1] != '.') && n == Lower(t)
  {
    var u := Trim(host);
    var dots := DotsCut(u);
    TrimEndDotsStops(u);
    assert u == TrimEndDots(u) + dots;
    forall t, ds | u == t + ds && AllDots(ds) && (t != "" ==> t[|t| - 1] != '.') ensures TrimEndDots(u) == t {
      DotsTrimmed(t, ds);
    }
  }

  // ------------------------------------------------------------ the destination of a text

  lemma ComponentHasNoColon(s: string)
    requires Loose.ParseComponent(s).Some?
    ensures ':' !in s
  {
    assert DigitValue(':') == 16;
    if Loose.HasHexPrefix(s) {
      assert s == [s[0], s[1]] + s[2..];
      forall i | 0 <= i < |s| ensures s[i] != ':' {
        if i >= 2 { assert DigitValue(s[2..][i - 2]) < 16; }
      }
    }
  }

  lemma LooseHasNoColon(s: string)
    requires Loose.Parse(s).Some?
    ensures ':' !in s
  {
    var parts := Split(s, '.');
    JoinSplit(s, '.');
    forall i | 0 <= i < |parts| ensures ':' !in parts[i] { ComponentHasNoColon(parts[i]); }
    hide Split, Loose.Parse, Loose.ParseComponent;
    forall k | 0 <= k < |s| ensures s[k] != ':' { JoinChars(parts, '.', k); }
  }

  /** What a host text names: an IPv4 address in a loose spelling, an IPv6 address, or a hostname. */
  predicate Names(h: string, host: string, lit: Option<IpAddr>, v6: Ipv6Text) {
    match lit
    case Some(V4(a)) => Loose.Parse(h) == Some(a) && host == ShowIpv4(a)
    case Some(V6(b)) =>
      v6.parse(h) == Some(b)
      && host == if b / 0x1_0000_0000 == 0xffff then ShowIpv4(b % 0x1_0000_0000) else v6.show(b)
    case None =>
      Loose.Parse(h).None? && v6.parse(h).None? && host == NormalizeHostname(h) && IsValidDnsHostname(host)
  }

  ghost predicate Accepted(text: string, r: Remote, v6: Ipv6Text, h: string, p: string, digits: string) {
    && Splits(Trim(text), h, p) && h != "" && ReadsAs(p, digits, r.port) && r.port != 0
    && Names(h, r.host, r.ipLiteral, v6)
  }

  /** After the split: what the code makes of a host text and a port. */
  function ReadHost(h: string, port: u16, v6: Ipv6Text): Result<Remote, DestError> {
    if ParseIpAddr(h, v6).Some? then
      var ip := ParseIpAddr(h, v6).value;
      Ok(Remote(IpCanonical(ip, v6), port, Some(ip)))
    else if Loose.Parse(h).Some? then
      var ip := V4(Loose.Parse(h).value);
      Ok(Remote(IpCanonical(ip, v6), port, Some(ip)))
    else if IsValidDnsHostname(NormalizeHostname(h)) then Ok(Remote(NormalizeHostname(h), port, None))
    else Err(InvalidRemote)
  }

  /** The order in which the code tries its readers makes no difference. */
  lemma ReadHostNames(h: string, port: u16, r: Remote, v6: Ipv6Text)
    requires v6.Valid()
    ensures ReadHost(h, port, v6) == Ok(r) <==> r.port == port && Names(h, r.host, r.ipLiteral, v6)
  {
    hide ParseStrictIpv4, Loose.Parse, ShowIpv4, NormalizeHostname, IsValidDnsHostname;
    if ParseStrictIpv4(h).Some? { StrictIsLoose(h); }
    if Loose.Parse(h).Some? { LooseHasNoColon(h); }
  }

  lemma ParseIs(text: string, v6: Ipv6Text)
    ensures ParseRemote(text, v6)
            == match SplitHostPort(Trim(text))
               case None => Err(InvalidRemote)
               case Some((h, p)) =>
                 if h == "" || ParsePort(p).None? || ParsePort(p).value == 0 then Err(InvalidRemote)
                 else ReadHost(h, ParsePort(p).value, v6)
  {
  }

  /** The whole of `parse_remote`: which texts it accepts, and as what. */
  lemma ParseExactly(text: string, r: Remote, v6: Ipv6Text)
    requires v6.Valid()
    ensures ParseRemote(text, v6) == Ok(r) <==> exists h, p, digits :: Accepted(text, r, v6, h, p, digits)
  {
    ParseIs(text, v6);
    hide ParseRemote, SplitHostPort, ParsePort, ReadHost, Splits, Names, ReadsAs, Trim;
    if ParseRemote(text, v6) == Ok(r) {
      var (h, p) := SplitHostPort(Trim(text)).value;
      SplitExactly(Trim(text), h, p);
      ReadHostNames(h, ParsePort(p).value, r, v6);
      PortExactly(p, r.port);
      var digits :| ReadsAs(p, digits, r.port);
      assert Accepted(text, r, v6, h, p, digits);
    }
    forall h, p, digits | Accepted(text, r, v6, h, p, digits) ensures ParseRemote(text, v6) == Ok(r) {
      SplitExactly(Trim(text), h, p);
      PortExactly(p, r.port);
      ReadHostNames(h, r.port, r, v6);
    }
  }

  // ------------------------------------------------------------ every way to write a hostname

  /** The same text but for letter case. */
  predicate Recased(s: string, t: string) {
    && |s| == |t|
    && forall i | 0 <= i < |s| :: s[i] == t[i] || exists j | 0 <= j < 26 :: s[i] == Capitals[j] && t[i] == Smalls[j]
  }

  predicate IsSmall(t: string) {
    forall i | 0 <= i < |t| :: t[i] in Smalls || t[i] in Digits || t[i] == '-' || t[i] == '.'
  }

  lemma SmallIsLdh(t: string)
    ensures IsSmall(t) <==> forall i | 0 <= i < |t| :: IsLdhLower(t[i])
  {
    forall i | 0 <= i < |t|
      ensures IsLdhLower(t[i]) <==> t[i] in Smalls || t[i] in Digits || t[i] == '-' || t[i] == '.'
    {
      CapitalIn(t[i]);
      DigitIn(t[i]);
    }
  }

  lemma RecasedLower(s: string, t: string)
    requires Recased(s, t) && IsSmall(t)
    ensures Lower(s) == t
  {
    SmallIsLdh(t);
    forall i | 0 <= i < |s| ensures Lower(s)[i] == t[i] {
      LowerExactly(s, i);
      CapitalIn(t[i]);
    }
  }

  lemma LowerDigit(c: char)
    ensures DigitValue(LowerChar(c)) == DigitValue(c)
    ensures LowerChar(c) == '.' <==> c == '.'
    ensures LowerChar(c) == '0' <==> c == '0'
    ensures LowerChar(c) == 'x' <==> c == 'x' || c == 'X'
    ensures LowerChar(c) != 'X'
  {
  }

  lemma LowerSuffix(s: string, k: nat)
    requires k <= |s|
    ensures Lower(s)[k..] == Lower(s[k..])
  {
  }

  lemma {:induction false} LowerPositional(s: string, radix: nat)
    ensures Positional(Lower(s), radix) == Positional(s, radix)
    ensures AllDigits(Lower(s), radix) == AllDigits(s, radix)
  {
    forall i | 0 <= i < |s| ensures DigitValue(Lower(s)[i]) == DigitValue(s[i]) { LowerDigit(s[i]); }
    if s != "" {
      LowerSuffix(s, 1);
      LowerPositional(s[1..], radix);
    }
  }

  lemma LowerComponent(s: string)
    ensures Loose.ParseComponent(Lower(s)) == Loose.ParseComponent(s)
  {
    if s != "" {
      LowerDigit(s[0]);
      if |s| >= 2 {
        LowerDigit(s[1]);
        LowerSuffix(s, 2);
        LowerPositional(s[2..], 16);
      }
      LowerPositional(s, 8);
      LowerPositional(s, 10);
    }
    hide Positional, AllDigits, DigitValue, LowerChar;
  }

  function LowerAll(parts: seq<string>): (r: seq<string>)
    ensures |r| == |parts| && forall i | 0 <= i < |parts| :: r[i] == Lower(parts[i])
  {
    seq(|parts|, i requires 0 <= i < |parts| => Lower(parts[i]))
  }

  lemma {:induction false} LowerSplit(s: string)
    ensures Split(Lower(s), '.') == LowerAll(Split(s, '.'))
  {
    if s != "" {
      LowerDigit(s[0]);
      LowerSuffix(s, 1);
      LowerSplit(s[1..]);
      var rest := Split(s[1..], '.');
      assert Lower([s[0]] + rest[0]) == [LowerChar(s[0])] + Lower(rest[0]);
      assert Lower("") == "";
    }
  }

  lemma {:induction false} LowerNumbers(parts: seq<string>)
    ensures Loose.Numbers(LowerAll(parts)) == Loose.Numbers(parts)
  {
    if parts != [] {
      var n := |parts| - 1;
      LowerNumbers(parts[..n]);
      assert LowerAll(parts)[..n] == LowerAll(parts[..n]);
      LowerComponent(parts[n]);
      hide Loose.ParseComponent;
    }
  }

  /** Letter case has no bearing on loose addresses. */
  lemma LooseIgnoresCase(s: string)
    ensures Loose.Parse(Lower(s)) == Loose.Parse(s)
  {
    LowerSplit(s);
    LowerNumbers(Split(s, '.'));
    hide Split, Loose.Numbers;
  }

  /** A hostname is accepted in any letter case and with any number of trailing dots, and the host it leads
      to is that name in lower case. */
  lemma AnyCaseAccepted(host: string, text: string, dots: string, port: u16, v6: Ipv6Text)
    requires v6.Valid() && port != 0 && IsValidDnsHostname(host) && IsSmall(host) && Loose.Parse(host).None?
    requires Recased(text, host) && AllDots(dots)
    ensures ParseRemote(text + dots + ":" + Decimal(port), v6) == Ok(Remote(host, port, None))
  {
    var h := text + dots;
    RecasedLower(text, host);
    HostReadsBack(host, text, dots);
    LooseDotted(text, dots);
    ParseDestKey(h, port, v6);
    if ParseStrictIpv4(h).Some? { StrictIsLoose(h); }
  }

  lemma PlainChar(c: char)
    requires IsAlphanumeric(LowerChar(c)) || LowerChar(c) == '-' || LowerChar(c) == '.'
    ensures c != ':' && c != '[' && !IsSpace(c) && (c == '.' <==> LowerChar(c) == '.')
  {
  }

  lemma HostReadsBack(host: string, text: string, dots: string)
    requires IsValidDnsHostname(host) && Lower(text) == host && AllDots(dots)
    ensures var h := text + dots;
            && h != "" && ':' !in h && h[0] != '[' && !IsSpace(h[0])
            && NormalizeHostname(h) == host
  {
    var h, n := text + dots, |text| - 1;
    ValidHostChars(host);
    assert host == Lower(text);
    forall i | 0 <= i < |text| ensures text[i] != ':' && text[i] != '[' && !IsSpace(text[i]) {
      assert LowerChar(text[i]) == host[i];
      PlainChar(text[i]);
    }
    assert LowerChar(text[n]) == host[n];
    PlainChar(text[n]);
    assert text[n] != '.';
    assert h[0] == text[0] && (dots != "" ==> h[|h| - 1] == '.') && (dots == "" ==> h[|h| - 1] == text[n]);
    TrimmedIsFixed(h);
    DotsTrimmed(text, dots);
    hide IsValidDnsHostname, LowerChar, Lower, IsAlphanumeric;
  }

  lemma LooseDotted(text: string, dots: string)
    requires Loose.Parse(Lower(text)).None? && AllDots(dots)
    ensures Loose.Parse(text + dots).None?
  {
    LooseIgnoresCase(text);
    if dots == "" {
      assert text + dots == text;
    } else {
      var n := |dots| - 1;
      assert text + dots == (text + dots[..n]) + ".";
      TrailingDotHides(text + dots[..n]);
    }
  }

  /** An IPv6 address in brackets is accepted as that address, if its text is read back at all. */
  lemma BracketedAccepted(b: u128, port: u16, v6: Ipv6Text)
    requires v6.Valid() && port != 0 && v6.parse(v6.show(b)) == Some(b)
    ensures var host := if b / 0x1_0000_0000 == 0xffff then ShowIpv4(b % 0x1_0000_0000) else v6.show(b);
            ParseRemote("[" + v6.show(b) + "]:" + Decimal(port), v6) == Ok(Remote(host, port, Some(V6(b))))
  {
    var h, p := v6.show(b), Decimal(port);
    var raw := "[" + h + "]:" + p;
    assert ':' in h && ']' !in h;
    BracketTrimmed(h, port);
    assert Splits(raw, h, p);
    DecimalReads(port);
    if Loose.Parse(h).Some? { LooseHasNoColon(h); }
    var host := if b / 0x1_0000_0000 == 0xffff then ShowIpv4(b % 0x1_0000_0000) else h;
    assert Accepted(raw, Remote(host, port, Some(V6(b))), v6, h, p, p);
    ParseExactly(raw, Remote(host, port, Some(V6(b))), v6);
  }

  lemma BracketTrimmed(h: string, port: u16)
    ensures var raw := "[" + h + "]:" + Decimal(port); Trim(raw) == raw
  {
    var raw := "[" + h + "]:" + Decimal(port);
    assert IsDigit(raw[|raw| - 1]);
    TrimmedIsFixed(raw);
  }

  lemma DecimalReads(port: u16)
    ensures ReadsAs(Decimal(port), Decimal(port), port)
  {
    DecimalValue(port);
    forall i | 0 <= i < |Decimal(port)| ensures Decimal(port)[i] in Digits { DigitIn(Decimal(port)[i]); }
  }
}
