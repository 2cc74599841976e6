/** The string operations the parsers use: splitting, trimming, letter case and digits. */
module Text {
  import opened Wrappers

  // ------------------------------------------------------------ split and join

  function Split(s: string, sep: char): (parts: seq<string>)
    ensures |parts| > 0
    ensures forall i | 0 <= i < |parts| :: sep !in parts[i]
  {
    if s == "" then [""]
    else
      var rest := Split(s[1..], sep);
      if s[0] == sep then [""] + rest else [[s[0]] + rest[0]] + rest[1..]
  }

  function Join(parts: seq<string>, sep: char): string {
    if parts == [] then "" else if |parts| == 1 then parts[0] else parts[0] + [sep] + Join(parts[1..], sep)
  }

  lemma {:induction false} JoinSplit(s: string, sep: char)
    ensures Join(Split(s, sep), sep) == s
  {
    if s != "" {
      JoinSplit(s[1..], sep);
      var rest := Split(s[1..], sep);
      if s[0] == sep {
        assert ([""] + rest)[1..] == rest;
      } else if |rest| > 1 {
        assert ([[s[0]] + rest[0]] + rest[1..])[1..] == rest[1..];
      }
    }
  }

  lemma {:induction false} SplitPrefix(p: string, s: string, sep: char)
    requires sep !in p
    ensures Split(p + s, sep) == [p + Split(s, sep)[0]] + Split(s, sep)[1..]
  {
    if p == "" {
      var parts := Split(s, sep);
      assert p + s == s && p + parts[0] == parts[0];
      assert parts == [parts[0]] + parts[1..];
    } else {
      SplitPrefix(p[1..], s, sep);
      assert (p + s)[1..] == p[1..] + s;
      assert [p[0]] + (p[1..] + Split(s, sep)[0]) == p + Split(s, sep)[0];
    }
  }

  lemma {:induction false} SplitJoin(parts: seq<string>, sep: char)
    requires |parts| > 0 && forall i | 0 <= i < |parts| :: sep !in parts[i]
    ensures Split(Join(parts, sep), sep) == parts
  {
    if |parts| == 1 {
      SplitPrefix(parts[0], "", sep);
      assert parts[0] + "" == parts[0];
    } else {
      SplitJoin(parts[1..], sep);
      var tail := [sep] + Join(parts[1..], sep);
      assert tail[1..] == Join(parts[1..], sep);
      assert Join(parts, sep) == parts[0] + tail;
      SplitPrefix(parts[0], tail, sep);
      assert parts[0] + "" == parts[0];
    }
  }

  // ------------------------------------------------------------ characters

  /** Unicode White_Space, which `str::trim` removes. */
  predicate IsSpace(c: char) {
    || '\t' <= c <= '\r' || c == ' ' || c == '\U{85}' || c == '\U{A0}' || c == '\U{1680}'
    || '\U{2000}' <= c <= '\U{200A}' || c == '\U{2028}' || c == '\U{2029}' || c == '\U{202F}'
    || c == '\U{205F}' || c == '\U{3000}'
  }

  function TrimStart(s: string): string {
    if s != "" && IsSpace(s[0]) then TrimStart(s[1..]) else s
  }

  function TrimEnd(s: string): string {
    if s != "" && IsSpace(s[|s| - 1]) then TrimEnd(s[..|s| - 1]) else s
  }

  function Trim(s: string): string { TrimEnd(TrimStart(s)) }

  predicate IsTrimmed(s: string) { s != "" ==> !IsSpace(s[0]) && !IsSpace(s[|s| - 1]) }

  lemma {:induction false} TrimEndKeepsStart(s: string)
    ensures TrimEnd(s) != "" ==> s != "" && TrimEnd(s)[0] == s[0] && !IsSpace(TrimEnd(s)[|TrimEnd(s)| - 1])
  {
    if s != "" && IsSpace(s[|s| - 1]) { TrimEndKeepsStart(s[..|s| - 1]); }
  }

  lemma {:induction false} TrimStartStops(s: string)
    ensures TrimStart(s) != "" ==> !IsSpace(TrimStart(s)[0])
  {
    if s != "" && IsSpace(s[0]) { TrimStartStops(s[1..]); }
  }

  lemma TrimTrims(s: string)
    ensures IsTrimmed(Trim(s))
  {
    TrimStartStops(s);
    TrimEndKeepsStart(TrimStart(s));
  }

  function LowerChar(c: char): char {
    if 'A' <= c <= 'Z' then (c as int + 32) as char else c
  }

  function Lower(s: string): (r: string)
    ensures |r| == |s| && forall i | 0 <= i < |s| :: r[i] == LowerChar(s[i])
  {
    seq(|s|, i requires 0 <= i < |s| => LowerChar(s[i]))
  }

  predicate IsDigit(c: char) { '0' <= c <= '9' }

  predicate IsAlphanumeric(c: char) { IsDigit(c) || 'a' <= c <= 'z' || 'A' <= c <= 'Z' }

  // ------------------------------------------------------------ numerals

  /** The value of a hexadecimal digit; 16 for any other character. */
  function DigitValue(c: char): nat {
    if IsDigit(c) then c as nat - '0' as nat
    else if 'a' <= c <= 'f' then c as nat - 'a' as nat + 10
    else if 'A' <= c <= 'F' then c as nat - 'A' as nat + 10
    else 16
  }

  predicate AllDigits(s: string, radix: nat) { forall i | 0 <= i < |s| :: DigitValue(s[i]) < radix }

  function Pow(b: nat, e: nat): nat { if e == 0 then 1 else b * Pow(b, e - 1) }

  /** The positional value of a numeral. */
  function Positional(s: string, radix: nat): nat {
    if s == "" then 0 else DigitValue(s[0]) * Pow(radix, |s| - 1) + Positional(s[1..], radix)
  }

  /** Left to right, failing as soon as the value passes `max`. */
  function FromDigits(s: string, radix: nat, max: nat): Option<nat> {
    if s == "" then Some(0)
    else
      match FromDigits(s[..|s| - 1], radix, max)
      case None => None
      case Some(v) =>
        var w := v * radix + DigitValue(s[|s| - 1]);
        if w > max then None else Some(w)
  }

  lemma {:induction false} PositionalSnoc(s: string, radix: nat)
    requires s != ""
    ensures Positional(s, radix) == Positional(s[..|s| - 1], radix) * radix + DigitValue(s[|s| - 1])
  {
    var n := |s| - 1;
    if n > 0 {
      PositionalSnoc(s[1..], radix);
      assert s[1..][..n - 1] == s[..n][1..];
      ShiftUp(DigitValue(s[0]), Pow(radix, n - 1), Positional(s[..n][1..], radix), radix);
    } else {
      assert s[..n] == s[1..] == "";
    }
  }

  lemma ShiftUp(d: nat, p: nat, m: nat, radix: nat)
    ensures d * (radix * p) + m * radix == (d * p + m) * radix
  {
  }

  lemma {:induction false} FromDigitsIsPositional(s: string, radix: nat, max: nat)
    requires radix > 0
    ensures FromDigits(s, radix, max)
            == if Positional(s, radix) <= max then Some(Positional(s, radix)) else None
  {
    if s != "" {
      FromDigitsIsPositional(s[..|s| - 1], radix, max);
      PositionalSnoc(s, radix);
      Grows(Positional(s[..|s| - 1], radix), radix);
    }
  }

  lemma Grows(v: nat, radix: nat)
    requires radix > 0
    ensures v <= v * radix
  {
  }

  /** The decimal numeral without leading zeros. */
  function Decimal(n: nat): (s: string)
    ensures s != "" && forall i | 0 <= i < |s| :: IsDigit(s[i])
  {
    var d := ('0' as int + n % 10) as char;
    if n < 10 then [d] else Decimal(n / 10) + [d]
  }

  lemma {:induction false} DecimalValue(n: nat)
    ensures Positional(Decimal(n), 10) == n
    ensures Decimal(n)[0] == '0' ==> Decimal(n) == "0"
  {
    PositionalSnoc(Decimal(n), 10);
    if n < 10 {
      assert Decimal(n)[..0] == "";
    } else {
      DecimalValue(n / 10);
      assert Decimal(n)[..|Decimal(n)| - 1] == Decimal(n / 10);
    }
  }

  lemma DecimalInjective(a: nat, b: nat)
    ensures Decimal(a) == Decimal(b) ==> a == b
  {
    DecimalValue(a);
    DecimalValue(b);
  }

  // ------------------------------------------------------------ the tables behind the characters

  const Capitals := "ABCDEFGHIJKLMNOPQRSTUVWXYZ"
  const Smalls := "abcdefghijklmnopqrstuvwxyz"
  const Digits := "0123456789"
  const HexSmalls := "0123456789abcdef"
  const HexCapitals := "0123456789ABCDEF"
  const Spaces := "\t\n\U{0B}\U{0C}\r \U{85}\U{A0}\U{1680}\U{2000}\U{2001}\U{2002}\U{2003}\U{2004}\U{2005}"
                  + "\U{2006}\U{2007}\U{2008}\U{2009}\U{200A}\U{2028}\U{2029}\U{202F}\U{205F}\U{3000}"

  lemma CapitalAt(j: nat)
    requires j < 26
    ensures |Capitals| == |Smalls| == 26
    ensures Capitals[j] as int == 'A' as int + j && Smalls[j] as int == 'a' as int + j
  {
    assert j == 0 || j == 1 || j == 2 || j == 3 || j == 4 || j == 5 || j == 6 || j == 7 || j == 8 || j == 9 || j == 10
           || j == 11 || j == 12 || j == 13 || j == 14 || j == 15 || j == 16 || j == 17 || j == 18 || j == 19
           || j == 20 || j == 21 || j == 22 || j == 23 || j == 24 || j == 25;
  }

  lemma InTable(table: string, first: char, c: char)
    requires forall j | 0 <= j < |table| :: table[j] as int == first as int + j
    ensures c in table <==> first as int <= c as int < first as int + |table|
  {
    if first as int <= c as int < first as int + |table| { assert table[c as int - first as int] == c; }
  }

  lemma CapitalIn(c: char)
    ensures 'A' <= c <= 'Z' <==> c in Capitals
    ensures 'a' <= c <= 'z' <==> c in Smalls
  {
    hide Capitals, Smalls;
    CapitalAt(0);
    forall j | 0 <= j < 26
      ensures Capitals[j] as int == 'A' as int + j && Smalls[j] as int == 'a' as int + j
    {
      CapitalAt(j);
    }
    InTable(Capitals, 'A', c);
    InTable(Smalls, 'a', c);
  }

  /** Lower case: a capital letter becomes the small one at its place in the alphabet, and no other
      character changes. */
  lemma LowerExactly(s: string, i: nat)
    requires i < |s|
    ensures |Lower(s)| == |s|
    ensures forall j | 0 <= j < 26 && s[i] == Capitals[j] :: Lower(s)[i] == Smalls[j]
    ensures s[i] !in Capitals ==> Lower(s)[i] == s[i]
  {
    forall j | 0 <= j < 26 && s[i] == Capitals[j] ensures Lower(s)[i] == Smalls[j] { CapitalAt(j); }
    CapitalIn(s[i]);
  }

  lemma DigitAt(j: nat)
    requires j < 16
    ensures |HexSmalls| == |HexCapitals| == 16 && DigitValue(HexSmalls[j]) == j && DigitValue(HexCapitals[j]) == j
  {
    assert j == 0 || j == 1 || j == 2 || j == 3 || j == 4 || j == 5 || j == 6 || j == 7 || j == 8 || j == 9 || j == 10
           || j == 11 || j == 12 || j == 13 || j == 14 || j == 15;
  }

  /** A digit is worth its place in the table; what is not in it is no digit of any radix in use. */
  lemma DigitExactly(c: char)
    ensures forall j | 0 <= j < 16 && (c == HexSmalls[j] || c == HexCapitals[j]) :: DigitValue(c) == j
    ensures c !in HexSmalls && c !in HexCapitals ==> DigitValue(c) >= 16
    ensures IsDigit(c) <==> c in Digits
    ensures IsAlphanumeric(c) <==> c in Digits || c in Smalls || c in Capitals
  {
    forall j | 0 <= j < 16 && (c == HexSmalls[j] || c == HexCapitals[j]) ensures DigitValue(c) == j { DigitAt(j); }
    CapitalIn(c);
    if DigitValue(c) < 16 { PlaceOf(c); }
    DigitIn(c);
  }

  lemma PlaceOf(c: char)
    requires DigitValue(c) < 16
    ensures c in HexSmalls || c in HexCapitals
  {
    DigitAt(DigitValue(c));
    var j := DigitValue(c);
    assert j == 0 || j == 1 || j == 2 || j == 3 || j == 4 || j == 5 || j == 6 || j == 7 || j == 8 || j == 9 || j == 10
           || j == 11 || j == 12 || j == 13 || j == 14 || j == 15;
  }

  lemma DigitIn(c: char)
    ensures IsDigit(c) <==> c in Digits
  {
    assert c in Digits <==> c == '0' || c == '1' || c == '2' || c == '3' || c == '4' || c == '5' || c == '6' || c == '7'
                            || c == '8' || c == '9';
  }

  lemma SpaceExactly(c: char)
    ensures IsSpace(c) <==> c in Spaces
  {
    var a := "\t\n\U{0B}\U{0C}\r \U{85}\U{A0}\U{1680}\U{2000}\U{2001}\U{2002}\U{2003}\U{2004}\U{2005}";
    var b := "\U{2006}\U{2007}\U{2008}\U{2009}\U{200A}\U{2028}\U{2029}\U{202F}\U{205F}\U{3000}";
    assert c in Spaces <==> c in a || c in b;
    assert c in a <==> c == '\t' || c == '\n' || c == '\U{0B}' || c == '\U{0C}' || c == '\r' || c == ' '
                       || c == '\U{85}' || c == '\U{A0}' || c == '\U{1680}' || c == '\U{2000}' || c == '\U{2001}'
                       || c == '\U{2002}' || c == '\U{2003}' || c == '\U{2004}' || c == '\U{2005}';
    assert c in b <==> c == '\U{2006}' || c == '\U{2007}' || c == '\U{2008}' || c == '\U{2009}' || c == '\U{200A}'
                       || c == '\U{2028}' || c == '\U{2029}' || c == '\U{202F}' || c == '\U{205F}' || c == '\U{3000}';
  }

  predicate AllSpace(s: string) { forall i | 0 <= i < |s| :: s[i] in Spaces }

  lemma {:induction false} TrimStartParts(a: string, s: string)
    requires AllSpace(a) && (s != "" ==> !IsSpace(s[0]))
    ensures TrimStart(a + s) == s
  {
    hide IsSpace, Spaces;
    if a == "" {
      assert a + s == s;
    } else {
      SpaceExactly(a[0]);
      TrimStartParts(a[1..], s);
      assert (a + s)[1..] == a[1..] + s;
    }
  }

  lemma {:induction false} TrimEndParts(s: string, b: string)
    requires AllSpace(b) && (s != "" ==> !IsSpace(s[|s| - 1]))
    ensures TrimEnd(s + b) == s
  {
    hide IsSpace, Spaces;
    if b == "" {
      assert s + b == s;
    } else {
      var n := |b| - 1;
      SpaceExactly(b[n]);
      TrimEndParts(s, b[..n]);
      assert (s + b)[..|s + b| - 1] == s + b[..n] && (s + b)[|s + b| - 1] == b[n];
    }
  }

  lemma {:induction false} TrimStartCut(s: string) returns (a: string)
    ensures s == a + TrimStart(s) && AllSpace(a)
  {
    hide IsSpace, Spaces;
    a := "";
    if s != "" && IsSpace(s[0]) {
      SpaceExactly(s[0]);
      a := TrimStartCut(s[1..]);
      a := [s[0]] + a;
    }
  }

  lemma {:induction false} TrimEndCut(s: string) returns (b: string)
    ensures s == TrimEnd(s) + b && AllSpace(b)
  {
    hide IsSpace, Spaces;
    b := "";
    if s != "" && IsSpace(s[|s| - 1]) {
      SpaceExactly(s[|s| - 1]);
      b := TrimEndCut(s[..|s| - 1]);
      b := b + [s[|s| - 1]];
    }
  }

  predicate Surrounds(a: string, t: string, b: string) {
    AllSpace(a) && AllSpace(b) && (t != "" ==> t[0] !in Spaces && t[|t| - 1] !in Spaces)
  }

  /** Trimming takes white space off both ends, all of it and nothing else. */
  lemma TrimExactly(s: string, t: string)
    ensures Trim(s) == t <==> exists a, b :: s == a + t + b && Surrounds(a, t, b)
  {
    if Trim(s) == t {
      var a := TrimStartCut(s);
      var b := TrimEndCut(TrimStart(s));
      TrimTrims(s);
      if t != "" {
        SpaceExactly(t[0]);
        SpaceExactly(t[|t| - 1]);
      }
      Reassociate(a, t, b);
      assert s == a + t + b && Surrounds(a, t, b);
    }
    forall a, b | s == a + t + b && Surrounds(a, t, b) ensures Trim(s) == t { TrimParts(a, t, b); }
  }

  lemma TrimParts(a: string, t: string, b: string)
    requires Surrounds(a, t, b)
    ensures Trim(a + t + b) == t
  {
    if t == "" {
      forall i | 0 <= i < |a + b| ensures (a + b)[i] in Spaces {}
      assert a + t + b == (a + b) + "";
      TrimStartParts(a + b, "");
    } else {
      SpaceExactly(t[0]);
      SpaceExactly(t[|t| - 1]);
      Reassociate(a, t, b);
      TrimStartParts(a, t + b);
      TrimEndParts(t, b);
    }
  }
}
