/** UTF-8 (RFC 3629, section 3): the encoding of each character, and the decoder of the server names
    (src/proto.rs) as its exact inverse. */
module Utf8 {
  import opened Addresses
  import opened Bits
  import opened Tls
  import opened Wrappers

  function EncodeChar(c: char): bytes {
    var n := c as int;
    if n < 0x80 then [n]
    else if n < 0x800 then [0xc0 + n / 0x40, 0x80 + n % 0x40]
    else if n < 0x1_0000 then [0xe0 + n / 0x1000, 0x80 + n / 0x40 % 0x40, 0x80 + n % 0x40]
    else [0xf0 + n / 0x4_0000, 0x80 + n / 0x1000 % 0x40, 0x80 + n / 0x40 % 0x40, 0x80 + n % 0x40]
  }

  function Encode(s: string): bytes { if s == "" then [] else EncodeChar(s[0]) + Encode(s[1..]) }

  lemma SixBits(n: nat)
    ensures n / 0x1000 == n / 0x40 / 0x40 && n / 0x4_0000 == n / 0x40 / 0x40 / 0x40
    ensures n == n / 0x40 * 0x40 + n % 0x40
  {
  }

  lemma CharRead(c: char, rest: bytes)
    ensures var b := EncodeChar(c) + rest;
            SequenceLength(b) == |EncodeChar(c)| > 0 && CodePoint(b) == c && b[|EncodeChar(c)|..] == rest
  {
    var n, e := c as int, EncodeChar(c);
    var b := e + rest;
    assert b[|e|..] == rest && forall i | 0 <= i < |e| :: b[i] == e[i];
    SixBits(n);
    SixBits(n / 0x40);
    SixBits(n / 0x1000);
  }

  lemma TwoAreChar(b: bytes)
    requires b != [] && SequenceLength(b) == 2
    ensures b[..2] == EncodeChar(CodePoint(b))
  {
    var hi: nat, lo: nat := b[0] - 0xc0, b[1] - 0x80;
    assert CodePoint(b) as int == hi * 0x40 + lo;
    ModUnique(hi * 0x40 + lo, hi, lo, 0x40);
  }

  lemma ThreeAreChar(b: bytes)
    requires b != [] && SequenceLength(b) == 3
    ensures b[..3] == EncodeChar(CodePoint(b))
  {
    var hi: nat, mid: nat, lo: nat := b[0] - 0xe0, b[1] - 0x80, b[2] - 0x80;
    assert CodePoint(b) as int == hi * 0x1000 + mid * 0x40 + lo >= 0x800;
    ThreeDigits(hi, mid, lo);
    hide SequenceLength, CodePoint;
  }

  lemma FourAreChar(b: bytes)
    requires b != [] && SequenceLength(b) == 4
    ensures b[..4] == EncodeChar(CodePoint(b))
  {
    var hi: nat, mid: nat, low: nat, lo: nat := b[0] - 0xf0, b[1] - 0x80, b[2] - 0x80, b[3] - 0x80;
    var q := hi * 0x1000 + mid * 0x40 + low;
    assert CodePoint(b) as int == q * 0x40 + lo >= 0x1_0000;
    ThreeDigits(hi, mid, low);
    ModUnique(q * 0x40 + lo, q, lo, 0x40);
    SixBits(q * 0x40 + lo);
    SixBits(q);
    hide SequenceLength, CodePoint;
  }

  /** A well-formed sequence is the encoding of its character. */
  lemma SequenceIsChar(b: bytes)
    requires b != [] && SequenceLength(b) > 0
    ensures b[..SequenceLength(b)] == EncodeChar(CodePoint(b))
  {
    assert SequenceLength(b) == 1 ==> b[..1] == EncodeChar(CodePoint(b));
    assert 1 <= SequenceLength(b) <= 4;
    hide EncodeChar, CodePoint, SequenceLength;
    if SequenceLength(b) == 2 {
      TwoAreChar(b);
    } else if SequenceLength(b) == 3 {
      ThreeAreChar(b);
    } else if SequenceLength(b) == 4 {
      FourAreChar(b);
    }
  }

  lemma ThreeDigits(hi: nat, mid: nat, lo: nat)
    requires mid < 0x40 && lo < 0x40
    ensures var n := hi * 0x1000 + mid * 0x40 + lo;
            n / 0x1000 == hi && n / 0x40 % 0x40 == mid && n % 0x40 == lo && n / 0x40 == hi * 0x40 + mid
  {
    var n, q := hi * 0x1000 + mid * 0x40 + lo, hi * 0x40 + mid;
    ModUnique(n, q, lo, 0x40);
    ModUnique(q, hi, mid, 0x40);
    SixBits(n);
  }

  lemma DecodeStep(b: bytes)
    requires b != [] && SequenceLength(b) > 0
    ensures var rest := DecodeUtf8(b[SequenceLength(b)..]);
            DecodeUtf8(b) == if rest.None? then None else Some([CodePoint(b)] + rest.value)
  {
  }

  lemma {:induction false} EncodingRead(s: string)
    ensures DecodeUtf8(Encode(s)) == Some(s)
  {
    if s != "" {
      var c, rest := s[0], s[1..];
      assert Encode(s) == EncodeChar(c) + Encode(rest);
      hide DecodeUtf8, CodePoint, SequenceLength, EncodeChar, Encode;
      CharRead(c, Encode(rest));
      EncodingRead(rest);
      DecodeStep(EncodeChar(c) + Encode(rest));
      assert s == [c] + rest;
    }
  }

  lemma EncodeCons(c: char, s: string)
    ensures Encode([c] + s) == EncodeChar(c) + Encode(s)
  {
    assert ([c] + s)[1..] == s;
  }

  lemma CharAndRest(b: bytes, n: nat, c: char, rest: string)
    requires n <= |b| && b[..n] == EncodeChar(c) && b[n..] == Encode(rest)
    ensures Encode([c] + rest) == b
  {
    hide EncodeChar, Encode;
    EncodeCons(c, rest);
    assert b == b[..n] + b[n..];
  }

  lemma DecodedParts(b: bytes, s: string)
    requires b != [] && DecodeUtf8(b) == Some(s)
    ensures SequenceLength(b) > 0 && s != "" && s[0] == CodePoint(b)
    ensures DecodeUtf8(b[SequenceLength(b)..]) == Some(s[1..])
  {
    hide SequenceLength, CodePoint;
    var n := SequenceLength(b);
    assert n > 0;
    DecodeStep(b);
    var rest := DecodeUtf8(b[n..]).value;
    assert s == [CodePoint(b)] + rest && s[1..] == rest;
  }

  lemma {:induction false} ReadIsEncoding(b: bytes, s: string)
    requires DecodeUtf8(b) == Some(s)
    ensures Encode(s) == b
    decreases |b|
  {
    if b != [] {
      var n := SequenceLength(b);
      hide DecodeUtf8, CodePoint, EncodeChar, Encode, SequenceLength;
      DecodedParts(b, s);
      SequenceIsChar(b);
      ReadIsEncoding(b[n..], s[1..]);
      CharAndRest(b, n, s[0], s[1..]);
      assert s == [s[0]] + s[1..];
    }
  }

  /** Bytes decode to a text exactly when they are its encoding. */
  lemma DecodeExactly(b: bytes, s: string)
    ensures DecodeUtf8(b) == Some(s) <==> b == Encode(s)
  {
    EncodingRead(s);
    if DecodeUtf8(b) == Some(s) { ReadIsEncoding(b, s); }
  }

  lemma EncodeInjective(s: string, t: string)
    ensures Encode(s) == Encode(t) ==> s == t
  {
    DecodeExactly(Encode(s), s);
    DecodeExactly(Encode(s), t);
  }

  /** A host name is the UTF-8 encoding of a text that is not empty; anything else is malformed. */
  lemma NameExactly(name: bytes)
    ensures forall s :: NameResult(name) == Ok(Some(s)) <==> s != "" && name == Encode(s)
    ensures NameResult(name) == Err(Malformed) <==> forall s :: name == Encode(s) ==> s == ""
  {
    forall s ensures DecodeUtf8(name) == Some(s) <==> name == Encode(s) { DecodeExactly(name, s); }
    hide DecodeUtf8, Encode;
  }
}
