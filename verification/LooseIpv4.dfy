/** The loose IPv4 spellings `getaddrinfo` accepts (src/dest.rs): one to four dotted parts, each
    decimal, `0`-octal or `0x`-hexadecimal. */
module LooseIpv4 {
  import opened Addresses
  import opened Bits
  import opened Text
  import opened Wrappers

  const MaxU32: nat := 0xffff_ffff

  // ------------------------------------------------------------ one part

  predicate HasHexPrefix(s: string) { |s| >= 2 && s[0] == '0' && (s[1] == 'x' || s[1] == 'X') }

  function ParseComponent(s: string): Option<u32> {
    if s == "" then None
    else if HasHexPrefix(s) then
      if s[2..] == "" || !AllDigits(s[2..], 16) then None else FromDigitsU32(s[2..], 16)
    else if |s| > 1 && s[0] == '0' then
      if !AllDigits(s, 8) then None else FromDigitsU32(s, 8)
    else if !AllDigits(s, 10) then None
    else FromDigitsU32(s, 10)
  }

  function FromDigitsU32(s: string, radix: nat): (r: Option<u32>)
    requires radix > 0
    ensures r == if Positional(s, radix) <= MaxU32 then Some(Positional(s, radix)) else None
  {
    FromDigitsIsPositional(s, radix, MaxU32);
    FromDigits(s, radix, MaxU32)
  }

  /** The grammar of a part: a numeral in one of three notations. */
  datatype Spelling = Dec(digits: string) | Oct(digits: string) | Hex(x: char, digits: string) {
    predicate Valid() {
      && digits != ""
      && match this
         case Dec(ds) => AllDigits(ds, 10) && (ds[0] == '0' ==> |ds| == 1)
         case Oct(ds) => AllDigits(ds, 8)
         case Hex(c, ds) => (c == 'x' || c == 'X') && AllDigits(ds, 16)
    }

    function Text(): string {
      match this
      case Dec(ds) => ds
      case Oct(ds) => ['0'] + ds
      case Hex(c, ds) => ['0', c] + ds
    }

    function Value(): nat {
      Positional(digits, match this case Dec(_) => 10 case Oct(_) => 8 case Hex(_, _) => 16)
    }
  }

  lemma SpellingComponent(sp: Spelling)
    requires sp.Valid()
    ensures '.' !in sp.Text()
    ensures ParseComponent(sp.Text()) == if sp.Value() <= MaxU32 then Some(sp.Value()) else None
  {
    var s, ds := sp.Text(), sp.digits;
    assert DigitValue('.') == 16 && DigitValue('x') == 16 && DigitValue('X') == 16;
    match sp {
      case Dec(_) =>
      case Oct(_) =>
        assert s[1..] == ds;
        forall i | 0 <= i < |s| ensures DigitValue(s[i]) < 8 {
          if i > 0 { assert s[i] == ds[i - 1]; }
        }
        assert s[1] == ds[0];
      case Hex(_, _) =>
        assert s[2..] == ds;
    }
  }

  /** Every part that parses is some spelling of its value. */
  function SpellingOf(s: string): (sp: Spelling)
    requires ParseComponent(s).Some?
    ensures sp.Valid() && sp.Text() == s && ParseComponent(s) == Some(sp.Value())
  {
    if HasHexPrefix(s) then Hex(s[1], s[2..])
    else if |s| > 1 && s[0] == '0' then
      assert forall i | 0 <= i < |s[1..]| :: s[1..][i] == s[i + 1];
      Oct(s[1..])
    else Dec(s)
  }

  // ------------------------------------------------------------ the whole address

  /** Every part but the last is one byte; the last fills the bytes that remain. */
  predicate InRange(nums: seq<nat>)
    requires 1 <= |nums| <= 4
  {
    match |nums|
    case 1 => nums[0] <= 0xffff_ffff
    case 2 => nums[0] <= 0xff && nums[1] <= 0xff_ffff
    case 3 => nums[0] <= 0xff && nums[1] <= 0xff && nums[2] <= 0xffff
    case _ => nums[0] <= 0xff && nums[1] <= 0xff && nums[2] <= 0xff && nums[3] <= 0xff
  }

  /** The mixed-radix value of the parts. */
  function MixedRadix(nums: seq<nat>): (a: nat)
    requires 1 <= |nums| <= 4
    ensures InRange(nums) ==> a <= MaxU32
  {
    match |nums|
    case 1 => nums[0]
    case 2 => nums[0] * 0x100_0000 + nums[1]
    case 3 => nums[0] * 0x100_0000 + nums[1] * 0x1_0000 + nums[2]
    case _ => nums[0] * 0x100_0000 + nums[1] * 0x1_0000 + nums[2] * 0x100 + nums[3]
  }

  /** The number in each part, if every part holds one. */
  function Numbers(parts: seq<string>): (r: Option<seq<u32>>)
    ensures r.Some? ==> |r.value| == |parts|
                        && forall i | 0 <= i < |parts| :: ParseComponent(parts[i]) == Some(r.value[i])
    ensures r.None? ==> exists i | 0 <= i < |parts| :: ParseComponent(parts[i]).None?
  {
    if parts == [] then Some([])
    else
      match (Numbers(parts[..|parts| - 1]), ParseComponent(parts[|parts| - 1]))
      case (Some(ns), Some(n)) => Some(ns + [n])
      case _ => None
  }

  function Parse(s: string): Option<u32> {
    var parts := Split(s, '.');
    if s == "" || |s| > 32 || |parts| > 4 then None
    else
      match Numbers(parts)
      case None => None
      case Some(nums) => if InRange(nums) then Some(MixedRadix(nums)) else None
  }

  lemma OrAbove(a: nat, b: nat, k: nat, m: nat)
    requires m == Pow2(k) && b < m
    ensures Or(a * m, b) == a * m + b
  {
    OrIsSum(a, b, k);
  }

  lemma ShiftValues(n0: u32, n1: u32, n2: u32)
    ensures Pow2(8) == 0x100 && Pow2(16) == 0x1_0000 && Pow2(24) == 0x100_0000
    ensures n0 <= 0xff ==> Shl(n0, 24, 32) == n0 * 0x100_0000
    ensures n1 <= 0xff ==> Shl(n1, 16, 32) == n1 * 0x1_0000
    ensures n2 <= 0xff ==> Shl(n2, 8, 32) == n2 * 0x100
  {
    assert Pow2(8) == 0x100;
    Pow2Sum(8, 8);
    Pow2Sum(16, 8);
    Widths();
  }

  /** The source's shifts and bitwise ors compute the mixed-radix sum. */
  lemma TwoPartShifts(n0: u32, n1: u32)
    requires n0 <= 0xff && n1 <= 0xff_ffff
    ensures Or(Shl(n0, 24, 32), n1) == MixedRadix([n0, n1])
  {
    ShiftValues(n0, 0, 0);
    OrAbove(n0, n1, 24, 0x100_0000);
  }

  lemma ThreePartShifts(n0: u32, n1: u32, n2: u32)
    requires n0 <= 0xff && n1 <= 0xff && n2 <= 0xffff
    ensures Or(Or(Shl(n0, 24, 32), Shl(n1, 16, 32)), n2) == MixedRadix([n0, n1, n2])
  {
    ShiftValues(n0, n1, 0);
    OrAbove(n0, n1 * 0x1_0000, 24, 0x100_0000);
    OrAbove(n0 * 0x100 + n1, n2, 16, 0x1_0000);
  }

  lemma FourPartShifts(n0: u32, n1: u32, n2: u32, n3: u32)
    requires n0 <= 0xff && n1 <= 0xff && n2 <= 0xff && n3 <= 0xff
    ensures Or(Or(Or(Shl(n0, 24, 32), Shl(n1, 16, 32)), Shl(n2, 8, 32)), n3) == MixedRadix([n0, n1, n2, n3])
  {
    ShiftValues(n0, n1, n2);
    hide Or, Shl, Pow2;
    OrAbove(n0, n1 * 0x1_0000, 24, 0x100_0000);
    OrAbove(n0 * 0x100 + n1, n2 * 0x100, 16, 0x1_0000);
    OrAbove(n0 * 0x1_0000 + n1 * 0x100 + n2, n3, 8, 0x100);
  }

  method ParseLooseIpv4(s: string) returns (r: Option<u32>)
    ensures r == Parse(s)
  {
    if s == "" || |s| > 32 { return None; }
    var parts := Split(s, '.');
    if !(1 <= |parts| <= 4) || exists i | 0 <= i < |parts| :: parts[i] == "" {
      return None;
    }
    hide Split, InRange, MixedRadix, ParseComponent;
    var nums := new u32[4](_ => 0);
    var ok := ReadParts(parts, nums);
    if !ok {
      return None;
    }
    r := Assemble(nums, |parts|);
  }

  /** The loop that fills `nums`. */
  method ReadParts(parts: seq<string>, nums: array<u32>) returns (ok: bool)
    requires |parts| <= nums.Length
    modifies nums
    ensures ok ==> Numbers(parts) == Some(nums[..|parts|])
    ensures !ok ==> Numbers(parts).None?
  {
    hide ParseComponent, Numbers;
    NoNumbers(nums);
    for i := 0 to |parts|
      invariant Numbers(parts[..i]) == Some(nums[..i])
    {
      var n := ParseComponent(parts[i]);
      NumbersSnoc(parts[..i], parts[i]);
      assert parts[..i + 1] == parts[..i] + [parts[i]];
      if n.None? {
        NumbersPrefix(parts, i + 1);
        return false;
      }
      nums[i] := n.value;
      assert nums[..i + 1] == nums[..i] + [n.value];
    }
    assert parts[..|parts|] == parts;
    ok := true;
  }

  lemma NoNumbers(nums: array<u32>)
    ensures Numbers([]) == Some(nums[..0])
  {
  }

  /** The final `match` on the number of parts. */
  method Assemble(nums: array<u32>, n: nat) returns (r: Option<u32>)
    requires nums.Length == 4 && 1 <= n <= 4
    ensures r == if InRange(nums[..n]) then Some(MixedRadix(nums[..n])) else None
  {
    var n0, n1, n2, n3 := nums[0], nums[1], nums[2], nums[3];
    match n
    case 1 =>
      r := Some(n0);
    case 2 =>
      assert nums[..2] == [n0, n1];
      if n0 > 0xff || n1 > 0x00ff_ffff { return None; }
      TwoPartShifts(n0, n1);
      r := Some(Or(Shl(n0, 24, 32), n1));
    case 3 =>
      assert nums[..3] == [n0, n1, n2];
      if n0 > 0xff || n1 > 0xff || n2 > 0xffff { return None; }
      ThreePartShifts(n0, n1, n2);
      r := Some(Or(Or(Shl(n0, 24, 32), Shl(n1, 16, 32)), n2));
    case _ =>
      assert nums[..4] == [n0, n1, n2, n3];
      if exists i | 0 <= i < 4 :: nums[i] > 0xff { return None; }
      FourPartShifts(n0, n1, n2, n3);
      r := Some(Or(Or(Or(Shl(n0, 24, 32), Shl(n1, 16, 32)), Shl(n2, 8, 32)), n3));
  }

  lemma {:induction false} NumbersPrefix(parts: seq<string>, k: nat)
    requires k <= |parts| && Numbers(parts[..k]).None?
    ensures Numbers(parts).None?
    decreases |parts|
  {
    if k < |parts| {
      var front := parts[..|parts| - 1];
      assert front[..k] == parts[..k];
      NumbersPrefix(front, k);
    } else {
      assert parts[..k] == parts;
    }
  }

  // ------------------------------------------------------------ what it accepts

  /** The parts of an address in an `n`-part spelling. */
  function PartsOf(a: u32, n: nat): (nums: seq<nat>)
    requires 1 <= n <= 4
    ensures |nums| == n && InRange(nums) && MixedRadix(nums) == a
  {
    var q1, q2 := a / 0x100, a / 0x1_0000;
    match n
    case 1 => [a]
    case 2 => [a / 0x100_0000, a % 0x100_0000]
    case 3 => [q2 / 0x100, q2 % 0x100, a % 0x1_0000]
    case _ => [q1 / 0x100 / 0x100, q1 / 0x100 % 0x100, q1 % 0x100, a % 0x100]
  }

  function Texts(sps: seq<Spelling>): (texts: seq<string>)
    ensures |texts| == |sps| && forall i | 0 <= i < |sps| :: texts[i] == sps[i].Text()
  {
    if sps == [] then [] else Texts(sps[..|sps| - 1]) + [sps[|sps| - 1].Text()]
  }

  function Values(sps: seq<Spelling>): (values: seq<nat>)
    ensures |values| == |sps| && forall i | 0 <= i < |sps| :: values[i] == sps[i].Value()
  {
    if sps == [] then [] else Values(sps[..|sps| - 1]) + [sps[|sps| - 1].Value()]
  }

  predicate AllValid(sps: seq<Spelling>) { forall i | 0 <= i < |sps| :: sps[i].Valid() }

  predicate AllFit(sps: seq<Spelling>) { forall i | 0 <= i < |sps| :: sps[i].Value() <= MaxU32 }

  lemma {:induction false} NumbersOfSpelled(sps: seq<Spelling>)
    requires AllValid(sps)
    ensures Numbers(Texts(sps)) == if AllFit(sps) then Some(Values(sps)) else None
  {
    if sps != [] {
      var n := |sps| - 1;
      NumbersOfSpelled(sps[..n]);
      SpellingComponent(sps[n]);
      NumbersSnoc(Texts(sps[..n]), sps[n].Text());
      FitSnoc(sps);
    }
  }

  lemma NumbersSnoc(front: seq<string>, last: string)
    ensures Numbers(front + [last])
            == if Numbers(front).Some? && ParseComponent(last).Some?
               then Some(Numbers(front).value + [ParseComponent(last).value]) else None
  {
    assert (front + [last])[..|front|] == front;
  }

  lemma FitSnoc(sps: seq<Spelling>)
    requires sps != []
    ensures AllFit(sps) <==> AllFit(sps[..|sps| - 1]) && sps[|sps| - 1].Value() <= MaxU32
  {
  }

  lemma InRangeFits(nums: seq<nat>)
    requires 1 <= |nums| <= 4 && InRange(nums)
    ensures forall i | 0 <= i < |nums| :: nums[i] <= MaxU32
  {
  }

  lemma SpelledSplits(sps: seq<Spelling>)
    requires sps != [] && AllValid(sps)
    ensures Split(Join(Texts(sps), '.'), '.') == Texts(sps) && Join(Texts(sps), '.') != ""
  {
    var parts := Texts(sps);
    forall i | 0 <= i < |sps| ensures '.' !in parts[i] && parts[i] != "" {
      SpellingComponent(sps[i]);
    }
    SplitJoin(parts, '.');
    assert |Join(parts, '.')| >= |parts[0]|;
  }

  lemma ValuesFit(sps: seq<Spelling>, values: seq<nat>)
    requires |values| == |sps| && forall i | 0 <= i < |sps| :: values[i] == sps[i].Value()
    requires forall i | 0 <= i < |values| :: values[i] <= MaxU32
    ensures AllFit(sps)
  {
    hide Spelling.Value;
  }

  /** What a dotted text of one to four parts parses to, whatever notations its parts use. */
  lemma SpelledResult(sps: seq<Spelling>)
    requires 1 <= |sps| <= 4 && AllValid(sps) && |Join(Texts(sps), '.')| <= 32
    ensures Parse(Join(Texts(sps), '.'))
            == if InRange(Values(sps)) then Some(MixedRadix(Values(sps))) else None
  {
    SpelledSplits(sps);
    NumbersOfSpelled(sps);
    if InRange(Values(sps)) {
      InRangeFits(Values(sps));
      ValuesFit(sps, Values(sps));
    }
    hide InRange, MixedRadix, AllFit, Numbers, Values, Texts, Join, Split;
  }

  /** Every spelling of every address parses to it. */
  lemma SpellingParses(a: u32, sps: seq<Spelling>)
    requires 1 <= |sps| <= 4 && AllValid(sps) && Values(sps) == PartsOf(a, |sps|)
    requires |Join(Texts(sps), '.')| <= 32
    ensures Parse(Join(Texts(sps), '.')) == Some(a)
  {
    SpelledResult(sps);
  }

  lemma SpellingsOf(parts: seq<string>, nums: seq<u32>) returns (sps: seq<Spelling>)
    requires Numbers(parts) == Some(nums)
    ensures AllValid(sps) && Texts(sps) == parts && Values(sps) == nums
  {
    assert |nums| == |parts| && forall i | 0 <= i < |parts| :: ParseComponent(parts[i]) == Some(nums[i]);
    hide Numbers, ParseComponent, Texts, Values, Spelling.Text, Spelling.Value, Spelling.Valid;
    sps := seq(|parts|, i requires 0 <= i < |parts| => SpellingOf(parts[i]));
    forall i | 0 <= i < |parts|
      ensures sps[i].Valid() && sps[i].Text() == parts[i] && sps[i].Value() == nums[i]
    {
    }
  }

  /** Nothing else parses: a text that yields `a` is one of its spellings. */
  lemma ParsedIsSpelling(s: string, a: u32) returns (sps: seq<Spelling>)
    requires Parse(s) == Some(a)
    ensures 1 <= |sps| <= 4 && AllValid(sps) && s == Join(Texts(sps), '.')
    ensures |s| <= 32 && Values(sps) == PartsOf(a, |sps|)
  {
    var parts := Split(s, '.');
    var nums := Numbers(parts).value;
    JoinSplit(s, '.');
    hide Numbers, Split, Join, MixedRadix, PartsOf, InRange;
    sps := SpellingsOf(parts, nums);
    PartsUnique(nums, a);
  }

  lemma PartsUnique(nums: seq<nat>, a: u32)
    requires 1 <= |nums| <= 4 && InRange(nums) && MixedRadix(nums) == a
    ensures nums == PartsOf(a, |nums|)
  {
    match |nums|
    case 1 =>
    case 2 => ModUnique(a, nums[0], nums[1], 0x100_0000);
    case 3 =>
      ModUnique(a, nums[0] * 0x100 + nums[1], nums[2], 0x1_0000);
      ModUnique(nums[0] * 0x100 + nums[1], nums[0], nums[1], 0x100);
    case _ =>
      var q2 := nums[0] * 0x100 + nums[1];
      var q1 := q2 * 0x100 + nums[2];
      ModUnique(a, q1, nums[3], 0x100);
      ModUnique(q1, q2, nums[2], 0x100);
      ModUnique(q2, nums[0], nums[1], 0x100);
  }
}
