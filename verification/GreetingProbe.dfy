/** The greeting probe of a session (src/connection.rs, src/proto.rs): it reads from the upstream until
    a line or 512 bytes have arrived, checks the first line and forwards what it read. */
module GreetingProbe {
  import opened Addresses
  import opened Channels
  import opened Tls
  import opened Wrappers

  const MaxGreeting: nat := 512
  const ReadSize: nat := 256
  const CR: u8 := 13
  const LF: u8 := 10

  datatype GreetingKind = Imap | Smtp

  predicate GreetingComplete(buf: bytes) { LF in buf || |buf| >= MaxGreeting }

  predicate IsLineSpace(b: u8) { b == CR || b == LF || b == 32 || b == 9 }

  /** The index of the first byte that is not white space. */
  function LeadingSpace(buf: bytes): (n: nat)
    ensures n <= |buf| && forall i | 0 <= i < n :: IsLineSpace(buf[i])
    ensures n < |buf| ==> !IsLineSpace(buf[n])
  {
    if buf == [] || !IsLineSpace(buf[0]) then 0 else 1 + LeadingSpace(buf[1..])
  }

  predicate StartsLine(line: bytes, kind: GreetingKind) {
    match kind
    case Imap => [42, 32] <= line                                    // "* "
    case Smtp => [50, 50, 48, 32] <= line || [50, 50, 48, 45] <= line // "220 ", "220-"
  }

  function ValidateGreeting(buf: bytes, kind: GreetingKind): Result<(), ProtoError> {
    var line := buf[LeadingSpace(buf)..];
    if line == [] then Err(BadGreeting)
    else if StartsLine(line, kind) then Ok(()) else Err(BadGreeting)
  }

  /** A successful read returns between 1 and 256 bytes. */
  predicate IsRead(r: ReadOutcome) { r.Read? && 1 <= |r.data| <= ReadSize }

  predicate AllRead(rs: seq<ReadOutcome>) { forall i | 0 <= i < |rs| :: IsRead(rs[i]) }

  /** What is read before the probe ends is read into 256 bytes. */
  predicate ReadsFit(rs: seq<ReadOutcome>) {
    forall i | 0 <= i < |rs| && rs[i].Read? && !GreetingComplete(ReadStream(rs[..i])) :: IsRead(rs[i])
  }

  /** The probe stops reading, successfully, right after read `k - 1`. */
  predicate CompletesAt(rs: seq<ReadOutcome>, k: nat)
    requires 0 < k <= |rs|
  {
    && AllRead(rs[..k])
    && GreetingComplete(ReadStream(rs[..k]))
    && forall j | 0 <= j < k :: !GreetingComplete(ReadStream(rs[..j]))
  }

  ghost predicate Accepts(rs: seq<ReadOutcome>, kind: GreetingKind) {
    exists k | 0 < k <= |rs| :: CompletesAt(rs, k) && ValidateGreeting(ReadStream(rs[..k]), kind).Ok?
  }

  lemma ReadStep(rs: seq<ReadOutcome>, k: nat)
    requires k < |rs| && IsRead(rs[k])
    ensures ReadStream(rs[..k + 1]) == ReadStream(rs[..k]) + rs[k].data
    ensures AllRead(rs[..k]) ==> AllRead(rs[..k + 1])
  {
    assert rs[..k + 1][..k] == rs[..k];
  }

  lemma CompletesOnce(rs: seq<ReadOutcome>, k: nat, l: nat)
    requires 0 < k <= |rs| && 0 < l <= |rs| && CompletesAt(rs, k) && CompletesAt(rs, l)
    ensures k == l
  {
  }

  /** The first `k` reads are in, and none before the last ended the probe. */
  predicate Reading(rs: seq<ReadOutcome>, k: nat)
    requires k <= |rs|
  {
    AllRead(rs[..k]) && forall j | 0 <= j < k :: !GreetingComplete(ReadStream(rs[..j]))
  }

  lemma ReadingStarts(rs: seq<ReadOutcome>)
    ensures Reading(rs, 0) && ReadStream(rs[..0]) == []
  {
  }

  lemma ReadingGoesOn(rs: seq<ReadOutcome>, k: nat)
    requires k < |rs| && Reading(rs, k) && IsRead(rs[k]) && !GreetingComplete(ReadStream(rs[..k]))
    ensures Reading(rs, k + 1) && ReadStream(rs[..k + 1]) == ReadStream(rs[..k]) + rs[k].data
    ensures 1 <= |rs[k].data| <= ReadSize
  {
    ReadStep(rs, k);
  }

  lemma ReadingCompletes(rs: seq<ReadOutcome>, k: nat)
    requires 0 < k <= |rs| && Reading(rs, k) && GreetingComplete(ReadStream(rs[..k]))
    ensures CompletesAt(rs, k)
  {
  }

  lemma ReadingStops(rs: seq<ReadOutcome>, k: nat)
    requires k <= |rs| && Reading(rs, k) && !GreetingComplete(ReadStream(rs[..k])) && (k == |rs| || !rs[k].Read?)
    ensures forall l | 0 < l <= |rs| :: !CompletesAt(rs, l)
  {
    NeverCompletes(rs, k);
  }

  lemma FitsNow(rs: seq<ReadOutcome>, i: nat)
    requires ReadsFit(rs) && i < |rs| && rs[i].Read? && !GreetingComplete(ReadStream(rs[..i]))
    ensures IsRead(rs[i])
  {
  }

  /** The reading loop: at most 512 reads and 767 bytes. When the outcomes run out the upstream has
      closed. */
  method CollectGreeting(rs: seq<ReadOutcome>) returns (done: bool, greet: bytes, used: nat)
    requires ReadsFit(rs)
    ensures used <= |rs| && used <= MaxGreeting && greet == ReadStream(rs[..used]) && |greet| <= 767
    ensures done ==> 0 < used && CompletesAt(rs, used)
    ensures !done ==> forall k | 0 < k <= |rs| :: !CompletesAt(rs, k)
  {
    greet, used, done := [], 0, false;
    ReadingStarts(rs);
    hide ReadsFit, ReadStream, Reading, IsRead;
    while !done
      invariant used <= |rs| && greet == ReadStream(rs[..used]) && Reading(rs, used)
      invariant used <= |greet| && |greet| <= 767 && used <= MaxGreeting
      invariant if done then used > 0 && GreetingComplete(greet) else |greet| < MaxGreeting && !GreetingComplete(greet)
      decreases |rs| - used, !done
    {
      if used == |rs| || !rs[used].Read? {
        ReadingStops(rs, used);
        return;
      }
      FitsNow(rs, used);
      ReadingGoesOn(rs, used);
      greet := greet + rs[used].data;
      used := used + 1;
      done := GreetingComplete(greet) || |greet| >= MaxGreeting;
    }
    ReadingCompletes(rs, used);
  }

  /** `probe_greeting`. `sent` is what reached the client. */
  method Probe(rs: seq<ReadOutcome>, kind: GreetingKind, write: WriteOutcome)
    returns (accepted: bool, sent: bytes, used: nat)
    requires ReadsFit(rs)
    ensures used <= |rs| && used <= MaxGreeting
    ensures |ReadStream(rs[..used])| <= 767
    ensures accepted <==> write.Sent? && Accepts(rs, kind)
    ensures kind == Imap ==> (accepted <==> write.Sent? && ShowsGreeting(rs, {"* "}))
    ensures kind == Smtp ==> (accepted <==> write.Sent? && ShowsGreeting(rs, {"220 ", "220-"}))
    ensures accepted ==> 0 < used && CompletesAt(rs, used) && sent == ReadStream(rs[..used])
    ensures sent == if Accepts(rs, kind) then write.Reached(ReadStream(rs[..used])) else []
  {
    accepted, sent := false, [];
    AcceptsExactly(rs, kind);
    hide ShowsGreeting;
    var done, greet;
    done, greet, used := CollectGreeting(rs);
    if !done {
      return;
    }
    if Accepts(rs, kind) {
      ghost var k :| 0 < k <= |rs| && CompletesAt(rs, k) && ValidateGreeting(ReadStream(rs[..k]), kind).Ok?;
      CompletesOnce(rs, used, k);
    }
    if ValidateGreeting(greet, kind).Err? {
      return;
    }
    sent := write.Reached(greet);
    accepted := write.Sent?;
  }

  lemma NeverCompletes(rs: seq<ReadOutcome>, used: nat)
    requires used <= |rs| && (used == |rs| || !rs[used].Read?)
    requires forall j | 0 <= j <= used :: !GreetingComplete(ReadStream(rs[..j]))
    ensures forall k | 0 < k <= |rs| :: !CompletesAt(rs, k)
  {
    forall k | 0 < k <= |rs| ensures !CompletesAt(rs, k) {
      assert used < k ==> rs[..k][used] == rs[used];
    }
  }

  // ------------------------------------------------------------ what is accepted

  predicate Blank(b: bytes) { forall i | 0 <= i < |b| :: b[i] as char in "\r\n \t" }

  /** The bytes start with the codes of the text. */
  predicate Opens(line: bytes, text: string) {
    |text| <= |line| && forall i | 0 <= i < |text| :: line[i] as int == text[i] as int
  }

  /** After white space only, one of the texts. */
  ghost predicate Greets(buf: bytes, texts: set<string>) {
    exists lead, text | 0 <= lead <= |buf| && text in texts :: Blank(buf[..lead]) && Opens(buf[lead..], text)
  }

  /** With read `k - 1` the stream first holds a line feed or 512 bytes, and it greets. Nothing before was an
      end or an error. */
  ghost predicate GreetsAt(rs: seq<ReadOutcome>, k: nat, texts: set<string>)
    requires 0 < k <= |rs|
  {
    var greet := ReadStream(rs[..k]);
    && (forall i | 0 <= i < k :: rs[i].Read? && 1 <= |rs[i].data| <= 256)
    && (10 in greet || |greet| >= 512)
    && (forall j | 0 <= j < k :: 10 !in ReadStream(rs[..j]) && |ReadStream(rs[..j])| < 512)
    && Greets(greet, texts)
  }

  ghost predicate ShowsGreeting(rs: seq<ReadOutcome>, texts: set<string>) {
    exists k | 0 < k <= |rs| :: GreetsAt(rs, k, texts)
  }

  /** What a greeting may start with. */
  function Texts(kind: GreetingKind): set<string> { if kind.Imap? then {"* "} else {"220 ", "220-"} }

  lemma LineSpaceIs(b: u8)
    ensures IsLineSpace(b) <==> b as char in "\r\n \t"
  {
    assert b as char in "\r\n \t"
      <==> b as char == '\r' || b as char == '\n' || b as char == ' ' || b as char == '\t';
  }

  /** The first character of each text is no white space. */
  lemma OpensIsStart(line: bytes, kind: GreetingKind)
    ensures StartsLine(line, kind) <==> exists text | text in Texts(kind) :: Opens(line, text)
    ensures StartsLine(line, kind) ==> line != [] && !IsLineSpace(line[0])
  {
    assert kind.Imap? ==> "* " in Texts(kind);
    assert kind.Smtp? ==> "220 " in Texts(kind) && "220-" in Texts(kind);
    assert StartsLine(line, Imap) <==> Opens(line, "* ");
    assert StartsLine(line, Smtp) <==> Opens(line, "220 ") || Opens(line, "220-");
  }

  lemma LeadingSpaceIs(s: bytes, n: nat)
    requires n < |s| && !IsLineSpace(s[n]) && forall i | 0 <= i < n :: IsLineSpace(s[i])
    ensures LeadingSpace(s) == n
  {
    assert LeadingSpace(s) >= n;
  }

  /** The validator accepts a buffer exactly when it is white space and then the text of a greeting. */
  lemma GreetingExactly(buf: bytes, kind: GreetingKind)
    ensures ValidateGreeting(buf, kind).Ok? <==> Greets(buf, Texts(kind))
  {
    var lead := LeadingSpace(buf);
    hide StartsLine, Opens, Texts, IsLineSpace;
    OpensIsStart(buf[lead..], kind);
    if ValidateGreeting(buf, kind).Ok? {
      forall i | 0 <= i < lead ensures buf[i] as char in "\r\n \t" { LineSpaceIs(buf[i]); }
      assert Blank(buf[..lead]);
    }
    forall n, text | 0 <= n <= |buf| && text in Texts(kind) && Blank(buf[..n]) && Opens(buf[n..], text)
      ensures ValidateGreeting(buf, kind).Ok?
    {
      OpensIsStart(buf[n..], kind);
      forall i | 0 <= i < n ensures IsLineSpace(buf[i]) {
        LineSpaceIs(buf[i]);
        assert buf[..n][i] == buf[i];
      }
      assert buf[n..][0] == buf[n];
      LeadingSpaceIs(buf, n);
    }
  }

  lemma GreetsAtExactly(rs: seq<ReadOutcome>, k: nat, kind: GreetingKind)
    requires 0 < k <= |rs|
    ensures GreetsAt(rs, k, Texts(kind)) <==> CompletesAt(rs, k) && ValidateGreeting(ReadStream(rs[..k]), kind).Ok?
  {
    GreetingExactly(ReadStream(rs[..k]), kind);
    hide Greets, ValidateGreeting, ReadStream, Texts;
    assert AllRead(rs[..k]) <==> forall i | 0 <= i < k :: rs[i].Read? && 1 <= |rs[i].data| <= 256;
  }

  /** What the probe accepts, told without the functions it is made of. */
  lemma AcceptsExactly(rs: seq<ReadOutcome>, kind: GreetingKind)
    ensures Accepts(rs, kind) <==> ShowsGreeting(rs, Texts(kind))
    ensures Texts(Imap) == {"* "} && Texts(Smtp) == {"220 ", "220-"}
  {
    forall k | 0 < k <= |rs|
      ensures GreetsAt(rs, k, Texts(kind)) <==> CompletesAt(rs, k) && ValidateGreeting(ReadStream(rs[..k]), kind).Ok?
    {
      GreetsAtExactly(rs, k, kind);
    }
    hide GreetsAt, CompletesAt, ValidateGreeting, ReadStream;
  }

  // ------------------------------------------------------------ fragmentation

  /** The white space before the first line contains no line feed and leaves room for the line. */
  predicate OrderlyStart(s: bytes) {
    var lead := LeadingSpace(s);
    LF !in s[..lead] && lead + 4 <= MaxGreeting
  }

  /** Four bytes, or fewer that end the line, decide how the line starts. */
  lemma PartOfLine(seen: bytes, line: bytes, kind: GreetingKind)
    requires seen <= line && (|seen| >= 4 || LF in seen)
    ensures StartsLine(seen, kind) <==> StartsLine(line, kind)
  {
    if |seen| < 4 {
      var p :| 0 <= p < |seen| && seen[p] == LF;
      assert line[p] == LF;
    }
  }

  /** A complete buffer cut from an orderly stream shows how the first line starts. */
  lemma CompleteShowsLine(s: bytes, b: bytes, kind: GreetingKind)
    requires b <= s && GreetingComplete(b) && OrderlyStart(s)
    ensures ValidateGreeting(b, kind).Ok? <==> StartsLine(s[LeadingSpace(s)..], kind)
  {
    var lead := LeadingSpace(s);
    if LF in b {
      var p :| 0 <= p < |b| && b[p] == LF;
      assert forall i | 0 <= i < lead :: s[..lead][i] == s[i];
      assert b[lead..][p - lead] == LF;
    }
    assert lead < |b|;
    LeadingSpaceIs(b, lead);
    assert b[lead..] <= s[lead..];
    PartOfLine(b[lead..], s[lead..], kind);
  }

  lemma {:induction false} FirstComplete(rs: seq<ReadOutcome>, n: nat) returns (k: nat)
    requires n <= |rs| && AllRead(rs) && GreetingComplete(ReadStream(rs[..n]))
    ensures 0 < k <= n && CompletesAt(rs, k)
    decreases n
  {
    assert rs[..0] == [];
    if j :| 0 <= j < n && GreetingComplete(ReadStream(rs[..j])) {
      k := FirstComplete(rs, j);
    } else {
      k := n;
    }
  }

  /** The verdict on an orderly stream that reaches a line feed or 512 bytes is read off the stream
      itself, however it is split into reads of 1 to 256 bytes. */
  lemma VerdictExactly(rs: seq<ReadOutcome>, kind: GreetingKind)
    requires AllRead(rs) && GreetingComplete(ReadStream(rs)) && OrderlyStart(ReadStream(rs))
    ensures Accepts(rs, kind) <==> StartsLine(ReadStream(rs)[LeadingSpace(ReadStream(rs))..], kind)
  {
    assert rs[..|rs|] == rs;
    var k := FirstComplete(rs, |rs|);
    ReadStreamPrefix(rs, k);
    CompleteShowsLine(ReadStream(rs), ReadStream(rs[..k]), kind);
    forall l | 0 < l <= |rs| && CompletesAt(rs, l) ensures l == k { CompletesOnce(rs, k, l); }
  }

  lemma FirstByteIsOrderly(s: bytes)
    requires s != [] && !IsLineSpace(s[0])
    ensures OrderlyStart(s) && s[LeadingSpace(s)..] == s
  {
    LeadingSpaceIs(s, 0);
  }

  // ------------------------------------------------------------ when the split matters

  lemma CompleteGrows(b: bytes, s: bytes)
    requires b <= s
    ensures GreetingComplete(b) ==> GreetingComplete(s)
  {
    if LF in b {
      var p :| 0 <= p < |b| && b[p] == LF;
      assert s[p] == LF;
    }
  }

  /** The length of the shortest prefix that ends the probe. */
  function Shortest(s: bytes): (c: nat)
    requires GreetingComplete(s)
    ensures 0 < c <= |s| && GreetingComplete(s[..c]) && !GreetingComplete(s[..c - 1])
  {
    var n := |s| - 1;
    if GreetingComplete(s[..n]) then
      assert s[..n][..Shortest(s[..n])] == s[..Shortest(s[..n])];
      assert s[..n][..Shortest(s[..n]) - 1] == s[..Shortest(s[..n]) - 1];
      Shortest(s[..n])
    else
      assert s[..|s|] == s;
      |s|
  }

  /** The longest prefix the probe can have read when it ends: a last read of 256 bytes. */
  function Longest(s: bytes): nat
    requires GreetingComplete(s)
  {
    if |s| < Shortest(s) - 1 + ReadSize then |s| else Shortest(s) - 1 + ReadSize
  }

  predicate Shows(s: bytes, n: nat, kind: GreetingKind)
    requires n <= |s|
  {
    ValidateGreeting(s[..n], kind).Ok?
  }

  lemma ShowsGrows(s: bytes, m: nat, n: nat, kind: GreetingKind)
    requires m <= n <= |s| && Shows(s, m, kind)
    ensures Shows(s, n, kind)
  {
    var lead := LeadingSpace(s[..m]);
    assert forall i | 0 <= i < m :: s[..n][i] == s[..m][i];
    LeadingSpaceIs(s[..n], lead);
    assert s[..m][lead..] <= s[..n][lead..];
  }

  /** A prefix ends the probe exactly when it is no shorter than the shortest that does. */
  lemma CompleteReaches(s: bytes, b: bytes)
    requires b <= s && GreetingComplete(s)
    ensures GreetingComplete(b) <==> |b| >= Shortest(s)
  {
    var c := Shortest(s);
    if |b| >= c {
      assert b[..c] == s[..c];
      CompleteGrows(s[..c], b);
    } else {
      assert s[..c - 1][..|b|] == b;
      CompleteGrows(b, s[..c - 1]);
    }
  }

  /** However the stream is split, the probe ends between the two. */
  lemma EndsBetween(rs: seq<ReadOutcome>, k: nat)
    requires AllRead(rs) && 0 < k <= |rs| && CompletesAt(rs, k) && GreetingComplete(ReadStream(rs))
    ensures ReadStream(rs[..k]) <= ReadStream(rs)
    ensures Shortest(ReadStream(rs)) <= |ReadStream(rs[..k])| <= Longest(ReadStream(rs))
  {
    ReadStreamPrefix(rs, k);
    ReadStreamPrefix(rs, k - 1);
    CompleteReaches(ReadStream(rs), ReadStream(rs[..k]));
    CompleteReaches(ReadStream(rs), ReadStream(rs[..k - 1]));
    ReadStep(rs, k - 1);
  }

  lemma VerdictOf(rs: seq<ReadOutcome>, k: nat, kind: GreetingKind)
    requires 0 < k <= |rs| && CompletesAt(rs, k) && ReadStream(rs[..k]) <= ReadStream(rs)
    ensures Accepts(rs, kind) <==> Shows(ReadStream(rs), |ReadStream(rs[..k])|, kind)
  {
    assert ReadStream(rs)[..|ReadStream(rs[..k])|] == ReadStream(rs[..k]);
    forall l | 0 < l <= |rs| && CompletesAt(rs, l) ensures l == k { CompletesOnce(rs, k, l); }
  }

  lemma VerdictBetween(rs: seq<ReadOutcome>, s: bytes, kind: GreetingKind) returns (n: nat)
    requires AllRead(rs) && s == ReadStream(rs) && GreetingComplete(s)
    ensures Shortest(s) <= n <= Longest(s) && (Accepts(rs, kind) <==> Shows(s, n, kind))
  {
    assert rs[..|rs|] == rs;
    var k := FirstComplete(rs, |rs|);
    EndsBetween(rs, k);
    VerdictOf(rs, k, kind);
    n := |ReadStream(rs[..k])|;
  }

  /** One byte at a time. */
  function Bytewise(s: bytes): seq<ReadOutcome> {
    if s == [] then [] else Bytewise(s[..|s| - 1]) + [Read([s[|s| - 1]])]
  }

  lemma {:induction false} BytewiseReads(s: bytes)
    ensures |Bytewise(s)| == |s| && AllRead(Bytewise(s)) && ReadStream(Bytewise(s)) == s
  {
    if s != [] {
      BytewiseReads(s[..|s| - 1]);
      assert s == s[..|s| - 1] + [s[|s| - 1]];
    }
  }

  lemma {:induction false} BytewisePrefix(s: bytes, k: nat)
    requires k <= |s|
    ensures |Bytewise(s)| == |s| && Bytewise(s)[..k] == Bytewise(s[..k])
    decreases |s|
  {
    BytewiseReads(s);
    if k < |s| {
      BytewisePrefix(s[..|s| - 1], k);
      assert s[..|s| - 1][..k] == s[..k];
    } else {
      assert s[..k] == s;
    }
  }

  lemma {:induction false} ReadStreamCat(rs: seq<ReadOutcome>, qs: seq<ReadOutcome>)
    ensures ReadStream(rs + qs) == ReadStream(rs) + ReadStream(qs)
  {
    if qs == [] {
      assert rs + qs == rs;
    } else {
      ReadStreamCat(rs, qs[..|qs| - 1]);
      assert (rs + qs)[..|rs + qs| - 1] == rs + qs[..|qs| - 1];
    }
  }

  /** Reads of one byte up to `m`, and then one that ends at `n`. */
  function Jump(s: bytes, m: nat, n: nat): seq<ReadOutcome>
    requires m <= n <= |s|
  {
    Bytewise(s[..m]) + [Read(s[m..n])] + Bytewise(s[n..])
  }

  lemma OneRead(d: bytes)
    ensures ReadStream([Read(d)]) == d
  {
    var rs := [Read(d)];
    assert rs[..0] == [] && rs[0] == Read(d);
  }

  lemma CutAt(s: bytes, m: nat, n: nat)
    requires m <= n <= |s|
    ensures s[..m] + s[m..n] == s[..n] && s[..n] + s[n..] == s
  {
  }

  lemma FrontOf<T>(front: seq<T>, rest: seq<T>, k: nat)
    requires k <= |front|
    ensures (front + rest)[..k] == front[..k]
  {
  }

  lemma AllReadCat(rs: seq<ReadOutcome>, qs: seq<ReadOutcome>)
    requires AllRead(rs) && AllRead(qs)
    ensures AllRead(rs + qs)
  {
  }

  /** The first `m + 1` reads of a jump. */
  lemma JumpStart(s: bytes, m: nat, n: nat)
    requires m < n <= |s| && n - m <= ReadSize
    ensures var start := Bytewise(s[..m]) + [Read(s[m..n])];
            |start| == m + 1 && AllRead(start) && ReadStream(start) == s[..n]
  {
    var slow, last := Bytewise(s[..m]), [Read(s[m..n])];
    BytewiseReads(s[..m]);
    assert AllRead(last);
    hide *;
    AllReadCat(slow, last);
    OneRead(s[m..n]);
    ReadStreamCat(slow, last);
    CutAt(s, m, n);
  }

  lemma JumpReads(s: bytes, m: nat, n: nat)
    requires m < n <= |s| && n - m <= ReadSize
    ensures |Jump(s, m, n)| > m && AllRead(Jump(s, m, n))
    ensures ReadStream(Jump(s, m, n)) == s && ReadStream(Jump(s, m, n)[..m + 1]) == s[..n]
  {
    var start, rest := Bytewise(s[..m]) + [Read(s[m..n])], Bytewise(s[n..]);
    assert Jump(s, m, n) == start + rest;
    hide *;
    JumpStart(s, m, n);
    BytewiseReads(s[n..]);
    AllReadCat(start, rest);
    ReadStreamCat(start, rest);
    CutAt(s, n, n);
    FrontOf(start, rest, m + 1);
    assert start[..m + 1] == start;
  }

  lemma JumpWaits(s: bytes, m: nat, n: nat, j: nat)
    requires j <= m < n <= |s|
    ensures j <= |Jump(s, m, n)| && ReadStream(Jump(s, m, n)[..j]) == s[..j]
  {
    hide ReadStream, Bytewise;
    BytewisePrefix(s[..m], j);
    BytewiseReads(s[..j]);
    assert s[..m][..j] == s[..j];
    var slow, last, rest := Bytewise(s[..m]), [Read(s[m..n])], Bytewise(s[n..]);
    FrontOf(slow + last, rest, j);
    FrontOf(slow, last, j);
  }

  lemma JumpCompletes(s: bytes, m: nat, n: nat)
    requires m < n <= |s| && n - m <= ReadSize && GreetingComplete(s[..n])
    requires forall j | 0 <= j <= m :: !GreetingComplete(s[..j])
    ensures |Jump(s, m, n)| > m && CompletesAt(Jump(s, m, n), m + 1)
  {
    var rs := Jump(s, m, n);
    JumpReads(s, m, n);
    hide Jump, ReadStream, GreetingComplete;
    forall j | 0 <= j <= m ensures !GreetingComplete(ReadStream(rs[..j])) { JumpWaits(s, m, n, j); }
  }

  lemma EndsInRange(s: bytes, n: nat)
    requires GreetingComplete(s) && Shortest(s) <= n <= Longest(s)
    ensures n <= |s| && n - (Shortest(s) - 1) <= ReadSize && GreetingComplete(s[..n])
    ensures forall j | 0 <= j < Shortest(s) :: !GreetingComplete(s[..j])
  {
    CompleteReaches(s, s[..n]);
    forall j | 0 <= j < Shortest(s) ensures !GreetingComplete(s[..j]) { CompleteReaches(s, s[..j]); }
  }

  /** Every end between the two can happen. */
  lemma AnyEndHappens(s: bytes, n: nat, kind: GreetingKind) returns (rs: seq<ReadOutcome>)
    requires GreetingComplete(s) && Shortest(s) <= n <= Longest(s)
    ensures n <= |s| && AllRead(rs) && ReadStream(rs) == s && (Accepts(rs, kind) <==> Shows(s, n, kind))
  {
    EndsInRange(s, n);
    var m := Shortest(s) - 1;
    rs := Jump(s, m, n);
    hide Jump, ReadStream, Shortest, Longest, GreetingComplete, CompletesAt, Shows, Accepts;
    JumpReads(s, m, n);
    JumpCompletes(s, m, n);
    VerdictOf(rs, m + 1, kind);
  }

  /** The probe gives one verdict on the stream, however it is split. */
  ghost predicate OneVerdict(s: bytes, kind: GreetingKind) {
    forall rs, qs | AllRead(rs) && AllRead(qs) && ReadStream(rs) == s && ReadStream(qs) == s ::
      Accepts(rs, kind) == Accepts(qs, kind)
  }

  /** The split makes no difference exactly when the shortest prefix that ends the probe shows the
      greeting already, or the longest still does not. */
  lemma IndependentExactly(s: bytes, kind: GreetingKind)
    requires GreetingComplete(s)
    ensures OneVerdict(s, kind) <==> Shows(s, Shortest(s), kind) || !Shows(s, Longest(s), kind)
  {
    assert Shortest(s) <= Longest(s) <= |s|;
    var early := AnyEndHappens(s, Shortest(s), kind);
    var late := AnyEndHappens(s, Longest(s), kind);
    hide Shows, AllRead, GreetingComplete, Longest, Shortest, Accepts, ReadStream;
    if Shows(s, Shortest(s), kind) || !Shows(s, Longest(s), kind) {
      forall rs | AllRead(rs) && ReadStream(rs) == s
        ensures Accepts(rs, kind) == Shows(s, Shortest(s), kind)
      {
        var n := VerdictBetween(rs, s, kind);
        if Shows(s, Shortest(s), kind) { ShowsGrows(s, Shortest(s), n, kind); }
        if Shows(s, n, kind) { ShowsGrows(s, n, Longest(s), kind); }
      }
    }
  }

  lemma LateLineAccepted()
    ensures var whole := [Read([LF, 42, 32])];
            AllRead(whole) && ReadStream(whole) == [LF, 42, 32] && Accepts(whole, Imap)
  {
    var whole := [Read([LF, 42, 32])];
    ReadStep(whole, 0);
    assert whole[..1] == whole && whole[..0] == [];
    LeadingSpaceIs([LF, 42, 32], 1);
    assert [LF, 42, 32][1..] == [42, 32];
    assert [LF, 42, 32][0] == LF;
    assert CompletesAt(whole, 1);
  }

  lemma LoneLineFeedRejected()
    ensures var split := [Read([LF]), Read([42, 32])];
            AllRead(split) && ReadStream(split) == [LF, 42, 32] && !Accepts(split, Imap)
  {
    var split := [Read([LF]), Read([42, 32])];
    ReadStep(split, 0);
    ReadStep(split, 1);
    assert split[..0] == [] && split[..2] == split;
    assert ReadStream(split[..1]) == [LF];
    assert [LF][0] == LF;
    assert CompletesAt(split, 1);
    LineFeedIsNoGreeting();
    hide CompletesAt, ValidateGreeting, ReadStream;
    forall k | 0 < k <= 2 && CompletesAt(split, k) ensures k == 1 { CompletesOnce(split, 1, k); }
  }

  lemma LineFeedIsNoGreeting()
    ensures ValidateGreeting([LF], Imap).Err?
  {
    assert LeadingSpace([LF]) == 1;
  }

  /** Without orderliness the split decides: a line feed read on its own ends the probe. */
  lemma LeadingLineFeedMatters()
    ensures var whole := [Read([LF, 42, 32])];
            var split := [Read([LF]), Read([42, 32])];
            && AllRead(whole) && AllRead(split) && ReadStream(whole) == ReadStream(split)
            && Accepts(whole, Imap) && !Accepts(split, Imap)
  {
    hide *;
    LateLineAccepted();
    LoneLineFeedRejected();
  }
}
