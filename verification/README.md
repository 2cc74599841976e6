# A verified model of the mail proxy

The proxy carries IMAP, SMTP and their TLS variants between a WebSocket client and a TCP server, and
keeps strangers from abusing it: it limits connects, destinations, live connections and bytes per client
network, refuses private addresses however they are spelled, and checks that a session speaks the
protocol of its port. This project models those parts in Dafny 4.11 and proves what they promise.
`dafny verify dfyconfig.toml` checks all of it.

## How it is organised

* **The limiter** (`src/limits.rs`). `Ledger` is a naive limiter: a log that forgets nothing, and a
  decision that counts the log entries of age at most the window. `Safety` proves what the limits promise of
  every run of the ledger, `Answers` when exactly a run refuses, and `Networks` whom it takes for one client. `Limits` is the real limiter, classes whose rows are created, pruned in place,
  swept and dropped; each method's contract is the ledger's step, through the relation `Rows.Tied`.
  `Replays` puts whole runs of arbitrary calls by everyone through it.
* **A session** (`src/connection.rs`). `Sessions` is the event loop as a function of its events, with its
  exact behaviour; `Worlds` interleaves any number of sessions, and any other calls, over one ledger.
  `Scripts` is the world's side of one session: what the sockets yield and which branch is ready next.
  `Connections` is the class that runs probe, loop and close against the real limiter, while `Neighbours`
  makes other people's calls on it at every wait; `Server` is the handler's order of admission steps, and
  the token comparison. Their contracts give the trace of own and others' moves that takes the ledger from
  the state before the call to the state after it; `Traces` has what is proved about such traces. What
  others do is an input, so no call of the connection's own can pass for one of theirs.
* **The probes** (`src/connection.rs`, `src/proto.rs`). `Tls` is the ClientHello parser; `ClientHellos` the
  grammar, an encoder and the two-way agreement between them; `TlsProbe` and `GreetingProbe` reassemble
  fragments, and their verdicts are characterised independently of the fragmentation, and in the terms of
  the wire. `Utf8` is the encoding that host names are read back from.
* **Addresses and names** (`src/dest.rs`, `src/config.rs`). `Bits` defines the machine operators bit by bit
  on unbounded numbers; `Addresses`, `Routability`, `LooseIpv4` and `Remotes` build on it. `Text` has the string
  operations, tied to tables of characters; `Destinations` says which texts are destinations, and of what.

Conventions. An `Instant` is a number of clock ticks; reading the clock under the lock advances it by an
arbitrary amount. `u64` sums saturate where the source saturates. A live lease is identified by a number that
is never reused; the number is ghost. Sockets, DNS and the scheduler are arbitrary lists of outcomes.

## What turned out false

* The byte quota is not enforced, and the cached sum not exact, when the cap is `u64::MAX`: the saturating
  addition loses bytes (`Safety.LargestCapPassed`, `Limits.SaturateSum`). Below that both are exact
  (`Safety.ByteQuotaHolds`, `Limits.LimitState.CachedSumExact`). The cap of a connection behaves alike
  (`Sessions.LargestCapPassed`, `Sessions.ConnCapHolds`).
* The verdict of the TLS probe depends on the fragmentation for accepted records of more than 16380 bytes,
  and only for those (`TlsProbe.FragmentationMatters`, `TlsProbe.IndependentExactly`).
* The verdict of the greeting probe can depend on it too, for instance when a line feed comes before the
  first line (`GreetingProbe.LeadingLineFeedMatters`); `GreetingProbe.IndependentExactly` is the exact condition.
* Normalising a hostname twice can differ from doing it once (`Remotes.NormalizeIsNotIdempotent`);
  `Remotes.NormalizeTwice` is the exact condition.
* An accepted hostname need not survive the trip through its destination key
  (`Remotes.HostnameRoundTripFails`, and `1.:993` in `Remotes.HostnameRoundTripFailsOn`);
  nor does an IPv6 literal, whose key has no brackets; `Remotes.RoundTripExactly` is the exact condition.
* A plain IPv6 network may contain IPv4-mapped addresses whose limit key is an IPv4 one
  (`Addresses.PlainV6NetworkMayContainMapped`).
* A CIDR block written as a mapped address, such as `::ffff:10.0.0.0/104`, does not hold the mapped addresses
  that its bits say, but here `::ffff:10.0.0.0` alone; `Addresses.MappedBlockExactly` is the exact condition.

## Model

| member | source | states |
|---|---|---|
| `Replays.Replay` | src/limits.rs:203-340 | For every list of calls, the limiter that prunes, drops and recreates rows gives, one by one, the answers of the ledger that forgets nothing, at the times it read its clock, which never run backwards; a key it takes for tracked was touched by an earlier call, and one it takes for untracked no longer matters to the ledger; without a cap on tracked keys the answers do not depend on that; every answer is the one `Replays.Due` gives, and the calls and answers keep every promise of the limits |
| `Replays.AnswersAreExact` | src/limits.rs:226-340 | Read off the calls, answers and times of a run: an attempt is refused exactly when the closed window ending at its time already holds exactly `global_connects` accepted attempts, then `connects_per_ip` of its key, then `distinct_dests_per_ip` destinations without its own, or before those when a key not tracked finds as many keys engaged as may be tracked; a connection exactly when as many are live overall, of its key, or to its destination as the cap says, in this order, and otherwise it gets the next number; a charge exactly when it is not empty, a cap below `u64::MAX` is set and the bytes accepted in the window leave too little of it; everything else is accepted |
| `Replays.PromisesKept` | src/limits.rs:226-340 | Read off the calls, answers and times of a run: in every closed interval of its window, accepted attempts stay under `global_connects` overall and under `connects_per_ip` per key, reach at most `distinct_dests_per_ip` destinations per key, and accepted bytes stay under `max_bytes_per_ip` |
| `Replays.Serve` | src/limits.rs:226-340 | One call of any kind, including a sweep at any moment and the drop of any lease, is one ledger step with its answer; whether a key counts as tracked is whether it has a row that a collection due at that time would keep |
| `Replays.RisingInOrder` | src/limits.rs:229-339 | The ledger operations of a run are in the order of the clock readings, as the window theorems need |
| `Replays.TrackingIrrelevant` | src/limits.rs:230-238 | With `max_tracked_ips = 0`, every answer and the final ledger of a run are the same whatever the limiter has forgotten |
| `Answers.AttemptAnswered` | src/limits.rs:226-263 | Over every run of the ledger in order of time: an attempt is refused exactly when its closed windows hold exactly what a cap allows, by the first such cap, comparisons written out |
| `Answers.LeaseAnswered` | src/limits.rs:266-298 | Over every run: a connection is refused exactly when exactly as many leases are live as its cap allows, overall, per key or per destination, in this order |
| `Answers.ChargeAnswered` | src/limits.rs:320-340 | Over every run in order of time: a charge is refused exactly when it does not fit on top of the bytes in the closed window that ends with it |
| `Networks.KeyExactly` | src/limits.rs:93-115 | With the configured prefixes: two clients have one key exactly when the second, unmapped, lies in the aligned block of 2^(32 - `ipv4_prefix`), or 2^(128 - `ipv6_prefix`), addresses around the first, unmapped |
| `Networks.UnmapExactly` | src/limits.rs:103-105 | The addresses taken for `a.b.c.d` are itself and `::ffff:a.b.c.d` |
| `Networks.OthersDoNotCount` | src/limits.rs:226-340 | Whatever attempts and charges are made in other networks, the answers to a client's charges and connections are those of the run without them, and so are those to its attempts unless a cap is set on all attempts together or on tracked keys |
| `Limits.LimitState.RecordAttempt` | src/limits.rs:226-263 | Refused exactly when the full log says so, with the same error; a new key is refused for the tracked cap exactly when at least that many keys are active; never leaves more rows than the larger of the old count and the cap |
| `Limits.LimitState.Acquire` | src/limits.rs:266-298 | Refused exactly when the live leases reach a cap, in the source's order; otherwise a live lease with a new number |
| `Limits.LimitState.AddBytes` | src/limits.rs:320-340 | Refused exactly when the bytes charged within the window plus `n` exceed the cap; otherwise the charge is in the log and at the end of the pruned row, whose sum grows by it, saturating |
| `Limits.LimitState.Release` | src/limits.rs:300-318 | Takes exactly that lease away, and keeps the key's row exactly when the key is still active |
| `Limits.LimitState.Leased` | src/limits.rs:300-318 | A live lease is counted in all three counters, so no `saturating_sub` of its release saturates |
| `Limits.LimitState.GcIdle` | src/limits.rs:183-192 | After a sweep the tracked keys are exactly those with a live lease or an event within its window |
| `Limits.LimitState.MaybeGc` | src/limits.rs:194-200 | A due sweep drops exactly the inactive keys; otherwise every key keeps its row; and from then on every row shows the same as without the sweep; a sweep is due after 30 seconds or at 10000 rows |
| `Limits.LimitState.RetainBusy` | src/limits.rs:184-192 | The in-place sweep, row by row in any order, equals pruning every row and dropping the idle ones |
| `Limits.LimitState.ActiveKeyTracked` | src/limits.rs:157-162 | In every reachable state a key with a lease, or with an event that is still in its window then or later, has a row |
| `Limits.LimitState.LeasesConserved` | src/limits.rs:266-318 | In every reachable state the global counter, the sum of the per-key counters, the sum of the per-destination counters and the number of live leases are equal, with equality per key and per destination, and no destination entry is zero |
| `Limits.LimitState.CachedSumExact` | src/limits.rs:146-154 | For a cap below `u64::MAX`, in every reachable state the cached sum is the sum of the byte queue and within the cap |
| `Limits.LimitState.CachedSumBounded` | src/limits.rs:146-154 | At any cap the cached sum never exceeds the sum of the queue |
| `Limits.SaturateSum` | src/limits.rs:333-338 | The exception: on a limiter with a cap of `u64::MAX`, any charges that pass it together within one window leave the cached sum at `u64::MAX` and all of them in the queue |
| `Limits.ConnectionLease.Drop` | src/limits.rs:363-367 | Dropping a live lease removes it and nothing else |
| `Limits.PruneInstants` | src/limits.rs:121-125 | Popping the expired front of a sorted queue leaves exactly the entries still in the window |
| `Limits.IpState.Prune` | src/limits.rs:137-155 | The same for all three queues of a row, with the byte sum that remains |
| `Queues.PrunedSumExact` | src/limits.rs:146-154 | An exact cached sum stays exact through pruning: no subtraction saturates |
| `Queues.PrunedSumBounded` | src/limits.rs:146-154 | Pruning never leaves a cached sum above that of the queue |
| `Rows.ChargedInWindow` | src/limits.rs:331-338 | The same on the row of the key, which is pruned before each charge: charges within one window add up in the queue and saturate in the sum |
| `Rows.SweptShowsSame` | src/limits.rs:184-192 | A sweep changes nothing that any row shows once pruned at that time or later |
| `Queues.FreshTwice` | src/limits.rs:121-125 | Pruning early loses nothing that still counts later, which is what makes lazy pruning sound |
| `Rows.SweepKeepsActive` | src/limits.rs:184-192 | A full sweep keeps the state tied to the log and keeps exactly the active keys |
| `Rows.Conservation` | src/limits.rs:266-318 | The three kinds of counters total the live leases whatever the order of summation |
| `Ledger.RunLawful` | src/limits.rs:226-340 | In every run each accepted attempt and charge was within its limits when made, and live leases are within theirs |
| `Ledger.LeaseRemoved` | src/limits.rs:300-318 | A release takes back exactly what the lease added to each count |
| `Safety.ConnectRateHolds` | src/limits.rs:247-249 | Over every run, every closed interval of the window holds at most `connects_per_ip` accepted attempts of a key |
| `Safety.GlobalRateHolds` | src/limits.rs:239-241 | The same for all keys together and `global_connects` |
| `Safety.DistinctDestsHold` | src/limits.rs:250-256 | Every closed interval of the window holds accepted attempts of a key to at most `distinct_dests_per_ip` destinations, although repeats are admitted when the set is full |
| `Safety.ByteQuotaHolds` | src/limits.rs:320-340 | Every closed interval of the window holds at most `max_bytes_per_ip` charged bytes of a key |
| `Safety.LargestCapUnenforced` | src/limits.rs:333-338 | The exception: with a cap of `u64::MAX`, charges of whatever sizes are all accepted, and a window holds all their bytes |
| `Safety.LargestCapPassed` | src/limits.rs:333-338 | There are runs that pass that cap in one window, for buffers of any size |
| `Safety.LeaseCapsHold` | src/limits.rs:266-298 | Live leases never exceed the three connection caps |
| `Worlds.SessionsKeepQuota` | src/connection.rs:126-136 | However many sessions share a key and however they interleave, with each other and with any other use of the limiter, after any lawful past, the bytes they forward in both directions total at most `max_bytes_per_ip` in every closed interval of the window |
| `Worlds.DeliveriesComplete` | src/connection.rs:196-310 | The bytes so counted are all the bytes the event loops put on any socket |
| `Worlds.SessionsSeparate` | src/connection.rs:196-310 | In any interleaving each session behaves as a run of its own, given the answers to its charges |
| `Worlds.LeaseOrigin` | src/limits.rs:266-318 | A lease that is live after a trace was live before it or was granted to one of its calls |
| `Worlds.LeaseStays` | src/limits.rs:300-318 | A lease that no call of the trace releases stays as it was |
| `Sessions.Transparent` | src/connection.rs:205-307 | Each side receives a prefix of the concatenated data of the other, whatever happens |
| `Sessions.OpenIsExact` | src/connection.rs:205-307 | While the session is open nothing is lost: both byte streams, the pongs and keepalive pings, and the byte counter are exactly those the events call for |
| `Sessions.OpenExactly` | src/connection.rs:196-310 | The session ends at exactly the first deadline, close, failure, refused charge, failed write or excess over the connection's cap |
| `Sessions.ConnCapHolds` | src/connection.rs:138-141 | A session never forwards more than `max_bytes_per_connection` |
| `Sessions.LargestCapUnbounded` | src/connection.rs:212-214 | The exception: with a cap of `u64::MAX`, where the counter saturates, any session that is granted and sends all its chunks, of whatever sizes, stays open past the cap |
| `Sessions.LargestCapPassed` | src/connection.rs:212-214 | There are such sessions for every message size that a buffer can have |
| `Sessions.IdleChangesNothing` | src/connection.rs:264-276 | Idle waits answered by a successful ping neither end the session nor change a forwarded byte |
| `Sessions.ForwardsWhatItWants` | src/connection.rs:211-224 | A turn forwards at most the bytes it charged, and nothing when the charge is refused |
| `Connections.Connection.TakeTurn` | src/connection.rs:196-310 | One turn of the imperative loop is the session's step, and its charge is the ledger's step |
| `Connections.Connection.AccountBytes` | src/connection.rs:126-136 | Charges the limiter, and refuses exactly when the full log does |
| `Connections.Connection.Probe` | src/connection.rs:327-339 | The probe accepts exactly what shows a fitting ClientHello, or the text of an IMAP or SMTP greeting, if that can be passed on; it leaves the socket right after the outcome that completes it, and has passed on exactly what came before |
| `Connections.Connection.AwaitTurn` | src/connection.rs:194-310 | One round of the loop: exactly the others' calls, then one turn with one charge, as the world of all sessions has it |
| `Connections.Connection.Pump` | src/connection.rs:186-310 | The whole loop: round `k` is for event `k` of the script, the session is open before every round and closed after the last, each charge has the ledger's answer at its point |
| `Connections.Connection.Run` | src/connection.rs:143-325 | Probe, loop and close together: the loop is reached exactly when no probe is required or, on port 993 or 465, a ClientHello naming the destination was seen and sent on, on 143 a greeting "* ", on 587 a greeting "220 " or "220-"; both directions are transparent from the first byte; the session runs to its end along the script from where the probe left the sockets; what it forwards is in the deliveries of its trace, which keep the quota of every key in every window; the lease is released, or still held after a failed probe |
| `Connections.Connection.Drop` | src/limits.rs:363-367 | What a connection still holds is given back when it goes out of scope |
| `Connections.QuotaKept` | src/connection.rs:126-136 | The deliveries of any trace of the limiter keep the byte quota |
| `Neighbours.Others.Make` | src/limits.rs:226-340 | One call by anyone, with its answer, is one ledger step; it creates at most the row of its own key |
| `Neighbours.Others.Meanwhile` | src/limits.rs:221-340 | Others make exactly the calls they were going to make, on the same limiter; each lease they drop is the one they name among those they were granted, and none that is not theirs is touched |
| `Scripts.FollowedBytes` | src/connection.rs:205-307 | The events of a script bring the bytes of both sockets in order and without gaps |
| `Traces.LoopGoesOn` | src/connection.rs:194-310 | A further round of an open session continues the loop's trace along its script |
| `Traces.WholeConnection` | src/connection.rs:143-325 | Opening, running and releasing, seen from the start of the trace: the session's turns are those of the loop, and the ledger ends without the lease |
| `Traces.WholeStreams` | src/connection.rs:143-325 | Whatever a whole connection has moved, from its first byte, is a prefix of what either socket had to offer |
| `Server.ProxyHandler` | src/server.rs:344-412 | The ledger at the end is that of the request's trace: one attempt first, its key tracked exactly if the limiter keeps a row for it; others' calls while it resolves and dials, whose failures decide the answer before a slot is asked for; then one call for a slot, and if that is granted exactly one release, last of all; nothing leaks |
| `Server.Connect` | src/server.rs:354-379 | No slot is asked for unless resolving and dialling succeed |
| `Server.TakeSlot` | src/server.rs:381-412 | A slot is refused exactly when the ledger says so, and is released however the session or the upgrade ends |
| `Server.HoldLease` | src/server.rs:392-412 | From the grant on: a failed upgrade or probe only releases the lease; otherwise the session runs to its end along its script, and then the lease is released |
| `Server.HandledLeaksNothing` | src/server.rs:344-412 | After any handled request, the live leases are those that others were granted meanwhile and those of before that others did not release |
| `Server.TokenEq` | src/server.rs:161-170 | True exactly when the two tokens are equal, although lengths differ and differences are folded with xor and or |
| `TlsProbe.ProbeTlsSni` | src/connection.rs:341-397 | Accepts exactly when the write succeeds and, at some data message, with no close, error or wait past 16384 bytes before, the stream first holds a whole handshake record of 1 to 16384 bytes whose ClientHello names the destination's host up to spelling, or for a literal is at least well formed; what it sends is the stream up to that message |
| `TlsProbe.AcceptsExactly` | src/proto.rs:78-103 | The same of the verdict by itself, told without the functions it is made of |
| `TlsProbe.EncodedHelloJudged` | src/proto.rs:78-171 | Every ClientHello of the grammar, in any fragmentation and with anything behind it: accepted exactly when its first host name is UTF-8 and the destination's up to spelling, or for a literal when it has none or a readable one, and no boundary makes the probe give up |
| `TlsProbe.WholeHelloJudged` | src/proto.rs:78-171 | Sent whole in one message, a ClientHello is accepted for a host exactly when its first host name normalises to what the host does |
| `TlsProbe.CompletionExactly` | src/connection.rs:346-385 | The probe completes at the first message boundary past the record, exactly when no boundary lies past the buffer limit before that |
| `TlsProbe.VerdictExactly` | src/connection.rs:341-397 | The verdict on a stream with a whole first record is that of the record alone, given such boundaries |
| `TlsProbe.FragmentationIndependent` | src/connection.rs:346-385 | If the first record declares at most 16380 bytes, every split into messages with pings and pongs in between gives the same verdict |
| `TlsProbe.IndependentExactly` | src/connection.rs:346-385 | For every stream with a whole first record: fragmentation makes no difference exactly when the record declares at most 16380 bytes or is refused anyway |
| `TlsProbe.FragmentationMatters` | src/connection.rs:375-379 | The exception is real: one stream accepted whole and rejected in two messages |
| `TlsProbe.IncompleteRejected` | src/connection.rs:374-384 | A stream that never holds a whole record, or is refused, is rejected in every fragmentation |
| `Tls.NeededExactly` | src/proto.rs:52-76 | Complete, how many bytes short, not TLS, or malformed, exactly by the type 22, the major version 3 and a declared length of 1 to 16384 in network order |
| `Utf8.DecodeExactly` | src/proto.rs:163 | Bytes decode to a text exactly when they are its UTF-8 encoding (RFC 3629 section 3) |
| `Utf8.NameExactly` | src/proto.rs:162-168 | A host name is exactly the encoding of a text that is not empty |
| `Tls.NeededIsStable` | src/proto.rs:52-76 | An error or "complete" answer about a prefix stays when bytes are added |
| `Tls.ValidationIgnoresRest` | src/proto.rs:78-103 | Validation does not look past the first record |
| `Tls.ParseSni` | src/proto.rs:105-147 | The cursor loops compute the recursive reading of the nested lists |
| `Tls.ParseSniExtension` | src/proto.rs:149-171 | The same for the list of server names |
| `ClientHellos.EncodedHelloUnderstood` | src/proto.rs:105-171 | For every ClientHello of the grammar, the parser returns the first host name of the first server-name extension, or none, or the error for an empty or ill-formed name (RFC 8446 section 4.1.2, RFC 6066 section 3) |
| `ClientHellos.SomeIffLayout` | src/proto.rs:105-171 | The parser returns a name exactly for the records laid out by the grammar up to that name, and it is the subslice laid out there |
| `ClientHellos.NoneIffLayout` | src/proto.rs:105-171 | No name and no error is the answer exactly for the records laid out without an extension block, without a server-name extension, or without a host name in it |
| `ClientHellos.EncodedRecordComplete` | src/proto.rs:52-76 | The encoding of a ClientHello is a complete record, whatever follows it |
| `GreetingProbe.CollectGreeting` | src/connection.rs:405-433 | At most 512 reads and 767 bytes, stopping at the first complete buffer |
| `GreetingProbe.Probe` | src/connection.rs:399-443 | Accepts exactly when the write succeeds and the reads, of 1 to 256 bytes each, first hold a line feed or 512 bytes with a buffer that is CR, LF, spaces and tabs and then the text "* ", for SMTP "220 " or "220-"; sends exactly what it read |
| `GreetingProbe.GreetingExactly` | src/proto.rs:173-201 | For both kinds and every buffer: valid exactly when it is such white space followed by such a text |
| `GreetingProbe.AcceptsExactly` | src/connection.rs:405-443 | The verdict of the whole probe in these terms |
| `GreetingProbe.VerdictExactly` | src/proto.rs:173-205 | For streams without a line feed before the first line, the verdict is read off the stream, whatever the split into reads of 1 to 256 bytes |
| `GreetingProbe.IndependentExactly` | src/connection.rs:405-433 | For every stream that ends the probe: the split makes no difference exactly when the shortest prefix that ends the probe shows the greeting, or the longest one, a read of 256 bytes later, still does not |
| `GreetingProbe.VerdictBetween` | src/connection.rs:405-433 | Whatever the split, the verdict is that of a prefix between those two |
| `GreetingProbe.FirstByteIsOrderly` | src/proto.rs:173-205 | Streams that do not start with white space are among them |
| `GreetingProbe.LeadingLineFeedMatters` | src/proto.rs:203-205 | Otherwise two splits of the same bytes can differ |
| `Addresses.LimitKeyIdempotent` | src/limits.rs:93-115 | The key of a key is itself, for all prefix lengths |
| `Addresses.MaskingStaysUnmapped` | src/limits.rs:107-113 | A masked address that is not IPv4-mapped never becomes mapped |
| `Addresses.LimitKeyClasses` | src/config.rs:204-241 | Two clients share a key exactly when the CIDR block of the first, unmapped, with the configured prefix contains the second; a mapped address is never in the class of a plain IPv6 one |
| `Addresses.LimitKeyIntervalV4` | src/limits.rs:93-106 | The addresses that share an IPv4 budget are one aligned interval, mapped ones included |
| `Addresses.LimitKeyIntervalV6` | src/limits.rs:102-115 | The same for IPv6, without the mapped ones |
| `Addresses.PlainV6NetworkMayContainMapped` | src/config.rs:215-241 | The exception: a mapped address inside a plain IPv6 block |
| `Addresses.ContainsExactly` | src/config.rs:204-241 | For every block and address: contained exactly when in the aligned interval that the prefix length leaves, of IPv4 addresses with mapped ones, of IPv6 ones, or, for a mapped address in a block written as a mapped one, of IPv4 addresses with at most 32 bits |
| `Addresses.MappedBlockExactly` | src/config.rs:215-225 | A block written as a mapped address holds the mapped addresses that its 128 bits say exactly when its prefix length is 0 or 128 |
| `Bits.MaskTruncates` | src/limits.rs:101-112 | A prefix mask rounds down to the start of the block |
| `Routability.Ipv4InIsInterval` | src/dest.rs:414-420 | Every IPv4 mask test is membership in the integer interval of its prefix |
| `Routability.Ipv6InIsInterval` | src/dest.rs:422-430 | The same for IPv6 |
| `Routability.IsGlobalV4IsComplement` | src/dest.rs:316-348 | The addresses that may be dialled are the complement of an explicit union of thirteen intervals |
| `Routability.IsGlobalV6IsComplement` | src/dest.rs:350-379 | The same for IPv6 addresses that embed no IPv4 one |
| `Routability.EmbeddedExactly` | src/dest.rs:384-412 | An IPv4 address is recovered from exactly its mapped, compatible, NAT64 and 6to4 forms |
| `Routability.EmbeddingKeepsClass` | src/dest.rs:350-412 | Classification commutes with all four embeddings and any free suffix |
| `Routability.UnmapKeepsClass` | src/dest.rs:309-314 | A mapped address may be dialled exactly when the IPv4 address it stands for may |
| `LooseIpv4.ParseLooseIpv4` | src/dest.rs:174-209 | The loop over the parts with its shifts and ors computes the mixed-radix reading, and `None` exactly where that has none |
| `LooseIpv4.FourPartShifts` | src/dest.rs:200-206 | Shifts and ors equal the mixed-radix sum |
| `LooseIpv4.SpelledResult` | src/dest.rs:174-231 | One to four parts in any mix of decimal, octal and hexadecimal parse to their mixed-radix value, and to none exactly when a part is out of range |
| `LooseIpv4.SpellingParses` | src/dest.rs:174-231 | Every spelling of every address parses to it |
| `LooseIpv4.ParsedIsSpelling` | src/dest.rs:174-231 | Nothing else parses: a text that yields an address is one of its spellings |
| `Destinations.ParseExactly` | src/dest.rs:75-135 | Which texts are accepted, as what: trimmed, split at the one colon or behind the bracket, a port from 1 to 65535, and a host that is an IPv4 address in any loose spelling, an IPv6 address, or else a valid name in normal form; the order in which the readers are tried makes no difference |
| `Destinations.SplitExactly` | src/dest.rs:81-94 | Host and port are split exactly as `[host]:port` without `]` in the host, or `host:port` with a host that is not empty, has no colon and starts with no bracket |
| `Destinations.PortExactly` | src/dest.rs:99-102 | A port is an optional plus sign and decimal digits of that value |
| `Destinations.StrictExactly` | src/dest.rs:104-110 | The strict reader accepts exactly the canonical text of an address |
| `Destinations.HostnameExactly` | src/dest.rs:141-171 | A valid hostname is 1 to 63 letters, digits and hyphens per label, no hyphen at either end of one, with dots between, and 253 characters at most |
| `Destinations.NormalExactly` | src/dest.rs:137-139 | Normalising takes white space off both ends, then all trailing dots, and lowers each letter |
| `Destinations.AnyCaseAccepted` | src/dest.rs:75-139 | Every valid lower-case name that is no loose address is reached by every spelling of it in upper and lower case, with any trailing dots, and any port but 0 |
| `Destinations.BracketedAccepted` | src/dest.rs:81-110 | Every IPv6 address whose text reads back is reached by that text in brackets, as the literal with its canonical host |
| `Destinations.LooseIgnoresCase` | src/dest.rs:174-231 | Letter case has no bearing on a loose address |
| `Text.LowerExactly` | src/dest.rs:138 | Each letter of the capital alphabet becomes the one at its place in the small alphabet, and nothing else changes |
| `Text.DigitExactly` | src/dest.rs:211-231 | A digit is worth its place in "0123456789abcdef", either case, and no other character is one |
| `Text.SpaceExactly` | src/dest.rs:76 | White space is a list of 25 characters |
| `Text.TrimExactly` | src/dest.rs:76 | Trimming takes white space off both ends, all of it and nothing else |
| `Remotes.AcceptedHostIsNormal` | src/dest.rs:75-146 | An accepted hostname is valid, in lower-case letters, digits, hyphens and dots, and a fixed point of normalisation |
| `Remotes.NormalizeTwice` | src/dest.rs:137-146 | Normalisation is idempotent exactly on texts with no white space behind the trailing dots |
| `Remotes.NormalizeIsNotIdempotent` | src/dest.rs:137-146 | A text on which it is not |
| `Remotes.DestKeyInjective` | src/dest.rs:68-72 | Destinations with different host or port have different keys |
| `Remotes.HostnameRoundTrip` | src/dest.rs:75-135 | An accepted hostname survives the trip through its key exactly when the loose reader finds no IPv4 address in it |
| `Remotes.HostnameRoundTripFails` | src/dest.rs:104-118 | A family of accepted hostnames that do not |
| `Remotes.HostnameRoundTripFailsOn` | src/dest.rs:104-118 | One of them: `1.:993` |
| `Remotes.Ipv4RoundTrip` | src/dest.rs:75-135 | Every IPv4 literal survives the trip |
| `Remotes.RoundTripExactly` | src/dest.rs:75-135 | Of all accepted destinations, exactly the IPv4 literals and the hostnames without a loose reading survive the trip through their key |
| `Remotes.Ipv6KeyRefused` | src/dest.rs:87-94 | The key of an IPv6 literal has no brackets and is refused |
| `Remotes.StrictIsLoose` | src/dest.rs:174-231 | Whatever the strict reader accepts, the loose one reads alike |

## Left out

- Replays.Replay: with a cap on tracked keys, whether an inactive key that was touched before still has a stale row is taken from the limiter; the answers depend on it only when the cap is reached.
- Neighbours.Others.Meanwhile: other people's calls are a list that is fixed beforehand, of which only the answers depend on the limiter; since the list is arbitrary this covers every behaviour of theirs.
- Sessions.Transparent: a failed WebSocket send counts as any prefix of its message.
- Remotes.RoundTripExactly: the text form of IPv6 addresses is a parameter, of which only this is assumed: it contains a colon, and is written without brackets and without a leading space.
- Connections.Connection.Pump: a schedule of ready branches is finite and ends with the deadline, also where the source sets none; every finite part of a longer session is covered.
- Tls.ParseSni: a Rust `String` is a sequence of characters decoded from well-formed UTF-8.
- Case folding is that of ASCII, as in the source; white space is the full Unicode set.
- Bytes forwarded by the probes are not charged by the source, so the byte bounds are about the event loop.
- Tokio, axum, sockets, DNS resolution and `select!` are lists of outcomes; cancellation and partial timeouts inside an await are not modelled.
- The order in which the close frame and the TCP shutdown are sent, and their failures, which change nothing that is modelled.
- PASETO tokens, origin, host and header selection, port and address policy, status and message tables, metrics, logging, environment parsing, the deployment files.
- Mutex poisoning, and wrap-around of the live-connection counters, which are natural numbers.
- Reading CIDR blocks from text.
