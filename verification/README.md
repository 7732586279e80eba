# GhostNet, modelled and proved in Dafny

GhostNet is a TCP relay. This project models its algorithmic cores and proves what they promise:

- **TLS ClientHello codec** (`Wire`, `Sni`, `Fingerprint`, `ClientHello`, `RoundTrip`, `Ja3Text`, `Ja3`,
  `ReadBack`).
  `Wire` holds the walk through the nested length prefixes and an independent grammar of the same byte
  strings; the two SNI readers, the accumulator, the builder and the fingerprint printer are methods proved
  against it. `ReadBack` takes a built record apart again, byte by byte, without the writers' functions.
  Formats follow sections 4.1.2, 4.2 and 5.1 of RFC 8446, section 3 of RFC 6066, section 2 of RFC 8701,
  section 3 of RFC 7685, section 3.1 of RFC 7301 and section 3.2 of RFC 5746.
- **Relay** (`Relay`). Connections are scripts: what the peer delivers, in pieces of any size and with any
  error, and how writes end. Closing, deadlines and the opposite direction act only through these scripts.
- **Rate limiter** (`RateLimiter`, `RateRace`) and **worker pool** (`WorkerPool`). The limiter is refined against
  one with full history, first with atomic requests and then with its two locks. The pool is a state machine
  with one atomic step per channel, counter or wait-group operation.
- **Strategy cache and adaptive choice** (`LruCache`, `Adaptive`). The cache is an object with a map and a
  recency list of the same entries; the choice is a state machine of any number of concurrent calls.
- **Circuit breaker, latency average, selection, retry** (`Breaker`, `Router`).
- **Packets and segments** (`InternetSum`, `Packet`, `Segments`). Section 1 of RFC 1071, section 3.1 of
  RFC 791, sections 3.1 and 3.4 of RFC 9293.
- **Metrics** (`Metrics`). The latency ring with its percentiles, and the connection ledger.
- **Shared** (`Bytes`, `Seqs`, `Sorting`). Fixed-width integers, sums and concatenations, and a sort proved for
  any strict weak order.

Conventions. Bytes are integers in 0..255 and every truncation of the source (`uint16(len)`, `byte(len)`,
32-bit sums and sequence numbers) is written out. Time is an explicit integer; where a statement needs it, a
nondecreasing one. Random draws, probe and dial results, context cancellation and send results are arbitrary
inputs. A mutex section or an atomic operation is one step. Long Go functions are cut into a few methods
along their own stages; `hide` keeps byte arithmetic out of proofs that do not need it.

Where an obvious claim is false of the code the exact statement is proved instead:

- The two SNI readers can differ on records over 16384 bytes and on entries with a name_type other than 0
  (`Relay.ReadersAgree`; inputs in `Relay.ReadersDisagreeOnLength` and `Relay.ReadersDisagreeOnType`).
- A ClientHello beyond 65535 bytes is not read back, because its record length wraps (`RoundTrip.ExtractRoundTrip`,
  `RoundTrip.LongNamesAreLost`), and beyond 65535 bytes of extensions its fingerprint is wrong
  (`Ja3.ShippedFingerprints`, `Ja3.LongNameFingerprint`).
- `JA3String` slices past the end of records whose session or compression length points beyond them
  (`Ja3.PanicsExactly`, `Ja3.PanicIsReachable`); the model returns `Panic` there.
- The active-connection counter is too low by the number of failed connections. The connection limit is looser
  by that number and, because it is read before a handler counts itself, by the handlers waiting to start
  (`Metrics.ActiveIsShortByFailures`, `Metrics.BoundIsReached`, `Metrics.LimitIsExceeded`).
- A cleanup can delete a bucket that a request has looked up but not yet decided in; then one address can exceed
  its limit (`RateRace.DecisionIsExact`, `RateRace.LimitIsOverrun`).
- With n dials to one endpoint under way at once, threshold + n - 1 can fail before the breaker stops them
  (`Breaker.DialFailuresAreBounded`, `Breaker.DialBoundIsReached`).
- A packet with its checksum inverted passes verification if its checksum was 0x0000 (`Packet.FlippedFails`,
  `Segments.BadChecksumCanVerify`).
- `BytesIn` leaves out the peeked bytes, and a failed first write reports no bytes at all (`Relay.RelayWithSNI`).
- An adaptive call tries two strategies, not the whole chain (`Adaptive.AtMostTwoAttempts`).
- An empty fragment payload is a failure that no counter sees (`Segments.InjectFragments`).
- A latency average can rest up to seven below a constant sample (`Breaker.RestingValues`).

`docs/en/technical.md:81` speaks of weighted endpoints; `Pick` has no weights, and the model follows the code.

## Model

| member | source | states |
|---|---|---|
| Wire.LocateIffGrammar | internal/tls/sni.go:7-77 | the nested-length walk both SNI readers make finds a server_name body in exactly the byte strings of an independent grammar of ClientHello records carrying that body |
| Wire.AssembledIsLocated | internal/tls/sni.go:14-75 | completeness: whatever bytes trail at any of the four nesting levels, the body of the first server_name extension is found |
| Wire.LocatedIsAssembled | internal/tls/sni.go:14-75 | soundness: a found body comes with a full decomposition of the input into version, head, vectors, earlier extensions and trailing bytes |
| Wire.LocateIsStable | internal/tls/sni.go:7-77 | a decided walk is unchanged by any further bytes of the stream |
| Sni.SniOfBlock | internal/tls/sni.go:55-76 | the extension loop returns the host name of the first server_name extension, or nothing |
| Sni.CutExtensions | internal/tls/sni.go:26-54 | the cursor arithmetic yields the extension block exactly when all four vectors fit, and indexes only in bounds |
| Sni.ExtractSNI | internal/tls/sni.go:7-77 | answers what the located body says, and waits for more bytes if and only if, in plain numbers, there are fewer than 5, or byte 0 is 0x16 and the declared record is incomplete or is a complete ClientHello record whose handshake length exceeds it |
| Sni.UnfinishedExactly | internal/tls/sni.go:7-25 | that condition, stated on the bytes alone: on everything else, such as a stream that is not TLS, the answer is final |
| Sni.HostNameExactly | internal/tls/sni.go:62-75 | a nonempty name is read from a body if and only if its first entry is a host_name of that length and those bytes |
| Sni.ExtractIsStable | internal/tls/sni.go:7-101 | once ExtractSNI is done on a prefix its answer is the same on every extension |
| Sni.SNIAccumulator.constructor | internal/tls/sni.go:84-89 | an empty buffer; a non-positive maximum becomes 16384 |
| Sni.SNIAccumulator.Feed | internal/tls/sni.go:91-97 | appends the chunk and answers for the whole buffer, giving up with a final empty answer beyond maxSize; it is unfinished exactly when the buffer is within maxSize and its bytes are |
| Sni.FeedingIsExtracting | internal/tls/sni.go:91-97 | for a stream that fits, the first final Feed answer is ExtractSNI of the whole stream |
| Sni.ChunkingIsIrrelevant | internal/tls/sni.go:91-97 | two ways to cut the same fitting stream get the same first final answer |
| Relay.ParseBlock | internal/proxy/relay.go:241-264 | parseSNI's extension loop returns the first name whatever its name_type |
| Relay.ParseExtensions | internal/proxy/relay.go:196-241 | parseSNI's differently ordered length checks accept the same hellos and cut the same block as ExtractSNI's |
| Relay.ShortHello | internal/proxy/relay.go:197-199 | the extra 38-byte check rejects only hellos the other reader rejects as well |
| Relay.ParseSNI | internal/proxy/relay.go:173-265 | the second reader in terms of the same locator, with its 16384-byte limit and without a name_type check; it waits if and only if the bytes do, except that a complete record over 16384 bytes is final |
| Relay.ParseWaitsExactly | internal/proxy/relay.go:173-194 | when parseSNI waits, stated on the bytes alone |
| Relay.ReadersAgree | internal/proxy/relay.go:181-183 | the two readers give the same answer if and only if a stated condition on the record length and the found body holds; in particular for records up to 16384 bytes with name_type 0 |
| Relay.ReadersDisagreeOnLength | internal/proxy/relay.go:181-183 | a 16385-byte record with an unfinished handshake: parseSNI is final, ExtractSNI still waits |
| Relay.ReadersDisagreeOnType | internal/proxy/relay.go:253-262 | a name_type 1 entry: parseSNI returns its name, ExtractSNI none |
| Relay.ParseIsStable | internal/proxy/relay.go:147-171 | once parseSNI is done on a prefix its answer is the same on every extension |
| Relay.CompleteRecordDecides | internal/proxy/relay.go:181-194 | with the whole record present the answer never changes, even an unfinished one |
| Relay.DeliverConserves | internal/proxy/relay.go:95-118 | one read of any size conserves the stream, its error and a decreasing measure |
| Relay.PeekOnce | internal/proxy/relay.go:155-167 | one read, and the parser's word on all bytes so far when there are new ones |
| Relay.ReadSNI | internal/proxy/relay.go:147-171 | for every chunking of the client's bytes the peek stops at exactly the first read that fails, fills the limit or makes the answer final; it consumes a prefix shorter than the limit plus one buffer; any name it returns is the one parseSNI gives on the whole stream, and it returns that one whenever the first record fits the limit |
| Relay.CopyOnce | internal/proxy/relay.go:95-108 | one turn of the loop: what was read, what part of it was written, and what is left to read |
| Relay.CopyLoop | internal/proxy/relay.go:77-119 | the bytes written are a prefix of the bytes read, all of them when no write fails; the count equals the callback sum; end of file and timeout are clean; the pooled buffer ends all zero |
| Relay.RelayBoth | internal/proxy/relay.go:23-75 | both directions: each side receives a prefix of what was read from the other, all of it if no write to it fails, with the byte counts and the sums of the callbacks |
| Relay.RelayWithSNI | internal/proxy/relay.go:121-145 | each side receives a prefix of what was read from the other, all of it if no write to it fails, whatever the SNI parsing does; the relay starts unless there are peeked bytes and the first server write fails; then the inbound callbacks sum to the delivered bytes and to BytesIn plus the peeked length, and BytesOut is what the client received and the outbound callbacks sum to |
| ClientHello.Buf.WriteUint24 | internal/tls/clienthello.go:187-189 | appends the low 24 bits, most significant byte first |
| ClientHello.Buf.WriteExtension | internal/tls/clienthello.go:191-195 | appends type, truncated 16-bit length and body |
| ClientHello.Buf.WriteUint16s | internal/tls/clienthello.go:161-163 | a loop of 16-bit writes appends the words in order |
| ClientHello.MakeSni | internal/tls/clienthello.go:97-105 | the server_name body: list length, name_type 0, name length, name |
| ClientHello.MakeWords | internal/tls/clienthello.go:110-117 | a 16-bit length and the words it covers, as for groups and signature algorithms |
| ClientHello.WriteProtocols | internal/tls/clienthello.go:122-126 | every protocol name behind its one-byte length, in order |
| ClientHello.MakeKeyShare | internal/tls/clienthello.go:135-142 | the key_share body of the drawn key; ReadBack.KeyShareBodyIs reads it |
| ClientHello.MakeVersions | internal/tls/clienthello.go:144-149 | a truncated byte length and the version words |
| ClientHello.MakePskModes | internal/tls/clienthello.go:155-158 | a truncated byte length and the mode bytes |
| ClientHello.BuildExtensions | internal/tls/clienthello.go:94-170 | fills the extension map with every body the profile, name and key share call for |
| ClientHello.WriteCiphers | internal/tls/clienthello.go:37-44 | optional GREASE value, the profile's suites, then 0x00FF |
| ClientHello.WriteExtensions | internal/tls/clienthello.go:46-57 | optional GREASE extension, then the ordered types that have a body |
| ClientHello.WriteHello | internal/tls/clienthello.go:68-78 | version, random, session, suites, null compression and the extension block, each behind its length |
| ClientHello.Build | internal/tls/clienthello.go:21-92 | returns the built record, or fails exactly when one of the three random reads fails |
| ReadBack.BuiltReadsBack | internal/tls/clienthello.go:21-170 | a built record read back from its bytes: every record and hello field, the extension types in order, and every extension body in plain numbers, among them the one X25519 key share with the drawn key, versions, protocols, algorithms, modes and status request |
| ReadBack.MappedBodyIs | internal/tls/clienthello.go:94-170 | each body of the extension map is what its type number calls for |
| ReadBack.KeyShareBodyIs | internal/tls/clienthello.go:135-142 | one entry of group 29, 32 bytes long, holding exactly the key |
| ReadBack.TypesAreTheOrder | internal/tls/clienthello.go:46-66 | for a profile whose order ends in padding the types listed are the order, with padding only if it was needed |
| ReadBack.ShippedOfferTheShare | internal/tls/fingerprint.go:53-227 | every obtainable profile can be read back, lists key_share and offers its group |
| ReadBack.ShippedEndInPadding | internal/tls/fingerprint.go:53-227 | every obtainable profile's order ends in padding, and all its other types have bodies |
| RoundTrip.PaddingIsExact | internal/tls/clienthello.go:59-66 | a padded hello body is target-2 bytes and its record target+7, within 503..535; an unpadded body is at least target-6 |
| RoundTrip.LengthsNest | internal/tls/clienthello.go:68-91 | while the handshake fits 16 bits, record, handshake, hello and extension lengths equal what they cover with nothing trailing |
| RoundTrip.BuiltIsLocated | internal/tls/clienthello.go:46-91 | the locator finds the SNI body in a built record exactly when the profile's order names the SNI type |
| RoundTrip.OverflowIsCut | internal/tls/clienthello.go:86-89 | a handshake beyond 65535 bytes is cut by its own truncated record length: the locator sees no name, waits, or reads what a hello of 2^24 bytes or more keeps of itself |
| RoundTrip.KeptNeedsSixteenMegabytes | internal/tls/clienthello.go:187-189 | below 2^24 bytes an overflowing hello is never readable |
| RoundTrip.ExtractRoundTrip | internal/tls/sni.go:7-77 | for every profile that names SNI, every name and draw, ExtractSNI(Build(sni)) gives sni back if and only if the handshake fits its record length, with the two accidental alternatives of huge profiles spelled out |
| RoundTrip.ParseRoundTrip | internal/proxy/relay.go:173-265 | the same for parseSNI, if and only if the handshake is at most 16384 bytes, with its accidental alternatives |
| RoundTrip.ShippedRoundTrips | internal/tls/fingerprint.go:53-227 | for every obtainable profile, name and draw both round trips hold exactly under those two length conditions, without exceptions |
| RoundTrip.HostNamesRoundTrip | internal/tls/clienthello.go:21-92 | every name of up to 14000 bytes in every obtainable profile is read back by both readers |
| RoundTrip.LongNamesAreLost | internal/tls/clienthello.go:86-89 | every name from 65448 bytes on in every obtainable profile is lost to ExtractSNI, from 16297 bytes on to parseSNI |
| Fingerprint.MaskTestIsNibbleTest | internal/tls/clienthello.go:290-292 | the mask-and-shift test is the nibble test on all 16-bit patterns |
| Fingerprint.GreaseIsTable | internal/tls/fingerprint.go:11-15 | isGREASE holds exactly on the sixteen table values |
| Ja3Text.JoinUint16 | internal/tls/clienthello.go:294-303 | prints decimal numbers separated by dashes |
| Ja3Text.RenderReads | internal/tls/clienthello.go:277-287 | a reader that cuts at commas and dashes and values digits by their distance from '0' finds 771, ciphers, types, groups and points, in that order, without leading zeros |
| Ja3Text.RenderIsInjective | internal/tls/clienthello.go:277-287 | a printed fingerprint determines its cipher, extension, group and point lists |
| Ja3.CollectWords | internal/tls/clienthello.go:236-242 | collects the non-GREASE words before the shorter of two lengths |
| Ja3.GroupWords | internal/tls/clienthello.go:259-268 | the groups of one extension, cut at the shorter of its two lengths |
| Ja3.WalkFrame | internal/tls/clienthello.go:197-234 | reaches the cipher list and extension block, stops short, or overruns, as the lengths dictate |
| Ja3.CollectExtensions | internal/tls/clienthello.go:244-275 | collects extension types, all groups and the last complete point list, skipping GREASE |
| Ja3.JA3String | internal/tls/clienthello.go:197-288 | where the lists fit it prints text that reads as 771, the visible ciphers, types, groups and points; it slices past the end exactly when a caller can see it on the bytes |
| Ja3.PrintsExactly | internal/tls/clienthello.go:197-234 | the lists lie at offsets computed from the session, cipher, compression and extension lengths; it prints them if and only if all four fit, and otherwise nothing or panics |
| Ja3.OneExtensionRead | internal/tls/clienthello.go:259-274 | extension 10 adds the groups up to the shorter of its two lengths, extension 11 replaces the points if it is complete, others do neither |
| Ja3.WordsAreNumbers | internal/tls/clienthello.go:236-242 | the words of a list are the numbers at its even offsets |
| Ja3.PanicsExactly | internal/tls/clienthello.go:207-225 | it slices past the end if and only if the session or the compression length points beyond the record, as a caller can check on the bytes |
| Ja3.PanicIsReachable | internal/tls/clienthello.go:207-210 | 43 zero bytes and a 1 are such a record |
| Ja3.BuiltFrame | internal/tls/clienthello.go:197-234 | no length above the hello is read: while the ciphers fit 16 bits, a built record shows its ciphers and its extension block cut to the block's own truncated length |
| Ja3.BuiltLists | internal/tls/clienthello.go:46-66 | while its groups fit their length, the lists read from a built hello are the profile's, plus padding when it was added |
| Ja3.FingerprintIsCanonical | internal/tls/clienthello.go:21-92 | while ciphers and extension block fit their 16-bit lengths, JA3String(Build(..)) depends only on the profile and on whether padding was added |
| Ja3.CanonicalReads | internal/tls/clienthello.go:277-287 | the canonical text reads as 771, the profile's visible ciphers and 255, its carried types with 21 last when padded, its groups and points |
| Ja3.ChromeReads | internal/tls/fingerprint.go:53-95 | the Chrome profile's fingerprint in the numbers it prints |
| Ja3.ShippedFingerprints | internal/tls/clienthello.go:226-234 | for every obtainable profile, draw and name of up to 65530 bytes the print is canonical if and only if the extension block is below 65536 bytes |
| Ja3.LongNameFingerprint | internal/tls/clienthello.go:226-234 | every obtainable profile prints a wrong fingerprint around a 65530-byte name |
| Ja3.FingerprintDetermines | internal/tls/clienthello.go:197-288 | equal fingerprints of two built hellos whose lists fit mean equal visible ciphers, types and groups and the same padding decision |
| RateLimiter.Limiter.Compact | internal/proxy/server.go:213-220 | the in-place compaction keeps exactly the times inside the window, in order |
| RateLimiter.Limiter.Allow | internal/proxy/server.go:191-227 | the decision and the new bucket, for known and unknown addresses |
| RateLimiter.Limiter.Cleanup | internal/proxy/server.go:242-254 | deletes exactly the buckets last seen over 120000000000 nanoseconds ago |
| RateLimiter.LimiterIsReference | internal/proxy/server.go:191-254 | over every run with an advancing clock the forgetting limiter grants exactly what a limiter with full history grants |
| RateLimiter.NextDecision | internal/proxy/server.go:211-226 | after any run a request is allowed if and only if its address has fewer than limit grants in the last 1000000000 nanoseconds, counted in the log |
| RateLimiter.RateIsBounded | internal/proxy/server.go:191-254 | no closed window of 1000000000 nanoseconds holds more than limit grants of one address, counted in the log |
| RateRace.DecisionIsExact | internal/proxy/server.go:191-227 | with lookup and locked decision as separate steps beside a running cleanup, each bucket decides exactly on its own grants: no denial is wrong, and a grant is one too many if and only if the bucket's recent grants are below the limit and the address's are not |
| RateRace.BucketRateIsBounded | internal/proxy/server.go:207-226 | under every interleaving no closed one-second window holds more than limit grants of one bucket |
| RateRace.CarefulIsReference | internal/proxy/server.go:242-254 | if no bucket is found stale while a request holds it, every decision is the one full history gives |
| RateRace.CarefulRateIsBounded | internal/proxy/server.go:242-254 | and no closed one-second window holds more than limit grants of an address |
| RateRace.LimitIsOverrun | internal/proxy/server.go:242-254 | a cleanup between the first lookup of an address and its decision lets that request and the next one of the same instant through under a limit of one |
| WorkerPool.RunKeepsInvariant | internal/proxy/server.go:118-170 | counter, wait-group and phase invariants and the place of every task hold under every interleaving |
| WorkerPool.NoTaskTwice | internal/proxy/server.go:139-161 | at every moment a submitted task is in exactly one place, so it finishes at most once |
| WorkerPool.QueuedIsExact | internal/proxy/server.go:147-161 | queued equals the buffered tasks plus those mid-handoff and is never negative; the buffer never exceeds four per worker |
| WorkerPool.OverflowOnlyWhenFull | internal/proxy/server.go:147-161 | a task is turned away to a goroutine of its own exactly when all four slots per worker are taken |
| WorkerPool.NoSendAfterClose | internal/proxy/server.go:79-87 | after the channel is closed no submit, send or second close can happen |
| WorkerPool.DrainedIsDone | internal/proxy/server.go:163-167 | when drain returns every submitted task has finished exactly once and both counters are zero |
| WorkerPool.ClosedPoolMoves | internal/proxy/server.go:163-167 | a closed pool that is not drained always has a next step |
| WorkerPool.DrainTerminates | internal/proxy/server.go:163-167 | every schedule of a closed pool is bounded, so drain returns if the tasks do |
| WorkerPool.SubmitNeverBlocks | internal/proxy/server.go:147-161 | inside submit the accept loop always has an enabled step, however full the pool is |
| LruCache.Cache.constructor | internal/bypass/adaptive.go:53-60 | an empty cache with the given capacity and time to live |
| LruCache.Cache.Get | internal/bypass/adaptive.go:62-77 | miss, expiry with removal, or hit with a move to the front; map and list stay linked |
| LruCache.Cache.Set | internal/bypass/adaptive.go:79-101 | refresh and move to the front, or push after dropping the oldest of a full list |
| LruCache.RunKeepsInvariant | internal/bypass/adaptive.go:45-101 | distinct keys, size at most cap, recency order, fresh entries and justified absences after every run |
| LruCache.EvictionIsDeserved | internal/bypass/adaptive.go:90-96 | the evicted key has seen at least cap distinct other keys set or hit since its own last touch |
| LruCache.HitIsLatest | internal/bypass/adaptive.go:69-76 | a hit returns the latest set value within its time to live |
| LruCache.LiveKeyIsFound | internal/bypass/adaptive.go:62-101 | a set, unexpired key with fewer than cap other keys touched since is always found, with its latest value |
| Adaptive.Recorder.RecordBypassStrategy | internal/metrics/collector.go:163-183 | adds one to the one named counter of the strategy and changes no other counter of any strategy |
| Adaptive.RecordAddsOne | internal/metrics/collector.go:163-183 | creating counters on first use counts as zero: exactly one counter of one strategy moves, by one |
| Adaptive.Next | internal/bypass/adaptive.go:279-290 | the follow-up strategy is always a different, real one, so a failed first run is always followed by a second |
| Adaptive.SecondFollowsFirst | internal/bypass/adaptive.go:175-190 | after every interleaving a call's second run uses the one strategy that follows the one its first run failed with, for the same key: wrong_seq, fragment, desync_bad_cs, desync_ttl in a ring |
| Adaptive.Inject | internal/bypass/adaptive.go:167-198 | one call's effect on cache and recorder and its result, for every outcome of its at most two runs |
| Adaptive.InjectOutcome | internal/bypass/adaptive.go:167-198 | in plain words: cached strategy or wrong_seq first, the following one second; a success is cached for exactly ten minutes and counted, a failure returns the first strategy and is counted once |
| Adaptive.InjectKeepsRoom | internal/bypass/adaptive.go:79-101 | the cache stays within 4096 keys and below that a call drops no key but its own |
| Adaptive.InjectIsARun | internal/bypass/adaptive.go:167-198 | a call running alone is a run of the concurrent machine with the same effect on cache, per-strategy counters and result |
| Adaptive.RunKeepsInvariant | internal/bypass/adaptive.go:167-290 | the invariants below hold under every interleaving of any number of calls |
| Adaptive.CachedHasWorked | internal/bypass/adaptive.go:183-193 | a cached strategy is one of the four real ones and has succeeded for that key |
| Adaptive.DesyncIsEarned | internal/bypass/adaptive.go:279-290 | desync_bad_cs runs for a key only after fragment succeeded for it, desync_ttl only after desync_bad_cs did |
| Adaptive.AtMostTwoAttempts | internal/bypass/adaptive.go:175-190 | no call runs more than two strategies |
| Adaptive.RecorderIsExact | internal/bypass/adaptive.go:175-197 | with no call in flight, for every strategy: recorded successes equal its successful runs and the calls that returned it, recorded failures equal the calls it failed as the first strategy |
| Adaptive.RecordedTotal | internal/bypass/adaptive.go:175-197 | summed over the strategies, recorded successes are the calls without an error and recorded failures the failed first runs |
| Breaker.Endpoint.State | internal/routing/router.go:51-59 | reopens lazily after the cooldown and reports the state |
| Breaker.Endpoint.UpdateEwma | internal/routing/router.go:65-75 | the first sample is taken as is; later, eight times the new value is seven times the old plus the sample, up to the truncation below eight |
| Breaker.SampleWeighsAnEighth | internal/routing/router.go:65-75 | a sample leaves seven eighths of the distance to it, up to seven units of truncation |
| Breaker.Endpoint.RecordSuccess | internal/routing/router.go:77-84 | updates the average and closes the breaker |
| Breaker.Endpoint.RecordFailure | internal/routing/router.go:86-98 | counts, and trips for a cooldown at the threshold |
| Breaker.Endpoint.RecordProbe | internal/routing/router.go:189-219 | an alive probe promotes only an unhealthy endpoint; a dead one counts as a failure |
| Breaker.BreakerInvariant | internal/routing/router.go:51-98 | after every run: Open if and only if failures reach the threshold, Healthy means none, failures are the failure events since the last reset |
| Breaker.NextState | internal/routing/router.go:51-98 | what one more event does after any run: success revives, an alive probe all but an open endpoint, a failure counts and trips at the threshold, a query lifts an open state once the last failure's cooldown is over |
| Breaker.OpenExactly | internal/routing/router.go:51-98 | a query reports Open if and only if threshold failures stand since the last reset and the last one is within the cooldown |
| Breaker.TrippedStaysOpen | internal/routing/router.go:177-222 | a breaker tripped at t is open through t plus cooldown unless RecordSuccess intervenes, even if alive probes land |
| Breaker.DialFailuresAreBounded | internal/proxy/handler.go:164-183 | from any consistent breaker, with at most n dials to an endpoint at once, at most threshold+n-1 fail between two resets; threshold for n = 1 |
| Breaker.DialBoundIsReached | internal/proxy/handler.go:164-183 | that bound is reached for every threshold and every n |
| Breaker.AverageStaysWithin | internal/routing/router.go:65-75 | under any interleaving of racing loads and stores the average is 0 only before the first store and then within the sample bounds |
| Breaker.RestingValues | internal/routing/router.go:65-75 | the fixed points under a sample s are exactly s-7..s, approached monotonically from both sides |
| Breaker.AverageSettles | internal/routing/router.go:65-75 | under a constant sample the average reaches its resting value in finitely many steps and stays there |
| Router.LessIsStrictWeak | internal/routing/router.go:137-150 | the comparator is a strict weak order, unmeasured endpoints last |
| Router.SortCandidates | internal/routing/router.go:137-150 | a sorted permutation under that comparator |
| Router.RankInSorted | internal/routing/router.go:152-156 | in any sorted candidate list at most n usable endpoints are quicker than the one at position n and at most the rest slower, in plain latencies |
| Router.PickedIsAmongBestThree | internal/routing/router.go:133-156 | fewer than three usable endpoints have a smaller measured latency than the picked one, and fewer than three any if it has none |
| Router.Choose | internal/routing/router.go:133-156 | nothing for no candidates, else the candidate of the drawn rank among the best three |
| Router.Pick | internal/routing/router.go:121-157 | fails if and only if all endpoints are open, else returns a non-open one at the drawn rank: at most that many non-open ones have a smaller measured latency, and at most the remaining ones a larger one or none; every state is queried |
| Router.TraceIsDialled | internal/proxy/handler.go:154-186 | for every endpoint the dial loop is a run of the breaker's dialling machine with one dial at a time |
| Router.RefusalsAreBounded | internal/proxy/handler.go:176-183 | so no endpoint is refused more than threshold times between two resets, and each stays consistent |
| Router.DialOnce | internal/proxy/handler.go:164-184 | one attempt: a good pick, and a failure recorded exactly for a refused dial |
| Router.DialWithRetry | internal/proxy/handler.go:146-191 | at most max(1, RetryLimit+1) attempts and dials, each a good pick in the state left by recording the earlier failures, with the refusals of each endpoint bounded; ends at the first connection |
| InternetSum.InternetChecksum | internal/bypass/packet_linux.go:106-118 | the wrapped word sum, folded in at most two rounds and complemented |
| InternetSum.FoldRound | internal/bypass/packet_linux.go:114-116 | one folding round keeps the sum's residue modulo 65535 |
| InternetSum.NoOverflow | internal/bypass/packet_linux.go:107-113 | up to 131074 bytes the 32-bit accumulator holds the true sum |
| InternetSum.BoundIsTight | internal/bypass/packet_linux.go:107-113 | one byte more can overflow it |
| InternetSum.Verifies | internal/bypass/packet_linux.go:106-118 | data with its own checksum in the field verifies to zero, at any length |
| InternetSum.FlippedVerifies | internal/bypass/desync.go:101-104 | with the field inverted it verifies if and only if the checksum was 0 and the sum does not wrap |
| Packet.MarshalIp | internal/bypass/packet_linux.go:32-46 | writes the twenty IPv4 header bytes with their checksum |
| Packet.MarshalTcp | internal/bypass/packet_linux.go:72-87 | writes header and payload with the checksum over the pseudo header |
| Packet.TcpChecksumOf | internal/bypass/packet_linux.go:95-104 | the checksum over pseudo header and segment, with a 16-bit length |
| Packet.CraftPacket | internal/bypass/packet_linux.go:137-181 | the packet bytes with every field at its offset, or an error exactly when an address is not IPv4 |
| Packet.CraftedVerifies | internal/bypass/packet_linux.go:137-181 | every crafted packet verifies at the IP and, with the addresses it carries, at the TCP level |
| Packet.CraftedIsValid | internal/bypass/packet_linux.go:95-118 | up to the length its fields can describe, its header words and its pseudo header with segment add up to 0 modulo 65535, as the standards ask |
| Packet.TcpVerifiesIsValid | internal/bypass/packet_linux.go:95-118 | for segments below 65536 bytes the source's checksum is 0 exactly when that plain sum is 0 modulo 65535 |
| Packet.FlipChecksum | internal/bypass/desync.go:101-104 | the two exclusive ors with 0xFF complement bytes 36 and 37 in place and touch nothing else |
| Packet.CraftedFields | internal/bypass/packet_linux.go:32-87 | at their offsets lie version, total length, id, flags, the asked or drawn TTL, protocol 6, source, destination, ports, numbers, data offset, flags, window, checksum, zero urgent pointer and payload |
| Packet.FlippedFails | internal/bypass/desync.go:86-106 | at every length the packet with bytes 36-37 inverted passes TCP verification if and only if its checksum was 0x0000 and the wrapped sum of the rest is not all ones; up to 131042 payload bytes the second part always holds; its IP header still verifies |
| Packet.FlippedIsInvalid | internal/bypass/desync.go:101-104 | by that plain rule the inverted packet is dropped exactly unless bytes 36 and 37 were zero |
| Packet.FlippedCanVerify | internal/bypass/desync.go:86-106 | a packet whose checksum is 0x0000, so that the inverted one verifies |
| Segments.ChunkBytes | internal/bypass/fragment.go:126-140 | cuts data into the chunk list |
| Segments.ChunksPartition | internal/bypass/fragment.go:126-140 | the chunks are nonempty, at most size long and concatenate to the data |
| Segments.FragmentsInNumbers | internal/bypass/fragment.go:44-140 | pieces of the wanted size, single bytes by default from ten bytes on, else halves; all but the last exactly that long, and together the payload |
| Segments.PacketCarriesSegment | internal/bypass/packet_linux.go:137-181 | a packet shows its flow, its segment's numbers, flags and payload and its TTL, and verifies at both levels |
| Segments.InjectFragments | internal/bypass/fragment.go:44-117 | the packets sent carry the planned segments up to exactly the first one that is cancelled or not sent, none at all without IPv4 addresses; success means all of them; each nonempty call counts once |
| Segments.PlanIsContiguous | internal/bypass/fragment.go:65-108 | segments follow each other modulo 2^32 from SynSeq+1-N to SynSeq+1; the last carries flags 0x18, the others 0x10 |
| Segments.OutsideWindowIff | internal/bypass/fragment.go:65-108 | no sent byte lies in the receive window of W bytes at SynSeq+1 if and only if N+W is at most 2^32, also across wraparound |
| Segments.InjectWrongSeq | internal/bypass/wrongseq.go:50-113 | one packet with the segment at that base, sent exactly when nothing on the way fails, and exactly one counter bumped on every exit |
| Segments.WrongSeqPacket | internal/bypass/wrongseq.go:83-104 | that packet in numbers: flags 0x18, acknowledgement 0, the hello ending where the window starts |
| Segments.CraftDesync | internal/bypass/desync.go:86-143 | the packet of each method: a reset, one hop to live, or an inverted checksum |
| Segments.ResetPacket | internal/bypass/desync.go:108-123 | the reset is a valid 40-byte packet with flags 4, acknowledgement 0 and the number 65535 below SynSeq |
| Segments.TtlLimitedPacket | internal/bypass/desync.go:125-143 | the TTL-limited packet has TTL 1 whatever is drawn, flags 0x18 and the payload ending where the window starts |
| Segments.InjectDesync | internal/bypass/desync.go:50-84 | that packet is sent exactly when nothing on the way fails, and exactly one counter is bumped on every exit |
| Segments.SingleOutsideWindowIff | internal/bypass/wrongseq.go:83 | the single fake segment ends at SynSeq+1 and is outside the window under the same exact bound |
| Segments.BadChecksumPacket | internal/bypass/desync.go:86-106 | the bad-checksum packet end to end: its payload starts on the first byte of the window, byte k inside it if and only if k is below its size, and it passes a receiver's TCP check under the exact condition of the inverted checksum |
| Segments.BadChecksumCanVerify | internal/bypass/desync.go:86-106 | a connection on which that packet passes as valid, whatever is drawn |
| Metrics.LatencyWindow.constructor | internal/metrics/collector.go:21-23 | an empty window of 1024 slots |
| Metrics.LatencyWindow.Record | internal/metrics/collector.go:25-33 | appends a sample to the history the ring represents |
| Metrics.LatencyWindow.RingContents | internal/metrics/collector.go:25-33 | the ring holds exactly the multiset of the last min(N, 1024) samples |
| Metrics.LatencyWindow.Percentiles | internal/metrics/collector.go:35-54 | each reported value is the order statistic of its truncated index over those samples, and they are ordered |
| Metrics.SortedGivesStatistic | internal/metrics/collector.go:49-52 | index k of a sorted permutation is the k-th order statistic by counting |
| Metrics.Collector.ConnOpened | internal/metrics/collector.go:140-143 | counts one more active and one more in total |
| Metrics.Collector.ConnClosed | internal/metrics/collector.go:145 | counts one active less |
| Metrics.Collector.ConnFailed | internal/metrics/collector.go:151-154 | counts a failure and also one active less |
| Metrics.Collector.Handle | internal/proxy/handler.go:51-60 | a handler's net effect: a failed dial leaves the active counter one too low |
| Metrics.ActiveIsShortByFailures | internal/proxy/server.go:94-114 | outside ConnFailed active equals handlers in flight minus failed connections, so it is right if and only if none failed; since it is read before a handler counts itself, at most limit + failed + m - 1 handlers are there with m of them waiting to start |
| Metrics.BoundIsReached | internal/proxy/server.go:94-114 | that many are in flight in some run, for every limit, m and number of failures |
| Metrics.LimitIsExceeded | internal/proxy/server.go:94-114 | two accepts before either handler starts: two run under a limit of one without any failure |

## Left out

- Raw sockets, dialing, probing, reading queue lengths from the kernel: foreign calls. Sequence numbers are arbitrary 32-bit inputs, and nothing is claimed about their origin.
- Delays, jitter and backoff of `internal/bypass/timing.go`: clamps over random reals that only choose when, not what.
- `internal/domain/pool.go` and `internal/preflight/checker.go`: the sort-and-take-first pattern of `Pick` with less state.
- `internal/config/config.go`: only threshold >= 1 and a positive pool size are taken from it. A reload in mid-run is not modelled.
- Command line, setup, kernel tuning, logging, Prometheus text, plugins, non-Linux stubs, SNI counts: input, output and foreign calls.
- RateLimiter.Limiter.Allow: lookup and locked update are one step and buckets are map values; `RateRace` has the two steps and the shared objects.
- RateRace.CarefulIsReference: the condition on the schedule is sufficient; the exact one, decision by decision, is in `RateRace.DecisionIsExact`.
- Router.Pick: latencies are read once before sorting, while the source reads them anew in every comparison; the sort is an insertion sort, so ties may come out differently than in the library.
- Router.DialWithRetry: the dials of one connection run alone; several connections dialling one endpoint at once are runs of the machine of `Breaker.DialFailuresAreBounded`.
- Relay.RelayBoth: the two copy directions are composed one after the other; their frames are disjoint halves of the connections. Which direction's error is reported first is not modelled.
- Adaptive.Inject: a recorder is always present.
- Metrics.LatencyWindow.Percentiles: the indices are exact integer quotients. The source multiplies floats; for the sizes up to 1024 that occur, truncation gives the same indices.
- Breaker.AverageStaysWithin: 64-bit overflow is excluded by the stated bound on the product, not modelled beyond it.
- Packet.CraftPacket: random TTL and packet id are arbitrary inputs.
- Metrics.Collector.ConnOpened: its two counter updates are one step; those of ConnFailed are two in the ledger.
