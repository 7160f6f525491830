# ree0xQ: a verified model of the stateful core

ree0xQ watches an organisation's cryptography: agents parse TLS handshakes, scan files, vaults and
certificate-transparency logs, and send inventory events to a collector that keeps the newest event
of every asset and rolls the assets up into a quantum-risk score. This project models the parts
whose behaviour spans calls, runs or arbitrary input, and proves what they promise.

`dafny verify dfyconfig.toml` checks everything.

## The components

**TLS handshake parser** (`tls_parser`, `tls_tail`, `tls_roundtrip`, `tls_converse`). A class `Cursor` over a byte
buffer and the parser that drives it, proved equal on every byte string to a parser that passes
positions. On that function: the wire format of RFC 8446 (sections 4.1.2, 4.1.3, 4.2, 4.2.1, 4.2.3
and 4.2.7) written as an encoder and inverted, with unknown extensions, repeated extensions and
padding; the converse, which says exactly which byte strings are messages and so which lengths the
parser leaves unchecked; progress of the extension loop although its position may be set backwards
or past the buffer; and the exact condition under which a result does not depend on what follows
the buffer.

**Glob matcher** (`glob_regex`, `glob`, `glob_laws`). The translator from a glob to a regular
expression is a small compiler. The emitted syntax has its own parser and denotation; globs have a
direct meaning; the translation preserves it for every pattern and path.

**Delivery path** (`spool`, `delivery`, `event_store`, `event_store_concurrent`). The spool, the drain,
the sink and the two event stores as classes; then a machine whose steps are single disk or network
effects, with a crash possible between any two and each of them able to fail, reads and torn appends
included. Its invariant gives at-least-once delivery under crashes and disk errors up to the records it
books as lost, none in runs without read errors and torn appends; conservation without faults; and,
across components, that none of it disturbs the collector's per-asset view when the newest event of each
key is unique. That side condition is shown exact. The in-memory store is also taken apart into its
atomic accesses, and the interleavings that leave a stale view are characterised.

**Bootstrap tokens** (`enrolment`). The store and the two endpoints as a class, and the store under
concurrency: a consume is a removal, a check and perhaps a reinsertion, with issues, prunes and
other consumes in between. Every issued token is always in exactly one place.

**Windowed caches** (`dedup`, `rate_limit`, `rate_limit_clock`, `rate_limit_bound`). Each is compared
with a history that forgets nothing. The session cache is exact for an advancing clock, evictions
included: a duplicate is an identity last emitted within the time to live with fewer others emitted
since than the cache has places. For the rate limiter the lists of clock readings are characterised
exactly: those on which it decides as if it forgot nothing, and those on which it keeps its bound
per window.

**Key-management emulator** (`base64`, `kme`). The hand-written base64 encoder against decoding by
section 4 of RFC 4648, both ways; and the enc_keys, dec_keys and control state machine (sections
5.2 and 5.3 of ETSI GS QKD 014 V1.1.1) over whole runs.

**Roll-ups and cursor** (`sorting`, `roadmap`, `posture`, `ct_scan`, `ct_laws`, `ct_shipped`). The
migration roadmap projector, the three-axis score and its roll-up, and the certificate-transparency
scanner's high-water mark over any number of runs: what is requested, how often, and for which ids an
event is shipped are read off the listings alone.

## Where the code and its documentation differ

The model follows the code.

- A failed token consume is documented not to change the store
  (crates/ree0xq-server/src/enrol.rs:98-101). An expired token is removed all the same.
  `FailedConsumeKeepsStoreIffNotExpired` is the exact statement.
- While a wrong agent's attempt is between its removal and its reinsertion, the right agent is told
  its token is unknown. `UnknownIffInFlight` says exactly when, `RightfulAgentRefused` shows a run.
- A drain is documented not to lose events (crates/ree0xq-net/src/spool.rs:110-116), and to retry the
  valid lines around a corrupt one (lines 18-20). A line that is not UTF-8 is a read error, though, and
  after a read error the file is still replaced or removed; `DrainLosesExactlyTheUnread` says what is lost.
- An append that returned is documented to survive (lines 70-72). If the one before it broke off within
  its line, both end up on one line that the next drain drops. `AppendedIsPostedIff` is the exact
  statement: the file's lines are all UTF-8 and the last one, unless blank, has its line end.
- Redelivery is called idempotent on the collector side (same lines). It is exactly when no two
  different events of a key share the greatest time (`HarmlessIffUniqueNewest`).
- The in-memory store is documented to keep the newest event of each asset
  (crates/ree0xq-server/src/store.rs:39-42), but its append reads the entry and writes it in two
  accesses. The view ends up stale exactly when an append was overtaken in between by a newer event that
  nothing as new followed (`NewestIffNotLeftOvertaken`); `OlderEventLeft` is the shortest such run.
- `recent` of the in-memory store goes by arrival, of Postgres by time. They agree for every limit
  exactly when events arrived in time order (`RecentAgreesIffArrivalInOrder`).
- The glob `**` is documented as any depth (crates/ree0xq-agility/src/scanner.rs:222), but the
  emitted dot stops at a line feed, and each byte of a non-ASCII pattern is cast to a character of
  its own. `AgreesIffNoLineFeed` and `AgreesIffAscii` are the exact conditions.
- The rate limiter reads the clock before it takes the lock
  (crates/ree0xq-server/src/ratelimit.rs:79 and 85), so readings may arrive out of order. That can
  change its decisions exactly when a reading that had left the window is back inside it
  (`DecidedByRuleIffNothingRevives`), and can break the bound per window exactly when two such
  readings crowd one window with a later one, or a single one does once the prune of idle keys can
  have run (`BoundKeptIffUncrowded`).
- The scanner's cursor is described as the highest id "shipped an event for"
  (crates/ree0xq-cert/src/ct.rs:170-171). It is the highest id that gave a usable certificate, converted
  to an event or not. `UnconvertedIsPassed` gives the failing inputs: an entry whose certificates all
  refuse to convert moves the mark, ships nothing and is never requested again.
  `AsDescribedIffTopConverts` is the exact condition: the description holds for a domain if and only if
  the greatest usable id listed has a copy that converts in the first visit that lists it. The listing is
  sorted so that the cursor should not run backwards (lines 230-232), which it could not do anyway
  (`SortDoesNotMoveTheMark`). A failed fetch below a later success is lost for good
  (`StillReachableIffAbove`, `FailedFetchCanBeLost`).
- A roadmap's "today" figures are taken from the inventory list, the rows from a map by identity
  (crates/ree0xq-agility/src/roadmap.rs:87-96). The averages match for all scores exactly when no
  identity is listed twice (`TodayIsTheStartIff`), the blocked counts exactly when no entry that
  shares its identity with a later one is blocked (`BlockedTodayIsTheStartIff`).
- The parser checks no inner length against an outer one, so it accepts byte strings that encode no
  message; `GenuineIffLengthsNest` says exactly which are messages.
- Risk does not always rise towards the deadline: for fixed observations it does exactly when the
  agility score is at least what the other two axes alone would give (`TrendIff`), and for an
  organisation exactly when its average agility is (`OrgTrendIff`).

## Modelling choices

Times are integers. Scores are reals, not 32-bit floats. Random tokens, key identifiers and key
bytes are parameters; where the code relies on their being new, the theorem says so. What a POST,
a certificate list or a certificate fetch answers is an arbitrary function of the call. A line of
the spool is blank, corrupt, not UTF-8, or the record of an event, so that parsing a written line gives
the event back; no bytes but blanks before a record leave the line a record. The order in which a hash map is walked is arbitrary: loops over maps pick any key, and
the session cache's victim among equally old entries is any of them. Bit operations on bytes are
written as arithmetic.

## Model

| member | source | states |
|---|---|---|
| `TlsParser.Cursor.constructor` | crates/ree0xq-net/src/tls/mod.rs:345-347 | a cursor starts at the first byte |
| `TlsParser.Cursor.NextU8` | crates/ree0xq-net/src/tls/mod.rs:361-366 | one byte and the position after it, or the offset and the number of missing bytes with the position unmoved |
| `TlsParser.Cursor.NextU16` | crates/ree0xq-net/src/tls/mod.rs:367-372 | the same for two bytes, big-endian |
| `TlsParser.Cursor.NextU24` | crates/ree0xq-net/src/tls/mod.rs:373-380 | the same for three bytes, big-endian |
| `TlsParser.Cursor.Advance` | crates/ree0xq-net/src/tls/mod.rs:381-385 | skipping moves by exactly n, or fails and does not move |
| `TlsParser.Cursor.PushUntil` | crates/ree0xq-net/src/tls/mod.rs:164-167 | the inner list loop reads codepoints while the position is before the list end, an odd length reading one byte past it |
| `TlsParser.ParseExtensionData` | crates/ree0xq-net/src/tls/mod.rs:161-193 | what each known extension adds to the summary; other types add nothing |
| `TlsParser.ParsePreamble` | crates/ree0xq-net/src/tls/mod.rs:95-107 | total length checked against what is left, then version, random and session id |
| `TlsParser.ParseClientSuites` | crates/ree0xq-net/src/tls/mod.rs:119-135 | an odd suite length is refused; otherwise that many suites, then the compression methods |
| `TlsParser.ParseHeader` | crates/ree0xq-net/src/tls/mod.rs:88-143 | the two message kinds and nothing else; header fields in order |
| `TlsParser.ParseExtensions` | crates/ree0xq-net/src/tls/mod.rs:157-199 | each extension starts where the declared length of the one before says, behind or beyond what was read; terminates on every byte string |
| `TlsParser.ParseHandshake` | crates/ree0xq-net/src/tls/mod.rs:87-201 | the cursor parser equals the position-passing parser on every byte string, with the same errors, reading nothing out of bounds |
| `TlsTail.ReadsStable` | crates/ree0xq-net/src/tls/mod.rs:351-385 | a read that fits gives the same result whatever follows the buffer, and one that does not asks for as many fewer bytes |
| `TlsTail.IterationStable` | crates/ree0xq-net/src/tls/mod.rs:158-198 | one iteration of the extension loop is insensitive to what follows the buffer |
| `TlsTail.ExtensionsStable` | crates/ree0xq-net/src/tls/mod.rs:157-199 | so is the whole loop |
| `TlsTail.TailInsensitive` | crates/ree0xq-net/src/tls/mod.rs:87-201 | a summary whose extensions block was read stands whatever follows; a truncation error keeps its offset and asks for as many fewer bytes |
| `TlsTail.MissingBlockIsSensitive` | crates/ree0xq-net/src/tls/mod.rs:145-149 | without a block, two more bytes turn acceptance into an error |
| `TlsTail.StandsWhateverFollowsIffBlock` | crates/ree0xq-net/src/tls/mod.rs:145-149 | an accepted buffer parses the same whatever follows it if and only if its block was present |
| `TlsTail.LoopAdvances` | crates/ree0xq-net/src/tls/mod.rs:157-199 | each iteration starts at least four bytes after the one before and inside the block; a block of n bytes takes at most ceil(n/4) iterations |
| `TlsRoundTrip.ReadListAt` | crates/ree0xq-net/src/tls/mod.rs:164-167 | reading an encoded list gives the list, appended to what was there |
| `TlsRoundTrip.ReadDataAt` | crates/ree0xq-net/src/tls/mod.rs:161-193 | reading an encoded extension, padded or not, adds exactly its codepoints |
| `TlsRoundTrip.ReadExtensionsAt` | crates/ree0xq-net/src/tls/mod.rs:157-200 | reading an encoded block accumulates the codepoints of repeated extensions in wire order |
| `TlsRoundTrip.ReadHeaderAt` | crates/ree0xq-net/src/tls/mod.rs:88-143 | reading an encoded header gives its fields and stops where the block starts |
| `TlsRoundTrip.RoundTrip` | crates/ree0xq-net/src/tls/mod.rs:406-457 | parsing the encoding of any well-formed hello gives exactly its summary, whatever bytes follow; only a message without a block must end the buffer to within a byte |
| `TlsRoundTrip.UnknownExtensionsIgnored` | crates/ree0xq-net/src/tls/mod.rs:190-193 | an unknown extension put anywhere in the block does not change the result |
| `TlsConverse.GenuineIffLengthsNest` | crates/ree0xq-net/src/tls/mod.rs:87-201 | a byte string is the encoding of a well-formed hello and what follows it if and only if the header parses, the 24-bit length covers exactly header and block, every extension ends inside the block and the last at its end, and every known list is even and inside its extension; the parser accepts it then |
| `TlsConverse.BlockStands` | crates/ree0xq-net/src/tls/mod.rs:157-199 | a block whose lengths nest is the encoding of the extensions read off it |
| `TlsConverse.EncodedBlockNests` | crates/ree0xq-net/src/tls/mod.rs:157-199 | the block of an encoded message nests |
| `TlsConverse.OverlongIsNotGenuine` | crates/ree0xq-net/src/tls/mod.rs:195-198 | accepted all the same: any message without a block followed by a block whose extension claims more bytes than the block has gives the summary of that message, and the whole is no message |
| `Glob.Translate` | crates/ree0xq-agility/src/scanner.rs:230-262 | the loop emits the anchored translation of the whole pattern |
| `Glob.ParseTranslation` | crates/ree0xq-agility/src/scanner.rs:229-264 | every emitted string parses, as a regular expression anchored at both ends whose middle is one piece per glob token |
| `Glob.ChainMatches` | crates/ree0xq-agility/src/scanner.rs:234-261 | the compiled pieces match exactly what the tokens cover, in order, up to the end of the path |
| `Glob.TranslationPreservesMeaning` | crates/ree0xq-agility/src/scanner.rs:229-268 | for every pattern and path, the emitted regex matches if and only if the glob does |
| `Glob.GlobMatch` | crates/ree0xq-agility/src/scanner.rs:229-268 | the matcher answers the glob meaning of the pattern, its bytes taken as characters, with the two ** forms stopping at a line feed |
| `GlobLaws.AgreesIffNoLineFeed` | crates/ree0xq-agility/src/scanner.rs:222-223 | the matcher gives ** its documented meaning on every pattern if and only if the path has no line feed |
| `GlobLaws.SeenDemandsMore` | crates/ree0xq-agility/src/scanner.rs:252-258 | each non-ASCII character makes the pattern demand more characters than were written |
| `GlobLaws.AgreesIffAscii` | crates/ree0xq-agility/src/scanner.rs:252-258 | the matcher agrees with the pattern as written on every path if and only if the pattern is all ASCII |
| `GlobLaws.LeadingAnyDirs` | crates/ree0xq-agility/src/scanner.rs:242-244 | a leading **/ means: the rest matches the whole path or some suffix that starts just after a slash |
| `GlobLaws.SingleStarKeepsDepth` | crates/ree0xq-agility/src/scanner.rs:248-251 | without ** every matched path has as many slashes as the pattern has literal slashes |
| `Spooling.PassSelects` | crates/ree0xq-net/src/spool.rs:138-171 | a drain pass posts every record once in order, keeps exactly those not acknowledged in order, the collector gains exactly those it did not refuse, and seen = delivered + retained + corrupt_dropped |
| `Spooling.SelectPartition` | crates/ree0xq-net/src/spool.rs:104-108 | kept and acknowledged together are the records read, each as often |
| `Spooling.DrainLosesExactlyTheUnread` | crates/ree0xq-net/src/spool.rs:140-146 | after a read error, which the first line that is not UTF-8 is too, exactly the records of the unread lines are lost; nothing is lost if and only if no record was left unread |
| `Spooling.FailureRuins` | crates/ree0xq-net/src/spool.rs:73-86 | wherever an append breaks off, records before and written are records after and ruined ones, which can only be on a torn line that was continued |
| `Spooling.AppendedIsPostedIff` | crates/ree0xq-net/src/spool.rs:70-86 | after an append that succeeds, the next drain without disk errors posts all earlier records and the new one if and only if every line is UTF-8 and the last one, unless blank, had its line end |
| `Spooling.Spool.Append` | crates/ree0xq-net/src/spool.rs:73-86 | one record line at the end, the file created if need be, a torn last line continued; an append that fails at any point is an error and leaves what it had written by then |
| `Spooling.Spool.Len` | crates/ree0xq-net/src/spool.rs:90-97 | the number of lines, 0 without a file |
| `Spooling.PostLines` | crates/ree0xq-net/src/spool.rs:138-171 | the loop posts the lines in turn up to a read error or a line that is not UTF-8, and stops short otherwise only when a retained line cannot be written |
| `Spooling.Spool.Drain` | crates/ree0xq-net/src/spool.rs:117-190 | the file becomes the kept records in order or goes away, statistics and posts being those of the pass over the lines that can be read; an error opening, writing, flushing or renaming ends the drain with the file as it was and some first lines posted, and exactly those errors do |
| `Spooling.Sink.constructor` | crates/ree0xq-net/src/bin/ree0xq_net.rs:273-299 | a spool without a collector is ignored; one with a collector is drained before anything is sent, and an error that ends the drain leaves the file as it was |
| `Spooling.Sink.Send` | crates/ree0xq-net/src/bin/ree0xq_net.rs:328-349 | post; append what was not acknowledged if there is a spool, an append that fails leaving what it had written; print without a collector |
| `Delivery.StepKeeps` | crates/ree0xq-net/src/spool.rs:117-190 | every disk or network step, crashes, read errors and failing steps included, keeps the delivery invariant |
| `Delivery.CrashSafeAtLeastOnce` | crates/ree0xq-net/src/spool.rs:110-116 | with a crash, a read error or a disk error allowed at any step, every event whose spooling completed has been stored by the collector, is in the spool file, or is booked as left unread or ruined on a torn line |
| `Delivery.NothingLostWithoutTears` | crates/ree0xq-net/src/spool.rs:110-116 | in runs without read errors and torn appends, from a file whose last line has its end, nothing is ever lost, whatever else crashes or fails |
| `Delivery.FaultFreeConservation` | crates/ree0xq-net/src/bin/ree0xq_net.rs:301-349 | without crashes, disk errors and lost acknowledgements, and with any outages, events sent = events stored + events spooled as multisets |
| `Delivery.DeliveryDoesNotDisturbTheView` | crates/ree0xq-net/src/spool.rs:113-116 | crashes, reordering and duplicates leave the collector's per-asset view as if every event had arrived once in order, when the newest event of each key is unique |
| `Delivery.DrainIsARun` | crates/ree0xq-net/src/spool.rs:117-190 | the drain, with or without a read error, is a run of the step machine that ends in the same files and collector and loses the records not read |
| `Delivery.SendIsARun` | crates/ree0xq-net/src/bin/ree0xq_net.rs:328-349 | posting and, if need be, spooling one event, with any failure of the append, is a run of the step machine that ends in the same files and collector |
| `EventStore.LatestIsNewest` | crates/ree0xq-server/src/store.rs:102-114 | after any appends the index holds for each key seen the event with the greatest time, last arrival among equals, and no other key |
| `EventStore.RedeliveryIsHarmless` | crates/ree0xq-server/src/store.rs:102-114 | reordering and repeating events does not change the index when the newest of each key is unique |
| `EventStore.HarmlessIffUniqueNewest` | crates/ree0xq-server/src/store.rs:102-114 | redelivery is harmless for every reordering and duplication if and only if the newest event of each key is unique |
| `EventStore.RecentAgreesIffArrivalInOrder` | crates/ree0xq-server/src/store_pg.rs:138-152 | the in-memory answer to recent, by arrival, is a valid answer of the time-ordered query for every limit if and only if events arrived in time order |
| `EventStore.InMemoryEventStore.constructor` | crates/ree0xq-server/src/store.rs:92-97 | an empty log and index |
| `EventStore.InMemoryEventStore.Append` | crates/ree0xq-server/src/store.rs:102-114 | the log grows by the event and the index stays the newest-per-key index of the log |
| `EventStore.InMemoryEventStore.Recent` | crates/ree0xq-server/src/store.rs:120-124 | the last n events of the log, newest arrival first |
| `EventStore.InMemoryEventStore.LatestFor` | crates/ree0xq-server/src/store.rs:130-143 | the newest event of the key in the log, or none if the key never occurred |
| `EventStore.PgEventStore.Append` | crates/ree0xq-server/src/store_pg.rs:79-128 | the transaction keeps the assets table equal to the same index, its time column true to the stored event |
| `EventStoreConcurrent.NeverBackIffNoneOvertaken` | crates/ree0xq-server/src/store.rs:102-114 | in every interleaving of appends, no index entry ever goes back in time if and only if no append is overtaken between its read and its write by a newer event of its key |
| `EventStoreConcurrent.NewestIffNotLeftOvertaken` | crates/ree0xq-server/src/store.rs:102-114 | once all appends have finished, the index holds the newest event of every key if and only if no append was overtaken by a newer event that nothing as new followed |
| `EventStoreConcurrent.AsSequentialIffNotLeftOvertaken` | crates/ree0xq-server/src/store.rs:102-114 | with unique newest events, the index equals that of the same appends made one at a time if and only if no append was left overtaken |
| `EventStoreConcurrent.AppendIsARun` | crates/ree0xq-server/src/store.rs:102-114 | the uninterrupted accesses of one append do what the method does |
| `EventStoreConcurrent.OlderEventLeft` | crates/ree0xq-server/src/store.rs:104-112 | for any two events of one key, an interleaving that leaves the older one in the index |
| `Enrolment.FailedConsumeKeepsStoreIffNotExpired` | crates/ree0xq-server/src/enrol.rs:98-119 | a failed consume leaves the store unchanged if and only if the token had not expired |
| `Enrolment.BootstrapTokenStore.Issue` | crates/ree0xq-server/src/enrol.rs:81-96 | the new token is bound to the agent and the expiry, other tokens untouched |
| `Enrolment.BootstrapTokenStore.Consume` | crates/ree0xq-server/src/enrol.rs:102-119 | success only for the bound agent and an unexpired token, which is gone afterwards; a mismatch puts it back |
| `Enrolment.BootstrapTokenStore.PruneExpired` | crates/ree0xq-server/src/enrol.rs:124-127 | exactly the unexpired tokens stay |
| `Enrolment.BootstrapTokenStore.IssueBootstrapToken` | crates/ree0xq-server/src/enrol.rs:175-233 | a token is issued if and only if the admin token matches, the agent id is not blank and the lifetime is in range; otherwise nothing changes |
| `Enrolment.BootstrapTokenStore.Enrol` | crates/ree0xq-server/src/enrol.rs:237-320 | a certificate comes only of a token consumed by its own agent in time; the token is spent even when the validity is refused or minting fails |
| `EnrolmentConcurrent.StepKeeps` | crates/ree0xq-server/src/enrol.rs:81-127 | every atomic access, in any interleaving, keeps the one-place invariant |
| `EnrolmentConcurrent.ExactlyOnePlace` | crates/ree0xq-server/src/enrol.rs:102-119 | every issued token is always in exactly one of: the store, the hands of one consumer, gone |
| `EnrolmentConcurrent.SingleUse` | crates/ree0xq-server/src/enrol.rs:98-101 | under every interleaving at most one consume of a token succeeds, and only for the bound agent before expiry |
| `EnrolmentConcurrent.MismatchesNeverBurn` | crates/ree0xq-server/src/enrol.rs:112-116 | with no consume in flight an unredeemed, unexpired token is in the store as issued |
| `EnrolmentConcurrent.UnknownIffInFlight` | crates/ree0xq-server/src/enrol.rs:103-117 | an unredeemed, unexpired token is unknown to a consumer if and only if another consumer holds it |
| `EnrolmentConcurrent.RightfulAgentRefused` | crates/ree0xq-server/src/enrol.rs:103-117 | an interleaving in which the right agent is told its token is unknown |
| `EnrolmentConcurrent.ConsumeIsARun` | crates/ree0xq-server/src/enrol.rs:102-119 | the uninterrupted steps of one consume do what the method does |
| `Dedup.DedupCache.constructor` | crates/ree0xq-net/src/dedup.rs:69-76 | an empty cache of capacity at least 1 |
| `Dedup.DedupCache.OldestKey` | crates/ree0xq-net/src/dedup.rs:111-117 | an entry with the least time |
| `Dedup.DedupCache.ObserveAt` | crates/ree0xq-net/src/dedup.rs:92-126 | duplicate inside the ttl: no change; otherwise prune, evict the oldest if still full, insert |
| `Dedup.CapacityAndCounter` | crates/ree0xq-net/src/dedup.rs:106-122 | whatever the clock does the cache never exceeds its capacity, and the counter is the number of unexpired entries forced out, saturating |
| `Dedup.UnforcedCacheIsExact` | crates/ree0xq-net/src/dedup.rs:92-126 | for nondecreasing times and no forced eviction so far, an observation is a duplicate if and only if its identity was emitted less than ttl ago |
| `Dedup.VictimIsExcused` | crates/ree0xq-net/src/dedup.rs:106-121 | when the oldest entry is forced out, at least capacity other identities were emitted after it |
| `Dedup.CacheIsExact` | crates/ree0xq-net/src/dedup.rs:92-126 | with an advancing clock an observation is a duplicate if and only if its identity was last emitted less than ttl ago and fewer than capacity identities have been emitted since, evictions included |
| `Dedup.YoungerHeldOnRun` | crates/ree0xq-net/src/dedup.rs:102-121 | along a run everything emitted after an entry that is still held is held too |
| `Dedup.EarlyRepeatNeedsOverflow` | crates/ree0xq-net/src/dedup.rs:106-121 | with an advancing clock an identity is emitted again within ttl only if at least capacity other identities were emitted in between |
| `RateLimit.RateLimiter.constructor` | crates/ree0xq-server/src/ratelimit.rs:61-67 | the limit is at least 1 |
| `RateLimit.RateLimiter.PruneIdleKeys` | crates/ree0xq-server/src/ratelimit.rs:86-89 | above the soft cap exactly the keys with nothing in their window go |
| `RateLimit.RateLimiter.CheckAt` | crates/ree0xq-server/src/ratelimit.rs:84-100 | accept while fewer than the limit lie within the window and record the time; other keys untouched by the check itself |
| `RateLimit.SoftPruneHarmless` | crates/ree0xq-server/src/ratelimit.rs:86-89 | the prune changes no bucket as seen from a reading at which none of its times is back in the window |
| `RateLimit.LimiterIsExact` | crates/ree0xq-server/src/ratelimit.rs:84-100 | for readings none of which comes back into the window, every decision is that of the limiter that keeps every accepted request for ever |
| `RateLimitClock.DecidedByRuleIffNothingRevives` | crates/ree0xq-server/src/ratelimit.rs:78-100 | for every limit and choice of keys the decisions at a list of readings are those of the keep-everything limiter if and only if no reading that has left the window at one reading is back inside it at a later one |
| `RateLimitClock.OrderedClockIsExact` | crates/ree0xq-server/src/ratelimit.rs:84-100 | so for nondecreasing readings |
| `RateLimitClock.RunIsKeyRun` | crates/ree0xq-server/src/ratelimit.rs:84-100 | to one key a run is: its own requests filter and extend its bucket, others leave it or, past the soft cap, drop it with nothing live |
| `RateLimit.WindowBound` | crates/ree0xq-server/src/ratelimit.rs:84-100 | by the keep-everything rule every half-open interval as long as the window holds at most the limit of acceptances per key, whatever the clock does |
| `RateLimitClock.CodeWindowBound` | crates/ree0xq-server/src/ratelimit.rs:84-100 | so by the code when no reading comes back into the window |
| `RateLimitBound.BoundKeptIffUncrowded` | crates/ree0xq-server/src/ratelimit.rs:78-100 | for every limit and choice of keys the code keeps that bound at a list of readings if and only if no two readings gone by a later one share a window with a reading later still, and none does past the soft cap on keys |
| `RateLimit.BucketsStayBounded` | crates/ree0xq-server/src/ratelimit.rs:84-100 | no stored bucket is empty or longer than the limit, whatever the clock does |
| `RateLimitBound.OutOfOrderClockBreaksTheBound` | crates/ree0xq-server/src/ratelimit.rs:78-85 | an example: read at 0, 1, 100 and 2 a limit of two per ten units accepts three between 0 and 10 |
| `Base64.Encode` | crates/ree0xq-qkd/src/emulator/mod.rs:144-172 | four characters for every three bytes begun |
| `Base64.PushGroup` | crates/ree0xq-qkd/src/emulator/mod.rs:147-155 | one full group appends its four digits |
| `Base64.PushRemainder` | crates/ree0xq-qkd/src/emulator/mod.rs:156-170 | the last one or two bytes append the padded form |
| `Base64.Base64Encode` | crates/ree0xq-qkd/src/emulator/mod.rs:144-172 | the loop and its remainder compute the encoding of the whole input |
| `Base64.RoundTrip` | crates/ree0xq-qkd/src/emulator/mod.rs:144-172 | decoding as in section 4 of RFC 4648 inverts the encoder on every byte string |
| `Base64.DecodeIsCanonical` | crates/ree0xq-qkd/src/emulator/mod.rs:144-172 | a string that decodes is the encoding of its bytes |
| `Base64.PaddingAtTheEnd` | crates/ree0xq-qkd/src/emulator/mod.rs:156-170 | padding stands exactly in the last places of a short final group: two characters for one byte over, one for two |
| `Kme.Emulator.constructor` | crates/ree0xq-qkd/src/emulator/mod.rs:87-100 | the pool is preseeded and no failure is forced |
| `Kme.Emulator.GenerateKeys` | crates/ree0xq-qkd/src/emulator/mod.rs:125-141 | each drawn key is pooled under its identifier and returned encoded, in order |
| `Kme.Emulator.HandleEncKeys` | crates/ree0xq-qkd/src/emulator/mod.rs:199-219 | refused while a failure is forced; otherwise 1 to 128 keys as asked, pooled and returned |
| `Kme.Emulator.HandleDecKeys` | crates/ree0xq-qkd/src/emulator/mod.rs:222-257 | all keys in request order, or nothing and the first unknown identifier |
| `Kme.Emulator.HandleControl` | crates/ree0xq-qkd/src/emulator/mod.rs:285-309 | each control message changes its own field only, the error rate clamped |
| `Kme.PooledKeeps` | crates/ree0xq-qkd/src/emulator/mod.rs:125-141 | fresh draws are all pooled and no pooled key changes |
| `Kme.KeysSurvive` | crates/ree0xq-qkd/src/emulator/mod.rs:199-309 | over every run with fresh identifiers no key is lost or changed |
| `Kme.PoolIsAllReturned` | crates/ree0xq-qkd/src/emulator/mod.rs:199-257 | after any run the pool holds the keys it started with and those enc_keys returned along it, and nothing else |
| `Kme.BothPartiesGetTheSameKeys` | crates/ree0xq-qkd/src/emulator/mod.rs:199-257 | over any run, while no failure is forced, dec_keys succeeds if and only if every identifier was pooled at the start or returned by some enc_keys, mixed and repeated at will, and gives the very keys returned, in the order asked |
| `Kme.KeysCarryTheDrawnBytes` | crates/ree0xq-qkd/src/emulator/mod.rs:125-141 | a returned key decodes to the drawn bytes, the fewest that hold the requested bits |
| `Sorting.SortIsStable` | crates/ree0xq-agility/src/roadmap.rs:100-101 | the sort is in key order, a permutation, and stable |
| `Sorting.StableSortIsUnique` | crates/ree0xq-agility/src/roadmap.rs:100-101 | any stable sort gives the same list |
| `Roadmap.MigratedIsDistinctIffNoRepeat` | crates/ree0xq-agility/src/roadmap.rs:107-115 | assets_migrated counts mentions of known ids: it equals the number of distinct ones if and only if none is named twice |
| `Roadmap.MigrateAssets` | crates/ree0xq-agility/src/roadmap.rs:107-115 | the loop moves exactly the known named assets to the baseline and counts the mentions |
| `Roadmap.AvgQState` | crates/ree0xq-agility/src/roadmap.rs:148-154 | the fold gives the average whatever order the map is walked in |
| `Roadmap.ProjectMilestone` | crates/ree0xq-agility/src/roadmap.rs:105-129 | one row: averages and counts before and after the migration |
| `Roadmap.ProjectRoadmap` | crates/ree0xq-agility/src/roadmap.rs:83-138 | today from the list, then one row per milestone of the sorted plan, each from the state the ones before left |
| `Roadmap.ListAndStateAgree` | crates/ree0xq-agility/src/roadmap.rs:87-96 | with unique identities list and working copy have the same average and blocked count |
| `Roadmap.ExactlyTheNamedMove` | crates/ree0xq-agility/src/roadmap.rs:104-115 | after any milestones exactly the known ids named so far are at 0.10, unblocked and on the targets of the last one naming them; the rest are unchanged |
| `Roadmap.CountsNeverRise` | crates/ree0xq-agility/src/roadmap.rs:106-119 | blocked and classical counts are those of the known assets not yet named, and never rise |
| `Roadmap.RowsChain` | crates/ree0xq-agility/src/roadmap.rs:98-130 | rows are in date order and each starts where the one before ended |
| `Roadmap.TodayIsTheStartIff` | crates/ree0xq-agility/src/roadmap.rs:87-106 | today's average is that of the first row for every choice of scores if and only if no identity is listed twice |
| `Roadmap.BlockedTodayIsTheStartIff` | crates/ree0xq-agility/src/roadmap.rs:88-106 | today's blocked count is that of the first row if and only if no entry that shares its identity with a later one is blocked |
| `Roadmap.TodayIsTheStart` | crates/ree0xq-agility/src/roadmap.rs:87-106 | with unique identities both agree |
| `Roadmap.RepeatedIdentityBreaksTheStart` | crates/ree0xq-agility/src/roadmap.rs:88-96 | one host listed twice is enough for some scores to tell the two averages apart |
| `Roadmap.DropIsTheExcess` | crates/ree0xq-agility/src/roadmap.rs:105-117 | each drop of the average is the sum of (q - 0.10) over the newly named known assets, divided by the number of assets |
| `Roadmap.NeverRisesIffNoneBelowBaseline` | crates/ree0xq-agility/src/roadmap.rs:105-117 | no plan ever raises the average if and only if no asset starts below 0.10 |
| `Roadmap.EndIgnoresOrder` | crates/ree0xq-agility/src/roadmap.rs:98-130 | final scores and blocked set depend only on which known assets the plan names, not on order, dates, targets, repeats or how they are grouped |
| `Roadmap.EndAlikeIffSameNamed` | crates/ree0xq-agility/src/roadmap.rs:98-130 | two plans end alike from every state of the same assets if and only if they name the same of them |
| `Roadmap.SortingKeepsTheEnd` | crates/ree0xq-agility/src/roadmap.rs:98-101 | sorting the plan does not change where it ends |
| `Posture.AxisA` | crates/ree0xq-server/src/posture.rs:50-71 | the loop computes the role-weighted average, 0.4 for the empty list |
| `Posture.AxisAInRange` | crates/ree0xq-server/src/posture.rs:39-71 | axis A lies in [0.3, 1] |
| `Posture.AxisAIgnoresOrder` | crates/ree0xq-server/src/posture.rs:56-70 | the order of the primitives does not matter |
| `Posture.PerfectIffAllResistant` | crates/ree0xq-server/src/posture.rs:39-71 | axis A is 1 if and only if there are primitives and all are known resistant |
| `Posture.TensionRises` | crates/ree0xq-server/src/posture.rs:96-103 | tension lies in [0, 1] and never falls as time passes |
| `Posture.FullIffLessThanADayLeft` | crates/ree0xq-server/src/posture.rs:96-103 | tension is 1 if and only if the horizon is not positive or less than one whole day is left |
| `Posture.NoneIffHorizonLeft` | crates/ree0xq-server/src/posture.rs:96-103 | tension is 0 if and only if at least the whole positive horizon is left |
| `Posture.QForEvent` | crates/ree0xq-server/src/posture.rs:106-124 | the score of an event from its three axes and the tension |
| `Posture.WeightsSumToOne` | crates/ree0xq-server/src/posture.rs:116-123 | the renormalised weights sum to 1 at every tension |
| `Posture.QBounds` | crates/ree0xq-server/src/posture.rs:106-124 | 0 <= q <= 0.85 for agility scores in [0, 1], so for all canonical ones |
| `Posture.BoundIsReached` | crates/ree0xq-server/src/posture.rs:106-124 | 0.85 is attained |
| `Posture.ScoreAntitone` | crates/ree0xq-server/src/posture.rs:116-123 | q never rises in A, C or G, and stays equal only if A and C are equal and G is equal or tension is full |
| `Posture.TwoTensions` | crates/ree0xq-server/src/posture.rs:116-123 | for two tensions q does not fall if and only if they are equal or G is at least what A and C alone score |
| `Posture.TrendIff` | crates/ree0xq-server/src/posture.rs:116-123 | for fixed observations q is nondecreasing in tension if and only if G >= (alpha A + beta C) / (alpha + beta) |
| `Posture.OrgScore` | crates/ree0xq-server/src/posture.rs:137-157 | the loop computes the kind-weighted average of q, 0 for no events |
| `Posture.OrgBetween` | crates/ree0xq-server/src/posture.rs:137-157 | the organisation score of a nonempty list lies between the smallest and largest q |
| `Posture.OrgBounds` | crates/ree0xq-server/src/posture.rs:137-157 | it lies in [0, 0.85], the empty inventory included |
| `Posture.OrgIgnoresOrder` | crates/ree0xq-server/src/posture.rs:146-156 | it does not depend on the order of the events |
| `Posture.OrgIsScoreOfAverages` | crates/ree0xq-server/src/posture.rs:137-157 | all assets sharing one tension, the organisation score is the score of the kind-weighted averages of A, C and G |
| `Posture.OrgTrendIff` | crates/ree0xq-server/src/posture.rs:137-157 | from one time to a later one the organisation score does not fall if and only if tension is the same at both or average G is at least what average A and C score |
| `Posture.OrgRises` | crates/ree0xq-server/src/posture.rs:137-157 | so if every asset has G at least what its A and C score |
| `CtScan.RequestCounts` | crates/ree0xq-cert/src/ct.rs:240-293 | every listed entry is either passed over or requested |
| `CtScan.EmitCerts` | crates/ree0xq-cert/src/ct.rs:266-283 | every convertible certificate of a bundle is emitted, hosted at the queried domain when it names no host |
| `CtScan.ScanEntries` | crates/ree0xq-cert/src/ct.rs:239-291 | requests, counters, events and the new mark of one listing |
| `CtScan.ScanDomains` | crates/ree0xq-cert/src/ct.rs:220-293 | statistics, requests, events and cursor after any list of domain visits |
| `CtScan.Scan` | crates/ree0xq-cert/src/ct.rs:202-301 | one run: an unreadable cursor file stops it before any request; otherwise every visit, and the cursor saved when a file is configured, or an error after all the work when it cannot be written |
| `CtLaws.RunsJoin` | crates/ree0xq-cert/src/ct.rs:210-301 | two runs with the cursor saved in between make the same requests and events and save the same cursor as one |
| `CtLaws.Accounting` | crates/ree0xq-cert/src/ct.rs:154-168 | listed = below cursor + fetched + failed, fetched = usable requests, emitted = events |
| `CtLaws.RequestedIffAbove` | crates/ree0xq-cert/src/ct.rs:240-244 | a visit requests exactly the listed ids above the domain's mark |
| `CtLaws.CursorIsGreatestUsable` | crates/ree0xq-cert/src/ct.rs:235-292 | a domain's cursor never decreases and is its start or the greatest id that gave a usable certificate |
| `CtLaws.MarkFromListings` | crates/ree0xq-cert/src/ct.rs:236-292 | an id is above the mark a run leaves if and only if it is above the starting mark and every usable id listed |
| `CtLaws.RequestedIffExceeds` | crates/ree0xq-cert/src/ct.rs:236-292 | over any visits, failures, repeats and starting cursor, an id is requested if and only if some visit lists it while it exceeds the starting mark and every usable id listed before |
| `CtLaws.TimesFromListings` | crates/ree0xq-cert/src/ct.rs:236-292 | an id gives a usable certificate as often as it stands in that listing, and otherwise never |
| `CtLaws.SortDoesNotMoveTheMark` | crates/ree0xq-cert/src/ct.rs:229-233 | the saved mark is the same for every order of the listing |
| `CtLaws.NoneTwiceIffNoListingRepeats` | crates/ree0xq-cert/src/ct.rs:240-292 | over any visits no id of a domain gives a usable certificate twice if and only if no listing repeats a usable id that exceeds everything usable before it |
| `CtLaws.RepeatedEntryIsFetchedTwice` | crates/ree0xq-cert/src/ct.rs:240-244 | a listing that repeats a usable entry has it fetched twice |
| `CtLaws.StillReachableIffAbove` | crates/ree0xq-cert/src/ct.rs:284-292 | an id can still be requested in some later visits if and only if it is above its domain's mark, so above the starting mark and every usable id listed |
| `CtLaws.FailedFetchCanBeLost` | crates/ree0xq-cert/src/ct.rs:284-288 | a failed fetch below a later success is never repeated, whatever the later visits |
| `CtLaws.OnceEachIffNewExceed` | crates/ree0xq-cert/src/ct.rs:202-301 | over any visits and from any cursor, every id above the starting mark that some listing offers a usable certificate for gives one exactly once if and only if such ids exceed the usable ones before them when first listed, once in that listing |
| `CtLaws.CompleteIffNewIdsExceed` | crates/ree0xq-cert/src/ct.rs:202-301 | so over failure-free runs from an empty cursor every listed id but 0 gives a usable certificate exactly once if and only if new ids always exceed the old ones |
| `CtLaws.ZeroIsNeverFetched` | crates/ree0xq-cert/src/ct.rs:236-244 | id 0 is never requested |
| `CtLaws.EventsAreHosted` | crates/ree0xq-cert/src/ct.rs:276-278 | every emitted event names a host |
| `CtShipped.EventsAreShipments` | crates/ree0xq-cert/src/ct.rs:266-283 | the events a run emits are those traced to its entries, in order |
| `CtShipped.ShippedIffConvertsAbove` | crates/ree0xq-cert/src/ct.rs:236-292 | an event is shipped for an id if and only if some visit lists a copy of it that converts while the id exceeds the starting mark and every usable id listed before |
| `CtShipped.AsDescribedIffTopConverts` | crates/ree0xq-cert/src/ct.rs:170-171 | a domain's cursor is its start or the highest id shipped an event for if and only if the greatest usable id listed has a copy that converts in the first visit that lists it as usable |
| `CtShipped.UnconvertedIsPassed` | crates/ree0xq-cert/src/ct.rs:266-284 | an entry whose certificates all refuse to convert moves the mark to its id, ships no event and is never requested again |

## Left out

- Spooling.Spool.Append: the meaning of fsync below the file level is not modelled; a failed append leaves a prefix of what it was to write.
- Spooling.Spool.Drain: a file that cannot be removed at the end, which the code ignores, is a step of `Delivery` only.
- Delivery.CrashSafeAtLeastOnce: one agent process uses the spool directory, as the code documents.
- Delivery.DeliveryDoesNotDisturbTheView: an event that could be neither delivered nor appended, because its process died in between or the append failed, counts as dropped, and the theorem excludes it, as the code cannot save it; so it does records lost.
- EventStore.InMemoryEventStore.Append: the method is sequential; its accesses under concurrency are those of `EventStoreConcurrent`, where a reader of the view between them is not a step.
- EventStore.InMemoryEventStore.LatestFor: `latest_per_asset`, which lists the same index in arbitrary order, has no member of its own.
- Enrolment.BootstrapTokenStore.IssueBootstrapToken: the constant-time comparison of the admin token is plain equality.
- Enrolment.BootstrapTokenStore.Enrol: minting the certificate is a step that succeeds or fails.
- Dedup.DedupCache.ObserveAt: identities are strings; the hash that makes them, whose collisions are possible, is not modelled.
- Kme.Emulator.HandleEncKeys: the requested size is any number of bits and the memory it takes is not limited; status replies are left out.
- Glob.Translate: the regex engine is the denotation of the emitted syntax; its size limits are not modelled.
- TlsParser.ParseHandshake: positions are unbounded; machine integers would overflow only for buffers no machine can hold.
- Posture.QForEvent: rounding of 32-bit floats, here and in the roadmap projector, is not modelled.
- CtScan.Scan: the JSON form of the cursor file and the delay between fetches are left out; ids are unbounded.
- The tables of cipher suites, groups, schemes, algorithms and deadlines, and `primitives_from_summary`, which looks names up in them: finite tables.
- `aggregate_tagged_level` and the file classification of the agility scanner: comparisons over five levels.
- HTTP routing, JSON and YAML forms, TLS listeners, certificate minting, packet capture, eBPF, PKCS#11, cloud key stores and the crt.sh client: input, output and foreign calls.
- The web interface, the Python study, packaging and documentation.
