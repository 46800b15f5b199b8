# Ratatosk verification

A Dafny model of the self-contained core of Ratatosk, a Redis-compatible server, with proofs of what that
core promises. Each file is one module.

| component | modules |
|---|---|
| RESP codec (Redis serialization protocol, versions 2 and 3) | `RespFrame`, `RespEncode`, `RespStream`, `RespInline`, `RespParse`, `RespDescribe`, `RespStability`, `RespRoundTrip` |
| keyspace storage, WATCH, eviction, active expiry | `Values`, `Keyspace`, `DataState`, `WatchRuns`, `Sampling`, `Eviction` |
| sorted sets and compact encodings | `Score`, `SortedSet`, `IntSet`, `Decimal` |
| coordination registries | `Blocking`, `Tracking`, `PubSub` |
| HyperLogLog | `Hll` |
| audit chain | `AuditChain`, `AuditRotation` |
| cluster hash slots | `Slot` |

`Base` holds bytes, options and a few list lemmas.

How the model is laid out:

- What the code computes by recursion or expressions is a function. What it computes by changing a buffer, a
  table or an object is a method or a class whose contract ties it to such a function.
- `RespFrame.Emit` is the meaning of encoding and `RespParse.ParseFrame` the meaning of parsing. The appending
  encoders, the length predictor, the explicit-stack streaming encoder and the two-phase offset parser are all
  proved against these two, and the round-trip and chunking theorems are about these two.
- `Keyspace.Ok` is the storage invariant; every method of `DataState.DataState` keeps it, and
  `Keyspace.WatchStep` says what each does to the WATCH tables. `WatchRuns` puts them together over whole runs.
- `Blocking`, `PubSub` and `AuditChain` carry a ghost record of the run so far. What a registration, a delivery
  or a durable entry is, is defined from that record alone, and the tables are proved to follow it.
- Hash tables are maps and sets; the order in which they are iterated, and every random number, is an arbitrary
  choice, so results hold for all of them.
- MurmurHash64A, SHA-256, the floating-point cardinality estimate and glob matching are function parameters, so
  results hold for every choice of them.
- A score is a 64-bit pattern ordered by its rank in the total order of section 5.10 of IEEE 754-2008, with
  numeric comparison defined on top.

Where the code and its documentation disagree, the model follows the code:

- `drain_and_roundtrip` documents that every parsed frame re-encodes to itself. An inline line with more than
  1048576 arguments parses and does not (`RespRoundTrip.OversizedInlineDoesNotRoundTrip`);
  `RespRoundTrip.ReencodesIffWithinLimits` gives the exact condition.
- The error for an overlong inline command speaks of the command's length. It only fires while no LF is present,
  so a long line is accepted or refused depending on where it is cut (`RespRoundTrip.CutLineIsRevised`);
  `RespRoundTrip.SplitIndependentIffCalm` gives the exact condition for a stream not to depend on its cuts.
- `remove_range_by_score` documents the inclusive range. It misses a stored -0.0 when the range starts at +0.0
  (`SortedSet.NegativeZeroIsMissed`); `SortedSet.RemovesInclusiveRangeIff` gives the exact condition.
- `active_expire_cycle` documents an early stop when few keys expire. The branch continues with the next
  database, as the loop does anyway (`Eviction.EarlyStopIsIgnored`); `Eviction.EarlyStopIff` gives the exact
  condition for the documented stop to leave the same keys.
- `hll_merge` documents that sources that are not valid blobs are skipped. Only their length is looked at, so a
  source of 12304 bytes without the magic is merged (`Hll.WrongMagicIsMerged`); `Hll.MergesOnlyValidIff` gives the
  exact condition.
- The LRU policies document that a lower clock is an older key. Nothing in the workspace calls
  `touch_lru_clock`: values are created with the clock zero and a string edit writes zero, so on every run all keys
  score the same under the LRU and LFU policies (`WatchRuns.RunFromEmpty`). If clocks were touched, being the low 24
  bits of the second they would put the key touched later first across a wrap (`Eviction.LruWrapPrefersNewer`);
  `Eviction.LruPrefersOlderIff` gives the exact condition.
- `advance_audit_chain` reports the chain as left unchanged when an append fails. When only the sync failed the line
  is in the log, and the next entry forks the chain there; `AuditRotation.UnreportedAppend` gives the exact
  condition, and `AuditChain.RunTrail` that a restart in between heals it.

## Model

| member | source | states |
|---|---|---|
| Decimal.ParseI64Loop | crates/ratatosk-engine/src/object.rs:21-57 | the digit-by-digit loop with checked arithmetic accepts exactly an optional sign and one or more digits whose value fits an i64, and returns that value; the empty string, a lone sign, a non-digit and any overflow give none |
| Decimal.PrintParses | crates/ratatosk-engine/src/object.rs:21-57 | printing any i64 and parsing the text gives the number back |
| Decimal.DigitsUnique | crates/ratatosk-engine/src/object.rs:21-57 | a digit string without a leading zero is the printed form of the number it denotes |
| Decimal.PrintLength | crates/ratatosk-engine/src/keyspace.rs:556-573 | an i64 prints in at most 20 bytes, the length cut-off of the integer recogniser |
| RespFrame.CleanLine | crates/ratatosk-resp/src/encode.rs:331-346 | byte by byte: a CR or LF becomes a space and every other byte stays, so the line keeps its length, has no CR or LF, and is itself when it had none |
| RespFrame.ProjectionKeepsBytes | crates/ratatosk-resp/src/encode.rs:267-322 | for every frame (pinned versions and sequences included) encoding for a version writes the same bytes as the protocol-neutral encoding of the projected frame |
| RespFrame.ProjectEntriesKeepBytes | crates/ratatosk-resp/src/encode.rs:267-322 | a map's entries are written in order, as entries or flattened key before value |
| RespFrame.EmitAllAppend | crates/ratatosk-resp/src/encode.rs:203-265 | the encoding of a list of frames is the concatenation of the encodings, so independent replies can be written one after another |
| RespEncode.SharedEncodingAgrees | crates/ratatosk-resp/src/encode.rs:348-360 | every shared static reply is byte for byte the encoding it replaces |
| RespEncode.EncodeInto | crates/ratatosk-resp/src/encode.rs:203-265 | appends exactly the protocol-neutral encoding to the buffer, shared encodings included, whatever was there before |
| RespEncode.EncodeForVersionInto | crates/ratatosk-resp/src/encode.rs:267-322 | appends exactly the encoding for the version; a pinned version inside the reply wins |
| RespEncode.WriteHeader | crates/ratatosk-resp/src/encode.rs:196-201 | appends marker, decimal length and CRLF |
| RespEncode.ExtendLine | crates/ratatosk-resp/src/encode.rs:331-346 | both the fast path and the replacing path append the cleaned line |
| RespEncode.DecimalLen | crates/ratatosk-resp/src/encode.rs:76-91 | the division loop counts exactly the digits printing writes |
| RespEncode.AggregateLen | crates/ratatosk-resp/src/encode.rs:93-105 | saturating fold over an array's items equals the saturated length of header and items |
| RespEncode.EntriesLen | crates/ratatosk-resp/src/encode.rs:107-123 | the same for a map, with the count its version announces |
| RespEncode.EncodedLen | crates/ratatosk-resp/src/encode.rs:125-154 | the predicted length equals the number of bytes the encoder writes, for every frame, saturating at usize |
| RespEncode.EncodedLenForVersion | crates/ratatosk-resp/src/encode.rs:156-194 | the same for each negotiated version |
| RespStream.ReplySegments.constructor | crates/ratatosk-resp/src/encode.rs:386-401 | a fresh streaming encoder owes exactly the recursive encoder's output |
| RespStream.ReplySegments.Step | crates/ratatosk-resp/src/encode.rs:408-453 | one frame writes its own bytes and queues its children in wire order; buffer, finished pieces and stack together still stand for the same output; from an empty queue and a buffer below the chunk size at most two pieces are queued, each short or an uncopied payload, and the buffer stays short |
| RespStream.ReplySegments.StepZeroCopy | crates/ratatosk-resp/src/encode.rs:440-450 | a large bulk payload leaves as a piece of its own, behind what was buffered and its header, with its CRLF starting the next buffer |
| RespStream.ReplySegments.Next | crates/ratatosk-resp/src/encode.rs:456-488 | each piece is non-empty and is exactly the front of what was still owed; none is returned only when nothing is owed; it is shorter than a chunk and the widest frame together or is an uncopied payload, and at most two finished pieces are ever held |
| RespStream.ReplySegments.Advance | crates/ratatosk-resp/src/encode.rs:456-488 | popping and expanding one stack entry owes the same bytes at a strictly smaller cost, so the loop ends |
| RespStream.ReplySegments.StackBound | crates/ratatosk-resp/src/encode.rs:362-384 | the pending stack never exceeds twice the reply's height plus one, however wide the reply is |
| RespStream.Segments | crates/ratatosk-resp/src/encode.rs:362-488 | for every frame, version, chunk size and zero-copy threshold the run ends, every piece is non-empty, the pieces concatenate to the recursive encoding, and each is shorter than one chunk plus the widest frame of the reply or is one of the payloads at or above the threshold |
| RespInline.SplitInlineArgs | crates/ratatosk-resp/src/parse.rs:362-465 | the lazy slice-or-copy splitter ends and gives the same arguments, or the same unbalanced-quote error, as the plain splitter that copies every byte; every slice lies inside the line |
| RespInline.ReadToken | crates/ratatosk-resp/src/parse.rs:371-461 | one argument: quotes, escapes and the byte after a closing quote are treated as by the plain reader, and at least one byte is taken |
| RespInline.NextMove | crates/ratatosk-resp/src/parse.rs:380-459 | the move decided on the buffer in place is the plain reader's move |
| RespDescribe.FindCrlfAt | crates/ratatosk-resp/src/parse.rs:488-505 | the search that jumps from CR to CR finds the first CRLF, if there is one |
| RespDescribe.LineLen | crates/ratatosk-resp/src/parse.rs:481-486 | the line behind a type byte, without its CRLF |
| RespDescribe.DescribeText | crates/ratatosk-resp/src/parse.rs:126-164 | offsets of a simple string or error agree with the parser specification; a line with a stray CR or LF is an error |
| RespDescribe.DescribeInteger | crates/ratatosk-resp/src/parse.rs:166-179 | agrees with the specification: the value, more input needed, or an invalid integer |
| RespDescribe.DescribeBulk | crates/ratatosk-resp/src/parse.rs:181-228 | agrees with the specification on every length (-1, negative, too large, incomplete) and on a missing final CRLF |
| RespDescribe.DescribeNull | crates/ratatosk-resp/src/parse.rs:327-337 | agrees with the specification of a null |
| RespDescribe.DescribeInline | crates/ratatosk-resp/src/parse.rs:343-360 | agrees with the specification of an inline command: the length limit counts only while no LF is present |
| RespDescribe.DescribeArray | crates/ratatosk-resp/src/parse.rs:230-275 | the loop over elements agrees with the recursive specification, including the depth check that precedes the length |
| RespDescribe.DescribeMap | crates/ratatosk-resp/src/parse.rs:277-325 | the loop over keys and values agrees with the recursive specification |
| RespDescribe.DescribeFrameAt | crates/ratatosk-resp/src/parse.rs:99-122 | phase one describes, at any offset and depth, what the specification parses there, with all offsets inside the consumed bytes |
| RespDescribe.MaterializePrefix | crates/ratatosk-resp/src/parse.rs:511-562 | materializing from the consumed bytes alone gives the frame the offsets describe in the whole buffer |
| RespDescribe.Parse | crates/ratatosk-resp/src/parse.rs:83-93 | both phases together return the specified outcome; a frame comes off the front of the buffer, anything else leaves it alone |
| RespStability.FrameStable | crates/ratatosk-resp/src/parse.rs:83-337 | a parsed frame and every error except an overlong inline line are unchanged by appending any bytes |
| RespStability.TooLongUntilLf | crates/ratatosk-resp/src/parse.rs:343-352 | an overlong inline line stays refused under appended bytes exactly until an LF arrives |
| RespStability.DecidedUnlessLineCompleted | crates/ratatosk-resp/src/parse.rs:83-352 | appending bytes leaves a decided outcome as it is if and only if it is not an overlong line that the bytes complete |
| RespStability.ProperPrefixUndecided | crates/ratatosk-resp/src/parse.rs:83-337 | before its last byte a frame is incomplete, or at worst an inline line already over the limit |
| RespRoundTrip.RoundTrip | crates/ratatosk-resp/src/parse.rs:83-337 | for every encodable frame, depth and trailing bytes, parsing the encoding gives the frame back and consumes exactly the encoding |
| RespRoundTrip.ParsedIsEncodable | crates/ratatosk-resp/src/parse.rs:99-337 | everything the parser returns, inline commands aside, is within the limits its own encoding must meet |
| RespRoundTrip.RoundTripsIffEncodable | crates/ratatosk-resp/src/parse.rs:83-337 | a frame round-trips through the wire if and only if it has no push, sequence or pinned version, no CR or LF in a line, and is within the size and nesting limits, a null array costing a level |
| RespRoundTrip.ReencodesIffWithinLimits | crates/ratatosk-resp/src/fuzz_support.rs:24-53 | re-encoding a parsed frame parses back to it if and only if it is not an inline command with more or longer arguments than an array may hold |
| RespRoundTrip.OversizedInlineDoesNotRoundTrip | crates/ratatosk-resp/src/parse.rs:343-360 | the failing input: one inline line with 1048577 arguments parses, and its re-encoding does not parse back |
| RespRoundTrip.CutLineIsRevised | crates/ratatosk-resp/src/parse.rs:347-352 | the one outcome later bytes revise: a long line refused when cut before its LF is accepted whole |
| RespRoundTrip.ProjectionParses | crates/ratatosk-resp/src/encode.rs:267-322 | the encoding for a version parses to the projected frame if and only if that frame is encodable |
| RespRoundTrip.PresentableProjects | crates/ratatosk-resp/src/encode.rs:267-322 | every reply within the limits, pushes, maps and line breaks included, projects to an encodable RESP2 frame: a flattened map just fits the array limit |
| RespRoundTrip.Resp2ClientReads | crates/ratatosk-resp/src/encode.rs:532-550 | so a RESP2 client reads it as its projection: maps flattened in order, pushes as arrays, line breaks as spaces, null kinds mapped |
| RespRoundTrip.DrainPrefix | crates/ratatosk-resp/src/parse.rs:83-93 | draining a prefix and then the rest yields what draining all at once yields |
| RespStability.FrameLocal | crates/ratatosk-resp/src/parse.rs:83-337 | bytes behind a frame play no part in parsing it: any prefix that holds the frame's own bytes gives the same result |
| RespRoundTrip.AnySplitSameFrames | crates/ratatosk-resp/src/parse.rs:83-93 | from any undecided rest, every way of cutting a calm stream into chunks yields the same frames, error and leftover |
| RespRoundTrip.SplitIndependentIffCalm | crates/ratatosk-resp/src/parse.rs:83-93 | for every stream: all ways of cutting it give the same outcome if and only if no frame boundary starts an inline line whose LF lies more than 65536 bytes in |
| RespRoundTrip.LongLineIffCut | crates/ratatosk-resp/src/parse.rs:343-352 | such a line is exactly the input that is refused as overlong when cut somewhere but not when whole |
| RespRoundTrip.RestlessCut | crates/ratatosk-resp/src/parse.rs:347-352 | in every other stream there is a place to cut that changes the outcome |
| RespRoundTrip.EncodedPrefixIncomplete | crates/ratatosk-resp/src/parse.rs:83-337 | every proper prefix of a valid encoding parses to "incomplete" |
| RespRoundTrip.EncodedStreamDrains | crates/ratatosk-resp/src/fuzz_support.rs:24-53 | a pipeline of encoded frames drains to exactly those frames with nothing left over |
| RespRoundTrip.PipelineArrives | crates/ratatosk-resp/src/parse.rs:83-337 | any pipelined sequence of encoded frames, delivered in any split, yields exactly that sequence |
| RespRoundTrip.DrainAndRoundtrip | crates/ratatosk-resp/src/fuzz_support.rs:24-53 | the drain loop ends, returns the stream's frames and undecided rest, each frame having taken at least one byte, and all its round-trip checks pass if and only if no frame is an inline command too large for an array |
| Score.NextUpIsNext | crates/ratatosk-engine/src/keyspace.rs:374-385 | the next score up is above its argument with no score between, for every number but +infinity and both zeros alike |
| Score.OrdersAgree | crates/ratatosk-engine/src/keyspace.rs:104-153 | the total order of the index and numeric comparison agree except on the two zeros |
| Score.LessTotal | crates/ratatosk-engine/src/keyspace.rs:142-153 | entries are totally ordered by score, then member |
| SortedSet.ZSet.Insert | crates/ratatosk-engine/src/keyspace.rs:171-218 | after an insert both indexes describe the old relation with that member's score replaced; a NaN changes nothing; true only for a new member |
| SortedSet.ZSet.Remove | crates/ratatosk-engine/src/keyspace.rs:220-235 | after a removal both indexes describe the relation without the member; true exactly when it was there |
| SortedSet.ZSet.Rank | crates/ratatosk-engine/src/keyspace.rs:241-248 | a member's rank is its position in score order: ranks are exactly 0..len, one each, and a missing member has none |
| SortedSet.ZSet.RangeByScore | crates/ratatosk-engine/src/keyspace.rs:255-295 | for every pair of inclusive or exclusive bounds, infinities, both zeros and NaN included, the seeked range is the ordered filter of the whole set, and the map is never asked for an inverted range |
| SortedSet.FilterOfPick | crates/ratatosk-engine/src/keyspace.rs:262-295 | the seek bounds skip no entry the exact test accepts |
| SortedSet.CrossedMeansEmpty | crates/ratatosk-engine/src/keyspace.rs:283-290 | when the seek bounds cross, nothing is in range |
| SortedSet.IndexDetermined | crates/ratatosk-engine/src/keyspace.rs:154-160 | the ordered index is determined by the member table |
| SortedSet.CountBelowIsIndex | crates/ratatosk-engine/src/keyspace.rs:241-248 | the number of entries below the i-th is i |
| SortedSet.ZSet.RemoveRangeByScore | crates/ratatosk-engine/src/keyspace.rs:297-317 | removes exactly the members from the probe for min on in index order whose score is numerically at most max, counts them, and keeps both indexes in step |
| SortedSet.RemovesInclusiveRangeIff | crates/ratatosk-engine/src/keyspace.rs:297-317 | that is the inclusive range if and only if not (min is +0.0 with a stored -0.0 and +0.0 <= max) and not (min is a negative NaN with something at most max) |
| SortedSet.NegativeZeroIsMissed | crates/ratatosk-engine/src/keyspace.rs:301-308 | the failing input: a set holding one member at -0.0, range [+0.0, +0.0]: found by the range query, missed by the removal |
| Values.RecognisersAgree | crates/ratatosk-engine/src/keyspace.rs:496-573 | the syntactic recogniser of integer strings and the print-back recogniser of set members accept the same byte strings with the same value: exactly the printed i64s |
| Values.StringReadsBack | crates/ratatosk-engine/src/keyspace.rs:587-593 | storing any bytes as a string and reading them gives them back, integer-encoded or raw |
| IntSet.IntMembership | crates/ratatosk-engine/src/keyspace.rs:496-513 | a byte string is in an integer set exactly when it prints one of its integers |
| IntSet.MembersSize | crates/ratatosk-engine/src/keyspace.rs:819-825 | a strictly sorted integer list stands for as many byte strings as it has integers |
| IntSet.BinarySearch | crates/ratatosk-engine/src/keyspace.rs:831-840 | finds the position of a member or where it belongs |
| IntSet.InsertAt | crates/ratatosk-engine/src/keyspace.rs:862-896 | inserting at the searched position keeps the list strictly sorted and adds exactly that member |
| IntSet.RemoveAt | crates/ratatosk-engine/src/keyspace.rs:898-915 | removing a position keeps the list strictly sorted and takes away exactly that member |
| IntSet.StoredSet.constructor | crates/ratatosk-engine/src/keyspace.rs:612-627 | stands for exactly the given members; compact if and only if there are at most 512 and all are printed integers |
| IntSet.StoredSet.Len | crates/ratatosk-engine/src/keyspace.rs:819-825 | the number of members in either encoding |
| IntSet.StoredSet.Contains | crates/ratatosk-engine/src/keyspace.rs:831-840 | membership in either encoding |
| IntSet.StoredSet.Insert | crates/ratatosk-engine/src/keyspace.rs:862-896 | the members gain exactly this one, across the upgrade on a non-integer or on the 513th member; the answer says whether it was new; integer sets stay strictly sorted with at most 512 members |
| IntSet.StoredSet.Remove | crates/ratatosk-engine/src/keyspace.rs:898-915 | the members lose exactly this one; the answer says whether it was there |
| IntSet.StoredSet.AsTable | crates/ratatosk-engine/src/keyspace.rs:508-513 | the upgrade keeps the members |
| Keyspace.SyncExpiresExact | crates/ratatosk-engine/src/keyspace.rs:1191-1202 | updating the deadline index for one key keeps it exactly the keys with a positive deadline |
| Keyspace.FootprintInsert | crates/ratatosk-engine/src/keyspace.rs:1451-1469 | what an insert does to the sum of the object estimates |
| Keyspace.FootprintRemove | crates/ratatosk-engine/src/keyspace.rs:1550-1561 | what a removal does to the sum of the object estimates |
| Keyspace.RenameFacts | crates/ratatosk-engine/src/keyspace.rs:1569-1587 | renaming moves only the key-length share of the estimate, releases an overwritten target in full, never underflows, and keeps the deadline index exact, onto itself included |
| Keyspace.DataUpdateOk | crates/ratatosk-engine/src/keyspace.rs:1151-1225 | the storage invariant (exact deadline index, exact counters, versions only for watched keys and below the next version, watched_keys equal to their number) survives any data update whose index and counter follow |
| Keyspace.TablesUpdateOk | crates/ratatosk-engine/src/keyspace.rs:1151-1225 | the same for an update of the WATCH tables |
| DataState.DataState.constructor | crates/ratatosk-engine/src/keyspace.rs:1246-1259 | empty databases satisfy the invariant |
| DataState.DataState.Insert | crates/ratatosk-engine/src/keyspace.rs:1451-1469 | stores the value, returns the previous one, keeps the invariant, touches nothing else |
| DataState.DataState.Remove | crates/ratatosk-engine/src/keyspace.rs:1550-1561 | removes and returns the value, keeps the invariant, touches nothing else |
| DataState.DataState.TakeWithEstimate | crates/ratatosk-engine/src/keyspace.rs:1591-1598 | takes a value with its exact share of the counter |
| DataState.DataState.InsertWithEstimate | crates/ratatosk-engine/src/keyspace.rs:1600-1608 | puts a taken value back under a free key, adding exactly the carried estimate |
| DataState.DataState.MoveKey | crates/ratatosk-engine/src/keyspace.rs:1591-1608 | a move between databases succeeds exactly when the source has the key and the target does not, conserves the sum of the two counters, keeps the invariant and leaves every other database alone |
| DataState.DataState.Rename | crates/ratatosk-engine/src/keyspace.rs:1563-1587 | the target maps to what the source mapped to, the source is gone, an existing target is overwritten, renaming onto itself included; the invariant is kept |
| DataState.DataState.SetKeyExpiry | crates/ratatosk-engine/src/keyspace.rs:1612-1619 | changes the deadline of an existing key in value and index together |
| DataState.DataState.MutateString | crates/ratatosk-engine/src/keyspace.rs:1471-1546 | edits a string, integer-encoded, shared or missing, through its bytes; an edit that reports no change stores nothing; a key of another type is left alone; counter and index stay exact |
| DataState.DataState.WatchKey | crates/ratatosk-engine/src/keyspace.rs:1334-1342 | registers one more reference and returns the key's current version, zero when none was ever recorded |
| DataState.DataState.UnwatchKey | crates/ratatosk-engine/src/keyspace.rs:1346-1357 | releases one reference; the last one drops the key's version |
| DataState.DataState.RecordModification | crates/ratatosk-engine/src/keyspace.rs:1164-1171 | a watched key gets a version newer than all before, any other key changes nothing |
| DataState.DataState.TouchKeyVersion | crates/ratatosk-engine/src/keyspace.rs:1844-1850 | skipping when watched_keys is zero loses no recording |
| DataState.DataState.RecordWatchedExisting | crates/ratatosk-engine/src/keyspace.rs:1173-1189 | records exactly the watched keys that exist, in any order |
| DataState.DataState.PurgeExpiredKey | crates/ratatosk-engine/src/keyspace.rs:1622-1637 | removes the key exactly when it is expired, and records it |
| DataState.DataState.PurgeExpiredKeys | crates/ratatosk-engine/src/keyspace.rs:1640-1654 | removes exactly the expired keys, records exactly those, and leaves every other database alone |
| DataState.DataState.LazyFreeDel | crates/ratatosk-engine/src/keyspace.rs:1852-1864 | a lazy delete removes the key with its accounting and records it; a missing key changes nothing, and other databases never change |
| DataState.DataState.ClearDb | crates/ratatosk-engine/src/keyspace.rs:1795-1801 | a flush empties the database, with counter and index, and records exactly the watched keys it held; others are untouched |
| DataState.DataState.ClearAllDbs | crates/ratatosk-engine/src/keyspace.rs:1821-1828 | the same for all databases |
| DataState.DataState.SwapDbs | crates/ratatosk-engine/src/keyspace.rs:1803-1819 | contents and counters change sides, registrations stay with the index, and exactly the watched keys with a value on either side are recorded |
| DataState.DataState.LoadFromSnapshot | crates/ratatosk-engine/src/keyspace.rs:1381-1405 | databases present in both get the snapshot's contents with rebuilt index and counter; exactly the watched keys that had a value or get one are recorded |
| DataState.DataState.Rebuild | crates/ratatosk-engine/src/keyspace.rs:1388-1400 | one pass over loaded data gives the exact index and counter |
| DataState.DataState.RecomputeMemory | crates/ratatosk-engine/src/eviction.rs:220-240 | from any drifted counters each becomes the sum of its objects' estimates again |
| DataState.RecordedCompose | crates/ratatosk-engine/src/keyspace.rs:1166-1189 | writes that record what they change compose |
| WatchRuns.WatchSafety | crates/ratatosk-engine/src/keyspace.rs:1164-1189 | over every run in which a registration is held, whatever other clients watch or unwatch, the key's version equals the one at WATCH time if and only if no modification of that key was recorded |
| WatchRuns.RunFacts | crates/ratatosk-engine/src/keyspace.rs:1334-1364 | along a run the reference count is the balance of registrations and releases, and a recorded key's version is newer than any before the run |
| WatchRuns.Perform | crates/ratatosk-engine/src/keyspace.rs:1436-1654 | every storage operation, string edits by any closure included, keeps the invariant and is one WATCH event that explains it: a registration, a release, a touch, or a write; purge, lazy delete, flush, swap, load, eviction and the expiry cycle record every watched key whose value they change; none touches an LRU clock |
| WatchRuns.RunAll | crates/ratatosk-engine/src/keyspace.rs:1436-1879 | any sequence of operations keeps the storage invariant, and its trace is a run in which each event explains its operation |
| WatchRuns.RunFromEmpty | crates/ratatosk-engine/src/keyspace.rs:575-586 | no operation sets a clock: on every run from empty databases whose inserted and loaded values carry the clock zero they are created with, all keys score the same under the LRU policies, and under the LFU policies |
| WatchRuns.RunHolds | crates/ratatosk-engine/src/keyspace.rs:1334-1357 | a registration that the operations never release more often than it is added is held over their run |
| WatchRuns.WatchThenRun | crates/ratatosk-engine/src/keyspace.rs:1334-1364 | WATCH, then any operations that leave the registration in place: the version is the one WATCH returned if and only if no operation recorded the key, and then nobody touched it and no background operation changed its value |
| Sampling.Reservoir | crates/ratatosk-engine/src/eviction.rs:321-330 | for every random choice the reservoir yields exactly min(samples, candidates) distinct in-range positions |
| Sampling.SampleKeys | crates/ratatosk-engine/src/eviction.rs:321-344 | and so as many distinct keys of the set, all of them when the sample is large enough |
| Eviction.SelectCandidate | crates/ratatosk-engine/src/eviction.rs:305-403 | a returned key exists and is eligible; with at least one sample none is returned only when nothing is eligible; when samples cover every database no eligible key scores higher |
| Eviction.BestIn | crates/ratatosk-engine/src/eviction.rs:314-356 | the best sampled key of one database |
| Eviction.LruPrefersOlderIff | crates/ratatosk-engine/src/eviction.rs:86-108 | of two keys whose clocks were touched at different seconds below 2^32, the earlier one is preferred if and only if its second is the lower one modulo 2^24 |
| Eviction.LruWrapPrefersNewer | crates/ratatosk-engine/src/eviction.rs:91-108 | the failing input: a key touched at second 0x1000000 is preferred over one touched at 0xFFFFFF |
| Eviction.UntouchedScoresTie | crates/ratatosk-engine/src/eviction.rs:409-421 | while every stored clock is zero, the LRU and LFU policies give every key one score |
| Eviction.CandidatesAreEligible | crates/ratatosk-engine/src/eviction.rs:314-321 | the deadline index lists exactly the keys a volatile policy may evict |
| Eviction.PerformEviction | crates/ratatosk-engine/src/eviction.rs:245-297 | each eviction lowers memory by at least 88 bytes; with samples at least 1 the run ends under the limit, after 128 evictions, or with no eligible key left; an ineligible key (one without a TTL under a volatile policy) is never removed; nothing but removals happens, the count is exact, and exactly the evicted keys are recorded for WATCH |
| Eviction.Drop | crates/ratatosk-engine/src/eviction.rs:267-269 | one eviction lowers the counters by exactly the object's estimate and records the key |
| Eviction.ActiveExpireCycle | crates/ratatosk-engine/src/expiry.rs:126-204 | whatever the threshold, a cycle removes only expired keys, and exactly all of them from every database when the lookups cover every deadline index; its count equals the drop in key count, and exactly the removed keys are recorded for WATCH |
| Eviction.ExpireIn | crates/ratatosk-engine/src/expiry.rs:133-193 | one database of a cycle: the same for its sampled keys, with the number sampled and, when the lookups cover the index, the number expired; other databases untouched |
| Eviction.EarlyStopIff | crates/ratatosk-engine/src/expiry.rs:119-125 | with every deadline index sampled in full, stopping behind the first database below the threshold would leave what the cycle leaves if and only if no database behind one below the threshold holds an expired key |
| Eviction.EarlyStopIsIgnored | crates/ratatosk-engine/src/expiry.rs:195-199 | the failing input: one live deadline in the first database, one expired key in the second; the cycle removes it, a stop behind the first would not |
| Eviction.ExpireOne | crates/ratatosk-engine/src/expiry.rs:171-191 | a sampled key is removed, and recorded, exactly when it still exists and is expired |
| Hll.WriteThenRead | crates/ratatosk-engine/src/hll.rs:111-149 | a written 6-bit register reads back and every other register keeps its value, for every blob, index and value |
| Hll.WriteKeepsHeader | crates/ratatosk-engine/src/hll.rs:128-149 | a register write leaves the 16 header bytes alone |
| Hll.SetRegister | crates/ratatosk-engine/src/hll.rs:128-149 | the in-place write, one or two bytes, is in bounds and does what the register lemmas are about |
| Hll.WriteRegs | crates/ratatosk-engine/src/hll.rs:128-149 | on the register vector a write is a point update |
| Hll.SketchUnique | crates/ratatosk-engine/src/hll.rs:173-209 | the registers are determined by the set of elements |
| Hll.AddsDependOnSetOnly | crates/ratatosk-engine/src/hll.rs:179-209 | two sequences of adds with the same elements leave the same registers, whatever the order or repetition, for every hash |
| Hll.AddSketch | crates/ratatosk-engine/src/hll.rs:179-209 | adding an element to a sketch of a set gives the sketch of the set with it |
| Hll.MergeIsUnion | crates/ratatosk-engine/src/hll.rs:274-294 | merging sketches of A and B gives the registers of A union B |
| Hll.MergedIsUnion | crates/ratatosk-engine/src/hll.rs:277-294 | the same for any number of sources, those of the wrong length counting as empty |
| Hll.WordRoundTrip | crates/ratatosk-engine/src/hll.rs:156-171 | little-endian header bytes read back |
| Hll.CacheReadsBack | crates/ratatosk-engine/src/hll.rs:156-171 | a written cache reads back and leaves the registers and the first eight bytes alone |
| Hll.CreatedIsEmpty | crates/ratatosk-engine/src/hll.rs:89-104 | a created blob is valid, has all registers zero and an invalid cache: the sketch of the empty set |
| Hll.Create | crates/ratatosk-engine/src/hll.rs:90-99 | builds that blob |
| Hll.Add | crates/ratatosk-engine/src/hll.rs:176-209 | the registers become those with the element added, true exactly when they changed; the cache stays truthful; a blob of the wrong length is first replaced by an empty one |
| Hll.MergeOne | crates/ratatosk-engine/src/hll.rs:285-291 | the register loop computes the registerwise maximum and leaves the header alone |
| Hll.Merge | crates/ratatosk-engine/src/hll.rs:274-294 | merges every source of the right length in turn and leaves a truthful cache |
| Hll.MergedIsMax | crates/ratatosk-engine/src/hll.rs:285-291 | each merged register is the largest of the destination's and those of the sources of the right length |
| Hll.MergesOnlyValidIff | crates/ratatosk-engine/src/hll.rs:274-294 | the merge is the documented one, over the valid sources alone, if and only if no invalid source of the right length has a register above the destination's and above that of every valid source |
| Hll.WrongMagicIsMerged | crates/ratatosk-engine/src/hll.rs:281-284 | the failing input: a blob of 12304 bytes without the magic is merged |
| Hll.Counted | crates/ratatosk-engine/src/hll.rs:243-254 | on a blob with a truthful cache the count equals a full recount; a blob of the wrong length counts 0 |
| Hll.CountAndCache | crates/ratatosk-engine/src/hll.rs:256-268 | returns the same count, stores it, changes no register, and keeps the cache truthful |
| Hll.RunBlob | crates/ratatosk-engine/src/hll.rs:176-294 | after any run of adds, merges and caching counts the blob is the sketch of its elements and the count is a full recount |
| Hll.CountDependsOnSetOnly | crates/ratatosk-engine/src/hll.rs:243-254 | two blobs over the same elements give the same count, however built and whatever they have cached |
| Slot.GenerateTable | crates/ratatosk-engine/src/slot.rs:8-26 | each table entry is the register after eight division steps of its index |
| Slot.LookupIsFold | crates/ratatosk-engine/src/slot.rs:30-33 | one table lookup does eight bit steps |
| Slot.FoldIsDivision | crates/ratatosk-engine/src/slot.rs:28-35 | folding bits in at the top of the register is long division of the message followed by sixteen zero bits by x^16 + 0x1021 |
| Slot.Crc16 | crates/ratatosk-engine/src/slot.rs:28-35 | for every byte string the table-driven CRC is that remainder |
| Slot.TagOfTagged | crates/ratatosk-engine/src/slot.rs:37-48 | the tag is what stands between the first opening brace and the next closing one |
| Slot.TagComplete | crates/ratatosk-engine/src/slot.rs:37-48 | the whole key is hashed exactly when it has no non-empty tag |
| Slot.TagIdempotent | crates/ratatosk-engine/src/slot.rs:37-48 | extracting a tag twice changes nothing |
| Slot.KeyHashSlot | crates/ratatosk-engine/src/slot.rs:50-54 | a slot lies below 16384 and is the CRC of the tag modulo 16384 |
| Slot.SlotOfTag | crates/ratatosk-engine/src/slot.rs:50-54 | a key's slot is the slot of its tag, so keys with the same tag share a slot |
| Blocking.BlockingState.Register | crates/ratatosk-engine/src/clients.rs:50-71 | the registration replaces the client's earlier one and goes to the back of every queue; an existing notifier is kept, a missing one is added, and no other notifier changes |
| Blocking.BlockingState.Clear | crates/ratatosk-engine/src/clients.rs:73-91 | ends the client's registration, keeping its notifier and everybody else's order |
| Blocking.BlockingState.RemoveClient | crates/ratatosk-engine/src/clients.rs:93-96 | ends the registration and drops this client's notifier and no other |
| Blocking.BlockingState.NotifyKeys | crates/ratatosk-engine/src/clients.rs:98-116 | on every run exactly the clients whose current registration on a written key is oldest are notified, and each of them has a notifier |
| Blocking.BlockingState.HasWaiters | crates/ratatosk-engine/src/clients.rs:46-48 | true exactly when some client is registered |
| Blocking.DequeueInOrder | crates/ratatosk-engine/src/clients.rs:73-91 | taking a client out keeps queues and registrations inverse, without empty queues, in registration order |
| Blocking.EnqueueInOrder | crates/ratatosk-engine/src/clients.rs:59-68 | so does adding one at the back |
| Blocking.FrontIsOldest | crates/ratatosk-engine/src/clients.rs:98-109 | the front of a queue is the oldest registration on its key, and a key without a queue has none |
| Blocking.OncePerQueue | crates/ratatosk-engine/src/clients.rs:59-65 | no client is twice in a queue |
| Tracking.TrackingState.TrackKey | crates/ratatosk-engine/src/tracking.rs:32-56 | adds or replaces one registration, keeps the two indexes inverse and all others as they were |
| Tracking.TrackingState.ConfigureBroadcast | crates/ratatosk-engine/src/tracking.rs:58-75 | prefixes are stored sorted without repetition and match the same keys; other trackers are untouched |
| Tracking.TrackingState.HasWatchers | crates/ratatosk-engine/src/tracking.rs:28-30 | when false, no write is addressed to anybody |
| Tracking.TrackingState.InvalidateKeys | crates/ratatosk-engine/src/tracking.rs:77-134 | per target, the sorted duplicate-free list of exactly the written keys that some key or prefix watcher not suppressed for this writer sends there; every watcher of a written key is consumed, from both indexes |
| Tracking.TrackingState.Consume | crates/ratatosk-engine/src/tracking.rs:88-108 | one written key: all its watchers leave both indexes, the unsuppressed ones report it |
| Tracking.TrackingState.Announce | crates/ratatosk-engine/src/tracking.rs:110-125 | one written key: the matching, unsuppressed prefix watchers report it |
| Tracking.TrackingState.ClearTracker | crates/ratatosk-engine/src/tracking.rs:136-155 | the tracker leaves every key, its prefixes and the broken redirects; nobody else's registration changes |
| Tracking.TrackingState.ClearTarget | crates/ratatosk-engine/src/tracking.rs:157-183 | exactly the redirections to the target fall back to their trackers, which are returned in order and marked broken |
| Tracking.TrackingState.RemoveClient | crates/ratatosk-engine/src/keyspace.rs:2018-2020 | afterwards nothing whatsoever is addressed to the client, and all other trackers' registrations are conserved, redirected ones falling back to themselves |
| Tracking.SortedUnique | crates/ratatosk-engine/src/tracking.rs:128-131 | a sorted list without repetition is determined by its elements |
| Tracking.SortDedupSorted | crates/ratatosk-engine/src/tracking.rs:128-131 | sorting and dropping repetitions leaves such a list |
| PubSub.JoinInverse | crates/ratatosk-engine/src/pubsub.rs:100-134 | a subscription adds one pair to an index and keeps its two maps exact inverses without empty sets |
| PubSub.LeaveInverse | crates/ratatosk-engine/src/pubsub.rs:136-209 | an unsubscription takes one pair away and does the same |
| PubSub.RemoveFrom | crates/ratatosk-engine/src/pubsub.rs:458-490 | the removal loop takes away exactly the client's pairs |
| PubSub.LeaveAll | crates/ratatosk-engine/src/pubsub.rs:446-456 | so does unsubscribing from each listed name in turn |
| PubSub.PubSubState.SetQueueLimit | crates/ratatosk-engine/src/pubsub.rs:85-89 | later registrations use the new limit; every existing queue keeps its capacity |
| PubSub.PubSubState.RegisterClient | crates/ratatosk-engine/src/pubsub.rs:91-98 | opens a fresh empty queue of capacity max(hard limit, 1) and makes it the client's registration |
| PubSub.PubSubState.SubscribeChannel | crates/ratatosk-engine/src/pubsub.rs:100-110 | adds exactly this pair to its index and returns the client's total number of subscriptions |
| PubSub.PubSubState.SubscribeShardChannel | crates/ratatosk-engine/src/pubsub.rs:112-122 | adds exactly this pair to its index and returns the client's total number of subscriptions |
| PubSub.PubSubState.SubscribePattern | crates/ratatosk-engine/src/pubsub.rs:124-134 | adds exactly this pair to its index and returns the client's total number of subscriptions |
| PubSub.PubSubState.UnsubscribeChannel | crates/ratatosk-engine/src/pubsub.rs:136-159 | takes exactly this pair out of its index and returns the remaining total |
| PubSub.PubSubState.UnsubscribeShardChannel | crates/ratatosk-engine/src/pubsub.rs:161-184 | takes exactly this pair out of its index and returns the remaining total |
| PubSub.PubSubState.UnsubscribePattern | crates/ratatosk-engine/src/pubsub.rs:186-209 | takes exactly this pair out of its index and returns the remaining total |
| PubSub.PubSubState.SendToClient | crates/ratatosk-engine/src/pubsub.rs:301-336 | enqueues exactly when the client has a sender whose queue is open and has room; otherwise the message is dropped and so is the sender, for good |
| PubSub.PubSubState.Publish | crates/ratatosk-engine/src/pubsub.rs:346-400 | each subscriber of the channel and of each matching pattern is sent its message exactly once, and the result is the number enqueued |
| PubSub.PubSubState.PublishShard | crates/ratatosk-engine/src/pubsub.rs:402-424 | the same for shard channels |
| PubSub.PubSubState.UnsubscribeAll | crates/ratatosk-engine/src/pubsub.rs:444-456 | the client leaves all three indexes; senders and queues stay |
| PubSub.PubSubState.RemoveClient | crates/ratatosk-engine/src/pubsub.rs:458-493 | the client leaves all three indexes and loses its sender; nobody else changes |
| PubSub.PubSubState.Drain | crates/ratatosk-engine/src/pubsub.rs:434-440 | the receiver gets everything pending in order |
| PubSub.PubSubState.DropReceiver | crates/ratatosk-engine/src/pubsub.rs:329-334 | a dropped receiver closes its queue |
| PubSub.SendOk | crates/ratatosk-engine/src/pubsub.rs:315-316 | enqueuing keeps the delivery invariant |
| PubSub.SendFails | crates/ratatosk-engine/src/pubsub.rs:317-334 | dropping the sender keeps it too: nothing more is ever given to that registration |
| PubSub.RegisterOk | crates/ratatosk-engine/src/pubsub.rs:91-98 | so does registering again |
| PubSub.ReceivedIsPrefix | crates/ratatosk-engine/src/pubsub.rs:301-336 | on every run, what a client received within one registration is a gap-free prefix of the messages addressed to it, followed by what is still pending |
| AuditChain.BuildNext | crates/ratatosk-engine/src/security.rs:590-622 | the next entry continues the chain at its head and carries the hash of the previous hash, event and payload |
| AuditChain.RenameKeeps | crates/ratatosk-engine/src/security.rs:277-292 | renaming a log to a free name leaves the retained entries as they are |
| AuditChain.AuditTrail.Rotate | crates/ratatosk-engine/src/security.rs:261-293 | wherever it is interrupted and whichever removals and renames fail, rotation keeps the last entry and the order, and drops only oldest entries when no rename fails |
| AuditChain.AuditTrail.Open | crates/ratatosk-engine/src/security.rs:474-482 | rotates a full log and opens or creates the current one, keeping the invariant whatever fails |
| AuditChain.AuditTrail.Append | crates/ratatosk-engine/src/security.rs:468-494 | opens the log, writes the line, syncs: the entry is in the log after success and possibly after a failed sync or a crash, never after an earlier failure; the log may be rotated but never loses its last entry |
| AuditChain.AuditTrail.WriteCheckpoint | crates/ratatosk-engine/src/security.rs:426-466 | before the rename the old checkpoint stays, after it the new one is in place; success is reported only when the directory is synced too |
| AuditChain.AuditTrail.Advance | crates/ratatosk-engine/src/security.rs:624-673 | log first, checkpoint second: a failed append, even one whose line was written, leaves chain and checkpoint alone; after a reported append the chain in memory is at the new entry and clean exactly when the checkpoint was confirmed; the invariant holds after a crash at any step |
| AuditChain.LatestLogState | crates/ratatosk-engine/src/security.rs:373-406 | reading current log and rotations newest first finds the last retained entry |
| AuditChain.ResolveIsLast | crates/ratatosk-engine/src/security.rs:515-546 | a checkpoint that does not lead the log never hides the log's last entry |
| AuditChain.AuditTrail.Load | crates/ratatosk-engine/src/security.rs:548-570 | a restart resumes at the last line written, reported or not, whatever the crash left behind, rewriting the checkpoint exactly when it differs |
| AuditChain.SafeMeans | crates/ratatosk-engine/src/security.rs:590-673 | what the invariant gives: the log ends with the last line written and its numbers never go down, the checkpoint never leads it, a clean chain matches the checkpoint, and, when every line was written at the end of the chain, numbers go up and, without a failed rename, each retained entry continues the one before |
| AuditChain.RunTrail | crates/ratatosk-engine/src/security.rs:548-673 | all of that over every run of events, restarts and deaths, failed appends before and after the line is written, checkpoint failures and crashes before any disk operation; the log is an unbroken chain when no rename fails and the process is restarted after each append that failed to sync |
| AuditRotation.UnreportedAppend | crates/ratatosk-engine/src/security.rs:482-493 | after a line that was written though its sync failed, the next entry continues the log if and only if the counter is saturated and the hashes collide |
| AuditRotation.ShiftedRetains | crates/ratatosk-engine/src/security.rs:277-292 | an uninterrupted rotation, whichever removals and renames fail, retains exactly the logs that were neither removed nor replaced |
| AuditRotation.FailedRenameLeavesGap | crates/ratatosk-engine/src/security.rs:287-292 | the failing input outside the promise: four names, the second rename fails, and an entry in the middle is lost |
| AuditRotation.RotationKeepsChainIff | crates/ratatosk-engine/src/security.rs:261-293 | an uninterrupted rotation of an unbroken log, whichever removals and renames fail, leaves it unbroken if and only if every gap (logs with entries lost between two that stay) is hidden: the counter saturated before it and the entry behind it carrying the hash before it; below saturation, if and only if there is no gap |
| AuditRotation.AllRenamedKeepsChain | crates/ratatosk-engine/src/security.rs:261-293 | so when every rename succeeds, whatever removals fail, an unbroken log stays unbroken |
| AuditRotation.StuckLogStays | crates/ratatosk-engine/src/security.rs:287-292 | when removing a log and renaming the newer one onto it both fail, nothing of it is lost |

## Left out

- Sockets, scheduling, shared-memory transport, persistence codecs, commands, configuration, ACLs, replication,
  statistics and metrics: outside the modelled core.
- Rate limiters, `normalize_range`, `clamp_index_range` and the getters beside the modelled methods: they would
  only add easy members.
- Text of parse errors: an error is its kind, with the offending marker byte where there is one.
- Text of the audit log and checkpoint files, and their parsing: an entry is its number, previous hash and hash.
- Sharing of buffers: a zero-copy slice is its bytes; that it is not copied is not stated.
- Locks: each locked operation is one atomic step, with `nat` version counters that do not wrap.
- `direct.rs` and edits of collections in place through a write guard: they bypass the memory counters. Only the
  correction afterwards is modelled, as DataState.DataState.RecomputeMemory.
- DataState.DataState.MutateString: the edit is a function of the bytes and must leave them alone when it reports
  no modification, as the source asks of its callers.
- DataState.DataState.InsertWithEstimate: for a key that is free in the target and the estimate it was taken with,
  as the source asks of its callers.
- Values.RecognisersAgree: about byte strings; the `itoa` printer is `Decimal.Print`.
- Eviction.PerformEviction: starts from exact counters; from drifted ones the counters say nothing about memory.
- Hll.Counted: the floating-point estimate itself is a parameter; its accuracy is not modelled.
- Tracking.TrackingState.RemoveClient: the messages sent to detached trackers and the removal from the blocking
  registry happen beside it in the source; the registry's part is Blocking.BlockingState.RemoveClient.
- PubSub.PubSubState.Publish: glob matching and lossy UTF-8 conversion are one parameter.
- AuditChain.AuditTrail.Append: a line is written whole or not at all; a torn line is not a step of the model.
- AuditChain.RunTrail: an unbroken chain is promised for runs in which no rename fails; when one does, order, last
  entry, recovery and checkpoint are still kept, and AuditRotation.RotationKeepsChainIff says when the chain is.
- Eviction.ActiveExpireCycle: the threshold test divides in `real` where the source divides in `f64`; no clause
  depends on its outcome.
