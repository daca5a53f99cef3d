# DATO quorum-timestamping core in Dafny

This project models the decision logic of DATO, a protocol in which a client obtains a
certified "time of observation" for a message from a set of validators.

- A client fans a write out to every validator. Each validator stamps the message with its
  clock, signs `keccak256(namespace ‖ timestamp ‖ message)` and stores the record.
- The client counts the replies that carry its message and a valid signature. Once the count
  reaches the quorum rule `has_reached_quorum`, it certifies the message. The certificate holds
  the median of the collected timestamps and the aggregate of the collected signatures.
- Reading one message works the same way, with two tallies: validators that hold the record
  (Available) and validators that sign that they do not (Unavailable).
- A range read merges the logs whose signatures all verify, then sorts the result by timestamp.
- Validators are listed in a comma-separated registry file.

The model has one module per part of the program:

| module | file | models |
|---|---|---|
| `Common` | common.dfy | `src/common.rs`: timestamps with `u128` arithmetic, the digest preimage, records and logs |
| `Sorting` | sorting.dfy | a stable insertion sort and counting lemmas, used for `Vec::sort` and `sort_by_key` |
| `Median` | median.dfy | `CertifiedRecord::certified_timestamp` |
| `Quorum` | quorum.dfy | `has_reached_quorum` |
| `Client` | client.dfy | the reply folds of `Client::write`, `Client::read_message` and `Client::read` |
| `Store` | store.dfy | `InMemoryStore` and the bounded insertion-ordered map behind it |
| `Validator` | validator.dfy | the `ValidatorSpec` impl and the request dispatch's response and publish decision |
| `Text` | text.dfy | `str::split`, `BufRead::lines`, `u64` parsing and hex decoding, as the registry uses them |
| `Registry` | registry.dfy | `FilesystemRegistry::read_from_file`, `ValidatorInfo::identity`, the file registry's `Registry` impl |
| `Wrappers` | wrappers.dfy | `Option` and `Result` |

## How the program's environment is modelled

- **Cryptography** is the `Crypto` datatype. It is a record of uninterpreted functions:
  - `keccak256`;
  - BLS `sign` and `verify`;
  - public key derivation and `PublicKey::from_bytes`;
  - the message id the client compares in `read_message`;
  - the digest of an `UnavailableMessage`.

  Every operation takes it as a parameter. The ghost predicate `SignaturesVerify` states the one
  fact some lemmas need: a signature made with a secret key verifies under its public key.
- **Replies** to one request form a sequence of slots in arrival order. An empty slot is a request
  that failed or timed out. A slot holds the validator index and either the deserialised body or
  nothing, when deserialisation failed. `FromConnectedValidators` states what the client's
  connection set guarantees: every index is a key of the validator map, and no validator answers
  twice. `connect_validator` inserts keys and sockets under the same index
  (src/client/client.rs:71-72). An index need not lie below `n`, because the map may hold any
  `u64` keys.
- **The clock** (`Timestamp::now`) is a parameter `now`.
- **The order in which `read`'s verification tasks finish** is a parameter `completion`. It is a
  permutation of the task numbers.
- **Panics** that the program's own structure rules out are preconditions:
  - the median of an empty list, which `write` and `read_message` never take, since their vectors
    have `n` entries and quorum with `n = 0` stops earlier;
  - `expect("Validator not found")` for a replying index, since replies come only from
    connected validators.

  Four panics are reachable from ordinary inputs, so they are outcomes instead:
  - `expect("Quorum passed")` with zero validators (`MissingSignature`);
  - `u128` overflow when the two middle timestamps are added (`TimestampOverflow`). This panic
    exists only in a build with overflow checks (the debug profile). A release build wraps the
    sum instead; see `Common.TimestampAdd` under "## Left out";
  - `timestamps[index]` for a counted vote whose index is not below `n` (`IndexOutOfRange`,
    src/client/client.rs:154, 374 and 395). The validator map may hold sparse indices, so this
    is reachable;
  - `parts[2]` or `parts[3]` on a registry line with fewer than three or four comma-separated
    fields (src/registry/filesystem.rs:34 and 40). The model reports it as the load error
    `FieldMissing`, not as a separate panic value.
- **The aggregate signature** is the sequence of signatures added to it, in order.

## Where the code and the design description differ

The model follows the code in every case below.

- **Median.** For an even count, `certified_timestamp` returns the floor-average of the two middle
  timestamps (src/common.rs:110-112). It does not return the lower middle value. The result need
  not be any validator's timestamp: see `Median.EvenExampleAverages`.
- **Quorum.** The rule counts validators and ignores stake.
  - `votes >= floor(2n/3)` for `n >= 3`.
  - All `n` votes for `n < 3`, which includes `n = 0`.

  This is below `ceil(2n/3)` whenever `2n` is not a multiple of 3. With four validators, two
  votes are a quorum, so two disjoint quorums exist (`Quorum.FourValidatorsSplit`). For every
  other non-zero `n`, any two quorums share a validator (`Quorum.QuorumsOverlap`).
- **Zero-filled timestamp vectors.** `write` and `read_message` pre-allocate one timestamp per
  validator, set to 0. The median is therefore taken over the zeros of validators that did not
  vote as well (`Median.ZeroPaddedExample`).
- **Test expectation.** tests/mod.rs:102 expects 2 timestamps for 3 validators. The vector always
  has `n` entries.
- **Unavailability** carries no deadline. A validator answers Unavailable exactly when its store
  lacks the record.
- **`read` merge.** The loop `while let Some(Ok(Some(log)))` ends at the first verification task
  that rejects its log (src/client/client.rs:277). Valid logs whose tasks finish after that task
  are dropped as well, not only the rejected one.
- **Message field.** `CertifiedRecord.message` is declared `Option<Message>`, but `write` assigns a
  `Message`. The model stores `Some(message)`.
- **Reply loops.** All three client loops are `while let Some(Some(..))`. So the first failed or
  timed-out request ends collection, even when later replies would have arrived.
- **Registry columns.** The registry's doc comment lists five columns:
  `index, private_key, pubkey, stake, socket`. The code reads the socket from field 3 and never
  reads a stake, which matches the four columns `bin/gen_keys.rs` writes.
- **Socket format.** `bin/gen_keys.rs:23` writes `dato-validator-{i}:8222` as the socket. A
  `SocketAddr` parser rejects this, so socket parsing is a parameter. The generated-file lemmas
  state both cases: the file loads when every socket text is accepted, and fails with
  `BadSocket(0)` when the first one is not.

Several names are used but not defined in the source files modelled here. Each is an
uninterpreted function of `Crypto`, or the closest definition that is shown:
- `message.record_digest` (src/validator/mod.rs:63) is modelled as the `Record::digest` preimage;
- `Message::digest` is called with one argument at src/client/client.rs:349; that comparison is `Crypto.messageId`;
- `UnavailableMessage::create_signed` and `UnavailableMessage::digest`;
- `CertifiedUnavailableMessage::certified_timestamp` is modelled as the same sort as `CertifiedRecord`'s.

## Model

| member | source | states |
|---|---|---|
| Common.TimestampAdd | src/common.rs:78-84 | `Timestamp + Timestamp` is `u128` addition: defined only below 2^128, and the sum minus either operand is the other |
| Common.TimestampDiv | src/common.rs:86-92 | `Timestamp / k` is floor division: `r*k <= t < r*k + k` |
| Common.WrappingTimestampAdd | src/common.rs:112 | in a release build the `u128` sum wraps modulo 2^128 and equals the checked sum whenever that does not overflow |
| Common.WrappedMidpointBelowBoth | src/common.rs:110-112 | in a release build, two middle timestamps whose sum overflows average to a value below both of them |
| Common.WrappedMidpointExample | src/common.rs:110-112 | two middle timestamps of 2^127 average to 0 in a release build |
| Common.MidpointBetween | src/common.rs:110-112 | the floor-average of two ordered timestamps lies between them |
| Common.TimestampLeBytes | src/common.rs:25 | `to_le_bytes` of a `u128` has 16 bytes whose little-endian value is the timestamp |
| Common.Pow256Is128Bits | src/common.rs:50 | 16 bytes span exactly the `u128` range |
| Common.LeBytesRoundTrip | src/common.rs:25 | reading back `width` little-endian bytes yields the value modulo 256^width |
| Common.DigestPreimage | src/common.rs:22-29 | the hashed bytes are the namespace, then 16 bytes encoding the timestamp, then the message, with nothing else |
| Common.MessageDigest | src/common.rs:21-29 | the rule as written: Keccak-256 of the namespace, the timestamp as 16 little-endian bytes, and the message bytes, with no separators or lengths (`Common.DigestPreimage`, `Common.PreimageInjective`) |
| Common.RecordDigest | src/common.rs:193-202 | a record's digest is the message digest at the record's timestamp, because both hash the same preimage |
| Common.PreimageInjective | src/common.rs:22-29 | within one namespace, the preimage determines the timestamp and the message |
| Common.PreimageAmbiguousAcrossNamespaces | src/common.rs:22-29 | with no length prefix, namespace `[0]` with message `[0]` and the empty namespace with message `[0,0]` give the same preimage |
| Common.Len | src/common.rs:214-216 | the number of records, which is 0 exactly for the empty log |
| Common.IsEmpty | src/common.rs:218-220 | a log is empty iff its length is 0 |
| Common.Extend | src/common.rs:210-212 | extending appends the other log's records after the log's own, and the lengths add |
| Sorting.SortBy | src/client/client.rs:286 | sorting by a key yields a permutation of the input that is ordered by the key |
| Median.SortTimestamps | src/common.rs:109 | `timestamps.sort()` yields an ascending permutation of the same length |
| Median.CertifiedTimestamp | src/common.rs:108-116 | the rule as written: the middle of the sorted timestamps. Its contract: some input lies at or below the result and some at or above it |
| Median.Middle | src/common.rs:110-115 | on a sorted list, the middle entry for an odd length and the floor-average of the two middle entries for an even one: twice the result is the sum of the two middle entries, rounded down to even |
| Median.CertifiedTimestampIsMedian | src/common.rs:106-116 | odd count: the result is the middle-ranked timestamp. Even count: it is the floor-average of the two middle-ranked ones. Either way it lies between the smallest and the largest input |
| Median.OddMedian | src/common.rs:113-114 | for an odd count, the middle of the sorted list has rank `n/2` in the input |
| Median.EvenMedian | src/common.rs:110-112 | for an even count, the result averages the timestamps ranked `n/2-1` and `n/2` |
| Median.SortedRank | src/common.rs:109-114 | the element at index `k` of the sorted copy is the `k`-th smallest of the input |
| Median.SortKeepsAscending | src/common.rs:109 | sorting an ascending list leaves it unchanged |
| Median.SortIgnoresOrder | src/common.rs:109 | two permutations of one another sort to the same list |
| Median.CertifiedTimestampOrderIndependent | src/common.rs:108-116 | the certified timestamp depends only on the multiset of timestamps, not on their arrival order |
| Median.CertifyRecord | src/common.rs:108-116 | `certified_timestamp(&mut self)` returns the median and leaves the record's timestamps as their sorted permutation; message and signature are untouched |
| Median.OddExample | src/common.rs:113-114 | {100, 103, 105} certifies 103 |
| Median.EvenExampleAverages | src/common.rs:110-112 | {100, 103, 105, 999} certifies 104, which is not one of the inputs |
| Median.ZeroPaddedExample | src/common.rs:110-112 | two votes of four leave two zeros in the vector; [100, 102, 0, 0] certifies 50 |
| Quorum.HasReachedQuorum | src/client/client.rs:578-585 | the rule as written: with fewer than three validators every one must vote, otherwise at least `floor(2n/3)` votes. Its contract: all `n` votes are always a quorum, and no votes never are when `n > 0` |
| Quorum.QuorumWithoutDivision | src/client/client.rs:578-585 | for `n < 3`, quorum iff every validator voted; for `n >= 3`, iff `3v + 2 >= 2n`, that is, `v >= floor(2n/3)` |
| Quorum.QuorumMonotone | src/client/client.rs:578-585 | for vote counts up to `n`, more votes never lose a quorum |
| Quorum.UnanimityIsQuorum | src/client/client.rs:579-582 | `n` of `n` is a quorum for every `n`, including 0 of 0 |
| Quorum.NoVotesNoQuorum | src/client/client.rs:578-585 | with at least one validator, zero votes are no quorum |
| Quorum.Examples | src/client/client.rs:584 | 2 of 3, 2 of 4 and 4 of 6 are quorums; 1 of 3, 1 of 4 and 3 of 6 are not; 2 validators need both votes |
| Quorum.QuorumsOverlap | src/client/client.rs:584 | except with 0 or 4 validators, two quorums together exceed `n`, so they share a validator |
| Quorum.FourValidatorsSplit | src/client/client.rs:584 | with four validators, two disjoint pairs are both quorums |
| Client.LiveLength | src/client/client.rs:118 | the `while let Some(Some(..))` loop sees exactly the slots before the first failed request |
| Client.RepliesDistinct | src/client/client.rs:53-108 | one request per connected validator: reply indices are distinct, and each is a key of the validator map |
| Client.RepliesBounded | src/client/client.rs:53-108 | no more replies arrive than the validator map has keys, that is `n` |
| Sorting.DistinctWithin | src/client/client.rs:53-108 | the counting helper behind `Client.RepliesBounded`: a list of distinct values drawn from a set is no longer than the set |
| Client.Tally | src/client/client.rs:118-159 | there are no more votes than replies, and every vote comes from a reply the acceptance test took |
| Client.TallyStep | src/client/client.rs:146-154 | an accepted reply adds exactly one vote; a rejected one adds none |
| Client.TallyGrows | src/client/client.rs:118-159 | reading more replies never decreases the vote count |
| Client.TallyPrefixShorter | src/client/client.rs:118-159 | the replies read so far cast no more votes than all the live replies |
| Client.TalliesDisjoint | src/client/client.rs:346-397 | when no reply can count for both tallies, the two counts together stay within the number of replies |
| Client.Signatures | src/client/client.rs:146-150 | the aggregate holds the counted votes' signatures, in order |
| Client.TimestampVector | src/client/client.rs:111 | the timestamp vector always has one entry per validator |
| Client.TimestampVectorStep | src/client/client.rs:154 | counting a vote whose index is below `n` sets exactly that validator's entry to its timestamp; a vote from any other index changes no entry |
| Client.IndicesBelowAppend | src/client/client.rs:154 | one more vote keeps every index below `n` iff the earlier votes did and the new index is below `n` |
| Client.IndicesBelowPrefix | src/client/client.rs:118-159 | if every vote of a tally has an index below `n`, so does every vote of a prefix of it |
| Client.CountVote | src/client/client.rs:146-154 | counting a vote increments the count, sets its timestamp entry and appends its signature, exactly as the tally with that vote; it is out of range iff its index is not below `n` |
| Client.TimestampVectorEntries | src/client/client.rs:111-154 | when every voter's index is below `n` (otherwise the loop has panicked) and no validator votes twice, each voter's entry is its timestamp and every non-voter's entry is 0 |
| Client.EmptyTallyHasNoQuorum | src/client/client.rs:156-158 | a reply arrives only when there are validators, and then no votes are no quorum |
| Client.AcceptsWrite | src/client/client.rs:121-142 | the rule as written: a write reply counts when it deserialises, carries the submitted message, and its signature verifies under the replying validator's key over the record digest (`Validator.HonestWriteAccepted` shows an honest reply passes) |
| Client.WriteVotesVerify | src/client/client.rs:129-142 | every counted write vote is from a known validator that replied, and its signature verifies over the record digest of the submitted message at the vote's timestamp |
| Client.WriteStep | src/client/client.rs:121-154 | one reply updates votes, timestamps and aggregate exactly as the tally of one more slot; it panics iff the reply is counted and its index is not below `n` |
| Client.TallyWrite | src/client/client.rs:111-159 | the loop stops at the first quorum, at the end of the live replies, or at the first counted vote whose index is not below `n`; no quorum occurred earlier |
| Client.Write | src/client/client.rs:81-176 | the index panic iff a vote read before the stop has an index not below `n`, and never when all live votes are in range. Otherwise: `NoQuorum{got, needed=n}` iff the live replies never reach quorum. With no validators, the missing-signature panic. Otherwise a certificate with the submitted message, the counted signatures, and the sorted zero-padded timestamp vector, unless the median overflows |
| Client.WriteVerdict | src/client/client.rs:156-176 | after the loop: `NoQuorum` iff no quorum; with quorum, the missing-signature panic iff `n = 0`, the overflow panic iff the median does not fit, else the certificate of the counted votes |
| Client.WritePanicWithinLive | src/client/client.rs:118-159 | if every live vote has an index below `n`, so does every vote read before the stop |
| Client.WriteQuorumSettled | src/client/client.rs:156-163 | whether the tally at the stop has quorum equals whether all live replies do; with no validators nothing is counted |
| Client.MatchingMessage | src/client/client.rs:349-354 | the message kept is the last Available reply's whose id matches, taken before its signature is checked |
| Client.CountedAvailableSuppliesMessage | src/client/client.rs:349-373 | once an Available vote is counted, a matching message has been kept |
| Client.AcceptsAvailable | src/client/client.rs:346-361 | the rule as written: an `Available` reply counts when its message has the requested id and its record signature verifies under the replying validator's key |
| Client.AcceptsUnavailable | src/client/client.rs:374-381 | the rule as written: an `Unavailable` reply counts when its signature verifies under the replying validator's key; its id is not compared with the requested one (`Validator.HonestUnavailableAccepted` shows an honest answer passes) |
| Client.VotesExclusive | src/client/client.rs:346-397 | no reply counts as both Available and Unavailable |
| Client.VotesBelowCountWhileLive | src/client/client.rs:399-404 | before the loop stops on its own count rule, the two tallies together stay below `n` |
| Client.ReadMessageSettled | src/client/client.rs:399-441 | whether either tally has quorum at the stop equals whether it has over all live replies |
| Client.ReadMessageStep | src/client/client.rs:338-397 | one reply updates both tallies, vectors, aggregates and the kept message as the tallies of one more slot; it panics iff the reply is counted by either tally and its index is not below `n` |
| Client.InitialTallyMatches | src/client/client.rs:321-332 | the zero-filled vectors, empty aggregates and zero counts are the tallies of no replies |
| Client.TallyReadMessage | src/client/client.rs:321-405 | the loop stops at the first slot where either tally has quorum or together they reach `n`, at the end of the live replies, or at the first counted vote whose index is not below `n` |
| Client.ReadTalliesBounded | src/client/client.rs:346-404 | the two tallies over any prefix of the replies hold at most `n` votes together |
| Client.ReadPanicWithinLive | src/client/client.rs:338-405 | if every live vote of both tallies has an index below `n`, so does every vote read before the stop |
| Client.ReadMessage | src/client/client.rs:292-442 | the index panic iff a vote read before the stop has an index not below `n`, and never when all live votes are in range. Otherwise: Available certificate iff the Available tally has quorum; it certifies the message of the last Available reply whose id matched, read before its signature check (`Client.MatchingMessage`), and that message has the requested id. Else Unavailable iff that tally has quorum. Else `NoQuorum` with both counts. Each certificate carries its own tally's signatures and sorted vector |
| Client.ReadMessageVerdict | src/client/client.rs:413-442 | after the loop: the Available certificate iff that tally has quorum, `n > 0` and its median fits; else the Unavailable certificate iff that tally has quorum and its median fits; `NoQuorum` iff neither tally has quorum; the missing-signature panic iff `n = 0` |
| Client.Fetched | src/client/client.rs:243-252 | every fetched log is the body of a live reply, with that reply's validator index |
| Client.FetchLogs | src/client/client.rs:243-273 | the fetch loop keeps exactly the deserialised live replies, in arrival order |
| Client.FetchedFromValidators | src/client/client.rs:255 | every fetched log belongs to a known validator |
| Client.VerifyLog | src/client/client.rs:259-271 | a task accepts a log iff every record's signature verifies over its digest under the sender's key |
| Client.MergeLogs | src/client/client.rs:276-283 | the merge concatenates the accepted logs in completion order and stops at the first rejected one |
| Client.Read | src/client/client.rs:211-290 | the result is sorted by timestamp and is a permutation of the merged logs. Every record comes from a fully verifying log. When every log verifies, it is a permutation of all fetched logs together |
| Client.ReadProvenance | src/client/client.rs:286 | sorting the merged records keeps, for every record, a fully verifying log it came from |
| Client.ConcatPermutation | src/client/client.rs:276-283 | when all tasks succeed, the order they finish in does not change the multiset of merged records |
| Client.MergeOne | src/client/client.rs:259-283 | a verified log extends the merged log, or starts it when it is the first; a rejected log leaves the merged log as it was and ends the merge |
| Client.FirstRejected | src/client/client.rs:277-283 | the position where the merge stops: every log before it verifies, and the log at it, if any, does not |
| Client.MergedAtStop | src/client/client.rs:276-283 | once the loop has stopped at a rejected log or run out of tasks, what it merged is everything in completion order before that point |
| Client.MergedIsVerifiedPrefix | src/client/client.rs:276-283 | the merged records are the logs of a prefix of the completion order; every log in it verified, and the log after it was rejected |
| Client.MergedRecordsVerify | src/client/client.rs:259-283 | every merged record comes from a log that verified completely |
| Client.AllVerifiedMergesAll | src/client/client.rs:276-283 | if every log verifies, the merge is the concatenation in completion order |
| Store.FifoGet | src/validator/store.rs:61 | lookup finds nothing iff no entry has the key; otherwise it returns a record stored under that key |
| Store.FifoInsert | src/validator/store.rs:68-71 | the insert `write_one` performs: an existing key keeps its place and the size is unchanged; a new key becomes the newest entry and the size grows by one up to the capacity |
| Store.FifoInsertValid | src/validator/store.rs:27-31 | insertion keeps keys unique and at most `cap` entries |
| Store.FifoInsertGet | src/validator/store.rs:64-74 | with room for at least one entry, the inserted record is found under its key |
| Store.FifoEvictsOldest | src/validator/store.rs:29-31 | inserting a new key into a full map drops the oldest entry and appends the new one |
| Store.FifoReplaceInPlace | src/validator/store.rs:64-74 | inserting an existing key changes only that key's entry |
| Store.FifoInsertOthers | src/validator/store.rs:64-74 | lookups of other keys are unchanged unless their entry was the one evicted |
| Store.EntryOrigin | src/validator/store.rs:64-74 | after insertion every entry is the new one or was already present |
| Store.FilterWindow | src/validator/store.rs:49-53 | the filter keeps exactly the records with `start <= timestamp <= end`, each as often as it occurs, in their original order |
| Store.WithCapacity | src/validator/store.rs:36-38 | a new store is valid and answers every lookup and every range read with nothing |
| Store.ReadRange | src/validator/store.rs:42-56 | an unknown namespace gives an empty log; otherwise a record is returned iff it is stored in the namespace and inside the inclusive window, as often as it is stored, in insertion order |
| Store.ReadMessage | src/validator/store.rs:58-62 | an unknown namespace gives `None`; otherwise the result is the namespace map's lookup of `msg_id` |
| Store.WriteOne | src/validator/store.rs:64-74 | the record goes under its digest into its namespace's map, which is created on the first write; all other namespaces are unchanged |
| Store.WriteOneValid | src/validator/store.rs:27-31 | every namespace holds at most `cap` records, each key once |
| Store.WriteThenReadMessage | src/validator/store.rs:64-74 | with `cap > 0`, a written record is found under its digest |
| Store.WriteThenReadRange | src/validator/store.rs:42-74 | with `cap > 0`, a written record appears in every range read whose window contains its timestamp |
| Store.WriteOneIsolated | src/validator/store.rs:67-73 | a write changes no read of another namespace |
| Validator.NewInMemory | src/validator/mod.rs:54-56 | a new validator has an empty store of capacity 4096 per namespace and no subscriptions |
| Validator.Write | src/validator/mod.rs:60-70 | the record carries the message and the clock reading and is signed over its digest; exactly that record is stored, and the write is never refused |
| Validator.ReadRange | src/validator/mod.rs:72-74 | passes through to the store unchanged |
| Validator.ReadMessage | src/validator/mod.rs:76-85 | Available with the stored record iff the store has it; otherwise Unavailable for the requested id at the clock reading |
| Validator.Subscribe | src/validator/mod.rs:87-89 | adds the namespace to the active set and changes nothing else |
| Validator.SubscribeIdempotent | src/validator/mod.rs:87-89 | subscribing twice equals subscribing once; subscribing to an active namespace changes nothing |
| Validator.Handle | src/validator/mod.rs:140-203 | each request kind is answered by its operation: a write by `write`, a range read by `read_range`, a message read by `read_message`, a subscription by `subscribe` and the publisher port. A record is queued for publishing iff the request was a write to a subscribed namespace; only writes change the store; only subscriptions change the active set |
| Validator.HonestWriteAccepted | src/validator/mod.rs:60-69 | the record a validator returns from a write passes the client's write check |
| Validator.HonestUnavailableAccepted | src/validator/mod.rs:81-84 | a validator's Unavailable answer passes the client's signature check |
| Validator.HandleKeepsStoreHonest | src/validator/mod.rs:141-160 | handling any request keeps every stored record under its own digest and signed by the validator |
| Validator.HonestRangeReadVerifies | src/validator/mod.rs:72-74 | a range read from such a store passes the client's log verification |
| Text.Split | src/registry/filesystem.rs:31 | splitting on a separator yields at least one part, no part contains the separator, and joining the parts gives back the line |
| Text.SplitJoin | src/registry/filesystem.rs:31 | splitting a join of separator-free parts gives back exactly those parts |
| Text.LinesOfPieces | src/registry/filesystem.rs:29 | the lines are the pieces between line feeds, without a final empty piece; a piece loses a trailing carriage return exactly when a line feed followed it |
| Text.Lines | src/registry/filesystem.rs:29 | an empty text has no lines; otherwise the lines are those of its pieces split at line feeds, so no line contains a line feed |
| Text.LinesOfTerminated | src/registry/filesystem.rs:29 | a file of lines each terminated by a line feed reads back as those lines |
| Text.LinesOfUnterminated | src/registry/filesystem.rs:29 | lines joined by line feeds without a final one read back as those lines, and a carriage return ending the last line is kept |
| Text.PiecesWithoutCr | src/registry/filesystem.rs:29 | pieces that, the last one apart, do not end in a carriage return are their own lines, bar a final empty piece |
| Text.UnterminatedCrExample | src/registry/filesystem.rs:29 | `"a\r"` reads as the line `"a\r"`, while `"a\r\n"` reads as `"a"` |
| Text.ParseU64 | src/registry/filesystem.rs:33 | after dropping one optional leading `+`, the text is accepted iff it is non-empty, all decimal digits, and its value is below 2^64; the result is that value |
| Text.ParseFormattedU64 | src/registry/filesystem.rs:33 | every `u64` written in decimal parses back to itself |
| Text.SignExamples | src/registry/filesystem.rs:33 | `+7` parses, `+007` parses to 7; `-7`, `+`, the empty string and ` 7` do not |
| Text.DecimalString | bin/gen_keys.rs:23 | the decimal text of a number is non-empty, all digits, and denotes the number |
| Text.EncodeHex | bin/gen_keys.rs:20-21 | two hex digits per byte |
| Text.HexDecode | src/registry/filesystem.rs:35 | the rule as written: an optional `0x` prefix, then an even number of hex digits of either case. Its contract: a decoded text is the prefix plus exactly two digits per byte |
| Text.HexRoundTrip | src/registry/filesystem.rs:35 | hex decoding undoes `encode_prefixed`, with or without the `0x` prefix |
| Text.HexOddLengthRejected | src/registry/filesystem.rs:35 | an odd number of characters never decodes |
| Registry.ParseLine | src/registry/filesystem.rs:31-43 | an accepted line has at least four fields. The index is parsed from field 0, the key is the hex-decoded field 2, the socket is parsed from field 3, stake is 0 and `exists` is true |
| Registry.ParseLines | src/registry/filesystem.rs:29-44 | a successful load has one validator per line, in file order, each the parse of its line |
| Registry.ParseLinesFailsIffSomeLineFails | src/registry/filesystem.rs:29-46 | loading fails iff some line fails to read or to parse |
| Registry.ReadFromFile | src/registry/filesystem.rs:25-48 | a file that cannot be opened is an error. A loaded registry keeps the path and holds one validator per line, in order |
| Registry.ReadFromFileAllOrNothing | src/registry/filesystem.rs:29-46 | a readable file loads iff no line fails; there is no partial result |
| Registry.GeneratedLineParses | src/registry/filesystem.rs:31-43 | a line in the generated format whose socket text the socket parser accepts (an IP literal) parses to its index, decoded key and socket, whatever the private key field holds |
| Registry.GeneratedLineRejected | src/registry/filesystem.rs:31-43 | a line in the generated format whose socket text the socket parser rejects fails with `BadSocket`, though its index and key are well formed |
| Registry.ParsedLinesLoad | src/registry/filesystem.rs:25-48 | a readable file whose every line parses loads exactly the parsed validators, in file order |
| Registry.GeneratedLinesParse | src/registry/filesystem.rs:31-43 | when the socket parser accepts every socket text, every generated line parses to the validator with its index, decoded key and socket |
| Registry.GeneratedTextLines | src/registry/filesystem.rs:29 | the generated lines, each terminated by a line feed, read back as themselves |
| Registry.GeneratedFileLoads | src/registry/filesystem.rs:25-48 | when the socket parser accepts every socket text (IP literals), a generated file of `n` lines loads validators `0..n-1` in order, each with its key, stake 0, and a count of `n` |
| Registry.GeneratedFileRejected | src/registry/filesystem.rs:25-48 | when the socket parser rejects the first socket text, as a `SocketAddr` parser rejects the host names of bin/gen_keys.rs:23, the generated file fails to load with `BadSocket(0)` |
| Registry.Identity | src/registry/mod.rs:27-31 | the identity keeps the index and the BLS key |
| Registry.ValidatorCount | src/registry/mod.rs:46-48 | the count is the number of cached validators |
| Registry.AllValidators | src/registry/mod.rs:50-52 | returns the cached list unchanged and never fails |
| Registry.LoadedCountIsLineCount | src/registry/mod.rs:44-53 | a loaded registry counts and lists one validator per line of its file |

## Left out

- BLS signatures, `AggregateSignature` and Keccak-256 are uninterpreted functions. Key and
  signature byte formats are not modelled.
- The async machinery is replaced by input sequences: `FuturesUnordered`, `JoinSet`, tokio
  timeouts and the validator's `Future::poll` loop. The reply sequence and the completion order
  are parameters.
- JSON (de)serialisation via serde is reduced to "the body deserialised or it did not". So are
  the `serde_bls*` helpers and the `Request` wire format.
- The validator's response bytes, request sockets and publisher socket are not modelled. `Handle`
  returns the response value and the publish decision. When the publish queue is full, the
  source's `try_send` drops the record; that is not modelled.
- The client's `subscribe` and `subscribe_certified` are pub/sub socket plumbing, so they are left
  out. The HTTP API, the CLI binaries and the tests are left out too.
- The on-chain registry (`src/registry/contract.rs`, the contract bindings) is left out because its
  contract's source is not available. Stake bookkeeping, slashing and registration rules are not
  visible at all.
- `SocketAddr` parsing is a parameter of the registry parser.
- Reading a registry line can fail on I/O or invalid UTF-8. This is a per-line flag in the input
  and is not derived from bytes.
- Validator.ReadMessage: does not fix the Unavailable signature beyond being the secret key's
  signature over the uninterpreted unavailable digest of `(msg_id, now)`.
  `UnavailableMessage::create_signed` is not part of this model.
- Client.ReadMessage: the Unavailable certificate's timestamps are sorted as
  `certified_timestamp` sorts a `CertifiedRecord`'s. `CertifiedUnavailableMessage` is not part of
  this model.
- Client.Read: states that the result is sorted by timestamp, not that `sort_by_key` is stable.
  The model's sort is stable, but no contract relies on it.
- Store.FifoReplaceInPlace: `hashmore::FIFOMap` is not part of this model. Replacing an existing
  key in place, without moving it to the newest position, is an assumption about it.
- Store.FifoInsertGet: with `cap = 0` the model keeps nothing, so the lemma requires `cap > 0`.
  What `FIFOMap::with_capacity(0)` does is not visible.
- Registry.ParseLine: a line with fewer than three or four fields panics in the source at
  `parts[2]` or `parts[3]`; the model returns the error `FieldMissing` instead of a panic.
- Registry.GeneratedFileLoads: holds only for socket texts the socket parser accepts. The file
  `bin/gen_keys.rs` writes has host-name sockets (`dato-validator-{i}:8222`), which the standard
  `SocketAddr` parser rejects, so that file does not load (`Registry.GeneratedFileRejected`).
- Registry.ValidatorCount: `len() as u64` is modelled as reduction modulo 2^64. It equals the
  length whenever the length fits in 64 bits, which holds on 64-bit targets.
- Common.TimestampAdd: follows a build with overflow checks, where an overflowing sum of the two
  middle timestamps panics (`TimestampOverflow`). A release build wraps the sum instead, so
  `certified_timestamp` returns `((a + b) mod 2^128) / 2`, below both middle timestamps
  (`Common.WrappedMidpointBelowBoth`). Byzantine validators can reach this with timestamps of at
  least 2^127. The client operations and `Median.CertifiedTimestampIsMedian` do not model that
  outcome.
- `usize` overflow of vote counters is not modelled, because counts never exceed the validator
  count.
- `ValidatorInfo::identity` narrows `u64` to `usize`, which is lossless on 64-bit targets; the
  model keeps the value.
- `Log::len` and `Log::is_empty` work on the unbounded sequence length.
- Features of the protocol design that the code does not implement are not modelled:
  - certificate verification by third parties;
  - stake weights;
  - the attestation ledger;
  - equivocation rejection;
  - unavailability deadlines.
