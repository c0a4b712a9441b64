# Verified models of fight-csam packages

Dafny models of the stateful and algorithmic cores of the repository, with proofs of what they promise.
`dafny verify dfyconfig.toml` checks everything; there are no other files to build.

## What is modelled

**EvidenceVault** (`Decimal`, `Rfc3339`, `Custody`, `Retention`, `VaultSpec`, `InMemoryVault`, `DiskVault`,
`VaultProofs`, `DiskProtocol`, `DiskTrace`, `DiskScan`). The custody log is a class with its loops.
`VaultSpec` says on values what one operation does to one package, once for each vault; the two vault
classes are proved against it. `VaultProofs` quantifies over runs: what every package keeps, when the two
vaults agree, what a hold protects, what a retention sweep achieves. `DiskProtocol` interleaves the disk
vault's system calls between any number of threads, with failures and crashes, and proves the result
linearizable; `DiskTrace` holds every answer against what the caller's own steps asked for and ran into;
`DiskScan` lays a lock-free `ListExpired` over such a run.

**HashStream** (`Hex`, `Sorting`, `Text`, `Signing`, `Wire`, `SnapshotStore`). The canonical signing
payload with the exact condition under which two payloads coincide, the wire format, the TypeScript
recomputation of the payload from the wire record, the listing order and the diff.

**SafeMod** (`Limits`, `Wellbeing`). The bare exposure tracker and the session that drives it, as two
machines over arbitrary event sequences, and the aggregate monitor with 32- and 64-bit bounds.

**Matching** (`Hamming`, `PdqList`, `PdqMatcher`, `TrainGuard`). The Hamming metric, the early-exit list
loop of the two SDKs, the Rust matcher, the dataset scan and the byte-folding hash. The Python and
TypeScript versions of one loop share one model.

**Decisions** (`Shield`, `PromptShield`). Detector strategies, failure policies and retries; prompt scores
in exact reals.

## Where code and comments differ

The models follow the code.

- `packages/evidencevault/internal/custody/custody.go:32-34` says that modifying any earlier entry breaks
  the chain. The hash leaves out `PurposeRef` and the stored hash, and nothing covers the final entry or the
  length of the log. `TamperEvidence` gives the exact condition.
- `packages/evidencevault/internal/vault/vault.go:96` says the copy returned by `Get` protects the canonical
  custody log. The copy shares the log's pointer (`AppendThroughCopy`). The disk vault's copy does not.
- In memory, `PlaceHold` and `ReleaseHold` on a deleted package answer `ErrAlreadyDeleted` and change the
  hold flag all the same; the disk vault discards the change. This, an id no file name can hold, and a year
  the JSON encoder refuses are the only ways the vaults can differ (`StepAgreement`, `DiskRefinesMemory`).
- `ExtendForPreservation` can shorten retention (`ExtensionMayShorten`).
- `packages/hashstream/internal/signing/signing.go:164` calls the payload canonical. Ids with line breaks,
  which the service accepts, can make the payloads of different snapshots coincide (`PayloadCollision` says
  exactly when).
- `packages/safemod/src/limits.rs` announces a break with a resume time. Through `Session` that break is
  never committed: closing the item lifts the refusal at once, waiting does not
  (`AnnouncedBreakNotEnforced`; `AnnouncedBreakReached` is a run that gets there).
- The minimum distance the list detectors report is the first match's. It is the minimum if and only if no
  entry behind that match is strictly nearer (`MinimumExactlyWhen`; `ReportsFirstNotNearest` is a list where
  one is).
- The fail-open policy is said to drop failed detectors from the tally
  (`packages/csam-shield/node/src/index.ts:129-135`). Under consensus it does not (`AllowDropsFailures` says
  exactly when the decision differs).

## Modelling choices

- An instant is a number of nanoseconds since 0000-01-01T00:00:00Z; rendering is always in UTC. Go's `int`
  is 64 bits wide, so `itoa` of the least integer is a bare minus sign.
- Sequence numbers wrap at 64 bits, hence "position modulo 2^64".
- A custody log has at least one entry: `NewLog` puts it there and `Append` panics without it.
- A package record is a value of its fields; the JSON text layer is not modelled beyond its refusal of years
  outside 0 to 9999, which is an ordinary error of the operation.
- Operating-system failures are a parameter of each disk operation, and separate steps of the interleaving
  model. A rename is atomic and durable. The clock is a parameter. Random numbers in temporary names are
  arbitrary unused ones.
- In memory, `Store` accepts a log that a stored package already uses. What follows then is stated field by
  field; the operations on whole contents speak of vaults whose packages have a log each.
- `ListExpired` walks a map or a directory in arbitrary order, so its result is given as a set of distinct ids.
- Ed25519 (RFC 8032) is an abstract scheme in which a signature fits one payload.
- `toLowerCase` acts on ASCII, which is all a hash text contains. `Date.parse` and Go's time parser are
  defined on the texts the Go encoder writes.
- Scores and weights are exact reals; every threshold comparison proved keeps clear of rounding error.

## Model

| member | source | states |
|---|---|---|
| Custody.Log.constructor | packages/evidencevault/internal/custody/custody.go:46-60 | a new log holds one genesis entry, field by field, verifies and is not on hold |
| Custody.Log.Append | packages/evidencevault/internal/custody/custody.go:67-81 | refused exactly when the log ends in a deletion; otherwise adds one linked entry with the next sequence number; a well-formed log stays well-formed |
| Custody.Log.IsOnHold | packages/evidencevault/internal/custody/custody.go:84-94 | true exactly when the most recent hold action is a placement |
| Custody.Log.Verify | packages/evidencevault/internal/custody/custody.go:102-111 | accepts exactly the logs whose every link holds; a complaint names the first broken link |
| Custody.AppendKeepsWellFormed | packages/evidencevault/internal/custody/custody.go:67-81 | every append keeps the chain verifying, sequence numbers equal to positions and deletion only at the end |
| Custody.HoldAfterAppend | packages/evidencevault/internal/custody/custody.go:84-94 | appending moves the hold state exactly as the action says |
| Custody.FieldsFromTheRight | packages/evidencevault/internal/custody/custody.go:115-117 | joined fields can be read back from the right although the leading one may contain the separator |
| Custody.HashEntryInjective | packages/evidencevault/internal/custody/custody.go:115-117 | equal hashes if and only if operator, action, instant and sequence are equal, for every operator text |
| Custody.HashEntryFields | packages/evidencevault/internal/custody/custody.go:115-117 | split at the separator, the text ends in action, instant and sequence, after the fields of the operator |
| Custody.HashEntryTexts | packages/evidencevault/internal/custody/custody.go:17-23 | the exact text for each of the five actions |
| Custody.TamperEvidence | packages/evidencevault/internal/custody/custody.go:102-117 | rewriting a verifying log but not its stored hashes is detected if and only if a covered field of a non-final entry changed |
| Custody.PurposeRefUnprotected | packages/evidencevault/internal/custody/custody.go:115-117 | any purpose reference can be rewritten unnoticed |
| Custody.TruncationUndetected | packages/evidencevault/internal/custody/custody.go:102-111 | every prefix of a verifying log verifies |
| Decimal.ComputeItoa | packages/evidencevault/internal/custody/custody.go:119-136 | the digit loop, negation overflow included, computes the decimal text |
| Decimal.ItoaInjective | packages/evidencevault/internal/custody/custody.go:119-136 | no two 64-bit integers have the same text |
| Decimal.ItoaIsFormatInt | packages/evidencevault/internal/custody/custody.go:119-136 | it agrees with the standard rendering on every integer but the least |
| Decimal.FormatIntReads | packages/hashstream/internal/signing/signing.go:168 | the standard rendering reads back as the number, with a minus sign exactly below zero and no leading zeros |
| Decimal.FixedReads | packages/evidencevault/internal/custody/custody.go:116 | fixed-width fields read back as their number |
| Rfc3339.FormatInjective | packages/evidencevault/internal/custody/custody.go:116 | two instants with the same RFC 3339 text are equal, in any year |
| Rfc3339.FormatReadsBack | packages/evidencevault/internal/custody/custody.go:116 | cut at its fixed places, the text of a four-digit year reads back as date, second of the day and fraction |
| Rfc3339.NextDay | packages/evidencevault/internal/custody/custody.go:116 | each day number is followed by the next Gregorian date, by month lengths |
| Rfc3339.FirstDay | packages/evidencevault/internal/custody/custody.go:116 | day 0 is January 1 of year 0 |
| Rfc3339.DateOfDayNumber | packages/evidencevault/internal/custody/custody.go:116 | dates and day numbers correspond one to one |
| Rfc3339.UnixEpoch | packages/hashstream/internal/signing/signing.go:168 | Unix seconds count from the first instant of 1970 |
| Rfc3339.EncodableMeaning | packages/evidencevault/internal/vault/disk.go:140-143 | the encoder accepts exactly the years written as four digits without a sign |
| Rfc3339.YearLength | packages/evidencevault/internal/custody/custody.go:116 | the closed day count behind the text advances by the Gregorian length of every year, leap rules included |
| Retention.ExpiredMeaning | packages/evidencevault/internal/retention/retention.go:84-103 | expired means off hold and past both the storage time plus base duration and any preservation end |
| Retention.ExpiresAtMeaning | packages/evidencevault/internal/retention/retention.go:84-93 | the later of the two ends, or the zero time on hold |
| Retention.StateCell.ExtendForPreservation | packages/evidencevault/internal/retention/retention.go:110-117 | refused exactly after the storage time plus the schedule's maximum, leaving the state alone; otherwise only the preservation end changes |
| Retention.ExtensionMayShorten | packages/evidencevault/internal/retention/retention.go:84-117 | an accepted request shortens retention if and only if it precedes an earlier effective preservation end; never below the base |
| Retention.ExtensionsBounded | packages/evidencevault/internal/retention/retention.go:105-117 | after any sequence of requests retention ends between the base and the limits, and nothing else changed |
| InMemoryVault.InMemoryVault.Store | packages/evidencevault/internal/vault/vault.go:70-78 | takes a new id, refuses a used one and then changes nothing, shares the caller's log; with an unused log exactly the specified operation |
| InMemoryVault.InMemoryVault.Get | packages/evidencevault/internal/vault/vault.go:80-99 | logs the access unless deleted, returns the current value, and the returned struct holds the vault's own log |
| InMemoryVault.InMemoryVault.PlaceHold | packages/evidencevault/internal/vault/vault.go:101-110 | the whole new contents and reply, the flag changed even when the log refuses |
| InMemoryVault.InMemoryVault.ReleaseHold | packages/evidencevault/internal/vault/vault.go:112-121 | the same for a release |
| InMemoryVault.InMemoryVault.Delete | packages/evidencevault/internal/vault/vault.go:123-139 | refused on hold, then by the log; otherwise erases the ciphertext and keeps the rest |
| InMemoryVault.InMemoryVault.ListExpired | packages/evidencevault/internal/vault/vault.go:141-154 | exactly the expired undeleted ids, each once, in whatever order the map is walked |
| InMemoryVault.AppendThroughCopy | packages/evidencevault/internal/vault/vault.go:91-98 | an append through the returned copy changes the vault's log if and only if the package was not deleted |
| DiskVault.NamesDistinct | packages/evidencevault/internal/vault/disk.go:97-150 | record and temporary file names of different packages never collide, so cleanup removes no other file |
| DiskVault.RecordPath | packages/evidencevault/internal/vault/disk.go:86-98 | the record of a valid id is a file directly in the vault's directory; an id with a slash leads elsewhere |
| VaultSpec.ValidIdIsGuard | packages/evidencevault/internal/vault/disk.go:87-98 | the model's id condition is the guard of `pathFor`, `filepath.Base` included |
| VaultSpec.EncodableRecord | packages/evidencevault/internal/vault/disk.go:133-143 | a record encodes exactly when every time in it has a four-digit year |
| DiskVault.DiskVault.Lock | packages/evidencevault/internal/vault/disk.go:75-84 | the per-id lock is created on first use and taken; no other lock changes |
| DiskVault.DiskVault.ReadPkg | packages/evidencevault/internal/vault/disk.go:101-124 | over any directory: invalid id, I/O error, not found, undecodable or the record itself, each exactly when; over complete records the package of the id |
| DiskVault.DiskVault.WritePkg | packages/evidencevault/internal/vault/disk.go:128-166 | wherever it fails, the packages are either unchanged or the one package is replaced whole, exactly as the result says (`WriteEnds`); no other file changes and a temporary file stays only if its removal failed |
| DiskVault.DiskVault.Store | packages/evidencevault/internal/vault/disk.go:169-183 | the specified outcome; an I/O error exactly when the read failed or a record to be written could not be, and then no package changed (`FailsAt`, `Outcome`) |
| DiskVault.DiskVault.Get | packages/evidencevault/internal/vault/disk.go:188-209 | the specified outcome; an I/O error exactly when the read failed or a record to be written could not be, and then no package changed (`FailsAt`, `Outcome`) |
| DiskVault.DiskVault.PlaceHold | packages/evidencevault/internal/vault/disk.go:213-230 | the specified outcome; an I/O error exactly when the read failed or a record to be written could not be, and then no package changed (`FailsAt`, `Outcome`) |
| DiskVault.DiskVault.ReleaseHold | packages/evidencevault/internal/vault/disk.go:233-250 | the specified outcome; an I/O error exactly when the read failed or a record to be written could not be, and then no package changed (`FailsAt`, `Outcome`) |
| DiskVault.DiskVault.Delete | packages/evidencevault/internal/vault/disk.go:254-274 | the specified outcome; an I/O error exactly when the read failed or a record to be written could not be, and then no package changed (`FailsAt`, `Outcome`) |
| DiskVault.DiskVault.ListExpired | packages/evidencevault/internal/vault/disk.go:279-310 | with no other thread at work, exactly the expired undeleted ids, each once, temporary files skipped |
| DiskScan.ScanSound | packages/evidencevault/internal/vault/disk.go:276-310 | while other threads work, no id is returned twice and each was expired and undeleted at some moment of the scan |
| DiskScan.ScanComplete | packages/evidencevault/internal/vault/disk.go:276-310 | an id expired at the start is missing only if a hold or deletion of that package was committed during the scan; one expired throughout is returned |
| DiskScan.ExpiryStep | packages/evidencevault/internal/vault/disk.go:188-274 | no step but the rename of a hold or a deletion ends the expiry of a package |
| VaultProofs.StepAgreement | packages/evidencevault/internal/vault/disk.go:169-274 | one step of both vaults gives the same contents and reply if and only if it is none of the three named divergences |
| VaultProofs.DiskRefinesMemory | packages/evidencevault/internal/vault/disk.go:169-274 | both vaults give the same replies and packages after every prefix of a run if and only if no step of it diverges |
| VaultProofs.RefusalChangesNothing | packages/evidencevault/internal/vault/disk.go:169-274 | a refused operation leaves the disk contents alone, and the memory contents if and only if it flips no hold flag of a deleted package |
| VaultProofs.GetReturnsCurrent | packages/evidencevault/internal/vault/disk.go:185-209 | in both vaults the package handed out is the one now held, its access logged, and no other package moved |
| VaultProofs.MemReplies | packages/evidencevault/internal/vault/vault.go:70-139 | exactly when each reply and each error is given in memory |
| VaultProofs.DiskReplies | packages/evidencevault/internal/vault/disk.go:169-274 | the disk vault replies the same but for an invalid id or an unencodable record, each with its own error |
| VaultProofs.StoreThenGet | packages/evidencevault/internal/vault/vault.go:70-99 | a package stored and fetched is the stored one with one access more in its log |
| VaultProofs.DivergenceIsObservable | packages/evidencevault/internal/vault/vault.go:101-139 | after a refused hold on a deleted package the vaults answer the next delete differently |
| VaultProofs.DivergenceReached | packages/evidencevault/internal/vault/vault.go:70-139 | from two empty vaults, storing, deleting, holding and deleting again ends in different answers |
| VaultProofs.DivergenceWitness | packages/evidencevault/cmd/evidencevaultd/server.go:124-134 | packages meeting its conditions exist |
| VaultProofs.DiskEffectSound | packages/evidencevault/internal/vault/disk.go:188-274 | every committed record keeps the log well-formed, the flag equal to the log's hold state, deletion terminal with an erased ciphertext, and extends the earlier version |
| VaultProofs.MemEffectSound | packages/evidencevault/internal/vault/vault.go:80-139 | the same in memory, the flag tied to the log until deletion |
| VaultProofs.DiskLifecycle | packages/evidencevault/internal/vault/disk.go:169-274 | that invariant over every run; logs are only extended, and no package disappears |
| VaultProofs.MemLifecycle | packages/evidencevault/internal/vault/vault.go:70-139 | that invariant over every run in memory |
| VaultProofs.PlaceHoldHolds | packages/evidencevault/internal/vault/vault.go:101-110 | a successful placement puts the package on hold, in either vault |
| VaultProofs.HoldProtectsOnDisk | packages/evidencevault/internal/vault/disk.go:213-310 | until the next successful release a held package cannot be deleted, keeps its ciphertext and is never listed as expired |
| VaultProofs.HoldProtectsInMemory | packages/evidencevault/internal/vault/vault.go:101-154 | the same in memory |
| VaultProofs.SweepInMemory | packages/evidencevault/internal/vault/vault.go:123-154 | deleting listed ids one by one always succeeds and removes exactly those ids from the list |
| VaultProofs.SweepOnDisk | packages/evidencevault/internal/vault/disk.go:254-310 | the same on disk while the clock stays within four-digit years |
| VaultProofs.DiskStorable | packages/evidencevault/internal/vault/disk.go:86-98 | every reachable disk contents has valid ids and encodable records, as the sweep needs |
| VaultProofs.LogIsAcknowledgedCalls | packages/evidencevault/internal/vault/disk.go:169-274 | each log is its initial entries plus one entry for each acknowledged call, in order, with that call's operator, reference and time |
| DiskProtocol.StepInv | packages/evidencevault/internal/vault/disk.go:74-274 | every step of the interleaved protocol, a crash included, keeps the invariant |
| DiskProtocol.Linearizable | packages/evidencevault/internal/vault/disk.go:74-274 | after any interleaving and crashes: no partial record, the files are the sequential result of the operations that took effect in lock order, the renames are exactly those with something to write, replies are the sequential ones, and each finished call took effect between call and return or failed |
| DiskTrace.EveryAnswerExplained | packages/evidencevault/internal/vault/disk.go:169-274 | a finished call reports an I/O failure of its own if and only if one of its system calls failed since its invocation; otherwise its reply is the sequential one for the operation asked at the clock it read, and its rename ran if there was something to write |
| DiskTrace.TraceAgrees | packages/evidencevault/internal/vault/disk.go:169-274 | at every moment each thread is at the operation it was asked for, with the clock it read and the failures it met |
| DiskTrace.RenamesAreSteps | packages/evidencevault/internal/vault/disk.go:162 | the recorded renames are the rename steps of the run, one for one |
| DiskTrace.NoLitter | packages/evidencevault/internal/vault/disk.go:144-150 | without a crash or a failed removal no temporary file is left behind |
| DiskProtocol.MutualExclusion | packages/evidencevault/internal/vault/disk.go:74-84 | two threads in the critical section work on different packages |
| DiskProtocol.NoAppendLost | packages/evidencevault/internal/vault/disk.go:188-274 | in every reachable concurrent state no custody entry is lost and none is invented |
| DiskProtocol.SoundUnderConcurrency | packages/evidencevault/internal/vault/disk.go:188-274 | in every reachable concurrent state all packages are sound |
| DiskProtocol.HolderCanProceed | packages/evidencevault/internal/vault/disk.go:126-183 | a lock holder always has a next step that is not a failure |
| DiskProtocol.TenureStep | packages/evidencevault/internal/vault/disk.go:126-274 | every own step of a holder, failed or not, brings it nearer to unlocking; the steps of others leave it where it is |
| DiskProtocol.TenureBounded | packages/evidencevault/internal/vault/disk.go:126-274 | in any crash-free interleaving a holder has unlocked and returned after at most six steps of its own |
| DiskProtocol.NoDeadlock | packages/evidencevault/internal/vault/disk.go:74-84 | a waiting thread can take its lock or the holder can move |
| Hex.DecodeMeaning | packages/hashstream/internal/store/hash.go:10-21 | decoding yields given bytes if and only if the text, lowered, is their encoding |
| Hex.ParseMeaning | packages/hashstream/internal/store/hash.go:8-21 | exactly the 64-digit texts of a hash are accepted, in either case |
| Hex.ParseRefusal | packages/hashstream/internal/store/hash.go:10-21 | every other text is refused, by its length exactly when it is the text of some bytes |
| Hex.EncodedDigits | packages/hashstream/internal/signing/signing.go:177-179 | each byte is two digits, the greater first, with the values of RFC 4648 |
| Hex.EncodeOrdered | packages/hashstream/internal/signing/signing.go:180 | the order of the texts is the order of the bytes |
| Hex.EncodeInjective | packages/hashstream/internal/signing/signing.go:177-179 | different bytes have different texts |
| Hex.ParseHashesHex | packages/hashstream/internal/store/hash.go:25-35 | keeps order and length, or names the first bad index |
| Hex.ToHex | packages/hashkit/src/lib.rs:68-74 | the Rust rendering is the same 64-character text |
| Sorting.SortedUnique | packages/hashstream/internal/signing/signing.go:180 | sorted sequences with the same elements are equal |
| Sorting.SortStable | packages/hashkit-match/src/lib.rs:163-177 | sorting keeps the relative order of equivalent elements |
| Signing.SerializeHashes | packages/hashstream/internal/signing/signing.go:172-182 | the filled and sorted slice is the specified text |
| Signing.LinesCanonical | packages/hashstream/internal/signing/signing.go:171-182 | equal hash lines if and only if equal multisets of hashes |
| Signing.LinesAscend | packages/hashstream/internal/signing/signing.go:171-182 | the lines are those of the same hashes in ascending order, byte by byte |
| Signing.PayloadLines | packages/hashstream/internal/signing/signing.go:164-182 | split into lines, the payload is the id, the sorted hash texts and the Unix second |
| Text.LexMeaning | packages/hashstream/internal/signing/signing.go:180 | the string order is decided by the first difference, a prefix coming first |
| Signing.JoinInjective | packages/hashstream/internal/signing/signing.go:181 | joined hash lines can be read back |
| Signing.JoinCut | packages/hashstream/internal/signing/signing.go:181 | cutting joined lines at any line break cuts the list of lines |
| Signing.PayloadCollision | packages/hashstream/internal/signing/signing.go:164-182 | for all ids, exactly when two payloads coincide |
| Signing.PayloadCanonical | packages/hashstream/internal/signing/signing.go:164-182 | for ids without line breaks: equal payloads if and only if same id, same multiset of hashes and same Unix second |
| Signing.LineBreakCollision | packages/hashstream/internal/signing/signing.go:167-169 | a concrete family of different snapshots with the same payload |
| Wire.SnapshotCell.MarshalJSON | packages/hashstream/internal/store/json.go:32-52 | the record handed to the encoder, nil and empty lists kept apart |
| Wire.SnapshotCell.UnmarshalJSON | packages/hashstream/internal/store/json.go:56-85 | fails exactly on a bad hash text, leaving the receiver alone; otherwise the receiver is the record's snapshot |
| Wire.WireRoundTrip | packages/hashstream/internal/store/json.go:18-85 | what arrives is what was sent, an empty list as nil |
| Wire.WireFields | packages/hashstream/internal/store/json.go:18-52 | each JSON member carries the field of its name; what is left out and when encoding fails |
| Wire.SendAndReceive | packages/hashstream/internal/store/json.go:32-85 | unmarshal after marshal restores the snapshot, an empty list as nil |
| Wire.FloorOfFloor | packages/hashstream/sdk-ts/src/index.ts:154 | rounding down to milliseconds and then to seconds is rounding down to seconds, before 1970 too |
| Wire.SdkPayloadAgrees | packages/hashstream/sdk-ts/src/index.ts:151-159 | the SDK recomputes the very payload the service signed, for every snapshot that encodes |
| Wire.BothVerify | packages/hashstream/sdk-ts/src/index.ts:164-181 | both sides accept every signed snapshot and agree on every other |
| Wire.SignatureBinds | packages/hashstream/internal/signing/signing.go:188-204 | for all ids, a valid signature is valid on another snapshot if and only if their payloads collide; without line breaks, if and only if the signed content is the same |
| SnapshotStore.InMemoryStore.PutSnapshot | packages/hashstream/internal/store/store.go:120-125 | stores under the snapshot's id, replacing an earlier one |
| SnapshotStore.InMemoryStore.ListSnapshots | packages/hashstream/internal/store/store.go:137-158 | every matching snapshot once, later instants first and at the same instant the greater id; a limit keeps that many and leaves out none newer than those listed |
| SnapshotStore.ListingUnique | packages/hashstream/internal/store/store.go:137-158 | there is only one such listing, however the map is walked |
| SnapshotStore.InMemoryStore.LatestSnapshot | packages/hashstream/internal/store/store.go:160-169 | a snapshot of the source that none is later than, the greatest id among those, or none exactly when there is none |
| SnapshotStore.InMemoryStore.DiffSnapshots | packages/hashstream/internal/store/store.go:171-184 | the error cases and the exact diff |
| SnapshotStore.ComputeDiff | packages/hashstream/internal/store/store.go:186-231 | the counting loops give the set differences and the intersection; without inline hashes only counts are compared |
| SnapshotStore.DiffMeaning | packages/hashstream/internal/store/store.go:190-231 | added, removed and common count the hashes only in the later, only in the earlier and in both lists |
| SnapshotStore.DiffConserves | packages/hashstream/internal/store/store.go:201-230 | added plus common and removed plus common are the distinct sizes |
| SnapshotStore.DiffReversed | packages/hashstream/internal/store/store.go:190-231 | reversing swaps added and removed; with counts only it negates the change |
| SnapshotStore.DiffTriangle | packages/hashstream/internal/store/store.go:190-231 | for all snapshots, the exact condition for the triangle inequality; it always holds when at most one list is nil |
| SnapshotStore.NoChange | packages/hashstream/internal/store/store.go:190-231 | no change is reported exactly on equal sets, or equal counts when there are only counts |
| Limits.ShiftTracker.Check | packages/safemod/src/limits.rs:80-99 | the decision, in the order break, cap, continuous limit |
| Limits.ShiftTracker.RecordExposure | packages/safemod/src/limits.rs:103-123 | the whole new state, saturation included |
| Limits.ShiftTracker.RecordRest | packages/safemod/src/limits.rs:127-130 | ends the exposure window and nothing else |
| Limits.ShiftTracker.ItemsRemaining | packages/safemod/src/limits.rs:138-142 | zero exactly when a check with no break ahead answers that the cap is reached; otherwise what completes the reveals to the cap |
| Limits.RemainingBudget | packages/safemod/src/limits.rs:138-142 | in every session run the remaining budget and the granted reveals add up to the cap, and it is used up exactly when requests are refused for the cap |
| Limits.Session.RequestReveal | packages/safemod/src/lib.rs:89-103 | an exposure is recorded exactly when the reveal is granted |
| Limits.SessionExplained | packages/safemod/src/lib.rs:66-109 | the tracker's fields in terms of the events so far, for every run with a non-decreasing clock |
| Limits.RevealsCounted | packages/safemod/src/lib.rs:89-109 | reveals number exactly the counter and never exceed the cap |
| Limits.GrantedExactlyWhen | packages/safemod/src/lib.rs:89-109 | a request is granted if and only if the cap is not reached and every reveal since the last close is recent enough |
| Limits.StretchBounded | packages/safemod/src/lib.rs:89-109 | two reveals of one stretch are less than the continuous limit apart |
| Limits.AnnouncedBreakNotEnforced | packages/safemod/src/lib.rs:89-109 | a refused session is admitted again right after a close, and refused at any later time without one |
| Limits.AnnouncedBreakReached | packages/safemod/src/lib.rs:89-109 | a run that reaches such a refusal |
| Limits.DeadlineFromExposure | packages/safemod/src/limits.rs:103-123 | an active deadline was set by some recorded exposure |
| Limits.BreakEnforced | packages/safemod/src/limits.rs:80-130 | an active deadline never moves earlier and every check before it is refused, whatever is recorded, also when it saturates |
| Limits.BreakEnds | packages/safemod/src/limits.rs:80-130 | after the deadline, with a rest recorded and cap left, check allows |
| Limits.StretchOpens | packages/safemod/src/limits.rs:80-123 | for every run: how an exposure after a rest, after an elapsed break or past the window opens a stretch, and what every check in it then answers |
| Limits.StretchContinues | packages/safemod/src/limits.rs:103-123 | any other exposure leaves window and deadline alone |
| Limits.TrackerCounts | packages/safemod/src/limits.rs:103-130 | the count is exact up to its width, and a window is open unless at rest |
| Limits.LimitActsAgainAfterBreak | packages/safemod/src/limits.rs:103-123 | a run in which the limit acts again after an elapsed break |
| Limits.OverexposureCommitsBreak | packages/safemod/src/limits.rs:103-123 | revealing past the continuous limit, and nothing else, sets a deadline, this one; an elapsed one is cleared |
| Wellbeing.WellbeingMonitor.Record | packages/safemod/src/wellbeing.rs:80-86 | the new counters, saturating |
| Wellbeing.WellbeingMonitor.Report | packages/safemod/src/wellbeing.rs:95-112 | the report with the source's wrapping product and truncating casts |
| Wellbeing.CountersExact | packages/safemod/src/wellbeing.rs:80-86 | for histories of any length each counter is the true figure capped at its width |
| Wellbeing.HighMeanIsElevated | packages/safemod/src/wellbeing.rs:102-111 | a mean of 250 forces an elevated share of at least 2500 |
| Wellbeing.ReportExact | packages/safemod/src/wellbeing.rs:95-112 | for up to 2^32-1 signals the report is the exact one with mean at most 400 and share at most 10000, nothing wraps or truncates, and support is recommended exactly from a share of 2000 |
| Wellbeing.ReportMeaning | packages/safemod/src/wellbeing.rs:66-112 | by numbers of signals and without division: the cohort rule, mean and share as greatest whole numbers, support exactly from a fifth elevated |
| Wellbeing.OrderInvisible | packages/safemod/src/wellbeing.rs:54-112 | reports depend only on how many signals of each kind there were |
| Hamming.PopcountCorrect | packages/csam-shield/node/src/detectors/pdq.ts:55-60 | the parallel sum is the number of set bits, for all bytes |
| Hamming.DistanceTriangle | packages/hashkit/src/lib.rs:59-65 | triangle inequality |
| Hamming.DistanceZero | packages/hashkit/src/lib.rs:59-65 | distance zero exactly between equal hashes |
| Hamming.DistanceSymmetric | packages/hashkit/src/lib.rs:59-65 | symmetry, and at most eight bits a byte |
| Hamming.FlippedBit | packages/hashkit/src/lib.rs:59-65 | flipping any one bit is a distance of one |
| PdqList.HammingDistance | packages/csam-shield/node/src/detectors/pdq.ts:68-75 | the loop computes the distance, infinite on different lengths |
| PdqList.Scan | packages/csam-shield/node/src/detectors/pdq.ts:154-161 | despite the early exit, matched if and only if some entry is within the threshold; which distance is reported |
| PdqList.MinimumExactlyWhen | packages/csam-shield/node/src/detectors/pdq.ts:154-161 | for every list and threshold the reported distance is the minimum if and only if nothing behind the first match is strictly nearer |
| PdqList.ReportsFirstNotNearest | packages/csam-shield/python/src/csam_shield/detectors.py:159-168 | the witness: an exact match behind a near one is not the distance reported |
| PdqList.DeriveSyntheticHash | packages/csam-shield/node/src/detectors/pdq.ts:90-109 | the in-place loops compute seeding, folding and diffusion |
| PdqList.BothSpellingsAgree | packages/csam-shield/python/src/csam_shield/detectors.py:98-103 | masking before or after the exclusive or gives the same byte |
| PdqList.FoldIsModular | packages/csam-shield/node/src/detectors/pdq.ts:98 | the masked sum of wide integers in the fold is the byte sum of the model |
| PdqList.SeedValues | packages/csam-shield/node/src/detectors/pdq.ts:94 | lane i starts as 31 i + 7 modulo 256 |
| PdqList.EmptyInput | packages/csam-shield/node/src/detectors/pdq.ts:90-109 | the bytes derived from an empty input |
| PdqList.FoldTracksChange | packages/csam-shield/node/src/detectors/pdq.ts:95-99 | a changed byte leaves its lane different for ever after |
| PdqList.DiffusionInjective | packages/csam-shield/node/src/detectors/pdq.ts:102-107 | the carry pass loses nothing |
| PdqList.OneByteChangesHash | packages/csam-shield/python/src/csam_shield/detectors.py:86-103 | changing exactly one byte of any input changes the hash, for any width |
| PdqMatcher.Query | packages/hashkit-match/src/lib.rs:134-157 | the single pass returns exactly the head of the sorted list |
| PdqMatcher.QueryAll | packages/hashkit-match/src/lib.rs:165-179 | the filtered references in stable order of distance |
| PdqMatcher.QueryAllMeaning | packages/hashkit-match/src/lib.rs:159-179 | same elements as the filter, ascending, insertion order kept among equals |
| PdqMatcher.QueryDecides | packages/hashkit-match/src/lib.rs:134-179 | finds something if and only if some reference is within the threshold, the list detectors' verdict |
| PdqMatcher.NewMeaning | packages/hashkit-match/src/lib.rs:79-94 | a matcher exists exactly for a threshold of at most 256 and a set that is not empty; which error otherwise |
| PdqMatcher.QueryIsNearest | packages/hashkit-match/src/lib.rs:127-157 | the match found is a nearest reference |
| PdqMatcher.AlteredQueryStillMatches | packages/hashkit-match/src/lib.rs:134-157 | altering a query by e bits cannot hide a match at distance d while d + e is within the threshold |
| TrainGuard.Contains | packages/trainguard/src/trainguard/pipeline.py:262-268 | a hit or a miss is the true verdict in whatever order the set is walked; errors exactly on a query of the wrong length or from a malformed list |
| TrainGuard.MatchersAgree | packages/trainguard/src/trainguard/pipeline.py:262-268 | provider, list detectors and Rust matcher give one verdict: some entry within the threshold |
| TrainGuard.ScanDataset | packages/trainguard/src/trainguard/pipeline.py:118-142 | a finished scan counted every entry and reports exactly the matched ones with the first matching provider; every error is justified |
| TrainGuard.ReportedMeaning | packages/trainguard/src/trainguard/pipeline.py:124-142 | report rows and matched entries correspond one to one in input order |
| TrainGuard.FirstProviderMeaning | packages/trainguard/src/trainguard/pipeline.py:131-142 | the attribution is to the first provider that has the hash, if any has |
| Shield.CountsMeaning | packages/csam-shield/node/src/index.ts:118-120 | what the three tallies say about the individual detectors |
| Shield.RefusalsNest | packages/csam-shield/node/src/index.ts:113-146 | a stricter failure policy refuses whatever a laxer one refuses |
| Shield.StrategiesNest | packages/csam-shield/node/src/index.ts:148-163 | consensus implies majority implies any-match, under every policy |
| Shield.StrategiesMean | packages/csam-shield/python/src/csam_shield/shield.py:166-211 | match and miss in terms of the detectors, both directions |
| Shield.DecisionTable | packages/csam-shield/node/src/index.ts:113-163 | all three decisions under every policy and strategy, by who hit, who missed and who failed; a majority is more hits than clean misses |
| Shield.NoDetectors | packages/csam-shield/node/src/index.ts:132-139 | the decision without any result |
| Shield.HitsNeverUnmatch | packages/csam-shield/python/src/csam_shield/shield.py:183-211 | turning a clean miss into a hit never withdraws a match |
| Shield.AllowDropsFailures | packages/csam-shield/node/src/index.ts:129-135 | fail-open decides like the clean results alone if and only if it is not a consensus of unanimous hits beside a failure |
| Shield.RunDetector | packages/csam-shield/node/src/detectors/index.ts:34-77 | stops at the first clean attempt, at most one more than the retries, and contains the last failure's message |
| Shield.OwnPolicyWins | packages/csam-shield/node/src/detectors/index.ts:42-43 | a detector's own retry policy counts, the shield's is a default |
| PromptShield.MatchRules | packages/promptshield/src/promptshield/rules.py:217-225 | the signals are those of the matching rules, in rule order |
| PromptShield.ScoreMonotone | packages/promptshield/src/promptshield/rules.py:228-253 | matching more rules never lowers the score, the jump into the conjunction included |
| PromptShield.BootstrapCalibrated | packages/promptshield/src/promptshield/rules.py:41-173 | the shipped weights satisfy the condition the verdict proofs rest on |
| PromptShield.ScoreGap | packages/promptshield/src/promptshield/rules.py:237-253 | at least 0.8 with the conjunction, at most 0.4 without |
| PromptShield.ScoreMeaning | packages/promptshield/src/promptshield/rules.py:237-253 | the exact score from the whole weight, or from the heaviest signal of each kind and the bypass weight |
| PromptShield.PatternStageBlocksOnConjunction | packages/promptshield/src/promptshield/classifier.py:36-156 | by default the pattern stage blocks exactly on the conjunction and otherwise allows |
| PromptShield.HeuristicClassify | packages/promptshield/src/promptshield/neural.py:84-99 | the stage-two score and the extra signal of an evasion phrase |
| PromptShield.HeuristicNeverLowers | packages/promptshield/src/promptshield/classifier.py:158-168 | for any thresholds stage two only raises a verdict |
| PromptShield.HeuristicBlocksOnConjunction | packages/promptshield/src/promptshield/classifier.py:121-168 | by default stage two blocks exactly on the conjunction too |
| PromptShield.HeuristicVerdict | packages/promptshield/src/promptshield/classifier.py:158-168 | the default answer of stage two completely: review exactly without the conjunction, with an evasion phrase and a weight of at least 7/6 |
| PromptShield.VerdictBoundaries | packages/promptshield/src/promptshield/classifier.py:36-41 | a score at a threshold reaches it; the default boundaries |
| PromptShield.BlockThresholdRules | packages/promptshield/src/promptshield/classifier.py:128-136 | a pattern score that reaches the block threshold blocks under any settings |

## Left out

- InMemoryVault.InMemoryVault.Store: what later operations do to two packages that share a log, or to a log the caller keeps appending to, is not modelled; the service builds a fresh log for each package.
- DiskVault.DiskVault.Store: this and the other disk operations start from complete record files, each under the id it carries; files written or damaged by something else are covered by `ReadPkg` alone.
- DiskVault.DiskVault.ListExpired: does not model directory-scan errors, sub-directories or case-insensitive file systems.
- DiskScan.ScanComplete: the directory listing is assumed to name every record file that is there throughout the scan, and none twice.
- DiskProtocol.Linearizable: covers one process at a time.
- DiskProtocol.NoDeadlock: says that some thread can always move, not that the scheduler is fair.
- VaultProofs.DiskLifecycle: packages come from the service's intake, which seeds a one-entry log and sets no hold; a caller of `Store` could bring any log.
- Wire.SdkPayloadAgrees: the JSON text, UTF-8 encoding and non-UTC zone offsets belong to the standard libraries and are not modelled.
- Wire.BothVerify: key parsing, PEM and the key id are not modelled.
- TrainGuard.ScanDataset: the report's signature, identifiers and provenance fields are not modelled.
- Limits.Session.RequestReveal: the grant itself (blur and time box) is a single expression and is left out.
- Shield.RunDetector: timeouts and backoff appear only as the outcome of each attempt; confidence and reasoning texts are left out.
- PromptShield.MatchRules: the regular expressions, Unicode normalisation and leetspeak substitution are left out; a prompt is the set of rules it matches.
- InMemoryVault.InMemoryVault.Get: the in-memory vault's single mutex makes its operations sequential, so its interleavings are not modelled.
- Encryption key wrapping, HTTP handlers, command-line tools, framework adapters and the web sites.
- The perceptual PDQ computation and its dihedral variants, and the c2pa-lite, detectkit and cybertip packages.
