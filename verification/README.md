# Verified models of the TAYMEX backend cores

TAYMEX is a modular-monolith backend. This project models the parts of it that are small protocols, exact arithmetic
or binary-format validation, and proves what they promise: over every interleaving, every run, every byte sequence
or every value, not over samples.

| area | modules |
|---|---|
| Durable outbox with leases | `OutboxTable`, `OutboxProtocol`, `MemoryOutbox`, `OutboxProcessor` |
| Secrets that go out by the outbox | `Uuids`, `SecretDelivery`, `SecretRequests` |
| Idempotency keys and their canonical request text | `Idempotency`, `CanonicalJson`, `JsonTexts`, `StableJson` |
| PNG and JPEG container validators, CRC-32 | `ImageBytes`, `Layout`, `Crc`, `Png`, `PngStrict`, `PngWriting`, `Jpeg`, `JpegWriting` |
| Authentication throttles and rate limiter | `Throttle`, `RateLimiter`, `EvictionRuns`, over `Eviction` and `JsMaps` |
| Decimals, money, quantities | `Decimal`, `Rounding`, `MoneyArithmetic`, `QuantityConversion`, `Numerals` |
| Sessions, passwords, challenges under interleaving | `IdentityTables`, `IdentityProtocol`, `IdentityRuns`, `IdentityTimes` |
| Versioned settings | `SettingNames`, `Settings`, `SettingRuns`, `SettingRules`, `SettingsStores` |
| Audit log and its queries | `AuditRecorder`, `AuditFilter` |
| Transaction boundary | `Transactions` |

`Maybe`, `Integers` and `JsText` hold Option and Result, absolute value, and the few ECMAScript string operations the
validators use. Run `dafny verify dfyconfig.toml` to check everything.

## How the code is represented

A database statement is one atomic step; everything between two statements may interleave. Random tokens, ids and
hashes are values that have not been drawn before. Times are integer milliseconds, and a theorem that needs clocks not
to run backwards says so. A JavaScript `Map` is `JsMaps.JsMap`, which keeps insertion order because the eviction code
depends on it. JavaScript strings are `string` where only their characters matter, and sequences of UTF-16 code units
in `CanonicalJson`, where lone surrogates matter. Objects whose methods update fields are classes, and each method is
proved equal to a function of the old state; the theorems over runs are about those functions. What such a function
shares with the code, such as how a digit, a length or an ordering is read, is tied to a definition that does not use
it: strings to the numbers they denote, containers to the writer that produces them, outcomes to the world's answers.

## Where the code does not do what one would expect

These are proved, with the exact condition under which the expected property does hold.

- The in-memory outbox overwrites a row whose id is taken by another dedupe key, where the table refuses it:
  `EnqueueAgreesExactly`. It also takes a next attempt before the row's creation: `AcknowledgeAgreesExactly`.
- An empty-string key at the front of either eviction table is never evicted, so the table outgrows its capacity:
  `OnlyTheEmptyKeyOverflows`, `CapacityHolds`, `CapacityFailsForTheEmptyKey`.
- A session created between the revoking UPDATE of a password change and its COMMIT survives the change:
  `CommitLeavesOnlyNewcomers`, `NewcomerSurvives`.
- A connection whose BEGIN took effect but was reported as failed goes back to the pool with a transaction open:
  `ReturnsOpenExactlyWhen`. A caller that catches a refused statement is told of success although nothing is committed:
  `SuccessIsRealExactlyWhenNothingWasRefused`, `CaughtRefusalCommitsNothing`.
- The outbox has a UUID test of its own, which knows versions 1 to 5, while identity mints versions 1 to 8. A reset or
  verification request whose challenge id is newer can never succeed: `OutboxRefusesNewVersions`,
  `VersionSevenIsRefused`, `NewVersionsNeverGoOut`.
- Enqueueing ignores a conflict on the dedupe key, so a committed request could lack its row. It has it exactly when the
  key was new, `RowIsAddedExactlyWhenItsKeyIsNew`, and in every reachable state it was: `EveryChallengeHasItsRow`.
- Rounding to nearest in two steps can differ from one step: `RoundMoneyComposesExactly`, `NearestCanMiss`.
- Base to kilo and back fails when the intermediate scale exceeds 18: `BaseToKiloAndBack`,
  `SixteenDecimalsDoNotComeBack`.
- The memory settings store confuses coordinates that share a key string, which takes a NUL, and the SQL store refuses
  every NUL: `MemoryKeepsApartExactlyWhenSeparated`, `StoresAgreeExactlyWhenNulFree`. Audit resource ids of different
  settings coincide when one key continues another: `IdsSeparateExactly`, `ContinuationCollides`. A setting whose names
  are each short enough can be refused because its audit resource id is not: `IdIsRecordedExactlyWhenShort`. The
  diagnostic says APPLIED for a hot setting whatever is applied: `DiagnosticIsTruthfulExactly`, `HotDiagnosticCanLie`.
- The memory audit store answers in append order, the SQL one in time order: `AnswersAgreeExactly`.
- PNG chunk types are read through a seven-bit decoding, so their high bits are ignored, which section 3.2 of RFC 2083
  does not allow for: `AcceptedIsStrictExactly`, `MarkedImageIsAcceptedButNotStrict`.
- The final replacement of a negative zero in decimal parsing never fires: `NegativeZeroNeverPrinted`.

## Model

| member | source | states |
|---|---|---|
| `OutboxTable.FirstEligibleIsUnique` | packages/notifications/src/postgres-store.ts:25-33 | the candidate query names one sequence: the first `limit` eligible unlocked rows by (available_at, created_at, id) |
| `OutboxTable.LongestWaitingFirst` | packages/notifications/src/postgres-store.ts:25-33 | claimed rows come by time of availability, creation and id, and none that comes earlier is left out |
| `OutboxTable.RetriedUntilExhausted` | packages/notifications/src/postgres-store.ts:54-69 | a new row that keeps failing is retried at each time offered and is dead after exactly `maxAttempts` failures |
| `OutboxProtocol.StepOnRow` | packages/notifications/src/postgres-store.ts:20-79 | what any step of any processor can do to one row, field by field: keep it, lease it when it is eligible at the claim's time and under a new token, or settle it by its own holder |
| `OutboxProtocol.InvHolds` | packages/notifications/src/outbox.ts:92-133 | every step of every processor, with crashes and lost requests or answers anywhere, keeps the table, worker and provider invariants |
| `OutboxProtocol.DeliveredWasAccepted` | packages/notifications/src/outbox.ts:92-133 | in every run a DELIVERED row's key was accepted by the provider, a deduplicating provider delivers each key at most once, only for enqueued rows, and no two rows share a key |
| `OutboxProtocol.OneHolder` | packages/notifications/src/postgres-store.ts:20-52 | at most one processor holds a row, whatever the clocks say |
| `OutboxProtocol.TerminalIsAbsorbing` | packages/notifications/src/postgres-store.ts:44-79 | a DELIVERED or DEAD row is never changed again |
| `OutboxProtocol.AtMostOneTerminalTransition` | packages/notifications/src/postgres-store.ts:44-79 | a message enters a terminal state at most once along any run |
| `OutboxProtocol.LostLeaseStaysLost` | packages/notifications/src/postgres-store.ts:44-79 | a token that no longer holds a row never holds it again, and every acknowledgement with it changes nothing |
| `OutboxProtocol.LiveLeaseIsKept` | packages/notifications/src/postgres-store.ts:28-30 | until a claim made after its expiry, or an acknowledgement under its own token, a leased row stays as it is |
| `OutboxProtocol.NewRowIsReady` | packages/notifications/src/outbox.ts:36-53 | a new row can be claimed from its own time on, with every attempt left and what it was enqueued with |
| `MemoryOutbox.SelectedIsFirstEligible` | packages/notifications/src/testing.ts:10-18 | filter, sort and slice select exactly what the claiming SQL statement selects |
| `MemoryOutbox.MemoryOutboxStore.Enqueue` | packages/notifications/src/testing.ts:5-9 | a present dedupe key changes nothing; otherwise the row is stored under its id |
| `MemoryOutbox.MemoryOutboxStore.ClaimBatch` | packages/notifications/src/testing.ts:10-18 | the first eligible rows, in claim order, are leased and returned; all others stay |
| `MemoryOutbox.MemoryOutboxStore.Acknowledge` | packages/notifications/src/testing.ts:19-38 | each mark is the guarded SQL UPDATE: it hits exactly when id, status and token match |
| `MemoryOutbox.AcknowledgeAgreesExactly` | packages/data-postgres/migrations/0003_f7_outbox.sql:29 | memory and SQL acknowledgement agree if and only if a failure with attempts left does not offer a time before the row's creation |
| `MemoryOutbox.EnqueueAgreesExactly` | packages/notifications/src/testing.ts:5-9 | memory and SQL enqueue agree if and only if the id is free or the dedupe key is present |
| `OutboxProcessor.RetryDelayIsBoundedBackoff` | packages/notifications/src/outbox.ts:135-138 | the retry delay lies between the configured bounds and never shrinks with the attempts |
| `OutboxProcessor.RetryDelayDoubles` | packages/notifications/src/outbox.ts:135-138 | it starts at the base, doubles with each of the first sixteen attempts up to the maximum, and then stays |
| `OutboxProcessor.SettlingAdvances` | packages/notifications/src/outbox.ts:97-130 | whatever happens to a job, it ends its row or uses one attempt with another left |
| `OutboxProcessor.NormalErrorCode` | packages/notifications/src/outbox.ts:168-172 | the stored code is the provider's own, trimmed and in lower case, if that is well-formed, and the general one if it is not |
| `OutboxProcessor.ErrorCodesAreKept` | packages/notifications/src/outbox.ts:168-172 | a code that is well-formed already is stored as it is |
| `OutboxProcessor.ErrorCodesAreSpelled` | packages/notifications/src/outbox.ts:168-172 | a code is a small letter and up to 63 small letters, digits and hyphens |
| `OutboxProcessor.CapturingProvider.Send` | packages/notifications/src/testing.ts:46-54 | a known idempotency key delivers nothing; a new one delivers the request once |
| `OutboxProcessor.Attempt` | packages/notifications/src/outbox.ts:97-130 | a job is sent exactly when its secret is alive at the clock reading, its account has an address and the provider refuses nothing, and is dead by expiry exactly when its secret is not alive; a failure names its code, and a retry its time; what is handed over is of this job |
| `OutboxProcessor.SettlingIsDetermined` | packages/notifications/src/outbox.ts:97-130 | the rules leave one row for each job and each answer of the world |
| `OutboxProcessor.DeadByExpiryExactly` | packages/notifications/src/outbox.ts:97-130 | a row is dead with the code of an expired delivery if and only if it expired, or the provider refused its last attempt by that name |
| `OutboxProcessor.ProcessJob` | packages/notifications/src/outbox.ts:97-130 | one job changes its own row and no other, to what its secret, its account and the provider make of it |
| `OutboxProcessor.SettleJobs` | packages/notifications/src/outbox.ts:96-131 | the loop settles every claimed job so, counts each outcome, and gives the provider exactly the requests of the jobs sent |
| `OutboxProcessor.ProcessOnce` | packages/notifications/src/outbox.ts:92-133 | one round settles the first eligible rows; each is DELIVERED, PENDING or DEAD exactly as its secret, its account and the provider say; new deliveries are those of the jobs sent, one for each key not seen before; the counts are those of the rows |
| `OutboxProcessor.RoundUsesUpAttempts` | packages/notifications/src/outbox.ts:92-137 | the attempts left over all live rows fall by at least the number claimed, and live rows keep an attempt |
| `OutboxProcessor.EligibleFromHorizon` | packages/notifications/src/postgres-store.ts:28-30 | a row is eligible exactly when it is not terminal and its horizon has passed |
| `OutboxProcessor.QuietMeansDone` | packages/notifications/src/outbox.ts:92-133 | a late round that claims nothing finds every row terminal |
| `OutboxProcessor.RepeatedRoundsDrain` | packages/notifications/src/outbox.ts:92-133 | repeating late rounds makes every row terminal within the attempts left |
| `SecretDelivery.Deliver` | packages/notifications/src/outbox.ts:28-54 | refuses exactly the ids the outbox cannot read and the expiries that have passed; success enqueues one pending row under the delivery's dedupe key |
| `SecretDelivery.DeliverableExactly` | packages/notifications/src/outbox.ts:28-35 | a delivery is taken if and only if the outbox reads both ids and the expiry is still to come |
| `Uuids.ReadExactlyWhenSpelled` | packages/foundation/src/validation.ts:41-46 | a value is read as a UUID if and only if it is that UUID in letters of either case with white space around it, for either validator |
| `Uuids.RefusedExactlyWhenNothingIsSpelled` | packages/notifications/src/outbox.ts:156-160 | a value is refused if and only if it spells no UUID of an admitted version |
| `Uuids.CanonicalIsFixed` | packages/foundation/src/validation.ts:41-46 | reading a canonical id again changes nothing |
| `Uuids.UuidsAreFiveGroups` | packages/foundation/src/validation.ts:41-46 | both validators accept exactly five groups of 8, 4, 4, 4 and 12 hexadecimal digits, each with its versions and the variants 8, 9, a and b |
| `Uuids.OutboxRefusesNewVersions` | packages/notifications/src/outbox.ts:156-160 | of the ids that identity accepts the outbox refuses exactly those of version 6, 7 and 8, and reads the others alike |
| `Uuids.OutboxReadsOnlyWhatIdentityReads` | packages/notifications/src/outbox.ts:156-160 | what the outbox reads identity reads in the same way |
| `Uuids.VersionSevenIsRefused` | packages/notifications/src/outbox.ts:156-160 | a concrete id that identity mints and the outbox refuses |
| `SecretDelivery.DedupeKeyIsInjective` | packages/notifications/src/outbox.ts:41 | different deliveries have different dedupe keys |
| `SecretDelivery.OneRowForEachDelivery` | packages/notifications/src/outbox.ts:28-54 | presenting a delivery again leaves the outbox as it was; keys stay unique |
| `SecretDelivery.SecretRowSays` | packages/notifications/src/outbox.ts:28-54 | the row is for the account and the delivery as the outbox reads their ids, can be claimed at once, and carries the delivery's own payload |
| `SecretRequests.ThreeWritesApply` | packages/identity/src/authentication.ts:259-306 | the three inserts go through if and only if ids, token hash, event id and outbox id are free and the lifetime is positive |
| `SecretRequests.RequestSays` | packages/identity/src/authentication.ts:259-306 | what a request puts into its challenge, its event and its delivery, field by field |
| `SecretRequests.RequestIsAllOrNothing` | packages/identity/src/authentication.ts:259-306 | whatever happens to any statement, a request whose COMMIT takes effect adds exactly its challenge, its event and the one outbox row with the challenge's dedupe key; any other leaves all three tables as they were |
| `SecretRequests.RowIsAddedExactlyWhenItsKeyIsNew` | packages/notifications/src/outbox.ts:53 | on any tables at all, a committed request adds its row if and only if the dedupe key was not there |
| `SecretRequests.HealthyRequestSucceeds` | packages/identity/src/authentication.ts:259-306 | with a healthy server a request succeeds if and only if its inputs are valid, the tables have room for them and the transaction may write |
| `SecretRequests.NewVersionsNeverGoOut` | packages/identity/src/authentication.ts:367-381 | a request whose challenge id is of version 6, 7 or 8 fails and leaves nothing |
| `SecretRequests.EveryChallengeHasItsRow` | packages/identity/src/authentication.ts:259-306 | over any run challenges and the outbox rows with their keys correspond one to one |
| `Idempotency.IdempotencyStore.Claim` | packages/data-postgres/src/idempotency.ts:17-79 | validation, insertion, replacement of an expired row, conflict, replay and in-progress, as functions of the stored row |
| `Idempotency.IdempotencyStore.Complete` | packages/data-postgres/src/idempotency.ts:81-110 | completes only the active, matching generation, from its creation until it expires; otherwise nothing changes |
| `Idempotency.InvHolds` | packages/data-postgres/src/idempotency.ts:17-110 | every interleaving of claims and completions on a key keeps the ledger invariant |
| `Idempotency.AnswerFollowsHistory` | packages/data-postgres/src/idempotency.ts:57-76 | a claim is granted if and only if the last granted one has expired, conflicts if and only if that one is in force with another hash, is replayed if and only if it completed, and is in progress otherwise |
| `Idempotency.ClaimWindowsAreDisjoint` | packages/data-postgres/src/idempotency.ts:31-75 | generations count up from 1 and the windows of two granted claims never overlap |
| `Idempotency.CompletionsAreFenced` | packages/data-postgres/src/idempotency.ts:81-110 | each generation completes at most once, within its own window, with its own hash |
| `Idempotency.ReplaysAreFaithful` | packages/data-postgres/src/idempotency.ts:72-74 | every replay returns the response completed in the current generation, for the same hash |
| `Idempotency.StaleGenerationNeverCompletes` | packages/data-postgres/src/idempotency.ts:90-97 | a superseded generation can never complete again |
| `Idempotency.KeysAreAdmittedExactly` | packages/data-postgres/src/idempotency.ts:24-25 | an operation and a key are admitted if and only if, trimmed, neither is empty or longer than 128 and 256 code units |
| `Idempotency.RowsAreSharedExactly` | packages/data-postgres/src/idempotency.ts:24-25 | two admitted pairs share a row if and only if their trimmed operations and their trimmed keys are the same |
| `Idempotency.RowFollowsItsOwnCalls` | packages/data-postgres/src/idempotency.ts:17-110 | in a store of many keys the row of a pair is what its own calls make of it, so every theorem about one key holds of each |
| `Idempotency.RepliesAreIndependent` | packages/data-postgres/src/idempotency.ts:17-110 | the answer to a call depends on the earlier calls for the same pair only |
| `Idempotency.NewPairStarts` | packages/data-postgres/src/idempotency.ts:34-47 | a valid claim of a pair that nobody used starts generation 1, whatever happened to other pairs |
| `Idempotency.FirstClaimCompletesExactly` | packages/data-postgres/src/idempotency.ts:81-110 | the first claim of a pair can be completed with its hash from its own time until it expires |
| `Idempotency.HashesAreSpelled` | packages/data-postgres/src/idempotency.ts:142-145 | a request hash is 64 hexadecimal digits in lower case |
| `CanonicalJson.StringsReadBack` | packages/data-postgres/src/idempotency.ts:119 | a quoted string followed by anything is read back in one way, escapes and lone surrogates included |
| `CanonicalJson.NumeralsReadBack` | packages/data-postgres/src/idempotency.ts:120-123 | a number followed by a separator is read back in one way |
| `CanonicalJson.ValuesReadBack` | packages/data-postgres/src/idempotency.ts:117-140 | the text of a value followed by a separator determines both the value and the rest |
| `CanonicalJson.PrintIsInjective` | packages/data-postgres/src/idempotency.ts:117-140 | no two values share a text |
| `CanonicalJson.SortedIsSorted` | packages/data-postgres/src/idempotency.ts:136 | distinct keys come out strictly ascending by code unit |
| `CanonicalJson.SortedHasAll` | packages/data-postgres/src/idempotency.ts:136 | sorting keeps exactly the members |
| `CanonicalJson.SortedIsUnique` | packages/data-postgres/src/idempotency.ts:136 | two sorted lists with the same members are the same list |
| `CanonicalJson.SameMeansSameCanon` | packages/data-postgres/src/idempotency.ts:130-136 | sorting keys at every depth identifies exactly the values that are the same up to key order |
| `CanonicalJson.TextDeterminesValue` | packages/data-postgres/src/idempotency.ts:117-140 | two values have the same canonical text if and only if they are the same JSON value up to key order |
| `JsonTexts.LessIsPrecedes` | packages/data-postgres/src/idempotency.ts:136 | one key sorts before another if and only if, where they first differ, it ends or has the smaller UTF-16 code unit |
| `JsonTexts.KeysAscend` | packages/data-postgres/src/idempotency.ts:136 | the keys of a canonical object ascend in that order |
| `JsonTexts.WrittenStringIsRead` | packages/data-postgres/src/idempotency.ts:119 | whoever reads strings as section 7 of RFC 8259 has them gets back what was written, lone surrogates included |
| `JsonTexts.WrittenStringIsWellFormed` | packages/data-postgres/src/idempotency.ts:119 | the text of any string has no lone surrogate, so it can be encoded in UTF-8 and hashed |
| `JsonTexts.NothingElseIsEscaped` | packages/data-postgres/src/idempotency.ts:119 | other characters and surrogate pairs stand for themselves |
| `JsonTexts.ControlsAreEscaped` | packages/data-postgres/src/idempotency.ts:119 | each control character has its short escape, or four hexadecimal digits where RFC 8259 names none |
| `JsonTexts.OneTextInFull` | packages/data-postgres/src/idempotency.ts:117-140 | the canonical text of one value with every kind of token, character by character |
| `StableJson.StableJson` | packages/data-postgres/src/idempotency.ts:117-140 | the recursive walk terminates, computes its specification, and leaves `seen` as it found it on success and on failure |
| `StableJson.StableNode` | packages/data-postgres/src/idempotency.ts:129-139 | the guarded body for arrays, plain objects and other objects |
| `StableJson.StableAll` | packages/data-postgres/src/idempotency.ts:130-136 | items are visited left to right and the first failure wins |
| `StableJson.Sound` | packages/data-postgres/src/idempotency.ts:117-140 | a text that is produced is the text of the tree unfolding |
| `StableJson.Complete` | packages/data-postgres/src/idempotency.ts:127-139 | a value with a finite unfolding is accepted, however its nodes are shared |
| `StableJson.RepresentationIsUnique` | packages/data-postgres/src/idempotency.ts:117-140 | a value has at most one tree unfolding |
| `StableJson.AcceptedExactlyWhenRepresented` | packages/data-postgres/src/idempotency.ts:117-140 | a request is accepted if and only if it has a finite tree unfolding, and its text is that tree's |
| `StableJson.SameTextSameRequest` | packages/data-postgres/src/idempotency.ts:113-115 | two accepted requests give the same text to hash if and only if they are the same JSON value |
| `StableJson.FailureHasAWalk` | packages/data-postgres/src/idempotency.ts:127 | a failure on a JSON-compatible graph is reported as circular and comes with a walk that returns to itself |
| `StableJson.FailsExactlyOnCycles` | packages/data-postgres/src/idempotency.ts:127-139 | on JSON-compatible graphs it fails if and only if a cycle is reachable from the root |
| `Crc.ComputeCrc32` | packages/media-storage/src/image-sanitizer.ts:163-170 | the two loops compute the bitwise register specification |
| `Crc.ChecksumOfIend` | packages/media-storage/src/image-sanitizer.ts:163-170 | the published checksum of an empty IEND chunk |
| `Crc.StepsAreLinear` | packages/media-storage/src/image-sanitizer.ts:167 | any number of bit steps commutes with exclusive or |
| `Crc.StepsAreInjective` | packages/media-storage/src/image-sanitizer.ts:167 | no bit step loses information |
| `Crc.RegisterDifference` | packages/media-storage/src/image-sanitizer.ts:163-170 | up to four bytes amount to 32 steps on the difference taken as one little-endian word |
| `Crc.BurstsAreDetected` | packages/media-storage/src/image-sanitizer.ts:163-170 | inputs of one length that differ within four consecutive bytes have different checksums |
| `Png.ValidatePngContainer` | packages/media-storage/src/image-sanitizer.ts:44-83 | accepts bytes if and only if they are the signature followed by a well-formed chunk sequence that uses every byte |
| `Png.GoodMeans` | packages/media-storage/src/image-sanitizer.ts:52-80 | the tests made on one chunk hold exactly when that chunk may follow those before it |
| `Png.NextChunkMayFollow` | packages/media-storage/src/image-sanitizer.ts:62-80 | every chunk of a well-formed sequence passes the incremental tests |
| `Png.ClosingIsWellFormed` | packages/media-storage/src/image-sanitizer.ts:75-82 | chunks that pass the incremental tests up to IEND form a well-formed sequence |
| `Png.ReadingIsForced` | packages/media-storage/src/image-sanitizer.ts:52-80 | the bytes leave no choice in how they divide into chunks |
| `Png.DamageIsRejected` | packages/media-storage/src/image-sanitizer.ts:61 | damage to up to four neighbouring bytes of one chunk's type and data is never accepted |
| `PngStrict.AcceptedIsStrictExactly` | packages/media-storage/src/image-sanitizer.ts:57 | an accepted input obeys the grammar on raw type bytes if and only if no chunk's type byte has its high bit set |
| `PngStrict.StrictIsAccepted` | packages/media-storage/src/image-sanitizer.ts:44-83 | whatever obeys the strict grammar is accepted |
| `PngStrict.MarkedImageIsAcceptedButNotStrict` | packages/media-storage/src/image-sanitizer.ts:57 | a concrete input of 57 bytes that is accepted and not strict |
| `PngWriting.StrictExactlyWhenWritten` | packages/media-storage/src/image-sanitizer.ts:44-83 | the strict inputs are exactly the written images: signature, header of a listed colour type and depth within the bounds, other chunks around one run of IDAT, IEND, each with its length and checksum |
| `PngWriting.AcceptedExactlyWhenWritten` | packages/media-storage/src/image-sanitizer.ts:44-97 | the accepted inputs are exactly the written images but for the high bits of type bytes |
| `Jpeg.ValidateJpegContainer` | packages/media-storage/src/image-sanitizer.ts:100-136 | accepts bytes if and only if they are SOI, segments with exactly one valid baseline frame, and a tail that ends in its EOI at the last byte |
| `Jpeg.FindSingleScanEoi` | packages/media-storage/src/image-sanitizer.ts:152-161 | finds the EOI exactly when the scan data runs up to one, and reports any other marker that comes first |
| `Jpeg.StopIsUnique` | packages/media-storage/src/image-sanitizer.ts:152-161 | a scan stops in one place only |
| `Jpeg.DecodingEncodedReturns` | packages/media-storage/src/image-sanitizer.ts:156 | byte-stuffed data with restart markers is scan data and decodes to what was encoded |
| `Jpeg.EncodingDecodedReturns` | packages/media-storage/src/image-sanitizer.ts:156 | all scan data arises by encoding |
| `Jpeg.EncodedScanEndsAtItsEoi` | packages/media-storage/src/image-sanitizer.ts:152-161 | whatever was encoded, the scan ends where the encoder put the EOI |
| `Jpeg.GoodMeans` | packages/media-storage/src/image-sanitizer.ts:107-134 | the tests made on one marker hold exactly when it may stand there |
| `Jpeg.ReadingIsForced` | packages/media-storage/src/image-sanitizer.ts:104-135 | the bytes leave no choice in how they divide into segments |
| `JpegWriting.WrittenIsJpeg` | packages/media-storage/src/image-sanitizer.ts:100-150 | every image written from segments, one frame within the bounds and any scan is accepted |
| `JpegWriting.JpegIsWritten` | packages/media-storage/src/image-sanitizer.ts:100-150 | every accepted input is such an image, written |
| `JpegWriting.AcceptedExactlyWhenWritten` | packages/media-storage/src/image-sanitizer.ts:100-150 | the accepted inputs are exactly the written images, with lengths and dimensions most significant byte first |
| `JpegWriting.OnePixelIsAccepted` | packages/media-storage/src/image-sanitizer.ts:100-150 | a concrete image of 28 bytes |
| `Throttle.MemoryAuthenticationThrottle.IsBlocked` | packages/identity/src/throttle.ts:30-39 | answer and new table as specified, including the deletion of idle entries |
| `Throttle.MemoryAuthenticationThrottle.RecordFailure` | packages/identity/src/throttle.ts:41-48 | new table as specified |
| `Throttle.MemoryAuthenticationThrottle.RecordSuccess` | packages/identity/src/throttle.ts:50-52 | the principal's entry is gone and no other changes |
| `Throttle.ProcessAuthenticationThrottle.IsBlocked` | apps/api/src/platform/process-authentication-throttle.ts:18-26 | the same answer and table as the unbounded throttle would give on that table |
| `Throttle.ProcessAuthenticationThrottle.RecordFailure` | apps/api/src/platform/process-authentication-throttle.ts:28-39 | eviction when full, then the pruned entry with one more failure |
| `Throttle.ProcessAuthenticationThrottle.RecordSuccess` | apps/api/src/platform/process-authentication-throttle.ts:41-43 | the principal's entry is gone and no other changes |
| `Throttle.ProcessAuthenticationThrottle.Prune` | apps/api/src/platform/process-authentication-throttle.ts:45-48 | the entry loses its expired failures and block, in place |
| `Throttle.ProcessAuthenticationThrottle.Evict` | apps/api/src/platform/process-authentication-throttle.ts:50-57 | the sweep, then the oldest entry if the table is still full |
| `Throttle.SweepKeepsTheLive` | apps/api/src/platform/process-authentication-throttle.ts:51-54 | the sweep keeps exactly the entries that still matter, pruned |
| `Throttle.SweepKeepsOrder` | apps/api/src/platform/process-authentication-throttle.ts:51-54 | the sweep keeps their order, so the oldest is the one first inserted |
| `Throttle.FailureAgrees` | packages/identity/src/throttle.ts:41-48 | a recorded failure keeps an entry in step with the full log |
| `Throttle.EntriesAgreeWithTheLog` | apps/api/src/platform/process-authentication-throttle.ts:18-57 | after every run with nondecreasing times each entry answers from then on as its log does |
| `Throttle.ThrottleAnswersAsItsLog` | apps/api/src/platform/process-authentication-throttle.ts:18-57 | a principal is blocked if and only if its log since its last success or removal holds a failure that reached the limit within its window and whose lock has not ended |
| `Throttle.ThrottleAnswersAsTheFullLog` | packages/identity/src/throttle.ts:30-52 | the unbounded throttle answers as the full log, and so does the bounded one for every principal never dropped |
| `Throttle.BlockedExactlyWhen` | packages/identity/src/throttle.ts:30-52 | a principal never dropped is blocked if and only if some failure since its last success was the last of the limit within its window and its lock has not ended |
| `Throttle.BoundedBlocksOnlyWhenUnboundedDoes` | apps/api/src/platform/process-authentication-throttle.ts:50-57 | losing an entry to the capacity can only unblock |
| `Throttle.OnlyTheEmptyKeyOverflows` | apps/api/src/platform/process-authentication-throttle.ts:32 | one failure takes the table over its capacity if and only if the principal is new, nothing has expired in a full table and the oldest key is empty |
| `Throttle.CapacityHolds` | apps/api/src/platform/process-authentication-throttle.ts:50-57 | runs without the empty principal never exceed the capacity |
| `Throttle.CapacityFailsForTheEmptyKey` | apps/api/src/platform/process-authentication-throttle.ts:55-56 | a run that starts with the empty principal exceeds every capacity |
| `Eviction.OnlyTheFirstGoes` | apps/api/src/platform/process-authentication-throttle.ts:55-56 | a full table loses its first entry, unless that has the empty key, and nothing else |
| `EvictionRuns.EntriesStandByAge` | apps/api/src/platform/process-authentication-throttle.ts:28-57 | over any run the entries stand in the order in which they were made |
| `EvictionRuns.ThrottleLosesExactlyTheOldest` | apps/api/src/platform/process-authentication-throttle.ts:50-57 | an entry that still matters is lost exactly to the failure of a newcomer that finds the table full of such entries, when it was made before all of them |
| `EvictionRuns.ThrottleKeepsTheYounger` | apps/api/src/platform/process-authentication-throttle.ts:50-57 | a principal stays as long as an older one still matters |
| `RateLimiter.ProcessRateLimiter.Consume` | apps/api/src/platform/process-rate-limiter.ts:10-22 | invalid policies are refused; otherwise verdict and new table as specified |
| `RateLimiter.ProcessRateLimiter.EvictExpiredOrOldest` | apps/api/src/platform/process-rate-limiter.ts:24-31 | exactly the unexpired buckets stay, in order, less the oldest if the table is still full |
| `RateLimiter.KeysAreIndependent` | apps/api/src/platform/process-rate-limiter.ts:10-31 | a key that was never dropped has the bucket it would have alone, without any capacity |
| `RateLimiter.AnswersAreIndependent` | apps/api/src/platform/process-rate-limiter.ts:10-22 | a key that was never dropped gets the verdicts it would get alone |
| `RateLimiter.SpanAdmitsLessThanTwice` | apps/api/src/platform/process-rate-limiter.ts:10-31 | under one policy, in any span of one window the bounded limiter allows a key that it never dropped at most twice the limit less one |
| `RateLimiter.TheBoundIsMet` | apps/api/src/platform/process-rate-limiter.ts:14-21 | that many are allowed in some run, for every policy and capacity |
| `RateLimiter.RetryHintIsExact` | apps/api/src/platform/process-rate-limiter.ts:20-21 | once the hinted seconds have passed the bucket is gone and the next call is admitted; a second earlier it is not gone |
| `RateLimiter.OnlyTheEmptyKeyOverflows` | apps/api/src/platform/process-rate-limiter.ts:15 | a call takes the table over its capacity if and only if its key is new, nothing has expired in a full table and the oldest key is empty |
| `RateLimiter.CapacityHolds` | apps/api/src/platform/process-rate-limiter.ts:24-31 | runs without the empty key never exceed the capacity |
| `RateLimiter.CapacityFailsForTheEmptyKey` | apps/api/src/platform/process-rate-limiter.ts:29-30 | a run that starts with the empty key exceeds every capacity |
| `EvictionRuns.BucketsStandByAge` | apps/api/src/platform/process-rate-limiter.ts:10-31 | over any run the buckets stand in the order in which their keys came |
| `EvictionRuns.LimiterLosesExactlyTheOldest` | apps/api/src/platform/process-rate-limiter.ts:24-31 | a bucket that has not expired is lost exactly to a new key that finds the table full of such buckets, when it is the oldest of them |
| `EvictionRuns.LimiterKeepsTheYounger` | apps/api/src/platform/process-rate-limiter.ts:24-31 | a key keeps its bucket as long as an older bucket has not expired |
| `Decimal.PrintingParsedNormalizes` | packages/foundation/src/decimal.ts:9-40 | formatting a parsed coefficient and scale gives the normalized text |
| `Decimal.ParsingPrintedReturns` | packages/foundation/src/decimal.ts:9-40 | parsing a formatted pair returns it, or refuses its scale exactly when it exceeds the maximum |
| `Decimal.NormalizedIsCanonical` | packages/foundation/src/decimal.ts:27 | reparsing the normalized text changes nothing, and it starts with a minus exactly when the value is negative |
| `Decimal.NegativeZeroNeverPrinted` | packages/foundation/src/decimal.ts:27 | the replacement of a negative zero never changes anything |
| `Numerals.ReadExactlyWhenSpelled` | packages/foundation/src/decimal.ts:9-28 | a text is read if and only if, trimmed, it is a perhaps negative numeral with few enough decimals and an allowed sign |
| `Numerals.ReadIsDenoted` | packages/foundation/src/decimal.ts:9-28 | what is read is the number that the digits denote by their places, and has as many decimals as are written |
| `Numerals.PrintedDenotes` | packages/foundation/src/decimal.ts:30-40 | what is printed denotes the coefficient at its scale |
| `Rounding.RoundedIsExact` | packages/foundation/src/money.ts:74-89 | for each mode the rounded quotient is the one value with that mode's bound, direction and tie rule |
| `Rounding.RoundedIsMonotone` | packages/foundation/src/money.ts:74-89 | rounding keeps order |
| `Rounding.RoundedIsOdd` | packages/foundation/src/money.ts:75-76 | rounding commutes with negation |
| `Rounding.MultipleIsFixed` | packages/foundation/src/money.ts:80 | what needs no rounding is not rounded |
| `Rounding.ScaleDoesNotMatter` | packages/foundation/src/money.ts:74 | the result depends on the value, not on the scale it is written at |
| `Rounding.DirectedModesCompose` | packages/foundation/src/money.ts:81 | DOWN and UP to coarser and coarser units compose |
| `Rounding.ComposesExactly` | packages/foundation/src/money.ts:80-89 | in any mode, rounding to a finer unit first gives the same result if and only if it does not take the value across or onto the midpoint of the coarser one |
| `Rounding.NearestCanMiss` | packages/foundation/src/money.ts:82-86 | concrete values for which HALF_UP and HALF_EVEN give two answers |
| `MoneyArithmetic.AdditionIsExact` | packages/foundation/src/money.ts:45-52 | the printed sum parses to the exact sum at the finer scale |
| `MoneyArithmetic.AdditionAssociates` | packages/foundation/src/money.ts:45-52 | addition is associative down to the printed string |
| `MoneyArithmetic.ComparisonIsTranslationInvariant` | packages/foundation/src/money.ts:54-62 | adding the same amount to both sides never changes a comparison |
| `MoneyArithmetic.ComparisonFollowsAddition` | packages/foundation/src/money.ts:54-62 | adding an amount moves up, stays or moves down exactly as that amount is positive, zero or negative |
| `MoneyArithmetic.RoundMoneyKeepsItsPromise` | packages/foundation/src/money.ts:64-91 | the printed result has the target scale and is exact or within the mode's bound |
| `MoneyArithmetic.RoundMoneyIsMonotone` | packages/foundation/src/money.ts:64-91 | rounding keeps the order of amounts |
| `MoneyArithmetic.RoundMoneyIsIdempotent` | packages/foundation/src/money.ts:64-91 | rounding again, in any mode, changes nothing |
| `MoneyArithmetic.RoundMoneyComposes` | packages/foundation/src/money.ts:64-91 | DOWN and UP compose across successively coarser scales |
| `MoneyArithmetic.RoundMoneyComposesExactly` | packages/foundation/src/money.ts:64-91 | in any mode, rounding an amount to a finer scale first gives the same string if and only if no midpoint is crossed on the way |
| `MoneyArithmetic.RoundMoneyIsOdd` | packages/foundation/src/money.ts:64-91 | opposite amounts round to opposite amounts |
| `Numerals.AdditionAddsNumbers` | packages/foundation/src/money.ts:45-52 | the sum of two amounts denotes the sum of the numbers they denote |
| `Numerals.ComparisonComparesNumbers` | packages/foundation/src/money.ts:54-62 | amounts compare as the numbers they denote |
| `Numerals.RoundingRoundsNumbers` | packages/foundation/src/money.ts:64-91 | the rounded amount has the target decimals and denotes the multiple of its last decimal where the mode puts the number |
| `Numerals.AmountsAreReadExactly` | packages/foundation/src/money.ts:45-52 | an amount is read if and only if it spells a number with at most 18 decimals |
| `Numerals.AmountsMeetExactly` | packages/foundation/src/money.ts:45-62 | amounts are added and compared if and only if they are of one currency and both can be read |
| `Numerals.AmountsAreRoundedExactly` | packages/foundation/src/money.ts:64-73 | an amount is rounded if and only if it can be read and the target has 0 to 18 decimals |
| `QuantityConversion.TrimmedPrinted` | packages/foundation/src/quantity.ts:61-62 | trimming zeros and the point gives the reduced value's text |
| `QuantityConversion.ConversionPreservesValue` | packages/foundation/src/quantity.ts:43-64 | a converted value times its unit's factor is the original times its own, printed without trailing zeros |
| `QuantityConversion.BaseToKiloAndBack` | packages/foundation/src/quantity.ts:43-64 | base to kilo and back returns the value if and only if the intermediate scale is at most 18, and is refused otherwise |
| `QuantityConversion.KiloToBaseAndBack` | packages/foundation/src/quantity.ts:43-64 | kilo to base and back always returns the value |
| `QuantityConversion.SixteenDecimalsDoNotComeBack` | packages/foundation/src/quantity.ts:52-61 | a concrete value that does not come back |
| `Numerals.SameDimensionExactly` | packages/foundation/src/quantity.ts:4-15 | two units convert if and only if their names differ in a k before them at most |
| `Numerals.ConversionKeepsTheAmount` | packages/foundation/src/quantity.ts:43-64 | number times factor is the same before and after, a k counting a thousand |
| `Numerals.QuantitiesConvertExactly` | packages/foundation/src/quantity.ts:43-64 | a quantity converts if and only if the units measure the same and it can be read, or it has the unit already |
| `IdentityTables.IdentityRepository.CreateSession` | packages/identity/src/persistence/postgres-identity-repository.ts:80-88 | inserts version 1 if and only if its id and token hash are free and the row meets the table's checks; its hash then finds it alone |
| `IdentityTables.IdentityRepository.ReplaceSessionIfVersionMatches` | packages/identity/src/persistence/postgres-identity-repository.ts:95-105 | refuses a version that does not follow, otherwise compares and swaps, unless the new row breaks a constraint |
| `IdentityTables.IdentityRepository.RevokeAllSessionsForAccount` | packages/identity/src/persistence/postgres-identity-repository.ts:113-121 | revokes every unrevoked session of the account but the one to spare, changes no other row, and counts them |
| `IdentityTables.IdentityRepository.ConsumeChallengeIfActive` | packages/identity/src/persistence/postgres-identity-repository.ts:138-147 | consumes exactly an unexpired, unconsumed challenge at the expected version, unless the clock stands before its creation |
| `IdentityTables.IdentityRepository.ReplacePasswordCredential` | packages/identity/src/persistence/postgres-identity-repository.ts:58-78 | succeeds exactly for the next version, or version 1 of an absent credential |
| `IdentityTables.RevocableIsExact` | packages/identity/src/persistence/postgres-identity-repository.ts:113-121 | the bulk UPDATE does to each session of the account, but the spared one, what revoking that session alone does |
| `IdentityTables.OwnRowsAreAllowed` | packages/identity/src/session.ts:46-80 | the rows that the session functions make keep the table's checks exactly when the clock does not stand before the creation and the hash is not blank |
| `IdentityProtocol.InvHolds` | packages/identity/src/authentication.ts:171-293 | every interleaving of reads, writes, transaction statements, commits and aborts keeps the invariant |
| `IdentityProtocol.SessionsEvolve` | packages/identity/src/session.ts:71-86 | no step loses a session, clears a revocation, moves an expiry or changes a row without a new version |
| `IdentityRuns.SessionsOnlyMoveForward` | packages/identity/src/session.ts:71-86 | no run loses a session, clears a revocation, moves an expiry or changes a row without a new version |
| `IdentityRuns.ExpiryIsFixed` | packages/identity/src/session.ts:46-69 | a session's expiry is always its creation plus the configured lifetime |
| `IdentityRuns.OneWinnerPerVersion` | packages/identity/src/authentication.ts:171-200 | of all rotations and sign-outs that read one version at most one is written |
| `IdentityRuns.OnlyTheLatestHashFinds` | packages/identity/src/authentication.ts:171-187 | after a rotation its hash finds the session and the replaced one finds nothing, ever after |
| `IdentityRuns.ChallengesAreConsumedOnce` | packages/identity/src/authentication.ts:273-293 | a challenge is consumed by at most one committed transaction |
| `IdentityRuns.OneChangePerCredentialVersion` | packages/identity/src/authentication.ts:227-257 | of the changes and resets that read one credential version at most one commits |
| `IdentityRuns.WhatACommitDoes` | packages/identity/src/authentication.ts:273-293 | a commit consumes its unconsumed challenge and raises the credential by one version |
| `IdentityRuns.PasswordChangeEndsOldSessions` | packages/identity/src/authentication.ts:244-256 | when a change commits, no session the account had at the revoking statement is unrevoked |
| `IdentityRuns.CommitLeavesOnlyNewcomers` | packages/identity/src/authentication.ts:244-256 | after the commit all sessions are revoked if and only if none was created since the revoking statement |
| `IdentityRuns.NewcomerSurvives` | packages/identity/src/authentication.ts:244-256 | a concrete run in which a session created in between survives the change |
| `IdentityTimes.SessionsLiveAMinute` | packages/identity/src/session.ts:46-69 | a session is created exactly when its lifetime is a minute at least, and expires after that lifetime |
| `IdentityTimes.RotationSucceedsExactly` | packages/identity/src/session.ts:71-86 | a session can be rotated until it expires or is revoked, and only its hash is renewed |
| `IdentityTimes.ConsumptionSucceedsExactly` | packages/identity/src/persistence/postgres-identity-repository.ts:138-147 | a challenge can be consumed once, under its version, until it expires |
| `IdentityTimes.NothingHappensTooLate` | packages/identity/src/authentication.ts:171-293 | in every reachable state each session was last rotated, and each challenge consumed, before it expired |
| `Settings.SettingsRuntimeService.Write` | packages/settings-runtime/src/service.ts:54-65 | a write is a mutation, or leaves no trace |
| `Settings.SettingsRuntimeService.Rollback` | packages/settings-runtime/src/service.ts:67-102 | a rollback is a mutation with the historical value, or leaves no trace |
| `Settings.SettingsRuntimeService.MarkVersionApplied` | packages/settings-runtime/src/service.ts:129-159 | only the current version is applied and audited |
| `Settings.SettingsRuntimeService.Mutate` | packages/settings-runtime/src/service.ts:166-235 | the checks in their order, then store, application and audit together |
| `SettingRuns.MutationAppends` | packages/settings-runtime/src/service.ts:166-235 | a mutation succeeds if and only if it passes the checks, names the current version and can be recorded under a free audit id; it then appends one version, applies it if hot, and adds one audit entry; each failure is named |
| `SettingRuns.ApplicationKeepsOk` | packages/settings-runtime/src/service.ts:129-159 | marking as applied succeeds if and only if the version named is the current one and the report can be recorded under a free audit id; it never lowers anything |
| `SettingRuns.RunIsOk` | packages/settings-runtime/src/service.ts:67-235 | in every reachable state each history holds versions 1 to n, applied is at most current, and each version has exactly one change entry, in order |
| `SettingRuns.HistoryIsAppendOnly` | packages/settings-runtime/src/postgres-store.ts:66-145 | over any run history is extended only and application never goes back |
| `SettingRuns.RollbackAppendsTheOldValue` | packages/settings-runtime/src/service.ts:67-102 | a rollback appends the next version with the target's value |
| `SettingRuns.HotSettingsAreApplied` | packages/settings-runtime/src/service.ts:208-211 | a setting that has always been hot is applied as far as it is saved |
| `SettingRuns.AppliedExactlySinceSaved` | packages/settings-runtime/src/service.ts:129-231 | over any run a setting is applied as far as it is saved if and only if its last save was hot or was followed by a successful report |
| `SettingRuns.DiagnosticIsTruthfulExactly` | packages/settings-runtime/src/service.ts:278-289 | after any run the diagnostic is truthful if and only if the definition is not hot, or the last save was hot or was followed by a successful report |
| `SettingRuns.HotDiagnosticCanLie` | packages/settings-runtime/src/service.ts:278-289 | a concrete run, saved under reload and diagnosed as hot, with APPLIED said of what was never applied |
| `SettingRules.CoordinatesAreTrimmed` | packages/settings-runtime/src/service.ts:258-268 | a coordinate is made of the trimmed key and reference if and only if both are short enough and not blank |
| `SettingRules.MutationSucceedsExactly` | packages/settings-runtime/src/service.ts:166-235 | a change succeeds if and only if the actor may and is identified, the setting is mutable and takes the value, everything can be recorded, and the version is the current one |
| `SettingRules.RecordSaysWhoAndWhy` | packages/settings-runtime/src/service.ts:166-235 | the record of a change names the account, the source, the time, the value and the next version |
| `SettingRules.RollbackNeedsHistory` | packages/settings-runtime/src/service.ts:67-102 | a rollback needs permission and a version of the history |
| `SettingRules.DiagnosticSays` | packages/settings-runtime/src/service.ts:278-289 | after any run the diagnostic says UNSET, APPLIED or what is pending, by behaviour |
| `SettingNames.IdsSeparateExactly` | packages/settings-runtime/src/service.ts:270-272 | over any set of keys audit resource ids separate all coordinates the service makes if and only if no key is another followed by an at-sign, a scope name, a colon and a text that starts with no white space |
| `SettingNames.ContinuationCollides` | packages/settings-runtime/src/service.ts:270-272 | two coordinates with one id, both as the service makes them, for every such pair of keys |
| `SettingNames.WhatIsMadeIsACoordinate` | packages/settings-runtime/src/service.ts:258-268 | normalising a coordinate that was normalised changes nothing |
| `SettingNames.PlainKeysSeparate` | packages/settings-runtime/src/service.ts:270-272 | keys without an at-sign are such a set |
| `SettingNames.IdIsRecordedExactlyWhenShort` | packages/audit/src/service.ts:97-102 | the recorder takes a setting's id if and only if key, scope and reference are short enough together |
| `SettingsStores.MemorySettingsValueStore.FindCurrent` | packages/settings-runtime/src/memory-store.ts:17-20 | the last entry of the coordinate's history |
| `SettingsStores.MemorySettingsValueStore.FindHistoryVersion` | packages/settings-runtime/src/memory-store.ts:31-34 | the entry of that version, if it exists |
| `SettingsStores.MemorySettingsValueStore.ListHistory` | packages/settings-runtime/src/memory-store.ts:36-42 | the newest entries, newest first, within the limit bounds |
| `SettingsStores.MemorySettingsValueStore.WriteValue` | packages/settings-runtime/src/memory-store.ts:44-69 | compares and appends on its own key, and touches no other |
| `SettingsStores.MemorySettingsValueStore.MarkVersionApplied` | packages/settings-runtime/src/memory-store.ts:75-82 | applies the current version only |
| `SettingsStores.PostgresSettingsValueStore.FindCurrent` | packages/settings-runtime/src/postgres-store.ts:16-23 | the last entry of the coordinate's history |
| `SettingsStores.PostgresSettingsValueStore.FindHistoryVersion` | packages/settings-runtime/src/postgres-store.ts:44-51 | the row of that version, if it exists |
| `SettingsStores.PostgresSettingsValueStore.ListHistory` | packages/settings-runtime/src/postgres-store.ts:53-64 | the page that ORDER BY version DESC LIMIT describes, equal to the memory store's; NUL is refused |
| `SettingsStores.PostgresSettingsValueStore.WriteValue` | packages/settings-runtime/src/postgres-store.ts:66-113 | INSERT or guarded UPDATE with its history row has the effect and answer of the memory store's write; NUL is refused |
| `SettingsStores.PostgresSettingsValueStore.MarkVersionApplied` | packages/settings-runtime/src/postgres-store.ts:124-145 | applies the current version only |
| `SettingsStores.KeyOfIsInjective` | packages/settings-runtime/src/memory-store.ts:85-87 | keys without NUL keep coordinates apart |
| `SettingsStores.MemoryKeepsApartExactlyWhenSeparated` | packages/settings-runtime/src/memory-store.ts:44-87 | over a set of coordinates the memory store never confuses two of them if and only if no two share a key string |
| `SettingsStores.StoresAgreeExactlyWhenNulFree` | packages/settings-runtime/src/postgres-store.ts:66-145 | over a set of coordinates the stores always hold the same tracks if and only if no coordinate contains NUL |
| `SettingsStores.NulFreeIsSeparated` | packages/settings-runtime/src/memory-store.ts:85-87 | coordinates without NUL in their keys are such a set |
| `AuditFilter.BuildWhere` | packages/audit/src/postgres-store.ts:42-55 | the numbered clause, evaluated with SQL's unknown for NULL, holds for a record if and only if the in-memory predicate does |
| `AuditFilter.WhereBuilder.Add` | packages/audit/src/postgres-store.ts:44 | pushing a parameter and its numbered condition narrows the clause by that test and disturbs no earlier number |
| `AuditFilter.LikeIsStartsWith` | packages/audit/src/postgres-store.ts:109-111 | LIKE on the escaped prefix and a percent sign is startsWith, for every prefix |
| `AuditFilter.PassingIsMatching` | packages/audit/src/memory-store.ts:25-34 | the tests of the clause together are the in-memory predicate |
| `AuditFilter.AnswersAgreeExactly` | packages/audit/src/memory-store.ts:15-22 | for every limit the stores answer alike if and only if the matches within it were appended in time order and every earlier match comes before each of them |
| `AuditFilter.MemoryAnswersWithTheNewest` | packages/audit/src/memory-store.ts:15-22 | each record returned matches, later ones come first, and a match is left out only when the limit is full of later ones |
| `AuditFilter.SqlAnswersWithTheLatest` | packages/audit/src/postgres-store.ts:57-69 | each record returned matches, in descending order of (occurred_at, id), and a match is left out only when the limit is full of greater ones |
| `AuditFilter.MemoryAuditStore.Append` | packages/audit/src/memory-store.ts:8-13 | appends, or refuses a known id |
| `AuditFilter.MemoryAuditStore.Query` | packages/audit/src/memory-store.ts:15-22 | the newest appended matches, within the limit bounds |
| `AuditFilter.PostgresAuditStore.Append` | packages/audit/src/postgres-store.ts:9-35 | inserts, or refuses a known id |
| `AuditFilter.PostgresAuditStore.Query` | packages/audit/src/postgres-store.ts:37-70 | the matches latest by (occurred_at, id), within the limit bounds |
| `Transactions.PostgresDatabase.Transaction` | packages/data-postgres/src/database.ts:63-91 | with any fate for any statement: result, connection state, destruction and one release, as specified |
| `Transactions.PostgresDatabase.NestedTransaction` | packages/data-postgres/src/database.ts:64-65 | a nested call runs its work on the open connection and issues nothing of its own |
| `Transactions.OneBeginOneEnd` | packages/data-postgres/src/database.ts:63-91 | the outermost call issues one BEGIN and one end, and a ROLLBACK after COMMIT only when COMMIT was rejected |
| `Transactions.TraceOfSuccess` | packages/data-postgres/src/database.ts:70-78 | a successful call has issued BEGIN, the requested options, the body's statements in order, and COMMIT |
| `Transactions.ReturnsOpenExactlyWhen` | packages/data-postgres/src/database.ts:67-90 | a connection is released undestroyed with a transaction open if and only if BEGIN took effect but was reported as failed |
| `Transactions.DestroyedExactlyWhen` | packages/data-postgres/src/database.ts:80-90 | a connection is destroyed if and only if the call failed after BEGIN and its ROLLBACK was not reported as done |
| `Transactions.AllOrNothing` | packages/data-postgres/src/database.ts:63-91 | for a body that catches nothing, all its writes are kept, each as its table's constraints allow, if and only if COMMIT is reached and takes effect, otherwise none; success is reported exactly when COMMIT reports it |
| `Transactions.HealthySuccess` | packages/data-postgres/src/database.ts:63-91 | with a healthy server a call succeeds if and only if its body does not throw, its statements all apply, and none of them changes anything in a read-only transaction |
| `Transactions.ReadOnlyChangesNothing` | packages/data-postgres/src/database.ts:74 | a read-only call leaves the tables as they were, whatever its body does and catches and whatever happens to any statement |
| `Transactions.SuccessIsRealExactlyWhenNothingWasRefused` | packages/data-postgres/src/database.ts:70-78 | for any body and any options, a reported success keeps what the body wrote if the server refused none of its statements, and nothing otherwise |
| `Transactions.CaughtRefusalCommitsNothing` | packages/data-postgres/src/database.ts:74-77 | a body that catches a refused statement is told of success while nothing is kept |

## Left out

- Cryptography and randomness: tokens, hashes and ciphertexts are parameters or values not drawn before.
- Image decoding and re-encoding, storage of media files, HTTP, cookies, logging and user interface.
- The PostgreSQL engine below the statement: planner, isolation anomalies inside one statement, deadlocks. SKIP LOCKED is a set of rows the claim passes over.
- Accounts, roles and product catalog: version checks that repeat the session and settings arguments in a weaker form.
- The migration runner and the repository tooling.
- Copying and freezing of records and Date objects; invalid Date objects.
- Integer limits of JavaScript numbers: versions, counts and times are unbounded integers.
- The service methods of authentication.ts appear as the read, write and transaction steps of `IdentityProtocol`, which may interleave in any order; password verification, account status and the events they emit do not, so the steps are allowed more often than the methods take them. Sign-in throttling is in `Throttle`.
- `setAccountStatus` appears as a transaction that only revokes; its account row does not.
- `findCurrentMany`, `resolveSetting` and permission checks: the latter two are the definition's `accepts` and the actor's `allowed`.
- Redaction of sensitive values in the settings audit.
- Metadata columns of audit records (severity, subject, changes, metadata): no filter reads them.
- Sparse arrays, getters, symbols as keys and proxies in hashed requests. SHA-256 over the text is not modelled.
- JSON numbers stand for their own text, so that distinct finite numbers are assumed to print differently except 0 and -0.
- The text of SQL conditions is a datatype; the substitution of the parameter number into that text is `AuditFilter.Numbered`.
- The locale test in the outbox processor: `OutboxProcessor` counts a malformed locale among the failed lookups.
- The UUID test of the lease token that a processor draws, without which a round fails before it claims anything.
- A provider that throws after it accepted a message is modelled in `OutboxProtocol`, not in `OutboxProcessor`.
- RETURNING order: the SQL claim may return its rows in any order; `OutboxProtocol` allows every order.
- The range errors of class constructors are their preconditions.
- PostgreSQL refuses texts with NUL, and JSON values with its escape. The refusal of texts is in `SettingsStores` only; the refusal of values is not modelled.
- CHECK constraints on the format of inserted outbox rows: the sink builds each row with both times equal and well-formed texts.
- CHECK and UNIQUE constraints of the session and challenge tables are in `IdentityTables`; in `IdentityProtocol` a statement they refuse is a step that does not happen. Foreign keys and format checks on hashes and texts are not modelled.
- Two requests of `SecretRequests` run one after the other: interleaving inside their transactions could only let a constraint refuse one of them, which a fault plan already may.
