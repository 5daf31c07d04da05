# Admission counters, deterministic archives, and agent-kit text

This project models the parts of the repository where a mistake would be hardest to see, and proves
what they promise. It is self-contained: `dafny verify dfyconfig.toml` checks all of it.

**Admission counters** (`packages/admission-limits`). A counter store charges requests to rows, one row
for each key and UTC window, and refuses what would exceed a limit.

- `Calendar`, `CounterRows`: the ECMA-262 calendar behind `toISOString`, row identities, `nextReset`
  through the setters of a mutable date, and the retention cutoff. `CivilDates` reads the texts back as
  dates and times of day.
- `Ledger`: what one call does to rows and receipts when calls come one after the other. `StoreAnswers`
  says what the answers mean.
- `InMemoryStore`: the process-local store, a class over two string-keyed maps, method by method
  against `Ledger`.
- `Postgres`: the durable store as interleaved statements of any number of transactions, with row
  locks, inserts that wait for uncommitted inserts, one advisory lock for each attempt, rollback, aborts
  and sweeps. `PostgresInvariant`, `PostgresRefinement`, `PostgresHistory`, `PostgresProgress` and
  `PostgresGuarantees` prove that every run is explained by the sequential store, that each call takes
  effect once and in real-time order, that nobody deadlocks, and what callers can rely on.
- `PostgresClient`: the same store as a class, with the loops of `consumeBatch` and the throttle of
  `#maybePrune`, for a client that nobody interrupts. `PostgresAlone` proves that the interleaved
  statements of a call do the same when no other call is open.
- `LedgerHistory`, `Retention`, `BurstBound`: conservation, ceilings, exactly-once attempts, invisible
  sweeps and the burst bound over whole histories of the sequential store.
- `PublicRecordAdmission`: the batch of a record attempt and the meaning of its answer over the in-memory
  store; `DurableRecordAdmission` is the same over the durable store, and `RecordCeilings` counts the
  records admitted over whole runs.
- `ClientAddress`: address buckets. `ClientAddressForms` says which texts an address is read from.
- `PublicAdmissionAssertion`: the signed assertion down to its bytes, with the printer and reader of
  `CanonicalJson`, `Utf8` (section 3 of RFC 3629) and `Base64Url` (section 5 of RFC 4648). `JsonBytes` and
  `PublicAdmissionAssertionProofs` prove the round trip, `AssertionSoundness` what any verified token
  proves, and `Encodings` the arithmetic of the encodings.

**The ZIP writer** (`packages/agent-packaging`). `Crc32` is the table-driven checksum over an array,
against the bit-serial register of RFC 1952 (section 8), and `Crc32Residue` its residue law. `ZipWriter` fills byte buffers field by field
and keeps running offsets; `ZipFormat` holds the layout and a reader written from PKWARE's APPNOTE
(sections 4.3.7, 4.3.12 and 4.3.16); `ZipRoundTrip` connects the two, and `ZipBytes` lists the bytes of
the records.

**Text in agent-kit** (`packages/agent-kit`). `JsonText` and `CanonicalJson` are the canonical printer
and a reader of JSON text (RFC 8259); `CanonicalJsonReading` and `CanonicalJsonOrder` prove the printer
canonical, and `JsonSyntax` spells out its characters; `BundleDigest` and `SkillBundle` are the digested text and the validation of a rendered skill
bundle. `ManagedBlock` is the block kept inside a file the user owns, and `ManagedBlockReports` what a run
writes and reports. `SkillRegistry`,
`SkillRendering` and `SkillPaths` are the skill registry, its rendering loops and manifest; `SkillClash`
holds the registries that cannot be rendered, `SkillListing` the rendered files in literal paths, and
`SkillContainment` where installed files end up, by the walk of `PathWalk`. `SkillOwnership` and
`SkillState` are slugs and ownership records. `Patterns` is a small theory of regular expressions, in which
the patterns of the source are stated as such, and `SkillRecords` uses it for slugs, records and bundles.

Four points where a stated expectation and the code part, each with its exact condition:

- Reconciling a managed block twice is not always the same as once. A file with an opening marker that
  is never closed gets a second block appended; the next run then takes everything from the old marker
  through the new block for one block, and replaces it if its second line carries the digest of the rest
  (or if forced). `TwiceIsOnceIff` is the exact condition, and `SomeFileIsSwallowed` builds such a file
  for every digest function and every body.
- Two skill files can be published at one path although the registry is accepted, when a file of the
  skill at the target root begins with the name of another skill. `PublishPathsDistinctIff` is the exact
  condition, and `EverySkillCanClash` builds such a registry around any skill; rendering then throws.
- The path pattern of the registry is there to keep files inside the folder of their skill, but its check for
  `..` sees only the first line of a path. `AcceptedAndLeavesIff` is the exact condition for an accepted
  path to leave; paths of one line never do (`AcceptedStaysInside`), and `SomePathLeaves` gives one that does.
- The signer accepts bindings whose token no verifier accepts, because it is longer than 4096 characters.
  `TokenLength` is the exact condition on the JSON text, `PlainTokensAreShort` shows that fields of
  unescaped ASCII always stay within the limit, and `SomeTokensAreTooLong` gives a route that does not.

SHA-256, HMAC, Node's `isIP`, `localeCompare` and the hash behind the advisory lock are parameters. Where
a proof needs something of them, the lemma requires it: a strict total order (`StrictTotal`), or digests
of the right shape. Only `PseudonymsAgreeIff` asks a digest to keep two texts apart, and only the two it
compares.
Moments are whole milliseconds in the years 0 to 9999.

## Model

| member | source | states |
|---|---|---|
| Calendar.DayFromYearClosedForm | packages/admission-limits/src/counter-store.ts:93-95 | the first day of a year, summed year by year, is the closed form of ECMA-262 that `toISOString` rests on |
| Calendar.IsoDayOrder | packages/admission-limits/src/in-memory-counter-store.ts:88-98 | ISO texts of days compare as the days do, the property retention leans on |
| CivilDates.MonthStartClosedForm | packages/admission-limits/src/counter-store.ts:93-95 | months added up one by one start where a closed form says |
| CivilDates.IsoDayIsDate | packages/admission-limits/src/counter-store.ts:93-95 | the day text is the year, month and date of its day, by the closed forms of years and months alone |
| CivilDates.DateIsUnique | packages/admission-limits/src/counter-store.ts:93-95 | no other date is that of the day |
| CivilDates.ClockIsTime | packages/admission-limits/src/counter-store.ts:97-115 | the rest of the ISO text is the time of day, and day and time add up to the moment |
| CounterRows.RowIsWindow | packages/admission-limits/src/counter-store.ts:117-130 | for keys without `@`, two requests share a row exactly when key, window kind and aligned UTC window agree |
| CounterRows.RowTextIdentity | packages/admission-limits/src/in-memory-counter-store.ts:27-28 | the text `day:key` tells rows apart, whatever colons the key holds |
| CounterRows.NextReset | packages/admission-limits/src/counter-store.ts:146-161 | the setters on a mutable date arrive at the end of the aligned window |
| CounterRows.ResetIsFirstRowChange | packages/admission-limits/src/counter-store.ts:146-161 | the reset is the least later moment at which the request counts on another row |
| CounterRows.RecentRowsOutliveTheSweep | packages/admission-limits/src/counter-store.ts:132-144 | a row charged within the last two days is not older than the cutoff |
| Ledger.ChargeAdds | packages/admission-limits/src/in-memory-counter-store.ts:82-84 | the charging loop adds to every row exactly its units and touches no other row |
| Ledger.AdmittedIffAllFit | packages/admission-limits/src/in-memory-counter-store.ts:71-81 | a batch is admitted exactly when every entry fits under its own limit |
| StoreAnswers.ConsumeAnswers | packages/admission-limits/src/in-memory-counter-store.ts:26-37 | a request is allowed exactly when it fits; the answer reports the use after the call, the limit, and the moment at which the row rolls over |
| StoreAnswers.PeekReadsTheAnswer | packages/admission-limits/src/in-memory-counter-store.ts:108-110 | after a daily request, peeking reads the reported use |
| StoreAnswers.RefusalReports | packages/admission-limits/src/in-memory-counter-store.ts:59-86 | the exhausted counters are exactly those of the refusing requests, in order, each with its own reset |
| StoreAnswers.RefusedBatch | packages/admission-limits/src/in-memory-counter-store.ts:39-57 | a batch is refused exactly when some request is switched off or has no room, and then nothing changes |
| StoreAnswers.SharedRowIsAnError | packages/admission-limits/src/in-memory-counter-store.ts:59-86 | two requests on one row are an error before anything is charged |
| StoreAnswers.SweepKeepsTwoDays | packages/admission-limits/src/in-memory-counter-store.ts:88-106 | a sweep keeps exactly the rows and receipts of the day before yesterday and later |
| InMemoryStore.InMemoryDailyCounterStore.Consume | packages/admission-limits/src/in-memory-counter-store.ts:26-37 | the string-keyed map after one request, and its answer, are those of the sequential specification |
| InMemoryStore.InMemoryDailyCounterStore.ConsumeAll | packages/admission-limits/src/in-memory-counter-store.ts:39-41 | the whole batch or nothing, by the specification |
| InMemoryStore.InMemoryDailyCounterStore.ConsumeAllOnce | packages/admission-limits/src/in-memory-counter-store.ts:43-57 | a receipt replays or conflicts; otherwise charge and receipt together, or neither |
| InMemoryStore.InMemoryDailyCounterStore.Batch | packages/admission-limits/src/in-memory-counter-store.ts:59-86 | both loops: exhausted entries in order, charges only when there are none, the error for shared rows |
| InMemoryStore.InMemoryDailyCounterStore.Prune | packages/admission-limits/src/in-memory-counter-store.ts:88-106 | exactly the rows and receipts of days before the cutoff go, and they are counted |
| InMemoryStore.InMemoryDailyCounterStore.Peek | packages/admission-limits/src/in-memory-counter-store.ts:108-110 | the use of today's row of a key |
| InMemoryStore.Sweep | packages/admission-limits/src/in-memory-counter-store.ts:93-98 | deleting while walking the keys leaves exactly the keys that do not look older |
| InMemoryStore.SizeTellsDuplicates | packages/admission-limits/src/in-memory-counter-store.ts:68-70 | the size of the set of texts reveals exactly whether two agree |
| SortedBatch.SortIncreasing | packages/admission-limits/src/postgres-counter-store.ts:238-253 | a batch with distinct rows is locked in strictly increasing order of day and stored key |
| SortedBatch.SortKeepsExhausted | packages/admission-limits/src/postgres-counter-store.ts:238-253 | sorting changes what a batch is refused for at most in order |
| SortedBatch.SortKeepsUnits | packages/admission-limits/src/postgres-counter-store.ts:238-253 | sorting does not change what a batch charges to a row |
| LedgerHistory.UseIsConserved | packages/admission-limits/src/in-memory-counter-store.ts:26-86 | over any history, the use of a row is its start plus all admitted units charged to it |
| LedgerHistory.UseNeverDecreases | packages/admission-limits/src/in-memory-counter-store.ts:26-86 | no call lowers the use of a row |
| LedgerHistory.UseStaysUnderALimit | packages/admission-limits/src/in-memory-counter-store.ts:26-86 | a used row never exceeds the limit of some entry that was admitted for it |
| LedgerHistory.ChargedAtMostOnce | packages/admission-limits/src/in-memory-counter-store.ts:43-57 | at most one call is charged for a receipt, and the receipt is there exactly when one was |
| LedgerHistory.RetriesNeverCharge | packages/admission-limits/src/in-memory-counter-store.ts:43-57 | after a charged attempt, every later call for its receipt replays or conflicts by its fingerprint and changes nothing |
| LedgerHistory.RefusalLeavesNothing | packages/admission-limits/src/in-memory-counter-store.ts:43-57 | a call that was not admitted leaves neither charge nor receipt |
| Retention.SweepIsInvisible | packages/admission-limits/src/in-memory-counter-store.ts:88-106 | after a sweep, every sequence of calls and peeks from two days back on gives the results it would have given without |
| BurstBound.WindowBound | packages/admission-limits/src/counter-store.ts:117-130 | with a fixed limit, at most the limit is admitted on one key within one aligned window |
| BurstBound.BurstIsAtMostTwice | packages/admission-limits/src/counter-store.ts:117-130 | and at most twice the limit in any stretch of time as long as the window |
| BurstBound.TwiceIsReached | packages/admission-limits/src/counter-store.ts:117-130 | the bound is tight: for every key, kind of window, limit and window end, some history admits twice the limit in the two milliseconds around that end |
| PostgresInvariant.ActionKeepsInv | packages/admission-limits/src/postgres-counter-store.ts:82-285 | every statement, abort and sweep of any transaction keeps the invariant of rows, locks, writes and phases |
| PostgresInvariant.RunKeepsInv | packages/admission-limits/src/postgres-counter-store.ts:82-285 | so does every run |
| PostgresRefinement.EveryRunIsSequential | packages/admission-limits/src/postgres-counter-store.ts:82-179 | linearizability: whatever the interleaving, answers and tables are those of the sequential store in the order of the history |
| PostgresHistory.EachCallTakesEffectOnce | packages/admission-limits/src/postgres-counter-store.ts:82-179 | a call with an answer has exactly one event in the history, with its own arguments and answer; an open or failed one has none |
| PostgresHistory.HistoryRespectsRealTime | packages/admission-limits/src/postgres-counter-store.ts:82-179 | a call that had its answer before another began comes before it in the history |
| PostgresHistory.ReportedUseJustifiesDenial | packages/admission-limits/src/postgres-counter-store.ts:103-113 | a denial reports a use that the amount would push over a positive limit, although it is read by a second statement |
| PostgresProgress.NoDeadlock | packages/admission-limits/src/postgres-counter-store.ts:150-164 | in every reachable state with an unfinished call, the next statement of some unfinished call can complete |
| PostgresProgress.WorkIsBounded | packages/admission-limits/src/postgres-counter-store.ts:255-285 | a run without new calls is finite but for sweeps: its statements and aborts together are bounded |
| PostgresProgress.EveryCallCanFinish | packages/admission-limits/src/postgres-counter-store.ts:238-253 | from every reachable state some schedule finishes every call |
| PostgresGuarantees.RowsAreConservedAndCapped | packages/admission-limits/src/postgres-counter-store.ts:261-284 | in every reachable state an unswept row is the sum of the units admitted to it, within the limit of some entry admitted for it |
| PostgresGuarantees.RowsNeverDecrease | packages/admission-limits/src/postgres-counter-store.ts:261-284 | a committed row never decreases while its day is kept |
| PostgresGuarantees.AttemptsCommitAtMostOnce | packages/admission-limits/src/postgres-counter-store.ts:139-179 | across any concurrent run at most one batch commits for an attempt, and its receipt is in the table exactly then |
| PostgresGuarantees.RetriesReplayOrConflict | packages/admission-limits/src/postgres-counter-store.ts:159-163 | after a committed attempt, a retry replays with the same fingerprint and conflicts with another |
| PostgresGuarantees.DurableBurstIsAtMostTwice | packages/admission-limits/src/postgres-counter-store.ts:82-115 | the burst bound holds for every concurrent run |
| PostgresGuarantees.SwitchedOffAgreesIff | packages/admission-limits/src/postgres-counter-store.ts:86-89 | the answer the durable store fixes for a switched-off limit is that of the in-memory store exactly when the request would exceed the limit |
| PostgresGuarantees.ZeroUnitsDiffer | packages/admission-limits/src/postgres-counter-store.ts:86-89 | asking nothing of a fresh row under a limit of nothing is admitted by the in-memory store and denied by the durable one |
| PostgresGuarantees.SharedRowsAgreeIff | packages/admission-limits/src/postgres-counter-store.ts:144-163 | the error for shared rows comes before the receipt is looked up, which differs from the in-memory store exactly when there is a receipt |
| PostgresClient.PostgresDailyCounterStore.CheckEach | packages/admission-limits/src/postgres-counter-store.ts:260-278 | the locking loop collects exactly what the batch is refused for and leaves every use as it was |
| PostgresClient.PostgresDailyCounterStore.ChargeEach | packages/admission-limits/src/postgres-counter-store.ts:279-284 | the updating loop charges every entry, over committed and freshly inserted rows alike |
| PostgresClient.PostgresDailyCounterStore.Consume | packages/admission-limits/src/postgres-counter-store.ts:82-115 | one statement on one row: insert or update under the limit, else the use that was read |
| PostgresClient.PostgresDailyCounterStore.ConsumeAll | packages/admission-limits/src/postgres-counter-store.ts:117-137 | commit of the whole batch or rollback |
| PostgresClient.PostgresDailyCounterStore.ConsumeAllOnce | packages/admission-limits/src/postgres-counter-store.ts:139-179 | receipt, batch and receipt row in one transaction |
| PostgresClient.SweepsExactlyWhenDue | packages/admission-limits/src/postgres-counter-store.ts:188-193 | over any sequence of moments, a call starts a sweep exactly when it comes an interval after the first mark and after every earlier sweep |
| PostgresClient.SortingKeepsAll | packages/admission-limits/src/postgres-counter-store.ts:117-137 | an uninterrupted `consumeAll` leaves the rows and gives the answer of the in-memory store |
| PostgresClient.SortingKeepsOnce | packages/admission-limits/src/postgres-counter-store.ts:139-179 | and so does `consumeAllOnce` of a batch without shared rows, up to the order of a refusal |
| PostgresAlone.AloneIsTheClient | packages/admission-limits/src/postgres-counter-store.ts:82-179 | after any run, a call that begins when no other is open and runs uninterrupted ends with the tables and answer of the single client |
| PublicRecordAdmission.PublicRecordCounterRequests | packages/admission-limits/src/public-record-admission.ts:107-138 | the loop over categories yields the specified requests, in order |
| PublicRecordAdmission.AdmitPublicRecord | packages/admission-limits/src/public-record-admission.ts:48-89 | the store after an attempt and the answer, with every unavailable case |
| PublicRecordAdmission.RowsAreDistinct | packages/admission-limits/src/public-record-admission.ts:107-138 | for any surface and buckets the rows of the batch are pairwise distinct, so the error for shared rows cannot happen |
| PublicRecordAdmission.RefusalNamesTheExceededCeilings | packages/admission-limits/src/public-record-admission.ts:71-85 | without a receipt the attempt is admitted exactly when no ceiling is exceeded; a refusal names exactly the exceeded ones, each under its own category |
| PublicRecordAdmission.OnlyFirstAdmissionCharges | packages/admission-limits/src/public-record-admission.ts:66-73 | only a first admission changes the store, by the whole batch and the receipt |
| PublicRecordAdmission.RetryIsAnswered | packages/admission-limits/src/public-record-admission.ts:66-73 | an attempt with a receipt changes nothing; it is admitted again if its fingerprint is the same, and a conflict otherwise |
| PublicRecordAdmission.SecondAttempt | packages/admission-limits/src/public-record-admission.ts:48-89 | of two attempts under one key on one day, the second charges nothing and is told by its fingerprint alone |
| PublicRecordAdmission.UnavailableIff | packages/admission-limits/src/public-record-admission.ts:56-61 | an attempt is unavailable exactly without a network or messaging bucket or under a limit out of bounds |
| RecordCeilings.CeilingHolds | packages/admission-limits/src/public-record-admission.ts:92-138 | in one aligned minute, hour or day a surface admits no more records of one visitor, network or conversation, or in all, than its limit |
| RecordCeilings.RequestsAre | packages/admission-limits/src/public-record-admission.ts:107-138 | every request of an attempt is the ceiling of its category, under its own key and with its own limit |
| PublicRecordAdmission.ResetFreesEveryExceededCeiling | packages/admission-limits/src/public-record-admission.ts:80-85 | by the reset a refusal names, every exceeded ceiling counts on a fresh row |
| DurableRecordAdmission.AdmitPublicRecord | packages/admission-limits/src/public-record-admission.ts:48-89 | over the durable store, the same tables and, up to the order of exceeded ceilings, the same answer |
| ClientAddressProofs.NormalizeIsPrinted | packages/admission-limits/src/client-address.ts:45-54 | normalizing a text of form 1 or 2 of RFC 4291 (section 2.2) prints its eight groups in decimal |
| ClientAddressProofs.OneVisitorOneBucket | packages/admission-limits/src/client-address.ts:20-52 | two IPv6 texts, in brackets, with ports and white space or not, agree exactly when they denote the same eight groups, and never with an IPv4 address |
| ClientAddressProofs.Ipv4PortIsIgnored | packages/admission-limits/src/client-address.ts:29-37 | a port does not make another visitor of an IPv4 address |
| ClientAddressProofs.MappedIsItsIpv4 | packages/admission-limits/src/client-address.ts:40-43 | the IPv6 form that wraps an IPv4 address is that address |
| ClientAddressForms.OnlyAddressesAreRead | packages/admission-limits/src/client-address.ts:20-38 | every address that is read comes from a text that holds it, in white space, brackets or with a port |
| ClientAddressForms.GroupValue | packages/admission-limits/src/client-address.ts:54 | each hexadecimal digit of a group, small or capital, counts sixteen times the next |
| ClientAddressForms.MappedInAnyCase | packages/admission-limits/src/client-address.ts:41-43 | the prefix of a wrapped IPv4 address may be in any case |
| ClientAddressProofs.BucketIsFirstHop | packages/admission-limits/src/client-address.ts:61-70 | the bucket is that of the first hop that parses; unparsable hops before it and proxies behind it do not matter |
| ClientAddressProofs.NoBucketIff | packages/admission-limits/src/client-address.ts:61-70 | there is no bucket exactly when no hop parses |
| ClientAddressProofs.VisitorsShareBucketIff | packages/admission-limits/src/client-address.ts:56-70 | two IPv6 visitors share a bucket, however written and whatever proxies follow, exactly when their eight groups agree or their truncated digests collide |
| Utf8.SurvivesIffWellFormed | packages/admission-limits/src/public-admission-assertion.ts:75-91 | text comes back from its UTF-8 bytes exactly when every surrogate in it has its partner |
| Base64Url.DecodesEncoded | packages/admission-limits/src/public-admission-assertion.ts:75-93 | every sequence of bytes comes back from its base64url text, which has four letters for three bytes |
| JsonBytes.BytesReadBack | packages/admission-limits/src/public-admission-assertion.ts:75-91 | every JSON value comes back from the UTF-8 bytes of its text, stray surrogates in its strings included |
| PublicAdmissionAssertionProofs.TokenLength | packages/admission-limits/src/public-admission-assertion.ts:75-85 | a token is within the limit exactly when its JSON text has at most 3,039 bytes |
| PublicAdmissionAssertionProofs.PlainTokensAreShort | packages/admission-limits/src/public-admission-assertion.ts:45-85 | a token signed for fields without escapes stays within the verifier's limit of 4096 characters |
| PublicAdmissionAssertionProofs.SomeTokenVerifies | packages/admission-limits/src/public-admission-assertion.ts:45-117 | whatever the digest and the moment, some binding and keys give a token that verifies at once |
| PublicAdmissionAssertionProofs.SomeTokensAreTooLong | packages/admission-limits/src/public-admission-assertion.ts:45-85 | the signer accepts bindings whose token no verifier ever accepts |
| PublicAdmissionAssertionProofs.SignedVerifiesIff | packages/admission-limits/src/public-admission-assertion.ts:79-117 | a signed token that is not too long verifies exactly for its own binding, on the same UTC day, between 5 seconds before and 65 seconds after, and returns the signed pseudonyms |
| AssertionSoundness.VerifiesIff | packages/admission-limits/src/public-admission-assertion.ts:79-117 | any token verifies exactly when its signature is the keyed digest of its text under a key held for the version the text names, and the text is a current assertion for the expected request; the answer stands in the text |
| AssertionSoundness.ForgedIsRefused | packages/admission-limits/src/public-admission-assertion.ts:93-95 | a text that no held key has signed is refused, whatever it says |
| AssertionSoundness.SignsIff | packages/admission-limits/src/public-admission-assertion.ts:50-58 | the signer refuses exactly bindings, keys and versions out of shape, and a missing address |
| Encodings.CharacterBits | packages/admission-limits/src/public-admission-assertion.ts:75-91 | the UTF-8 bytes of a character carry its bits under their marks |
| Encodings.GroupIsNumber | packages/admission-limits/src/public-admission-assertion.ts:75-93 | four letters of base64url are the 24 bits of three bytes |
| PublicAdmissionAssertionProofs.RotationKeepsPseudonyms | packages/admission-limits/src/public-admission-assertion.ts:21-26 | rotating the signing key never changes a pseudonym within a day |
| PublicAdmissionAssertionProofs.PseudonymsAgreeIff | packages/admission-limits/src/public-admission-assertion.ts:59-62 | under one pseudonym key, two pseudonyms agree exactly for the same installation, surface, address and UTC day |
| Crc32.TableStep | packages/agent-packaging/src/host-package-zip.ts:90-94 | one table lookup and one shift are eight steps of the bit-serial register fed with the byte |
| Crc32.EightSteps | packages/agent-packaging/src/host-package-zip.ts:90-104 | eight register steps on any value are a table entry of its low byte and a shift by a byte |
| Crc32.ComputeEntry | packages/agent-packaging/src/host-package-zip.ts:100-103 | the inner loop computes the entry of its index |
| Crc32.FillTable | packages/agent-packaging/src/host-package-zip.ts:98-104 | the outer loop fills the array in place with every entry |
| Crc32.Crc32 | packages/agent-packaging/src/host-package-zip.ts:88-96 | the table-driven loop computes the CRC-32 of RFC 1952 for every byte sequence |
| Crc32Residue.ResidueIsConstant | packages/agent-packaging/src/host-package-zip.ts:88-96 | a register that also takes in its own checksum ends in the constant 0xdebb20e3, for every byte sequence; no bytes have checksum 0 |
| Bytes.WriteUInt32LE | packages/agent-packaging/src/host-package-zip.ts:29-39 | a number is written in place as four little-endian bytes and nothing behind it changes |
| Bytes.TryWriteUInt16LE | packages/agent-packaging/src/host-package-zip.ts:38 | a number is refused exactly when it does not fit its field |
| Bytes.ReadsBack32 | packages/agent-packaging/src/host-package-zip.ts:29-39 | reading four little-endian bytes gives back the number written |
| ZipWriter.LocalFileHeader | packages/agent-packaging/src/host-package-zip.ts:26-40 | the 30 bytes of a local header, or the error exactly when a field does not fit |
| ZipWriter.CentralFileHeader | packages/agent-packaging/src/host-package-zip.ts:53-71 | the 46 bytes of a directory entry, or the error exactly when the offset does not fit |
| ZipWriter.EndOfCentralDirectory | packages/agent-packaging/src/host-package-zip.ts:75-83 | the 22 bytes of the end record, or the error exactly when count, size or offset do not fit |
| ZipBytes.LocalHeaderBytes | packages/agent-packaging/src/host-package-zip.ts:29-39 | the bytes of a local header, as APPNOTE lists its fields |
| ZipBytes.CentralHeaderBytes | packages/agent-packaging/src/host-package-zip.ts:53-70 | the bytes of a directory entry |
| ZipWriter.DeterministicZip | packages/agent-packaging/src/host-package-zip.ts:20-86 | an archive is written exactly when every count, length and offset fits, and it is the specified layout with true checksums |
| ZipRoundTrip.RoundTrip | packages/agent-packaging/src/host-package-zip.ts:20-86 | a reader that starts from the last 22 bytes recovers exactly names, contents and checksums, in order, if and only if every stated length is true |
| ZipRoundTrip.ForwardWalk | packages/agent-packaging/src/host-package-zip.ts:25-48 | walking the local headers forward finds the same members and stops at the directory |
| ZipRoundTrip.OffsetsLand | packages/agent-packaging/src/host-package-zip.ts:41-48 | each offset in the directory lands on its own local header |
| ZipRoundTrip.ArchiveIsInjective | packages/agent-packaging/src/host-package-zip.ts:20-86 | different file lists give different archives |
| ZipRoundTrip.LimitsKeepFieldsInRange | packages/agent-packaging/src/host-packaging-limits.ts:10-12 | the limits on files, paths and file sizes keep every field in range, so the round trip holds |
| JsonText.ReadsEscaped | packages/agent-kit/src/product-skill-renderer.ts:149 | reading an escaped string gives the string back, lone surrogates included |
| JsonText.ReadsDigits | packages/agent-kit/src/product-skill-renderer.ts:149 | reading a decimal before anything but a digit gives the number back |
| CanonicalJsonReading.ReadsBack | packages/agent-kit/src/product-skill-renderer.ts:142-157 | a reader of JSON text inverts the printer before anything but a digit |
| CanonicalJsonOrder.CanonicalIsNormal | packages/agent-kit/src/product-skill-renderer.ts:142-157 | the canonical text is the plain text of the value with its keys sorted all the way down, or the error exactly for values outside JSON |
| CanonicalJsonOrder.SameIffNormal | packages/agent-kit/src/product-skill-renderer.ts:153-154 | values are equal up to key order exactly when their sorted forms are equal |
| CanonicalJsonOrder.CanonicalTextIsCanonical | packages/agent-kit/src/product-skill-renderer.ts:142-157 | two values have the same canonical text exactly when they are the same up to the order of keys, and the text reads back |
| JsonSyntax.KeysRise | packages/agent-kit/src/product-skill-renderer.ts:153-156 | in canonical text the keys of an object rise: at the first difference the smaller code unit or the shorter key comes first |
| JsonSyntax.LongEscapes | packages/agent-kit/src/product-skill-renderer.ts:149 | control characters and stray surrogates are four hexadecimal digits, other characters stand for themselves |
| BundleDigest.BundleTextTellsBundlesApart | packages/agent-kit/src/product-skill-renderer.ts:129-140 | the text behind the bundle digest always exists, and two bundles share it exactly when every digest and every file agree, in order |
| BundleDigest.BundleText | packages/agent-kit/src/product-skill-renderer.ts:129-140 | the digested text, key by key in order |
| SkillBundle.CheckFiles | packages/agent-kit/src/product-skill-renderer.ts:84-100 | the loop stops at the first file that fails, with its fault, and else has the pairs, the total and whether a file is too large |
| SkillBundle.ValidateFiles | packages/agent-kit/src/product-skill-renderer.ts:77-105 | a bundle is valid exactly when each of the four expected files is there once, sound and within its limit; otherwise the fault is fixed by the first file that fails, then a missing file, the total and a large file |
| SkillBundle.FourFilesAreAll | packages/agent-kit/src/product-skill-renderer.ts:101-102 | comparing sizes behind the loop compares the sets of files |
| SkillBundle.TotalIsNeverAlone | packages/agent-kit/src/product-skill-renderer.ts:96-104 | the total limit is never the only one exceeded: some file is then too large on its own |
| SkillRecords.GoodBundleHas | packages/agent-kit/src/product-skill-renderer.ts:77-105 | a valid bundle is four files at the four paths of the skill, each with text, true length and digest, and within its limits |
| SkillRecords.LinesAreSplit | packages/agent-kit/src/product-skill-renderer.ts:108-110 | lines end at line feeds |
| ManagedBlock.ManagedBlockRanges | packages/agent-kit/src/index.ts:360-372 | the loop finds the specified ranges, each from an opening marker to the first closing one behind it |
| ManagedBlock.CollectedInOrder | packages/agent-kit/src/index.ts:360-372 | ranges come in order and do not overlap |
| ManagedBlockProofs.MatchesIffBodyHashes | packages/agent-kit/src/index.ts:374-384 | a block passes exactly when its recorded digest is that of its body without trailing white space |
| ManagedBlockProofs.TwiceIsOnceIff | packages/agent-kit/src/index.ts:236-271 | reconciling again changes nothing, for every file and block, with or without force, except after an unclosed marker whose text passes or is forced |
| ManagedBlockProofs.SomeFileIsSwallowed | packages/agent-kit/src/index.ts:248-266 | for every digest and body there is a file that a second run changes |
| ManagedBlockProofs.OutsideIsKept | packages/agent-kit/src/index.ts:248-270 | text outside the first block survives every run but for a final line break |
| ManagedBlockReports.RunOnBlock | packages/agent-kit/src/index.ts:236-271 | what a run writes and reports on a file with a block: skipped exactly without force on another block or an edited one, overwritten exactly when an edited one is replaced |
| ManagedBlockReports.RunWithoutMarkers | packages/agent-kit/src/index.ts:236-250 | a missing file is the block; a file without one gets it appended behind a blank line |
| ManagedBlockReports.WrappedText | packages/agent-kit/src/index.ts:225-234 | the lines of a wrapped block |
| ManagedBlockProofs.ReplacedIsFound | packages/agent-kit/src/index.ts:265-268 | the new block is found where the old one stood |
| ManagedBlockProofs.EditedBlocksAreKept | packages/agent-kit/src/index.ts:244-264 | without force, an edited block and a file with two blocks are left as they are |
| ManagedBlockProofs.AgentKitIsGood | packages/agent-kit/src/index.ts:30-31 | the real markers have what the proofs need |
| SkillRegistry.DefineSkillRegistry | packages/agent-kit/src/skill-registry.ts:45-95 | a registry is accepted exactly when names, descriptions, versions, hosts and paths are as required and at most one skill is at the root |
| SkillRegistry.CheckFiles | packages/agent-kit/src/skill-registry.ts:75-90 | the file loop accepts exactly valid and pairwise distinct paths |
| SkillContainment.AcceptedIff | packages/agent-kit/src/skill-registry.ts:7 | a path is accepted exactly when it is plain and every `..` segment stands behind a line terminator |
| SkillContainment.AcceptedStaysInside | packages/agent-kit/src/skill-registry.ts:75-90 | a file of an accepted registry with a one-line path is installed inside the folder of its own skill, however its segments are followed |
| SkillContainment.LeavingIsRefused | packages/agent-kit/src/skill-registry.ts:75-90 | one-line paths that would leave are refused |
| SkillContainment.AcceptedAndLeavesIff | packages/agent-kit/src/skill-registry.ts:75-90 | a path is accepted although it leaves exactly when it goes up too often, and only behind a line terminator |
| SkillContainment.SomePathLeaves | packages/agent-kit/src/skill-registry.ts:7 | there is such a path |
| Patterns.SkillNameIff | packages/agent-kit/src/skill-registry.ts:5 | the check of skill names is the pattern of the source |
| Patterns.VersionIff | packages/agent-kit/src/skill-registry.ts:6 | the check of versions is the pattern of the source |
| SkillRendering.RenderRegisteredSkillFiles | packages/agent-kit/src/skill-registry.ts:97-140 | rendering lists every file in order, or throws exactly when something is blank or two files share a path |
| SkillListing.ListedFile | packages/agent-kit/src/skill-registry.ts:103-136 | each listed file in its place, with its content for the host and its literal paths |
| SkillRendering.RenderAgentKitManifest | packages/agent-kit/src/index.ts:318-338 | a manifest entry for every publishable file, with no missing mapping |
| SkillPaths.InstalledPathsDistinct | packages/agent-kit/src/skill-registry.ts:116-127 | an accepted registry never installs two files in one place |
| SkillPaths.PublishPathsDistinctIff | packages/agent-kit/src/skill-registry.ts:113-125 | publish paths are distinct exactly when no file at the root stands where another skill is published; always without a root skill |
| SkillPaths.RendersUnlessClash | packages/agent-kit/src/skill-registry.ts:97-140 | an accepted registry renders exactly when nothing is blank and there is no such clash |
| SkillClash.EverySkillCanClash | packages/agent-kit/src/skill-registry.ts:97-140 | every skill that is not at the target root is part of an accepted registry that can never be rendered |
| SkillPaths.ManifestIsOneToOne | packages/agent-kit/src/index.ts:318-338 | over both hosts, the manifest maps every publish path to its own installed path, one to one |
| SkillOwnership.SlugsEqualIff | packages/agent-kit/src/product-skill-ownership.ts:144-155 | two app names share a slug only when neither is kept and their truncated digests agree |
| SkillOwnership.SlugIsSkillName | packages/agent-kit/src/product-skill-ownership.ts:144-155 | every slug is a valid skill name of at most 64 characters |
| SkillRecords.SlugIs | packages/agent-kit/src/product-skill-ownership.ts:144-155 | a short skill name that looks like no fallback is kept; otherwise the slug is the fallback |
| SkillState.DecodeFiles | packages/agent-kit/src/product-skill-ownership.ts:104-121 | the loop decodes exactly the records of good files with distinct paths |
| SkillState.DecodeProductSkillState | packages/agent-kit/src/product-skill-ownership.ts:65-141 | decoding accepts exactly the records of valid states of either version and gives the state back |
| SkillRecords.ValidStateMeans | packages/agent-kit/src/product-skill-ownership.ts:65-141 | the shapes of an accepted record, in the patterns and literals of the source |
| SkillState.RecordsDiffer | packages/agent-kit/src/product-skill-ownership.ts:65-141 | two records are the same only for the same state and version |
| SkillState.CreatedDecodes | packages/agent-kit/src/product-skill-ownership.ts:41-62 | a created record decodes to itself, and its version-1 form to the same state flagged for migration |

## Left out

- SQL text, schema and index creation, connection pooling and network failures. A statement is one step; a failed statement or connection is an abort, which may happen at any statement before the answer is fixed.
- A COMMIT whose acknowledgement is lost, and an error in the second read of a refused `consume`: the model lets a transaction fail only while it is undecided.
- Sweeps with the batch limit of 10,000 rows are modelled as deleting any set of unlocked rows older than the cutoff, and only while no call of such an old day is running; calls at moments more than two days back are outside the model.
- PostgresClient.PostgresDailyCounterStore.Consume: sees no other transaction; interleaving is the subject of `Postgres`, where tables and transactions are values and not objects, because every statement of every client must be able to interleave.
- PostgresRefinement.EveryRunIsSequential: requires amounts of at least 1, leaves open the use reported with a denial and the order of exhausted counters, and gives no event to the error for shared rows; `ZeroUnitsDiffer`, `SwitchedOffAgreesIff` and `SharedRowsAgreeIff` say exactly where the stores differ.
- Counter values are unbounded integers; values beyond 2^53 are not modelled.
- Years outside 0 to 9999; `Prune` and `SweepIsInvisible` therefore start two days into year 0.
- `admitPublicRecord` over a store without `consumeAllOnce`, or one that throws anything but the error for shared rows.
- ZIP names are bytes; their UTF-8 encoding is not part of the archive model.
- JSON texts with white space, fractions or exponents: the reader of an assertion takes none of them. The order of the properties of a binding is that of its interface.
- PublicAdmissionAssertionProofs.SignedVerifiesIff: covers tokens that were signed; that no other token verifies would rest on the keyed digest.
- IPv6 texts with an embedded dotted quad other than the mapped form, and with a zone.
- `canonicalJson` on numbers that are not integers of magnitude below 2^53, on sparse arrays, and on objects with inherited properties.
- `contentSha256`, the front matter of `stampSkill` and the digests of manifest entries: contents are rendered by functions that are parameters.
- `key in value` of `hasExactKeys` on inherited properties; property names are constructors, with one for every other name.
- Lone surrogates in the texts of the skill registry and the managed block, which are sequences of characters; the limits on their length count UTF-16 units.
- ManagedBlockProofs.TwiceIsOnceIff: requires that the body holds no closing marker, and that the package version holds no line break, `<` or colon.
- Crc32.Crc32: takes the filled table as an argument where the source has a module constant.
- Fixed text and JSON templates, environment parsing, and recorded example data: nothing hard to prove.
