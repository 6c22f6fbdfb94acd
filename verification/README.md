# The guarded write pipeline of the CFB27 Lua host, in Dafny

The native host changes the memory of a running game. A typed field change goes a long way before a byte is
written: a session catalog says where a table lies and is revalidated against live memory; a planner diffs the
row and cuts write operations; a finaliser merges the evidence and the writes of all plans into one request of
disjoint operations; a transaction engine compares, writes, reads back and rolls back; and the host's locks and
its session lockdown decide who may write at all. This project models that pipeline and the discovery, scanning
and search code under it, and proves what it is for.

The model takes the form of the source. The catalog session, the Lua database, the memory backend and the
discovery backend are classes whose methods change their fields; loops over buffers are loops over arrays; pure
arithmetic is functions. Each method is proved against a specification function or predicate, and the laws are
proved about those. Every fault is part of the model: reads of the transaction engine fail or tell the truth,
writes fail, lie or scribble inside their own range, and the memory a discovery backend shows may differ at
every call. A *steady* backend is one whose memory does not change and whose answers are true.

## The modules

- `Bytes`, `SeqFacts`, `Bits`, `Ranges`: memory as a map from addresses to bytes, and facts about sequences, bits and ranges.
- `AddressText`, `MemoryTransaction`, `EngineMeaning`: addresses as text and the transaction engine.
- `FieldSchema`, `Profile`, `WordOrder`, `Utf8`: field definitions and the bit-packed codec, profiles, word-swapped records, names.
- `CatalogState`, `CatalogReads`, `Quarantine`, `Revalidation`, `CatalogSurvey`, `CatalogMeaning`, `SessionCatalog`: the
  catalog as a value and as an object, bounded reads, the quarantine closure, and what revalidation checks.
- `FieldTransaction`, `GuardedCommit`: the finaliser and what a commit means.
- `DiffRuns`, `RecordAccess`, `RecordMeaning`, `TypedCommit`: the planner, reads, and the way from a plan to the record a commit leaves.
- `MaskedPattern`, `MemoryScan`, `Discovery`, `ScanDiscovery`, `ScanMeaning`, `DiscoveredTables`, `IndexedArrays`,
  `RelationshipPhase`, `BoardSearch`: the searches and discovery.
- `PendingChanges`, `LuaDatabase`, `HostLocks`: the Lua transaction and the threads over the host's locks.

The modules whose names end in `Meaning`, and the lemmas whose names end in `Exactly`, say in numbers, bytes and
quantifiers alone what the specification functions compute, so that the laws do not rest on the functions' own text.

## Results worth knowing

- A plan guards only the bytes it writes. If other bytes of the record change between planning and commit, the
  commit still applies; `TypedCommit.CommittedRecord` gives the record it leaves and the exact condition under
  which it is the planned one, `TypedCommit.UnguardedByteSurvives` a record for which it is not.
- The little-endian relationship read of live bytes agrees with the codec exactly for word-aligned fields
  (`WordOrder.SwappedWordIsDecodeIffAligned`); `WordOrder.UnalignedWordDiffers` gives a failing record for every other.
- Generations come back after 2^64 - 1 advances and not before (`CatalogState.StaleExactly`).
- `FindPatterns` reports the occurrences of a needle once each exactly when no chunk is carried two of them
  (`BoardSearch.FindPatterns`); `BoardSearch.ZerosReportedTwice` is an input for which one is.
- `DecodeField` does not check the declared bounds, so a stored value may not be writable again:
  `FieldSchema.EncodeAfterDecode` says exactly when it is, `FieldSchema.StoredOutOfBounds` gives one that is not.
- One unreadable probe fails its whole batch, so on such memory revalidation fails more tables than the failing
  ones: exactly those dragged along (`SessionCatalog.FailuresExactly`), two tables being enough
  (`SessionCatalog.BatchMateFails`).
- A component may span a guard and a write; then the guarded bytes must be writable, too
  (`GuardedCommit.ReadyExactly`); `GuardedCommit.GuardedByteIsRefused` are plans refused for that.
- The schema loader admits overlapping fields. The changes of one plan read back if and only if no two put different
  bits in one place (`RecordAccess.AllDecodeExactly`, `RecordAccess.ReadAfterWrite`); `RecordAccess.OverlapLosesTheFirst`
  is a pair that does not.
- A table whose fingerprint has more than eight matches, or that 4096 pages do not cover, is reported missing even if
  it has exactly one layout (`ScanDiscovery.DiscoverByScanning`).
- Fields of an indexed array are not stored. Should one ever have direct authority, a write to it reads back
  exactly if it asked for the reference the field stands for anyway (`RecordAccess.ReadAfterWrite`).

## Model

| member | source | states |
|---|---|---|
| AddressText.FormatParseBijection | native/host/frtk_record_access.cpp:18-22 | printing an address and parsing it canonically are a bijection: the canonical parser accepts a text for an address exactly when it is the printed one, and the lenient parser reads the printed one back |
| AddressText.DigitsOfValue | native/host/memory_transaction.cpp:35-50 | canonical upper-case hex texts are exactly the printed digits of their value |
| Ranges.NeighboursSuffice | native/host/memory_transaction.cpp:188-196 | over ranges sorted by begin, no two overlap if and only if no neighbours do |
| Ranges.PairwiseApartIsOrderFree | native/host/memory_transaction.cpp:188-196 | whether ranges overlap depends only on the bag of ranges, not on their order |
| Ranges.SortByBegin | native/host/memory_transaction.cpp:188-191 | sorting by begin gives a sorted permutation |
| Ranges.AnyOverlap | native/host/memory_transaction.cpp:188-196 | the sort-and-compare test refuses exactly the overlapping range lists |
| Ranges.SortedLexIsUnique | native/host/frtk_record_access.cpp:321-325 | a sorted list of ranges is determined by its bag |
| Ranges.MergeSeparates | native/host/frtk_record_access.cpp:326-333 | merging sorted ranges gives separated components; touching ranges stay separate |
| Ranges.MergeCovers | native/host/frtk_record_access.cpp:326-333 | merging covers exactly the addresses the ranges covered |
| MemoryTransaction.MemoryBackend.Read | native/host/memory_transaction.cpp:131-138 | a read fails, or returns the current bytes |
| MemoryTransaction.MemoryBackend.Write | native/host/memory_transaction.cpp:140-146 | a write may fail or land anything, but only inside its own range; where nothing goes wrong with the call it lays its bytes over the memory |
| MemoryTransaction.CheckOperations | native/host/memory_transaction.cpp:158-186 | the shape, total and address checks accept exactly legal operations and name the first fault |
| MemoryTransaction.Preflight | native/host/memory_transaction.cpp:198-216 | preflight passes only if every range is accessible and holds its expected bytes, and captures them |
| MemoryTransaction.RollBack | native/host/memory_transaction.cpp:56-85 | originals are written back in reverse order of the attempts; a verified rollback leaves the memory of entry, an unverified one touches only attempted ranges; and it is verified whenever no restoring call goes wrong |
| MemoryTransaction.Apply | native/host/memory_transaction.cpp:218-252 | the apply loop either commits every replacement, verified, or undoes the attempted prefix |
| MemoryTransaction.RunTransaction | native/host/memory_transaction.cpp:148-252 | atomicity under faults: rejected issues no write; applied means the full overlay on memory that passed preflight; rolled-back-verified means memory of entry; in every outcome nothing outside a write range changes; with no faulty call it applies exactly when the request is well-formed and ready, a rollback needs one, and an unverified rollback two; the request goes on record |
| EngineMeaning.WellFormedExactly | native/host/memory_transaction.cpp:148-196 | without the engine's own tests: a request is taken exactly under an id of 1 to 64 legal characters, with 1 to 32 operations of 1 to 4096 bytes at printed addresses inside the address space, at most 65536 bytes together, no byte compared twice |
| EngineMeaning.FirstFaultMeans | native/host/memory_transaction.cpp:158-186 | the code of a rejected request is that of its first faulty operation, and of one operation the shape counts before the total and the total before the address |
| EngineMeaning.LogsMean | native/host/memory_transaction.cpp:56-85 | writes are issued in request order with the replacements, and taken back in the opposite order with the expected bytes |
| EngineMeaning.ResultsMean | native/host/memory_transaction.cpp:218-252 | per operation, what the results of an applied and of an undone run say |
| MemoryTransaction.CommittedAt | native/host/memory_transaction.cpp:224-246 | in a request of disjoint operations every byte ends as its own operation says, whatever the order |
| MemoryTransaction.CommittedOutside | native/host/memory_transaction.cpp:224-246 | a byte in no operation's range keeps its value |
| FieldSchema.PackedReferenceRoundTrip | native/host/frtk_field_schema.cpp:362-379 | packing and unpacking references are inverse on 32-bit words and on 15/17-bit pairs |
| FieldSchema.DecodeAfterEncode | native/host/frtk_field_schema.cpp:381-452 | for every definition and encoding, encoding succeeds exactly on acceptable values of valid definitions, and decoding then returns the value |
| FieldSchema.EncodeAfterDecode | native/host/frtk_field_schema.cpp:381-452 | decoding never checks the declared bounds; writing the decoded value back succeeds exactly when it is in bounds, and then changes nothing |
| FieldSchema.StoredOutOfBounds | native/host/frtk_field_schema.cpp:381-452 | a record whose stored value its field does not declare: it decodes and cannot be written back |
| FieldSchema.DefinedExactly | native/host/frtk_field_schema.cpp:109-165 | which definitions are legal, in numbers: 1 to 32 bits in a window of 1 to 5 bytes inside the record, and bounds the encoding and the width can hold |
| FieldSchema.DecodeMeans | native/host/frtk_field_schema.cpp:381-405 | a field's raw value is the sum of the powers of two at its bits, counted from the last byte of the window; offset, sign, and the top 15 and low 17 bits of a reference give the decoded value |
| FieldSchema.EncodeAcceptsExactly | native/host/frtk_field_schema.cpp:407-442 | a value is accepted exactly if its kind fits the encoding and it is in the declared bounds |
| FieldSchema.StorageIsBigEndian | native/host/frtk_field_schema.cpp:167-174 | the stored word is the number its bytes write in base 256, highest first |
| FieldSchema.EncodeWritesField | native/host/frtk_field_schema.cpp:407-452 | the bit frame: encoding changes the bits from 8 * byteOffset + bitOffset on for bitWidth bits to the raw word's, and no other bit |
| FieldSchema.EncodeKeepsDisjointField | native/host/frtk_field_schema.cpp:407-452 | a bit-disjoint field keeps its value even when the storage windows share bytes |
| FieldSchema.DisjointEncodesCommute | native/host/frtk_field_schema.cpp:407-452 | writes to bit-disjoint fields commute |
| FieldSchema.ReadStorage | native/host/frtk_field_schema.cpp:167-174 | the byte loop assembles the stored word, most significant byte first |
| FieldSchema.DecodeField | native/host/frtk_field_schema.cpp:381-405 | the procedure computes the decoding the laws are about, errors included |
| FieldSchema.WriteStorage | native/host/frtk_field_schema.cpp:444-450 | the write-back loop stores the word's bytes in the window and leaves every other byte |
| FieldSchema.EncodeField | native/host/frtk_field_schema.cpp:407-452 | the procedure computes the encoding the laws are about, errors included |
| Profile.FindFieldExactly | native/host/frtk_field_schema.cpp:350-360 | the lookup finds a field if and only if it is the first with the name in the first table with the id |
| Profile.MaskedMatchesExactly | native/host/frtk_catalog.cpp:18-31 | a fingerprint matches exactly the bytes of its length that agree with it in every bit its mask selects |
| WordOrder.SwapWordsInvolution | native/host/frtk_record_access.cpp:37-43 | swapping words is its own inverse at every length |
| WordOrder.SwapWordsInPlace | native/host/frtk_record_access.cpp:37-43 | reversing four-byte chunks in place, the short tail included, computes the swapped record |
| WordOrder.LiveMatchIsCanonicalMatch | native/host/frtk_catalog.cpp:33-41 | a live fingerprint matches live bytes if and only if the canonical fingerprint matches the swapped bytes |
| WordOrder.LittleEndianMeans | native/host/frtk_catalog.cpp:51-57 | the little-endian read is the number the bytes write in base 256, lowest first |
| WordOrder.CanonicalWordIsDecode | native/host/frtk_catalog.cpp:43-49 | the big-endian relationship read is the codec's decoding, at any offset |
| WordOrder.AlignedWordIsDecode | native/host/frtk_catalog.cpp:51-57 | the little-endian read of live bytes is the codec's decoding of the swapped record for every word-aligned field |
| WordOrder.SwappedWordIsDecodeIffAligned | native/host/frtk_catalog.cpp:430-438 | that agreement holds for all records if and only if the field is word-aligned |
| CatalogState.InstalledExactly | native/host/frtk_catalog.cpp:133-184 | a table is installed if and only if the first schema with its id and the first discovery of it agree with it; the entry then lies where it was discovered, with direct authority only if the discovery verified direct writes or the schema grants it |
| CatalogState.NothingInstalled | native/host/frtk_catalog.cpp:134-150 | a table without a schema or without a discovery of its own is not installed |
| CatalogState.InstallMeans | native/host/frtk_catalog.cpp:125-186 | an installation leaves nothing of an invalid discovery; of a valid one every table of the profile that schema and discovery agree on, as discovered and under the next generation, and no other entry |
| CatalogState.SurvivorsStay | native/host/frtk_catalog.cpp:486-495 | a failed revalidation leaves every entry that is not quarantined, in its old place among them and with only its generation changed, and no others |
| CatalogState.ResolveExactly | native/host/frtk_catalog.cpp:198-208 | a handle resolves to the first entry of its table under the current generation, and only a current handle does |
| CatalogState.ActiveTableIdExactly | native/host/frtk_catalog.cpp:540-554 | a unique id and a row lead to the session id of the first current entry of that id with such a row, and to nothing under another generation |
| CatalogState.EvidenceExactly | native/host/frtk_catalog.cpp:497-511 | evidence is active exactly if there are entries, all of the generation of the evidence, which is current and not zero, and its ids are their unique ids in ascending order |
| CatalogState.RunKeepsValid | native/host/frtk_catalog.cpp:120-222 | over every run every entry carries the current generation, and the generation is the number of advances applied to the first one |
| CatalogState.FreshHandleResolves | native/host/frtk_catalog.cpp:188-208 | a fresh handle resolves, and to its own table |
| CatalogState.StaleExactly | native/host/frtk_catalog.cpp:120-123 | a generation comes back exactly after a multiple of 2^64 - 1 advances, and the initial 0 never |
| CatalogState.NothingStaleIsAccepted | native/host/frtk_catalog.cpp:198-208 | before that no handle, evidence or reference target from before an advance is accepted by any lookup |
| CatalogReads.DiscoveryBackend.ReadBatch | native/host/frtk_discovery.h:86-88 | a batch is answered whole or not at all, and an answer of the right shape is the truth at that call |
| CatalogReads.TakeBatch | native/host/frtk_catalog.cpp:93-101 | each batch takes the longest run of requests within 64 ranges and 256 KiB, at least one |
| CatalogReads.ReadBoundedBatches | native/host/frtk_catalog.cpp:81-116 | batching is transparent: the calls partition the requests in order into bounded batches; a slot fails with its whole batch, only if that batch's own call was not truthful or could not read it, on steady memory exactly when its batch holds an unreadable request; and a slot that did not fail holds what its request alone reads at that call |
| CatalogReads.SlotFates | native/host/frtk_catalog.cpp:93-114 | every slot has the fate of the one call made for its own batch, which its place in the greedy cut determines |
| Quarantine.SweepOnce | native/host/frtk_catalog.cpp:447-465 | one pass adds only tables that reach a failed or missing one, and reports a change exactly when it grew the set |
| Quarantine.CloseQuarantine | native/host/frtk_catalog.cpp:446-465 | the closure loop terminates with exactly the tables from which a failed or missing table is reachable along relationships |
| Quarantine.SurvivorsAreLargest | native/host/frtk_catalog.cpp:446-465 | the survivors are self-supporting, and every self-supporting set of tables survives |
| Quarantine.ClosureIsOrderFree | native/host/frtk_catalog.cpp:446-465 | with distinct table ids the closure does not depend on the order of entries |
| Revalidation.GuardSufficiency | native/host/frtk_catalog.cpp:467-484 | memory that satisfies every guard of a snapshot, with allocations unchanged, passes revalidation again, the slot, wrapper and type chains included |
| Revalidation.ChainGuardsSuffice | native/host/frtk_catalog.cpp:342-351 | the guards of an indexed array pin its whole slot, wrapper and type chain |
| CatalogSurvey.DoubleRead | native/host/frtk_catalog.cpp:274-287 | both reads must succeed and agree; the bytes were seen by two different backend calls; it succeeds when all its calls are truthful and see the same bytes, and on steady memory exactly when every request is legal and readable |
| CatalogSurvey.CollectSlots | native/host/frtk_catalog.cpp:250-273 | the static tests of an indexed array, 32-bit wrapping products included, and its slot requests |
| CatalogSurvey.CheckWrappers | native/host/frtk_catalog.cpp:318-337 | wrappers pass exactly when each carries its row and one common non-null type |
| CatalogSurvey.SurveyIndexed | native/host/frtk_catalog.cpp:249-352 | an indexed array passes, on steady memory, exactly when its chain holds, and on any memory if all its own calls are truthful and see one and the same whole chain; its guards expect that chain, each byte seen twice |
| CatalogSurvey.SurveyRecords | native/host/frtk_catalog.cpp:354-402 | the probes of a record table are those of its rows, then of its relationships, and it passes exactly when every one could be placed |
| CatalogSurvey.Survey | native/host/frtk_catalog.cpp:242-403 | the first phase over all tables: every failed table has its cause in one of the calls of its own survey, on steady memory exactly the unfit ones fail, and the guards are justified when none fails |
| CatalogMeaning.RecordTableExactly | native/host/frtk_catalog.cpp:354-444 | what a record table's check demands, without the probes: every fingerprint fits the bytes at base + row * stride, as they are or with their words reversed in swapped storage, and every relationship's word there is table * 131072 + row of a target row that is there |
| CatalogMeaning.IndexedArrayExactly | native/host/frtk_catalog.cpp:249-352 | what an indexed array's check demands, in numbers: slot, 28-byte wrapper, one type, the row, and relationships that name their elements |
| CatalogMeaning.PassesExactly | native/host/frtk_catalog.cpp:242-465 | a catalog passes exactly when it has entries, every allocation is there, every table's records or array are in place and every relationship's target table is in the catalog |
| SessionCatalog.Judge | native/host/frtk_catalog.cpp:412-444 | exactly the tables with a probe that failed a read, differed between reads or does not hold are added |
| SessionCatalog.CheckProbes | native/host/frtk_catalog.cpp:405-444 | the second phase: an illegal request fails every probed table and no other; otherwise a table fails only if one of the two calls that read one of its probes made it suspect (its batch not read, its bytes changed, or misfitting); what is not failed was read twice with fitting bytes; on steady memory exactly the misfitting and the dragged tables fail |
| SessionCatalog.FindQuarantined | native/host/frtk_catalog.cpp:224-465 | what revalidation quarantines: the closure of the failed tables, each of them failed for a cause in one of the calls of its own survey or of its own probes, on steady memory exactly the failing and the dragged ones; nothing exactly when the catalog passes; justified, twice-seen guards when nothing |
| SessionCatalog.FailuresExactly | native/host/frtk_catalog.cpp:405-444 | on steady memory the failed tables are exactly the failing ones and those dragged along by an unreadable batch or an illegal request, so they are the failing ones if and only if every dragged table is itself failing |
| SessionCatalog.BatchMateFails | native/host/frtk_catalog.cpp:405-418 | two tables in one batch, the second unreadable: both fail, although the first passes by itself |
| SessionCatalog.Session.AdvanceGeneration | native/host/frtk_catalog.cpp:120-123 | the 64-bit generation advances and skips zero |
| SessionCatalog.Session.Install | native/host/frtk_catalog.cpp:125-186 | the state becomes the installed catalog of the profile and the discovery, under a new generation |
| SessionCatalog.Session.Invalidate | native/host/frtk_catalog.cpp:210-213 | the entries go and the generation advances |
| SessionCatalog.Session.AdvanceLifecycle | native/host/frtk_catalog.cpp:215-222 | only the loss of readiness invalidates |
| SessionCatalog.Session.Revalidate | native/host/frtk_catalog.cpp:224-495 | succeeds exactly when nothing is quarantined: on steady memory, exactly when every table is in place byte for byte (`CatalogInPlace`); then nothing changes and the snapshot is active and justified; otherwise exactly the tables that reach a failed or missing one go, every failed one for a cause in its own calls, and the rest is restamped under a new generation |
| SessionCatalog.Session.EvidenceHolds | native/host/frtk_catalog.cpp:497-511 | evidence is accepted exactly when its generation is current and real and its sorted ids are the active ones |
| FieldTransaction.CollectMeans | native/host/frtk_record_access.cpp:93-124 | collecting constraints succeeds exactly when no two pieces of any guard or operation disagree about a byte, and the map then says exactly what they say |
| FieldTransaction.ConsistentExactly | native/host/frtk_record_access.cpp:93-124 | what consistency is: every operation has an address and a shape, and no two expect different bytes, or write different bytes, in one place |
| FieldTransaction.MergeableExactly | native/host/frtk_record_access.cpp:281-320 | which plans can be merged: at least one, all of them successful, with guards, under the current generation and for exactly the tables that are there, and consistent with one another |
| FieldTransaction.AddOperationConstraints | native/host/frtk_record_access.cpp:93-124 | one operation's bytes are added or refused as the collection says |
| FieldTransaction.MergeRanges | native/host/frtk_record_access.cpp:326-333 | the merging loop computes the components |
| FieldTransaction.BuildOperation | native/host/frtk_record_access.cpp:335-367 | a component becomes one operation with every byte's expectation and, if any byte is written, its replacement |
| FieldTransaction.BuildOperations | native/host/frtk_record_access.cpp:335-381 | building succeeds exactly with at most 32 components of at most 4096 bytes each and 65536 together |
| FieldTransaction.FinalizeFieldTransaction | native/host/frtk_record_access.cpp:281-384 | finalising succeeds exactly on current, mutually consistent plans within the limits, each refusal code has its cause, and the request is the components' operations |
| GuardedCommit.FinalRequestIsWellFormed | native/host/frtk_record_access.cpp:321-384 | with a legal transaction id a finalised request is never rejected for count, size, total, address or overlap |
| GuardedCommit.FinalisesExactly | native/host/frtk_record_access.cpp:281-384 | the finaliser's limits are the engine's: consistent current plans finalise under a legal id if and only if the engine finds the request they merge into well formed |
| GuardedCommit.CommitMeaning | native/host/frtk_record_access.cpp:281-384 | if the finalised request passes preflight, memory held every guard and every expected byte of every plan, and the committed memory is that memory overlaid with exactly the plans' replacements |
| GuardedCommit.PlanOrderIsImmaterial | native/host/frtk_record_access.cpp:281-384 | whether finalising succeeds, and the request, are independent of the order of plans |
| GuardedCommit.ReadyExactly | native/host/memory_transaction.cpp:198-216 | a finalised request passes the preflight if and only if every guard and expectation of every plan holds and every component a plan writes into is writable as a whole |
| GuardedCommit.GuardedByteIsRefused | native/host/frtk_record_access.cpp:345-384 | a plan whose guard covers one byte more than its write: it holds and every byte it writes may be written, but the final operation spans the guarded byte, which may not, so the request is refused |
| GuardedCommit.CommitPlans | native/host/lua_host.cpp:1895-1923 | finalise and run: the engine runs once, on the request the plans finalise into, or not at all; without faults it applies if and only if every plan holds and may write; applied means the plans held before and are applied after; anything else but an unverified rollback leaves memory as it was |
| DiffRuns.RunsAreMaximal | native/host/frtk_record_access.cpp:255-266 | the runs are maximal differing runs, sorted, with at least one equal byte between them |
| DiffRuns.RunsCoverDifference | native/host/frtk_record_access.cpp:255-266 | they cover exactly the differing bytes |
| DiffRuns.CutOperations | native/host/frtk_record_access.cpp:255-276 | the index loops cut exactly those runs, and give up exactly when there are more than 32 |
| DiffRuns.OperationsCommitImage | native/host/frtk_record_access.cpp:267-272 | committing the cut operations turns the old image into the new one and touches nothing else |
| RecordAccess.ChangedFieldsDecode | native/host/frtk_record_access.cpp:240-245 | after encoding pairwise disjoint changes one after the other every one of them decodes to its requested value; disjoint changes always agree |
| RecordAccess.LastChangeWins | native/host/frtk_record_access.cpp:240-245 | whatever overlaps, every bit of the record ends as the last change over it puts it, and a bit under no change stays |
| RecordAccess.AllDecodeExactly | native/host/frtk_record_access.cpp:240-245 | all changes decode to their requested values if and only if no two of them put different bits in one place |
| RecordAccess.OverlapLosesTheFirst | native/host/frtk_record_access.cpp:240-245 | two changes of one byte under two names: the second decodes, the first is lost |
| RecordAccess.OtherFieldsKept | native/host/frtk_record_access.cpp:240-245 | a field disjoint from all of them keeps its value |
| RecordAccess.CheckChanges | native/host/frtk_record_access.cpp:219-229 | the changes pass exactly when their names are distinct, their fields exist and their references are valid |
| RecordAccess.EncodeChanges | native/host/frtk_record_access.cpp:240-248 | the encode loop folds the changes over the record and fails with the first failing one |
| RecordAccess.PlanMeaning | native/host/frtk_record_access.cpp:202-279 | plan correctness for canonical and word-swapped rows: 1 to 32 operations whose commit changes only the record, in which all changed fields decode to their values if and only if the changes agree, and every other disjoint field as before |
| RecordAccess.PlanFieldWrites | native/host/frtk_record_access.cpp:202-279 | every refusal has its cause, in the source's order, a failed read being one it made itself; a plan's operations are the maximal runs and its evidence is active and justified |
| RecordMeaning.AuthorityDecides | native/host/frtk_record_access.cpp:202-218 | only a table with direct authority is planned, and every other known table is refused for just that, whatever is asked of it |
| RecordMeaning.PlannedExactly | native/host/frtk_record_access.cpp:202-279 | on a table with direct authority, changes that may be asked for are planned exactly if the row can be read, every change can be encoded, and the changed row differs from the live one, in at most 32 stretches |
| RecordMeaning.PlanStaysInRow | native/host/frtk_record_access.cpp:45-59 | a plan's operations are writes of legal size inside the recordSize bytes at base + row * stride |
| RecordMeaning.RowsAreApart | native/host/frtk_record_access.cpp:45-59 | the records of two rows share no byte |
| RecordAccess.ReadFields | native/host/frtk_record_access.cpp:128-200 | reads answer exactly the stored or, for indexed arrays, the implied values, or the source's refusal; `RecordMeaning` says which bytes those are |
| RecordMeaning.ReadIsTheRow | native/host/frtk_record_access.cpp:128-200 | a read of a record table answers with what the codec decodes from the bytes at base + row * stride, their words reversed in swapped storage, exactly if all the fields decode and all their references are to rows that are there |
| RecordMeaning.ReadIsRefused | native/host/frtk_record_access.cpp:128-200 | a missing row or field, no names, or bytes that cannot be read are refused, each with its code |
| RecordMeaning.IndexedReadExactly | native/host/frtk_record_access.cpp:150-172 | the reference in word o of row r of an indexed array is to element r * width + o of its target, if that fits 32 bits and is there |
| RecordMeaning.RelationshipIsRead | native/host/frtk_record_access.cpp:150-172 | a read of an indexed array gives the row that the relationship revalidation checked demands |
| RecordMeaning.DetectedIsRead | native/host/frtk_discovery.cpp:337-370 | the same for a layout that detection finds |
| RecordAccess.ReadAfterWrite | native/host/frtk_record_access.cpp:128-279 | on the memory a plan commits, reading the changed fields gives the requested values if and only if the changes agree; of an indexed array, whose fields are not stored, if and only if it stands for them |
| RecordAccess.IndexedIsRead | native/host/frtk_record_access.cpp:150-172 | a read of an indexed array does not depend on memory: it gives requested values if and only if the fields stand for them |
| TypedCommit.CommittedRecord | native/host/frtk_record_access.cpp:255-276 | after an applied commit a plan's record is the record found at the commit with the differing bytes replaced; it is the planned record if and only if the unguarded bytes have not changed since planning |
| TypedCommit.UnguardedByteSurvives | native/host/frtk_record_access.cpp:255-276 | a row whose other byte changes between planning and commit: the plan holds and is applied, and the row is not the planned one |
| TypedCommit.HeldCatalogPasses | native/host/frtk_catalog.cpp:467-484 | memory on which a plan holds is memory on which the whole catalog passes, its allocations still there |
| TypedCommit.CommitReadsBack | native/host/frtk_record_access.cpp:128-279 | plan, finalise, run, read: under that condition the changed fields read back as requested if and only if the changes agree (of an indexed array, if and only if it stands for them), and disjoint fields as when planned |
| MaskedPattern.CompileMaskedPattern | native/host/memory_reader.cpp:152-171 | the compiled checks are exactly those of the selected positions, a whole-byte anchor first if there is one |
| MaskedPattern.CompiledMeans | native/host/memory_reader.cpp:137-147 | the checks pass exactly where the masked pattern fits |
| MaskedPattern.AnchorSkips | native/host/memory_reader.cpp:129-135 | jumping to the next byte equal to the anchor skips no match |
| MaskedPattern.FindNext | native/host/memory_reader.cpp:118-150 | returns the first candidate that passes every check, or none exactly when there is none |
| MemoryScan.MatchesExactly | native/host/memory_reader.cpp:442-610 | the naive list holds every match wholly inside one eligible region once, ascending |
| MemoryScan.PageQueriesTile | native/host/memory_reader.cpp:461-476 | region queries that answer from the page of the address asked meet the hypothesis of the scan theorems |
| MemoryScan.ChunkIsFaithful | native/host/memory_reader.cpp:494-502 | with a lookahead of one byte less than the pattern, matches starting in the chunk are exactly the candidates that fit the bytes read |
| MemoryScan.SearchWindow | native/host/memory_reader.cpp:520-536 | one window of at most 4096 candidates advances, finds the next match or leaves the rest to the next chunk |
| MemoryScan.SearchChunk | native/host/memory_reader.cpp:518-589 | the candidate loop finds exactly the chunk's matches, or stops at one more than the limit |
| MemoryScan.VisitRegion | native/host/memory_reader.cpp:455-606 | one round of the page loop keeps the matches equal to the naive scan of what was covered, and the budget spent equal to the eligible bytes in it |
| MemoryScan.ScanPrivateMemory | native/host/memory_reader.cpp:407-610 | one page is the naive scan from its cursor to where it stops; complete exactly past the maximum; an unfinished page has read exactly 32 MiB of eligible bytes; healthy memory never fails |
| MemoryScan.ScanAll | native/host/lua_host.cpp:352-402 | concatenating the pages reached through the next cursor gives the naive scan of the whole space, ascending and once each; on a healthy space with no more matches than the limit it completes if and only if 4096 pages of 32 MiB cover the eligible bytes below the maximum |
| ScanMeaning.LegalScanExactly | native/host/memory_reader.cpp:407-440 | which scans are made, in numbers: 4 or 8 to 4096 bytes under a mask of that length, 1 to 64 matches, a cursor inside the space |
| ScanMeaning.FullScanExactly | native/host/lua_host.cpp:352-402 | without the scanner's own tests: where no more places match than the limit, the scan completes exactly when fewer addresses than 4096 * 33554432 are to be read, and then lists once and in order every address whose region is readable and holds the whole pattern, every selected bit agreeing |
| Discovery.PairStrideMeans | native/host/frtk_discovery.cpp:59-75 | two matches imply a stride exactly when it lies between them once per row |
| Discovery.TripleMeans | native/host/frtk_discovery.cpp:677-718 | a triple of matches yields a base exactly when they are the three rows of that base in one allocation that holds the extent |
| Discovery.SearchLayouts | native/host/frtk_discovery.cpp:666-741 | the nested loops find exactly the bases some triple yields and whose extent exists, and report a bad extent exactly if some triple has one |
| Discovery.Reread | native/host/frtk_discovery.cpp:749-774 | a candidate is stable exactly when every row still fits |
| Discovery.StableIsLayout | native/host/frtk_discovery.cpp:666-775 | stable candidates are exactly the layouts |
| DiscoveredTables.LayoutExactly | native/host/frtk_discovery.cpp:637-775 | what a layout is, byte for byte: every fingerprint fits at base + row * recordSize, three of the rows are visible in one allocation that holds all records, and the records are an allocation themselves |
| DiscoveredTables.BadExtentExactly | native/host/frtk_discovery.cpp:677-718 | a triple's extent is no good exactly if its matches lie in one allocation as far apart as their rows and that allocation does not hold the records |
| Discovery.DiscoverTable | native/host/frtk_discovery.cpp:637-793 | with complete scans of steady memory: resolved exactly when there is one layout, and then to it; two make it ambiguous; with none it is unstable exactly if some yielded base no longer fits, else an invalid allocation exactly if some triple's extent is no good, else missing |
| ScanDiscovery.CompleteScanTells | native/host/lua_host.cpp:317-405 | a complete paged scan tells exactly where its fingerprint fits in the memory of the process |
| ScanMeaning.RowScannableExactly | native/host/lua_host.cpp:317-405 | which fingerprints the pages find all of: 4 to 4096 bytes under a mask of that length, at most 8 matches, fewer than 4096 * 33554432 addresses |
| ScanDiscovery.DiscoverByScanning | native/host/frtk_discovery.cpp:637-793 | scan and search together: on one steady process, with fingerprints the pages can find all of, the table is resolved exactly when it has one layout, and the rejection says why there is none, nothing being assumed of the scans; a fingerprint the pages cannot find all of leaves the table missing |
| DiscoveredTables.DiscoveredIsInPlace | native/host/frtk_discovery.cpp:637-793 | a table discovery resolves, once installed, has all its rows in place for revalidation on that memory if and only if its records are at most 262144 bytes long |
| ScanMeaning.ScannedIsInPlace | native/host/frtk_discovery.cpp:637-793 | so a table that scanning and the layout search resolve has, once installed, its rows in place on the memory it was found in, and its allocation there |
| IndexedArrays.DetectIndexedArray | native/host/frtk_discovery.cpp:337-370 | detects exactly the tables whose records are one reference per word into one table, and the only layout they have |
| IndexedArrays.EveryWordHasItsField | native/host/frtk_discovery.cpp:344-357 | distinct ordinals below the width leave no word of the record without exactly one field |
| IndexedArrays.TargetsAreDistinct | native/host/frtk_record_access.cpp:159-169 | every row and word of an indexed array stands for a target row of its own |
| RelationshipPhase.FollowsIsDecode | native/host/frtk_discovery.cpp:876-894 | the stored relationship word is the field as the codec decodes it from the row's record |
| RelationshipPhase.CheckRelationships | native/host/frtk_discovery.cpp:811-901 | a table's relationships pass exactly when each is well placed and its word names the target row |
| RelationshipPhase.FollowsExactly | native/host/frtk_discovery.cpp:811-901 | what a relationship needs, in numbers: a target table that was resolved, a 4-byte reference field to it inside the record, and the word of its row, or the element of an indexed array, naming the target row |
| RelationshipPhase.RelateTables | native/host/frtk_discovery.cpp:795-903 | the phase judges every table against the structural results alone, so a failing table does not fail those that point at it; no table that stays resolved points at one that was not |
| BoardSearch.OccurrencesExactly | native/host/board_mutation.cpp:154-192 | the reference list holds every occurrence whose bytes were all read once, ascending |
| BoardSearch.ReportMatches | native/host/board_mutation.cpp:174-187 | one window reports its occurrences, minus the first if it is the remembered one |
| BoardSearch.FindBytes | native/host/board_mutation.cpp:154-192 | for every pattern of failed reads, every occurrence in the bytes read exactly once in ascending order |
| BoardSearch.FindPatterns | native/host/board_mutation.cpp:194-241 | each needle's reports are its occurrences at least once, and exactly the reference list if and only if no chunk received two of them among its carried bytes |
| BoardSearch.ZerosReportedTwice | native/host/board_mutation.cpp:194-241 | a region and needles for which two occurrences are carried into a chunk: the reports of the short needle are not its list of occurrences |
| BoardSearch.CarriedCount | native/host/board_mutation.cpp:237-239 | two occurrences are carried into a chunk exactly when the carried bytes hold two |
| BoardSearch.LongestIsNeverCarried | native/host/board_mutation.cpp:194-241 | a longest needle is reported exactly once |
| BoardSearch.UnborderedIsNeverCarriedTwice | native/host/board_mutation.cpp:194-241 | so is an unbordered needle of at least half the longest length |
| PendingChanges.SortPending | native/host/frtk_lua_api.cpp:570-575 | sorting by table and row gives a sorted permutation; nothing depends on its stability |
| PendingChanges.TakeGroup | native/host/frtk_lua_api.cpp:583-593 | the inner loop takes the whole run of changes of one row |
| PendingChanges.NothingLost | native/host/frtk_lua_api.cpp:570-593 | with one generation, the groups hold every change once, and every row has one group |
| PendingChanges.NoWishLost | native/host/frtk_lua_api.cpp:570-593 | whatever the generations, the groups ask for exactly what the pending changes ask for |
| LuaDatabase.PoisonIsForever | native/host/frtk_lua_api.cpp:417-532 | a refused change or a nested begin poisons the transaction, whatever the script catches afterwards |
| LuaDatabase.EventsOnlyGrow | native/host/frtk_lua_api.cpp:417-532 | no script step removes what was logged |
| LuaDatabase.LuaTransactionIdIsValid | native/host/frtk_lua_api.cpp:567-568 | the transaction id made from any generation is legal for the engine and names that generation, so no two generations share one |
| LuaDatabase.LuaDatabaseApi.BeginTransaction | native/host/frtk_lua_api.cpp:534-544 | a nested begin fails and poisons; an outer one starts clean |
| LuaDatabase.LuaDatabaseApi.PrepareSetField | native/host/frtk_lua_api.cpp:417-486 | a change is appended exactly when the catalog and the schema admit it and its field is not pending yet, and then it is the change the call asks for; otherwise the transaction is failed |
| LuaDatabase.AdmittedExactly | native/host/frtk_lua_api.cpp:417-478 | a call is admitted with exactly the change it asks for: that handle, row and name, in a table with direct authority; an integer itself, or of a reference the row of the session table the unique id leads to |
| LuaDatabase.ScriptIsAsked | native/host/frtk_lua_api.cpp:417-532 | every change a script leaves pending is one a call of it asked for |
| LuaDatabase.PlannedAreDirect | native/host/frtk_record_access.cpp:212-214 | every row that was planned is of a table with direct authority |
| LuaDatabase.LuaDatabaseApi.SetFieldCall | native/host/frtk_lua_api.cpp:488-532 | every error a set call can raise inside a transaction poisons it |
| LuaDatabase.LuaDatabaseApi.RunScript | native/host/frtk_lua_api.cpp:630-649 | a callback does exactly what its steps amount to, errors unwinding to the nearest protected call |
| LuaDatabase.PlanGroups | native/host/frtk_lua_api.cpp:582-603 | each row is planned once, on one catalog, or the first refusal ends it, and then some row's plan has that cause, a failed read being the last call made |
| LuaDatabase.LuaDatabaseApi.ClosePending | native/host/frtk_lua_api.cpp:552-581 | the flag and the list are cleared whatever follows, and the early refusals come in their order |
| LuaDatabase.PlanAndSubmit | native/host/frtk_lua_api.cpp:577-618 | the engine runs once, on the request the planned, finalisable plans finalise into, or not at all and then nothing is written; every refusal has its cause; with nothing in the way the request is submitted if and only if the plans finalise, and applied if and only if they also hold and may write |
| LuaDatabase.AppliedOnPassing | native/host/frtk_lua_api.cpp:592-618 | plans that hold were made on a catalog that passes on that very memory |
| LuaDatabase.LuaDatabaseApi.FinishTransaction | native/host/frtk_lua_api.cpp:552-628 | the engine runs at most once, on the one final request, only on a clean transaction with changes whose rows were all planned and whose plans finalise, and always if in addition nothing is in the way; otherwise it does not run and nothing is written; each error has its cause |
| LuaDatabase.LuaDatabaseApi.Transaction | native/host/frtk_lua_api.cpp:630-649 | for every script: at most one engine run, of the one request its plans finalise into, only if the callback ended without an error, nothing was refused or nested and something is pending, and then always if nothing is in the way and the plans finalise; in every other case no engine run and no write; the planned rows are of tables with direct authority and carry exactly the changes the script's calls asked for; success means the plans are applied, on a catalog that passes |
| HostLocks.ThreadFollows | native/host/lua_host.cpp:1805-1995 | every path, with every early return, takes the locks in the order Lua, catalog, write, writes only behind the gate, an engine run's writes between its begin and its end, a typed run only after a catalog step and the finaliser under one hold of the catalog lock, and notes an engine status at once |
| HostLocks.StepKeepsInv | native/host/lua_host.cpp:1039-1059 | every step of every thread keeps the invariant: one holder per lock, no lockdown for who passed the gate, the finalised generation for who finalised, one engine run at a time |
| HostLocks.EveryRunIsSafe | native/host/lua_host.cpp:534-561 | over every schedule of every set of threads: every write happens under the write lock with lockdown clear, a typed one on the generation its revalidation left and it was finalised under, none follows an unverified rollback, and no write of another thread falls inside an engine run |
| HostLocks.NoDeadlock | native/host/lua_host.cpp:1817-1818 | in every reachable state with an unfinished thread some thread can go on |
| HostLocks.TypedAlone | native/host/lua_host.cpp:1805-1925 | whatever refuses, while the others hold no lock a typed transaction ends and holds nothing; behind a closed gate nothing happens, else the catalog step decides the generation, and unless something refuses there is one run on it, its status noted |
| HostLocks.RawAlone | native/host/lua_host.cpp:1926-1995 | a raw transaction runs exactly if the gate lets it |
| HostLocks.ScriptAlone | native/host/lua_host.cpp:1039-1059 | a step of a script does what it stands for: the byte is written if the gate lets it, the generation decided, the transaction run unless something refuses |
| HostLocks.ThreadAlone | native/host/lua_host.cpp:534-561 | a thread whose others hold no lock carries out all its commands and holds nothing at the end |
| HostLocks.AloneIsARun | native/host/lua_host.cpp:534-561 | such turns are one of the schedules the safety theorem is about |
| Utf8.IsValidUtf8 | native/host/frtk_field_schema.cpp:22-47 | accepts exactly the concatenations of well-formed sequences of section 4 of RFC 3629 |
| Utf8.CharLengthMeans | native/host/frtk_field_schema.cpp:23-44 | the tests find exactly the one character the bytes can begin with |
| Utf8.AcceptedTextIsUnique | native/host/frtk_field_schema.cpp:22-47 | accepted strings are exactly the encodings of scalar values, each of one list only |
| Utf8.DecodeThenEncode | native/host/frtk_field_schema.cpp:22-47 | an accepted string decodes to scalar values that encode back to it |
| Utf8.EncodeThenDecode | native/host/frtk_field_schema.cpp:22-47 | the encoding of scalar values is accepted and decodes to them |

## Left out

- Win32: page queries, process memory calls and file mappings are replaced by memory, region and allocation models.
- JSON parsing, pipe framing, command dispatch, the Lua C stack, SHA-256 and telemetry.
- Deadlines, cancellation and diagnostic counters of scans and discovery: they are assumed not to expire.
- MemoryScan.ScanPrivateMemory: match contexts, allocation metadata and the exclusion of the scanner's own buffers; those buffers are file mappings, which are never eligible regions.
- Discovery.DiscoverTable: the two searches that start from a live table descriptor (`DiscoverWordSwappedDescriptor`, `DiscoverIndexedDescriptor`) and the caching of equal scans; scans are arguments, which `ScanDiscovery` supplies.
- RelationshipPhase.RelateTables: only the verdicts are modelled, not the evidence codes attached to them.
- CatalogState.InstalledExactly: the profile id and the discovery evidence are not carried in descriptors.
- FieldTransaction.FinalizeFieldTransaction: the operations a refused request still holds are not modelled; the source leaves partly built ones behind an oversized component. Which refusal code comes first may depend on plan order; success and the request do not.
- GuardedCommit.CommitPlans: the host's gate before the engine is in HostLocks, not here.
- RecordAccess.PlanFieldWrites: handles, rows and schema values are unbounded numbers where the source has 16 and 32 bits; products that can wrap in the source are wrapped explicitly.
- FieldSchema.DecodeField: raw plus minimum is unbounded, while the source adds 64-bit integers.
- BoardSearch.FindBytes: needles are not empty and regions do not start at address 0, as at every call; per needle the order of callbacks is kept, not the interleaving between needles.
- LuaDatabase.LuaDatabaseApi.Transaction: userdata and value checks are flags of a call; planning and submission see one catalog session, while set calls may see a different catalog each.
- PendingChanges.NothingLost: for one generation; if it advances between two set calls on one row, the group carries the handle of whichever change the sort puts first.
- HostLocks.EveryRunIsSafe: board mutation and native calls are not modelled. They test the lockdown flag outside the write lock, and board mutation also sets it there (native/host/lua_host.cpp:1569), so a thread past the gate may find it set by a board command; that no write follows an unverified rollback does not depend on it. Catalog operations and plans are single steps, the reads of an engine run are not steps at all, and a run makes at least one write, even one the engine would reject.
- `ReadBoard`, table candidate selection and the native add and remove calls of the board code.
- The descriptor fields only shown in summaries, build policy and game build tables.
