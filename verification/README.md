# Verification of the Slura kernel and chain node

A Dafny model of the parts of the repository that carry hard properties, with
proofs about every input, every run or every interleaving.  `dafny verify
dfyconfig.toml` checks the whole project.

| file | models |
|---|---|
| `SharedRing.dfy` | the length-prefixed byte ring between kernel and applications, as byte-level steps with wrapping counters |
| `PoolAllocator.dfy` | the aligned allocator over the UEFI pool, with explicit memory and the back-pointer below each block |
| `EvmBytecode.dfy`, `SlurachainVm.dfy`, `Dispatcher.dfy`, `RuntimeExtraction.dfy` | the EVM's own notion of a jump destination, the bytecode scanners, what they find in an assembled dispatcher, and the extraction of runtime code |
| `OrderedStore.dfy`, `ParallelEngine.dfy` | the ordered key space with prefix scans and contract reloads, and the optimistic parallel engine that commits into it |
| `RelayStake.dfy`, `Mempool.dfy`, `NativeTransfers.dfy`, `Sequencer.dfy`, `LurosonieManager.dfy` | the Lurosonie consensus: powers and leader choice, the pool of pending transactions, balances, the block sequencer across crashes, and the object that ties them together |
| `CaAbi.dfy`, `CaBundle.dfy` | the scanner of crypto-asset ABIs, and transactions executed against a bundle |
| `AppRegistry.dfy` | the dock menu syntax and the registry of applications |
| `Ucs2.dfy` | UCS-2 strings, conversions to and from text |
| `SluMerkle.dfy` | printed and parsed account addresses, and the root of the extended state |
| `Wrappers.dfy`, `Words.dfy`, `Sums.dfy`, `Hex.dfy`, `Text.dfy` | optional values, machine words, sums over maps, hexadecimal and text fields |

A state-changing method is proved equal to a function of the old state, and the
laws are lemmas about those functions: invariants of whole runs, round trips,
or an independent reference definition.  Plain machine arithmetic wraps, as in
a release build.

Where a promised property is false of the code, the exact condition under which
it holds is proved, and where useful a concrete input on which it fails:

* The engine never fills a transaction's read set (`slurachain_vm.rs:937` makes it
  empty, `375-411` reads it), so as written every transaction is valid and the first
  round already loses updates (`NothingRecordedCommitsAll`, `AsWrittenLosesUpdates`).
  What is recorded is therefore a parameter of the model.  Validation rejects every
  stale reader if and only if the slots it reads are on record and none of them stands
  at version 1 (`StaleIsRejectedIff`).
* The commit always writes version 1 (`slurachain_vm.rs:445`).  Provided that all reads
  are recorded, which the code does not do, one pass from zero versions is serializable
  (`FirstPassIsSerializable`), and every batch started from given versions is if and
  only if no slot stands at version 1 (`RecordedRoundIsSerializableIff`; with only some
  slots recorded, `AllSerializableIff`).  Whatever is recorded, and so also as written, a
  batch is serializable when no transaction reads a slot that a lower id of the same
  contract writes (`IndependentIsSerializable`).
* Without a storage manager every commit fails, yet the pass reports success,
  because the answer of the commit is discarded (`UnconfiguredReportsSuccess`).
* The JUMPDEST fallback only returns valid destinations, but its 32-byte test is
  stricter than the EVM (`ClearWindowIsNotNecessary`).
* Auto-detection misses targets within 50 bytes of their PUSH4
  (`AutoDetectRecoversTable` is an if-and-only-if), and a zero selector makes the
  direct search answer offset 0 (`ScannersAgree`).
* Runtime extraction says it cuts the CBOR metadata, but it compares the ASCII
  digits of the CBOR header: code with binary metadata is returned whole if and only if
  that text does not occur by itself (`BinaryMetadataIsKept`).
* A slot or contract name with ':' can be mistaken for another contract's on reload
  (`OneCommitReloadsIffUnmistakable`), and a transaction shares its key with no other
  transfer if and only if its fields are free of ':' (`KeyIsUniqueIffColonFree`).
* Leader selection is stake-proportional over consecutive seeds exactly when the total
  power fits 64 bits (`SelectionIsStakeProportional`).
* The quorum gate compares the power with two thirds of itself, so it passes exactly
  when there is any power (`GatePassesIffAnyPower`).
* Submitting a transaction sets the sender's balance to zero, so it keeps the supply
  only for senders that held nothing (`SubmissionConservesIffSenderHeldNothing`).
* A submission is lost if and only if a production under way, which goes on to seal its
  block, has collected other content under its key (`LastSubmissionIsLostIff`,
  `ResubmissionIsLostIff`).  A transaction entered under its hash is normally never
  removed (`HashedStaysUnlessAKeyMatches`).
* A delegation raises a power by its amount if and only if there is room beside the
  stake and the delegations as they wrap (`DelegationRaisesOnlyItsValidator`).
* Block hashes do not cover the transactions (`TransactionsAreNotHashed`).
* A restart that cannot read the saved height is safe exactly when the height query
  makes up for it (`StartIsSafeIff`); otherwise heights already saved are attempted again
  (`UnreadableRestartRedoes`).
* The anchored heights stop increasing if and only if, since the last start, a
  production on request puts an anchor behind an anchored block (`ChainIsWellFormed`);
  a start above 7, the block for height 8 and a block on request are such a run
  (`ManualBlockBreaksHeights`).
* An ABI method called "name" is read under its own selector text, and one called
  "selector" is read twice (`PrintedBundleReads`, `RoundTripIff`).  Neither keeps a
  transaction from succeeding: only the name in the receipt is wrong, and exactly for
  the methods called "name", which ERC-20 tokens commonly have (`ExecutesTheTable`).
* `eq_str_until_nul` is documented as equality but is agreement on the shorter of the
  two (`EqUntilNulIsPrefixAgreement`).
* Digests of 32 bytes cannot tell all texts apart, so the root tells two states apart
  provided that none of the texts hashed for the two collide (`RootIsOfTheAccounts`); it
  does not tell a blank zk address or storage root from a text of the byte 0x80.
* Zero-knowledge addresses read back exactly when at least 32 bytes of the digest are
  printed (`AddressRoundTrip`).

## Model

| member | source | states |
|---|---|---|
| SharedRing.SharedRingBuffer.constructor | crates/vuc-core/lunee-ker/src/whesere_ipc.rs:51-57 | a new ring is empty and all zero, the start state of every run |
| SharedRing.SharedRingBuffer.Push | crates/vuc-core/lunee-ker/src/whesere_ipc.rs:59-85 | accepted exactly when prefix and payload fit beside the bytes in use; then the ring holds the frame from the old head on, modulo its size, and head advances by the frame in wrapping arithmetic; refused pushes change nothing |
| SharedRing.WrittenAt | crates/vuc-core/lunee-ker/src/whesere_ipc.rs:68-81 | byte i of a frame written from a head on lies in the cell head + i modulo 65536 |
| SharedRing.WrittenElsewhere | crates/vuc-core/lunee-ker/src/whesere_ipc.rs:68-81 | all other cells are as they were |
| SharedRing.FrameBytes | crates/vuc-core/lunee-ker/src/whesere_ipc.rs:68-81 | a frame is the length in two bytes, the low one first, and the payload |
| SharedRing.PushRefinesMachine | crates/vuc-core/lunee-ker/src/whesere_ipc.rs:59-85 | an accepted push is the run of byte steps (begin, one step a byte, publish) of the interleaving machine |
| SharedRing.FifoUnderEveryInterleaving | crates/vuc-core/lunee-ker/src/whesere_ipc.rs:59-85 | in every interleaving of byte steps and whole-frame consumption, through index and counter wrap, what was received is a prefix of what was sent and the region [tail, head) decodes to exactly the rest |
| SharedRing.AllSentCanBeReceived | crates/vuc-core/lunee-ker/src/whesere_ipc.rs:59-85 | from every reachable state, a push in progress included, the consumer can go on, one frame a step, until it has received all that was sent |
| SharedRing.WriterStaysOutOfRegion | crates/vuc-core/lunee-ker/src/whesere_ipc.rs:68-81 | a byte written by a push in progress lies in no cell of the unread region, which therefore reads the same |
| SharedRing.AdmissionIsExact | crates/vuc-core/lunee-ker/src/whesere_ipc.rs:60-68 | in every reachable state the room test with wrapping counters holds exactly when the unread frames and the new one fit the ring, and an admitted length is not truncated by its 16-bit prefix |
| SharedRing.DecodeInvertsFrames | crates/vuc-core/lunee-ker/src/whesere_ipc.rs:68-81 | concatenated frames decode to their payloads |
| SharedRing.StepConsume | crates/vuc-core/lunee-ker/src/whesere_ipc.rs:59-85 | a consumer that advances tail by the first frame receives the oldest unread payload and keeps the invariant |
| SharedRing.RunKeepsInv | crates/vuc-core/lunee-ker/src/whesere_ipc.rs:59-85 | every run keeps: counters are the frame totals modulo 2^64, the ring holds the unread frames, an open push has written a prefix of its frame behind them |
| PoolAllocator.Allocator.Alloc | patches/uefi-0.27.0/src/allocator.rs:75-121 | memory, pool and pointer are those of the allocation step: request size by alignment, null without a pool answer, the back-pointer stored below an over-aligned pointer |
| PoolAllocator.Allocator.StoreWord | patches/uefi-0.27.0/src/allocator.rs:107-112 | the eight bytes are stored and nothing else changes |
| PoolAllocator.Allocator.Dealloc | patches/uefi-0.27.0/src/allocator.rs:124-131 | exactly the block of the pointer leaves the pool, memory is untouched, the invariant stays |
| PoolAllocator.LivePointersAreSound | patches/uefi-0.27.0/src/allocator.rs:75-131 | after every run of allocations, frees, payload writes and firmware writes: each live pointer is aligned, it and its back-pointer lie inside one pool block, and no payload overlaps another's payload or back-pointer |
| PoolAllocator.DeallocFreesItsBlock | patches/uefi-0.27.0/src/allocator.rs:124-131 | after every run a live pointer may be freed, its back-pointer reads as the block the pool returned, exactly that block goes, and the pool holds no block without a live pointer |
| PoolAllocator.AllocGrantsWhatItReturns | patches/uefi-0.27.0/src/allocator.rs:75-121 | after every run an allocation may be made; without a block it answers null and changes nothing, else a new pointer, live with its layout and a block of size plus alignment above an alignment of 8 and of the size otherwise; of the memory only the eight bytes below an over-aligned pointer change |
| PoolAllocator.WriteStaysInItsPayload | patches/uefi-0.27.0/src/allocator.rs:75-131 | after every run each byte of a live payload may be written and reads back, and no other byte of a live payload or of a back-pointer changes |
| PoolAllocator.PointerFits | patches/uefi-0.27.0/src/allocator.rs:84-112 | from the 8-byte alignment of AllocatePool (section 7.2 of the UEFI Specification), for every power-of-two alignment the chosen pointer is aligned, leaves eight bytes below and fits the request |
| PoolAllocator.RequestFitsWord | patches/uefi-0.27.0/src/allocator.rs:84-90 | the padded request of a valid layout does not overflow a word |
| PoolAllocator.RequestIsTight | patches/uefi-0.27.0/src/allocator.rs:84-90 | no byte of the request is to spare: for some block the payload ends where it ends |
| PoolAllocator.BackPointerLeadsHome | patches/uefi-0.27.0/src/allocator.rs:124-131 | under the invariant the word below an over-aligned pointer is its block, and other pointers are their blocks |
| PoolAllocator.AllocKeepsInv | patches/uefi-0.27.0/src/allocator.rs:75-121 | allocation keeps the heap invariant, whatever the pool answers within its contract |
| PoolAllocator.DeallocKeepsInv | patches/uefi-0.27.0/src/allocator.rs:124-131 | freeing keeps the heap invariant |
| PoolAllocator.WriteKeepsInv | patches/uefi-0.27.0/src/allocator.rs:75-131 | a write inside a live payload destroys no back-pointer |
| PoolAllocator.FirmwareKeepsInv | patches/uefi-0.27.0/src/allocator.rs:75-131 | changes of memory outside the pool's blocks destroy no back-pointer |
| PoolAllocator.RunKeepsInv | patches/uefi-0.27.0/src/allocator.rs:75-131 | every run keeps the heap invariant |
| PoolAllocator.FitsIffRoomBelow | patches/uefi-0.27.0/src/allocator.rs:92-112 | for a block of any alignment, the aligned pointer and its back-pointer fit the block if and only if it does not start in the last seven bytes before a multiple of the alignment |
| EvmBytecode.ClearWindowIsSwept | crates/vuc-tx/src/slurachain_vm.rs:1677-1695 | a byte that no PUSH of the 32 bytes before it covers is reached by the forward sweep from every earlier instruction (section 9.4.3 of the Ethereum Yellow Paper) |
| EvmBytecode.ClearWindowIsNotNecessary | crates/vuc-tx/src/slurachain_vm.rs:1677-1695 | a valid destination that the look-back test rejects |
| SlurachainVm.CheckBack | crates/vuc-tx/src/slurachain_vm.rs:1677-1695 | the backward loop decides whether some PUSH of the last 32 bytes covers the position |
| SlurachainVm.ScanEqPattern | crates/vuc-tx/src/slurachain_vm.rs:1586-1608 | finds the first PUSH2 JUMPI behind an EQ near the selector with a target inside the code |
| SlurachainVm.ScanOperators | crates/vuc-tx/src/slurachain_vm.rs:1625-1668 | returns the branch of the first comparison with the pivot that the selector passes and that has one, and nothing exactly without one |
| SlurachainVm.OperatorPatternIsFirst | crates/vuc-tx/src/slurachain_vm.rs:1625-1668 | from any comparison on, the first that the selector passes and that has a PUSH2 JUMPI within nine bytes decides, by the first such branch |
| SlurachainVm.ScanHierarchy | crates/vuc-tx/src/slurachain_vm.rs:1610-1671 | returns the branch of the nearest pivot within 29 bytes before the selector that has one the selector takes, and nothing exactly without such a pivot |
| SlurachainVm.HierarchyPatternIsFirst | crates/vuc-tx/src/slurachain_vm.rs:1610-1671 | the same of the specification, from any distance on |
| SlurachainVm.ScanJumpdest | crates/vuc-tx/src/slurachain_vm.rs:1673-1706 | finds the first JUMPDEST between 10 and 100 bytes behind the selector whose window is clear |
| SlurachainVm.FindFunctionOffset | crates/vuc-tx/src/slurachain_vm.rs:1536-1715 | the strategies in order at each occurrence of the selector; zero selector gives offset 0 |
| SlurachainVm.DirectSearchIsExact | crates/vuc-tx/src/slurachain_vm.rs:1536-1715 | for all code and all selectors: nothing for code shorter than ten bytes, offset 0 for the zero selector; otherwise nothing if and only if no occurrence has an EQ branch, a pivot the selector takes or a clear JUMPDEST, else the first occurrence that has one decides, in that order of preference |
| SlurachainVm.DirectSearchIsSound | crates/vuc-tx/src/slurachain_vm.rs:1536-1715 | an offset answered is 0 for the zero selector, or lies in the code and is the target of an EQ branch or of a pivot comparison the selector passes, or a valid jump destination within 100 bytes of an occurrence |
| SlurachainVm.EqPatternIsFirst | crates/vuc-tx/src/slurachain_vm.rs:1586-1608 | the first EQ PUSH2 JUMPI with a target in the code, and nothing exactly without one |
| SlurachainVm.JumpdestFallbackIsFirst | crates/vuc-tx/src/slurachain_vm.rs:1673-1706 | the first clear JUMPDEST, and nothing exactly without one |
| SlurachainVm.FallbackIsValidJumpDest | crates/vuc-tx/src/slurachain_vm.rs:1673-1705 | for all bytecode, an offset found by the fallback is a valid jump destination under the EVM's forward sweep, within 100 bytes of the selector |
| SlurachainVm.Vm.ScanDispatcher | crates/vuc-tx/src/slurachain_vm.rs:1258-1298 | records, at every PUSH4, the function whose branch target is plausible |
| SlurachainVm.DetectionIsExact | crates/vuc-tx/src/slurachain_vm.rs:1258-1298 | for all code the table holds exactly the selectors that some PUSH4 pushes with a plausible jump within 15 bytes, not payable and with the target recorded at the last such PUSH4 |
| SlurachainVm.BranchTargetIsFirst | crates/vuc-tx/src/slurachain_vm.rs:1268-1290 | that target is the one of the first plausible jump |
| SlurachainVm.Vm.HeuristicFunctionDetection | crates/vuc-tx/src/slurachain_vm.rs:1412-1444 | records at every PUSH4 of a selector between 0x100 and 0xffffffff an estimated offset |
| SlurachainVm.HeuristicIsExact | crates/vuc-tx/src/slurachain_vm.rs:1412-1444 | for all code the table holds exactly those selectors, each not payable and with the offset 50 bytes behind its last PUSH4 or the last byte |
| SlurachainVm.Vm.LoadBytecode | crates/vuc-tx/src/slurachain_vm.rs:1215-1247 | the module at the address carries the code; other modules stay |
| SlurachainVm.LoadedModule | crates/vuc-tx/src/slurachain_vm.rs:1215-1247 | a module that is missing or has no code gets the code, any other keeps its own; function tables stay |
| SlurachainVm.Vm.SaveDetectedFunctions | crates/vuc-tx/src/slurachain_vm.rs:1447-1471 | the functions found are added to the module, later ones winning; other modules stay |
| SlurachainVm.Vm.AutoDetectContractFunctions | crates/vuc-tx/src/slurachain_vm.rs:1204-1336 | loads, scans, falls back to the heuristic when nothing was found, and saves |
| SlurachainVm.DetectionFallsBack | crates/vuc-tx/src/slurachain_vm.rs:1204-1336 | for all code: what the scan detects if it detects anything, else what is guessed if anything is, else one payable function "fallback" at offset 100 |
| SlurachainVm.NameIsSelector | crates/vuc-tx/src/slurachain_vm.rs:1258-1298 | the name recorded is "function_" and eight lower-case digits that write the selector |
| Dispatcher.DirectSearchFindsFirst | crates/vuc-tx/src/slurachain_vm.rs:1578-1607 | on an assembled dispatcher with any body the direct search returns the target of the first entry with the selector, if that target lies in the code, and 0 for the zero selector |
| Dispatcher.DirectSearchDecidesTable | crates/vuc-tx/src/slurachain_vm.rs:1536-1715 | with a body free of the selector, it answers the first entry's target, if that lies in the code, and nothing for selectors that no entry has |
| Dispatcher.DirectSearchTakesSplit | crates/vuc-tx/src/slurachain_vm.rs:1610-1671 | on DUP1 PUSH4 pivot, any operator, PUSH2 target JUMPI, followed by the selector without a branch of its own: the target if and only if it lies in the code and the selector is above the pivot behind 0x11, below it behind 0x10 or equal to it behind 0x14; else nothing |
| Dispatcher.AutoDetectRecoversTable | crates/vuc-tx/src/slurachain_vm.rs:1258-1298 | for distinct selectors the detected map is exactly the table, name by name, if and only if every target lies past the 50-byte margin and inside the code |
| Dispatcher.ScannersAgree | crates/vuc-tx/src/slurachain_vm.rs:1258-1298 | where the table is recovered, the saved offsets and the direct search agree on every entry if and only if no selector is zero |
| SlurachainVm.NamesDiffer | crates/vuc-tx/src/slurachain_vm.rs:1258-1298 | different selectors are recorded under different names |
| Dispatcher.DetectEntries | crates/vuc-tx/src/slurachain_vm.rs:1258-1298 | the byte-by-byte scan of the whole code is the walk over the table's entries, nothing being found in the immediates or the body |
| Dispatcher.BranchOfEntry | crates/vuc-tx/src/slurachain_vm.rs:1268-1290 | the branch target read behind an entry is that entry's exactly when it passes the margin and lies in the code |
| Dispatcher.NoStraySelector | crates/vuc-tx/src/slurachain_vm.rs:1578-1584 | a selector free of the dispatcher's opcode bytes occurs in an entry only at its own PUSH4 |
| RuntimeExtraction.ExtractRuntime | crates/vuc-platform/src/engine_platform.rs:4128-4183 | the backward search, the cut and the final check, all accesses in bounds |
| RuntimeExtraction.ExtractionFindsLastRuntime | crates/vuc-platform/src/engine_platform.rs:4128-4183 | for all code: no code and code that starts with 60806040523480 come back as they are; else an error exactly when no RETURN matches, else the code after the last RETURN that matches, cut before its last metadata marker; the final prefix check never fails |
| RuntimeExtraction.ExtractInvertsCreation | crates/vuc-platform/src/engine_platform.rs:4128-4183 | creation code laid out from any prologue and a runtime without a pattern of its own: the runtime without metadata; an error without any prologue, and the whole of it if it starts like runtime code |
| RuntimeExtraction.CutKeepsPrefix | crates/vuc-platform/src/engine_platform.rs:4165-4182 | cutting never reaches into the runtime prefix |
| RuntimeExtraction.LastDeployIsLast | crates/vuc-platform/src/engine_platform.rs:4137-4163 | the position found is the last that matches; none is found only when none matches |
| RuntimeExtraction.LastMarkerIsLast | crates/vuc-platform/src/engine_platform.rs:4165-4175 | the marker found is the last one; none is found only when there is none |
| RuntimeExtraction.MarkerIsText | crates/vuc-platform/src/engine_platform.rs:4165-4175 | the marker is the text a2646970667358221220 |
| RuntimeExtraction.CutIsIdentityIff | crates/vuc-platform/src/engine_platform.rs:4165-4175 | code is left alone if and only if the marker text does not occur in it |
| RuntimeExtraction.BinaryMetadataIsKept | crates/vuc-platform/src/engine_platform.rs:4165-4175 | code with the binary CBOR header and anything behind it is not cut, if and only if the marker text occurs neither in the code nor behind the header |
| RuntimeExtraction.ExtractionKeepsBinaryMetadata | crates/vuc-platform/src/engine_platform.rs:4128-4183 | so extraction from creation code returns the runtime with its binary metadata, exactly then |
| OrderedStore.RocksDb.Read | crates/vuc-storage/src/storing_access.rs:58-64 | the value last written under the key, or not found |
| OrderedStore.RocksDb.Write | crates/vuc-storage/src/storing_access.rs:66-70 | the key space stays sorted and its contents change at the key only |
| OrderedStore.RocksDb.ScanPrefix | crates/vuc-storage/src/storing_access.rs:72-89 | the loop that stops at the first key without the prefix returns all entries that have it, in order |
| OrderedStore.ReloadContract | crates/vuc-tx/src/slurachain_vm.rs:244-267 | the slots loaded from the scan of the contract's prefix |
| OrderedStore.PutIsUpdate | crates/vuc-storage/src/storing_access.rs:66-70 | insertion at the sorted place is a map update |
| OrderedStore.GetIsLookup | crates/vuc-storage/src/storing_access.rs:58-64 | the search is a map look-up |
| OrderedStore.PrefixesAreContiguous | crates/vuc-storage/src/storing_access.rs:72-89 | in byte-lexicographic order, once a key past the prefix lacks it every later key lacks it |
| OrderedStore.LessByFirstDifference | crates/vuc-storage/src/storing_access.rs:72-89 | a key comes before another exactly if at the first difference it has the smaller character or ends |
| OrderedStore.ScanIsExact | crates/vuc-storage/src/storing_access.rs:72-89 | the scan result is the whole store restricted to keys with the prefix |
| OrderedStore.CommitLeaves | crates/vuc-tx/src/slurachain_vm.rs:437-452 | a commit leaves the value under storage:contract:slot and version 1 in eight bytes under version:contract |
| OrderedStore.ReloadIsLatest | crates/vuc-tx/src/slurachain_vm.rs:244-267 | after any sequence of commits a reload gives exactly the contract's latest slots, when no commit's key can be mistaken for this contract's |
| OrderedStore.ColonFreeIsUnmistakable | crates/vuc-tx/src/slurachain_vm.rs:437-451 | addresses and slots without ':' cannot be mistaken |
| OrderedStore.OneCommitReloadsIffUnmistakable | crates/vuc-tx/src/slurachain_vm.rs:244-267 | for one commit of any names, the reload is right if and only if the key cannot be mistaken |
| ParallelEngine.OptimisticParallelEngine.constructor | crates/vuc-tx/src/slurachain_vm.rs:77-90 | no versions and no active transactions |
| ParallelEngine.OptimisticParallelEngine.SubmitTransaction | crates/vuc-tx/src/slurachain_vm.rs:508-514 | the transaction is active under its id |
| ParallelEngine.OptimisticParallelEngine.ValidateTransactionConflicts | crates/vuc-tx/src/slurachain_vm.rs:375-411 | holds exactly when every version read is the current one, absent counting as 0 |
| ParallelEngine.OptimisticParallelEngine.CommitTransactionChanges | crates/vuc-tx/src/slurachain_vm.rs:414-459 | the write set is persisted over the contract's slots and each written slot has version 1; without a storage manager nothing changes and a non-empty commit fails |
| ParallelEngine.OptimisticParallelEngine.ValidateAndCommitBatch | crates/vuc-tx/src/slurachain_vm.rs:327-372 | store, versions and verdicts are those of the pass in ascending id order |
| ParallelEngine.WriteSlots | crates/vuc-tx/src/slurachain_vm.rs:437-446 | the loop over the write set, in any order, overlays the slots and sets their versions |
| ParallelEngine.SortIds | crates/vuc-tx/src/slurachain_vm.rs:333-340 | the active ids, ascending |
| ParallelEngine.ExecutionIsLocal | crates/vuc-tx/src/slurachain_vm.rs:224-319 | a deterministic execution whose read slots agree in two stores reads and writes the same in both |
| ParallelEngine.StarvedWritesNothing | crates/vuc-tx/src/slurachain_vm.rs:224-319 | an execution that is still reading when its gas is used up writes nothing |
| ParallelEngine.PassFollowsVerdicts | crates/vuc-tx/src/slurachain_vm.rs:327-372 | whatever was recorded, the pass is determined by its verdicts, and each verdict is validity against the versions of its moment |
| ParallelEngine.ValidationIsExact | crates/vuc-tx/src/slurachain_vm.rs:375-411 | for every recorded read set: valid if and only if each recorded version is 1 where an earlier commit of the pass wrote the slot, and the starting version elsewhere |
| ParallelEngine.NothingRecordedCommitsAll | crates/vuc-tx/src/slurachain_vm.rs:932-941 | as written, with read sets that stay empty, every transaction of every pass commits |
| ParallelEngine.AsWrittenLosesUpdates | crates/vuc-tx/src/slurachain_vm.rs:327-459 | as written, from any versions, zero ones included, two increments of any slot both commit and one is lost |
| ParallelEngine.AsWrittenIsNotSerializable | crates/vuc-tx/src/slurachain_vm.rs:327-459 | so there are no versions from which every batch is serializable |
| ParallelEngine.StaleIsRejectedIff | crates/vuc-tx/src/slurachain_vm.rs:375-411 | for a request, store, versions and set of recorded slots: in every batch the request is rejected when it read a slot written before, if and only if the slots it reads are recorded and none stands at version 1 |
| ParallelEngine.PassIsSerial | crates/vuc-tx/src/slurachain_vm.rs:327-459 | if no committed transaction read a stale slot, the store is that of the committed ones run serially |
| ParallelEngine.CommittedPassIsSerializable | crates/vuc-tx/src/slurachain_vm.rs:327-459 | if every slot read is on record and not with version 1, the pass ends in the store of its committed transactions run serially, and none of them read anything stale |
| ParallelEngine.AllSerializableIff | crates/vuc-tx/src/slurachain_vm.rs:327-459 | every batch started from given versions, with the tracked slots recorded, is serializable if and only if every slot is tracked and none stands at version 1 |
| ParallelEngine.RecordedRoundIsSerializableIff | crates/vuc-tx/src/slurachain_vm.rs:437-446 | with all reads recorded: if and only if no slot stands at version 1 |
| ParallelEngine.UpdatesAreLost | crates/vuc-tx/src/slurachain_vm.rs:327-459 | on every slot that is not tracked or stands at version 1, two increments both commit and one is lost |
| ParallelEngine.FirstPassIsSerializable | crates/vuc-tx/src/slurachain_vm.rs:327-459 | from all-zero versions, if the records cover the reads, the store after the pass equals running only the committed transactions serially in ascending id order; a transaction commits exactly when no slot on its record was written before, that is, when it read nothing stale if only its reads are on record |
| ParallelEngine.CommittedSlotsNeverConflict | crates/vuc-tx/src/slurachain_vm.rs:437-446 | a transaction whose records are all of slots at version 1 is always valid |
| ParallelEngine.IndependentIsSerializable | crates/vuc-tx/src/slurachain_vm.rs:327-459 | whatever is recorded, a batch in which no transaction reads a slot that a lower id of the same contract writes is serializable; as written, with nothing recorded, all of it commits |
| ParallelEngine.SecondRoundLosesUpdates | crates/vuc-tx/src/slurachain_vm.rs:437-446 | with all reads recorded, from any versions with a slot at 1, two increments of that slot both commit and one is lost |
| ParallelEngine.UnconfiguredReportsSuccess | crates/vuc-tx/src/slurachain_vm.rs:327-372 | without a storage manager the store never changes and every verdict is success for records of the starting versions, as for none |
| ParallelEngine.StoreIsReloaded | crates/vuc-tx/src/slurachain_vm.rs:244-267 | the engine's store is what reloading the ordered key space gives after the same commits |
| RelayStake.GetDelegatedStake | crates/vuc-platform/src/consensus/lurosonie_manager.rs:796-803 | the sum of all delegations to the validator, wrapping |
| RelayStake.SaturatingTotal | crates/vuc-platform/src/consensus/lurosonie_manager.rs:735-747 | in any order of iteration, the sum capped at the largest word |
| RelayStake.WrappingTotal | crates/vuc-platform/src/consensus/lurosonie_manager.rs:759-770 | in any order of iteration, the sum modulo 2^64 |
| RelayStake.PowerIsStakePlusDelegations | crates/vuc-platform/src/consensus/lurosonie_manager.rs:717-733 | without overflow the recomputed power is the stake and all delegations, the delegations are on record and the stake is as before |
| RelayStake.DelegationRaisesPower | crates/vuc-platform/src/consensus/lurosonie_manager.rs:923-984 | for every stake and every delegation before, wrapped or not: one more raises its validator's power by the amount if and only if the amount fits beside stake and wrapped delegations, or is zero |
| RelayStake.DelegationRaisesOnlyItsValidator | crates/vuc-platform/src/consensus/lurosonie_manager.rs:923-984 | the same after recomputation of all, every other validator being as before |
| RelayStake.DelegationRaisesTotal | crates/vuc-platform/src/consensus/lurosonie_manager.rs:717-733 | and the total power rises by the amount exactly then |
| RelayStake.GatePassesIffAnyPower | crates/vuc-platform/src/consensus/lurosonie_manager.rs:412-427 | the quorum gate passes if and only if the total power is positive, overflowing totals included |
| RelayStake.ThresholdIsTwoThirds | crates/vuc-platform/src/consensus/lurosonie_manager.rs:749-757 | three thresholds are twice the (wrapped) total, up to rounding down and to one overflow of the doubling; 1 for no power |
| RelayStake.SelectLeader | crates/vuc-platform/src/consensus/lurosonie_manager.rs:759-794 | the loop over the cumulative power returns the leader of the target |
| RelayStake.LeaderIsInStretch | crates/vuc-platform/src/consensus/lurosonie_manager.rs:759-794 | for every non-zero wrapped total: a validator is elected if and only if the seed modulo that total lies between the power before it and the power up to and with it |
| RelayStake.LeaderRepeats | crates/vuc-platform/src/consensus/lurosonie_manager.rs:779-790 | seeds that lie the (wrapped) total apart elect the same leader |
| RelayStake.SelectionIsStakeProportional | crates/vuc-platform/src/consensus/lurosonie_manager.rs:759-794 | for distinct validators in any order and any window of as many consecutive seeds as the (wrapped) total: each is elected by as many of them as it has power, if and only if the total fits 64 bits |
| RelayStake.FallbackIsUnreachable | crates/vuc-platform/src/consensus/lurosonie_manager.rs:781-794 | with a non-zero (wrapped) total the loop always finds a leader |
| RelayStake.ZeroPowerLeadsIff | crates/vuc-platform/src/consensus/lurosonie_manager.rs:759-794 | a validator without power is chosen if and only if the (wrapped) total is zero and it is the system validator |
| Mempool.KeyIsInjective | crates/vuc-platform/src/consensus/lurosonie_manager.rs:1193-1201 | for ':'-free fields the key determines sender, receiver, value and nonce |
| Mempool.KeySplits | crates/vuc-platform/src/consensus/lurosonie_manager.rs:1193-1201 | the key of ':'-free fields splits into sender, receiver, value and the decimal digits of the nonce, in this order |
| Mempool.KeyIsUniqueIffColonFree | crates/vuc-platform/src/consensus/lurosonie_manager.rs:1193-1201 | a transaction shares its key with no other transfer if and only if none of its fields has a ':' |
| Mempool.ColonCollides | crates/vuc-platform/src/consensus/lurosonie_manager.rs:1193-1201 | for every transaction with a ':' in a field, a different one with the same key |
| Mempool.ExactlyOneBlock | crates/vuc-platform/src/consensus/lurosonie_manager.rs:396-404 | in every run in which submissions come anywhere between the steps of one production after the other, a transaction whose own key is submitted once is at each later moment either waiting unchanged or in exactly one block, unchanged; other keys are submitted at will, under hashes too |
| Mempool.RunKeepsAccounted | crates/vuc-platform/src/consensus/lurosonie_manager.rs:396-472 | every step of such a run keeps the account of that transaction: pool, collected batch and blocks hold it unchanged and at one place |
| Mempool.LastSubmissionIsLostIff | crates/vuc-platform/src/consensus/lurosonie_manager.rs:396-472 | in every run, whatever was submitted before: the last entry under a key ends neither waiting nor in a block, if and only if the production under way at its submission goes on to seal its block and drains the key without having collected this transaction |
| Mempool.LastSubmissionIsBlockedOnce | crates/vuc-platform/src/consensus/lurosonie_manager.rs:396-472 | in the same runs, an entry that is not lost is at each moment either waiting or in exactly one of those blocks |
| Mempool.ResubmissionIsLostIff | crates/vuc-platform/src/consensus/lurosonie_manager.rs:471-472 | for keys without hashed entries: if and only if that production had collected the key with other content |
| Mempool.SubmissionsAreAlwaysTaken | crates/vuc-platform/src/consensus/lurosonie_manager.rs:486-493 | whatever production is under way, a submission of either kind is taken at once and changes neither the production nor the blocks |
| Mempool.ProduceIsARun | crates/vuc-platform/src/consensus/lurosonie_manager.rs:396-472 | production without interruption is a run of that machine, refused or not |
| Mempool.ProduceEmptiesKeyedPool | crates/vuc-platform/src/consensus/lurosonie_manager.rs:396-472 | a successful production empties a pool filled by the keyed entry point, a failed one leaves it |
| Mempool.HashedStaysUnlessAKeyMatches | crates/vuc-platform/src/consensus/lurosonie_manager.rs:486-493 | a transaction entered under its hash stays after production, unless some key happens to equal the hash |
| NativeTransfers.TransferConservesIffNoWrap | crates/vuc-platform/src/consensus/lurosonie_manager.rs:1263-1283 | refused transfers change nothing, acceptance is exactly a sufficient balance, and the supply is conserved if and only if the receiving sum fits a word (else it drops by 2^64); self-transfers and missing accounts included |
| NativeTransfers.TransferMovesAmount | crates/vuc-platform/src/consensus/lurosonie_manager.rs:1263-1283 | every account changes by what it sent and received and no other |
| NativeTransfers.PaymentsConserveSupply | crates/vuc-platform/src/consensus/lurosonie_manager.rs:1263-1283 | any sequence of transfers conserves a supply that fits 64 bits |
| NativeTransfers.NoCreditWraps | crates/vuc-platform/src/consensus/lurosonie_manager.rs:1263-1283 | and no addition in it overflows |
| NativeTransfers.SubmissionConservesIffSenderHeldNothing | crates/vuc-platform/src/consensus/lurosonie_manager.rs:1193-1217 | submitting keeps the supply if and only if the sender's balance was zero |
| NativeTransfers.ResetBalanceOnly | crates/vuc-platform/src/consensus/lurosonie_manager.rs:1193-1217 | submitting leaves the sender nothing and everybody else what it held |
| Sequencer.ChainIsWellFormed | crates/vuc-platform/src/consensus/lurosonie_manager.rs:833-864 | in every run with crashes, restarts and manual blocks: numbers are consecutive, each parent hash is the hash of the block before, that of the first block is the hash the last start found, and present anchors increase strictly if and only if no accepted manual production with an anchor follows an accepted anchored one since the last start; in terms of the chain, no anchored block behind an anchored one has height 0 |
| Sequencer.ManualBlockBreaksHeights | crates/vuc-platform/src/consensus/lurosonie_manager.rs:1339-1355 | a run in which the heights do not increase: one sequenced block and a manual one behind it |
| Sequencer.SequencedHeightsIncrease | crates/vuc-platform/src/consensus/lurosonie_manager.rs:251-292 | without manual blocks the present anchors increase strictly |
| Sequencer.LastHashDeterminesChain | crates/vuc-platform/src/consensus/lurosonie_manager.rs:833-864 | under an injective hash two chains with the same last hash start from the same hash and have, block by block, the same number, time, log, producer, number of transactions, relay power, anchor and parent, if neither starts from the hash of a block of the other |
| Sequencer.BlockHashAsBaseIsAmbiguous | crates/vuc-platform/src/consensus/lurosonie_manager.rs:833-864 | a start from the hash of a block has the same last hash as that block |
| Sequencer.GenesisIsNoBlockHash | crates/vuc-platform/src/consensus/lurosonie_manager.rs:1159-1168 | the condition is met: block hashes carry "0x", the genesis hash is bare hexadecimal |
| Sequencer.TransactionsAreNotHashed | crates/vuc-platform/src/consensus/lurosonie_manager.rs:833-864 | exchanging the transactions of a block leaves every link intact |
| Sequencer.LogReads | crates/vuc-platform/src/consensus/lurosonie_manager.rs:432-437 | the log of a block starts with its number and producer and ends with the Bitcoin height, in decimal digits that read back |
| Sequencer.NoHeightIsRedone | crates/vuc-platform/src/consensus/lurosonie_manager.rs:216-292 | across crashes and restarts with readable storage, no height at or below the saved one is attempted, none at or below a height saved later is attempted again, and a height comes twice only if its first attempt was not saved and a crash came between |
| Sequencer.AttemptsAscend | crates/vuc-platform/src/consensus/lurosonie_manager.rs:251-292 | in every run the attempts of one start are of consecutive heights, saved or refused |
| Sequencer.StartGoesOn | crates/vuc-platform/src/consensus/lurosonie_manager.rs:216-292 | every start, over the whole run until the next: one that reads 0 and is answered the height c attempts c + 1, c + 2 and so on and persists c if it can; any other attempts the height after the one read, and so on; the persisted height is the last one saved |
| Sequencer.FirstStartSkipsOldBlocks | crates/vuc-platform/src/consensus/lurosonie_manager.rs:216-228 | after a first start answered c and persisted, no height up to c is attempted, over any crashes and readable restarts |
| Sequencer.AttemptsAreAnswered | crates/vuc-platform/src/consensus/lurosonie_manager.rs:240-256 | no height is attempted above the highest answer of a poll |
| Sequencer.DueAfterPoll | crates/vuc-platform/src/consensus/lurosonie_manager.rs:240-256 | right after a poll a height is due exactly when the answer has reached it |
| Sequencer.UnreadableRestartRedoes | crates/vuc-platform/src/consensus/lurosonie_manager.rs:216-292 | from any process with a saved height: a crash, a start that cannot read it and gets no answer, and height 1 is attempted again |
| Sequencer.ManualRunsAnyTime | crates/vuc-platform/src/consensus/lurosonie_manager.rs:1339-1355 | a block requested by an entitled validator is possible at any time, is numbered next, and moves neither the persisted height nor those to come |
| Sequencer.StartIsSafeIff | crates/vuc-platform/src/consensus/lurosonie_manager.rs:216-228 | a start never goes behind the saved height if and only if the storage is readable, nothing was saved, or the height query makes up for it |
| Sequencer.StepKeepsChain | crates/vuc-platform/src/consensus/lurosonie_manager.rs:444-472 | every step keeps the chain invariant |
| Sequencer.StepKeepsHeights | crates/vuc-platform/src/consensus/lurosonie_manager.rs:1489-1524 | every step with readable storage keeps the height invariant |
| LurosonieManager.LurosonieManager.constructor | crates/vuc-platform/src/consensus/lurosonie_manager.rs:111-165 | everything empty except what is persisted |
| LurosonieManager.LurosonieManager.DelegateStake | crates/vuc-platform/src/consensus/lurosonie_manager.rs:923-984 | accepted exactly for a known validator and a sufficient balance, then one delegation is appended |
| LurosonieManager.LurosonieManager.CalculateRelayPowers | crates/vuc-platform/src/consensus/lurosonie_manager.rs:717-733 | all powers are recomputed from stakes and delegations; answers the saturated total |
| LurosonieManager.LurosonieManager.CalculateStakePower | crates/vuc-platform/src/consensus/lurosonie_manager.rs:735-747 | the saturated total of the powers |
| LurosonieManager.LurosonieManager.GetConsensusThreshold | crates/vuc-platform/src/consensus/lurosonie_manager.rs:749-757 | two thirds of the wrapped total |
| LurosonieManager.LurosonieManager.AddPendingTransaction | crates/vuc-platform/src/consensus/lurosonie_manager.rs:1193-1201 | the transaction waits under its from:to:value:nonce key and the sender's balance becomes zero |
| LurosonieManager.LurosonieManager.AddTransactionToMempool | crates/vuc-platform/src/consensus/lurosonie_manager.rs:486-493 | the transaction waits under its hash |
| LurosonieManager.LurosonieManager.RemoveProcessedTransactions | crates/vuc-platform/src/consensus/lurosonie_manager.rs:1203-1208 | exactly the listed keys leave the pool |
| LurosonieManager.LurosonieManager.ExecuteNativeTransfer | crates/vuc-platform/src/consensus/lurosonie_manager.rs:1263-1283 | the balances and the answer are those of a transfer |
| LurosonieManager.LurosonieManager.CollectPending | crates/vuc-platform/src/consensus/lurosonie_manager.rs:396-404 | every waiting transaction once, in some order, and the keys computed from them |
| LurosonieManager.LurosonieManager.AddBlockToChain | crates/vuc-platform/src/consensus/lurosonie_manager.rs:1159-1173 | the genesis block sets the last hash and joins no chain |
| LurosonieManager.LurosonieManager.AddLurosonieBlockToChain | crates/vuc-platform/src/consensus/lurosonie_manager.rs:833-864 | the block is appended and its hash becomes the last hash |
| LurosonieManager.LurosonieManager.GetBlockHeight | crates/vuc-platform/src/consensus/lurosonie_manager.rs:1185-1191 | the number of the last block, 0 without one |
| LurosonieManager.LurosonieManager.ProduceBlock | crates/vuc-platform/src/consensus/lurosonie_manager.rs:382-483 | succeeds exactly with positive power; then one block with the given number, the log of its Bitcoin height, the old last hash as parent and every waiting transaction is appended and the pool is drained; refusal leaves pool and chain |
| LurosonieManager.LurosonieManager.StartHeight | crates/vuc-platform/src/consensus/lurosonie_manager.rs:216-228 | a start is the boot step of the sequencer machine, from whatever last hash the genesis block has left |
| LurosonieManager.LurosonieManager.AttemptHeight | crates/vuc-platform/src/consensus/lurosonie_manager.rs:255-288 | one height is one attempt step of the machine, accepted exactly with positive power; the block is a system block exactly for the producer 0x53ae54b11251d5003e9aa51422405bc35a2ef32d |
| LurosonieManager.LurosonieManager.SequenceHeights | crates/vuc-platform/src/consensus/lurosonie_manager.rs:251-292 | the loop over the new heights is a run of the machine with one attempt for each height |
| LurosonieManager.ProcessedMatches | crates/vuc-platform/src/consensus/lurosonie_manager.rs:396-404 | the keys of the collected list are those of the pool's transactions, whatever the order |
| CaAbi.ParseCaMethods | crates/vuc-core/lunee-ker/src/chain_ca.rs:68-92 | the loop returns the pairs at all occurrences of the selector key, in order |
| CaAbi.LowerIffSameNumber | crates/vuc-core/lunee-ker/src/chain_ca.rs:87-87 | two texts of hexadecimal digits of the same length are equal in lower case exactly when they write the same number |
| CaAbi.LowerHasNoCapital | crates/vuc-core/lunee-ker/src/chain_ca.rs:87-87 | no letter from A to Z is left |
| CaAbi.ReadEntry | crates/vuc-core/lunee-ker/src/chain_ca.rs:72-88 | at an occurrence: the next eight hexadecimal digits after "0x" in lower case, named by the last name key before, or "?"; nothing with fewer digits |
| CaAbi.EntryByPieces | crates/vuc-core/lunee-ker/src/chain_ca.rs:72-88 | the pair read at an occurrence is determined by the pieces: the digits by the first piece with "0x" from there on, the name by the last name key before |
| CaAbi.FindIs | crates/vuc-core/lunee-ker/src/chain_ca.rs:71-74 | the search returns the first occurrence, and nothing exactly when there is none |
| CaAbi.RFindIs | crates/vuc-core/lunee-ker/src/chain_ca.rs:80-84 | the backward search returns the last occurrence, and nothing exactly when there is none |
| CaAbi.FieldByPieces | crates/vuc-core/lunee-ker/src/chain_ca.rs:95-105 | the value of a key is the piece between quotes after the next colon, if it is closed |
| CaAbi.FindKey | crates/vuc-core/lunee-ker/src/chain_ca.rs:71-71 | a quoted word occurs first where it first is a whole piece between two quotes |
| CaAbi.RFindKey | crates/vuc-core/lunee-ker/src/chain_ca.rs:80-84 | and last where it last is one |
| CaAbi.ParseIsByPieces | crates/vuc-core/lunee-ker/src/chain_ca.rs:68-105 | on every text the scanner with its string searches equals a recursion over the pieces between the quotes |
| CaBundle.PrintedBundleReads | crates/vuc-core/lunee-ker/src/chain_ca.rs:68-105 | what is read from a printed bundle, for all quote-free names: one pair an entry, but a method named "name" under its own selector text and one named "selector" twice |
| CaBundle.RoundTripIff | crates/vuc-core/lunee-ker/src/chain_ca.rs:68-105 | the scanner inverts the printer up to lower case if and only if no method is named like one of the two keys |
| CaBundle.OneMethodReads | crates/vuc-core/lunee-ker/src/chain_ca.rs:68-105 | one printed method reads as its name and its selector in lower case |
| CaBundle.NamelessReads | crates/vuc-core/lunee-ker/src/chain_ca.rs:72-88 | a selector without a name reads as "?" and its first eight digits in lower case; with fewer than eight it is passed over |
| CaBundle.StatusIffResolved | crates/vuc-core/lunee-ker/src/chain_ca.rs:20-39 | for every bundle and calldata: status 1 if and only if the first method with the selector is not named like the unknown marker, and that method is reported; else status 2 |
| CaBundle.UnreadableBundleRefuses | crates/vuc-core/lunee-ker/src/chain_ca.rs:20-36 | a bundle that is not UTF-8 gives status 2 and the unknown marker |
| CaBundle.ReceiptTellsTheCall | crates/vuc-core/lunee-ker/src/chain_ca.rs:22-39 | the receipt has the id and the address given, and the first eight characters behind the marks in lower case |
| CaBundle.FirstWith | crates/vuc-core/lunee-ker/src/chain_ca.rs:29-33 | the first method with the selector, and none exactly when there is none |
| CaBundle.SelectorOfCalldata | crates/vuc-core/lunee-ker/src/chain_ca.rs:23-29 | calldata of eight digits behind any number of "0x" selects by those digits in lower case, whatever follows |
| CaBundle.ReadsResolveAsTable | crates/vuc-core/lunee-ker/src/chain_ca.rs:29-33 | the pairs read from any entries, doubled ones included, resolve every selector to the entry that the table itself resolves it to, under the name read for that entry |
| CaBundle.ExecutesTheTable | crates/vuc-core/lunee-ker/src/chain_ca.rs:20-39 | on every printed bundle, methods called "name" or "selector" included: status 1 if and only if the first entry with the selector is not named like the marker; the receipt reports the name read for that entry, which is its own if and only if it is not "name" |
| CaBundle.SucceedsIffInTable | crates/vuc-core/lunee-ker/src/chain_ca.rs:20-39 | on every printed bundle, when no method is named like the marker, calldata behind any number of "0x" gets status 1 if and only if its first eight characters are digits that write the number of some printed selector, in either case |
| CaBundle.PrintedMethodIsCallable | crates/vuc-core/lunee-ker/src/chain_ca.rs:20-39 | every printed method, unless some method is named like the marker, is callable by any eight digits that write the number of its selector, in either case, behind any number of "0x" and with any arguments |
| AppRegistry.ParseSubmenu | crates/vuc-core/lunee-ker/src/app_registry.rs:220-226 | the non-blank pieces between commas, trimmed and terminated |
| AppRegistry.ParseDockMenuItemsRaw | crates/vuc-core/lunee-ker/src/app_registry.rs:207-230 | the items of the parts that are neither blank nor references |
| AppRegistry.ParseDockMenuItems | crates/vuc-core/lunee-ker/src/app_registry.rs:235-262 | the same with each reference replaced by the referred application's own items; terminates although applications may refer to each other |
| AppRegistry.ParseIsAdditive | crates/vuc-core/lunee-ker/src/app_registry.rs:235-262 | for all texts, parsing a joined by a bar to b is parsing a and then b |
| AppRegistry.ReferenceExpands | crates/vuc-core/lunee-ker/src/app_registry.rs:197-202 | a reference anywhere in a menu, with any blanks around mark and name, is replaced by the own non-reference items of the first application of that name, or by nothing if there is none |
| AppRegistry.NoRefsParseRaw | crates/vuc-core/lunee-ker/src/app_registry.rs:207-262 | on parts that are not references the two parsers agree |
| AppRegistry.AtFreeParsesRaw | crates/vuc-core/lunee-ker/src/app_registry.rs:207-262 | on texts without '@' the two parsers agree, whatever is installed |
| AppRegistry.PrintedMenuParses | crates/vuc-core/lunee-ker/src/app_registry.rs:207-262 | both parsers invert the printer on well-formed items |
| AppRegistry.ParsedItemsAreGood | crates/vuc-core/lunee-ker/src/app_registry.rs:207-230 | whatever the text, parsed labels and entries are non-blank, trimmed and free of their separators |
| AppRegistry.RoundTripIffWellFormed | crates/vuc-core/lunee-ker/src/app_registry.rs:207-230 | items survive printing and parsing if and only if all of them are well-formed |
| AppRegistry.Registry.constructor | crates/vuc-core/lunee-ker/src/app_registry.rs:273-273 | the registry starts empty |
| AppRegistry.Registry.PublishRegistry | crates/vuc-core/lunee-ker/src/app_registry.rs:304-334 | the default application first, then the installed ones in order without the shell and the default |
| AppRegistry.Registry.SetPinned | crates/vuc-core/lunee-ker/src/app_registry.rs:412-419 | only the pin of entry i changes; -1 and no change beyond the end |
| AppRegistry.Registry.PinnedCount | crates/vuc-core/lunee-ker/src/app_registry.rs:422-426 | the number of pinned positions |
| AppRegistry.Registry.PinnedIndex | crates/vuc-core/lunee-ker/src/app_registry.rs:430-441 | the i-th pinned position, -1 beyond the last |
| AppRegistry.PositionsAreThePinned | crates/vuc-core/lunee-ker/src/app_registry.rs:422-441 | the positions ascend and are exactly those of the pinned entries |
| AppRegistry.PublishedPinsTheDefault | crates/vuc-core/lunee-ker/src/app_registry.rs:304-334 | whatever is installed, exactly the first entry is pinned, it is the default application, and neither it nor the shell is listed again |
| AppRegistry.PublishedShowsTheInstalled | crates/vuc-core/lunee-ker/src/app_registry.rs:281-334 | the first entry is pinned and shows the default application with the name, icon, colour and menu of its first manifest, or its own without one; the others are exactly the installed ones but shell and default, in order, unpinned, each with its folder, display name or else folder, icon path, colour and menu |
| Ucs2.CheckU16WithNul | patches/uefi-0.27.0/src/data_types/strs.rs:257-274 | the loop returns the units, or the first fault with its position |
| Ucs2.CheckAcceptsExactlyValid | patches/uefi-0.27.0/src/data_types/strs.rs:257-274 | accepted exactly when the units are UCS-2 with the only NUL last, and then unchanged |
| Ucs2.FirstFaultIsFirst | patches/uefi-0.27.0/src/data_types/strs.rs:257-274 | the fault reported is at the first faulty position, with its kind |
| Ucs2.CheckTellsTheFault | patches/uefi-0.27.0/src/data_types/strs.rs:257-274 | a refusal names the first unit that is a surrogate or a NUL not at the end, and its position; a missing terminator only without any such unit |
| Ucs2.TryFrom | patches/uefi-0.27.0/src/data_types/owned_strs.rs:123-145 | the loop returns the UTF-16 units with a terminator, or the kind of the first fault |
| Ucs2.WriteUnits | patches/uefi-0.27.0/src/data_types/strs.rs:340-360 | the buffer holds as many of the units and the terminator as fit, the rest of it is untouched |
| Ucs2.FromStrWithBuf | patches/uefi-0.27.0/src/data_types/strs.rs:340-367 | the same check on the filled part of the buffer, or too small |
| Ucs2.ConversionsAgree | patches/uefi-0.27.0/src/data_types/strs.rs:340-367 | a buffer is too small exactly below the units and terminator; otherwise both conversions give the same units or the same kind of error |
| Ucs2.BufferTellsTheFault | patches/uefi-0.27.0/src/data_types/strs.rs:340-367 | in a buffer that is large enough the first faulty unit and its position are told, else the units and a NUL |
| Ucs2.ConversionIsExact | patches/uefi-0.27.0/src/data_types/owned_strs.rs:123-145 | conversion succeeds exactly for text of non-NUL characters of the basic plane (UTF-16 as in section 2.1 of RFC 2781), is valid and converts back to the text; the error kind tells whether the first bad character is NUL |
| Ucs2.PairReadsBack | patches/uefi-0.27.0/src/data_types/strs.rs:346-356 | a character of the basic plane is one unit, any other a high and a low surrogate that read back (section 2.1 of RFC 2781) |
| Ucs2.EndsInNul | patches/uefi-0.27.0/src/data_types/strs.rs:340-367 | units with a terminator appended never fail for lack of one |
| Ucs2.CString16.constructor | patches/uefi-0.27.0/src/data_types/owned_strs.rs:59-61 | the empty string, valid |
| Ucs2.CString16.FromChecked | patches/uefi-0.27.0/src/data_types/owned_strs.rs:151-170 | checked units are taken over unchanged |
| Ucs2.CString16.Push | patches/uefi-0.27.0/src/data_types/owned_strs.rs:68-76 | one character is appended before the terminator, the string stays valid |
| Ucs2.CString16.PushStr | patches/uefi-0.27.0/src/data_types/owned_strs.rs:80-85 | the other string's content is appended, the string stays valid |
| Ucs2.CString16.ReplaceChar | patches/uefi-0.27.0/src/data_types/owned_strs.rs:88-99 | every occurrence and nothing else is replaced, unit by unit; the string stays valid |
| Ucs2.CString16.NumChars | patches/uefi-0.27.0/src/data_types/owned_strs.rs:103-105 | the length without the terminator |
| Ucs2.EqUntilNulIsPrefixAgreement | patches/uefi-0.27.0/src/data_types/strs.rs:515-531 | true if and only if one of the two, each up to its NUL, is a prefix of the other |
| Ucs2.EqUntilNulOfEqualLength | patches/uefi-0.27.0/src/data_types/strs.rs:515-531 | equality when the lengths agree |
| SluMerkle.AddressRoundTrip | crates/vuc-platform/src/operator/crypto_perf.rs:154-175 | parsing a printed address gives the 32 bytes of its second digest if and only if at least 32 of them were printed, whatever the first length |
| SluMerkle.AddressShowsBothDigests | crates/vuc-platform/src/operator/crypto_perf.rs:154-175 | a printed address has between its marks the digits of as many bytes of either digest as asked for |
| SluMerkle.SluAddressIsItsLastSegment | crates/vuc-tx/src/slura_merkle.rs:25-50 | every SLU address: the last segment with ink, without blanks and stars around it, writes in 64 digits of either case the number it stands for; another length is one error, other characters another |
| SluMerkle.SluHasASegment | crates/vuc-tx/src/slura_merkle.rs:25-34 | and it always has such a segment |
| SluMerkle.PlainAddressIsItsNumber | crates/vuc-tx/src/slura_merkle.rs:21-64 | every address that is not an SLU address: the number its digits write, in either case and behind any number of "0x", in 32 bytes; one error exactly for other characters or an odd number of digits, another exactly for more than 32 bytes |
| SluMerkle.HexAddressIsPadded | crates/vuc-tx/src/slura_merkle.rs:52-64 | digits in either case, behind any number of "0x" and between blanks, are decoded and padded on the left to 32 bytes, or refused for their number |
| SluMerkle.HexAddressesCollideIffSameNumber | crates/vuc-tx/src/slura_merkle.rs:52-64 | two plain addresses, however written, fall together if and only if their digits write the same number |
| SluMerkle.SortSorts | crates/vuc-tx/src/slura_merkle.rs:196-198 | sorting yields an ordered permutation |
| SluMerkle.SortedIsUnique | crates/vuc-tx/src/slura_merkle.rs:196-198 | ordered lists with the same elements are equal |
| SluMerkle.LeqByFirstDifference | crates/vuc-tx/src/slura_merkle.rs:196-198 | a leaf sorts before another exactly if it has the smaller byte at the first difference, or ends there |
| SluMerkle.RootHashesTheSortedLeaves | crates/vuc-tx/src/slura_merkle.rs:196-206 | the root is the digest of the leaves one after the other in ascending order |
| SluMerkle.RootIgnoresOrder | crates/vuc-tx/src/slura_merkle.rs:186-206 | the root depends only on the multiset of leaves |
| SluMerkle.IterationsAgree | crates/vuc-tx/src/slura_merkle.rs:186-195 | two iterations of the same map build the same multiset of leaves |
| SluMerkle.RootIgnoresIteration | crates/vuc-tx/src/slura_merkle.rs:186-206 | the root does not depend on the iteration order of the map |
| SluMerkle.RootIsOfTheAccounts | crates/vuc-tx/src/slura_merkle.rs:89-206 | two states, unless texts hashed for them collide: the roots are the same if and only if both have the same addresses and at each the same zk address, metadata, storage root and version, a blank text counting as the byte 0x80 |
| SluMerkle.BuildZkRoot | crates/vuc-tx/src/slura_merkle.rs:89-157 | the loops over accounts and leaves, in any order of iteration, return the root that every order gives, or an address error |
| SluMerkle.FirstErrorDecides | crates/vuc-tx/src/slura_merkle.rs:89-97 | there is a root exactly if all addresses can be parsed; else the error is that of the first that cannot |

## Left out

- JSON-RPC, TCP and UDP discovery, the HTTP client of the bridge, the command line, log output: input and output only.
- The contract interpreter, RocksDB internals, state_root of the reth library, k256, Keccak and SHA-3: execution is any gas-bounded deterministic program, hashes are function parameters, injective only where a lemma says so.
- Filling `read_set`: no code in the repository fills it; what is recorded is a parameter of `ParallelEngine`, and the empty record is treated as the case as written.
- Later retry rounds of `execute_parallel_batch`, in which the retried batch no longer matches the active set; one pass from arbitrary versions is covered.
- The versioned reload at slurachain_vm.rs:1884, which no writer's key shape matches.
- RocksDB errors in the middle of a commit or a scan, and keys that are not UTF-8.
- Function metadata other than name, offset, selector and the payable flag.
- The pool's memory type and the panic without boot services in the allocator.
- Clocks and random seeds are parameters; the leader's seed is any word.
- `sync_from_database`, `get_block_by_hash` and the calls to the BFT contract around a delegation.
- Concurrent tasks inside the consensus object beyond the interleavings of `Mempool` and the crash points of `Sequencer`: each method of `LurosonieManager` runs alone, and two productions never overlap.
- The manager's `last_btc_height` in memory: it is 0 from lurosonie_manager.rs:163 on and never written, so the maximum with it at 218 changes nothing.
- The genesis block's own hash is any text function of its timestamp, log, number and producer.
- The formatting of the receipt as JSON text: the receipt is a record of its varying fields. `CaAbi` takes the two keys and the "0x" mark as parameters of its functions and fixes them in `KEYS`; the scanner's step of 10 is the length of the quoted selector key.
- Bytes of UTF-8 text: labels and address lengths are counted in characters. Pointer getters of the registry are left out.
- The accounts' resource serialization and the standard state root in `build_extended_state_trie` are parameters or absent.
- Checked arithmetic of a debug build, which panics where a release build wraps.
- The rest of `crypto_perf.rs`, `committee.rs`, `slurachain_gov.rs`, `tx_op.rs`, `Align` arithmetic, UEFI file scanning, the HAL and the user interface: only easy members, firmware calls or drawing.
