# Models of the Ring runtime and its verification tooling

This project models the parts of the repository whose correctness is hard to
see from one function, and proves what each of them is for. All statements
hold for every input, every run, every schedule of errors or every reachable
state, as said in the table.

- **The reference-counted heap** of `ring_runtime.cpp`. `RcHeap` defines exact
  counts and the least set of blocks that die with a release; `RcSharing` and
  `RcReach` say what dup, allocation and slot updates keep and how counting
  relates to reachability; `RcMachine` is the heap changed in place, with
  `ring_drop` and its destructors calling each other while the heap is half
  torn down; `RcLists` and `RcCallbacks` are the list operations;
  `RcRuns` speaks of whole runs.
- **Runtime algorithms**: `CatchFrames` (`ring_try` and `ring_raise` against
  structured exceptions), `StringOps` (split, join, replace), `NumberText`
  (ECMAScript number layout), `SplitMix` (boxed Ints and their hash).
- **The compiler anchor cache** of `tests/run_tests.py`: `AnchorDirectory`
  (the files, and one register per key driven by a history of commits,
  evictions, breakages and poisonings), `AnchorRanking` (the order of a
  cleanup), `AnchorRecency` (which keys a cleanup may evict, in terms of
  stamps and times alone), `AnchorCache` (the operations, any step of which
  may fail before or after taking effect or be the last one of a killed
  client), `AnchorRuns` (any sequence of clients).
- **The identity ledger and the C probe checker**: `LedgerRelations`,
  `LedgerChanges` (which corruptions an accepted ledger cannot survive),
  `LedgerText`, `ProbeAlpha`.
- **Phase timing**: `PhaseTrace` is the producer in `tests/run_tests.py`,
  `PhaseRows` the classifier in `bench/check/run.py`, `PhaseAgreement` their
  agreement, `PhaseChanges` what the classifier makes of one changed field.
- **Sampling lanes**: `LaneSchedule`, the scheduler in `bench/check/run.py` and
  the checker in `bench/check/combine.py`.
- **Benchmark plumbing**: `RuntimeIsolation` (setting the runtime object aside
  and putting it back) and `Coverage` (`_coverage_ns`).

`Options`, `Sets` and `Decimal` are shared.

Facts where the code does not do what one would expect. For each there is an
exact condition and an input on which it fails:

- dup then drop is not the identity at count 100000 (`RcSharing.DupThenDrop`,
  `RcSharing.SaturatedPair`);
- a release leaves unreachable blocks exactly when an unreachable cycle is
  there (`RcReach.LeaksAreCycles`, `RcReach.CycleLeaks`);
- splitting undoes joining only for pieces that the delimiter separates
  (`StringOps.SplitJoin`, `StringOps.DelimiterPiece`);
- the lane checker looks for fatal reasons among excluded records only, so it
  accepts lists the scheduler would not have gone through
  (`LaneSchedule.ReplayAccepted`, `LaneSchedule.AcceptedButNotReplayed`);
- the record of the isolation transaction starts out saying `restored` and
  keeps saying so when a read that its verdict depends on fails
  (`RuntimeIsolation.Disk.Finish`, `RuntimeIsolation.StaleClaim`);
- an anchor key whose poisoning fails half way is left broken, which refuses
  every call until a cleanup forgets the key altogether
  (`AnchorCache.Cache.PoisonKey`, `AnchorRuns.DivergenceForgotten`).

Check everything with `dafny verify dfyconfig.toml`.

## Model

| member | source | states |
|---|---|---|
| RcHeap.OwnedLive | ring_runtime.cpp:417-431 | in a heap whose counts are exact, every owned reference points to a live block |
| RcHeap.OutCounts | ring_runtime.cpp:2502-2605 | what each layout holds, counted on its own fields: a map the occupied keys plus the occupied values that refer to a block, a list its first slots in use, a closure its environment, an option its payload when present |
| RcHeap.DeadClosed | ring_runtime.cpp:433-473 | the set freed by releasing references contains every mortal block all of whose references were released or come from the set |
| RcHeap.DeadWithin | ring_runtime.cpp:433-473 | it is contained in every set closed in that way, so it is the least one |
| RcHeap.DeadJustified | ring_runtime.cpp:433-473 | a freed block was neither never-drop nor saturated, and its count is covered by released references and references from freed blocks |
| RcHeap.DeadUnreferenced | ring_runtime.cpp:433-473 | no owned reference and no slot of a survivor points to a freed block, and its count is exactly what it lost |
| RcHeap.AfterDropsInv | ring_runtime.cpp:433-473 | releasing references leaves every remaining count equal to owned roots plus incoming slots |
| RcHeap.SurvivorCount | ring_runtime.cpp:466-472 | a survivor's count falls by exactly the references released directly and those held by freed blocks |
| RcHeap.AfterDropsCompose | ring_runtime.cpp:2502-2605 | releasing two batches one after the other is releasing them at once, so the order of a destructor's walk does not matter |
| RcHeap.DropImmortal | ring_runtime.cpp:446-465 | dropping a never-drop or saturated block changes nothing |
| RcHeap.DropShared | ring_runtime.cpp:466-472 | dropping one of several references lowers that one count by one and frees nothing |
| RcHeap.DropLast | ring_runtime.cpp:466-472 | dropping the last reference equals removing the block first and then releasing the references in its slots |
| RcHeap.DropOne | ring_runtime.cpp:446-472 | in numbers: no change above 100000 or for the four never-drop typeids, otherwise one count down, and gone at one |
| RcHeap.HeldByDyingDies | ring_runtime.cpp:433-473 | a block whose only reference is held by a dying block dies too |
| RcHeap.MapContentsFreed | ring_runtime.cpp:2513-2526 | dropping the last reference to a map frees every key and every value of an occupied entry that nothing else refers to |
| RcSharing.AfterDupsInv | ring_runtime.cpp:417-431 | dup keeps all counts exact, the new references being owned by the caller |
| RcSharing.DupOne | ring_runtime.cpp:417-431 | the effect of one dup on the heap: one count up unless the block is immortal |
| RcSharing.DupThenDrop | ring_runtime.cpp:417-473 | dup followed by drop is the identity exactly unless the count was 100000, where the dup makes the block immortal |
| RcSharing.SaturatedPair | ring_runtime.cpp:417-473 | a heap with exact counts in which the pair is not the identity |
| RcSharing.AllocInv | ring_runtime.cpp:353-384 | a new block takes over the references in its slots and is owned once |
| RcSharing.SetDataInv | ring_runtime.cpp:1128-1140 | rewriting a block's slots keeps counts exact when references leaving slots become owned and references entering them stop being owned |
| RcSharing.InternInv | ring_runtime.cpp:525-541 | changing a block's typeid to a never-drop one keeps all other counts exact |
| RcSharing.OwnedSurvives | ring_runtime.cpp:433-473 | a block that is still owned survives any cascade with its contents |
| RcSharing.DropsSetData | ring_runtime.cpp:2291-2300 | rewriting the slots of a surviving block commutes with a cascade |
| RcReach.PathSurvives | ring_runtime.cpp:433-473 | every block on a path from a reference that stays owned, or from an immortal block, survives a cascade unchanged |
| RcReach.ReachedSurvives | ring_runtime.cpp:433-473 | a block that stays reachable survives a cascade with its contents and stays reachable |
| RcReach.AcyclicReachable | ring_runtime.cpp:433-473 | with exact counts and no cycles every allocated block is reachable from an owner or an immortal block |
| RcReach.DropsCollectGarbage | ring_runtime.cpp:433-473 | on an acyclic heap a block survives a release if and only if it is still reachable |
| RcReach.CycleSurvives | ring_runtime.cpp:433-473 | no release frees any block of a cycle of mortal blocks |
| RcReach.LeaksAreCycles | ring_runtime.cpp:433-473 | a release leaves an unreachable block if and only if some cycle of mortal blocks is reached by no remaining owner and no immortal block |
| RcReach.CycleLeaks | ring_runtime.cpp:433-473 | the smallest such heap: a cell holding itself |
| RcMachine.Heap.constructor | ring_runtime.cpp:353-384 | the heap starts empty with exact counts |
| RcMachine.Heap.DropRef | ring_runtime.cpp:433-473 | `ring_drop` on a half torn-down heap: terminates on every heap with exact counts, cyclic ones included, leaves exactly the heap after the release, and gives each block of the least dead set back to the allocator once and no other |
| RcMachine.Heap.Destroy | ring_runtime.cpp:466-472 | the last reference: run the destructor, then free a block that is still allocated; the result is the released heap and each dead block is freed once |
| RcMachine.Heap.Free | ring_runtime.cpp:466-472 | only an allocated block is freed, and the free is logged |
| RcMachine.Heap.Release | ring_runtime.cpp:2502-2605 | a destructor's release of one slot: null slots are skipped, others dropped |
| RcMachine.Heap.DropByTypeid | ring_runtime.cpp:565-571 | each typeid's destructor releases exactly the references in the block's slots |
| RcMachine.Heap.DropList | ring_runtime.cpp:2502-2510 | releases the used slots of the buffer |
| RcMachine.Heap.DropMap | ring_runtime.cpp:2513-2526 | releases key and value of occupied entries only, each as often as `RcHeap.OutCounts` counts it |
| RcMachine.Heap.ReleaseEntry | ring_runtime.cpp:2519-2522 | one occupied entry: the key, then the value |
| RcMachine.MapFreesValue | ring_runtime.cpp:2513-2526 | a run of the heap object: a string put into a map as a value is given back to the allocator by dropping the map, and the heap is empty again |
| RcMachine.Heap.DropClosure | ring_runtime.cpp:2528-2539 | releases the environment |
| RcMachine.Heap.DropOption | ring_runtime.cpp:2558-2566 | releases the payload of a present option only |
| RcMachine.Heap.DropCell | ring_runtime.cpp:589-598 | releases the cell's value |
| RcMachine.Heap.DropCounted | ring_runtime.cpp:2541-2605 | the counted walk of closure environments, dictionaries and evidence releases every slot |
| RcMachine.Heap.Alloc | ring_runtime.cpp:353-384 | a fresh address with count one; the caller's references move into the block |
| RcMachine.Heap.Dup | ring_runtime.cpp:417-431 | raises one count; the caller owns one more reference |
| RcMachine.Heap.Increment | ring_runtime.cpp:417-431 | the header update: no change to scalars, immortal and saturated blocks |
| RcMachine.Heap.Drop | ring_runtime.cpp:433-473 | the running program's drop: the heap becomes the released heap and stays valid |
| RcMachine.Heap.Intern | ring_runtime.cpp:525-541 | freezes a block's count by making its typeid never-drop |
| RcMachine.Heap.EnumNone | ring_runtime.cpp:1254-1262 | returns the shared never-drop singleton, creating it once |
| RcMachine.Heap.EnumSome | ring_runtime.cpp:1234-1241 | the payload reference moves into a fresh option |
| RcMachine.Heap.CellNew | ring_runtime.cpp:1759-1770 | the value reference moves into a fresh cell |
| RcMachine.Heap.CellGet | ring_runtime.cpp:1772-1781 | the value is shared with the caller and the cell keeps its own reference |
| RcMachine.Heap.CellSet | ring_runtime.cpp:1783-1791 | the new reference moves in and the old value is released |
| RcLists.MakeList | ring_runtime.cpp:386-397 | a fresh empty list with the requested capacity |
| RcLists.Push | ring_runtime.cpp:399-415 | the element is appended, the buffer grown as the source grows it, and its reference moves into the list |
| RcLists.Set | ring_runtime.cpp:1128-1140 | replaces one slot: the new reference moves in, the old one is released after the write |
| RcLists.DupAll | ring_runtime.cpp:1148-1161 | every element is shared once |
| RcLists.Collect | ring_runtime.cpp:1148-1180 | a fresh list co-owning the given live values, every other block unchanged but for counts |
| RcLists.Concat | ring_runtime.cpp:1148-1161 | a fresh list with the elements of both, each co-owned |
| RcLists.Slice | ring_runtime.cpp:1163-1180 | a fresh list with the elements between the clamped bounds, each co-owned |
| RcLists.ClampedElements | ring_runtime.cpp:1163-1180 | those are, in order, exactly the elements whose places lie between the bounds, whatever the bounds |
| RcLists.Extend | ring_runtime.cpp:2302-2311 | appends the other list's original elements, each shared, also when the other list is the list itself and its buffer is replaced meanwhile |
| RcLists.ExtendReads | ring_runtime.cpp:2302-2311 | the slot read in each round still holds the original element, even in the list's own buffer |
| RcLists.Pop | ring_runtime.cpp:1182-1195 | the last element moves from the list into a fresh option and nothing else changes; the empty list gives the singleton and leaves the heap as it was, once the singleton exists |
| RcLists.Shift | ring_runtime.cpp:2278-2289 | the first element moves into a fresh option, the rest move down and nothing else changes; the empty list is as for pop |
| RcLists.GetOpt | ring_runtime.cpp:1197-1206 | a fresh option that co-owns the element, one count up and every other block as it was, or the singleton outside the bounds |
| RcLists.First | ring_runtime.cpp:1489-1498 | the same at the first index, with the whole heap |
| RcLists.Last | ring_runtime.cpp:1478-1487 | the same at the last index, with the whole heap |
| RcLists.Clear | ring_runtime.cpp:2291-2300 | for a list that something the caller owns keeps alive, itself or a block leading to it: slots are released one by one while destructors run; the result is the empty list in the heap after releasing all elements |
| RcLists.ClearSlot | ring_runtime.cpp:2291-2300 | one round: the slot's reference is released although the slot is nulled only afterwards |
| RcCallbacks.Filter | ring_runtime.cpp:1445-1461 | the heaps of the walk form a chain: the closure runs in one and leaves the next, to which an approved element is added; the result holds exactly the approved elements, in order, each co-owned |
| RcCallbacks.FlatMap | ring_runtime.cpp:1500-1520 | the heaps of the walk form a chain of closure call, sharing of the returned list's elements and release of that list; the result is the concatenation of those lists |
| RcCallbacks.Fold | ring_runtime.cpp:1405-1428 | the heaps and accumulators form a chain of closure call and release of the previous accumulator, except the initial one; the last accumulator is owned by the caller |
| RcCallbacks.Call | ring_runtime.cpp:1405-1461 | calling a closure that respects the conventions keeps counts exact and gives the caller an owned result |
| RcCallbacks.Absorb | ring_runtime.cpp:1500-1520 | sharing a returned sublist's elements into the result and releasing the sublist is exact |
| RcCallbacks.LatestWellBehaved | ring_runtime.cpp:1405-1461 | the conventions demanded of closures are kept by one that shares and returns its last argument |
| RcRuns.StepInv | ring_runtime.cpp:353-473 | every action of a program keeps counts exact |
| RcRuns.CountsExact | ring_runtime.cpp:353-473 | in every state of every run each mortal block's count equals owned roots plus incoming slots |
| RcRuns.ImmortalForever | ring_runtime.cpp:417-473 | a block once saturated or never-drop is never freed and its count never moves again |
| RcRuns.NothingDangles | ring_runtime.cpp:433-473 | no owned reference and no slot ever points to a freed block |
| RcRuns.NoLeakAtExit | ring_runtime.cpp:433-473 | an acyclic program that gave up all its references leaves only immortal blocks and what they reach |
| CatchFrames.RaiseSkips | ring_runtime.cpp:1834-1842 | an error passes every activation above the innermost armed frame |
| CatchFrames.CaughtMeaning | ring_runtime.cpp:1870-1888 | jumping to the innermost armed frame and running its arm there is what structured exceptions do |
| CatchFrames.Disarmed | ring_runtime.cpp:1881-1887 | after a jump the frame chain is again linked and its head is the frame saved in the disarmed one |
| CatchFrames.Machine.constructor | ring_runtime.cpp:1820-1824 | an empty stack with no frame |
| CatchFrames.Machine.BeginTry | ring_runtime.cpp:1870-1880 | arming a frame keeps the chain linked and the meaning of the rest of the run |
| CatchFrames.Machine.Return | ring_runtime.cpp:1878-1880 | normal completion unlinks an armed frame, leaves the chain alone for a disarmed one, and keeps the meaning |
| CatchFrames.Machine.RaiseTo | ring_runtime.cpp:1834-1842 | the jump truncates the C stack at the target activation, which is still live, and keeps the meaning |
| CatchFrames.Machine.Run | ring_runtime.cpp:1814-1889 | for every program: same emissions and same ending as big-step try/catch; the catch stack is as before on normal and escaping ends, the C stack on normal ones |
| CatchFrames.RunProgram | ring_runtime.cpp:1834-1842 | a whole program behaves as its structured meaning, an escaping error being the unhandled-raise panic |
| StringOps.Find | ring_runtime.cpp:77-85 | the leftmost occurrence, if there is one |
| StringOps.MemMem | ring_runtime.cpp:77-85 | the byte scan finds the leftmost occurrence, an empty needle at zero |
| StringOps.SplitLoop | ring_runtime.cpp:854-874 | the cursor loop computes the pieces, an empty delimiter giving single bytes |
| StringOps.SplitAtAll | ring_runtime.cpp:863-873 | the same for a non-empty delimiter |
| StringOps.JoinLoop | ring_runtime.cpp:876-904 | the copying loop computes the join |
| StringOps.Replace | ring_runtime.cpp:906-924 | rescanning a mutating buffer equals splitting on the source and joining with the target |
| StringOps.JoinSplit | ring_runtime.cpp:854-904 | joining the pieces of any string with the same delimiter gives the string back, empty delimiter included |
| StringOps.PiecesFree | ring_runtime.cpp:854-874 | no piece contains a non-empty delimiter |
| StringOps.SplitJoin | ring_runtime.cpp:854-904 | splitting undoes joining exactly when the delimiter first occurs at the end of each piece and not in the last; for an empty delimiter, exactly when every piece is one byte |
| StringOps.DelimiterPiece | ring_runtime.cpp:854-904 | joining the one piece that is the delimiter and splitting again does not give it back |
| NumberText.PrintNumber | ring_runtime.cpp:963-990 | strips zeros, lays the digits out, and the text reads as exactly the mantissa times its power of ten, with the sign |
| NumberText.StripZeros | ring_runtime.cpp:965-966 | the loop that strips trailing zeros |
| NumberText.StripValue | ring_runtime.cpp:963-968 | stripping leaves digits without zeros at either end and the same number |
| NumberText.ReadTextExactly | ring_runtime.cpp:971-989 | a reader that knows nothing of the layout gets back the digits and the exponent in every case |
| NumberText.ReadText | ring_runtime.cpp:971-990 | the text reads back as exactly the number, with its sign |
| NumberText.TextInjective | ring_runtime.cpp:971-990 | different digits, exponents or signs never print alike |
| NumberText.TextShape | ring_runtime.cpp:971-989 | which of the four forms a number takes and where its point and zeros stand: an exponent exactly outside -6 < n <= 21, its sign and digits being those of n - 1 |
| Decimal.DigitAt | ring_runtime.cpp:988 | every place of a printed number holds its decimal digit, and the first is no zero |
| SplitMix.UnshiftXorShift | ring_runtime.cpp:2466-2468 | an xor with the word's own right shift by at least 22 is undone |
| SplitMix.XorShiftUnshift | ring_runtime.cpp:2466-2468 | and the undoing is itself undone |
| SplitMix.TimesInverse | ring_runtime.cpp:2466-2467 | multiplication modulo 2^64 is undone by an inverse multiplier |
| SplitMix.UnmixMix | ring_runtime.cpp:2463-2470 | the finaliser loses nothing |
| SplitMix.MixUnmix | ring_runtime.cpp:2463-2470 | the finaliser reaches every word |
| SplitMix.BoxRoundTrip | ring_runtime.cpp:683-709 | boxing and unboxing gives the number back exactly for signed 63-bit numbers |
| SplitMix.UnboxRoundTrip | ring_runtime.cpp:683-709 | unboxing and boxing a tagged word gives it back |
| SplitMix.BoxForgetsTopBit | ring_runtime.cpp:683-687 | two words share a box exactly when they differ in the top bit at most |
| SplitMix.SameHash | ring_runtime.cpp:2463-2470 | two Ints share a boxed hash exactly when they are equal or one is the other's twin |
| SplitMix.NoTriples | ring_runtime.cpp:2463-2470 | at most two Ints share a hash |
| SplitMix.TwinExists | ring_runtime.cpp:2463-2470 | an Int shares its hash with another exactly when its twin word is a 63-bit number |
| AnchorDirectory.PublishedMeans | tests/run_tests.py:1717-1813 | a key shows an object exactly when it was committed while the key was absent and nothing was done to the key since |
| AnchorDirectory.OnwardUntilEvicted | tests/run_tests.py:1394-1449 | without eviction a key only moves from published to broken or poisoned |
| AnchorDirectory.TwoObjectsNeedEviction | tests/run_tests.py:1717-1813 | two different published objects of one key are separated by an eviction |
| AnchorDirectory.PoisonSticks | tests/run_tests.py:1484-1501 | a poisoned key stays poisoned until it is evicted |
| AnchorRanking.SortEntries | tests/run_tests.py:1646-1653 | all noted entries, protected first, then latest use first |
| AnchorRanking.SumOfSizesIsSum | tests/run_tests.py:1654-1670 | the running byte total counts each shared artifact once |
| AnchorRanking.FittingIsKept | tests/run_tests.py:1654-1673 | nothing is evicted when entries and bytes are within both limits |
| AnchorDirectory.EntryTime | tests/run_tests.py:1554-1557 | a listed key was last used at its access stamp if it has one, otherwise at the time of its tombstone or receipt |
| AnchorRecency.WeightOfEntries | tests/run_tests.py:1654-1670 | the running byte total is the sum over the artifacts the kept keys name, each once |
| AnchorRecency.JustifiedIsOutranked | tests/run_tests.py:1646-1673 | an evicted key gave way to survivors that are protected or whose stamp or file time is no earlier: sixteen of them, or more than 4294967296 bytes with its own |
| AnchorRecency.LatestStays | tests/run_tests.py:1646-1673 | a published key whose stamp is later than every other last use is not evicted, unless the protected key's artifact leaves no room for it |
| AnchorCache.Cache.constructor | tests/run_tests.py:1184-1186 | an empty cache under any schedule of faults and any clock |
| AnchorCache.Cache.Reopen | tests/run_tests.py:1184-1186 | a client that finds the cache as others left it |
| AnchorCache.Cache.DropReceipt | tests/run_tests.py:1602-1606 | unlinking a receipt evicts its key unless a tombstone remains; it may fail before or after it took effect |
| AnchorCache.Cache.ScanReceipts | tests/run_tests.py:1542-1618 | notes every receipt that is a poison record or matches its artifact; if files that exist can be read, only broken ones are removed |
| AnchorCache.Cache.ScanTombstones | tests/run_tests.py:1619-1645 | a tombstone replaces its key's receipt; afterwards every key has one entry |
| AnchorCache.Cache.ListEntries | tests/run_tests.py:1542-1653 | the ranked list of what may be kept, each entry as the directory had it |
| AnchorCache.Cache.Retain | tests/run_tests.py:1654-1673 | keeps at most 16 entries within the byte limit, the protected one among them; every loss is justified by entries used no earlier |
| AnchorCache.Cache.Consider | tests/run_tests.py:1657-1673 | one round of the greedy pass |
| AnchorCache.Cache.SweepArtifacts | tests/run_tests.py:1675-1679 | removes exactly the artifacts no kept entry names |
| AnchorCache.Cache.SweepAccess | tests/run_tests.py:1681-1686 | removes the access stamps of keys without an entry |
| AnchorCache.Cache.Evictions | tests/run_tests.py:1646-1686 | ranking result to bounded directory |
| AnchorCache.Cache.Cleanup | tests/run_tests.py:1519-1688 | if files that exist can be read: evicts only, never the protected key, whatever removal fails and wherever the client is killed; when it completes the artifacts are exactly those named by ordinary receipts, tombstones have no receipt beside them, entries number at most 16 and bytes at most 4294967296; every evicted key gave way to survivors whose access stamp or file time is no earlier, so the key touched last stays; no receipt ever dangles; a directory within these bounds is left alone |
| AnchorCache.ChosenObeysRecency | tests/run_tests.py:1646-1673 | what the pass kept and lost obeys that law of recency in the directory before and after |
| AnchorCache.SweptArtifacts | tests/run_tests.py:1675-1679 | after the sweep artifacts are exactly the named ones and their bytes are the running total |
| AnchorCache.Cache.PoisonKey | tests/run_tests.py:1394-1449 | the exact table over the faults of its four steps: rename, else creation of a tombstone, else truncation and rewriting in place; when the key ends poisoned, when broken, when success is reported |
| AnchorCache.Cache.RenameReceipt | tests/run_tests.py:1420-1425 | the rename commits the poison even if it reports an error |
| AnchorCache.Cache.CreateTombstone | tests/run_tests.py:1425-1428 | the tombstone is there when this succeeds, also if the file existed |
| AnchorCache.Cache.OverwriteReceipt | tests/run_tests.py:1434-1443 | truncation already ends the hit; a write that takes effect poisons; between the two the key is broken |
| AnchorCache.Cache.Touch | tests/run_tests.py:1355-1358 | only the key's access stamp changes |
| AnchorCache.Cache.Lookup | tests/run_tests.py:1825-1848 | hit exactly for a published key with that object, miss for an absent one, refusal for a broken or poisoned one; other keys may only be evicted |
| AnchorCache.Cache.Deliver | tests/run_tests.py:1816-1822 | the copy is the published object |
| AnchorCache.Cache.Publish | tests/run_tests.py:1717-1813 | the exact table of answers by the key's state and the candidate, at every fault and crash point |
| AnchorCache.Cache.Settle | tests/run_tests.py:1734-1754 | an equal candidate gets the winner, a different one poisons the key |
| AnchorCache.Cache.PublishFirst | tests/run_tests.py:1756-1813 | artifact first, receipt second: a crash leaves the key absent or published, never dangling; refusal only for a changed staged file or an artifact of the same bytes and another mode |
| AnchorCache.Cache.CreateReceipt | tests/run_tests.py:1343-1352 | the commit point: absent before, published after, nothing else moves |
| AnchorRuns.Serve | tests/run_tests.py:1717-1848 | any sequence of calls by any clients under any faults follows the answer table and the legal moves of every key |
| AnchorRuns.DeliveredIsFirstPublished | tests/run_tests.py:1717-1848 | a delivered object is the first published for its key since the key's last eviction |
| AnchorRuns.DeliveriesAgree | tests/run_tests.py:1717-1848 | two clients given different objects for a key were separated by an eviction of it |
| AnchorRuns.PoisonBlocks | tests/run_tests.py:1394-1501 | from the moment a poison is committed, whatever becomes of the call that committed it, every call for the key is refused until its tombstone is evicted |
| AnchorRuns.DivergenceBlocks | tests/run_tests.py:1742-1752 | in particular after a publication was told that it diverged |
| AnchorRuns.DivergenceForgotten | tests/run_tests.py:1420-1449 | a schedule of faults under which a divergence leaves the key broken, the next cleanup forgets it and the key takes the other object |
| AnchorRuns.NothingLostWhenItFits | tests/run_tests.py:1646-1673 | a cleanup within both limits loses no published and no poisoned key |
| AnchorRuns.PublishThenLookup | tests/run_tests.py:1717-1848 | without faults a first publication with nothing against it completes, and what was published is found by the next client |
| ProbeAlpha.Evaluate | tests/run_tests.py:4157-4237 | succeeds exactly on acceptable lists and freezes the origins every event had when it was evaluated |
| ProbeAlpha.CountReturns | tests/run_tests.py:4226-4233 | the positions of the returns |
| ProbeAlpha.CanonicalEvents | tests/run_tests.py:4240-4291 | the renaming loop computes the canonical form, row by row as the next lemma says |
| ProbeAlpha.CanonicalRow | tests/run_tests.py:4272-4288 | each row names its statement's kind, then what it binds, what it calls and its operands in their order, a local by the number of its declaration |
| ProbeAlpha.NextEvent | tests/run_tests.py:4240-4291 | one event: a declaration takes the next name, other statements look names up |
| ProbeAlpha.LocalsFacts | tests/run_tests.py:4157-4237 | in an acceptable list the declarations come first, with distinct names that are not roots |
| ProbeAlpha.CanonicalIffRenamed | tests/run_tests.py:4240-4291 | two acceptable lists have the same canonical form if and only if a bijection of names fixing `r_value` and `RING_UNIT` maps one to the other |
| ProbeAlpha.VerdictInvariant | tests/run_tests.py:4294-4319 | the template verdict does not change under renaming |
| LedgerRelations.Collect | tests/run_tests.py:3558-3633 | the dictionaries hold exactly the events seen, and duplicates are reported |
| LedgerRelations.CheckCaptures | tests/run_tests.py:3634-3659 | silent exactly if each store has its extract with equal identity and agreeing frames, and the converse |
| LedgerRelations.CheckEdges | tests/run_tests.py:3660-3667 | silent exactly if each edge's stores and extracts are numbered 1..n |
| LedgerRelations.CheckLoads | tests/run_tests.py:3668-3681 | silent exactly if each load is consumed by exactly one call of its frame |
| LedgerRelations.ValidateRelations | tests/run_tests.py:3558-3686 | no errors exactly on ledgers meeting the declarative specification |
| LedgerRelations.DeletionKeeps | tests/run_tests.py:3558-3686 | deleting a capture-free edge or an unloaded call keeps a ledger accepted |
| LedgerRelations.DeletionTheorem | tests/run_tests.py:3558-3686 | deleting one event and renumbering keeps an accepted ledger accepted if and only if the event is a capture-free edge or a call with load id 0 |
| LedgerChanges.AcceptedTable | tests/run_tests.py:3393-3462 | what every event of an accepted ledger satisfies by itself: identity fields by domain, domains by kind, required fields and the shape of calls |
| LedgerChanges.NoDuplicates | tests/run_tests.py:3583-3633 | no two edges or loads share an id, no two stores or extracts an edge and index, no two calls a load |
| LedgerChanges.NoSlotTwice | tests/run_tests.py:3682-3686 | no slot is identified both exactly and by name only |
| LedgerChanges.StorePinned | tests/run_tests.py:3634-3654 | a store of an accepted ledger can only be replaced by one that differs in load id, arity and source slot, or the ledger is refused |
| LedgerChanges.ExtractPinned | tests/run_tests.py:3634-3659 | the like for an extract: only load id, arity and slots may differ |
| LedgerChanges.EdgePinned | tests/run_tests.py:3643-3654 | the like for an edge with captures: only load id, destination slot, index and arity may differ |
| LedgerChanges.LoadPinned | tests/run_tests.py:3668-3681 | a load keeps its number, kind, load id, frame and destination slot |
| LedgerChanges.CallPinned | tests/run_tests.py:3668-3681 | a call with a load may only differ in edge id, child frame, destination slot, index and arity |
| LedgerText.EscapeIsPerCharacter | tests/run_tests.py:3465-3467 | the chained replacements equal one map over the characters |
| LedgerText.EscapeCodes | tests/run_tests.py:3465-3467 | character by character: a percent sign, a bar and the two line ends become a percent sign and the two hexadecimal digits of their code, everything else stays |
| LedgerText.DecodeEscaped | tests/run_tests.py:3470-3489 | decoding an escaped text gives it back |
| LedgerText.Unescape | tests/run_tests.py:3470-3489 | accepts exactly the escaped texts and returns what was escaped |
| LedgerText.EscapeInjective | tests/run_tests.py:3465-3467 | different texts are escaped differently |
| LedgerText.LineInjective | tests/run_tests.py:3492-3504 | different events are written as different lines |
| LedgerText.LineForm | tests/run_tests.py:3495-3503 | the fifteen fields of a line in their order |
| LedgerText.SerializeForm | tests/run_tests.py:3492-3504 | the header's line, then one line for each event |
| LedgerText.ReadEvent | tests/run_tests.py:3524-3544 | an event from a line's fields exactly if each of its parts is what the field at its place reads as |
| LedgerText.ParseLine | tests/run_tests.py:3507-3555 | the line an event is written as, with its fields in the order of `LedgerText.LineForm`, gives back that event; a line without exactly 15 fields gives none |
| LedgerText.ParseLines | tests/run_tests.py:3507-3555 | the lines of a ledger give back its events; a line without exactly 15 fields is reported |
| LedgerText.ParseLedger | tests/run_tests.py:3507-3555 | a result exactly for texts that are the serialisation, in the form of `LedgerText.SerializeForm`, of an accepted ledger without extra line breaks, and then those events |
| LedgerText.SerializeInjective | tests/run_tests.py:3492-3504 | ledgers whose fields avoid the extra line breaks and that have the same text are equal |
| LedgerText.StrictReader | tests/run_tests.py:3507-3555 | the integer reader assumed of the parser exists |
| Decimal.IntRoundTrip | tests/run_tests.py:3492-3555 | printing and reading an integer gives it back |
| PhaseTrace.PhaseTimingTrace.constructor | tests/run_tests.py:284-290 | a fresh trace |
| PhaseTrace.PhaseTimingTrace.Emit | tests/run_tests.py:301-333 | one row with the next number and a duration not below zero |
| PhaseTrace.PhaseTimingTrace.AccountChild | tests/run_tests.py:335-339 | time is charged to the suite it was spent in, otherwise to the runner |
| PhaseTrace.PhaseTimingTrace.RecordStage | tests/run_tests.py:341-360 | the cached runtime's row and its time |
| PhaseTrace.PhaseTimingTrace.RunSubprocess | tests/run_tests.py:362-421 | a completed child's row and its time: its suite, case and stage, how long it took, its exit code, and success exactly for code 0 |
| PhaseTrace.PhaseTimingTrace.RunSuite | tests/run_tests.py:423-456 | a suite leaves its children's rows, its residual and its total |
| PhaseTrace.PhaseTimingTrace.Finish | tests/run_tests.py:458-474 | the final pair, once |
| PhaseTrace.Produce | tests/run_tests.py:8590-8636 | a whole run leaves one row for each of its steps, at its place, numbered, with that step's suite, case, stage, duration, exit code and outcome, two rows closing each suite and two closing the run, and nothing else |
| PhaseTrace.SuitesAmong | tests/run_tests.py:423-456 | the rows of the i-th suite begin after the setup rows and two more rows than children of each earlier suite, and tell of its children in order |
| PhaseRows.RowFaults | bench/check/run.py:2160-2268 | silent exactly if the row is fine by itself |
| PhaseRows.ClassifyRows | bench/check/run.py:2160-2268 | silent exactly if every row is fine; then every row takes part in the topology checks |
| PhaseRows.ClassifyOrder | bench/check/run.py:2313-2368 | silent exactly if setup comes first in the expected order and the suites follow in the expected order; a prefix of either is never a hard fault |
| PhaseRows.ClassifyGroup | bench/check/run.py:2373-2407 | silent exactly if the suite ends in an agreeing residual and total that, unless a duration is negative, account for its children |
| PhaseRows.ClassifyGroups | bench/check/run.py:2370-2409 | the suite loop: silent exactly if every suite is fine; the sum of the totals when every one of them can be used |
| PhaseRows.ClassifyFinal | bench/check/run.py:2282-2311 | silent exactly if the final pair agrees, carries the exit code, accounts for all time from usable durations and fits in the wall time |
| PhaseRows.Classify | bench/check/run.py:2138-2435 | no hard and no eligibility faults exactly on admissible traces, and no hard faults exactly on traces in which nothing is wrong, though they may be unfinished |
| PhaseChanges.OutcomeTable | bench/check/run.py:2077-2135 | how each outcome fixes executed, complete and exit code of a row that is not wrong |
| PhaseChanges.StageTable | bench/check/run.py:2216-2268 | which stages there are, whose rows they are on and which category each carries |
| PhaseChanges.SetupFor | bench/check/run.py:2068-2074 | which preparation stages the selected suites call for |
| PhaseChanges.OneFieldIsHard | bench/check/run.py:2138-2435 | changing the number, a flag, the outcome or the category of any one row of an admissible trace is a hard fault |
| PhaseChanges.DurationPinned | bench/check/run.py:2370-2435 | with any one duration changed the trace is no longer admissible, whatever exit code and wall time it is judged by |
| PhaseChanges.ExitCodeChanged | bench/check/run.py:2077-2135 | changing one exit code of an admissible trace is a hard fault unless a process that failed is given another failing code |
| PhaseAgreement.ResidualsExact | tests/run_tests.py:423-474 | on a monotone clock no residual is clipped |
| PhaseAgreement.SuiteGroupFine | tests/run_tests.py:423-456 | a suite's own rows account for its total |
| PhaseAgreement.GroupOfSuite | bench/check/run.py:2372-2373 | the rows selected for a suite are exactly those it emitted |
| PhaseAgreement.AllSuitesInOrder | bench/check/run.py:2351-2357 | the suite order recovered from a trace is the order in which suites ran |
| PhaseAgreement.OrderOfRun | bench/check/run.py:2313-2368 | a clean run's setup and suites are in the expected order |
| PhaseAgreement.TotalsOfRun | bench/check/run.py:2370-2409 | the suite totals add up to the time spent in suites |
| PhaseAgreement.AccountedRun | bench/check/run.py:2411-2427 | setup, suite totals and residual add up to the runner total |
| PhaseAgreement.CleanRunsAdmissible | bench/check/run.py:2138-2435 | every clean run within the wall time is admissible |
| PhaseAgreement.WallMattersExactly | bench/check/run.py:2428-2435 | a clean run is admissible if and only if the wall time is at least the runner total |
| PhaseAgreement.ProduceAndClassify | bench/check/run.py:2138-2435 | running the producer and then the classifier: never a hard fault, and no fault at all exactly if the wall time suffices |
| LaneSchedule.RunLane | bench/check/run.py:3636-3707 | terminates for every source of records and returns the lane; in numbers: an adaptive lane whose first included record took 300 seconds or more aims at 3 samples, any other at 5, a direct lane at 21 after one warm-up, a full gate at 3; it ends with the first record after which it gives up, has its samples or has made two attempts more |
| LaneSchedule.StopsMeansEnds | bench/check/run.py:3655-3702 | the loop's two conditions, read in these numbers |
| LaneSchedule.FirstFault | bench/check/run.py:2763-2812 | a record is included exactly when nothing is wrong with its attempt, and of several faults the first is named |
| LaneSchedule.LaneUnique | bench/check/run.py:3636-3707 | a source of records determines its lane |
| LaneSchedule.AcceptedReading | bench/check/combine.py:128-188 | for every record list: the checker, sums over a sorted copy, accepts exactly the lists that are well made once in order |
| LaneSchedule.AcceptedInNumbers | bench/check/combine.py:128-188 | in numbers: a direct lane's excluded warm-up, then only samples and replaceable failures, as many samples as the lane aims at, the last one at the end, at most two extra attempts |
| LaneSchedule.SortMeaning | bench/check/combine.py:152-160 | the checker looks at the same records, by index |
| LaneSchedule.SortAscending | bench/check/combine.py:152-160 | sorting records that are already in order changes nothing |
| LaneSchedule.CompleteIsAccepted | bench/check/combine.py:128-188 | every complete lane of executed attempts is accepted with the recomputed target |
| LaneSchedule.AcceptedIsComplete | bench/check/combine.py:128-188 | every accepted list is complete |
| LaneSchedule.ReplayAccepted | bench/check/run.py:3696-3702 | an accepted list is a lane of the scheduler if and only if no record before the last has a fatal reason |
| LaneSchedule.Replay | bench/check/run.py:3636-3707 | running the scheduler on an accepted list reproduces exactly those records if and only if that condition holds |
| LaneSchedule.AcceptedButNotReplayed | bench/check/combine.py:164-182 | an accepted list whose first record is included although it timed out, after which the scheduler stops |
| LaneSchedule.AcceptedIsLane | bench/check/run.py:3636-3707 | on records of executed attempts the replay reproduces every accepted list |
| RuntimeIsolation.Disk.Replace | bench/check/run.py:1618-1625 | a rename takes effect entirely or not at all, and may report an error either way |
| RuntimeIsolation.Disk.Begin | bench/check/run.py:1565-1683 | at every moment the original is at the root or the backup path; a refusal or a safe roll-back leaves all three paths as they were; it is ready, with the verified object at the root, exactly if nothing stands against it and every operation works |
| RuntimeIsolation.Disk.Install | bench/check/run.py:1618-1645 | the try block under errors: the original stays at one of the two places |
| RuntimeIsolation.Disk.InstallPrepared | bench/check/run.py:1628-1641 | only a verified copy reaches the root path |
| RuntimeIsolation.Disk.RollBack | bench/check/run.py:1646-1683 | recovery that reports no error restored everything and left nothing over |
| RuntimeIsolation.Disk.Finish | bench/check/run.py:1686-1746 | the original is never lost; the schedule of errors decides exactly when the verdict is computed and when the original is back; `restored` is right if and only if the reads the verdict depends on work or the original is back |
| RuntimeIsolation.Disk.Restore | bench/check/run.py:1707-1727 | renaming the backup over the root, or removing what was generated: the root afterwards, exactly |
| RuntimeIsolation.Disk.Judge | bench/check/run.py:1736-1746 | the verdict is computed exactly if nothing raised before and the last read works, and then tells the truth |
| RuntimeIsolation.Disk.RunChild | bench/check/run.py:1565-1746 | a child that touches only the root path cannot endanger the original |
| RuntimeIsolation.Disk.Sample | bench/check/run.py:1565-1746 | begin, child and finish together, under every schedule of errors: when the transaction starts and when its record is right, exactly |
| RuntimeIsolation.StaleClaim | bench/check/run.py:1728-1746 | where the record is wrong: the transaction starts well, the child writes, then every operation fails and the record claims a restoration that never happened |
| Coverage.CoverageNs | bench/check/windows_job.py:323-342 | the number of instants of the window covered by some interval, for every order and overlap, hence never more than the window |
| Coverage.Clip | bench/check/windows_job.py:326-332 | cutting to the window keeps the covered instants |
| Coverage.SortCorrect | bench/check/windows_job.py:333 | the sorted list is ascending and has the same intervals |
| Coverage.Sweep | bench/check/windows_job.py:334-342 | the sweep counts every covered instant once |
| Coverage.SweptNext | bench/check/windows_job.py:336-341 | one interval merges with the current run or starts a new one |

## Left out

- Tuples and user types: their destructors are a no-op fallback or generated by a compiler that is not part of this model; the freeing theorems cover the runtime's own typeids.
- Foreign pointers in dup and drop: only their saturation effect is there, because what lies before a foreign pointer cannot be specified; allocator failure and `exit` are not modelled.
- `ring_Cell_update` and `ring_list_for_each`: the first assumes a callback that consumes its argument, the second discards results; no conservation is claimed for them.
- `ring_list_map`, sort, any, all, find, the raw slot operations and the Map operations beyond dropping a map: easy members beside those proved, or defined in a library that is not part of this model.
- Heap blocks are values in a map that the heap object reassigns; list buffers are sequences inside a block, so buffer addresses are not distinguished, only their contents and lengths.
- RcLists.Collect: writes the elements after sharing all of them, where the source alternates; no destructor runs in between.
- RcCallbacks.Call: what a closure frees is not in the log of freed addresses; a closure is a function on heaps that keeps counts exact, returns an owned result and does not write the list being walked.
- `ring_catch_push`, `ring_catch_pop` and thread-local storage: one thread, frames of `ring_try` only.
- The search for the shortest round-tripping digits (`snprintf`, `strtod`): `NumberText` starts from the digits and the exponent; NaN, infinities and zero are constant texts.
- Strings are sequences of bytes or characters; UTF-8 encoding is not modelled.
- Locks of the anchor cache: calls happen one after another, as the global lock makes them; what other programs do to the directory is not modelled.
- AnchorCache.Cache.ScanReceipts: assumes that a file that exists can be read; when reading a sound receipt or its artifact's metadata raises, the source removes the receipt.
- AnchorCache.Cache.Cleanup: rests on the same assumption; under a failing read the source may evict even the protected key.
- Staging directories, temporary files, conflict evidence and its pruning, and receipts whose JSON fields are malformed (one kind of broken receipt stands for all of them).
- The branch of a publication that loses the creation race: under the global lock no other receipt can appear.
- Texts of errors; the probe evaluator's state after its first error; the tokenizer and the probe templates.
- LedgerText.ParseLedger: takes any integer reader that reads printed integers back; the UTF-8 and final-newline checks on bytes are those on characters.
- Timeouts, spawn errors, exceptions and the cached-build stages of the phase trace: the classifier's stage set does not list the latter, so no agreement is claimed there; nested suites are refused by the source.
- JSON types of trace rows (booleans, integers): the model's rows are typed.
- RuntimeIsolation.Disk.RunChild: the child touches the root path only; hashes are compared as contents; lanes without isolation do nothing.
- Coverage.CoverageNs: intervals end no earlier than they begin, as the sampler writes them.
- Windows job objects, process plumbing, suite discovery, command lines, manifests and parity matrices.
