# Verified models of MPIre and its test programs

MPIre captures one rank of an MPI program and replays it alone. This project models, in Dafny, the
parts of the repository whose correctness is hard to see, and proves it:

- **The pointer hash table** (`Words`, `SlotSpec`, `Rebuild`, `HTable`). Open addressing with one word per
  slot; hash bits live in the pointer bits that all stored pointers share, one stolen bit says "at
  home", deletions leave tombstones. The class `Table` updates its words in place and is proved
  against a ghost ring of slots, and the ring against a plain multiset of pointers.
- **The table of pending receives** (`Requests`): over the hash table, a partial map from request
  address to buffer.
- **Capture and replay** (`Protocol`, `Hooks`, `Runs`, `Receives`, `Deliveries`). Two state machines over one deterministic program;
  replay is a lockstep simulation of capture. The two libraries are classes whose methods compute the
  protocol's steps, `Runs` drives both through whole programs, and `Receives` follows each posted receive
  to its one file, and `Deliveries` says in MPI's terms which calls leave a file.
- **NAS IS** (`Keys`, `BucketSort`, `Redistribution`, `CountingSort`, `DistributedSort`, `SortAllRanks`): the
  distributed bucket and counting sort, from any keys on any number of ranks to a global sort.
- **The random streams** (`Lcg`, `RandomStreams`): three ways to compute `a x mod 2^46`, skip-ahead
  seeding, batched generation.
- **NAS BT** (`Blocks`, `Pivoting`, `BlockRoutines`, `LineSystem`, `LineSolve`, `CellSolve`, `LineSolver`,
  `SolveRanks`, `SolveGrid` for the pipelined block-tridiagonal solver over exact reals, on one row of cells
  and on all ranks; `Multipartition`, `Messages`, `FaceOrder`, `FacePairs`, `CopyFaces`, `HaloExchange`,
  `BuildRanks` for the distribution of the cells and the halo exchange).
- **The lookup3 hash** (`Lookup3`, `HashBytes`, `MachineWords`, `KnownHashes`): reversible mixing, results that do
  not depend on alignment, and fixed keys with their results.
- `Numbers` holds the powers of two, quotients and remainders that several of these use.

Where the source changes state step by step the model does too (classes, arrays, loops), and each such
method is proved against a specification function whose own properties are lemmas.

## How to read it

- A machine word of the table is the set of its one bits, so masks are set operations. `~x & y`, `x | y`
  and `x ^ y` are `y - x`, `x + y` and the symmetric difference.
- A table that still points at its own `perfect_bit` field is a null array.
- The callback that rehashes an entry is a finite map that the table holds; `MemoryChanged` is the
  statement that the map may change for objects that are not stored.
- `hide` statements only keep definitions out of a proof that does not need them.
- In the BT routines the unrolled statements of the source appear as loops over the same rows and
  columns in the same order, and the six copies of a loop nest in `copy_faces` appear once,
  parameterised by the face. Array index 0 of a line is the Fortran index -1. A cell holds one object per
  line, in the order of the loops over `k` and `j`; the two work arrays are one pair for all of them.
- `Prod`, `Quot` and `Rem` are the three operators under a name. Operands of a remainder are never
  negative in the source, where the sums are shifted by the divisor first.
- `start_send_*` and `start_recv_*` are the same six numbers; the model keeps one set.
- `u` with its negative bounds is a map from index tuples to values, defined on all declared elements.
- A double that holds a state of the generator is a real with an integer value; `SplitFits` bounds every
  intermediate of the split below 2^53, so that doubles compute it exactly.

## What was found in the source

- `update_common` reveals the top bit of the first pointer only. A later pointer that does not share it can
  be stored as the deleted mark (`TwoAfterSix`), or as a live word if its hash happens to help
  (`TwoAfterSixLive`). `LiveWord` is the exact condition for the hash at hand, `LiveUnderEveryHash` and
  `LiveUnderEveryCallback` for one word and for a whole table whatever the hashes, and
  `HTable.Table.Add` states both of its result. `SharedTopBit` shows that pointers with one common top bit
  always meet the stronger one.
- The file of a log entry is opened without being cut, so a longer leftover file keeps its tail; replay
  reads as many elements as it needs from the start, so the two sides stay in step (`FileCarries`).
- The C `MPI_Waitall` of capture looks requests up by the value of the handle, after the handles have
  been set to null, while replay looks them up by address. `WaitallLosesReceive` is an input that goes
  wrong; the counters stay together exactly when the list names no pending receive (`WaitallByHandle`).
  The Fortran pair is in step.
- The comment in `is.c` that no processor is left idle (tests/test_Replay/IS/is.c:640-642) is not what the
  code does: `IdleRank` is an input that leaves a rank without a bucket, which the loop after it provides
  for. `EveryRankHasAShare` and `NoRankIdle` say exactly when all ranks get one.
- The batched `vranlc` saves an element before the first of its seed vector when asked for no numbers; the
  saved index is in range exactly when there is at least one (`VranlcBatched`).

## Model

| member | source | states |
|---|---|---|
| `Words.EncodeReadsBack` | src/ccan/ccan/htable/htable.c:13-43 | A slot word built from a pointer gives back that pointer, its folded hash without the perfect bit, and the perfect bit itself, for every layout and hash |
| `Words.HashBitsAvoidPerfect` | src/ccan/ccan/htable/htable.c:35-43 | The folded hash never contains the perfect bit, and removing that bit from the metadata of an entry at home gives the metadata of one elsewhere |
| `Words.ExtraSplits` | src/ccan/ccan/htable/htable.c:67-81 | The single comparison of the probe loop is true exactly when the folded hashes agree and, while there is a perfect bit, the flags agree |
| `Words.NarrowedOk` | src/ccan/ccan/htable/htable.c:230-233 | Taking differing bits out of the mask leaves a well-formed layout whose common bits the new pointer has, with the perfect bit kept or lost as a whole |
| `Words.ReencodeEntry` | src/ccan/ccan/htable/htable.c:215-228 | The in-place rewrite of an entry equals encoding the same pointer and hash afresh under the smaller mask, under which the pointer still shows a bit, so it stays a live entry |
| `Words.LiveUnderEveryHash` | src/ccan/ccan/htable/htable.c:24-33 | An entry is kept apart from 0 and from the deleted mark under every hash if and only if its pointer shows a bit above bit 0 outside the mask: the exact condition on pointers |
| `Words.LiveWord` | src/ccan/ccan/htable/htable.c:24-33 | The exact condition for the hash at hand: a written word is neither 0 nor the deleted mark if and only if its pointer shows a bit above bit 0 outside the mask or its metadata has one |
| `Words.TwoAfterSix` | src/ccan/ccan/htable/htable.c:199-233 | A concrete pair of pointers, 6 and then 2, for which the second is stored as the deleted mark: revealing the top bit of the first pointer alone is not enough |
| `Words.TwoAfterSixLive` | src/ccan/ccan/htable/htable.c:24-33 | The same pointer 2 with another hash is stored as a live word that reads back, although it shows no bit |
| `Words.SharedTopBit` | src/ccan/ccan/htable/htable.c:199-211 | Pointers that all have the same top bit, at index 1 or above, always meet that condition, whatever was stored before |
| `Words.FreshLayoutOk` | src/ccan/ccan/htable/htable.c:199-212 | The layout chosen for the first pointer is well formed and fits it |
| `Words.RecoveredOk` | src/ccan/ccan/htable/htable.c:146-154 | The recovered perfect bit is a single bit of the mask, or there is none to take |
| `Words.LowBitsAre` | src/ccan/ccan/htable/htable.c:62-65 | The bucket of a hash is the number whose bits are the low bits of the hash |
| `Words.HashBitsAre` | src/ccan/ccan/htable/htable.c:35-43 | A bit of the folded hash is set exactly where the mask has it, the perfect bit is not, and the hash and its shift differ |
| `Words.MaskKeeps` | src/ccan/ccan/htable/htable.c:213-233 | With entries in the table the mask keeps exactly the bits in which the new pointer has the common value |
| `SlotSpec.InsertedKeeps` | src/ccan/ccan/htable/htable.c:116-128 | Putting an entry into the first non-valid slot from its home adds exactly that pointer and keeps "no empty slot between home and position" for all entries |
| `SlotSpec.CandidatesComplete` | src/ccan/ccan/htable/htable.c:67-95 | The candidates read along a probe path contain every stored occurrence of every pointer whose hash is `h`, as often as it is stored, and only stored pointers |
| `SlotSpec.StoredFromAll` | src/ccan/ccan/htable/htable.c:97-113 | Reading the slots from the first to the last gives the whole multiset |
| `SlotSpec.ProbeStep` | src/ccan/ccan/htable/htable.c:72-79 | One step of the probe loop: an entry is reported exactly when it is a candidate, and otherwise the rest of the path is unchanged |
| `SlotSpec.CountedHasEmpty` | src/ccan/ccan/htable/htable.c:238-241 | With the counters in their limits some slot is empty, so every probe ends |
| `SlotSpec.LimitsAre` | src/ccan/ccan/htable/htable.c:143-144 | The limits are three quarters and nine tenths of the slots, rounded down |
| `SlotSpec.LiveUnderEveryCallback` | src/ccan/ccan/htable/htable.c:24-33 | For a ring whose pointers agree with the common bits: no rehash callback, by the hashes and homes it gives, makes a mark of any entry if and only if every stored pointer shows a bit |
| `Rebuild.Buried` | src/ccan/ccan/htable/htable.c:265-273 | Replacing an entry by the deleted mark takes out one occurrence and opens no gap |
| `Rebuild.RefillStep` | src/ccan/ccan/htable/htable.c:156-162 | Re-adding the entries of the old table one by one carries over exactly the entries read so far |
| `Rebuild.Doubled` | src/ccan/ccan/htable/htable.c:130-167 | After the last entry the new table holds the old multiset, with no tombstone |
| `Rebuild.RehashStart` | src/ccan/ccan/htable/htable.c:174-177 | From an empty slot the invariant of the in-place pass holds although nothing has been moved |
| `Rebuild.RehashMove` | src/ccan/ccan/htable/htable.c:184-188 | Moving an entry in place keeps the multiset and the invariant of the pass, while entries further on may still have gaps |
| `Rebuild.RehashEnd` | src/ccan/ccan/htable/htable.c:169-191 | At the end of the pass no gap is left for any entry and no tombstone remains |
| `Rebuild.NearGrows` | src/ccan/ccan/htable/htable.c:177-189 | An entry only moves toward its home: for every distance, at least as many occurrences lie within it as before |
| `Rebuild.NarrowRing` | src/ccan/ccan/htable/htable.c:215-233 | Rewriting every valid word gives the encoding of the same ring under the smaller mask, with the perfect flag kept or uniformly lost |
| `Rebuild.SameGaps` | src/ccan/ccan/htable/htable.c:194-234 | A new layout of the same size moves no home, so no gap appears |
| `HTable.Table.constructor` | src/ccan/ccan/htable/htable.c:45-53 | A new table is empty and consistent, and points at its own perfect-bit field |
| `HTable.Table.Clear` | src/ccan/ccan/htable/htable.c:55-60 | Clearing gives the state of a new table with the same callback |
| `HTable.Table.Val` | src/ccan/ccan/htable/htable.c:67-81 | The probe returns the next candidate of `h` from the given position with its slot, or NULL when none is left; it terminates |
| `HTable.Table.FirstVal` | src/ccan/ccan/htable/htable.c:83-88 | The first candidate of `h`, or NULL if there is none |
| `HTable.Table.NextVal` | src/ccan/ccan/htable/htable.c:90-95 | The candidate after the one last returned |
| `HTable.Table.HtAdd` | src/ccan/ccan/htable/htable.c:116-128 | Writes the encoding of the pointer, with the perfect bit exactly when it lands at home, into the first non-valid slot |
| `HTable.Table.RecoverPerfectBit` | src/ccan/ccan/htable/htable.c:146-154 | A lost perfect bit becomes the lowest bit of the mask; a kept one is untouched |
| `HTable.Table.Refill` | src/ccan/ccan/htable/htable.c:156-162 | Re-adds every entry of the old array to the new one |
| `HTable.Table.DoubleTable` | src/ccan/ccan/htable/htable.c:130-167 | Without memory nothing changes; with memory the table is twice as large, holds the same multiset, has no tombstones counted and has a perfect bit if it can have one |
| `HTable.Table.RehashOne` | src/ccan/ccan/htable/htable.c:177-189 | One slot of the in-place pass: same multiset, entries no further from home, invariant of the pass carried on |
| `HTable.Table.RehashTable` | src/ccan/ccan/htable/htable.c:169-191 | The whole pass: same multiset, no tombstones, every entry at most as far from its home as before, all table invariants restored |
| `HTable.Table.GiveBitsBack` | src/ccan/ccan/htable/htable.c:215-233 | Every slot is re-encoded in place; the words encode the same ring under the narrowed layout |
| `HTable.Table.UpdateCommon` | src/ccan/ccan/htable/htable.c:194-234 | For every pointer that differs in a common bit, also one that then shows no bit: the stored multiset is encoded under the narrowed mask, which the new pointer agrees with, all invariants hold, and the perfect bit is kept or lost as a whole |
| `HTable.Table.MakeRoom` | src/ccan/ccan/htable/htable.c:238-241 | Doubling and rehashing leave room below both limits and keep the multiset; it fails only when memory is needed and missing, doubles exactly when the table is full, changes nothing when there is room already, and otherwise leaves no tombstone counted |
| `HTable.Table.Add` | src/ccan/ccan/htable/htable.c:236-249 | Adds exactly one occurrence, or changes nothing and says so. For every pointer but NULL and 1: counters, limits and probe paths hold, each slot has the word of its entry, and that word is told from the marks exactly when its pointer shows a bit or its metadata has one above bit 0. All words are so under every callback exactly when the new pointer shows a bit, and exactly then all invariants hold. With room to spare exactly one slot is written; the table doubles exactly when it is full |
| `HTable.Table.DelVal` | src/ccan/ccan/htable/htable.c:265-273 | Removes exactly the occurrence at the position and leaves a tombstone there |
| `HTable.Table.Del` | src/ccan/ccan/htable/htable.c:251-263 | Removes one occurrence and returns true exactly when the pointer is among the candidates, which for its own hash means exactly when it is stored; otherwise changes nothing |
| `HTable.Table.Get` | src/ccan/ccan/htable/htable.h:132-145 | Returns a candidate that the comparison accepts, NULL exactly when it accepts none; a stored pointer with this hash that it accepts is never missed |
| `HTable.Table.First` | src/ccan/ccan/htable/htable.c:97-104 | The first of the stored pointers in slot order, or NULL for an empty table |
| `HTable.Table.NextEntry` | src/ccan/ccan/htable/htable.c:106-113 | The next one after a position; together with the first they list the multiset |
| `HTable.Table.Entries` | src/ccan/ccan/htable/htable.c:97-113 | The loop over first and next gives every stored pointer as often as it is stored |
| `HTable.Table.Values` | src/ccan/ccan/htable/htable.c:83-95 | The loop over the candidates of a hash gives every stored pointer of that hash as often as it is stored, and only stored pointers |
| `Requests.OneEachAdd` | src/mpire/mpire.h:70-77 | Adding an entry for an address that has none keeps one entry per address and extends the map by it |
| `Requests.OneEachDel` | src/mpire/mpire.h:87-93 | Deleting the entry of an address removes exactly that address from the map |
| `Requests.RequestTable.GetRequest` | src/mpire/mpire.h:83-85 | Finds the entry of an address exactly when one is pending, and it is the one stored for it |
| `Requests.RequestTable.Listing` | src/mpire/mpire.h:45-51 | The printing loop names every pending request and each of them once |
| `Requests.RequestTable.AddRequest` | src/mpire/mpire.h:59-81 | Over the table this is insertion into a partial map; an address already there ends the program and changes nothing |
| `Requests.RequestTable.DelRequest` | src/mpire/mpire.h:87-93 | Over the table this is removal from the partial map; with the entry that a lookup returned it never fails |
| `Protocol.CallInStep` | src/mpire/mpire_capture.c:169-455 | One call on both sides: counters, pending receives, errors and all visible memory stay equal, whatever the peers deliver, and replay finds its file |
| `Protocol.Lockstep` | src/mpire/mpire_replay.c:20-44 | Replay is a lockstep simulation of capture over whole runs: for every deterministic program that looks at no hidden cell, after every number of calls both sides are at the same point with the same visible memory |
| `Protocol.CapturedKeepsFiles` | src/mpire/mpire_capture.c:33-58 | A file once written is never overwritten, and the counter only grows |
| `Protocol.FileCarries` | src/mpire/mpire_replay.c:20-44 | Writing a buffer and reading as many elements back reveals exactly that buffer, also where a longer leftover file keeps its tail |
| `Protocol.WaitCounts` | src/mpire/mpire_capture.c:307-346 | A wait on any list of requests writes one file per pending receive it names, however often it is named, and leaves none of them pending |
| `Protocol.WaitWrites` | src/mpire/mpire_capture.c:320-345 | Names the file of every receive: counting from the old counter, the one whose place is the number of pending receives named before it. The buffer of that receive is written to it, over what the file held; earlier files stay |
| `Protocol.HandleLogsNothing` | src/mpire/mpire_capture.c:290-305 | The lookup of the C `MPI_Waitall` by handle value: over any list whose handle values are not pending addresses it logs nothing and forgets nothing |
| `Protocol.ReplayCounts` | src/mpire/mpire_replay.c:330-351 | A wait of replay moves the counter, files or no files, exactly when its list names a pending receive |
| `Protocol.WaitallByHandle` | src/mpire/mpire_capture.c:290-305 | Once the handles are null the counters of capture and replay stay together exactly when no request of the list is a pending receive, for any log |
| `Protocol.WaitallLosesReceive` | src/mpire/mpire_capture.c:290-305 | A concrete input: one pending receive in the list, capture logs nothing and still has it pending, and replay misses its file and ends |
| `Hooks.CaptureLib.Irecv` | src/mpire/mpire_capture.c:184-202 | The hook computes the protocol step of a posted receive: recorded once, a second one at the same address ends the run |
| `Hooks.CaptureLib.Recv` | src/mpire/mpire_capture.c:204-218 | The hook computes the protocol step of a blocking receive: the received buffer is logged |
| `Hooks.CaptureLib.Wait` | src/mpire/mpire_capture.c:253-276 | The hook logs the buffer of a pending receive once and forgets it; other requests log nothing |
| `Hooks.CaptureLib.Waitall` | src/mpire/mpire_capture.c:307-346 | The loop of the hook computes the protocol step for the whole list |
| `Hooks.CaptureLib.Bcast` | src/mpire/mpire_capture.c:348-363 | Logged on every rank but the root |
| `Hooks.CaptureLib.Alltoall` | src/mpire/mpire_capture.c:373-387 | Logs count times size elements |
| `Hooks.CaptureLib.Alltoallv` | src/mpire/mpire_capture.c:397-414 | Logs the sum of the receive counts |
| `Hooks.CaptureLib.Allreduce` | src/mpire/mpire_capture.c:423-434 | Logged on every rank |
| `Hooks.CaptureLib.Reduce` | src/mpire/mpire_capture.c:444-454 | Logged on the root only |
| `Hooks.CaptureLib.WriteFile` | src/mpire/mpire_capture.c:33-58 | The next numbered file gets the buffer and the counter advances |
| `Hooks.ReplayLib.ReadFile` | src/mpire/mpire_replay.c:20-44 | The next numbered file goes to the buffer; a missing one ends the run |
| `Hooks.ReplayLib.Irecv` | src/mpire/mpire_replay.c:149-160 | Records the receive as capture did |
| `Hooks.ReplayLib.Recv` | src/mpire/mpire_replay.c:162-170 | Reads one file into the buffer |
| `Hooks.ReplayLib.Wait` | src/mpire/mpire_replay.c:371-387 | Reads the file of a pending receive into its buffer and forgets it |
| `Hooks.ReplayLib.Waitall` | src/mpire/mpire_replay.c:330-351 | The loop computes the protocol step for the whole list |
| `Hooks.ReplayLib.Bcast` | src/mpire/mpire_replay.c:291-299 | Reads on every rank but the root |
| `Hooks.ReplayLib.Alltoall` | src/mpire/mpire_replay.c:232-242 | Reads count times size elements |
| `Hooks.ReplayLib.Alltoallv` | src/mpire/mpire_replay.c:251-266 | Reads the sum of the receive counts |
| `Hooks.ReplayLib.Allreduce` | src/mpire/mpire_replay.c:215-222 | Reads on every rank |
| `Hooks.ReplayLib.Reduce` | src/mpire/mpire_replay.c:993-1001 | Reads on the root only |
| `Runs.CaptureIssue` | src/mpire/mpire_capture.c:169-455 | Every supported call, issued on the capture library over its hash table, computes the protocol step of that call |
| `Runs.ReplayIssue` | src/mpire/mpire_replay.c:149-1001 | Every supported call, issued on the replay library over its hash table, computes the protocol step of that call |
| `Runs.CaptureRun` | src/mpire/mpire_capture.c:169-455 | A new capture library that is driven through n calls of any program ends in the state and the log of the abstract capture run |
| `Runs.ReplayRun` | src/mpire/mpire_replay.c:149-1001 | A new replay library that is driven through n calls over any files ends in the state of the abstract replay run |
| `Runs.CaptureThenReplay` | src/mpire/mpire_replay.c:20-44 | The two library objects, each over its own hash table with its own hash function, end a run of n calls with the same counter, pending receives and visible memory |
| `Deliveries.CaptureLogs` | src/mpire/mpire_capture.c:169-455 | In terms of what MPI delivers to the rank: a call that fills a buffer of the rank writes the next file, with exactly the cells it filled, and every other call but a wait leaves counter and log alone; so nothing is logged on the root of a broadcast or off the root of a reduction |
| `Deliveries.CaptureTouches` | src/mpire/mpire_capture.c:169-455 | Outside the delivery, pending buffers, handles and statuses no call but a wait changes memory |
| `Deliveries.ReplayReads` | src/mpire/mpire_replay.c:149-1001 | On the replayed rank the same calls take the next file, put it into exactly that buffer, and change nothing else; the others take none |
| `Deliveries.DirectIsDelivery` | src/mpire/mpire_capture.c:204-455 | The cells that a PMPI call writes itself are those of its delivery |
| `Deliveries.ReceivedCells` | src/mpire/mpire_capture.c:253-346 | What a wait logs is the buffer as posted: so many elements, cell by cell |
| `Receives.StaysPending` | src/mpire/mpire_capture.c:184-202 | In a captured run a posted receive stays pending, as it was posted, until the first wait that names it |
| `Receives.OneFile` | src/mpire/mpire_capture.c:253-346 | Every receive that is waited for has exactly one file in the whole run: the one that its first wait writes, which at the end still begins with the buffer as that wait left it |
| `Receives.OneReceive` | src/mpire/mpire_capture.c:253-346 | No file belongs to two receives, nor to two waits |
| `Receives.EveryFileOfWait` | src/mpire/mpire_capture.c:253-346 | Every file that a wait writes is the file of a receive that was posted |
| `BucketSort.CountBuckets` | tests/test_Replay/IS/is.c:603-605 | Each bucket size is the number of keys that fall in the bucket |
| `BucketSort.BucketPointers` | tests/test_Replay/IS/is.c:608-611 | Each bucket pointer is the sum of the sizes before it |
| `BucketSort.SortIntoBuckets` | tests/test_Replay/IS/is.c:614-619 | The stretch of the buffer between two pointers holds exactly the keys of that bucket, in their original order |
| `Redistribution.Redistribute` | tests/test_Replay/IS/is.c:651-681 | The open shares are closed at the first bucket that reaches the running average; intervals, counts and displacements describe the same cut; no more shares than ranks |
| `Redistribution.CoversAllKeys` | tests/test_Replay/IS/is.c:655-671 | Every key counted in the totals lies in a closed share: buckets after the last one are empty, and at least one share is closed |
| `Redistribution.SharesAscend` | tests/test_Replay/IS/is.c:663-668 | The intervals of different ranks are disjoint and ascending |
| `Redistribution.CountsAddUp` | tests/test_Replay/IS/is.c:651-681 | The send counts of the first k ranks add up to the sender's own keys in their buckets |
| `Redistribution.LoadBound` | tests/test_Replay/IS/is.c:636-671 | A share holds at most the average minus one plus its last bucket |
| `Redistribution.EveryRankHasAShare` | tests/test_Replay/IS/is.c:636-671 | The exact condition under which no rank is left without a bucket: for every d below the number of ranks, the last d buckets hold at most d times the average |
| `Redistribution.IdleRank` | tests/test_Replay/IS/is.c:636-679 | A concrete input, two ranks and both keys in the last bucket, for which every plan leaves one rank without a bucket |
| `DistributedSort.OnePlan` | tests/test_Replay/IS/is.c:651-671 | The totals determine the plan: all ranks compute the same intervals |
| `DistributedSort.FirstHalf` | tests/test_Replay/IS/is.c:603-619 | From the keys of a rank to its sizes and its grouped buffer |
| `CountingSort.CountPopulation` | tests/test_Replay/IS/is.c:747-777 | Each cell of the work array is the number of received keys with that value |
| `CountingSort.Accumulate` | tests/test_Replay/IS/is.c:779-787 | Each cell becomes the number of received keys up to that value |
| `CountingSort.PlaceKeys` | tests/test_Replay/IS/is.c:502-505 | The received keys are written back sorted, as a permutation of what was received |
| `SortAllRanks.ReceivedByRank` | tests/test_Replay/IS/is.c:717-726 | What a rank receives is exactly the keys of all ranks in the interval that every rank computed for it |
| `SortAllRanks.ReceivedInRange` | tests/test_Replay/IS/is.c:740-765 | Its number is the locally computed total, and every key lies in the range of the work array |
| `SortAllRanks.ReceivedLoad` | tests/test_Replay/IS/is.c:636-671 | A rank receives at most the average minus one plus its last bucket, and nothing without a share |
| `SortAllRanks.SendsEverything` | tests/test_Replay/IS/is.c:651-681 | The send counts of every rank add up to its number of keys |
| `SortAllRanks.NoRankIdle` | tests/test_Replay/IS/is.c:636-671 | In terms of the keys: all ranks get a share exactly when, for every d below the number of ranks, no more keys lie in the last d buckets than d ranks start with |
| `SortAllRanks.RecvDispls` | tests/test_Replay/IS/is.c:704-706 | Each receive displacement is the sum of the receive counts before it |
| `SortAllRanks.ReceiveKeys` | tests/test_Replay/IS/is.c:704-726 | Pieces written at these displacements fill the buffer with the pieces of all ranks in rank order |
| `SortAllRanks.Exchange` | tests/test_Replay/IS/is.c:688-726 | Counts that are exchanged and keys that are delivered by them give each rank the pieces cut for it, in rank order |
| `SortAllRanks.SortAll` | tests/test_Replay/IS/is.c:603-788 | The distributed sort on any number of ranks and any keys, with the exchange of counts and the receive displacements: every rank sorted, ranks ascending, and the union is a permutation of all input keys |
| `Blocks.StepKills` | tests/test_Capture/BT/solve_subs.f:225-283 | One pivot step, which leaves finished columns stale, changes the rows into rows with exactly the same solutions |
| `Blocks.EliminationSolves` | tests/test_Capture/BT/solve_subs.f:206-481 | With no zero pivot, `x + C z == r` after the elimination has exactly the solutions of `B x + C z == r` before it |
| `Pivoting.NoZeroPivot` | tests/test_Capture/BT/solve_subs.f:225-481 | The elimination without pivoting divides by no zero if and only if every leading block of the diagonal block is regular, whatever C and the right-hand side are |
| `Blocks.ProductThenImage` | tests/test_Capture/BT/solve_subs.f:56-199 | Subtracting a product of blocks and applying the result to a vector is subtracting the image of the image |
| `Blocks.EliminateAbove` | tests/test_Capture/BT/x_solve.f:716-727 | Once the row above is solved for its own unknown, taking it out of a row keeps what the row says |
| `Blocks.IdentityStays` | tests/test_Capture/BT/initialize.f:283-305 | A row whose diagonal block is the identity is a fixed point of the elimination |
| `BlockRoutines.MatvecSub` | tests/test_Capture/BT/solve_subs.f:5-51 | The vector at one grid point loses the image of another; all others stay |
| `BlockRoutines.MatmulSub` | tests/test_Capture/BT/solve_subs.f:56-199 | The block at one grid point loses the product of two blocks; all others stay |
| `BlockRoutines.Binvcrhs` | tests/test_Capture/BT/solve_subs.f:206-481 | In place and entry by entry, the block row becomes the result of five pivot steps; all others stay |
| `BlockRoutines.Binvrhs` | tests/test_Capture/BT/solve_subs.f:488-639 | The same without the block C |
| `LineSystem.SweepRow` | tests/test_Capture/BT/x_solve.f:714-738 | Given the row before, a row of the line and its swept form have the same solutions |
| `LineSystem.SweepKeepsSolutions` | tests/test_Capture/BT/x_solve.f:695-766 | The forward sweep changes no solution of any prefix of the line |
| `LineSystem.BackIsUnique` | tests/test_Capture/BT/x_solve.f:381-392 | Back substitution computes the one solution of the swept system |
| `LineSystem.SweepSolves` | tests/test_Capture/BT/x_solve.f:35-109 | With no zero pivot, vectors solve the original block-tridiagonal line if and only if they are those that the sweep computes |
| `LineSystem.BoundaryRowStays` | tests/test_Capture/BT/initialize.f:291-302 | The two end rows, which are never recomputed, are left as they were by the sweep, so they serve every line of a cell |
| `LineSolve.PackedOnce` | tests/test_Capture/BT/x_solve.f:181-195 | Two block rows with the same message are the same: packing loses nothing |
| `LineSolve.PackedAt` | tests/test_Capture/BT/x_solve.f:181-194 | Where each entry is: element (m,n) of the block at 5m+n, element n of the vector at 25+n |
| `LineSolve.LineCell.constructor` | tests/test_Capture/BT/initialize.f:229-277 | A new line over the work arrays of its cell is well formed, with `lhsc` zero |
| `LineSolve.LineCell.LoadLine` | tests/test_Capture/BT/x_solve.f:425-690 | The computed blocks of the inner points, over ends that are never written, give the block rows of the line |
| `LineSolve.LineCell.PackSolveInfo` | tests/test_Capture/BT/x_solve.f:181-194 | From `ptr` on, the buffer gets the block and vector of the last point, row by row, and nothing else of it changes |
| `LineSolve.LineCell.UnpackSolveInfo` | tests/test_Capture/BT/x_solve.f:135-147 | What is stored before the first point packs to the received numbers from `ptr` on; no other point changes |
| `LineSolve.LineCell.EliminateRow` | tests/test_Capture/BT/x_solve.f:714-738 | The three calls for one point turn an original row into the swept row |
| `LineSolve.LineCell.EliminateLast` | tests/test_Capture/BT/x_solve.f:743-764 | The special case of the last row |
| `LineSolve.LineCell.SolveCell` | tests/test_Capture/BT/x_solve.f:698-766 | From what the cell before handed on, every point of the cell is swept |
| `LineSolve.LineCell.BackSubstitute` | tests/test_Capture/BT/x_solve.f:366-392 | On one line, from what the cell after handed back, every point of the cell holds its part of the solution |
| `CellSolve.GridCell.constructor` | tests/test_Capture/BT/work_lhs.h:9-15 | A new cell of lines that share two work arrays and own the rest, all ready for the first stage |
| `CellSolve.GridCell.InitWork` | tests/test_Capture/BT/initialize.f:283-305 | The work arrays become zero blocks and identity blocks at all points of a line |
| `CellSolve.GridCell.PackSolveInfo` | tests/test_Capture/BT/x_solve.f:178-195 | The message of a face: one after the other, the block and vector of the last point of every line |
| `CellSolve.GridCell.UnpackSolveInfo` | tests/test_Capture/BT/x_solve.f:133-148 | Every line gets its own part of the message before its first point |
| `CellSolve.GridCell.PackBacksubInfo` | tests/test_Capture/BT/x_solve.f:232-241 | The message back: the first vector of every line |
| `CellSolve.GridCell.UnpackBacksubInfo` | tests/test_Capture/BT/x_solve.f:269-279 | Every line gets its own part of it |
| `CellSolve.GridCell.SolveLines` | tests/test_Capture/BT/x_solve.f:425-770 | Line after line over the shared work arrays, which every line finds as the first one did: all solved lines of the cell are swept, and the others are not touched |
| `CellSolve.GridCell.BackSubstitute` | tests/test_Capture/BT/x_solve.f:340-392 | All solved lines of the cell hold their part of the solution, and the others hold what they held |
| `CellSolve.GridCell.ForwardStage` | tests/test_Capture/BT/x_solve.f:50-82 | One stage of the first loop on a whole cell: unpack, sweep, send on; lines that are not solved keep their points |
| `CellSolve.GridCell.BackwardStage` | tests/test_Capture/BT/x_solve.f:88-109 | One stage of the second loop on a whole cell: unpack, substitute, send back; lines that are not solved keep their points |
| `CellSolve.XSolve` | tests/test_Capture/BT/x_solve.f:35-109 | However a row of cells is cut, every point of every solved line ends with its part of the one solution of that line, so any two cuts agree; the right-hand sides of all other lines stay |
| `LineSolver.SolveSystems` | tests/test_Capture/BT/x_solve.f:35-109 | From systems to solutions: cells are built, loaded, solved and read out, and every line gets the only solution of its original system |
| `SolveRanks.StageHandsOn` | tests/test_Capture/BT/x_solve.f:195-204 | On p*p ranks: what a rank sends at a stage of the first loop has the source, destination and tag that its successor asks for at the next stage, and is for the next cell of the same row of cells |
| `SolveRanks.StageHandsBack` | tests/test_Capture/BT/x_solve.f:245-248 | The same for the messages of the second loop, to the predecessor and for the cell before |
| `SolveRanks.SolveEnvelopesDiffer` | tests/test_Capture/BT/x_solve.f:195-304 | No two messages of the two loops, of any ranks and stages, have the same source, destination and tag, also where both neighbours are one rank |
| `SolveRanks.SomeoneCanGo` | tests/test_Capture/BT/x_solve.f:35-109 | However far each rank has come, as long as not all are finished some rank needs no message or has it: the ranks never wait in a circle |
| `SolveRanks.SolveOnAllRanks` | tests/test_Capture/BT/x_solve.f:35-109 | All p*p ranks, going on in any order as their messages arrive: the run ends, every cell of every rank holds its part of the one solution of all its solved lines, and the right-hand sides of the other lines stay |
| `SolveGrid.SolveAllLines` | tests/test_Capture/BT/x_solve.f:35-109 | From systems to solutions on all ranks: cells are built by owner and stage, solved by messages alone, and gathered; every line of every row of cells gets the only solution of its system |
| `Multipartition.OwnerHasCell` | tests/test_Capture/BT/make_set.f:37-50 | Every cell of the grid is held by a rank, on its own layer |
| `Multipartition.CellHasOwner` | tests/test_Capture/BT/make_set.f:37-59 | Every cell of a rank is in the grid, and no cell is held by two ranks |
| `Multipartition.FirstLayer` | tests/test_Capture/BT/make_set.f:37-39 | On the bottom layer the ranks lie row by row |
| `Multipartition.NextLayer` | tests/test_Capture/BT/make_set.f:46-50 | One layer up the cell of a rank is one cell further in x and one less in y, around the ends; so the first layer and this step give all coordinates |
| `Multipartition.OneCellPerPlane` | tests/test_Capture/BT/make_set.f:61-69 | A rank has exactly one cell in every coordinate plane of every direction, and `slice` is its number |
| `Multipartition.SuccessorHasNext` | tests/test_Capture/BT/make_set.f:82-87 | The successor in a direction holds the next cell in that direction of every cell of a rank |
| `Multipartition.PredecessorOfSuccessor` | tests/test_Capture/BT/make_set.f:82-87 | The predecessor of the successor is the rank itself |
| `Multipartition.SuccessorOfPredecessor` | tests/test_Capture/BT/make_set.f:82-87 | And the other way round |
| `Multipartition.IntervalsMeet` | tests/test_Capture/BT/make_set.f:96-108 | The point intervals of the planes start at 0, follow each other and end at the last grid point |
| `Multipartition.OnePlanePerPoint` | tests/test_Capture/BT/make_set.f:96-108 | Every grid point lies in exactly one interval |
| `Multipartition.SizesBalanced` | tests/test_Capture/BT/make_set.f:96-108 | The sizes of two planes differ by one point at most, and the larger come first |
| `Multipartition.Partition.constructor` | tests/test_Capture/BT/header.h:66-73 | New tables are apart from each other and as long as the number of cells needs |
| `Multipartition.Partition.PlaceCells` | tests/test_Capture/BT/make_set.f:37-59 | The walk with its wrap-around and the shift compute the coordinates of all cells |
| `Multipartition.Partition.FillSlices` | tests/test_Capture/BT/make_set.f:65-69 | Every entry of `slice` is assigned, with the cell in that plane |
| `Multipartition.Partition.FindNeighbours` | tests/test_Capture/BT/make_set.f:79-87 | The six neighbours |
| `Multipartition.Partition.CutCells` | tests/test_Capture/BT/make_set.f:92-117 | Sizes and limits of all cells; it gives up exactly when some cell is thinner than 3 |
| `Multipartition.Partition.MakeSet` | tests/test_Capture/BT/make_set.f:26-119 | The whole routine |
| `FaceOrder.InKs` | tests/test_Capture/BT/copy_faces.f:79-90 | The nested loops visit exactly the points of a layer |
| `FaceOrder.NotYet` | tests/test_Capture/BT/copy_faces.f:235-246 | No point is visited twice |
| `FaceOrder.PlaceOf` | tests/test_Capture/BT/copy_faces.f:79-90 | The layout of a layer in a message: component fastest, then i, j and k |
| `FacePairs.FaceSizeIs` | tests/test_Capture/BT/define.f:23-28 | The computed face size is the number of values that the loops visit |
| `FacePairs.EndsMeet` | tests/test_Capture/BT/copy_faces.f:79-105 | A cell has an upper neighbour exactly when the facing cell of the successor has a lower one |
| `FacePairs.SameShape` | tests/test_Capture/BT/copy_faces.f:235-259 | A packed layer and the layer that receives it are walked in the same order |
| `FacePairs.SameTotals` | tests/test_Capture/BT/copy_faces.f:63-68 | Equal cells lie at equal places in the two messages |
| `FacePairs.SameMessage` | tests/test_Capture/BT/copy_faces.f:180-216 | Matching sends and receives have the same length |
| `CopyFaces.OutersApart` | tests/test_Capture/BT/copy_faces.f:233-312 | The layers around the cells of a rank do not overlap |
| `CopyFaces.PartOfMessage` | tests/test_Capture/BT/copy_faces.f:74-171 | A message holds the layer of each cell at the place given by the sizes of the cells before it |
| `CopyFaces.SideBySide` | tests/test_Capture/BT/define.f:49-60 | The six regions lie side by side in the buffer |
| `CopyFaces.FaceRank.constructor` | tests/test_Capture/BT/header.h:91-98 | A new rank holds the given field and buffers of the given length |
| `CopyFaces.FaceRank.ComputeBufferSize` | tests/test_Capture/BT/define.f:20-60 | Sizes are what will be packed and the regions lie one after the other; they fit the buffers if and only if the six sizes add up to no more than their length |
| `HaloExchange.RegionHolds` | tests/test_Capture/BT/define.f:20-60 | A region has exactly one place for every element of u that lies one or two points outside a cell at that face, inside the grid |
| `CopyFaces.FaceRank.PackBox` | tests/test_Capture/BT/copy_faces.f:79-90 | One loop nest writes the layer from its place on and nothing else |
| `CopyFaces.FaceRank.UnpackBox` | tests/test_Capture/BT/copy_faces.f:235-246 | One loop nest fills the layer from its place on and changes nothing else |
| `CopyFaces.FaceRank.Pack` | tests/test_Capture/BT/copy_faces.f:63-176 | Each region ends with exactly what its face sends |
| `CopyFaces.FaceRank.Unpack` | tests/test_Capture/BT/copy_faces.f:225-317 | Each layer with a neighbour ends with its part of the received region; everything else is kept |
| `HaloExchange.FacingCells` | tests/test_Capture/BT/make_set.f:82-87 | Across every face: the facing cell, its rank, the same shape, the same place in the message, adjacent planes |
| `HaloExchange.LayerMatches` | tests/test_Capture/BT/copy_faces.f:180-317 | An unpacked layer equals the facing layer of the facing cell |
| `HaloExchange.SamePlace` | tests/test_Capture/BT/copy_faces.f:10-18 | A point outside a face and the point sent for it have the same coordinates in the whole grid |
| `HaloExchange.EnvelopesMatch` | tests/test_Capture/BT/copy_faces.f:180-216 | The source and tag that a receive asks for are those of the send of the neighbour at the opposite face |
| `HaloExchange.EnvelopesDiffer` | tests/test_Capture/BT/copy_faces.f:199-216 | No two sends of all ranks have the same source, destination and tag, also where both neighbours are one rank |
| `HaloExchange.SendAll` | tests/test_Capture/BT/copy_faces.f:199-216 | After all sends each envelope holds what its rank packed for that face |
| `HaloExchange.DeliverTo` | tests/test_Capture/BT/copy_faces.f:180-197 | What a rank receives by envelope in each region is what the neighbour packed for it |
| `HaloExchange.CopyFacesEverywhere` | tests/test_Capture/BT/copy_faces.f:62-318 | All ranks together, with messages matched by source, destination and tag. If the cells hold one function of the grid, then afterwards so does every element one or two points outside a cell in one direction, inside the grid; all other elements are as they were |
| `HaloExchange.AllLayersRight` | tests/test_Capture/BT/copy_faces.f:10-18 | If the cells of all ranks hold one function of the grid, afterwards the layers around every cell hold it too |
| `HaloExchange.TouchedIsHalo` | tests/test_Capture/BT/copy_faces.f:225-317 | What the exchange writes is exactly: for each cell and direction the elements at -2, -1, size and size+1, the other coordinates inside the cell, as far as the grid goes |
| `BuildRanks.CheckIs` | tests/test_Capture/BT/bt.f:169-177 | The check on the cell sizes passes on a rank exactly when cells of the declared length, as many as a side has, would hold all grid points in each direction; so it passes on all ranks or on none |
| `BuildRanks.FullGridRuns` | tests/test_Capture/BT/bt.f:169-177 | With as many cells a side as compiled in, the check passes for every grid up to the compiled problem size |
| `BuildRanks.FewerCellsRun` | tests/test_Capture/BT/setup_mpi.f:35-41 | Fewer cells a side can pass it too: three of four for twelve points |
| `BuildRanks.CellDimIs` | tests/test_Capture/BT/header.h:77 | The declared length times the number of cells just exceeds the problem size |
| `BuildRanks.SampleBuffer` | tests/test_Capture/BT/header.h:77-81 | A known answer: twelve points and two cells a side give six regions of 490 numbers |
| `BuildRanks.RegionsFit` | tests/test_Capture/BT/header.h:77-81 | With at most the compiled number of cells a side, the constant `BUF_SIZE` is enough for the six regions of every rank that passes the check |
| `BuildRanks.NewRanks` | tests/test_Capture/BT/define.f:20-60 | All ranks of a grid that passes the check, with buffers of that constant, end ready for the exchange |
| `Lcg.SplitFits` | tests/test_Replay/IS/is.c:367-390 | Every intermediate of the split product is below 2^53 and every cast fits a 32-bit integer |
| `Lcg.SplitIsNext` | tests/test_Replay/IS/is.c:367-390 | The split product is the product modulo 2^46 |
| `Lcg.MaskedIsNext` | tests/test_Capture/common/randi8.f:28-33 | The wrapping 64-bit product, masked, is the product modulo 2^46, also when the wrapped product is negative |
| `Lcg.FieldIsNext` | tests/test_Capture/common/randi8_safe.f:24-33 | The 23-bit fields give the product modulo 2^46 |
| `Lcg.IterateIsPower` | tests/test_Replay/IS/is.c:335-392 | The state after any number of steps is a power of the multiplier times the seed, modulo 2^46 |
| `Lcg.JumpIsSteps` | tests/test_Replay/IS/is.c:429-449 | One step with a power of the multiplier is that many steps |
| `RandomStreams.Randlc` | tests/test_Capture/common/randdp.f:41-59 | The double form computes the next state and scales it |
| `RandomStreams.RandlcMasked` | tests/test_Capture/common/randi8.f:28-34 | The masked integer form computes the same |
| `RandomStreams.RandlcFields` | tests/test_Capture/common/randi8_safe.f:24-34 | The field form computes the same |
| `RandomStreams.FindMySeed` | tests/test_Replay/IS/is.c:410-454 | The seed of a rank is the state after its number times the largest power of two not above nn/np steps |
| `RandomStreams.HalvingsOfPower` | tests/test_Replay/IS/is.c:424-427 | The halving loop counts the exponent of a power of two |
| `RandomStreams.HalvingsBelow` | tests/test_Replay/IS/is.c:424-427 | For any number it counts the exponent of the largest power of two not above it |
| `RandomStreams.StreamsConcatenate` | tests/test_Replay/IS/is.c:463-481 | When the draws per rank are a power of two, the key streams of the ranks are consecutive pieces of the one stream |
| `RandomStreams.CreateSeq` | tests/test_Replay/IS/is.c:463-481 | Key `i` is made of draws 4i+1 to 4i+4 of the stream: 2^46 times the key is the largest multiple not above a quarter of the range times the sum of the four states |
| `RandomStreams.KeyInRange` | tests/test_Replay/IS/is.c:467-477 | Every key is in the range that the sort relies on |
| `RandomStreams.Vranlc` | tests/test_Capture/common/randdp.f:110-134 | One at a time: the first n values and the state after n steps |
| `RandomStreams.DrawnIsScaled` | tests/test_Capture/common/randdp.f:110-134 | Value i, times 2^46, is state i+1 of the stream |
| `RandomStreams.VranlcBatched` | tests/test_Capture/common/randdpvec.f:108-180 | In batches of 64: the same values and the same final state as one at a time; the saved index lies in the seed vector exactly when at least one number is asked for |
| `Lookup3.MixBack` | src/ccan/ccan/hash/hash.c:130-138 | `mix` is a bijection of the state, with its inverse |
| `Lookup3.FinalBack` | src/ccan/ccan/hash/hash.c:165-174 | `final` is a bijection of the state, with its inverse |
| `MachineWords.XorDiffers` | src/ccan/ccan/hash/hash.c:130-174 | Bit i of an exclusive or is set exactly when the bits i differ |
| `MachineWords.XorIsMachine` | src/ccan/ccan/hash/hash.c:130-174 | The exclusive or of the model is the one of machine words, for all words |
| `Lookup3.RotParts` | src/ccan/ccan/hash/hash.c:84 | A rotation moves the low bits up and brings the top bits down |
| `Lookup3.RotBack` | src/ccan/ccan/hash/hash.c:84 | Rotating by the rest of the word undoes a rotation |
| `Lookup3.BlocksBack` | src/ccan/ccan/hash/hash.c:200-208 | For a fixed key, the state after any number of full blocks is a bijection of the state before them |
| `HashBytes.InitvalKept` | src/ccan/ccan/hash/hash.c:189-222 | For a fixed key no two initial values end in the same state |
| `HashBytes.HashU32` | src/ccan/ccan/hash/hash.c:189-222 | The loop and the fall-through tail compute the hash of the zero-padded blocks |
| `HashBytes.Aligned32` | src/ccan/ccan/hash/hash.c:261-324 | The 32-bit branch computes the state of the zero-padded bytes |
| `HashBytes.Aligned16` | src/ccan/ccan/hash/hash.c:328-373 | So does the 16-bit branch |
| `HashBytes.Unaligned` | src/ccan/ccan/hash/hash.c:375-415 | So does the byte branch |
| `HashBytes.HashLittle` | src/ccan/ccan/hash/hash.c:252-421 | Both results depend on the bytes, their number and the seed only, not on the address |
| `KnownHashes.HashOfNothing` | src/ccan/ccan/hash/hash.c:252-324 | An empty key gives 3735928559 plus the initial value, modulo 2^32, from both hashes, and leaves the second result of `hashlittle` as it came |
| `KnownHashes.HashOfZero` | src/ccan/ccan/hash/hash.c:189-222 | A known answer: the word 0 with initial value 0 hashes to 76781240 |
| `KnownHashes.HashOfFour` | src/ccan/ccan/hash/hash.c:189-222 | A known answer with one block mixed: the words 1, 2, 3, 4 hash to 1716064838 |
| `KnownHashes.HashOfText` | src/ccan/ccan/hash/hash.c:252-421 | A known answer for both results, as published with lookup3: "Four score and seven years ago" gives 17770551 and ce7226e6 |
| `HashBytes.WordsAsBytes` | src/ccan/ccan/hash/hash.c:176-188 | `hash_u32` of words is `hashlittle` of their little-endian bytes |

## Left out

- Memory: `calloc` in `double_table` may fail and is modelled; `malloc` and `calloc` are assumed to succeed inside the capture and replay hooks, and freed memory is not tracked.
- HTable.Table.Add: requires fewer than three quarters of 2^30 entries, because `1 << bits` is an `int`. For a pointer that shows no bit it promises the stored multiset and words as they should be, but no further call has a contract for such a table.
- Hooks.CaptureLib.Wait: the C `MPI_Wait`, which looks the request up by address in the same way as the Fortran hook, is not a second member.
- Hooks.CaptureLib.Waitall: models the Fortran hook; the C one is `CaptureAllByHandle` in `Protocol`, with the exact condition under which it stays in step.
- Hooks.CaptureLib.Reduce: the Fortran reduce of replay lacks the trailing underscore in its name, so only the C pair is modelled.
- Hooks.CaptureLib.Alltoallv: displacements are the running sums of the counts, as `is.c` builds them; both sides transfer the first elements only.
- The MPI library: receives may write anything into pending buffers at any call; collectives in IS and BT have their meaning in the MPI standard, version 3.0 (sections 5.4, 5.8 and 5.9). A message goes to the receive that names its source, destination and tag; these are proved to differ, so the order among equal ones does not arise.
- Statuses and request handles are never restored by replay; the modelled program does not read them.
- Files, environment variables, path building, debug output, and switching dumping on and off during a run: the log is a map from counter to contents.
- Non-implemented hooks and replay stubs that do nothing.
- SortAllRanks.SortAll: buffers are as large as needed; the partial verification tables, the neighbour check of `full_verify` and the two keys that each iteration changes are not modelled.
- IS keys are mathematical integers; `key >> shift` is division by the bucket width for keys that are not negative.
- CellSolve.XSolve: exact reals in place of rounding and no zero pivot (`NoZeroPivot` says when that is so for a block row). The formulas that compute the blocks (Jacobians), right-hand sides, and `y_solve` and `z_solve`, which repeat `x_solve`, are left out: the blocks are a parameter. This method runs one row of cells in sequence; `SolveOnAllRanks` runs all of them.
- SolveRanks.SolveOnAllRanks: a send completes without waiting for its receive, and a stage is one step; the work arrays that the cells of a rank share in turn are a pair for each cell, set up anew at every stage as `lhsabinit` does.
- The square root that turns the number of ranks into the cells per side is an input of `MakeSet`.
- HaloExchange.CopyFacesEverywhere: at least two cells per side; with one the source computes without an exchange. Ranks pack, send, receive and unpack in rounds rather than at their own pace; no rank reads what another writes.
- RandomStreams.FindMySeed: the debug print is left out; `long` does not overflow.
- HashBytes.HashLittle: a little-endian machine; the big-endian form, `hash_any` and the stable variants are left out, and so is any claim about the quality of a hash.
- Timers, set-up parameters, result printing and build scripts.
