# Verified model of a post-quantum lock for CKB

The repository is a lock script for the CKB blockchain that checks ML-DSA-65 signatures, the SDK that builds and signs
transfers for it, and a patched copy of the `bytes` crate with which the script is built. This project models five of its
parts and proves what each of them is for.

**The buffer allocator of `bytes`.** `BytesMut` hands out mutable windows of an allocation and `Bytes` shared ones, and a
tagged word says who has to give the allocation back. `BufferHeap` holds the heap (allocations, `Shared` boxes, handles, and
a ledger of all allocations and deallocations), its invariant, and the transitions that keep it; `BufferOps` and `FrozenOps`
give each operation as a function on that heap; `ByteBuffers.Buffers` is the class whose methods perform the operations,
field by field, and whose contracts relate the bytes of the handles before and after. `DataWord` is the packed word.
`CloneRace` is an interleaving system for threads that clone, drop and convert one promotable `Bytes` and its clones, and
`SingleThread` runs any program of these operations on the plain cells that stand for atomics on riscv64.

**The cursor algebra.** `Cursors` nests slices, `Chain` and `Take` in any way and proves that they act as one byte sequence.
`Readers` pours them into the buffers of the allocator and proves that the mutual recursion of `put` and `copy_to_bytes` ends.

**Addresses.** `Numbers` (shifts, masks, exclusive or and digits on unbounded integers), `Bech32` (the Bech32m checksum of
BIP-350, as a linear code), `Gf32` (the same checksum as the remainder of a division by a polynomial over the field with 32
elements), `Bip350` (a test vector), `Regroup` (`convertBits` with its 32-bit accumulator) and `Address` (the full format
of CKB RFC 0021).

**Transfers.** `Molecule`, `Transaction` and `TransactionSize` are the serializers for the layouts of CKB RFC 0008, with a
strict decoder and exact sizes; `Layout` says, without the decoder, at which byte each field lies. `Transfer` is the builder
and `Selection` what it achieves.

**Witnesses.** `Witness` holds the writer and the two parsers of the lock field and the lock script itself; `Signing` connects
a signed transfer with the script that judges it. Hashing, signing and verifying are functions in a record `Crypto`; the only
assumption, `Signing.Matching`, is that a key verifies what its secret key signed, in the sizes of section 4 of FIPS 204.

`Common` holds shared vocabulary. A thrown error is `Err`; a panic is `ok == false`.

## Model

| member | source | states |
|---|---|---|
| DataWord.WordFields | patches/bytes/src/bytes_mut.rs:1072-1084 | the packed word gives its offset and capacity class back, a new offset disturbs neither the class nor the tag, and every packable offset fits the pointer width |
| DataWord.OriginalCapacity | patches/bytes/src/bytes_mut.rs:1502-1516 | the recorded capacity is the largest power of two not above the true one, zero below 1 KiB, capped at 64 KiB |
| BufferHeap.Guarantees | patches/bytes/src/bytes_mut.rs:1021-1069 | in every heap that satisfies the invariant, a count is the number of live handles of its box, a live window lies in an allocation not yet given back, and no window shares a byte with another mutable one |
| BufferHeap.RebuiltSize | patches/bytes/src/bytes.rs:1336-1339 | whatever kind of handle frees an allocation, the start and size it rebuilds are the true ones |
| BufferHeap.UniqueMeansSole | patches/bytes/src/bytes_mut.rs:1486-1499 | a count of one (or a direct handle) means that no other handle is on the allocation |
| BufferHeap.NothingLeaks | patches/bytes/src/bytes_mut.rs:1453-1483 | without live handles nothing is allocated and each allocation ever made was given back with its start and size |
| BufferHeap.ForkKeeps | patches/bytes/src/bytes_mut.rs:1061-1069 | splitting or cloning a shared handle into separate windows keeps the whole-heap invariant and every other handle's bytes |
| BufferHeap.PromoteKeeps | patches/bytes/src/bytes_mut.rs:1021-1055 | moving a vector into a box keeps the invariant and every other handle |
| BufferHeap.ReleaseKeeps | patches/bytes/src/bytes_mut.rs:1126-1141 | dropping a handle of any kind keeps the invariant and the bytes of all others |
| BufferOps.ContiguousIsFull | patches/bytes/src/bytes_mut.rs:996-1014 | when the fast path of `try_unsplit` applies, disjointness forces length to equal capacity, so the capacities may be added |
| BufferOps.PlanFits | patches/bytes/src/bytes_mut.rs:607-787 | every branch of `reserve_inner` has the exclusive access and the room that it relies on |
| BufferOps.PlanServes | patches/bytes/src/bytes_mut.rs:607-787 | `reserve_inner` refuses or panics exactly when the allocation cannot be reused in place and, if it may allocate, the new size passes the largest one; in terms of offset, length, allocation size and count |
| BufferOps.SmallRequestGranted | patches/bytes/src/bytes_mut.rs:607-787 | `reserve` does not panic while twice the allocation, and window plus request, stay within the largest size |
| BufferOps.LeavesAgain | patches/bytes/src/bytes.rs:1550-1580 | dropping a handle that came to share a box brings the count back to what it was and gives no memory back |
| BufferOps.JoinInPlace | patches/bytes/src/bytes_mut.rs:996-1014 | the fast path of `try_unsplit` neither allocates nor gives anything back: the box keeps the handle that was extended |
| ByteBuffers.Buffers.MakeVec | patches/bytes/src/bytes_mut.rs:147-149 | a new vector with room for the data and the capacity, or a panic exactly beyond the largest size |
| ByteBuffers.Buffers.ToBytesMut | patches/bytes/src/bytes_mut.rs:927-942 | the vector becomes a `BytesMut` with the same bytes |
| ByteBuffers.Buffers.Drop | patches/bytes/src/bytes_mut.rs:1126-1141 | the handle is gone, the last one gives the allocation back, all others keep their bytes |
| ByteBuffers.Buffers.Truncate | patches/bytes/src/bytes_mut.rs:433-438 | the contents are cut to the length, the capacity stays |
| ByteBuffers.Buffers.SplitOff | patches/bytes/src/bytes_mut.rs:319-334 | contents and capacity are divided at `at` in place: the two handles share one box, the windows are adjacent and start where the old one did, the count is one more (two after promotion), nothing is allocated; a panic exactly beyond the capacity |
| ByteBuffers.Buffers.SplitTo | patches/bytes/src/bytes_mut.rs:394-411 | the front goes to the new handle, the rest stays, in place and sharing one box as for `split_off`; a panic exactly beyond the length |
| ByteBuffers.Buffers.Advance | patches/bytes/src/bytes_mut.rs:959-994 | the first bytes are dropped in place and the window moves by exactly as many, also when the offset no longer fits the word and the vector is promoted |
| ByteBuffers.Buffers.ReserveInner | patches/bytes/src/bytes_mut.rs:607-787 | same contents and room for the request in every representation, exactly when it can be granted, or nothing changed; in place whenever the allocation has the room, else at least doubled for a sole owner, else a copy with at least the recorded original capacity; the class is kept |
| ByteBuffers.Buffers.Reserve | patches/bytes/src/bytes_mut.rs:591-603 | same contents and room for the request, got in the way `reserve_inner` promises, or a panic exactly when neither spare capacity, nor reuse, nor an allocation of at most the largest size gives it |
| ByteBuffers.Buffers.TryReclaim | patches/bytes/src/bytes_mut.rs:836-847 | true, exactly when there is spare capacity or the allocation can be reused, gives room in the same allocation; false leaves everything as it was |
| ByteBuffers.Buffers.ExtendFromSlice | patches/bytes/src/bytes_mut.rs:866-881 | the data is appended, all other handles keep their bytes; a panic exactly when `reserve` panics |
| ByteBuffers.Buffers.Unsplit | patches/bytes/src/bytes_mut.rs:907-916 | the result shows both contents one after the other on every path, in place when the windows are contiguous, with the window of each path and its exact panic condition |
| ByteBuffers.Buffers.SplitThenUnsplit | patches/bytes/src/bytes_mut.rs:319-334 | `split_off` then `unsplit` restores the bytes always, and the capacity exactly when the cut is inside the contents or at the end of a non-empty handle |
| ByteBuffers.Buffers.Freeze | patches/bytes/src/bytes_mut.rs:245-264 | a `Bytes` that shows the same window of the same allocation, whatever the representation and offset; nothing is allocated, and bytes not shared before are not shared afterwards |
| ByteBuffers.Buffers.ToBytes | patches/bytes/src/bytes.rs:961-993 | a vector becomes an empty, promotable or shared `Bytes` with the same contents |
| ByteBuffers.Buffers.Clone | patches/bytes/src/bytes.rs:1463-1547 | a second handle to the same window of the same allocation: both are in one box, the count is one more than before or two after the promotion of the first clone, neither is unique, and nothing is allocated or given back |
| ByteBuffers.Buffers.Slice | patches/bytes/src/bytes.rs:369-410 | a handle to exactly that range of the same allocation, sharing a box with its origin, or an empty one for an empty range; a panic exactly outside |
| ByteBuffers.Buffers.BytesSplitOff | patches/bytes/src/bytes.rs:495-519 | `self` and the result divide the bytes at `at` in place and share one box; at either end one of them is the untouched handle and the other empty |
| ByteBuffers.Buffers.BytesSplitTo | patches/bytes/src/bytes.rs:544-568 | the result and `self` divide the bytes at `at` in place and share one box; at either end one of them is the untouched handle and the other empty |
| ByteBuffers.Buffers.BytesTruncate | patches/bytes/src/bytes.rs:588-601 | the contents are cut in place, with as many sharers as before and nothing allocated; a promotable handle is split first so that it keeps reaching the end of its allocation |
| ByteBuffers.Buffers.BytesAdvance | patches/bytes/src/bytes.rs:706-717 | the first bytes are dropped and the window moves by exactly as many, a panic exactly past the end |
| ByteBuffers.Buffers.IsUnique | patches/bytes/src/bytes.rs:1324-1334 | true exactly for a direct handle or a count of one, and then no other handle is on the allocation |
| ByteBuffers.Buffers.ToVec | patches/bytes/src/bytes_mut.rs:1731-1764 | the contents at the front of a vector, for `BytesMut` and every kind of `Bytes`, in the same allocation when it is not shared |
| ByteBuffers.Buffers.ToMut | patches/bytes/src/bytes.rs:1412-1445 | a `BytesMut` with the same contents on all paths, at the same place of the same allocation when it is not shared |
| ByteBuffers.Buffers.TryIntoMut | patches/bytes/src/bytes.rs:637-643 | succeeds exactly for a handle without co-owners, and then in the same allocation; otherwise nothing changes |
| ByteBuffers.Buffers.RunToTheEnd | patches/bytes/src/bytes_mut.rs:1453-1483 | after any sequence of operations and dropping what is left, every allocation was given back exactly once, at its start and with its size |
| CloneRace.NoUseAfterFree | patches/bytes/src/bytes.rs:1463-1580 | no enabled action of any thread touches a freed box or takes a count below zero |
| CloneRace.LoserLeavesBuffer | patches/bytes/src/bytes.rs:1479-1547 | losing the compare-and-swap changes neither the buffer nor the handles nor the installed count |
| CloneRace.ActionKeeps | patches/bytes/src/bytes.rs:1463-1580 | every atomic step of every thread keeps the invariant |
| CloneRace.RaceIsSafe | patches/bytes/src/bytes.rs:1479-1580 | after any interleaving at most one box was installed, the count is the number of live handles, and the buffer is disposed of once, only after the last handle |
| CloneRace.AloneCounted | patches/bytes/src/bytes.rs:1412-1445 | between reading a count of one and taking the box nothing can change: the count still is one and the handle is the only one |
| CloneRace.HandsOut | patches/bytes/src/bytes.rs:1463-1547 | the last step of every clone call, won, lost or without a race, adds exactly one handle, on the installed box, and exactly one to its count |
| CloneRace.Progress | patches/bytes/src/bytes.rs:1463-1580 | a thread in the middle of a clone, a release or a conversion can always go on, whatever the others are doing |
| CloneRace.WaitFree | patches/bytes/src/bytes.rs:1479-1547 | in any interleaving a clone call takes at most three more steps of its own after its load |
| SingleThread.AtomicUsize.FetchAdd | patches/bytes/src/loom.rs:53-59 | returns the old value and adds with 64-bit wrap-around |
| SingleThread.AtomicUsize.FetchSub | patches/bytes/src/loom.rs:60-66 | returns the old value and subtracts with 64-bit wrap-around |
| SingleThread.AtomicUsize.CompareExchange | patches/bytes/src/loom.rs:67-80 | swaps exactly when the current value matches and returns the old one |
| SingleThread.AtomicPtr.CompareExchange | patches/bytes/src/loom.rs:101-114 | swaps exactly when the current value matches and returns the old one |
| SingleThread.OpRuns | patches/bytes/src/bytes.rs:1194-1260 | cloning, dropping and converting the original or a clone are each a run of the racing system by one thread that loses no swap |
| SingleThread.Handles.Clone | patches/bytes/src/bytes.rs:1463-1547 | on the cells, a clone leaves the state that such a run reaches, or aborts exactly when a count has passed the threshold |
| SingleThread.Handles.Drop | patches/bytes/src/bytes.rs:1550-1580 | on the cells, a drop counts down, and the one that finds one frees the box and the buffer |
| SingleThread.Handles.IntoVec | patches/bytes/src/bytes.rs:1379-1406 | on the cells, the last handle swaps the count to zero and takes the buffer, any other one is dropped |
| SingleThread.Handles.IntoMut | patches/bytes/src/bytes.rs:1412-1445 | on the cells, the last handle reads a count of one and takes the buffer, any other one is dropped |
| SingleThread.RunOnShims | patches/bytes/src/loom.rs:34-119 | any program on the shims is a run of the racing system from its start in which no swap is lost, the cells stand for its state, and once all handles are gone the buffer was disposed of once |
| Cursors.RemainingIsLength | patches/bytes/src/buf/chain.rs:135-137 | `remaining` is the length of the flat sequence, saturated at `usize::MAX`, for any nesting |
| Cursors.ChunkIsPrefix | patches/bytes/src/buf/chain.rs:139-145 | `chunk` is a prefix, empty only when nothing is left |
| Cursors.DropIsSuffix | patches/bytes/src/buf/take.rs:145-149 | the reader after `advance` stands for the flat sequence without its front |
| Cursors.DropDrop | patches/bytes/src/buf/chain.rs:147-163 | two advances leave the same reader as one |
| Cursors.Advance | patches/bytes/src/buf/chain.rs:147-163 | succeeds exactly within the length and consumes that many bytes |
| Readers.CopyToBytes | patches/bytes/src/buf/chain.rs:172-188 | a new `Bytes` with exactly the first bytes, which nobody shares, and the reader without them; a panic exactly when there are too few or too many for one allocation; every other handle untouched; it terminates |
| Readers.Put | patches/bytes/src/bytes_mut.rs:1205-1231 | all that is left of any reader goes to the end of the `BytesMut`, which takes over a new allocation when it has none; it panics exactly when the buffer cannot take it, and terminates together with `copy_to_bytes` |
| Cursors.Cursor.TryCopyToSlice | patches/bytes/src/buf/buf_impl.rs:1161-1179 | fills the destination with exactly the first bytes, or reports both sizes and changes nothing |
| Cursors.Cursor.Skip | patches/bytes/src/buf/buf_impl.rs:2901-2910 | in place, the reader loses exactly its first bytes |
| Bech32.Polymod | sdk/src/address.ts:56-69 | the loops on 32-bit integers compute the fold of the rounds, and the state stays below 2^30 so that no shift overflows; `Gf32.FoldIsRemainder` says what the fold is |
| Bech32.ExpandHrp | sdk/src/address.ts:71-81 | the two loops produce the high parts, a zero and the low parts |
| Bech32.HrpExpandSplits | sdk/src/address.ts:71-81 | each character is 32 times its high part plus its low part, on either side of a zero |
| Gf32.GeneratorIs | sdk/src/address.ts:57 | the five constants are the coefficients 29, 22, 20, 21, 29, 18 of the generator polynomial times 1, x, x^2, x^3, x^4 in GF(2)[x] modulo x^5 + x^3 + 1 |
| Gf32.FeedbackIsMultiple | sdk/src/address.ts:60-66 | what a round feeds back are the six products of the leading coefficient with the generator's coefficients in that field |
| Gf32.StepDivides | sdk/src/address.ts:59-67 | one round is one step of long division by the generator polynomial |
| Gf32.FoldIsRemainder | sdk/src/address.ts:56-69 | for any number of words, `polymod` computes the remainder of the division |
| Bip350.ShortestVector | sdk/src/address.ts:83-91 | the prefix `a` without data has the checksum words and the spelling `a1lqfn3a` that BIP-350 lists |
| Bech32.FoldLinear | sdk/src/address.ts:56-69 | the checksum is linear over GF(2) in state and words together |
| Bech32.FoldBound | sdk/src/address.ts:56-69 | the state stays below 2^30 for any number of words |
| Bech32.StepZeroInjective | sdk/src/address.ts:60-66 | a round with a zero word takes only the zero state to zero |
| Bech32.ChecksumUnique | sdk/src/address.ts:83-91 | for every prefix and data, exactly one six-word suffix verifies: the created checksum |
| Bech32.BurstDetected | sdk/src/address.ts:89-91 | two data parts of any length that differ only inside six consecutive words never both verify |
| Regroup.ConvertBits | sdk/src/address.ts:93-117 | with its wrapping accumulator it regroups the unbounded bit stream; strict, it throws exactly when there is no exact regrouping |
| Regroup.PadThenUnpad | sdk/src/address.ts:93-117 | padded to five bits and read strictly, any bytes come back |
| Regroup.UnpadThenPad | sdk/src/address.ts:93-117 | whatever is read strictly is written back as the same words |
| Regroup.ToWords | sdk/src/address.ts:120 | `convertBits(payload, 8, 5, true)` is the padded writing, never an error |
| Regroup.FromWords | sdk/src/address.ts:151 | `convertBits(words, 5, 8, false)` is the strict reading |
| Address.HashTypeRoundTrip | sdk/src/address.ts:26-54 | the two hash-type mappings are inverse to each other |
| Address.Bech32mAccepted | sdk/src/address.ts:119-153 | a string decodes to a prefix and payload exactly when it is in one letter case and its lower-case form is their encoding |
| Address.AddressAccepted | sdk/src/address.ts:155-183 | an address decodes to a network and script exactly when its lower-case form is their encoding |
| Address.AddressRoundTrip | sdk/src/address.ts:155-183 | encoding succeeds exactly for a 32-byte code hash and a hash type in range, and decoding gives script and network class back |
| Address.AddressCanonical | sdk/src/address.ts:168-183 | every accepted address encodes back to its own lower-case form |
| Address.AddressPrefix | sdk/src/address.ts:12-14 | main-network addresses begin with `ckb1`, all others with `ckt1` |
| Address.WholeAlphabet | sdk/src/address.ts:6 | all thirty-two words are spelled as in the test vector of BIP-350 that holds each of them |
| Address.FullFormat | sdk/src/address.ts:155-166 | the encoded payload is a zero, the code hash, 0 for `data`, 1 for `type` or twice the version, and the arguments, under the prefix of the network |
| Molecule.LeExact | sdk/src/util.ts:39-55 | little-endian bytes and numbers below the span determine each other |
| Molecule.LeAt | sdk/src/util.ts:39-55 | byte `i` is the number divided by the `i`-th power of 256, modulo 256 |
| Molecule.ConcatBytes | sdk/src/util.ts:28-37 | the buffer filled at a moving offset holds the chunks one after the other |
| Molecule.CollectOffsets | sdk/src/wallet.ts:731-738 | the running offset gives the start of every item and the total, and throws only when the total does not fit 32 bits |
| Molecule.WriteDynVec | sdk/src/wallet.ts:731-740 | the whole method writes the size, the offsets and the items |
| Molecule.DynVecSize | sdk/src/wallet.ts:731-740 | it throws exactly when the size does not fit 32 bits, and otherwise gives exactly that size |
| Molecule.FixVecExact | sdk/src/wallet.ts:727-729 | bytes are read as items of a fixed size exactly when they are their serialization |
| Molecule.BytesExact | sdk/src/wallet.ts:719-721 | likewise for byte strings |
| Molecule.DynVecExact | sdk/src/wallet.ts:731-744 | bytes are read as items exactly when they are their dynamic vector or table |
| Layout.FixVecLayout | sdk/src/wallet.ts:727-729 | the number of items comes first and item `i` lies at four plus `i` times the item size |
| Layout.DynVecLayout | sdk/src/wallet.ts:731-744 | the size comes first, the start of item `i` is written at `4 + 4 * i`, and the item lies there |
| Layout.BytesLayout | sdk/src/wallet.ts:719-721 | a byte string is its length and its bytes |
| Layout.OutPointLayout | sdk/src/wallet.ts:711-713 | an out point is 36 bytes: the hash, then the index at 32 |
| Layout.CellDepLayout | sdk/src/wallet.ts:675-679 | a cell dep is 37 bytes: the out point, then 0 exactly for code |
| Layout.CellInputLayout | sdk/src/wallet.ts:681-685 | an input is 44 bytes: `since`, then the out point at 8 |
| Layout.ScriptLayout | sdk/src/wallet.ts:699-705 | a script has its code hash at 16, its hash type at 48 and its arguments at 53 |
| Layout.CellOutputLayout | sdk/src/wallet.ts:691-697 | an output has its capacity at 16, its lock at 24 and its type script, if any, behind the lock |
| Layout.RawLayout | sdk/src/wallet.ts:664-673 | a raw transaction has its version and its five vectors in the order and at the places of the schema |
| Layout.CellDepPlace | sdk/src/wallet.ts:675-679 | cell dep `i` of a serialized transaction lies at `36 + 37 * i` |
| Layout.HeaderPlace | sdk/src/wallet.ts:715-717 | header dep `i` is its hash, at its multiple of 32 in the vector behind the cell deps |
| Layout.InputPlace | sdk/src/wallet.ts:681-685 | input `i` lies at its multiple of 44 in the vector behind the deps |
| Layout.OutputPlace | sdk/src/wallet.ts:687-689 | output `i` lies where its offset says, in the vector behind the inputs |
| Layout.DataPlace | sdk/src/wallet.ts:723-725 | the data of output `i` lies where its offset says, in the last vector |
| Transaction.ScriptOptExact | sdk/src/wallet.ts:707-709 | an absent and a present script are never written alike |
| Transaction.CellOutputExact | sdk/src/wallet.ts:691-709 | bytes are read as an output exactly when they are its serialization |
| Transaction.RawTransactionExact | sdk/src/wallet.ts:664-744 | the decoder accepts exactly the serializations of transactions with 32-byte hashes, and returns the transaction |
| Transaction.PreimageUnambiguous | sdk/src/wallet.ts:664-673 | no two well-formed transactions have the same hash preimage |
| TransactionSize.RawMeasured | sdk/src/wallet.ts:664-744 | serialization succeeds exactly when the numbers and the size fit, and the size is told from the transaction alone |
| Transfer.CandidatesAre | sdk/src/wallet.ts:489-508 | the cells considered are exactly those under the sender's lock, in ascending order of capacity |
| Transfer.SortedStable | sdk/src/wallet.ts:489-499 | cells of equal capacity keep their order |
| Transfer.SelectCells | sdk/src/wallet.ts:501-577 | the loop stops at the first prefix of the sender's cells whose attempt is not skipped |
| Transfer.BuildTransferTransaction | sdk/src/wallet.ts:480-580 | the builder's result is that search over its candidates, after the check of the amount |
| Selection.SignedMeasured | sdk/src/wallet.ts:630-655 | with any lock field of the fixed length the transaction has the size that was estimated |
| Selection.TentativeEstimate | sdk/src/wallet.ts:639-647 | the estimate throws exactly when something does not fit, and grows by exactly 68 bytes with each input |
| Selection.TryOutcome | sdk/src/wallet.ts:513-571 | an attempt throws exactly when something does not fit, and otherwise is done exactly when its cells pay |
| Selection.BuiltTransfer | sdk/src/wallet.ts:480-580 | it spends the shortest paying prefix, inputs equal outputs plus fee, the outputs are the payment and the change, each at least its minimum, and the fee is for the size without the change output |
| Selection.MinimumIsOccupied | sdk/src/wallet.ts:622-628 | the minimum of an output is one CKB for each byte of its serialization and data, without the headers of its tables |
| Selection.MinimumOfLock | sdk/src/wallet.ts:622-628 | an output without data and type script needs 41 CKB and one more for each byte of the lock arguments |
| Selection.DefaultFee | sdk/src/wallet.ts:513-571 | at the default rate the fee is the size less 89 bytes and the change arguments when there is change |
| Selection.FeeIsCeiling | sdk/src/wallet.ts:639-642 | the fee is the least whole number that pays the rate for the size |
| Selection.BuildsWhenPossible | sdk/src/wallet.ts:480-580 | with room for everything, the builder fails exactly when no prefix pays |
| Selection.SelectionComplete | sdk/src/wallet.ts:489-577 | if the builder gives up, no choice of the sender's cells could pay and leave a change cell, when each cell is worth its own 68 bytes |
| Selection.ExactMatchMissed | sdk/src/wallet.ts:530-548 | an exact match that is not a prefix is not found, so completeness cannot include it |
| Selection.DustSpoils | sdk/src/wallet.ts:530-548 | a cell not worth its own fee can make the builder give up, so completeness needs its condition |
| Witness.BuildWitnessLock | sdk/src/witness.ts:18-38 | the buffer holds both fields with their lengths, or an error exactly for other lengths |
| Witness.ParseWitnessExact | contracts/dillithium-lock/src/main.rs:123-135 | the lock script's parser accepts exactly the encodings followed by anything |
| Witness.ParseWitnessLockExact | sdk/src/witness.ts:40-72 | the wallet's parser accepts exactly the encodings of the fixed lengths |
| Witness.StricterParser | sdk/src/witness.ts:40-72 | the wallet accepts what the script accepts, of the fixed lengths and without a suffix, with the same result |
| Witness.WitnessArgsRoundTrip | sdk/src/wallet.ts:649-655 | a reader of the witness table finds the lock field that was put there |
| Witness.PiecesExact | contracts/dillithium-lock/src/main.rs:123-135 | the parser reads a key and a signature exactly where the two lengths, in four bytes each, say they are |
| Witness.WitnessArgsExact | contracts/dillithium-lock/src/main.rs:69-76 | bytes are read as witness arguments exactly when they are the table of these, for any lock, input type and output type |
| Witness.LockFieldIs | contracts/dillithium-lock/src/main.rs:69-76 | the script finds the lock of any witness, next to any other fields |
| Witness.ParameterSizes | sdk/src/constants.ts:3-6 | the lengths are those of ML-DSA-65, computed from its parameters |
| Witness.ProgramExact | contracts/dillithium-lock/src/main.rs:48-121 | the script returns zero exactly when everything loads and the lock field starts with a key and signature that unlock the cell |
| Witness.ProgramCodes | contracts/dillithium-lock/src/main.rs:84-118 | with a key and signature at the front of the lock field, each error code names exactly the first check that fails |
| Witness.ProgramMalformed | contracts/dillithium-lock/src/main.rs:52-82 | code 1 exactly for arguments of another length, code 2 exactly when something does not load or no key and signature are written at the front of the lock field |
| Signing.BuildSignedTransfer | sdk/src/wallet.ts:582-616 | fails exactly when nothing can be built or a key or signature has the wrong size; otherwise returns the built transaction with one well-formed witness per input, the first with the key and its signature of the transaction hash, of exactly the reported size, and accepted by the lock script when the keys match |
| Signing.BuiltPlaceholders | sdk/src/wallet.ts:630-637 | before it is signed, a built transaction has one well-formed witness per input, the first with a lock field of zeros of the final length and the others empty |
| Signing.SizeIsKept | sdk/src/wallet.ts:582-600 | the reported size is the serialized size of the signed transaction |
| Signing.SignedTransferAccepted | sdk/src/wallet.ts:602-616 | every transfer that can be built is signed without an error and accepted by the lock script |
| Signing.AcceptedExample | sdk/src/wallet.ts:602-616 | there are options, keys and functions that meet the assumptions of the acceptance theorem |

## Left out

- Pointers: an address is an allocation number and an offset; handles are numbered entries of maps, so pointer provenance and zero-size allocations at dangling addresses (here blocks of size zero) are not modelled.
- Unwinding: a panic is reported and leaves the heap unchanged; what destructors do while a panic unwinds, such as dropping the argument of `unsplit`, is not modelled.
- The even and odd promotable vtables are one representation; the static vtable is modelled only for empty handles; `from_owner` is not modelled.
- Hardware memory orderings: steps are sequentially consistent. The abort on too many handles is modelled on the shims; counts in the racing system are unbounded.
- Uninitialised bytes beyond the length; growth policy of the allocator beyond the guaranteed size.
- `resize`, `put_bytes`, `spare_capacity_mut`, the fixed-width `get_*` and `put_*` families, comparisons, formatting, readers and iterators: they would only add easy members.
- Cursors.Cursor.TryCopyToSlice: adapters are values that a step replaces, not objects that hold other objects, so aliasing between adapters is not captured.
- Readers.Put: readers are made of slices, so the bytes that `copy_to_bytes` returns are always new and `try_into_mut` always succeeds; the branch for bytes shared by others is not reached. Sizes are those of a 64-bit target.
- Cursors.Advance: nothing is said about a reader after a panic.
- Hexadecimal strings are byte sequences, and hash types a datatype, so malformed hexadecimal and non-canonical spellings such as `data01` are outside the model.
- Letter case is that of ASCII; a non-ASCII character is never part of an accepted CKB address.
- Transfer.BuildTransferTransaction: all serializer errors are one outcome, `Throws`; the wrapping of errors in `validateTransferRequest` is not modelled.
- Molecule.WriteDynVec: returns the bytes as a value; the buffer underneath is that of `ConcatBytes`.
- The virtual machine: the transaction hash it loads is taken to be the hash of the same serialized bytes, and a script group is led by the first input under its lock.
- The JSON-RPC client, polling, wallet queries, the command line and key files: network, clock and file behaviour.
- The internals of ML-DSA-65 and Blake2b.
