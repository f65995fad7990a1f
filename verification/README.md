# A Dafny model of the Gridcoin client's core

This project models nine parts of the Gridcoin client and proves what they promise.

- **The peer address manager.** Two tables of hashed slots, a random list and an address map that must agree after every operation, and the file they are saved in. `AddrState`, `AddrInvariant`, `AddrOps`, `AddrEffects`, `AddrCalls`, `AddrCounts`, `AddrDisk`, `AddrLinks`, `AddrRoundTrip`, `AddrFormat` and `AddrRuns` hold the specification and its proofs; `AddrMan` holds the class that works on arrays.
- **Partial Merkle trees.** Proofs that transactions are in a block: `MerkleTree`, `MerkleProof`, `MerkleSize`, `MerkleBlock`. The root in a block's header: `MerkleRoot`.
- **Base 58.** Conversion between bases in place, with and without a checksum: `Powers`, `Radix`, `Base58`.
- **Fixed-width integers, targets and trust.** Limb arithmetic, the compact encoding of targets, the work behind a block, the stake kernel test and the retarget rules: `Limbs`, `LimbLoops`, `LimbShifts`, `LimbBits`, `ArithUint`, `Compact`, `Targets`, `Retarget`, `PowerFactor`.
- **The block assembler and the coinstake.** Selection of pooled transactions: `BlockLedger`, `BlockSelection`, `BlockOrder`, `BlockRank`, `BlockAssembler`. Rewards and their division: `MrcRewards`, `Sidestakes`, `Coinstake`, `StakeSplitter`, `SplitSettings`. The validator that checks the division: `SidestakeRules`, `ClaimChecks`. Both together: `StakedBlock`.
- **Message framing.** Sender, wire and receiver: `Framing`, `Net`.
- **The transaction database.** Pending batches and the repair after abandoned blocks: `TxDb`, `TxDbStore`.
- **The encrypted key store.** The unlock protocol as a state machine and the class that steps it: `KeyStore`, `CryptoKeyStore`.
- **The bounded map.** `LimitedMap`.

Where the source updates things in place, the model is a class or an array and each method is proved against a function of the state; the properties are then proved of those functions. `dafny verify dfyconfig.toml` checks everything.

`Basics` holds what several parts share.

Some statements of the source's own comments do not hold of its code. The model follows the code, shows an input and proves the exact condition:

- the limit of 2N-1 flag bits of a partial Merkle tree (`MerkleSize.FlagBits`, `MerkleSize.DocumentedBoundFails`) and the limit on its size that follows from it (`MerkleSize.SizeInBytes`, `MerkleSize.DocumentedSizeFails`);
- that the validator of mandatory sidestakes cannot overcount (`SidestakeRules.AcceptsExactly`, `SidestakeRules.RefusedSplit`);
- that any overflow in scaling a target gives the limit (`Retarget.WrappedIsScaled`, `Retarget.ProductWraps`).

The same is done for these, where code meets code:

- duplicates in a saved file of addresses can leave an entry that no lookup finds (`AddrLinks.LinkSurvives`, `AddrRoundTrip.DuplicatesBreakTheLink`);
- a new address that pushes such an entry of the same address out of its last slot is not found afterwards either (`AddrCalls.AddLinks`, `AddrCalls.DuplicateHidesNewcomer`);
- a negative length limit of the base-58 decoder does not refuse a text of only spaces (`Base58.LimitIsExact`, `Base58.SpacePassesNegativeLimit`);
- the size limit of a block is checked before the output of a claim is counted (`BlockAssembler.SizeExactly`, `BlockAssembler.PassTheLimit`);
- a research reward that cannot be signed for is taken off the coinstake output but stays in the reward that is split (`StakedBlock.StakeComesBack`, `StakedBlock.StakeIsDrawn`, `SidestakeRules.SameTotal`);
- the miner leaves out a foundation output worth nothing that the validator counts on (`ClaimChecks.StartsAgree`, `StakedBlock.JudgedWrong`, `StakedBlock.MissingFoundation`);
- a master key of the wrong size leaves plain keys in a store that says it is encrypted (`KeyStore.WrongMasterKey`, `KeyStore.EmptyMasterKey`); the one caller, in src/wallet/wallet.cpp, always makes a key of the right size, so only a new caller could meet it.

## Model

| member | source | states |
|---|---|---|
| AddrRuns.Reachable | src/addrman_impl.h:397-411 | After every run from the empty tables, for all random draws and all loaded streams: both counters are within the capacity of their tables, the random list has exactly their sum, every new entry has between one and eight references and is found by the search of Good_, Select_ never searches an empty table, and (if no loaded stream held duplicates that survive pruning) writing and reading the tables loses nothing |
| AddrRuns.StepKeeps | src/addrman.cpp:243-358 | Every operation, with every draw and every clock, keeps A1, A2, A3, tried entries at their own slot, both counters and the address link; addresses stay unique, and after a load they are unique if and only if the duplicates of the stream were all pruned |
| AddrRuns.Run | src/addrman_impl.h:397-411 | The invariants hold after any sequence of operations |
| AddrRuns.RunKeepsUnique | src/addrman.cpp:98-121 | No two entries ever share an address along a run in which the duplicates of every loaded stream are pruned |
| AddrRuns.DistinctIsClean | src/addrman_impl.h:290-363 | A stream without duplicate addresses meets that condition |
| AddrRuns.EmptyIsConsistent | src/addrman.cpp:578-598 | The cleared tables satisfy every invariant |
| AddrInvariant.CreateKeeps | src/addrman.cpp:111-121 | A created entry extends every invariant, as an entry that is not in a table yet |
| AddrInvariant.SwapKeeps | src/addrman.cpp:123-148 | Swapping two places of the random list keeps each entry's record of its own place |
| AddrInvariant.DeleteKeeps | src/addrman.cpp:150-169 | Deleting an unreferenced entry leaves no trace in the random list, the address map or the counters |
| AddrInvariant.DropSlotKeeps | src/addrman.cpp:171-187 | Emptying a new slot lowers exactly its holder's count and leaves an entry without slots outside the tables |
| AddrInvariant.PlaceKeeps | src/addrman.cpp:347-350 | Filling a free slot that is the entry's own raises exactly its count |
| AddrInvariant.DemoteKeeps | src/addrman.cpp:220-223 | A tried entry taken out of its slot is again an untried entry without references, counted as neither |
| AddrInvariant.PromoteKeeps | src/addrman.cpp:236-241 | An entry without references put in its own empty tried slot satisfies the invariants as a tried entry |
| AddrOps.ClearNewKeeps | src/addrman.cpp:171-187 | Clearing a new slot keeps the invariants, deleting the holder exactly when that was its last slot |
| AddrOps.DropRefsKeeps | src/addrman.cpp:189-204 | Taking an entry out of its buckets one by one keeps the invariants at every step |
| AddrOps.DropRefsEmpties | src/addrman.cpp:189-204 | After all buckets the entry has no slot and a count of zero, which is what the assert after the loop demands |
| AddrOps.EvictKeeps | src/addrman.cpp:206-235 | Moving the occupant of a tried slot back to the new table keeps the invariants while the mover is still in no table |
| AddrOps.MakeTriedKeeps | src/addrman.cpp:189-241 | Moving an entry to the tried table keeps the invariants, including the eviction it may cause |
| AddrOps.GoodAlwaysFinds | src/addrman.cpp:269-284 | The exit of Good_ for an entry that is in no bucket is unreachable: wherever the search starts, it finds one |
| AddrOps.GoodKeeps | src/addrman.cpp:243-290 | Good_ keeps all invariants for every address, time and draw |
| AddrOps.AdmitKeeps | src/addrman.cpp:336-356 | The end of Add_ keeps all invariants whether the entry takes the slot or is dropped |
| AddrOps.AddKeeps | src/addrman.cpp:292-358 | Add_ keeps all invariants for every address, source, penalty, clock and draw |
| AddrOps.UpdateKeeps | src/addrman.cpp:360-377 | Changing only the statistics of a found entry keeps all invariants |
| AddrOps.GetAddrKeeps | src/addrman.cpp:506-527 | GetAddr_ keeps the invariants while shuffling and returns distinct entries, none terrible, at most 2500 of them and at most 23 percent |
| AddrEffects.DropRefsForm | src/addrman.cpp:189-204 | Exactly the slots of the entry in the first buckets are emptied, no other slot changes |
| AddrEffects.EvictMoves | src/addrman.cpp:206-235 | The occupant of a tried slot ends up, with one reference, in the new slot its own source leads to; only that slot changes and only its previous holder is displaced |
| AddrEffects.MakeTriedMoves | src/addrman.cpp:189-241 | The entry becomes tried in its own slot with no references; if that slot was free, only its own new slots change, every other entry survives and none appears |
| AddrEffects.MakeTriedReturns | src/addrman.cpp:206-241 | If the slot was taken, the entry that was there is back in the new table at its own slot with one reference, all others but a displaced one survive, and none appears |
| AddrEffects.AdmitTakes | src/addrman.cpp:336-351 | Unless its slot is kept by another, an entry holds it with one reference more; the previous holder loses one reference or is gone with its address; no other slot or entry changes |
| AddrEffects.AdmitYields | src/addrman.cpp:338-356 | If its slot is kept by another, no slot changes; an entry with references stays as it is, one without is forgotten with its address |
| AddrEffects.MakeTriedUnlinks | src/addrman.cpp:189-241 | A move takes an address out of the address map only if it displaces an entry from its last slot |
| AddrCalls.GoodMoves | src/addrman.cpp:243-290 | A successful connection to an untried entry puts it in its own tried slot and in no new slot, with the time recorded and no attempts; an entry found there goes back to its own new slot; all others but one displaced by that are as before |
| AddrCalls.GoodAgain | src/addrman.cpp:260-267 | For an entry already tried only its record changes |
| AddrCalls.GoodIgnores | src/addrman.cpp:243-257 | An unknown address, or one known on another port, changes nothing |
| AddrCalls.AddReports | src/addrman.cpp:292-358 | The result is true exactly for an unknown routable address; one that is not routable changes nothing |
| AddrCalls.AddEnters | src/addrman.cpp:330-351 | An unknown address whose slot is free, or held by an entry that is terrible or has another slot, gets a fresh entry in that slot with the given service, services, source and time less the penalty and one reference; the holder loses the slot; all else is as before |
| AddrCalls.AddLinks | src/addrman.cpp:330-351 | The fresh entry is then found under its address, if and only if the entry it pushed out of its last slot did not have the same address; with unique addresses always |
| AddrCalls.DuplicateHidesNewcomer | src/addrman.cpp:98-121 | Tables with one entry that no address leads to: adding its address again leaves the new entry unknown |
| AddrCalls.AddForgets | src/addrman.cpp:338-356 | Otherwise the address stays unknown and no slot, entry or address changes |
| AddrCalls.AddHears | src/addrman.cpp:301-351 | A known address gets its services added and a stale time moved on; it gets one more slot if and only if the news is newer, the entry is untried with fewer than eight slots, the draw is in its favour and the slot is free or held by another entry that is terrible; nothing else changes |
| AddrCalls.GetAddrShares | src/addrman.cpp:506-527 | A peer is given every address that is not terrible, unless the count reaches 2500 or 23 percent; the entries are as before |
| AddrCalls.SourceGroupSpread | src/addrman_impl.h:109-121 | What one group of sources says reaches at most 64 new buckets |
| AddrCalls.GroupSpread | src/addrman_impl.h:117-121 | One group of addresses reaches at most 8 tried buckets |
| AddrCounts.SizeIsCount | src/addrman.cpp:600-604 | The size reported is the number of entries, which is the sum of both counters |
| AddrCounts.NewFits | src/addrman_impl.h:277-279 | By counting slots, the new counter never exceeds the bound the loader checks |
| AddrCounts.TriedFits | src/addrman_impl.h:280-282 | By counting slots, the tried counter never exceeds the bound the loader checks |
| AddrCounts.SelectFinds | src/addrman.cpp:379-426 | Select_ searches a table only when it holds an occupied slot, all of whose occupants are of the right kind, and returns nothing exactly when there is nothing to choose |
| AddrDisk.UnserializeIsSafe | src/addrman_impl.h:260-363 | Whatever the bytes on disk say, a successful load gives tables that satisfy every invariant |
| AddrFormat.UnserializeReads | src/addrman_impl.h:260-363 | Reading throws on exactly the streams that are not of the documented form: key size, counts within the tables, as many records, and for each bucket a count and that many indices |
| AddrFormat.UnserializeRestores | src/addrman_impl.h:283-363 | What any readable stream leaves in the tables: each tried slot has the first tried record that leads there; a new record is there exactly if it has a slot; with usable slot data slots are held as stored and none that could be held is left out; otherwise each slot has the first record whose source leads there |
| AddrFormat.PruneExactly | src/addrman_impl.h:350-361 | Exactly the new entries without a slot are deleted |
| AddrFormat.SerializeLayout | src/addrman_impl.h:175-246 | The written file: version 1, 0x20, the key, both counts, the bucket count with bit 30 flipped, a record of each new entry, then of each tried entry |
| AddrFormat.SerializeReadable | src/addrman_impl.h:204-246 | Every consistent state is written as a file of the documented form |
| AddrRoundTrip.RoundTrip | src/addrman_impl.h:204-363 | Reading what was written gives the same tables up to renaming ids: same slots, counts, tried entries, addresses and counters, nothing lost but the time of the last try |
| AddrRoundTrip.UnserializeUnique | src/addrman_impl.h:260-363 | A stream without duplicate addresses loads to tables without duplicate addresses |
| AddrRoundTrip.DuplicatesBreakTheLink | src/addrman_impl.h:290-308 | A stream that holds one address twice loads, and leaves an entry that no lookup finds; AddrLinks.LinkSurvives says exactly when that happens |
| AddrLinks.LinkSurvives | src/addrman_impl.h:283-363 | For every stream that loads: each entry is found under its address afterwards if and only if, in the tables as read, any two entries with one address are both untried and without references, which is the guard of the pruning loop |
| AddrLinks.PruneKeepsSole | src/addrman_impl.h:350-361 | Pruning in any order of ids ends with unique addresses exactly when every entry that stays was linked and alone at its address before |
| AddrMan.AddrManImpl.SwapRandom | src/addrman.cpp:123-148 | Swaps in place, and the tables are those of the swap specification |
| AddrMan.AddrManImpl.Delete | src/addrman.cpp:150-169 | Removes the entry with both asserts holding |
| AddrMan.AddrManImpl.ClearNew | src/addrman.cpp:171-187 | Empties one cell of the new table and deletes a holder left without references; both asserts hold |
| AddrMan.AddrManImpl.MakeTried | src/addrman.cpp:189-241 | Every assert on the way holds and the arrays end as the specification says, eviction included |
| AddrMan.AddrManImpl.Good | src/addrman.cpp:243-290 | The search in the arrays always succeeds, and the tables are those of which GoodMoves, GoodAgain and GoodIgnores speak |
| AddrMan.AddrManImpl.SearchBucket | src/addrman.cpp:269-279 | The search over the rotated buckets finds the first bucket that holds the entry, or reports none |
| AddrMan.AddrManImpl.Add | src/addrman.cpp:292-358 | The arrays and the result are those of which AddReports, AddEnters, AddForgets and AddHears speak |
| AddrMan.AddrManImpl.Attempt | src/addrman.cpp:360-377 | Counts a try of a known service and nothing else |
| AddrMan.AddrManImpl.Connected | src/addrman.cpp:529-547 | Refreshes the time of a known service at most every twenty minutes and nothing else |
| AddrMan.AddrManImpl.SetServices | src/addrman.cpp:549-565 | Sets the services of a known service and nothing else |
| AddrMan.AddrManImpl.GetAddr | src/addrman.cpp:506-527 | The shuffle in place returns the selection of which GetAddrShares speaks |
| AddrMan.AddrManImpl.Clear | src/addrman.cpp:578-598 | All cells of both arrays are empty and all maps and counters with them |
| AddrMan.AddrManImpl.constructor | src/addrman.cpp:578-598 | A new manager is the empty one |
| AddrMan.AddrManImpl.Serialize | src/addrman_impl.h:204-258 | The loops write the specified stream, and the two asserts on the counters never fire |
| AddrMan.AddrManImpl.Unserialize | src/addrman_impl.h:260-363 | The loops read, place and prune as specified, and a stream that ends early or is out of bounds is refused |
| MerkleBlock.ProofIsSound | src/merkleblock.cpp:137-175 | Any bits and hashes that give a block's root report only ids of that block, at their true places, in order; or else the reading itself exhibits a collision: a node on the way whose children as read differ from the block's and join to the same hash |
| MerkleBlock.ProofIsComplete | src/merkleblock.cpp:114-175 | The tree built for any selection, packed and unpacked, reports exactly the selected ids and places, and the true root unless two sibling hashes in the explored part are equal |
| MerkleBlock.ProveAndCheck | src/merkleblock.cpp:13-30 | From ids asked for to ids reported: exactly those of the block that were asked for, in order, with the root refused exactly for equal siblings |
| MerkleBlock.PicksAreTheSelected | src/merkleblock.cpp:114-133 | The places reported are exactly the selected ones, in ascending order |
| MerkleProof.ExtractSound | src/merkleblock.cpp:75-112 | At every node: extraction that gives the node's hash reports only leaves below that node, truthfully and in order, or meets such a colliding pair at or below that node |
| MerkleProof.ExtractBuilt | src/merkleblock.cpp:56-112 | At every node extraction undoes building: it consumes exactly what was written and gives the node's hash and its selected leaves |
| MerkleProof.BuiltNotBroken | src/merkleblock.cpp:56-112 | Reading a tree that was built never meets a colliding pair |
| MerkleProof.HashesBound | src/merkleblock.h:35-40 | A partial tree has at most as many hashes as transactions, and at most one more than matches times height |
| MerkleProof.BitsCount | src/merkleblock.h:42-48 | The number of flag bits is twice the hashes less one, plus the explored nodes with a single child |
| MerkleSize.LoneBound | src/merkleblock.h:42-48 | Only nodes on the right edge can have a single child, so there are at most as many as the height |
| MerkleSize.LoneIffRagged | src/merkleblock.h:42-48 | There is an explored node with a single child exactly when the selection reaches the ragged right edge of the tree |
| MerkleSize.FlagBits | src/merkleblock.h:42-48 | The documented limit of 2N-1 flag bits holds if and only if the selection does not reach the ragged edge; in general the height is to be added |
| MerkleSize.DocumentedBoundFails | src/merkleblock.h:42-48 | Three transactions with the last selected need four flag bits for two hashes |
| MerkleSize.SizeInBytes | src/merkleblock.h:31-34 | The size in bytes passes 10 + ceil(32.25 N) by at most one byte for eight levels; it stays within it if and only if the explored single children fit in the flag bytes that limit leaves room for, at every number of hashes |
| MerkleSize.DocumentedSizeFails | src/merkleblock.h:31-34 | A block of 1028 transactions, all selected, is larger than the documented size |
| MerkleTree.HeightBound | src/merkleblock.cpp:126-129 | The tree is no higher than it has leaves |
| MerkleTree.WidthCounts | src/merkleblock.h:66-72 | The shifted width is exactly the number of nodes that have a leaf below them |
| MerkleTree.RootCovers | src/merkleblock.cpp:120-128 | The height found by the loop is one at which a single node covers all leaves |
| MerkleBlock.PackBits | src/merkleblock.h:103-106 | Unpacking the packed bytes gives the bits again, padded with zeroes to a whole byte |
| MerkleBlock.PartialMerkleTree.constructor | src/merkleblock.cpp:114-133 | Builds the specified tree |
| MerkleBlock.PartialMerkleTree.TraverseAndBuild | src/merkleblock.cpp:56-73 | Appends exactly the bits and hashes of the node's specification |
| MerkleBlock.PartialMerkleTree.ParentOfMatch | src/merkleblock.cpp:58-61 | True exactly when a selected leaf is below the node |
| MerkleBlock.PartialMerkleTree.TraverseAndExtract | src/merkleblock.cpp:75-112 | Moves the shared counters and lists as the specification of extraction says, setting the failure flag in the same cases |
| MerkleBlock.PartialMerkleTree.ExtractMatches | src/merkleblock.cpp:137-175 | Answers as specified for any bits and hashes; RefusesSizes and NoSlack say what is refused |
| MerkleBlock.RefusesSizes | src/merkleblock.cpp:141-160 | No transactions, more than 16666, more hashes than transactions, fewer bits than hashes, or a tree found bad before: the root is null |
| MerkleBlock.NoSlack | src/merkleblock.cpp:166-174 | Two accepted proofs of which one continues the other have the same hashes, the same number of bytes of bits and the same answer |
| MerkleBlock.NoSpareHash | src/merkleblock.cpp:172-173 | An accepted proof with any further hashes is refused |
| MerkleBlock.NoSpareByte | src/merkleblock.cpp:169-170 | An accepted proof with any further byte of bits is refused |
| MerkleBlock.NoMissingHash | src/merkleblock.cpp:85-89 | An accepted proof without its last hashes is refused |
| MerkleBlock.FillingIgnored | src/merkleblock.cpp:169-170 | The filling of the last byte does not matter |
| MerkleProof.ExtractPrefix | src/merkleblock.cpp:75-112 | A reading that meets nothing wrong does not depend on what follows |
| MerkleRoot.ComputeMerkleRoot | src/consensus/merkle.cpp:40-57 | The root computed row by row in place is the root of the tree that proofs are read from, and the flag is set exactly if two children of one node have the same hash |
| MerkleRoot.RowIsNodes | src/consensus/merkle.cpp:40-57 | Every hash of a row is the hash of the tree's node at that place |
| MerkleRoot.RefusedIffMutated | src/consensus/merkle.cpp:42-47 | A block can have a proof refused for equal siblings if and only if its header's computation raises the flag |
| MerkleBlock.PartialMerkleTree.Serialize | src/merkleblock.h:91-108 | The bytes written unpack to the bits |
| MerkleBlock.PartialMerkleTree.Unserialize | src/merkleblock.h:91-108 | The bits read are those packed in the bytes |
| MerkleBlock.SelectIds | src/merkleblock.cpp:13-30 | Marks exactly the ids that were asked for |
| Base58.DecodeEncode | src/base58.cpp:38-125 | Decoding undoes encoding for every byte string, leading zero bytes included |
| Base58.EncodeDecode | src/base58.cpp:38-125 | Encoding undoes decoding for every accepted text, up to surrounding spaces |
| Base58.EncodeBufferFits | src/base58.cpp:97 | n bytes never need more base-58 digits than the buffer has, for every n |
| Base58.DecodeBufferFits | src/base58.cpp:52 | n base-58 digits never need more bytes than the buffer has, for every n |
| Base58.ToBase58 | src/base58.cpp:94-112 | The in-place buffer ends with exactly the base-58 digits of the number, without leading zeroes |
| Base58.EncodeBase58 | src/base58.cpp:87-125 | The text is a one for every leading zero byte and then the number in base 58, with the characters of AlphabetChars and the meaning of EncodeMeans |
| Base58.ReadNumber | src/base58.cpp:50-76 | The in-place buffer gives the number's bytes, or refuses at a bad character or where the length limit is passed |
| Base58.DecodeBase58 | src/base58.cpp:38-138 | Accepts exactly the texts DecodesExactly names, and gives the bytes they stand for within the limit |
| Base58.AlphabetChars | src/base58.cpp:18 | A digit is written as the character at its place in the alphabet |
| Base58.AlphabetDigits | src/base58.cpp:19-36 | A character is read as its place in the alphabet, and as -1 exactly if it is not in it |
| Base58.EncodeMeans | src/base58.cpp:87-125 | A text has a one for every leading zero byte, and its digits make the number the bytes make |
| Base58.DecodesExactly | src/base58.cpp:38-85 | A text is refused if and only if it has a zero character or, between its surrounding spaces, a character outside the alphabet |
| Base58.EmptyIffSpaces | src/base58.cpp:38-85 | The empty byte string is the meaning of exactly the texts of only spaces |
| Base58.LimitIsExact | src/base58.cpp:38-85 | The length limit refuses exactly the longer results, if and only if the limit is not negative or the text is not only spaces |
| Base58.SpacePassesNegativeLimit | src/base58.cpp:38-85 | One space decodes to nothing under a limit of -1 |
| Base58.EncodeBase58Check | src/base58.cpp:140-147 | The text encodes the payload followed by four bytes of its hash |
| Base58.DecodeBase58Check | src/base58.cpp:154-177 | Gives the payload exactly when its last four bytes are the hash of the rest and it is within the limit |
| Base58.CheckRoundTrip | src/base58.cpp:140-177 | Decoding with checksum undoes encoding with checksum exactly for payloads within the limit |
| Base58.CheckAcceptsOnly | src/base58.cpp:154-169 | An accepted text is, up to spaces, the encoding of the payload it gives |
| Radix.Absorb | src/base58.cpp:63-72 | The carry loop multiplies the number in the buffer and adds a digit, in place, with no carry left over |
| ArithUint.BaseUint.AddAssign | src/arith_uint256.h:133-143 | Addition modulo the width, also of a number to itself |
| ArithUint.BaseUint.Increment | src/arith_uint256.h:171-178 | Adds one modulo the width |
| ArithUint.BaseUint.Complement | src/arith_uint256.h:67-73 | The largest number less the value |
| ArithUint.BaseUint.Negate | src/arith_uint256.h:75-82 | The additive inverse modulo the width |
| ArithUint.BaseUint.SubAssign | src/arith_uint256.h:145-149 | Subtraction modulo the width, also from itself |
| ArithUint.BaseUint.Mul32Assign | src/arith_uint256.cpp:55-65 | Multiplication by a word modulo the width, with all intermediate results in 64 bits |
| ArithUint.BaseUint.AddRow | src/arith_uint256.cpp:71-78 | One row of the schoolbook product |
| ArithUint.BaseUint.MulAssign | src/arith_uint256.cpp:67-81 | Multiplication modulo the width, also by itself, with all intermediate results in 64 bits |
| ArithUint.BaseUint.ShiftLeftAssign | src/arith_uint256.cpp:21-36 | Multiplication by a power of two modulo the width, for any shift |
| ArithUint.BaseUint.ShiftRightAssign | src/arith_uint256.cpp:38-53 | Division by a power of two, for any shift |
| ArithUint.BaseUint.DivideBit | src/arith_uint256.cpp:97-104 | One bit of the quotient: what is left and the quotient so far always account for the dividend |
| ArithUint.BaseUint.DivAssign | src/arith_uint256.cpp:83-107 | The quotient rounded down; a zero divisor is refused with the number already cleared |
| ArithUint.BaseUint.CompareTo | src/arith_uint256.cpp:109-119 | The sign of the difference of the values |
| ArithUint.BaseUint.Bits | src/arith_uint256.cpp:177-190 | The one number of bits that the value needs |
| ArithUint.BaseUint.GetLow64 | src/arith_uint256.h:243-247 | The value modulo 2^64 |
| ArithUint.BaseUint.EqualTo | src/arith_uint256.cpp:121-133 | Whether the value is the given number |
| LimbShifts.LeftIsProduct | src/arith_uint256.cpp:21-36 | The words that or-ing leaves are those of the product by the power of two modulo the width |
| LimbShifts.RightIsQuotient | src/arith_uint256.cpp:38-53 | The words that or-ing leaves are those of the quotient by the power of two |
| LimbBits.DividingStep | src/arith_uint256.cpp:97-104 | Subtract-and-set at one place keeps the division invariant whichever way the comparison goes |
| Compact.SetCompact | src/arith_uint256.cpp:210-228 | The value is mantissa times 256^(size-3) modulo 2^256; the overflow flag is set exactly when that product is 2^256 or more, the sign flag exactly for a nonzero value with the sign bit |
| Compact.OverflowExact | src/arith_uint256.cpp:223-226 | The three size tests are equivalent to the product reaching 2^256 |
| Compact.GetCompact | src/arith_uint256.cpp:230-251 | The code of a number has the minimal byte count that leaves the sign bit free; both asserts hold |
| Compact.LeadingBytes | src/arith_uint256.cpp:232-245 | Dividing the mantissa by 256 where its top bit is set gives the same code as one byte more from the start |
| Compact.CompactRoundTrip | src/arith_uint256.cpp:210-251 | Decoding the code of a number gives the number with its low bytes cleared, the right sign and no overflow |
| Compact.CompactFixpoint | src/arith_uint256.cpp:210-251 | Coding what a code of a number stands for, with either sign, gives the same code |
| Compact.CompactOrder | src/arith_uint256.cpp:230-251 | Codes of unsigned numbers are ordered as the numbers |
| Compact.DecodedOrder | src/arith_uint256.cpp:210-251 | Quantising two numbers never swaps them |
| Targets.GetBlockTrust | src/chain.cpp:32-45 | The trust is 2^256 / (target + 1) rounded down, or zero for a negative, overflowing or zero target; the division is never by zero and nothing wraps |
| Targets.NotAllOnes | src/chain.cpp:40-44 | No code names the largest number, so adding one to a target does not wrap |
| Targets.TrustFormula | src/chain.cpp:40-44 | The rearranged quotient equals 2^256 / (target + 1) |
| Targets.TrustAntitone | src/chain.cpp:32-45 | An easier target never counts for more work |
| Targets.TrustPositive | src/chain.cpp:32-45 | Exactly the usable targets count for any work |
| Targets.Widen | src/arith_uint256.h:293-296 | Widening keeps the value |
| Targets.KernelMet | src/miner.cpp:942-965 | The kernel test is exact: hash at most target times weight, with no wrap in 320 bits |
| Retarget.ScaleTargetExp2 | src/gridcoin/staking/difficulty.cpp:54-82 | For every limit the code with its shifts, overflow test and clamps computes the clamped shift of the product modulo 2^256; for limits below 2^236, the clamped product of the target and the factor |
| Retarget.WrappedIsScaled | src/gridcoin/staking/difficulty.cpp:64-82 | The code returns the clamped true product if and only if the shift is 256 places up or more, or the product fits in 256 bits, or what is left of it still reaches the limit, or the true result is at most one; a product that does not fit gives the limit if and only if the first or the third of these holds |
| Retarget.CutShows | src/gridcoin/staking/difficulty.cpp:67-78 | Cutting a product that does not fit makes every shift of fewer than 256 places smaller |
| Retarget.ProductWraps | src/gridcoin/staking/difficulty.cpp:67-82 | The documentation says any overflow gives the limit; a target and limit of 2^255 scaled by one give 1, since nothing checks the product |
| Retarget.FactorBounds | src/gridcoin/staking/difficulty.cpp:61-65 | The cubic never leaves 64 bits and the factor stays between one and two |
| PowerFactor.FactorNearRoot | src/gridcoin/staking/difficulty.cpp:61-65 | The factor is within a fifth of a percent of the number whose 65536th power is 2^f, that is of two to the power of the fraction |
| PowerFactor.FactorNearPower | src/gridcoin/staking/difficulty.cpp:61-65 | The same without roots: the 65536th power of the factor is 2^f but for the 65536th powers of 0.998 and 1.002 |
| PowerFactor.Doubling | src/gridcoin/staking/difficulty.cpp:61-65 | The factor squared is the factor of twice the fraction, but for one part in five hundred |
| Retarget.ScaledMonoExponent | src/gridcoin/staking/difficulty.cpp:54-82 | A larger exponent never gives a smaller target, also across the point where the fraction starts over |
| Retarget.ScaledMonoTarget | src/gridcoin/staking/difficulty.cpp:54-82 | A larger target never scales to a smaller one |
| Retarget.CutIsExact | src/gridcoin/staking/difficulty.cpp:70-78 | For a positive target the cut at 256 places changes nothing |
| Retarget.ShiftBack | src/gridcoin/staking/difficulty.cpp:76-77 | Shifting up and back gives the number again exactly when nothing was shifted out |
| Retarget.WholeDoublings | src/gridcoin/staking/difficulty.cpp:54-82 | A whole number of doublings is exact up to the clamps |
| Retarget.RetargetIdentity | src/gridcoin/staking/difficulty.cpp:84-93 | A block exactly on time leaves the target as it was |
| Retarget.RetargetMonotone | src/gridcoin/staking/difficulty.cpp:84-93 | Slower blocks never make the next target harder, and it stays between one and the limit, for every spacing |
| Retarget.RetargetCodesMonotone | src/gridcoin/staking/difficulty.cpp:123-130 | The same of the codes that go into block headers |
| Retarget.EasingMonotone | src/gridcoin/staking/difficulty.cpp:95-104 | Waiting longer never makes the target harder, never below the base target and never above the limit |
| Retarget.EasingReachesLimit | src/gridcoin/staking/difficulty.cpp:95-104 | Easing ends at the limit if and only if the base target is within 64 doublings of it |
| Retarget.RetargetLogLinear | src/gridcoin/staking/difficulty.cpp:84-93 | The code computes the target for which these properties are proved |
| Retarget.RetargetExponentIs | src/gridcoin/staking/difficulty.cpp:88-91 | The exponent is the floor of 2 (t - 90) / (990 * 0.693147) in 65536ths, with t within 2500 |
| Retarget.EaseTarget | src/gridcoin/staking/difficulty.cpp:95-104 | The code computes the target for which these properties are proved |
| Retarget.FloorDiv | src/gridcoin/staking/difficulty.cpp:47-51 | Truncating division with the correction is division rounded down |
| BlockAssembler.CreateRestOfTheBlock | src/miner.cpp:346-867 | The loop ends, and its block has each transaction once and after its pooled parents, each no later than the block, with the least rate and fee and room within both limits, having passed every check on top of those before it, ordered by exact fee rate and hash wherever dependencies leave a choice; the totals are those of its transactions and within the limits; claims and sidestake updates are bound as the rules say; every offered transaction left out failed a check or has a pooled parent that is not in; and the size limit is passed exactly in the case SizeExactly names |
| BlockAssembler.AllDeserving | src/miner.cpp:629-752 | Each transaction taken is no later than the block, pays at least the least rate (given for 1000 bytes) and the least fee at its place, fits in bytes and signature operations, and can be fetched and connected |
| BlockAssembler.Assembler.Collect | src/miner.cpp:431-598 | Every pooled transaction ends up dropped, waiting with each of its pooled parents told about it, or in the heap |
| BlockAssembler.Assembler.Inputs | src/miner.cpp:526-565 | The parents waited for are exactly the pooled ones not on disk; a missing input drops the transaction |
| BlockAssembler.Assembler.Enter | src/miner.cpp:567-574 | The transaction is listed once with each of its parents |
| BlockAssembler.Assembler.TakeGreatest | src/miner.cpp:622-627 | What is taken off the heap is not lower than anything that was in it |
| BlockAssembler.Assembler.Consider | src/miner.cpp:629-815 | The checks in the miner's order accept exactly the candidates that fit |
| BlockAssembler.Assembler.Include | src/miner.cpp:817-847 | Putting a candidate in the block keeps every invariant of the totals and of the dependencies |
| BlockAssembler.Assembler.Release | src/miner.cpp:831-847 | All that waited for the new transaction, and only they, are told; those with no other missing parent become candidates |
| BlockAssembler.Assembler.Select | src/miner.cpp:620-848 | The selection loop ends with an empty heap and all invariants |
| BlockAssembler.SizeExactly | src/miner.cpp:632-637 | Every transaction fits on top of those before it, and the block passes the size limit if and only if it is empty and started too large, or its last transaction is a claim that fits without its output and not with it |
| BlockAssembler.PassTheLimit | src/miner.cpp:786-795 | A run: with one claim of 99 bytes in the pool, 900 bytes used and a limit of 1000, the block has 1033 bytes |
| BlockSelection.IncludedSums | src/miner.cpp:820-823 | Sizes, signature operations and fees stay the sums over the block, the operations below 20000, the size below the limit plus one claim output |
| BlockSelection.IncludedClaims | src/miner.cpp:755-800 | The claims recorded stay exactly those in the block, at most one for an owner, none of the staker's, within the output limit |
| BlockSelection.IncludedSideStake | src/miner.cpp:806-812 | At most one sidestake update is ever bound |
| BlockOrder.Appended | src/miner.cpp:695-696 | A ready candidate goes in after all its pooled parents |
| BlockRank.RankedMore | src/miner.cpp:97-117 | Nothing that was ready when a place was filled ranks above what filled it |
| BlockLedger.LowerRateIsExact | src/policy/fees.h:33-69 | The comparison by whole parts and remainders orders rates exactly as the ratios, for negative fees too |
| BlockLedger.LowerIsTotal | src/miner.cpp:104-117 | Candidates with different hashes are never tied |
| BlockLedger.LowerIsTransitive | src/miner.cpp:104-117 | The order of candidates is transitive |
| MrcRewards.CreateMRCRewards | src/miner.cpp:190-339 | The coinstake gets the staker's fees on the stake output, then the foundation's, then the owners', as PaidOut and FoundationQuotient say; the reward grows by the staker's fees; a reward that cannot be signed for is taken off the output but not off the reward |
| MrcRewards.PaidOut | src/miner.cpp:218-282 | Over the claims that are paid: owners get subsidy less fee where that is not zero, the foundation the sum of its parts of the fees, the staker the sum of the fees less that |
| MrcRewards.FoundationQuotient | src/miner.cpp:245-249 | The foundation's part of a fee is the fee times its fraction with the remainder dropped, toward zero for negative fees |
| MrcRewards.FoundationGets | src/miner.cpp:245-253 | Of all fees the foundation gets at most its fraction, and less than one unit a claim short of it |
| MrcRewards.SubsidiesDivide | src/miner.cpp:231-259 | Each subsidy that is paid goes exactly to its owner, the staker and the foundation |
| MrcRewards.RewardsConserve | src/miner.cpp:284-301 | The coinstake grows by exactly the subsidies paid if and only if the foundation's fees are not negative |
| MrcRewards.PaidWithinLimit | src/miner.cpp:218-282 | With no more claims than slots, a claim is paid exactly when its owner has an active beacon |
| MrcRewards.PaymentsNotNegative | src/miner.cpp:236-255 | With fees from zero to the subsidy no payment is negative |
| Coinstake.SplitKeeps | src/miner.cpp:1039-1366 | The split conserves the total, keeps the empty output first and a stake output second, stays within the output limit and leaves the outputs of the claims as an unchanged suffix |
| Coinstake.SplitFair | src/miner.cpp:1144-1344 | When the reward is part of the stake output and amounts round down, no output is negative and the staker keeps at least the part of that output that is not reward |
| Coinstake.PiecesEven | src/miner.cpp:1315-1337 | The parts of the stake but the last are equal, and the last is greater by less than their number |
| SplitSettings.InputComesBack | src/miner.cpp:1144-1344 | Whatever was taken off the stake output after the reward was put on it: the staker gets the input back if and only if nothing was taken or the sidestakes draw no more than what is left of the reward; and no output is negative if and only if they draw no more than the stake output |
| SplitSettings.StakerGets | src/miner.cpp:1297-1344 | The outputs to the staker are together the stake output less what the settings draw |
| SplitSettings.SidesMoved | src/miner.cpp:1144-1151 | What the sidestakes get does not depend on the input, only on the reward and the settings |
| SplitSettings.DrawnWithinReward | src/miner.cpp:1166-1293 | Sidestakes never draw more than the reward |
| SplitSettings.VoluntaryMeets | src/miner.cpp:1166-1247 | The loop over the voluntary sidestakes pays a destination at least an amount exactly when the settings say so: an entry that is usable, within the room and before the whole would be passed, with its share, or with what is left if it completes the whole |
| Sidestakes.MandatoryFair | src/miner.cpp:1257-1293 | Mandatory sidestakes never take more than their part of the reward |
| Sidestakes.VoluntaryFair | src/miner.cpp:1166-1247 | Voluntary sidestakes never take more than their part of the reward, the last one that completes the whole included |
| Sidestakes.VoluntaryEarmarked | src/miner.cpp:1166-1247 | A voluntary sidestake is paid only to an entry that is valid, worth a cent of the reward and not the staker's own |
| StakeSplitter.SplitCoinStakeOutput | src/miner.cpp:1039-1366 | The loops over the output vector produce the split for which these properties are proved |
| StakeSplitter.PayMandatory | src/miner.cpp:1254-1294 | The loop stops at the limit or where the whole would be exceeded, as specified |
| StakeSplitter.AllocateSidestakes | src/miner.cpp:1166-1247 | The loop skips, stops and pays as specified |
| StakeSplitter.PushStakes | src/miner.cpp:1315-1337 | Equal parts with the remainder on the last: nothing is lost to rounding |
| StakeSplitter.ComputeEligible | src/gridcoin/consensus/block_rewards.cpp:81-134 | The eligible mandatory sidestakes are those that are not dust and not to the staker |
| SidestakeRules.ValidateMandatorySidestakeOutputs | src/gridcoin/consensus/block_rewards.cpp:179-293 | The matching loop accepts exactly when every output has a destination and the number of eligible sidestakes paid at least their amount is what is required and within the limit |
| SidestakeRules.AcceptsExactly | src/gridcoin/consensus/block_rewards.cpp:228-246 | With nothing taken off the stake output, the validator, with its own account of what was staked, accepts the miner's split if and only if the settings lead to no voluntary sidestake that pays for a mandatory one that was eligible but not drawn |
| SidestakeRules.AcceptsServed | src/gridcoin/consensus/block_rewards.cpp:179-293 | Whatever was taken off: accepted if and only if, of the sidestakes eligible for what the validator takes to be the reward, as many as required and no more than the limit were drawn or are paid for by the settings |
| SidestakeRules.AcceptsOtherDestinations | src/gridcoin/consensus/block_rewards.cpp:228-246 | Settings that name no eligible sidestake that was not drawn are always accepted |
| SidestakeRules.ExtrasMeet | src/miner.cpp:1166-1247 | The voluntary outputs meet exactly the mandatory sidestakes that the settings pay for |
| SidestakeRules.AcceptsWithinLimit | src/gridcoin/consensus/block_rewards.cpp:267-291 | With no more eligible sidestakes than the limit every split of the miner is accepted, also after something was taken off |
| SidestakeRules.RefusedSplit | src/gridcoin/consensus/block_rewards.cpp:228-246 | Five eligible sidestakes, a limit of four and a voluntary sidestake to the fifth: this split is refused, though the comment says overcounting cannot happen |
| SidestakeRules.SameTotal | src/gridcoin/consensus/block_rewards.cpp:444-449 | The total the validator computes from its own stake input is the reward the miner split if and only if nothing was taken off the stake output |
| ClaimChecks.CheckMRCRewards | src/gridcoin/consensus/block_rewards.cpp:540-640 | Passes exactly when there are no more claims than allowed, each claimed owner has an active beacon and the outputs searched give each owner what the claim is worth; the sums are those over the claims |
| ClaimChecks.PaidToOwner | src/gridcoin/consensus/block_rewards.cpp:591-604 | Total and number of the outputs to an owner among as many last outputs as there are claims, and none if there are not that many |
| ClaimChecks.PaidIsClaimed | src/miner.cpp:218-282 | What the miner pays for claims and keeps of them is what the validator adds up over them |
| ClaimChecks.ClaimsAnyOrder | src/gridcoin/consensus/block_rewards.cpp:562-629 | The validator's sums do not depend on the order in which the block holds the claims |
| ClaimChecks.CountedExactly | src/gridcoin/consensus/block_rewards.cpp:591-604 | The validator counts the outputs of the claims as written if and only if there are enough outputs to search, the owners differ, and none of the outputs searched before them goes to an owner |
| ClaimChecks.HoldsIsCountable | src/gridcoin/consensus/block_rewards.cpp:591-611 | Where payments are worth something the claims pass only if they are counted right |
| ClaimChecks.StartsAgree | src/gridcoin/consensus/block_rewards.cpp:427-442 | The validator takes the outputs of claims to start where the miner put them if and only if there is no claim, or the foundation has no part in fees, or its part is not zero; else it starts one output early |
| ClaimChecks.CheckReward | src/gridcoin/consensus/block_rewards.cpp:389-514 | Accepts exactly if the whole claim is no more than owed, the staker gets no more than owed, the mandatory sidestakes are there and the foundation has its fees if they are expected |
| ClaimChecks.TotalClaimed | src/validation.cpp:1274-1275 | The total claimed is what the coinstake puts out beyond what it takes in |
| StakedBlock.StakeComesBack | src/miner.cpp:190-339 | From the reward through the claims to the split: the staker gets at least the stake back if and only if the research subsidy could be signed for, or was zero, or the sidestakes draw no more than the reward without it |
| StakedBlock.StakeIsDrawn | src/miner.cpp:310-317 | 1000 CENT staked, a reward of 100 CENT of which 90 cannot be signed for, all of it sidestaked: 910 CENT come back |
| StakedBlock.ClaimsAreFound | src/gridcoin/consensus/block_rewards.cpp:540-640 | The validator's account of the miner's coinstake: the same fees and worth, the claims counted as written exactly if they are countable, and then paid in full |
| StakedBlock.JudgedRight | src/gridcoin/consensus/block_rewards.cpp:416-479 | Where both agree on the start, the coinstake is accepted if and only if the sidestakes eligible for the reward less what was taken off are served as required |
| StakedBlock.JudgedSigned | src/gridcoin/consensus/block_rewards.cpp:416-479 | With the subsidy signed for, if and only if the settings pay for no eligible sidestake that was not drawn |
| StakedBlock.JudgedWrong | src/gridcoin/consensus/block_rewards.cpp:481-493 | Where the validator starts one output early, the coinstake is accepted if and only if no sidestake was drawn, the foundation's part is nothing, the staker is the foundation, and the stake output is too small to give each of its parts a unit |
| StakedBlock.MissingFoundation | src/miner.cpp:288-296 | One claim with a fee of one unit and a foundation's part of four fifths: the part is nothing, the starts differ and a plain split is refused |
| StakedBlock.ClaimedIsOwed | src/gridcoin/consensus/block_rewards.cpp:400-414 | The test on the total claimed refuses the miner's own coinstake if and only if the foundation's fees are negative, so never where the starts agree |
| StakedBlock.MineAndCheck | src/gridcoin/consensus/block_rewards.cpp:389-514 | Paid and split by the miner, checked by the validator with its own count: the exact verdict; with countable claims it is the one of JudgedRight and JudgedWrong, and where payments are worth something nothing else is accepted |
| StakedBlock.StartInRange | src/gridcoin/consensus/block_rewards.cpp:440-442 | The validator's start stays within the coinstake for countable claims, and for claims that hold where payments are worth something |
| Framing.ChunkingIrrelevant | src/net.cpp:594-627 | However a stream is cut into pieces, the receiver finds the same messages and fails in the same cases |
| Framing.ReceiveIsParse | src/net.cpp:594-627 | Receiving piece by piece finds the messages of the whole stream |
| Framing.ParseMore | src/net.cpp:594-674 | More bytes never change the messages already found, and a failure stays a failure |
| Framing.EndToEnd | src/net.cpp:594-735 | Any prefix of the bytes of some messages, in any pieces, is received without failure as the first so many of those messages, with the same command and payload; all bytes give all messages |
| Framing.FrameChecks | src/net_processing.cpp:1596-1640 | A framed message passes the start, header and checksum tests and gives its command and payload back |
| Framing.FrameLayout | src/net.h:469-501 | Start string, command filled up with zeroes, payload size with the low byte first, checksum and payload, each at its place |
| Framing.RefusedExactly | src/net.cpp:650-652 | A sent message is refused exactly when its size field is over the limit or what the size field leaves of the payload is refused; for payloads below 2^32 bytes, exactly when they are over the limit, which the sender does not check |
| Framing.AnyFrameParses | src/net.h:469-501 | What a receiver makes of any frame: with a size field that has wrapped it takes that much for the payload and reads on in the rest as if messages followed |
| Net.NetMessage.ReadHeader | src/net.cpp:629-658 | Takes header bytes up to the end of the header and fails exactly for an announced size over the limit |
| Net.NetMessage.ReadData | src/net.cpp:660-674 | Takes payload bytes up to the end of the message, with the buffer never more than 256 KiB ahead of the data and never beyond the message |
| Net.Receiver.ReceiveMsgBytes | src/net.cpp:594-627 | The loop ends, and the queue then holds the messages of what was left over and the new bytes together, with the rest in the last, incomplete message |
| Net.Receiver.Take | src/net_processing.cpp:1673-1675 | Taking handled messages off the front leaves the message being received alone |
| Net.Sender.SocketSendData | src/net.cpp:678-735 | Whatever short counts and errors the socket answers with, the bytes on the wire are a prefix of all queued messages and what is queued is the rest; all asserts hold |
| Net.Sender.EndMessage | src/net.h:469-501 | The queued bytes are the framed message with size and checksum filled in |
| Net.Sender.PushMessage | src/net.h:517-550 | A message is queued whole or, if a field throws, not at all |
| Net.SentIsReceived | src/net.cpp:594-735 | Any pieces of what is on the wire are received as the first of the messages queued, and all of them once the queue is empty |
| Net.Deliver | src/net.cpp:594-627 | A receiver from its start, with any number of messages taken after each piece: what was handed over and what waits are together exactly the messages received, in order, and it fails exactly when receiving does |
| Net.SendAndDeliver | src/net.cpp:594-735 | With sender and receiver at work: the messages handed over, and after them those that wait, are the first of those queued, in order, and all of them once everything arrived |
| Net.Receiver.ReceiveAndTake | src/net_processing.cpp:1564-1675 | One piece received and some complete messages taken |
| Net.Receiver.TakeUpTo | src/net_processing.cpp:1673-1675 | Messages taken and messages left are those that were complete |
| TxDb.LastDecides | src/dbwrapper.cpp:190-232 | In a batch the last change of a key decides what a read must see |
| TxDbStore.TransactionDb.ScanBatch | src/dbwrapper.cpp:220-232 | Finds the last change of a key in the batch |
| TxDbStore.TransactionDb.Read | src/dbwrapper.h:75-113 | Answers as if the pending batch were already applied |
| TxDbStore.TransactionDb.Exists | src/dbwrapper.h:169-190 | Answers as if the pending batch were already applied |
| TxDbStore.TransactionDb.Write | src/dbwrapper.h:115-145 | Changes what reads see at one key, and the database only outside a transaction |
| TxDbStore.TransactionDb.Erase | src/dbwrapper.h:147-167 | Removes one key from what reads see, and from the database only outside a transaction |
| TxDbStore.TransactionDb.TxnCommit | src/dbwrapper.cpp:161-172 | Makes the database what reads saw, or leaves it unchanged if the write fails |
| TxDbStore.TransactionDb.TxnAbort | src/dbwrapper.h:196-201 | Leaves the database unchanged |
| TxDbStore.TransactionDb.CleanAbandonedRange | src/dbwrapper.cpp:260-417 | Makes the database exactly the repaired one or leaves it unchanged; success means nothing points into an abandoned block and the counts are those of the entries deleted and marks cleared |
| TxDb.ChangesClean | src/dbwrapper.cpp:389-411 | The batch collected in the first pass deletes exactly the entries in abandoned blocks, clears exactly the marks that point into them, and touches nothing else |
| TxDb.CleanedIsClean | src/dbwrapper.h:226-239 | After the repair nothing in the index points into an abandoned block |
| TxDb.CleanUnchanged | src/dbwrapper.h:226-239 | A database with nothing to repair is left as it is |
| TxDbStore.RepairTwice | src/dbwrapper.cpp:260-417 | A second repair deletes nothing and clears nothing |
| KeyStore.RelockEndsOnlyItsOwn | src/keystore.h:152-162 | A relock armed by an unlock ends that unlock if no later step began or ended one, whatever else happened, and otherwise changes nothing |
| KeyStore.RunConsistent | src/keystore.h:140-166 | In every run (of an encrypted store, or with master keys of the right size) the store is locked exactly when it has no master key, a deadline never outlives its unlock, and plain and encrypted keys are never together |
| KeyStore.StepConsistent | src/keystore.cpp:66-314 | Every operation keeps this and never lowers the epoch, but for encrypting with a master key of the wrong size |
| KeyStore.WrongMasterKey | src/keystore.cpp:292-314 | A master key of the wrong size leaves plain keys in a store that says it is encrypted, exactly if it was not encrypted and held a key |
| KeyStore.EmptyMasterKey | src/keystore.cpp:292-314 | A store with one plain key and an empty master key ends up inconsistent, and the key is not found any more |
| KeyStore.PermissionNeedsKey | src/keystore.cpp:112-215 | Permission grows only at a step that presents a key which opens an encrypted key or equals the installed one |
| KeyStore.PermittedAfter | src/keystore.cpp:112-215 | An unlock that succeeds permits exactly the scope asked for, one that fails changes nothing, restricting leaves staking only, elevating gives everything, and neither touches the key, the deadline or the epoch; a lock leaves nothing |
| KeyStore.VerdictExactly | src/keystore.cpp:120-152 | The first unlock needs a key that opens every entry and a later one a key that opens the first; a key that opens the first but not all is reported as corruption |
| KeyStore.EpochCountsTurns | src/keystore.h:152-162 | The epoch changes exactly when an unlock begins or ends |
| KeyStore.EncryptThenUnlock | src/keystore.cpp:292-314 | Encrypting and then unlocking with the same key succeeds exactly when there are keys, and gives back every former key |
| CryptoKeyStore.Keys.SetCrypted | src/keystore.cpp:66-77 | Possible exactly without plain keys |
| CryptoKeyStore.Keys.LockAndCapture | src/keystore.cpp:79-105 | Locks and reports exactly the unlock that it ended |
| CryptoKeyStore.Keys.LockIfCurrent | src/keystore.h:303-319 | Locks exactly if the epoch is the current one |
| CryptoKeyStore.Keys.TryKeys | src/keystore.cpp:127-144 | All entries are tried the first time and one entry later |
| CryptoKeyStore.Keys.Unlock | src/keystore.cpp:112-177 | Installs key, scope, deadline and a new epoch together, or changes none of them |
| CryptoKeyStore.Keys.Elevate | src/keystore.cpp:179-215 | Widens the scope only for the installed key and touches neither deadline nor epoch |
| CryptoKeyStore.Keys.RestrictToStakingOnly | src/keystore.h:216-237 | Narrows the scope of an unlock and touches nothing else |
| CryptoKeyStore.Keys.AddKeyPubKey | src/keystore.cpp:217-236 | Stores a key plain or encrypted as the state requires, and succeeds exactly if the store is not encrypted or is unlocked with a key of the right size |
| CryptoKeyStore.Keys.AddCryptedKey | src/keystore.cpp:239-249 | Stores an encrypted key unless there are plain ones |
| CryptoKeyStore.Keys.GetKey | src/keystore.cpp:251-273 | The key under a name, decrypted with the installed master key |
| CryptoKeyStore.Keys.EncryptKeys | src/keystore.cpp:292-314 | For any keys and any master key: refused on an encrypted store, stuck with nothing encrypted for a master key of the wrong size, and else every plain key is replaced by its encryption under its own public key |
| KeyStore.SealAllFiled | src/keystore.cpp:300-310 | With keys filed under their own public keys every key keeps its name and the order of encryption does not matter |
| LimitedMap.Limited.Insert | src/limitedmap.h:72-82 | A known key keeps its value; a new key is always kept, and in a full map one of the lowest-valued earlier entries goes |
| LimitedMap.Limited.Erase | src/limitedmap.h:83-97 | Removes the key from map and index; the search cannot fail |
| LimitedMap.Limited.Update | src/limitedmap.h:98-117 | Changes the value in map and index; the search cannot fail |
| LimitedMap.Limited.Locate | src/limitedmap.h:88-96 | The search through equal values finds the entry, so the marker behind it is unreachable |
| LimitedMap.Limited.SetMaxSize | src/limitedmap.h:119-128 | Keeps as many entries as fit, none of those dropped above any of those kept |
| LimitedMap.Limited.EvictLowest | src/limitedmap.h:76-79 | What goes is not above anything else held |
| LimitedMap.SameCount | src/limitedmap.h:50-55 | Map and index have the same number of entries |

## Left out

- Integers are unbounded wherever the source relies on values staying small: ids of the address manager, amounts, sizes, and the unlock epoch. The limb arithmetic, the compact encoding and the fee-rate and retarget products state their widths.
- Hash functions, the cipher, clocks and random draws are parameters. A result that a collision would break says so.
- `Select_` picks a table and the model shows that it has an occupied slot; the random probing that follows, its termination and `GetChance` are not modelled.
- The order of the random list after loading the address tables, which the file does not keep.
- Whether an address is routable is a parameter of `AddrMan.AddrManImpl.Add`.
- MerkleBlock.ProofIsSound: requires a root that is not null and the block's own number of transactions, because the hash of the number is not part of the root.
- Base58: the table of digits is modelled as a function and not as the array; `Base58.AlphabetDigits` ties it to the alphabet.
- Arithmetic on 256 and 320 bits: exclusive or, and, decrement, the conversion to a floating-point number and the hexadecimal forms, which would only add easy members.
- The older linear retarget rule and the difficulty as a floating-point number.
- BlockAssembler.CreateRestOfTheBlock: the tests that need the rest of the node (finality, contract checks, input lookup and connection, sequence locks, minimum fee, claim validity) are parameters; the heap is modelled by what it returns, and an input index beyond the outputs of a pooled parent counts as zero.
- The coinbase script, the header fields and the initial block size of `CreateRestOfTheBlock`.
- The number of stake outputs, a floating-point formula in the source, is a parameter of at least one.
- SidestakeRules.AcceptsExactly: like all results on the validator, assumes that the registry keeps one entry for a destination with allocations that add up to at most the whole, that the destination of the stake output can be read, and that sidestaking is on.
- StakedBlock.MineAndCheck: requires that the validator's start does not come out below the first output where the claims hold, since the source would then read beyond the coinstake; StakedBlock.StartInRange says when that is so. What the validator finds owed for research, stake and fees is taken to be the miner's reward less what was taken off.
- ClaimChecks.CheckMRCRewards: takes the claims of the block with their beacons; the lookup of their transactions and the validation of each claim are left out.
- Shuffles are modelled by accepting the sidestakes in any order.
- Sockets and threads; the answer of each send call is a parameter.
- The header check of received messages is modelled, the handling of their contents is not.
- LevelDB is a map; iteration over it is a listing of its keys, and a failed batch write changes nothing.
- A null position is modelled as being in no block.
- KeyStore.EncryptThenUnlock: about keys filed under their own public keys; a key added under another public key is sealed under its own, in the model and in the code, and is then not found under the old name.
- Watch-only scripts of the key store, and encryption of other wallet secrets.
- Iterators of the bounded map; its update takes a key.
