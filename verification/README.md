# Verification of the xbtc node's consensus and data-structure kernel

This project models the parts of the node where a fast algorithm or a mutable cache has to agree
with a simple idea, and proves that it does. Each file is one module. Objects whose methods update
fields are classes, in-place loops are loops with invariants, and each is proved against a
specification function; the promises of the repository are then theorems about those functions.

| files | what they are about |
|---|---|
| `MerkleSpec`, `MerkleTree` | Merkle roots by levels of pairs; the constant-space calculator of root, branch and `mutated` |
| `Bits`, `Limbs`, `LimbShifts`, `CompactFormat`, `ArithUint256`, `Consensus` | 256-bit integers on eight 32-bit limbs, the compact target format, block proof |
| `Utxo`, `Conservation`, `CoinOverlay`, `CoinView` | the plain ledger, what blocks do to its value and its coins, the write-back cache over the coin database, the classes that run it |
| `SkipHeights`, `BlockTree`, `BlockChain`, `BlockDownload`, `HeightSort`, `BlockCache` | skip pointers and ancestors, active chain and locators, download batches, cumulative work and its recovery after a restart |
| `Options`, `ByteOrder`, `MessageCodec` | framing of protocol messages under arbitrary chunking |
| `ScriptNumber`, `MultiSig` | script numbers, greedy signature matching and the multi-signature opcode |
| `VarInt` | the base-128 integer codec |
| `PeerPool` | the pool of peers and its two time indexes |
| `BlockStorage` | allocation in block files, and reading back |

Modelling decisions that hold throughout:

- Hash functions, the signature check and endpoint predicates are parameters. Collision freedom of the
  pair hash is a hypothesis of exactly the theorems that need it.
- Clocks are parameters (`now`). The coin database is a map with an atomic batch, the disk is bytes per
  file, and posted writes may run in any order.
- Machine widths are explicit where a theorem depends on them: limbs, compact words, coin values and
  their sums, the 32-bit length test of the decoder, the leaf counter, the locator's step, the VarInt
  limit. A signed sum that leaves its 64 bits, which C++ leaves undefined, has an outcome of its own.
- Assertions of the source are not preconditions where other code can trip them: `CoinView.Transfer`,
  the script number decoder and the peer pool report the failure as a result. Where the assertion is a
  demand on the caller it is a `requires`.

Where the code differs from its comments or from what one would expect, the model follows the code:

- The Merkle calculator's comment allows 2^32 leaves. The final sweep counts up to the width of the
  whole tree in 32 bits, which works for exactly the lists of up to 2^31 leaves
  (`MerkleTree.LeafLimit`).
- `a *= a` gives zero, because the result is cleared before the operand is read
  (`ArithUint256.Uint256.MulAssign`).
- `addCoin` does not clear `removedCoins`, and a valueless entry hides a stored coin that the next flush
  does not erase. A coin created at an outpoint that was spent since the last flush is lost
  (`CoinOverlay.RecreatedCoinIsLost`). The exact condition is stated for one coin
  (`CoinOverlay.AddPutsExactlyUnlessRemoved`, `CoinOverlay.AddSurvivesFlushExactly`), one transaction
  (`CoinOverlay.TransferRefines`), a block (`CoinOverlay.KeepsUpIffAdmissible`) and a run
  (`CoinOverlay.RunKeepsUpIffAdmissible`), and for blocks and runs also without running the cache
  (`CoinOverlay.AdmissibleAllIff`, `CoinOverlay.AdmissibleRunIff`): a created outpoint with a value must not be among the removed,
  one without must not be a stored coin that is not removed. Transaction hashes may repeat; the duplicate coinbases of blocks 91842 and 91880,
  which src/storage/Compatibility.cpp:12-16 lets through, meet the condition
  (`CoinOverlay.RepeatedCoinbaseIsHandled`).
- Output values are read as they come (src/data/Transaction.cpp:92-95), validation looks at duplicates
  and scripts only (src/storage/Validator.cpp:123-134), and `transfer` compares the 64-bit sums of inputs
  and outputs (src/storage/CoinView.cpp:73-98). A transaction with a negative output can therefore mint
  value (`Conservation.NegativeOutputMints`: 1 becomes 1000), and so can one whose outputs overflow their
  sum (`Conservation.OverflowMints`: 1 becomes 2^63 + 1 where signed addition wraps). A transaction or a
  run overflows if and only if a prefix sum of inputs or of outputs leaves its 64 bits
  (`Conservation.OverflowIff`, `Conservation.BlocksOverflowIff`), and one that no assertion stops and that
  replaces nothing unspent conserves value if and only if no sum overflows and no output is negative
  (`Conservation.TransferConservesIff`, `Conservation.ConservedIff`).
- The duplicate check looks at the ledger before the block. Two transactions of one block that share a
  hash pass it; without such a pair, what passes overwrites nothing (`Conservation.CheckedOverwritesNothing`).
- The decoder's size test adds 24 to the length in 32 bits; a length within 24 of 2^32 passes it on too
  little data, and the hash reads past the end. The model gives exactly these headers the outcome
  `Overrun` (`MessageCodec.DecodeOneSplit`) and ends there; `MessageCodec.HeaderOverruns` is such a header.
- Adding a peer does not check its endpoint although offering one asserts that it is valid
  (`PeerPool.UncheckedPeerTripsAssertion`). The assertion is safe in every run that adds valid endpoints
  only (`PeerPool.Pool.DoAddPeer`, `PeerPool.Pool.GetConnectionPeer`). A peer at an invalid endpoint is
  never tried, so once it is in the pool it is among the next as soon as the others have been tried, and
  the failure is inevitable unless the peer expires first (`PeerPool.Pool.OffersRunIntoInvalid`).
- The opcode accepts fewer than 20 keys, not up to 20, and its true value is the byte 0x51.
- A script number operand with a non-zero byte beyond the eighth is shifted out of range, which C++
  leaves undefined; the model gives it the outcome `Undefined`. One longer than eight bytes whose eighth
  byte has its top bit set and whose later bytes are zero trips the assertion on its size
  (`ScriptNumber.NineByteString`); the model gives it the outcome `AssertionFails`.
- Encoding the most negative 64-bit number negates it in 64 bits, which overflows; the outcome is
  `NegationOverflows`, and the round trip fails for exactly this number (`ScriptNumber.RoundTrip`).
- The VarInt writer stops at once for a negative value of a signed type and writes its low seven bits, so
  exactly the other values are read back (`VarInt.ReadBackIff`).
- `getValues` asks for one item more than it takes.
- A download batch asks for at least 128 blocks if there are so many, and reaches 1025 heights up, one
  more than the window.

## Model

| member | source | states |
|---|---|---|
| `MerkleTree.Compute` | src/data/MerkleTree.cpp:33-121 | for up to 2^31 leaves the one pass yields the root of recursive pairing, the branch of the wanted leaf, and `mutated` exactly when two neighbouring complete blocks of 2^k leaves have the same root |
| `MerkleTree.ComputeRoot` | src/data/MerkleTree.cpp:123-127 | the same root and flag without a branch |
| `MerkleTree.AddLeaf` | src/data/MerkleTree.cpp:52-78 | one leaf carries through the binary counter: `inner[l]` holds the last complete node of level l for each set bit l of `count`, and flag and branch follow |
| `MerkleTree.LowestSetBit` | src/data/MerkleTree.cpp:82-87 | the sweep starts at the lowest level that has a node left |
| `MerkleTree.SweepPairs` | src/data/MerkleTree.cpp:104-116 | merging upwards with complete left neighbours keeps the last node of each level and its branch |
| `MerkleTree.Sweep` | src/data/MerkleTree.cpp:79-120 | the rightmost branch is closed with odd nodes doubled, giving root and complete branch |
| `MerkleTree.LeafLimit` | src/data/MerkleTree.cpp:32-101 | the rounded-up count fits its 32 bits if and only if there are at most 2^31 leaves |
| `MerkleTree.WithinLevels` | src/data/MerkleTree.cpp:48-60 | 32 levels of inner hashes suffice, and no shift exceeds the counter's width |
| `MerkleTree.MutatedAfterCarry` | src/data/MerkleTree.cpp:60-72 | the comparisons made for one leaf see exactly the pairs of equal complete blocks which that leaf completes |
| `MerkleSpec.BranchLeadsToRoot` | src/data/MerkleTree.cpp:54-116 | folding a branch onto its leaf, sides chosen by the bits of the position, gives the root |
| `MerkleSpec.BranchIsTheOnlyProof` | src/data/MerkleTree.cpp:54-116 | with a collision-free pair hash, no other leaf or branch of that length folds to the root |
| `MerkleSpec.RootIsTopDown` | src/data/MerkleTree.cpp:33-121 | building level by level gives the tree defined from the top down: left half filled first, a lone half paired with itself |
| `MerkleSpec.CompleteNodeIsBlockRoot` | src/data/MerkleTree.cpp:43-48 | a node over 2^k leaves that are all present is the root of these leaves alone |
| `MerkleSpec.DuplicatedBlocksIffEqualPairs` | src/data/MerkleTree.cpp:69 | equal sibling nodes below complete parents and equal blocks of the leaf list say the same |
| `MerkleSpec.RootDeterminesLeaves` | src/data/MerkleTree.cpp:33-121 | with a collision-free pair hash, two lists of equal depth and root with `mutated` clear are the same list |
| `MerkleSpec.RepeatedBlockIsFlagged` | src/data/MerkleTree.cpp:60-72 | repeating the last of an odd number of complete blocks gives another list with the same root, and one that is flagged |
| `ArithUint256.ModulusIsPow2` | src/util/arith_uint256.hpp:21-26 | the eight limbs of 32 bits count modulo 2^256 |
| `ArithUint256.Uint256.ShiftLeft` | src/util/arith_uint256.cpp:19-33 | multiplication by a power of two modulo 2^256, for any shift |
| `ArithUint256.Uint256.ShiftRight` | src/util/arith_uint256.cpp:36-50 | division by a power of two, for any shift |
| `LimbShifts.LeftShiftValue` | src/util/arith_uint256.cpp:26-31 | the pieces of each limb, joined by OR, add up to the shifted number |
| `LimbShifts.RightShiftValue` | src/util/arith_uint256.cpp:43-48 | the same downwards |
| `ArithUint256.Uint256.MulAssign32` | src/util/arith_uint256.cpp:53-62 | product with a 32-bit factor modulo 2^256 |
| `ArithUint256.Uint256.MulAssign` | src/util/arith_uint256.cpp:65-78 | product modulo 2^256 of two different objects; zero when an object is multiplied by itself |
| `ArithUint256.Uint256.AddRow` | src/util/arith_uint256.cpp:70-75 | the inner loop adds digit * b * 2^(32j), losing only multiples of 2^256 |
| `ArithUint256.Uint256.DivAssign` | src/util/arith_uint256.cpp:81-104 | the exact quotient for every non-zero divisor, itself included; failure for zero |
| `ArithUint256.Uint256.LongDivide` | src/util/arith_uint256.cpp:94-102 | from an aligned divisor the loop leaves quotient and remainder |
| `ArithUint256.Uint256.DivideBit` | src/util/arith_uint256.cpp:95-98 | one round settles one bit of the quotient |
| `ArithUint256.Aligned` | src/util/arith_uint256.cpp:86-93 | aligning the divisor by bit lengths loses no bit and leaves the dividend below twice the divisor |
| `ArithUint256.SettingBit` | src/util/arith_uint256.cpp:97 | the quotient bit being set is still clear, so OR adds it |
| `ArithUint256.Uint256.Compare` | src/util/arith_uint256.cpp:107-116 | the sign of the difference |
| `ArithUint256.Uint256.EqualsUint64` | src/util/arith_uint256.cpp:119-130 | equality with a 64-bit number |
| `ArithUint256.Uint256.BitLength` | src/util/arith_uint256.cpp:169-181 | the position of the highest set bit plus one, zero for zero |
| `ArithUint256.Uint256.SetCompact` | src/util/arith_uint256.cpp:219-237 | mantissa * 256^(size-3), cut to an integer and to 256 bits; overflow set exactly when 256 bits do not suffice; the negative flag needs a remaining mantissa |
| `ArithUint256.Uint256.GetCompact` | src/util/arith_uint256.cpp:239-260 | the compact word of the number, with the sign bit on request |
| `ArithUint256.Uint256.AddAssign` | src/util/arith_uint256.hpp:138-148 | sum modulo 2^256, also with itself |
| `ArithUint256.Uint256.SubAssign` | src/util/arith_uint256.hpp:150-154 | difference modulo 2^256, exact when it is not negative |
| `ArithUint256.Uint256.Negated` | src/util/arith_uint256.hpp:80-87 | two's complement |
| `ArithUint256.Uint256.Complement` | src/util/arith_uint256.hpp:72-78 | 2^256 - 1 minus the number |
| `ArithUint256.Uint256.Increment` | src/util/arith_uint256.hpp:176-183 | plus one modulo 2^256, carrying only as far as needed |
| `ArithUint256.Uint256.Decrement` | src/util/arith_uint256.hpp:193-200 | minus one modulo 2^256 |
| `ArithUint256.Uint256.AddUint64` | src/util/arith_uint256.hpp:156-162 | adds a 64-bit number |
| `ArithUint256.Uint256.LowQword` | src/util/arith_uint256.hpp:248-252 | the remainder modulo 2^64 |
| `CompactFormat.OverflowTest` | src/util/arith_uint256.cpp:232-235 | the three size limits say exactly that the value reaches 2^256 |
| `CompactFormat.KnownWords` | src/util/arith_uint256.cpp:219-260 | what eight words of each kind stand for |
| `CompactFormat.SmallIsExact` | src/util/arith_uint256.cpp:239-260 | numbers below 2^23 survive the round trip |
| `CompactFormat.LargeIsTruncated` | src/util/arith_uint256.cpp:239-260 | larger numbers keep their leading bytes, with a normalised mantissa |
| `CompactFormat.TruncationBound` | src/util/arith_uint256.cpp:219-260 | the round trip never exceeds the number and loses less than one unit of the last byte kept, at most one part in 2^15 |
| `CompactFormat.LargestRepresentable` | src/util/arith_uint256.cpp:219-260 | no compact word stands for a number strictly between the round trip of n and n |
| `CompactFormat.CanonicalIffFixed` | src/util/arith_uint256.cpp:219-260 | decoding and encoding returns a word if and only if it is canonical |
| `Consensus.GetBlockProof` | src/storage/Consensus.cpp:60-73 | floor(2^256 / (target + 1)) for a usable target and zero otherwise |
| `Consensus.CalcBlockProof` | src/storage/Consensus.cpp:74-77 | the same as a number, which is what is added up along a path |
| `Consensus.TargetPlusOneFits` | src/storage/Consensus.cpp:68-72 | target + 1 never wraps, because no compact word stands for 2^256 - 1 |
| `Consensus.ProofByComplement` | src/storage/Consensus.cpp:68-72 | the detour over the complement equals the division that cannot be written down |
| `Consensus.ProofFits` | src/storage/Consensus.cpp:68-72 | a usable target proves at least one hash and the result fits |
| `Consensus.ProofAntitone` | src/storage/Consensus.cpp:60-73 | a smaller target never proves less work |
| `Consensus.EasiestProof` | src/storage/Consensus.cpp:60-73 | the easiest target of the main chain proves 4295032833 hashes |
| `Consensus.NoTargets` | src/storage/Consensus.cpp:66-67 | words that are zero, negative or too wide prove nothing |
| `Utxo.TransferEffect` | src/storage/CoinView.cpp:65-99 | inputs were unspent, distinct and are gone; outputs with a value are there; nothing else changed |
| `Utxo.CoinBaseApplies` | src/data/Transaction.hpp:106 | a transaction with one input, of null hash, spends nothing, goes through on any ledger if its outputs fit, and marks its coins as coinbase |
| `Utxo.OrdinarySpendsAll` | src/storage/CoinView.cpp:74-98 | any other that goes through had each input unspent, each once, and takes it off unless it creates it again; its coins are not marked |
| `Conservation.AppliedIff` | src/storage/CoinView.cpp:65-99 | a coinbase goes through if and only if its outputs fit, any other if and only if its inputs are there, distinct, worth at least its outputs, and all sums fit |
| `Conservation.TransferConserves` | src/storage/CoinView.cpp:73-98 | a transaction that goes through moves value: what its inputs held leaves, the sum of its outputs enters, plus what negative outputs withhold from that sum, minus unspent coins it replaces; no other value appears or goes |
| `Conservation.TransferConservesIff` | src/storage/CoinView.cpp:65-99 | the same if and only if for one transaction |
| `Conservation.OverflowIff` | src/storage/CoinView.cpp:73-97 | a transaction overflows if and only if the sum of its first inputs, as far as they are there, or of its first outputs, leaves its 64 bits for some number of them |
| `Conservation.WrappingIsTransfer` | src/storage/CoinView.cpp:73-97 | as long as these sums fit, wrapping addition decides and does the same |
| `Conservation.OverflowMints` | src/storage/CoinView.cpp:91-98 | a coin of value 1 spent into 2^63 - 1 and 2 overflows, and where addition wraps leaves 2^63 + 1 |
| `Conservation.InputsFitIfTotalDoes` | src/storage/CoinView.cpp:73-87 | the sum of the inputs never overflows while the unspent value fits |
| `Conservation.BlocksConserve` | src/storage/BlockCache.cpp:214-225 | after any sequence of blocks that goes through the unspent value is the old value plus coinbase outputs, minus fees, plus what negative outputs let in, minus what recreated outpoints replaced |
| `Conservation.BlocksMintIfNegative` | src/storage/CoinView.cpp:91-98 | in a run that goes through, no value is let in if and only if no output is negative |
| `Conservation.BlocksLoseIfOverwritten` | src/storage/CoinView.cpp:143-157 | no value is replaced if and only if no transaction creates an outpoint that is unspent |
| `Conservation.ConservedIff` | src/storage/BlockCache.cpp:214-225 | a run that no assertion stops and that replaces nothing unspent goes through with the unspent value changed by coinbase outputs and fees only, if and only if no sum overflows where its turn comes and no output is negative; and then the value never outgrows the coinbase outputs |
| `Conservation.BlocksOverflowIff` | src/storage/CoinView.cpp:73-97 | a run overflows if and only if one of its transactions has such a sum where its turn comes |
| `Conservation.OnlyOutputsOverflow` | src/storage/CoinView.cpp:73-97 | without negative outputs, and while the first unspent value and all coinbase outputs together fit, a run that no assertion stops overflows if and only if the outputs of some transaction alone do |
| `Conservation.CheckedOverwritesNothing` | src/storage/Validator.cpp:133-155 | a block that creates no outpoint unspent before it overwrites nothing, unless two of its own transactions share a hash |
| `Conservation.CheckedBlocksOverwriteNothing` | src/storage/Validator.cpp:133-155 | the same for a run of such blocks |
| `Conservation.NegativeOutputMints` | src/storage/CoinView.cpp:91-98 | a coin of value 1 spent into 1000 and -999 leaves 1000 |
| `Conservation.TransferCoins` | src/storage/CoinView.cpp:65-99 | at each outpoint, coins spent, replaced and left are the coins that were there and those made |
| `Conservation.EveryCoinAccountedFor` | src/storage/BlockCache.cpp:214-225 | the same over any sequence of blocks |
| `Conservation.SpentOnce` | src/storage/BlockCache.cpp:214-225 | over a whole run no coin is spent twice: an outpoint is named by two inputs, within or across transactions and blocks, only if two coins were put there |
| `CoinOverlay.FetchKeepsView` | src/storage/CoinView.cpp:100-121 | looking a coin up changes the cache but not the ledger it denotes, and the cached entry answers for the ledger |
| `CoinOverlay.RemoveTakesOff` | src/storage/CoinView.cpp:158-163 | removing takes exactly that outpoint off the ledger |
| `CoinOverlay.AddPutsExactlyUnlessRemoved` | src/storage/CoinView.cpp:143-157 | adding puts the coin on the ledger if and only if the outpoint is not among the removed or the coin has no value |
| `CoinOverlay.AddSurvivesFlushExactly` | src/storage/CoinView.cpp:122-157 | exactly when a flush right after adding stores the intended ledger |
| `CoinOverlay.StoredIffConsistent` | src/storage/CoinDB.cpp:90-110 | the batch leaves the denoted ledger in the database if and only if no valueless entry hides a stored coin |
| `CoinOverlay.RecreatedCoinIsLost` | src/storage/CoinView.cpp:143-163 | a concrete state in which a created coin is invisible and not stored |
| `CoinOverlay.FlushStores` | src/storage/CoinDB.cpp:90-110 | after a flush cache and database denote what was stored, which is the ledger of before if the cache was consistent |
| `CoinOverlay.TransferRefines` | src/storage/CoinView.cpp:65-99 | a transaction on the cache reads as the transaction on the plain ledger if and only if no output with a value lies at a removed outpoint, and is written back as it too if and only if moreover no valueless output lies at a stored outpoint that is not removed |
| `CoinOverlay.RemovedMidway` | src/storage/CoinView.cpp:73-87 | the outpoints that condition is about are those removed since the last flush and the inputs of the transaction, and no others |
| `CoinOverlay.FreshIsAdmissible` | src/storage/CoinView.cpp:88-96 | outpoints that are neither unspent nor removed meet the condition |
| `CoinOverlay.RepeatedCoinbaseIsHandled` | src/storage/Compatibility.cpp:12-16 | a coinbase that repeats an unspent one, or comes right after a flush, goes through unless its outputs overflow, as on the plain ledger |
| `CoinOverlay.KeepsUpIffAdmissible` | src/storage/BlockCache.cpp:214-225 | through the transactions of a block the cache mirrors the plain ledger if and only if each meets the condition where its turn comes |
| `CoinOverlay.AdmissibleAllIff` | src/storage/BlockCache.cpp:214-225 | a block that goes through on the plain ledger meets the condition if and only if each output with a value avoids the outpoints removed before and the inputs of its own and earlier transactions, and each without lies among these or is not stored |
| `CoinOverlay.BlockRefines` | src/storage/BlockCache.cpp:214-225 | a block that meets it gets the same verdict from the cache as from the plain ledger, and has the same effect |
| `CoinOverlay.RunRefines` | src/storage/BlockCache.cpp:214-225 | over every run of fetches, such blocks and flushes, cache and database denote the replay of the connected blocks |
| `CoinOverlay.RunKeepsUpIffAdmissible` | src/storage/BlockCache.cpp:214-225 | the cache mirrors the plain ledger at each step of a run if and only if all its blocks meet the condition |
| `CoinOverlay.AdmissibleRunIff` | src/storage/BlockCache.cpp:214-271 | the same for a run, in terms of the plain ledger: the inputs since the last flush count as removed, and the ledger at the flush as stored |
| `CoinOverlay.DatabaseIsAReplay` | src/storage/BlockCache.cpp:263-271 | at every moment of such a run the database alone is the replay of the blocks up to its stored best block |
| `CoinView.CoinDB.WriteCoins` | src/storage/CoinDB.cpp:90-110 | dirty coins with a value are put, then removed outpoints erased, all together with the best block or not at all |
| `CoinView.ReadAfterWrite` | src/storage/CoinDB.cpp:90-115 | what is read after a write: nothing at a removed outpoint, else the dirty coin with a value, else what was stored before |
| `CoinView.CoinView.FetchCoin` | src/storage/CoinView.cpp:100-121 | nothing for an outpoint spent since the last flush, else the cached entry; the assertions hold |
| `CoinView.CoinView.HasCoin` | src/storage/CoinView.cpp:60-64 | true exactly for unspent coins of the ledger |
| `CoinView.CoinView.AddCoin` | src/storage/CoinView.cpp:143-157 | the new cache state; the assertion holds exactly when the coin is not above the best block |
| `CoinView.CoinView.RemoveCoin` | src/storage/CoinView.cpp:158-163 | the outpoint leaves the cached coins and joins the removed ones |
| `CoinView.CoinView.SpendInputs` | src/storage/CoinView.cpp:73-87 | goes through exactly when the ledger has every input in turn and the sum fits, with their total; otherwise says which of the two comes first |
| `CoinView.CoinView.Transfer` | src/storage/CoinView.cpp:65-99 | the verdict, assertions and overflow included, is that of the plain ledger at this height, and so is the effect |
| `CoinView.CoinView.Flush` | src/storage/CoinView.cpp:122-141 | the database becomes what the batch leaves, which is the ledger if and only if the cache is consistent, or nothing changes |
| `CoinView.CoinView.SetBestBlock` | src/storage/CoinView.cpp:55-59 | only the best block moves |
| `CoinView.CoinView.UpdateCoins` | src/storage/BlockCache.cpp:214-225 | the verdict on a block is the first one against a transaction of it; for a block that meets the condition it is that of the plain ledger, with the same effect |
| `CoinView.CoinView.CheckDuplicateTransaction` | src/storage/Validator.cpp:133-155 | true exactly for the two exceptions and for blocks none of whose created outpoints is unspent; ledger, database and removed outpoints stay as they are |
| `CoinView.TwoExceptions` | src/storage/Compatibility.cpp:9-16 | exactly one block at each of the heights 91842 and 91880 is excepted |
| `BlockTree.BlockIndex.GetAncestor` | src/data/Block.cpp:109-138 | the node that walking `previous` reaches at that height, with skip pointers null or correct; null outside the range; it terminates, with all skip pointers set after as many steps as the heights alone say |
| `BlockTree.BlockIndex.BuildSkip` | src/data/Block.cpp:103-107 | a new leaf gets a correct skip pointer from its parent's |
| `SkipHeights.SkipHeightBelow` | src/data/Block.cpp:87-101 | a skip leads strictly down from every height above zero |
| `SkipHeights.InvertTakesLowest` | src/data/Block.cpp:82-85 | what is taken from a height is the largest power of two that divides it |
| `SkipHeights.StepsBound` | src/data/Block.cpp:87-138 | with all skip pointers set, from a height below 2^k any lower one is reached in at most k(k+3)/2 steps, 189 for 2^18 |
| `BlockTree.Tree.AncestorOfAncestor` | src/data/Block.cpp:109-138 | walking down in two legs is walking down |
| `BlockTree.Tree.AncestorKept` | src/data/Block.cpp:109-138 | a new leaf changes no other node's ancestors |
| `BlockTree.FindLastCommonAncestor` | src/storage/BlockChain.cpp:111-131 | a common ancestor above which the branches differ everywhere; null exactly for different roots |
| `BlockChain.BlockChain.SetTip` | src/storage/BlockChain.cpp:49-62 | from any valid chain, forks included, slot i is the new tip's ancestor at height i, although rewriting stops early |
| `BlockChain.BlockChain.Contains` | src/storage/BlockChain.cpp:36-39 | true exactly for the tip's ancestors |
| `BlockChain.BlockChain.GetBlock` | src/storage/BlockChain.cpp:63-68 | the tip's ancestor at that height, null outside the chain |
| `BlockChain.BlockChain.GetLocator` | src/storage/BlockChain.cpp:69-97 | the hashes of the start's ancestors at the heights of the locator sequence, down to height zero, whether the start is on the chain or not |
| `BlockChain.LocatorDescends` | src/storage/BlockChain.cpp:69-97 | heights start at the block, strictly decrease by strides that double after ten, and end at zero |
| `BlockChain.LocatorGaps` | src/storage/BlockChain.cpp:69-97 | the first twelve entries follow each other height by height, then each gap is twice the one before |
| `BlockChain.LocatorIsShort` | src/storage/BlockChain.cpp:69-97 | the length is determined by the height and at most 12 above its logarithm |
| `BlockChain.StepFitsIff` | src/storage/BlockChain.cpp:71-95 | the 32-bit step never overflows if and only if the height is at most 2^30 + 9 |
| `BlockDownload.NodeSyncInfo.ProcessBlockAvailability` | src/net/BlockSynchronizer.cpp:207-218 | a remembered announcement counts as soon as its header is known with work; the best known block then has no less work than before, nor than that header |
| `BlockDownload.NodeSyncInfo.UpdateBlockAvailability` | src/net/BlockSynchronizer.cpp:219-231 | the best known block is the old one, the remembered or the announced one, and has no less work than any of them that is known; an unknown hash is remembered |
| `BlockDownload.BetterOfTwo` | src/net/BlockSynchronizer.cpp:212-226 | of two known blocks the one with more work is taken, of equals the later; one without work never |
| `BlockDownload.NodeSyncInfo.FindBlocksToDownload` | src/net/BlockSynchronizer.cpp:232-265 | a peer whose best known block has less work than the tip or than the configured minimum is asked for nothing, any other for the run of ancestors of that block right above the last common one; the calls so far stay a run to which the theorems below apply |
| `BlockDownload.FirstBatch` | src/net/BlockSynchronizer.cpp:242-250 | a call without a last common block asks for what lies right above the last common ancestor of tip and best known block, whatever height was guessed, and for no ancestor of the tip |
| `BlockDownload.NodeSyncInfo.TakeBatch` | src/net/BlockSynchronizer.cpp:251-264 | the batch within window and count, and where it ends is remembered as common |
| `BlockDownload.FillBackwards` | src/net/BlockSynchronizer.cpp:255-264 | filling along `previous` from the last block gives the contiguous run |
| `BlockDownload.BatchProgress` | src/net/BlockSynchronizer.cpp:251-254 | a batch covers at most 1025 heights and at most the count or 128, whichever is more, and stops short of the best block only at one of these limits |
| `BlockDownload.NextBatchContinues` | src/net/BlockSynchronizer.cpp:242-260 | while the common block lies on the best block's branch, the next batch starts right above it |
| `BlockDownload.BatchesAreContiguous` | src/net/BlockSynchronizer.cpp:232-265 | while the best block only extends, the batches of any run of calls, answers without a batch between them, are one unbroken run of its ancestors from the first last common ancestor on |
| `BlockDownload.BestIsReached` | src/net/BlockSynchronizer.cpp:232-265 | a best block that stands still is reached after one call for each 128 heights |
| `BlockDownload.RunInLarger` | src/net/BlockSynchronizer.cpp:232-265 | headers that arrive between the calls leave a run a run |
| `BlockCache.BlockCache.AddBlockIndex` | src/storage/BlockCache.cpp:126-160 | an accepted header joins the tree under its parent; work, time and best header are right for all nodes again, every node is stored or due to be, and what is stored keeps knowing all its parents |
| `BlockCache.BlockCache.UpdateBlockInfo` | src/storage/BlockCache.cpp:289-305 | from a correct parent, chain work (modulo 2^256) and latest time of the path; the block becomes best header exactly when it has more work than the best so far |
| `BlockCache.PathWorkIsSum` | src/storage/BlockCache.cpp:291-297 | the work of a path is the sum of the proofs of its blocks, one at each height |
| `BlockCache.PathMaxTimeIsMax` | src/storage/BlockCache.cpp:292-299 | the latest time of a path is the time of one of its blocks, and no block of it is later |
| `BlockCache.BlockCache.BestHasMostWork` | src/storage/BlockCache.cpp:289-305 | while no sum of work reaches 2^256 the fields are the sums, and the best header has the most work of all nodes |
| `BlockCache.BlockCache.UpdatePreviousBlock` | src/storage/BlockCache.cpp:272-288 | every node is linked to the node of its previous hash |
| `BlockCache.BlockCache.MarkDirtyBlock` | src/storage/BlockCache.cpp:251-262 | a changed node is due to be stored, or everything is stored at once |
| `BlockCache.BlockCache.Flush` | src/storage/BlockCache.cpp:263-271 | afterwards nothing is due and every node is stored as it is, with its parent |
| `BlockCache.BlockCache.HeightSortedBlocks` | src/storage/BlockCache.cpp:309-317 | each node once, by height |
| `BlockCache.BlockCache.UpdateChainWork` | src/storage/BlockCache.cpp:306-333 | going through the nodes by height makes work, time and best header right for all |
| `BlockCache.BlockCache.SortOutBlocks` | src/storage/BlockCache.cpp:351-357 | nodes loaded from what a linked index stored are linked into the same shape and get back the heights, work and times of that index |
| `BlockCache.LoadCache` | src/storage/BlockCache.cpp:272-357 | loading such a database gives a valid cache with the same blocks, heights, work and times |
| `BlockCache.Restart` | src/storage/BlockCache.cpp:263-357 | a node that stops at any time and starts again on what it had stored knows those blocks with the same heights, work and times, after a flush all of them |
| `BlockCache.WorkStep` | src/storage/BlockCache.cpp:291-297 | the sum over a path, cut to 256 bits, can be kept by adding to the parent's |
| `BlockCache.StaysLinkedByHash` | src/storage/BlockCache.cpp:135-155 | a header whose parent is present keeps the index linked by hash |
| `BlockCache.LoadedTree` | src/storage/BlockCache.cpp:272-288 | linking by hash rebuilds the tree the nodes came from |
| `BlockCache.SubIndex` | src/storage/BlockCache.cpp:263-288 | nodes whose parents are all stored are a linked index of their own, with the same heights and parents |
| `BlockCache.PathsInPart` | src/storage/BlockCache.cpp:289-305 | and with the same work and times |
| `BlockCache.ReloadRecomputes` | src/storage/BlockCache.cpp:272-333 | relinking stored nodes and recomputing gives every node its saved height, work and time |
| `MessageCodec.MessageDecoder.Decode` | src/net/MessageCodec.cpp:99-119 | a chunk delivers what parsing the undecided bytes and the chunk delivers, and keeps the rest |
| `MessageCodec.MessageDecoder.DecodeMessages` | src/net/MessageCodec.cpp:126-139 | all complete messages at the front are delivered in order, up to an incomplete one or the code of a bad one |
| `MessageCodec.MessageDecoder.DecodeFront` | src/net/MessageCodec.cpp:129-137 | a round of the loop delivers one message without changing what delivered and remaining bytes amount to, or shows that the parse ends here |
| `MessageCodec.MessageDecoder.DecodeOneMessage` | src/net/MessageCodec.cpp:140-177 | one message, nothing yet, or the code of its failure, by magic, length and checksum |
| `MessageCodec.DecodeOneSplit` | src/net/MessageCodec.cpp:140-177 | which bytes are incomplete, refused for their magic number, length or checksum, or accepted, and as what message: all five cases, in terms of the bytes |
| `MessageCodec.CStringEnds` | src/net/MessageCodec.cpp:147-152 | the command is what stands before the first zero byte of its field |
| `MessageCodec.WaitingIsShort` | src/net/MessageCodec.cpp:99-139 | what waits is shorter than a header, or than the message it declares |
| `MessageCodec.BadAfterGood` | src/net/MessageCodec.cpp:99-177 | a bad message behind good ones fails right after them |
| `MessageCodec.DamageIsNoticed` | src/net/MessageCodec.cpp:160-172 | in particular one whose checksum does not fit its payload |
| `ByteOrder.LowestByteFirst` | src/net/MessageCodec.cpp:166 | words are stored with the lowest byte first |
| `MessageCodec.HeaderOverruns` | src/net/MessageCodec.cpp:140-160 | a header of 24 bytes for which it does |
| `MessageCodec.MessageEncoder.Encode` | src/net/MessageCodec.cpp:47-70 | the buffer's front becomes the wire form although length and checksum are filled in last; -1 exactly for commands that are too long |
| `MessageCodec.DecodeOneIsStable` | src/net/MessageCodec.cpp:140-177 | what arrives later does not change a decision already possible |
| `MessageCodec.ParseInTwo` | src/net/MessageCodec.cpp:99-139 | parsing in two pieces with the rest carried over is parsing the whole |
| `MessageCodec.ChunkingIsIrrelevant` | src/net/MessageCodec.cpp:99-139 | every chunking of a stream gives the same messages and rest, or the same failure after the same messages |
| `MessageCodec.EncodedDecodes` | src/net/MessageCodec.cpp:47-177 | an encoded message in front of anything decodes to itself and its own size |
| `MessageCodec.DecodedIsEncoded` | src/net/MessageCodec.cpp:47-177 | accepted bytes are exactly the encoder's bytes for the message they decode to, if and only if the command leaves room for a zero and only zeros follow it |
| `MessageCodec.SentArrives` | src/net/MessageCodec.cpp:47-177 | any sequence of encoded messages, in any chunking, decodes to exactly these with nothing left |
| `ScriptNumber.EncodeScriptNumber` | src/script/Script.cpp:266-286 | for every 64-bit value but the most negative, at most eight bytes that stand for the value, and no shorter string does; the negation overflows exactly for that one |
| `ScriptNumber.DecodeScriptNumber` | src/script/Script.cpp:309-338 | sign and magnitude of any string; undefined exactly when a byte beyond the eighth is not zero, a failed assertion exactly when these are zero and the eighth has its top bit set |
| `ScriptNumber.RoundTrip` | src/script/Script.cpp:266-338 | decoding inverts encoding for every 64-bit value but the most negative |
| `ScriptNumber.MinimalIsShortest` | src/script/Script.cpp:280-285 | a string whose last byte is needed is the shortest for its value |
| `ScriptNumber.ZeroStrings` | src/script/ScriptVM.cpp:70-79 | which strings stand for zero, of either sign |
| `ScriptNumber.KnownNumbers` | src/script/Script.cpp:309-338 | eight strings and the numbers they stand for |
| `ScriptNumber.GetBoolValue` | src/script/ScriptVM.cpp:64-81 | true exactly when the number is not zero, for strings of any length |
| `MultiSig.CheckMultiSig` | src/script/ScriptFunctions.cpp:319-337 | greedy matching succeeds exactly when some strictly increasing assignment of keys to signatures passes every check |
| `MultiSig.TakeNext` | src/script/ScriptFunctions.cpp:323-333 | taking the first key that fits leaves a matching that uses as few keys as any |
| `MultiSig.GiveUp` | src/script/ScriptFunctions.cpp:323-333 | when no key is left for a signature, there is no matching at all |
| `MultiSig.ScriptVM.ScriptCheckMultiSig` | src/script/ScriptFunctions.cpp:338-362 | which stacks are refused, why, and left alone; otherwise exactly 3 + keys + signatures items give way to one boolean, or in the verify form to nothing or an error |
| `MultiSig.ScriptVM.GetValues` | src/script/ScriptVM.cpp:49-62 | items downwards from the top or upwards from the bottom, or failure exactly when the stack does not reach one item further |
| `MultiSig.ScriptVM.Verify` | src/script/ScriptVM.cpp:91-100 | a true top is dropped, any other stays and sets the error |
| `MultiSig.MatchableBackwards` | src/script/ScriptFunctions.cpp:347-349 | reading both lists from the top down makes no difference |
| `MultiSig.RunPushed` | src/script/ScriptFunctions.cpp:340-356 | on what a script pushes, with counts encoded in any way, the result says whether the signatures in order are signatures of some of the keys in order: 0x51 or the empty string, or in the verify form nothing or an error |
| `MultiSig.PushedIsRead` | src/script/ScriptFunctions.cpp:338-352 | what was pushed is read, each list from its end, for up to 19 keys |
| `MultiSig.ReadWasPushed` | src/script/ScriptFunctions.cpp:338-352 | any stack that is not refused was pushed like that |
| `MultiSig.UndecodableIff` | src/script/ScriptFunctions.cpp:342-346 | which stacks are refused because a count cannot be decoded |
| `VarInt.ReadInteger` | src/util/serialization.hpp:101-127 | reads what the format says, leaving the rest; a failure marks the stream bad |
| `VarInt.WriteInteger` | src/util/serialization.hpp:129-148 | the bytes of the value, the low seven bits of a negative one, and the temporary buffer never underflows, for any width |
| `VarInt.WrittenIsRead` | src/util/serialization.hpp:101-148 | every value of the type is read back, and what follows is left alone |
| `VarInt.ReadBackIff` | src/util/serialization.hpp:101-148 | what is written for a value is read back as it if and only if it is not negative |
| `VarInt.ReadIsWritten` | src/util/serialization.hpp:101-148 | whatever is accepted is what the writer emits for a value of the type |
| `VarInt.AcceptedIffWritten` | src/util/serialization.hpp:101-148 | a byte string is accepted whole if and only if it is the encoding of a value of the type |
| `VarInt.KnownBytes` | src/util/serialization.hpp:129-148 | the bytes of eight values, around each change of length |
| `PeerPool.Pool.DoAddPeer` | src/net/PeerPoolImpl.hpp:238-257 | the peer is there with a current active time, others untouched, indexes in agreement; all endpoints stay valid exactly when this one is valid or our own |
| `PeerPool.Pool.FindPeer` | src/net/PeerPoolImpl.hpp:226-237 | the peer of an endpoint, made if missing, indexes in agreement |
| `PeerPool.Pool.GetConnectionPeer` | src/net/PeerPoolImpl.hpp:139-156 | a standby peer that waited longest and long enough, marked as tried; the assertion fails only if some peer that is next has an invalid endpoint, and always if all that are next have |
| `PeerPool.Pool.OfferBesideInvalid` | src/net/PeerPoolImpl.hpp:139-156 | beside a peer at an invalid endpoint every offer uses up an untried peer or fails, and fails when there is none |
| `PeerPool.Pool.OffersRunIntoInvalid` | src/net/PeerPoolImpl.hpp:139-156 | so the assertion fails after at most as many offers as there are untried peers |
| `PeerPool.Pool.SetPeerConnecting` | src/net/PeerPoolImpl.hpp:157-164 | only this peer changes, only its state, and the indexes follow |
| `PeerPool.Pool.SetPeerConnected` | src/net/PeerPoolImpl.hpp:165-174 | the same, with the round-trip time; nothing for an invalid endpoint |
| `PeerPool.Pool.SetPeerDisconnected` | src/net/PeerPoolImpl.hpp:175-188 | back to standby with the error, active time renewed after a connection |
| `PeerPool.Pool.RemoveExpired` | src/net/PeerPoolImpl.hpp:199-224 | exactly the unconnected peers unheard of for five minutes are gone; the loop ends; both indexes are no larger than the pool |
| `PeerPool.Pool.RemovePeerMap` | src/net/PeerPoolImpl.hpp:258-262 | indexes that agree with the pool agree with the pool without this peer |
| `PeerPool.Pool.AddPeerMap` | src/net/PeerPoolImpl.hpp:263-270 | indexes that agree with the pool without this peer agree with the pool and its present fields |
| `PeerPool.Pool.BeginUpdate` | src/net/PeerPoolImpl.hpp:79-88 | an updater takes its peer out of both indexes |
| `PeerPool.Pool.EndUpdate` | src/net/PeerPoolImpl.hpp:89-92 | and puts it back under its new fields, restoring agreement |
| `PeerPool.IndexIsSmall` | src/net/PeerPoolImpl.hpp:218-221 | an index that agrees with the pool is no larger than it |
| `PeerPool.UncheckedPeerTripsAssertion` | src/net/PeerPoolImpl.hpp:146-257 | adding an invalid endpoint to an empty pool makes the next offer fail its assertion |
| `BlockStorage.BlockStorage.FindBlockPos` | src/storage/BlockStorage.cpp:98-121 | the end of the first file with room, from the preferred or current one on; sizes stay below the limit; the search ends |
| `BlockStorage.BlockStorage.WriteBlock` | src/storage/BlockStorage.cpp:66-77 | the new place overlaps no other, lies above everything recorded, and the current file never goes back |
| `BlockStorage.BlockStorage.DoWriteBlock` | src/storage/BlockStorage.cpp:174-200 | any posted write, in any order, completes its block and spoils none |
| `BlockStorage.BlockStorage.ReadBlock` | src/storage/BlockStorage.cpp:129-160 | what the bytes at the position say: a block, or nothing for bad magic, size or end of file |
| `BlockStorage.ReadRecordSplit` | src/storage/BlockStorage.cpp:137-152 | bytes are refused if and only if there are too few, the magic number differs, or the size is zero or above two mebibytes |
| `BlockStorage.ReadIsOnDisk` | src/storage/BlockStorage.cpp:137-160 | what is read is what a record written at that place holds |
| `BlockStorage.RecordReadsBack` | src/storage/BlockStorage.cpp:137-160 | a record on disk reads back as its block |
| `BlockStorage.BlockStorage.WrittenIsReadable` | src/storage/BlockStorage.cpp:129-200 | in every reachable state each block written so far reads back unchanged from its place |

## Left out

- Sockets, name resolution, timers, logging, configuration, the node handshake and the node manager: they rest on the xul library, which is not part of this model.
- The xul library: stream, multimap and time-counter behaviour is assumed to be the usual one. In particular `xul::multimaps::erase` is taken to erase the pair of key and item, `elapsed32` not to be cut to 32 bits, and `open_binary_writing` not to truncate a file that exists.
- LevelDB, OpenSSL and file calls; failures of a disk write.
- Concurrency between the main thread and the disk thread: handlers are atomic steps.
- Disconnecting blocks: `updateCoins` has no way back, so coin runs extend the tip.
- Transaction validation beyond the duplicate check: the scripts of the inputs. What `CoinView.CoinView.UpdateCoins` states holds of any block.
- CoinView.CoinView.constructor: starts on an empty coin database; loading an existing one restores the best block's hash but not its height.
- Block and transaction serialisation, witness data: `ReadBlock` ends with the bytes that would be decoded.
- MessageCodec.MessageEncoder.Encode: the message must fit the encoder's one-mebibyte buffer; what the output stream does beyond it is not part of this model.
- Decoder buffers of 2^31 bytes and more, whose sizes no longer fit an int.
- Raw numeric opcodes, OP_2DUP and OP_3DUP, and the rest of the script machine: no clean specification is met.
- CompactSize, addresses, simple message structs and SipHash: nothing modelled here calls them.
- BlockCache.BlockCache.AddBlockIndex: headers are accepted ones; the null entry that a rejected header leaves in the map is not modelled, nor is `chainTransactionCount`.
- BlockCache.BlockCache.HeightSortedBlocks: the library sort is represented by insertion, and nodes of equal height stand in any order.
- BlockCache.BlockCache.Flush: writes the index only; the flush of the coin view at src/storage/BlockCache.cpp:270 is `CoinView.CoinView.Flush`.
- BlockCache.BlockCache.SortOutBlocks: `validateBlockIndexes` is taken to keep every stored node, and the index was linked by hash: `AddBlockIndex` makes a header added before its parent a root of height 0, while loading would link it under that parent, so such indexes are excluded.
- BlockCache.LoadCache: the same, for indexes that hold a header added before its parent.
- BlockCache.Restart: the same, for indexes that hold a header added before its parent.
- When a flush is due: the clock and the size of the dirty set are a parameter of `BlockCache.BlockCache.MarkDirtyBlock`.
- Statistics per block file, their persistence by index, and the flush of file information.
- Floating point, parsing and formatting of 256-bit numbers.
