# Bullet Ledger: verified model

A Dafny model of the core of Bullet Ledger, and proofs about it. There are four parts.

**The commitment engine** (`ledger/src/kzg`, `ledger/src/utils/bigint.h`). Scalars are the integers
modulo an arbitrary odd prime below 2^256. A point of G1 or G2 is its exponent, so multiplying and
adding points are `Mul` and `Add`, and a pairing check is an equality of products. The in-place FFT,
its inverse, Montgomery batch inversion, the quotient in evaluation form and the commitment are
methods with loops over arrays, proved against polynomial evaluation. On top of them the proof made
by `prove_kzg` opens, and the batch check accepts exactly what it should. The number of evaluations is
any power of two, where the code passes 256.
Files: `Scalars`, `Polynomials`, `BitReversal`, `Fft`, `InverseFft`, `Quotients`, `QuotientProof`,
`Kzg`, `BigInts`, `SettingsBuild`; `Options` is shared by all parts.

**The per-block state trie** (`ledger/src/trie`, `ledger/src/ledger/ledger.cpp`,
`ledger/src/blocks/processing.cpp`). A store maps node ids (path and block) to branches and leaves.
`Lookup` is what a block reads. Each operation is first a function on the flat store; about these
functions the main results are proved: every run of `create_account`, `put`, `replace`,
`justify_block` and `prune_block` does what a map from blocks to maps from accounts to slots does.
Finalizing is independent of the order of its four tasks. On every run that opens blocks only on
finished ones and justifies only finished ones, the proofs generated from canonical and from every
finalized block pass the verifier at every moment. What create_account, put and replace do under blocks
that others build on is stated exactly too, for every block's readings.
Files: `TrieTypes`, `Children`, `Trie`, `TrieOps`, `Isolation`, `Ownership`, `Sharing`, `Pruning`,
`Justifying`, `LedgerSpec`, `LedgerRuns`, `SharedChanges`, `FreeWrites`, `FailingInputs`, `Finalizing`,
`FinalizeRanges`, `FinalizeBlock`, `ExistenceProofs`, `ProofChecks`, `LedgerEvents`, `SealedTrees`,
`SealedRuns`.

**Cache and database** (`ledger/src/utils/lru.h`, `ledger/src/ledger/alloc.cpp`, the codecs and
`nodeid.cpp`). The cache is a class with list cells and an index, the allocator a class with that
cache and a database. `Flat()` is the store behind both, where a canonical root that is nowhere counts
as the empty one that `get_root` makes. The methods of branches, leaves and ledger are then written
again as they run, loading, recaching and changing cached nodes in place, and each is proved equal to
its function on `Flat()`. Residency is explicit: `Calm(hot, n)` says that the nodes an operation holds
are the most recently used ones, and that n more loads evict neither one of them nor a node that would
not come back. Between operations `Allocator.Rested` gives `Calm` again, so whole runs over cache and
database, finalize_block included, refine the map of views (`CachedRuns.PerformAll`, from a new ledger
`CachedRuns.FreshRun`). What a run must leave free at each step is `CachedRuns.Fits`: room for the nodes of
one call, and room beside the whole store while some root would not come back from an eviction: one with
all 256 children, or an empty one of a block other than canonical (`CachedRuns.LostRoot`).
Files: `Lru`, `Allocator`, `TrieMethods`, `CreateMethods`, `BlockMethods`, `LedgerMethods`,
`CachedRuns`, `FinalizeMethods`, `Codec`, `NodeIds`.

**Two Rust structures** (`src/spsc.rs`, `src/blockchain/priority.rs`). The queue is a step system,
one step per atomic access or slot access, with loads that may return old values. The pool is a class
with a map and a heap with lazy deletion.
Files: `Spsc`, `SpscWrap`, `PriorityPool`.

## What turned out not to hold, and exactly when it does

- Copy-on-write isolation: what happens under block b is seen by a block built on b. The exact
  conditions are `Sharing.IsolatedIff` for put and replace, `SharedChanges.CreateIsolatedIff` for
  create_account and `SharedChanges.PruneIsolatedIff` for prune_block. `SharedChanges.NotIsolated` shows
  all three failing on a store that two calls reach.
- A new block starts as its predecessor exactly if the predecessor's root does not have all 256
  children; then it starts empty (`LedgerRuns.OpenCopiesIff`, an input in `FailingInputs.FullCopied`).
- A justified block keeps its id while its root is gone, so a block opened on its hash starts empty and
  not as canonical (`LedgerRuns.OpenedOnJustified`).
- Justifying: if b has no accounts and canonical has some, canonical does not become empty.
  `Justifying.JustifyBlock` states the if-and-only-if, `FailingInputs.JustifyKeepsCanonical` gives a run.
- A finalized block is finished exactly if everything was that it took over from other blocks
  (`ExistenceProofs.FinalizedIsSealed`): finalize skips entries of other blocks. Finalized over an
  unfinished block, its proofs for those accounts are generated and wrong at the root
  (`SealedRuns.UnfinishedFails`); whatever the other challenges are, at most one value of the last one lets
  them pass (`SealedRuns.UnfinishedRejected`). `SealedRuns.FinishedProve` is about runs that avoid this.
- A branch with 256 children is written with a count byte of zero and comes back empty
  (`Codec.BranchRoundTrip`, both directions, `Codec.FullBranchLost`). `Allocator.EvictionKeepsIff` says for which nodes an
  eviction changes the flat store; besides such branches they are empty ones, which are not written back.
- `sub_u64` adds one to the borrow that it should only carry, so it is a subtraction only while the
  lowest limb is at least the argument (`BigInts.BigInt.SubU64`, `BigInts.BorrowFails`). `build_roots` calls it on an odd
  number with argument one, where it is exact.
- The key of a value is the id of its leaf's child, unless the leaf is at level 13, where two accounts part
  only in byte 13: then the slot takes the place of the level byte (`NodeIds.ValueKey`).
- The queue is first in, first out on all runs exactly if its capacity is zero or divides the number
  of `usize` values (`SpscWrap.FifoIff`). Otherwise it is as long as no more pushes were begun than there
  are such values; refused pushes do not count (`Spsc.RunSafe`). The chute
  has a third of the queue's capacity, so for a queue of a power of two it is the chute that wraps
  unevenly.
- The pool can give out an item that is not a maximum after a key was inserted again with another
  priority (`PriorityPool.StaleRank`, three inserts and a pop). It gives out a maximum on every pop
  exactly if every live key whose best heap entry no other live key tops has the greatest priority
  (`PriorityPool.PopGreatestIff`).

Where comments and code differ, the model follows the code. `priority.rs:117` says that the lowest
priority is evicted; the code evicts the greatest. `ledger/README.md` says that prune deletes the
nodes whose block id does not match; the code deletes those that match. `create_account` takes a
previous block and does not use it (`ledger.cpp:257-260`).

## Model

| member | source | states |
|---|---|---|
| `BitReversal.RevInvolution` | ledger/src/kzg/fft.cpp:27-36 | reversing the bits of an index twice gives the index back |
| `BitReversal.Increment` | ledger/src/kzg/fft.cpp:30-33 | the in-place carry turns the reversal of i-1 into the reversal of i |
| `BitReversal.Permute` | ledger/src/kzg/fft.cpp:28-36 | the swap loop moves every element to the reversal of its index, so it is a permutation |
| `Fft.CombineDft` | ledger/src/kzg/fft.cpp:46-55 | one butterfly pass over the transforms of the even and odd halves is the transform of the whole |
| `Fft.LayersCorrect` | ledger/src/kzg/fft.cpp:38-57 | all layers over the bit-reversed input are the values of the polynomial at all powers of the root |
| `Fft.Butterfly` | ledger/src/kzg/fft.cpp:44-55 | one block is replaced by the combination of its halves, everything else stays |
| `Fft.Layer` | ledger/src/kzg/fft.cpp:40-56 | one layer combines all blocks of a size |
| `Fft.FftInPlace` | ledger/src/kzg/fft.cpp:21-58 | the array ends as the evaluations of the input polynomial at w^0, w^1, ... for every power-of-two length and every w with w^(n/2) = -1 |
| `InverseFft.DftTwice` | ledger/src/kzg/fft.cpp:61-71 | transforming with w and then with its inverse multiplies by n (orthogonality of the roots) |
| `InverseFft.InterpolateDft` | ledger/src/kzg/fft.cpp:61-71 | inverse after forward transform is the identity |
| `InverseFft.DftInterpolate` | ledger/src/kzg/fft.cpp:61-71 | forward after inverse is the identity: the inverse interpolates |
| `InverseFft.InverseFftInPlace` | ledger/src/kzg/fft.cpp:61-71 | the array ends as the coefficients of the interpolating polynomial |
| `Quotients.BatchInv` | ledger/src/kzg/polynomial.cpp:76-93 | false exactly if some input is zero; otherwise every output is the inverse of its input |
| `Quotients.DeriveQuotient` | ledger/src/kzg/polynomial.cpp:95-157 | no result exactly if z is among the points and occurs twice, or is zero among several; otherwise the quotient values, with the separately summed one where the point is z |
| `QuotientProof.NoSmallerPeriod` | ledger/src/kzg/settings.cpp:47-55 | a root that passes the two sanity checks has no smaller period |
| `QuotientProof.RootsDistinct` | ledger/src/kzg/settings.cpp:42-45 | the n roots are pairwise different |
| `QuotientProof.SharesBalance` | ledger/src/kzg/polynomial.cpp:143-153 | z times the separately summed value cancels the weighted quotient values at all other roots, up to every loop index |
| `QuotientProof.QuotientCorrect` | ledger/src/kzg/polynomial.cpp:95-157 | the values are those of the polynomial quotient of f - f(z) by X - z at every root, the root z itself included |
| `QuotientProof.TransformInjective` | ledger/src/kzg/polynomial.cpp:95-157 | there is only one polynomial of that length with these values |
| `Kzg.CommitG1` | ledger/src/kzg/polynomial.cpp:25-39 | the loop over the powers is evaluation at the secret |
| `Kzg.ProveKzg` | ledger/src/kzg/kzg.cpp:25-52 | always a proof, and it is the value at the secret of the polynomial quotient |
| `Kzg.VerifyKzg` | ledger/src/kzg/kzg.cpp:54-93 | accepts exactly if c - y = pi (s - z) |
| `Kzg.ProofOpens` | ledger/src/kzg/kzg.cpp:25-93 | for every vector, index and secret the proof satisfies the verifier's equation against the commitment of the same vector |
| `Kzg.BatchVerify` | ledger/src/kzg/kzg.cpp:118-187 | accepts exactly if no challenge is zero and the weighted sum of all defects is zero |
| `Kzg.BatchComplete` | ledger/src/kzg/kzg.cpp:118-187 | openings that each verify pass the batch for all challenges |
| `Kzg.BatchDetectsOne` | ledger/src/kzg/kzg.cpp:118-187 | one bad opening among good ones fails the batch for every nonzero challenge |
| `Kzg.BatchHidesOnce` | ledger/src/kzg/kzg.cpp:118-187 | with one wrong opening, whatever the others are, two values of its challenge never give the same sum, so at most one passes |
| `BigInts.BigInt.DivU64` | ledger/src/utils/bigint.h:124-136 | limb-wise division is exact division with remainder, and the result is trimmed |
| `BigInts.BigInt.SubU64` | ledger/src/utils/bigint.h:108-122 | for a number at least as large as the argument, the result is the difference if and only if the lowest limb is at least the argument (or the argument is zero) |
| `BigInts.BorrowFails` | ledger/src/utils/bigint.h:108-122 | 2^64 less one, computed so, is not 2^64 - 1 |
| `BigInts.ModularPow` | ledger/src/kzg/helpers.cpp:96-114 | base^exponent for every trimmed multi-limb exponent, with termination |
| `SettingsBuild.ChecksMakePrimitive` | ledger/src/kzg/settings.cpp:47-55 | the two sanity checks imply w^(n/2) = -1 |
| `SettingsBuild.BuildRoots` | ledger/src/kzg/settings.cpp:22-58 | roots[i] = w^i, inverse roots are inverses, w is g^((p-1)/n); the tables are returned exactly if the checks hold |
| `SettingsBuild.BuildPowers` | ledger/src/kzg/settings.cpp:66-94 | the two vectors hold the powers of the secret |
| `SettingsBuild.InitSettings` | ledger/src/kzg/settings.cpp:96-106 | the settings meet everything the prover and verifier rely on |
| `Children.GetChild` | ledger/src/trie/branch.cpp:152-161 | the first entry whose range holds the byte |
| `Children.InsertChild` | ledger/src/trie/branch.cpp:102-131 | the swap loop inserts or updates in order |
| `Children.InsertEntry` | ledger/src/trie/branch.cpp:102-131 | after insertion the byte has the block and every other byte its old entry |
| `Children.InsertSorted` | ledger/src/trie/branch.cpp:102-131 | entries stay sorted and distinct |
| `TrieOps.ReplaceRefused` | ledger/src/trie/branch.cpp:215-248 | a refused put or replace changes nothing |
| `TrieOps.ReplaceResult` | ledger/src/trie/leaf.cpp:201-225 | the result code is what the block's reading says |
| `TrieOps.ReplaceConfined` | ledger/src/trie/branch.cpp:240-245 | only nodes of the writing block change, and the store stays well formed |
| `TrieOps.ReplaceReads` | ledger/src/trie/branch.cpp:215-248 | afterwards the block reads the same, but for the named slot of the named account |
| `TrieOps.CreateResult` | ledger/src/trie/leaf.cpp:253-258 | refused exactly if the account exists |
| `TrieOps.CreateConfined` | ledger/src/trie/branch.cpp:302-352 | only nodes of the writing block change, and the store stays well formed |
| `TrieOps.SplitReads` | ledger/src/trie/leaf.cpp:253-307 | a split keeps the old account and adds the new one, whatever bytes they share |
| `TrieOps.CreateReads` | ledger/src/trie/branch.cpp:302-352 | afterwards the block reads the same, but for the new account |
| `Isolation.OthersUndisturbed` | ledger/src/ledger/alloc.cpp:74-100 | a change of b's nodes only is invisible to every block that has no entry of b |
| `Ownership.OwnedChain` | ledger/src/trie/branch.cpp:419-441 | every node of b is reached from b's root through entries of b |
| `Ownership.ReplaceOwned` | ledger/src/trie/branch.cpp:215-248 | writing keeps that |
| `Ownership.CreateOwned` | ledger/src/trie/branch.cpp:302-352 | creating keeps that |
| `Sharing.IsolatedIff` | ledger/src/trie/branch.cpp:237-245 | a write under b leaves block c's readings alone if and only if c does not reach the account through b, or the value was there already |
| `SharedChanges.CreateSeenFrom` | ledger/src/trie/branch.cpp:302-352 | what block c reads after a successful create under b: the new account exactly if c's descent to it meets a node of b |
| `SharedChanges.CreateIsolatedIff` | ledger/src/trie/branch.cpp:302-352 | a successful create under b leaves all of block c's readings alone if and only if c's descent to the account meets no node of b |
| `SharedChanges.PruneIsolatedIff` | ledger/src/trie/branch.cpp:419-453 | pruning b leaves all of block c's readings alone if and only if no descent from c meets a node of b |
| `SharedChanges.ExampleReached` | ledger/src/ledger/ledger.cpp:198-264 | two calls on the empty ledger lead to a store in which block 2 is built on block 1 |
| `SharedChanges.NotIsolated` | ledger/src/ledger/ledger.cpp:97-132 | there a put, a create and a prune under block 1 each change what block 2 reads |
| `FreeWrites.FreeCreate` | ledger/src/ledger/ledger.cpp:246-264 | any create_account, also under a block that others build on: refused exactly if the block reads the account; otherwise it appears to exactly the blocks that reach its place through the writing block, and nothing else changes |
| `FreeWrites.FreeWrite` | ledger/src/ledger/ledger.cpp:198-243 | the same for put and replace: the answer is what the block's own reading says, and exactly the blocks that reach the account through it see the slot change |
| `FreeWrites.FreeRun` | ledger/src/ledger/ledger.cpp:198-264 | the store stays sound along every run of these calls, so both hold at every moment of it |
| `FailingInputs.FullCopied` | ledger/src/ledger/ledger.cpp:97-132 | a block with an account for every first byte, and one opened on it that has none |
| `FailingInputs.JustifyKeepsCanonical` | ledger/src/blocks/processing.cpp:113-124 | four calls after which justifying a block without accounts leaves canonical's account |
| `Pruning.PruneBlock` | ledger/src/blocks/processing.cpp:128-141 | exactly the nodes of b go, every other record and every other block's reading stays |
| `Justifying.JustifyCorrect` | ledger/src/trie/branch.cpp:458-510 | below any node, canonical ends with what b read and points only to canonical nodes |
| `Justifying.JustifyBlock` | ledger/src/blocks/processing.cpp:113-124 | only canonical nodes remain; canonical reads what b read if and only if b has accounts or canonical has none |
| `LedgerRuns.OpenReads` | ledger/src/ledger/ledger.cpp:97-132 | opening a block makes it read as its predecessor, or nothing if that one's root has all 256 children, and changes no other reading |
| `LedgerRuns.OpenCopiesIff` | ledger/src/ledger/ledger.cpp:97-132 | a new block reads as its predecessor if and only if the predecessor's root has fewer than 256 children |
| `LedgerRuns.FullIff` | ledger/src/trie/branch.cpp:64-100 | a root has 256 children if and only if the accounts of its block start with every byte |
| `LedgerRuns.JustifiedStaysNamed` | ledger/src/blocks/processing.cpp:113-124 | after justify_block the hash still has its id and no root |
| `LedgerRuns.OpenedOnJustified` | ledger/src/ledger/ledger.cpp:97-132 | a block opened on a justified hash starts without accounts, whatever canonical has |
| `LedgerRuns.StepRefines` | ledger/src/ledger/ledger.cpp:198-264 | every allowed operation does to the store what the map of views does, with the same code |
| `LedgerRuns.RunRefines` | ledger/src/ledger/ledger.cpp:48-264 | the same for every run, from the empty ledger on |
| `LedgerRuns.StartRefines` | ledger/src/ledger/ledger.cpp:48-67 | the empty ledger refines the empty map |
| `LedgerRuns.StaysExclusive` | ledger/src/ledger/ledger.cpp:97-132 | a block nobody builds on stays so under every operation that does not build on it |
| `FinalizeRanges.FinalizeClosed` | ledger/src/trie/branch.cpp:354-417 | the recursive pass gives every node of the block its finished form |
| `FinalizeRanges.LoopClosed` | ledger/src/trie/branch.cpp:370-410 | from any half-done state a range finishes exactly the bytes it reaches (idempotence, and the early break) |
| `FinalizeBlock.AnyOrder` | ledger/src/blocks/processing.cpp:65-80 | any ranges that cover all bytes, in any order and with any overlap, give what one pass gives |
| `FinalizeBlock.FourBatches` | ledger/src/blocks/processing.cpp:37-103 | so the four tasks do in every order, root commitment included |
| `FinalizeBlock.FinalizeReads` | ledger/src/blocks/processing.cpp:31-103 | finalizing changes no reading of any block |
| `ExistenceProofs.FinalizedIsSealed` | ledger/src/trie/branch.cpp:397-413 | a finalized block is sealed, every entry the hash of its child's commitment, if and only if all that it took over from other blocks was |
| `ExistenceProofs.StaleRejected` | ledger/src/blocks/processing.cpp:227-259 | if it does not, then for any other challenges at most one value of the last one satisfies the batch equation |
| `ExistenceProofs.TopOpensIff` | ledger/src/trie/branch.cpp:179-213 | the opening at the root is right if and only if the root's entry holds the hash of its child's commitment |
| `Kzg.OpensToOne` | ledger/src/kzg/kzg.cpp:54-93 | one opening is right for one value only |
| `ExistenceProofs.OpenPathResult` | ledger/src/trie/branch.cpp:179-213 | generate_proof finds nodes exactly for an existing nonzero slot |
| `ExistenceProofs.PathConsistent` | ledger/src/trie/leaf.cpp:177-199 | the opened vectors have the commitments and, at the opened indices, the values the verifier derives |
| `ExistenceProofs.ExistenceComplete` | ledger/src/blocks/processing.cpp:144-310 | the batch equation holds for every existing nonzero slot of a sealed block and all challenges |
| `ExistenceProofs.FinalizedBlockProves` | ledger/src/blocks/processing.cpp:31-225 | the same for every block right after finalizing it on finished predecessors |
| `SealedTrees.ReplaceOthers` | ledger/src/trie/branch.cpp:215-248 | a write leaves everything finished that its block took over |
| `SealedTrees.CreateOthers` | ledger/src/trie/branch.cpp:302-352 | so does creating an account, splits included |
| `SealedTrees.OpenedOthers` | ledger/src/ledger/ledger.cpp:97-132 | a block opened on a sealed one takes over sealed subtrees only |
| `SealedTrees.JustifySealed` | ledger/src/trie/branch.cpp:458-510 | a sealed block is sealed as the canonical one, with the same commitments |
| `SealedRuns.ChangeFinished` | ledger/src/ledger/alloc.cpp:74-100 | a change of b's nodes only unseals no other block, if nobody builds on b |
| `LedgerEvents.FinalizeRefines` | ledger/src/blocks/processing.cpp:31-103 | finalizing keeps the store sound and every reading |
| `LedgerEvents.EventRunRefines` | ledger/src/blocks/processing.cpp:31-141 | runs with finalize_block in them answer and read as the maps do |
| `SealedRuns.EventKeeps` | ledger/src/blocks/processing.cpp:31-141 | every call, finalize_block included, that keeps to the rules answers as the maps do and keeps canonical and the finished blocks sealed |
| `SealedRuns.FinishedProve` | ledger/src/blocks/processing.cpp:31-310 | at the end of every such run from the empty ledger, the openings for every nonzero slot of canonical or a finished block satisfy the batch equation, for all challenges |
| `SealedRuns.UnfinishedFails` | ledger/src/trie/branch.cpp:370-376 | block 2 finalized over the unfinished block 1: not sealed, and the openings for the account of block 1 are wrong at the root |
| `SealedRuns.UnfinishedRejected` | ledger/src/blocks/processing.cpp:227-259 | there, for any other challenges, at most one value of the last one satisfies the batch equation |
| `ProofChecks.GenerateProof` | ledger/src/blocks/processing.cpp:168-224 | a proof per commitment at the index derived from the key; none exactly if there are more than eight vectors |
| `ProofChecks.DeriveZsYs` | ledger/src/blocks/processing.cpp:261-310 | the indices and values, from key, value and commitments only; none exactly if there are more than ten |
| `ProofChecks.ValidProof` | ledger/src/blocks/processing.cpp:227-259 | accepts exactly if the last commitment is on the key's path in the block, which is opened if it is not there, no challenge is zero and the weighted defects sum to zero |
| `ProofChecks.ProveAndCheck` | ledger/src/blocks/processing.cpp:144-259 | prover and verifier run one after the other: accepted exactly if no challenge is zero |
| `Lru.LruCache.Consistent` | ledger/src/utils/lru.h:70-76 | list and map hold the same distinct keys, at most as many as the capacity |
| `Lru.LruCache.Get` | ledger/src/utils/lru.h:28-35 | the value, whose key comes to the front; contents unchanged |
| `Lru.LruCache.Put` | ledger/src/utils/lru.h:37-57 | the value is in front; over capacity exactly the least recently used key leaves and is returned |
| `Lru.LruCache.Remove` | ledger/src/utils/lru.h:59-68 | the key leaves list and map |
| `Allocator.EvictionKeepsIff` | ledger/src/trie/branch.h:93-96 | an eviction changes no view exactly if the node is storable, an empty branch with the same record, or the empty canonical root without a record; and never another view |
| `Allocator.Rested` | ledger/src/ledger/alloc.cpp:56-142 | between operations the cache is calm with all its room if every node would come back from an eviction, and with what the store leaves otherwise |
| `Allocator.NodeAllocator.CacheNode` | ledger/src/ledger/alloc.cpp:56-72 | the view of the id is the node, up to the one node that leaves; when calm nothing else changes |
| `Allocator.NodeAllocator.LoadNode` | ledger/src/ledger/alloc.cpp:103-142 | the node of the flat store, or none if it has none or only the empty canonical root; when calm no view changes |
| `Allocator.NodeAllocator.Recache` | ledger/src/ledger/alloc.cpp:74-100 | NOT_EXIST_RECACHE exactly if the node is not cached, never when it is in use; only the new id's view changes, and the old one to its re-read form |
| `Allocator.NodeAllocator.DeleteNode` | ledger/src/ledger/alloc.cpp:144-171 | the id leaves the flat store, nothing else changes |
| `TrieMethods.MatchingPath` | ledger/src/trie/leaf.cpp:160-174 | nothing exactly if the account bytes from the level on agree; else the number that agree |
| `TrieMethods.Replace` | ledger/src/trie/branch.cpp:215-248 | over cache and database, code and flat store are those of the function on the flat store |
| `TrieMethods.Adopt` | ledger/src/trie/branch.h:102-109 | recache and change in place: one update of the flat store under the writing block |
| `CreateMethods.SplitIsLevels` | ledger/src/trie/leaf.cpp:260-304 | the split is the two leaves and one branch per shared byte, set in the order of the code |
| `CreateMethods.MakeBranches` | ledger/src/trie/leaf.cpp:269-280 | the loop builds those branches |
| `CreateMethods.Split` | ledger/src/trie/leaf.cpp:253-307 | over cache and database, the flat store after the split |
| `CreateMethods.CreateAccount` | ledger/src/trie/branch.cpp:302-352 | over cache and database, code and flat store are those of the function |
| `BlockMethods.Prune` | ledger/src/trie/branch.cpp:419-453 | the same for prune |
| `BlockMethods.Justify` | ledger/src/trie/branch.cpp:458-510 | the same for justify of a block over canonical, with room for each of its nodes once |
| `FinalizeMethods.BranchPoly` | ledger/src/trie/branch.h:111-118 | the fill loop gives the scalar of every byte's entry |
| `FinalizeMethods.LeafPoly` | ledger/src/trie/leaf.h:71-77 | skipping zero hashes gives the slot values all the same |
| `FinalizeMethods.Finalize` | ledger/src/trie/branch.cpp:354-417 | over cache and database, the flat store after the recursive pass, and the node's commitment |
| `FinalizeMethods.FinalizeRoot` | ledger/src/blocks/processing.cpp:65-95 | for every order of the four tasks, the finished form of every node and the hash of the root commitment |
| `LedgerMethods.Ledger.CreateBlockId` | ledger/src/ledger/ledger.cpp:48-62 | a known hash keeps its id, a new one gets the next |
| `LedgerMethods.Ledger.OpenRoot` | ledger/src/ledger/ledger.cpp:97-132 | the flat store after get_root, with the root in use |
| `LedgerMethods.Ledger.Replace` | ledger/src/ledger/ledger.cpp:198-243 | put and replace are the write step over the flat store |
| `LedgerMethods.Ledger.CreateAccount` | ledger/src/ledger/ledger.cpp:246-264 | create_account is the create step |
| `LedgerMethods.Ledger.JustifyBlock` | ledger/src/blocks/processing.cpp:113-124 | justify_block is the justify step |
| `LedgerMethods.Ledger.PruneBlock` | ledger/src/blocks/processing.cpp:128-141 | prune_block is the prune step |
| `LedgerMethods.Ledger.Perform` | ledger/src/ledger/ledger.cpp:198-264 | one operation over cache and database: the step of the flat store, the answer of the maps, and a cache that is stable again |
| `CachedRuns.FinalizeLedger` | ledger/src/blocks/processing.cpp:31-103 | finalize_block is the finalize step, in every order of its tasks, and returns the hash of the root's commitment |
| `CachedRuns.Call` | ledger/src/ledger/ledger.cpp:198-264 | any call over cache and database: the step of the flat store, the answer of the maps, and a cache that is stable again |
| `CachedRuns.PerformAll` | ledger/src/ledger/ledger.cpp:198-264 | any run of calls, finalize_block included, that keeps to the rules and finds its room at each step: the run of the flat store, the answers of the maps, and every block reads as its map |
| `CachedRuns.EventAbsent` | ledger/src/ledger/ledger.cpp:97-132 | whether an empty canonical block is there makes no difference to the maps |
| `CachedRuns.FreshRun` | ledger/src/ledger/ledger.cpp:25-41 | the same from a new ledger over an empty database, against the maps from nothing |
| `CachedRuns.LostRoot` | ledger/src/trie/branch.h:93-96 | a block with an empty root that was evicted comes back with canonical's accounts |
| `Codec.BranchRoundTrip` | ledger/src/trie/branch.cpp:28-100 | decoding gives the branch with its count modulo 256 of children; the branch itself if and only if it has fewer than 256 |
| `Codec.FullBranchLost` | ledger/src/trie/branch.cpp:28-100 | the branch with an entry for every byte comes back without any |
| `Codec.LeafRoundTrip` | ledger/src/trie/leaf.cpp:25-140 | every leaf comes back with its slots, block ids and count |
| `Codec.BranchToBytes` | ledger/src/trie/branch.cpp:64-100 | the loop writes the encoding |
| `Codec.BranchFromBytes` | ledger/src/trie/branch.cpp:38-61 | the loop reads it |
| `Codec.LeafToBytes` | ledger/src/trie/leaf.cpp:80-140 | the loop writes the encoding, records of empty slots left out |
| `Codec.LeafFromBytes` | ledger/src/trie/leaf.cpp:42-73 | the loop reads it |
| `NodeIds.SameBytes` | ledger/src/trie/nodeid.cpp:56-58 | two ids are equal exactly if their 16 bytes are |
| `NodeIds.IdBuffer.IncrementLevel` | ledger/src/trie/nodeid.cpp:91-93 | the byte past the path joins it; at level 13 only the level changes |
| `NodeIds.IdBuffer.SetChildNibble` | ledger/src/trie/nodeid.cpp:95-97 | the byte past the path, or the level byte itself at level 13 |
| `NodeIds.IdBuffer.SetSelfNibble` | ledger/src/trie/nodeid.cpp:98-100 | the last byte of the path, or the level byte at level 14; nothing else changes |
| `NodeIds.ValueKey` | ledger/src/trie/leaf.cpp:325-366 | the first value key of a leaf: the child's id below level 13; at level 13 the leaf's id with the slot in place of the level |
| `NodeIds.NextId` | ledger/src/trie/branch.cpp:170-174 | this way of building a child's id gives the child's id, bytes past the level zero |
| `NodeIds.EveryChild` | ledger/src/trie/branch.cpp:459-467 | so does raising the level once and setting block and last byte for each entry |
| `NodeIds.SplitIds` | ledger/src/trie/leaf.cpp:265-297 | so does the split, for its branches and both leaves |
| `Spsc.StepGood` | src/spsc.rs:147-175 | every step of either thread keeps the invariant |
| `Spsc.RunSafe` | src/spsc.rs:147-175 | on every interleaving with old loads: first in first out, no panic, written slots empty and taken ones full, never both at one slot, full and empty reported truthfully; without bound if the capacity is zero or divides the counter range, else as long as no more pushes were begun than that range; refused ones do not count |
| `Spsc.ChannelSafe` | src/spsc.rs:70-114 | queue and chute of one channel together |
| `SpscWrap.WrapBreaks` | src/spsc.rs:155-173 | otherwise there is a run that loses the order |
| `SpscWrap.FifoIff` | src/spsc.rs:147-175 | first in first out on all runs if and only if the capacity is zero or divides the counter range |
| `PriorityPool.Drain` | src/blockchain/priority.rs:71-86 | pops in a row never climb in priority, never repeat a key and miss none |
| `PriorityPool.PriorityPool.DrainAll` | src/blockchain/priority.rs:71-86 | popping until nothing comes gives every item once, in non-increasing priority, if entries carry live priorities |
| `PriorityPool.PriorityPool.Clean` | src/blockchain/priority.rs:88-99 | only stale entries go; the top is live, or nothing is |
| `PriorityPool.PriorityPool.Peek` | src/blockchain/priority.rs:62-65 | a live key whose best entry no other live key tops, of greatest priority if entries carry live priorities; none exactly if nothing is live |
| `PriorityPool.PriorityPool.Pop` | src/blockchain/priority.rs:71-86 | the item of such a key leaves, of greatest priority if entries carry live priorities; none exactly if nothing is live |
| `PriorityPool.PopsToIff` | src/blockchain/priority.rs:71-86 | popping until a live key turns up can give exactly the keys whose best entry no other live key tops |
| `PriorityPool.PopGreatestIff` | src/blockchain/priority.rs:71-86 | so every pop gives a maximum if and only if each of those keys has the greatest priority |
| `PriorityPool.PriorityPool.Insert` | src/blockchain/priority.rs:101-126 | the item is live, unless the pool was full: then the key with the best entry is given up, which may be the new one; if the key was live or there was room, entries go on carrying live priorities if and only if those of the key agree |
| `PriorityPool.PriorityPool.Evict` | src/blockchain/priority.rs:117-125 | the loop ends, within capacity, and gives up a key whose best entry no other live key tops |
| `PriorityPool.PriorityPool.RemoveOne` | src/blockchain/priority.rs:128-133 | the key is gone, and what was promised of the other entries still holds |
| `PriorityPool.StaleRank` | src/blockchain/priority.rs:110-114 | keys 1, 2 and 1 again inserted with priorities 1, 5 and 9: the pop gives 5 and leaves 9 |

## Left out

- Account and value deletion (`remove`, `delete_account`): the code has no settled behaviour there.
- Split branches and shards (`is_split_`, `shard_prefix_`, a nonzero split map): no code here builds one.
- The stored `count_` of a leaf: only carried through the codec; no property of it is stated.
- Value records under leaf slots, LMDB transactions and errors other than "not found", the FFI.
- Curve, pairing and hash internals: points are exponents, the hash of a commitment is an arbitrary function (nonzero where finalizing needs it), the challenges of a batch are parameters. No soundness or collision claim is made.
- `from_hex`, `from_bytes`, `shr1` and `compare` of `BigInt`, `multiply_binomial`, `differentiate_polynomial`: easy and not needed.
- `src/blockchain/consensus.rs`, the server, peer, rpc and transaction code.
- Locks: the operations of cache and ledger run one at a time, and the four tasks of finalize_block one after the other in any order.
- ExistenceProofs.OpenPathResult: collecting the nodes of a proof is modelled on values, so it says nothing about the cache.
- ProofChecks.ValidProof: the path check is modelled on values, so it says nothing about the cache; an empty list of commitments, where the code reads past its end, is excluded.
- BlockMethods.Justify: covers blocks whose entries are canonical or their own, which is what the code asks of its caller. On an error the entries cleared so far are not modelled.
- FinalizeMethods.Finalize: asks that the entries' nodes exist, so the load error is not modelled.
- Allocator.NodeAllocator.CacheNode: the destructor of an overwritten cache entry, which writes a record that the new entry hides, is not modelled.
- LedgerMethods.Ledger.CreateBlockId: asks that fewer than 65535 ids were handed out, so the wrap of the counter is not modelled.
- TrieOps.CreateReads: asks that no other account has the same first 13 bytes, which is all a node id holds; so do TrieOps.CreateConfined, TrieOps.SplitReads and everything built on them.
- LedgerRuns.RunRefines: the rules ask that nobody builds on a block that is written or pruned, and that a justified block is the only one pending. Writes outside the rules are covered by FreeWrites.FreeRun, pruning by SharedChanges.PruneIsolatedIff; justifying over other pending blocks is not.
- CachedRuns.PerformAll: asks for the room of `CachedRuns.Fits`, and that branches below the roots have fewer than 256 children, because recache writes them under their old id.
- Pruning.PruneBlock: the value records that leaf prune and justify walk are not modelled, so nothing is said of these loops below a leaf at level 13, where the keys of `NodeIds.ValueKey` no longer are ids and a second slot of the block would be written outside the path bytes; the same holds for Justifying.JustifyBlock and what is built on them.
- Spsc.ChannelSafe: the event descriptor is not modelled.
- PriorityPool.PriorityPool.Pop: reuse of key and value objects is not modelled, and the order among equal priorities is left open.
- Codec.LeafFromBytes: a record for a slot past the last one, which the code would write out of bounds, is ignored.
