# A verified model of the trie, the consensus round and block execution

This Dafny project models the parts of the repository that decide what the chain's state is and
proves what they promise. `dafny verify dfyconfig.toml` checks all of it.

**The Merkle Patricia trie** (`Nibbles`, `Trie`, `History`, `Thinning`, `Store`, `MerkleTrie`, `MerkleProof`).
`Trie` is the radix-16 tree as an inductive datatype, with insertion and deletion written the way
`baseTrie.js` rewrites its nodes. `Store` says how a tree is laid out in a hash-addressed store:
children are referred to by hash, or kept inside their parent when their encoding is shorter than
32 bytes. `MerkleTrie.CheckpointTrie` is the imperative trie: it walks the store, splits and merges
nodes on a stack, rebuilds the path bottom-up into a batch, and layers checkpoints over a scratch
store. Each of its methods is proved against the tree functions, and the tree functions against
plain maps. The hash is an uninterpreted injective function of the node (`Store.Ideal`), and the
size of an encoding is uninterpreted. Main results:

- a history over the store answers like a map throughout if and only if each of its deletions meets
  neither the empty key at a root branch nor a branch whose only other entry is its own value; puts of
  any keys, and puts and deletes on keys of one length, always do;
- a safe history's tree depends on its contents alone if and only if it is canonical; puts of any keys
  and histories on keys of one length leave such trees, and a deletion does so exactly when it does not
  clear the value of a branch with one slot in use;
- an earlier root gives back its contents, and stands for nothing else, whatever is written later;
- changes, nested checkpoints, commits and reverts behave like a stack of maps under the same condition;
  while a checkpoint is open the main store stays as it was, a revert leaves nothing in it, and the
  outermost commit adds to it exactly what the root reaches;
- for every trie and every key, accepted Merkle proofs tell the truth if and only if the walk for the
  key does not end at one of four shapes, the last of them a leaf whose value is the hash of something that
  leads to an answer for the rest of the key; for every key, present or absent, an honest proof is answered
  with what the trie holds exactly when the path has a stated form.

**Consensus** (`Quorum`, `Votes`, `Consensus`, `Round`, `ViewChange`, `RisingLists`, `WaterLine`,
`Onward`, `Lockstep`, `Sequences`, `Forks`, `SequenceForks`).
`Consensus` is a step relation over n nodes, of which fewer than a third may be faulty and send anything
under their own address; it runs any number of rounds, with any order of delivery, and with or without
ready messages. `Votes` and `ViewChange` are the vote-counting objects. `Round.Ripple` is the object
whose handlers carry one node through a round, over three counting objects, and every handler is proved
to be a run of the step relation, namely the step it stands for followed by the node's own answers, so what
holds of all runs holds of it. `WaterLine` is the step relation
of views and sequences, with the object that holds them: a sequence rises by the node's own lead or by a
request on its way from the leader of its view, correct or faulty, and views change on the votes of a
quorum. Main results:

- decisions about one sequence, or one parent block, agree in all runs if and only if the faulty nodes
  and those that vote twice about it are fewer than two quorums share; for every larger set of such nodes
  there is a run with two decisions;
- a node that starts a sequence once votes once for it, whatever the others do, so that decisions agree
  as long as the faulty nodes and those that start the sequence again are fewer than two quorums share;
- a node votes twice for a sequence only if its sequence has fallen. It falls when the node synchronises,
  which forgets it, and also without that: a follower accepts any larger sequence from a leader, past the
  high water line, and the next view change sets it back to the low one. A node that does not follow past
  the line, sees no view agreed on that is behind, and after a synchronisation adopts what is not behind
  runs only rising sequences;
- where views only go on, a correct node can come to run a sequence twice, and two correct nodes to decide
  differently on it, if and only if the sequence is past the high water line of a view that a faulty node
  leads first (and, for the decisions, the unreliable nodes are as many as two quorums share); with
  synchronisation both are possible for every sequence without a fault of a leader;
- rising sequences do not bind a node to one block per parent: a node that has voted in one round votes
  again in the next, so that two correct nodes can build different blocks on one parent;
- the fatal check never fires, and the proposals of correct leaders do not collide.

**Block execution** (`Rlp`, `Sums`, `MultiSign`, `CrowdFund`, `Ledger`, `Transfers`, `StateTrie`, `AccountCache`,
`Leftovers`, `Blocks`, `Removal`, `Repeats`, `Settlement`, `Recovery`, `Losses`, `Retry`). `Ledger` says what a
transaction does to a map of accounts. `StateTrie.StateTrie` holds accounts in the Merkle trie,
`AccountCache.Cache` is the write-back cache over it, and `Blocks` and `Retry` run transactions over
the cache the way `runTx.js`, `runBlock.js` and
`processor/index.js` do. They refine the ledger down to the state root, for every block and every chain of
blocks, with whatever modified entries earlier runs have left in the cache. A failed run leaves entries
behind, and the next run loads only the ends of its own transactions again. `Settlement` says what all
runs of a block come to. Main results:

- all transfers of a block succeed if and only if each has its sender's next nonce and is covered by what
  the sender had and has received less what it has spent, and every account then holds just that (`Transfers`);
- what is kept of a block of transfers is what succeeds on the parent if and only if every hash both
  accepted and rejected occurs twice, side by side when its pass comes (`Removal`, `Repeats`);
- its state is right if and only if no modified entry is left that the last run does not load again and
  that differs from the parent's account, or nothing is kept;
- a block of any transactions from which nothing is lost ends right if and only if nothing of it fails, or
  it pays nothing to accounts that are no ends of its accepted transactions (`Recovery`); then at most two
  runs do, and chains of such blocks end in the state of the sequential run;
- otherwise it may not: a lost payment is written with the next good block, and a contract's payment is
  made twice when another transaction of the block fails (`Losses`, with concrete blocks for both).

The multi-signature and crowd-funding contracts are classes proved against functions, with theorems over
whole lives of a contract: when each command takes effect, in numbers and times, that the coins add up,
and that a crowd fund's target counts when a command comes, so that new coins after a refund can still bring the payout.

**Frames** (`Frames`) reassembles length-prefixed messages from chunks of a byte stream.

Where the code and its comments differ, the code is followed: `checkpointTrie.js` speaks of a
revert to the first checkpoint, and the code reverts to the latest one.

## Model

| member | source | states |
|---|---|---|
| `Nibbles.BufferToNibbles` | depends/merkle_patricia_tree/util/nibbles.js:7-21 | the loop yields both nibbles of every byte, high nibble first |
| `Nibbles.NibblesToBuffer` | depends/merkle_patricia_tree/util/nibbles.js:26-37 | the loop packs pairs of nibbles, dropping an odd last one |
| `Nibbles.MatchLen` | depends/merkle_patricia_tree/util/nibbles.js:44-55 | the result is a common prefix of both lists, and the longest one |
| `Nibbles.MatchingNibbleLength` | depends/merkle_patricia_tree/util/nibbles.js:44-55 | the loop finds the length of the longest common prefix |
| `Nibbles.DoKeysMatch` | depends/merkle_patricia_tree/util/nibbles.js:62-69 | true exactly for equal keys |
| `Nibbles.SpreadPack` | depends/merkle_patricia_tree/util/nibbles.js:7-37 | unpacking packed nibbles gives them back, for lists of even length |
| `Nibbles.PackSpread` | depends/merkle_patricia_tree/util/nibbles.js:7-37 | packing unpacked bytes gives them back |
| `Nibbles.HexPrefixRoundTrip` | depends/merkle_patricia_tree/util/hex.js:8-63 | for every nibble list and leaf flag, encoding to bytes and decoding loses neither |
| `Nibbles.HexPrefixBytes` | depends/merkle_patricia_tree/util/hex.js:8-30 | the encoded bytes: 2 or 3 for a leaf and 0 or 1 for an extension in the high nibble of the first, by the parity, then the first nibble of an odd key or zero, then the rest |
| `Nibbles.HexPrefixInjective` | depends/merkle_patricia_tree/util/hex.js:8-30 | equal encoded keys mean equal paths and equal node types |
| `Nibbles.KeyNode.SetKey` | depends/merkle_patricia_tree/trieNode.js:180-197 | the key read back is the key set |
| `Nibbles.KeyNode.GetKey` | depends/merkle_patricia_tree/trieNode.js:202-210 | returns the nibbles that the encoded key stands for |
| `Nibbles.KeyNode.Parse` | depends/merkle_patricia_tree/trieNode.js:84-111 | the flag nibble decides between leaf and extension |
| `Nibbles.StoreAndParse` | depends/merkle_patricia_tree/trieNode.js:84-210 | storing a node's key and parsing the bytes recovers type and key |
| `Trie.LookupInsert` | depends/merkle_patricia_tree/baseTrie.js:339-466 | after a put, the key has the new value and every other key its old answer; the tree stays well formed |
| `Trie.LookupFork` | depends/merkle_patricia_tree/baseTrie.js:399-465 | dividing a leaf or extension under a new branch adds one key and keeps all others |
| `Trie.LookupErase` | depends/merkle_patricia_tree/baseTrie.js:724-800 | a deletion that succeeds removes its key and keeps every other answer |
| `Trie.LookupCollapse` | depends/merkle_patricia_tree/baseTrie.js:655-722 | replacing a branch with one entry by that entry's node changes no lookup |
| `Trie.FoundWhenPresent` | depends/merkle_patricia_tree/baseTrie.js:222-283 | the walk finds a node for every key that has a value |
| `Trie.EraseFailsWhenStuck` | depends/merkle_patricia_tree/baseTrie.js:758-788 | deletion fails exactly when the key's leaf shares its branch with nothing but the branch's value |
| `Trie.DeleteIsExact` | depends/merkle_patricia_tree/baseTrie.js:641-801 | deletion removes its key and nothing else exactly when it neither wipes a root branch nor is stuck |
| `Trie.DeletionOfMixedLengths` | depends/merkle_patricia_tree/baseTrie.js:728-777 | concrete keys of different lengths for which deletion empties the trie, and for which it fails |
| `History.InsertCanonical` | depends/merkle_patricia_tree/baseTrie.js:339-466 | a put keeps every branch at two entries or more, and every extension above a branch |
| `History.EraseCanonical` | depends/merkle_patricia_tree/baseTrie.js:724-800 | on keys of one length deletion succeeds and keeps the canonical form and the length |
| `History.DeleteUniform` | depends/merkle_patricia_tree/baseTrie.js:126-148 | on keys of one length deletion is safe, never fails and removes just its key |
| `History.ApplyAgreesExactly` | depends/merkle_patricia_tree/baseTrie.js:90-148 | a put or deletion keeps the agreement with a map if and only if it is safe, for keys of any length |
| `History.ContentsDetermineTree` | depends/merkle_patricia_tree/baseTrie.js:641-801 | two canonical trees with equal contents are equal |
| `History.RunIsAMap` | depends/merkle_patricia_tree/baseTrie.js:68-148 | a history whose deletions are safe answers every lookup as a map does |
| `History.AgreesThroughoutExactly` | depends/merkle_patricia_tree/baseTrie.js:68-148 | a history agrees with its map after every operation if and only if each of its deletions is safe |
| `History.RunIsCanonical` | depends/merkle_patricia_tree/baseTrie.js:339-801 | puts of any keys, and puts and deletes on keys of one length, are safe and leave a canonical tree |
| `History.CanonicalIsIndependent` | depends/merkle_patricia_tree/baseTrie.js:339-801 | two safe histories that leave canonical trees leave the same tree exactly when they leave the same map |
| `History.HistoryIndependence` | depends/merkle_patricia_tree/baseTrie.js:339-801 | so do histories of puts of any keys, and of puts and deletes on keys of one length |
| `Thinning.EraseCanonicalExactly` | depends/merkle_patricia_tree/baseTrie.js:724-800 | a deletion below the root leaves a canonical tree if and only if it does not clear the value of a branch with one slot in use |
| `Thinning.ApplyCanonicalExactly` | depends/merkle_patricia_tree/baseTrie.js:90-148 | a put or deletion, failing ones included, keeps the form exactly when it does not thin a branch |
| `Thinning.CanonicalThroughoutExactly` | depends/merkle_patricia_tree/baseTrie.js:736-745 | a history of keys of any lengths keeps the form throughout if and only if no deletion thins |
| `Thinning.IndependentExactly` | depends/merkle_patricia_tree/baseTrie.js:339-801 | the tree of a safe history is that of any puts of the same map if and only if it is canonical |
| `Thinning.ThinnedDiffers` | depends/merkle_patricia_tree/baseTrie.js:736-745 | a key, a longer one and the deletion of the first leave another tree than the longer one alone |
| `History.ActAgreesExactly` | depends/merkle_patricia_tree/checkpointTrie.js:49-112 | a change, checkpoint, commit or revert keeps the trees matched with a stack of maps if and only if it is no unsafe deletion |
| `History.CheckpointsAreAStackOfMaps` | depends/merkle_patricia_tree/checkpointTrie.js:49-112 | any mix of safe changes, nested checkpoints, commits and reverts behaves like a stack of maps |
| `History.StackOfMapsExactly` | depends/merkle_patricia_tree/checkpointTrie.js:49-112 | it does so throughout if and only if each deletion is safe |
| `History.CheckpointsKeepForm` | depends/merkle_patricia_tree/checkpointTrie.js:49-160 | with puts only, or keys of one length, all is safe and every version is canonical |
| `Store.NodeDeterminesTree` | depends/merkle_patricia_tree/trieNode.js:212-220 | with an injective hash a stored node stands for one tree only |
| `Store.RootIdentifiesContents` | depends/merkle_patricia_tree/baseTrie.js:591-635 | canonical tries have equal roots exactly when they have equal contents |
| `Store.RootsOfHistories` | depends/merkle_patricia_tree/baseTrie.js:90-148 | safe histories that leave canonical trees leave equal roots exactly when they leave equal maps |
| `Store.ResolvesForever` | depends/merkle_patricia_tree/baseTrie.js:823-847 | a root keeps its tree whatever is added to the store |
| `Store.ResolvesExactly` | depends/merkle_patricia_tree/baseTrie.js:153-182 | a tree can be read from its root exactly when the store has every node that the root reaches |
| `Store.EarlierRootsStay` | depends/merkle_patricia_tree/baseTrie.js:591-635 | in any larger store an earlier root resolves to its earlier tree and to no other |
| `Store.InsertAtPath` | depends/merkle_patricia_tree/baseTrie.js:600-631 | a put at the end of a path is a put in the whole tree |
| `Store.EraseAtPath` | depends/merkle_patricia_tree/baseTrie.js:600-631 | a deletion that leaves a fitting node at the end of a path leaves the path above as it is |
| `MerkleTrie.ProcessNode` | depends/merkle_patricia_tree/baseTrie.js:222-283 | the decision at a node: the walk stops, with a hit or not, or follows the right child |
| `MerkleTrie.FilledSlots` | depends/merkle_patricia_tree/baseTrie.js:758-769 | the count of used entries, the value included, tells whether one entry is left and which |
| `MerkleTrie.CheckpointTrie.LookupNode` | depends/merkle_patricia_tree/baseTrie.js:153-182 | an inlined node is itself; a hash is looked up in the scratch store first, then in the main store |
| `MerkleTrie.CheckpointTrie.FindPath` | depends/merkle_patricia_tree/baseTrie.js:205-284 | finds the key's node, the key left over, and exactly the nodes passed, each matching its place in the tree |
| `MerkleTrie.CheckpointTrie.Get` | depends/merkle_patricia_tree/baseTrie.js:68-83 | returns the map's answer, for present and absent keys |
| `MerkleTrie.CheckpointTrie.FormatNode` | depends/merkle_patricia_tree/baseTrie.js:823-847 | a top-level node or one of 32 bytes or more is stored under its hash, a shorter one inlined |
| `MerkleTrie.CheckpointTrie.Relink` | depends/merkle_patricia_tree/baseTrie.js:602-622 | a node of the stack takes in the reference from below and gives its part of the key off |
| `MerkleTrie.CheckpointTrie.RebuildPath` | depends/merkle_patricia_tree/baseTrie.js:591-635 | the loop yields the root of the whole new tree, with all its stored nodes kept or in the batch, and nothing in the batch that the new root does not reach |
| `MerkleTrie.CheckpointTrie.SaveStack` | depends/merkle_patricia_tree/baseTrie.js:591-635 | the trie stands for the new tree; the store grows by exactly what its root reaches, and the main store is left alone while a checkpoint is open |
| `MerkleTrie.CheckpointTrie.Put` | depends/merkle_patricia_tree/baseTrie.js:90-120 | the tree becomes the insertion, an empty value deletes; the store grows by exactly what the new root reaches, and the main store is left alone while a checkpoint is open |
| `MerkleTrie.CheckpointTrie.CreateInitialNode` | depends/merkle_patricia_tree/baseTrie.js:808-816 | the empty trie becomes one leaf |
| `MerkleTrie.CheckpointTrie.UpdateNode` | depends/merkle_patricia_tree/baseTrie.js:339-397 | writing where the walk stopped is insertion in the whole tree |
| `MerkleTrie.CheckpointTrie.UpdateFork` | depends/merkle_patricia_tree/baseTrie.js:399-465 | the same when the walk stopped inside a leaf's or an extension's key |
| `MerkleTrie.CheckpointTrie.BuildFork` | depends/merkle_patricia_tree/baseTrie.js:418-448 | the new branch is the stored form of the divided node |
| `MerkleTrie.CheckpointTrie.AttachValue` | depends/merkle_patricia_tree/baseTrie.js:450-465 | the value becomes the branch's own, or a leaf in the free slot |
| `MerkleTrie.CheckpointTrie.Del` | depends/merkle_patricia_tree/baseTrie.js:126-148 | the tree becomes the deletion, the failed lookup leaves it unchanged; the stores as for a put |
| `MerkleTrie.CheckpointTrie.DeleteNode` | depends/merkle_patricia_tree/baseTrie.js:724-752 | the root is dropped, a branch loses its value, or a leaf goes |
| `MerkleTrie.CheckpointTrie.PruneBranch` | depends/merkle_patricia_tree/baseTrie.js:758-800 | a branch with one entry left collapses and joins the extension above; otherwise it stays |
| `MerkleTrie.CheckpointTrie.ProcessBranchNode` | depends/merkle_patricia_tree/baseTrie.js:655-722 | the last node left is joined with what is above its branch, in all six combinations |
| `MerkleTrie.CheckpointTrie.Batch` | depends/merkle_patricia_tree/baseTrie.js:878-896 | operations are applied in order, up to the first that fails; the store grows by exactly what their roots reach, the main store only when no checkpoint is open |
| `MerkleTrie.CheckpointTrie.Checkpoint` | depends/merkle_patricia_tree/checkpointTrie.js:49-59 | remembers the current tree; the outermost one opens a scratch store |
| `MerkleTrie.CheckpointTrie.FindDbNodes` | depends/merkle_patricia_tree/baseTrie.js:320-330 | collects the stored nodes that are needed to read the whole tree back, all of them and no other |
| `MerkleTrie.CheckpointTrie.FindValueNodes` | depends/merkle_patricia_tree/baseTrie.js:290-315 | the walk lists every key with a value below a node, each under its full key, and nothing else |
| `MerkleTrie.CheckpointTrie.Contents` | depends/merkle_patricia_tree/baseTrie.js:290-315 | from the root the listing is the whole map |
| `MerkleTrie.CheckpointTrie.Commit` | depends/merkle_patricia_tree/checkpointTrie.js:65-87 | keeps the contents; the outermost commit adds to the main store what the current root reaches and nothing else, an inner one nothing |
| `MerkleTrie.CheckpointTrie.Revert` | depends/merkle_patricia_tree/checkpointTrie.js:95-112 | returns to the tree of the latest checkpoint; the main store is untouched, and after the outermost revert it is all that is read |
| `MerkleTrie.RunAndGet` | depends/merkle_patricia_tree/baseTrie.js:68-148 | from the empty root, after any safe history, `get` over the store answers as a map, and the root is that of the tree |
| `MerkleTrie.RunGoBackAndGet` | depends/merkle_patricia_tree/baseTrie.js:591-635 | after any further operations, failing ones included, an earlier root gives back the earlier map |
| `MerkleTrie.ReplayAndGet` | depends/merkle_patricia_tree/checkpointTrie.js:49-160 | the same for any mix of safe changes with checkpoints, commits and reverts; the main store has exactly what changes without a checkpoint and outermost commits have added, and alone is enough when none is open |
| `MerkleTrie.OpenKeepsMain` | depends/merkle_patricia_tree/checkpointTrie.js:43-160 | for any actions during which a checkpoint stays open, and after the revert that closes it, the main store is that from before the outermost checkpoint |
| `MerkleTrie.KeysDetermineStore` | depends/merkle_patricia_tree/baseTrie.js:823-847 | two stores with the same keys are the same, so that the keys say what a store holds |
| `MerkleProof.VerifyProof` | depends/merkle_patricia_tree/proof.js:60-163 | the loop computes the check defined by recursion on the proof, a leaf's value taken for the next hash included |
| `MerkleProof.AnsweredWithin` | depends/merkle_patricia_tree/proof.js:68-160 | a proof that gives an answer from some hash shows that elements leading to one exist |
| `MerkleProof.VerifiedIsTrue` | depends/merkle_patricia_tree/proof.js:68-160 | where the walk does not mislead, whatever proof is given, in whatever form its elements are, the check rejects or gives the tree's answer |
| `MerkleProof.MisleadingProof` | depends/merkle_patricia_tree/proof.js:92-153 | where it does, there is a proof, of the trie's own nodes up to a leaf's value, that is answered falsely |
| `MerkleProof.ProofSoundnessExactly` | depends/merkle_patricia_tree/proof.js:60-163 | for every trie and key: all proofs are answered truly if and only if the walk does not mislead |
| `MerkleProof.ForgedAnswer` | depends/merkle_patricia_tree/proof.js:131-154 | a leaf whose value is the hash of another leaf answers the two keys joined with that leaf's value, where the trie has none |
| `MerkleProof.SchemesExist` | depends/merkle_patricia_tree/proof.js:68-79 | what the theorems assume of hashes, sizes and digests holds together, with a value that is the hash of any given node |
| `MerkleProof.ForgeryExists` | depends/merkle_patricia_tree/proof.js:131-154 | under all of it, for any two keys and any forged value, a proof is answered falsely |
| `MerkleProof.OneLengthNeverMisleads` | depends/merkle_patricia_tree/proof.js:60-163 | no key of the trie's one length misleads |
| `MerkleProof.ProofSoundness` | depends/merkle_patricia_tree/proof.js:60-163 | for keys of the trie's length any accepted list of nodes yields what `get` yields at that root |
| `MerkleProof.AnotherKeysValue` | depends/merkle_patricia_tree/proof.js:131-150 | an inlined branch below an extension answers a shorter key with a longer key's value |
| `MerkleProof.Prove` | depends/merkle_patricia_tree/proof.js:20-48 | the root node and every later node of the path stored on its own, exactly when the walk finds a node or uses the key up, absent keys included; otherwise an error |
| `MerkleProof.ProofCompleteness` | depends/merkle_patricia_tree/proof.js:20-163 | for every trie and every key, present or absent: the nodes a proof for it consists of are answered with what the trie holds if and only if the path has a stated form |
| `MerkleProof.ProveAndVerify` | depends/merkle_patricia_tree/proof.js:20-163 | for every key for which a proof is made, absent ones included, its check gives the answer of `get` if and only if the path has that form |
| `MerkleProof.NothingToSpare` | depends/merkle_patricia_tree/proof.js:83-163 | a proof longer or shorter than an accepted one, and otherwise the same, is rejected |
| `Quorum.ThresholdsAreSmallest` | consensus_full_server/ripple/index.js:743-746 | the thresholds are the smallest numbers above two thirds and above one third of the nodes |
| `Quorum.ThirdHasCorrect` | consensus_full_server/ripple/consensusStage/ready.js:20-24 | more than a third of the nodes include a correct one |
| `Quorum.QuorumsShareCorrect` | consensus_full_server/ripple/index.js:743-746 | two sets of threshold size share a correct node |
| `Quorum.QuorumsMeetOutside` | consensus_full_server/ripple/index.js:743-746 | they share a node outside of any set smaller than twice the threshold less all nodes |
| `Quorum.QuorumsMeetInside` | consensus_full_server/ripple/index.js:743-746 | for any set at least that large there are two of them that meet only inside it |
| `Votes.ConsensusStage.ValidateAndProcessExchangeData` | consensus_full_server/ripple/stage/stage.js:81-144 | one vote per address; success exactly when an answer brings its supporters to the threshold |
| `Votes.ConsensusStage.EnterNextStage` | consensus_full_server/ripple/stage/consensusStage.js:25-61 | the count kept for a candidate is the number of its supporters |
| `Consensus.WinnersAreBacked` | consensus_full_server/ripple/consensusStage/ready.js:60-93 | a digest that wins any stage has a prepare quorum behind it |
| `Consensus.StepKeeps` | consensus_full_server/ripple/consensusStage/commit.js:58-112 | every step of a round keeps the invariant: decisions are backed, blocks fit their digests |
| `Consensus.Agreement` | consensus_full_server/ripple/consensusStage/commit.js:43-74 | in every run, decisions of correct nodes about one sequence or one parent agree, if the faulty nodes and those that voted twice about it are fewer than two quorums share |
| `Consensus.SameBlock` | consensus_full_server/ripple/index.js:535-544 | under the same bound every correct node that builds a block about it builds the same one, from its own candidate or a fetched one |
| `Consensus.BlocksExtendTheParent` | consensus_full_server/ripple/consensusStage/commit.js:58-112 | in every run a step builds blocks for the node that takes it only, and only on the parent block that node has begun its round with |
| `Round.Ripple.RunNewConsensusRound` | consensus_full_server/ripple/index.js:445-461 | candidate, digests and tables are cleared: a start-round step |
| `Round.Ripple.PrePrepared` | consensus_full_server/ripple/consensusStage/prePrepare.js:148-197 | recording the leader's candidate and its digest, and going on to prepare: the step for that candidate, followed by the node's own answers and what they cause |
| `Round.Ripple.RunStage` | consensus_full_server/ripple/consensusStage/prepare.js:27-52 | a stage starts with empty tables, broadcasts the known digest and counts it first, with all that follows from it |
| `Round.Ripple.CountVote` | consensus_full_server/ripple/stage/stage.js:81-144 | an address's first answer goes into the tables of the current stage, and wins exactly at its threshold |
| `Round.Ripple.ReceiveVote` | consensus_full_server/ripple/stage/stage.js:78-138 | a repeated answer changes nothing; another is that answer's step with all that follows it, and when more than two thirds (ready: one third) then support its digest the stage is left with it, as the digest agreed on or the decided one |
| `Round.WinnerIsTaken` | consensus_full_server/ripple/stage/consensusStage.js:25-61 | for every system: an answer that wins its stage takes the node on, with the digest as the one agreed on, or decided, whatever own answers follow at once |
| `Round.CascadeGoesOn` | consensus_full_server/ripple/consensusStage/ready.js:50-98 | what follows an answer or the end of a stage never takes a node back, and keeps the digest it holds past the prepare stage |
| `Round.Ripple.Handler` | consensus_full_server/ripple/consensusStage/ready.js:60-93 | the end of a stage sets the consensus digest, if none is set, and starts the next stage |
| `Round.Ripple.CommitHandler` | consensus_full_server/ripple/consensusStage/commit.js:58-112 | decides, and processes, fetches or changes the view on the code's conditions |
| `Round.Ripple.Timeout` | consensus_full_server/ripple/stage/stage.js:27-37 | a stage without a winner is left by the step that ends it, followed by the node's own answers and what they cause |
| `Round.Ripple.FetchReplied` | consensus_full_server/ripple/consensusStage/fetchConsensusCandidate.js:163-187 | a reply is used exactly when its transactions have the decided hash, and is then the step that builds the block |
| `WaterLine.StepKeeps` | consensus_full_server/ripple/abnormalStage/fetchProcessState.js:67-79 | every step keeps sequences at or above the low water line, adoption from a third of the nodes included |
| `WaterLine.FatalCheckNeverFires` | consensus_full_server/ripple/consensusStage/amalgamate.js:44-50 | in every reachable state a correct node's sequence is at least 2037 times its view |
| `WaterLine.ProposalsDoNotCollide` | consensus_full_server/ripple/consensusStage/amalgamate.js:52-82 | a correct leader proposes only inside the water lines of its view; a sequence proposed twice has one view and leader |
| `WaterLine.FallsExactly` | consensus_full_server/ripple/abnormalStage/fetchProcessState.js:37-79 | a sequence falls exactly by a view change or new view whose low water line is behind it, by a synchronisation, or by adopting one behind |
| `WaterLine.RoundsRiseWithoutFalls` | consensus_full_server/ripple/consensusStage/amalgamate.js:52-82 | the rounds of a node whose sequence never falls rise |
| `WaterLine.CalmRoundsRise` | consensus_full_server/ripple/consensusStage/amalgamate.js:52-82 | so do those of a calm node, whatever the others do: it may synchronise, if it adopts what is not behind, but follows nothing beyond the high water line, and no view agreed on is behind |
| `Onward.WhereRun` | consensus_full_server/ripple/consensusStage/amalgamate.js:155-182 | a correct node runs a sequence in its own view or an earlier one, and at a correct leader's request only at that of the one leader who may propose it |
| `Onward.RunOnceBeforeFaultyLeaders` | consensus_full_server/ripple/consensusStage/amalgamate.js:52-182 | where views only go on, a sequence not past the high water line of a view that a faulty node leads first is run at most once by every node |
| `Onward.LowSequencesRunOnce` | consensus_full_server/ripple/abnormalStage/viewChangeForConsensusFail.js:71-75 | without synchronisation, wherever views go, a sequence up to the first high water line is run at most once |
| `Lockstep.SequenceRunsTwiceExactly` | consensus_full_server/ripple/consensusStage/amalgamate.js:155-182 | where views only go on, a correct node can run a sequence twice if and only if it is past the high water line of a view that a faulty node leads first |
| `Lockstep.SyncRunsTwice` | consensus_full_server/ripple/abnormalStage/fetchProcessState.js:37-79 | with a synchronisation in between, in which all adopt what they have reported at first, every sequence can be run twice, faulty leaders or not |
| `Sequences.StartedOnceVotesOnce` | consensus_full_server/ripple/consensusStage/prepare.js:27-52 | a correct node that starts a sequence at most once, whatever the others do, votes once for it |
| `Sequences.StartedOnceAgreement` | consensus_full_server/ripple/consensusStage/prepare.js:47-74 | decisions for a sequence agree if the faulty nodes and those that start it more than once are fewer than two quorums share |
| `Sequences.RisingAgreement` | consensus_full_server/ripple/consensusStage/amalgamate.js:72-82 | they agree if the faulty nodes and those whose rounds do not rise are that few |
| `Sequences.AscendingIsRising` | consensus_full_server/ripple/index.js:445-480 | rounds ascend exactly when every node starts its rounds in rising order |
| `Sequences.AscendingAgreement` | consensus_full_server/ripple/consensusStage/prepare.js:47-74 | in runs whose rounds all ascend decisions for a sequence always agree |
| `Sequences.VotesTwiceOnlyAfterAFall` | consensus_full_server/ripple/abnormalStage/viewChangeForConsensusFail.js:71-75 | a correct node that votes twice for a sequence has had its sequence fall |
| `Sequences.CalmAgreement` | consensus_full_server/ripple/consensusStage/amalgamate.js:45-86 | decisions for a sequence agree if the faulty nodes and those that are not calm are fewer than two quorums share |
| `Forks.OneRound` | consensus_full_server/ripple/consensusStage/commit.js:43-112 | a quorum, its faulty members saying what is wanted, brings one of its correct nodes to decide and build any candidate, each of its correct nodes starting one round |
| `Forks.AgreementExactly` | consensus_full_server/ripple/consensusStage/commit.js:43-112 | no run with these unreliable nodes has two different decisions about one thing if and only if they are fewer than two quorums share |
| `Forks.ParentsCanFork` | consensus_full_server/ripple/abnormalStage/viewChangeForConsensusFail.js:67-82 | with rising sequences, and no fault, two correct nodes build different blocks on one parent |
| `SequenceForks.SequenceForksExactly` | consensus_full_server/ripple/consensusStage/amalgamate.js:155-182 | two decisions for one sequence, in a run whose rounds are those of one run of views and sequences in which views only go on, are possible exactly from as many unreliable nodes on as two quorums share, and past the high water line of a view that a faulty node leads first |
| `SequenceForks.SyncForksExactly` | consensus_full_server/ripple/abnormalStage/fetchProcessState.js:37-79 | with synchronisation they are possible exactly from that many unreliable nodes on, for every sequence |
| `WaterLine.Ripple.AmalgamateRun` | consensus_full_server/ripple/consensusStage/amalgamate.js:44-86 | fatal exactly below 2037 times the view, view change exactly from the next multiple; between them the leader asks for the next sequence, by a step that records the proposal, and any other node waits |
| `WaterLine.Ripple.AmalgamateRequested` | consensus_full_server/ripple/consensusStage/amalgamate.js:155-182 | a request is followed exactly when its sender has the leader's place in the node's view and its sequence is larger |
| `WaterLine.Ripple.ViewChanged` | consensus_full_server/ripple/abnormalStage/viewChangeForConsensusFail.js:71-75 | on the votes of a quorum, the step to the next view, at its low water line |
| `WaterLine.Ripple.NewViewRequested` | consensus_full_server/ripple/abnormalStage/newView.js:200-227 | accepted exactly for a later view and the node's own sequence |
| `WaterLine.Ripple.FetchProcessState` | consensus_full_server/ripple/abnormalStage/fetchProcessState.js:37-39 | the step that forgets view and sequence |
| `WaterLine.Ripple.StateFetched` | consensus_full_server/ripple/abnormalStage/fetchProcessState.js:75-79 | the step that adopts what a third of the nodes report |
| `ViewChange.ViewChangeForTimeout.Uncount` | consensus_full_server/ripple/abnormalStage/viewChangeForTimeout.js:148-177 | takes an address out of the counts; the branch for an uncounted content is dead |
| `ViewChange.ViewChangeForTimeout.Count` | consensus_full_server/ripple/abnormalStage/viewChangeForTimeout.js:136-171 | counts a new address; the count is the number of addresses that agree |
| `ViewChange.ViewChangeForTimeout.ProcessExchangeData` | consensus_full_server/ripple/abnormalStage/viewChangeForTimeout.js:132-197 | after every message counts equal the addresses whose latest view change has that content; fires exactly at the threshold |
| `ViewChange.ViewChangeForTimeout.Handler` | consensus_full_server/ripple/abnormalStage/viewChangeForTimeout.js:63-72 | the next view, at its low water line |
| `ViewChange.CheckViewChanges` | consensus_full_server/ripple/abnormalStage/newView.js:152-198 | accepts exactly lists of enough view changes with one content and distinct senders |
| `ViewChange.HandleNewView` | consensus_full_server/ripple/abnormalStage/newView.js:135-227 | a new-view message is accepted exactly for the node's parent block and sequence, a later view, and an acceptable list of valid view changes |
| `ViewChange.LeaderIsAccepted` | consensus_full_server/ripple/abnormalStage/newView.js:150-198 | what a leader collects when its quorum is reached passes that check |
| `Sums.SumUpdate` | depends/block_chain/runTx.js:50-70 | changing one entry changes a sum by as much |
| `MultiSign.Contract.CommandHandler` | consensus_constracts/multiSignConstract.js:141-237 | every command does what the transition function says, with the same failures |
| `MultiSign.Contract.Agree` | consensus_constracts/multiSignConstract.js:261-325 | adds a vote; pays and clears at the threshold |
| `MultiSign.Contract.Reject` | consensus_constracts/multiSignConstract.js:333-373 | adds a vote; clears when too many reject |
| `MultiSign.HandleIsProper` | consensus_constracts/multiSignConstract.js:154-230 | every command keeps votes single, disjoint and from members, and a request covered by the balance |
| `MultiSign.PaidOnlyAtThreshold` | consensus_constracts/multiSignConstract.js:296-323 | a payment has enough distinct members behind it, pays the pending or sent request, and clears it |
| `MultiSign.AgreeExactly` | consensus_constracts/multiSignConstract.js:190-325 | an agreement is taken exactly from a member who has not voted, on the pending request, before it has run out; it is recorded, or pays and clears the request exactly when the members who agree are then enough, in numbers |
| `MultiSign.RejectExactly` | consensus_constracts/multiSignConstract.js:212-373 | a rejection likewise; it clears the request exactly when more have then rejected than the threshold leaves |
| `MultiSign.SendExactly` | consensus_constracts/multiSignConstract.js:155-188 | a request is taken exactly from a member, when the earlier one has run out or is cleared, in fields that hold it and with coins that cover it; it replaces the earlier one and has its sender's vote |
| `MultiSign.NothingOutOfTime` | consensus_constracts/multiSignConstract.js:161-229 | over every life: once the time of the latest request has run out a vote changes nothing and pays nothing, and until then a pending request is not replaced |
| `MultiSign.VotesAlwaysFit` | consensus_constracts/multiSignConstract.js:45-62 | when the member list fits its 200 bytes, every list of votes does |
| `MultiSign.RejectDropsExactly` | consensus_constracts/multiSignConstract.js:367-372 | a reject drops the request exactly when the members who have not rejected cannot reach the threshold, if and only if no repeated member hides it, in numbers known before the call |
| `MultiSign.DistinctMembersHideNothing` | consensus_constracts/multiSignConstract.js:367-372 | without a member listed twice nothing is hidden |
| `MultiSign.RepeatedMemberLingers` | consensus_constracts/multiSignConstract.js:367-372 | a concrete contract with a member listed twice, whose request stays pending out of reach |
| `MultiSign.EveryLifeIsOk` | consensus_constracts/multiSignConstract.js:154-382 | over every life: no request is paid twice, requests are covered, received equals held plus paid |
| `CrowdFund.Contract.Run` | consensus_constracts/crowdFundConstract.js:97-146 | every command does what the transition function says, with the same failures |
| `CrowdFund.Contract.Fund` | consensus_constracts/crowdFundConstract.js:185-209 | adds to the sender's entry, if the value reaches the limit and the encoded entries fit 6000 bytes |
| `CrowdFund.Contract.Refund` | consensus_constracts/crowdFundConstract.js:216-245 | pays the sender's entry and removes it, if the target was missed |
| `CrowdFund.Contract.Receive` | consensus_constracts/crowdFundConstract.js:252-273 | pays everything out and destroys the contract, if the target was reached |
| `CrowdFund.HandleKeepsSolvent` | consensus_constracts/crowdFundConstract.js:185-273 | every command keeps the contributions covered; a refund never exceeds the balance |
| `CrowdFund.HandleExactly` | consensus_constracts/crowdFundConstract.js:110-146 | a contribution is taken exactly between begin and end and at or above the limit if its entry fits, a refund exactly from the end on with the target missed, the payout exactly from the end on with the target reached |
| `CrowdFund.OnlyFundsAreLimited` | consensus_constracts/crowdFundConstract.js:216-245 | the field of 6000 bytes can refuse a contribution and nothing else: it stays kept, and a refund always fits |
| `CrowdFund.RefundsAreExact` | consensus_constracts/crowdFundConstract.js:216-245 | over every life: solvent, and paid back plus recorded equals contributed, for each address |
| `CrowdFund.EveryLifeAddsUp` | consensus_constracts/crowdFundConstract.js:185-273 | over every life: coins received are those held, paid back and paid out; at most one payout, of at least the target, which alone destroys the contract |
| `CrowdFund.EffectsExactly` | consensus_constracts/crowdFundConstract.js:110-273 | over every life an event has its whole effect on state, balance and payments exactly when it is due, and none otherwise |
| `CrowdFund.PaidOutExactly` | consensus_constracts/crowdFundConstract.js:252-273 | over every life there has been a payout exactly when the receipt was asked for from the end on with the target reached |
| `CrowdFund.MissedUntilMade` | consensus_constracts/crowdFundConstract.js:216-273 | a life that has missed the target so far has a payout later only if as many coins come in as were missing |
| `CrowdFund.RefundThenPayout` | consensus_constracts/crowdFundConstract.js:216-273 | that it has both happens: the target counts when a command comes, so new coins after a refund can bring the payout |
| `CrowdFund.NothingAfterReceive` | consensus_constracts/constract.js:45-53 | after the payout no command changes anything and no coin leaves |
| `Transfers.TransferSucceedsExactly` | depends/block_chain/runTx.js:27-112 | a validated transfer succeeds if and only if its sender is no contract, its nonce the sender's next, its value at most the balance and no field overflows, and the creation of a contract if the address is unused besides; both accounts afterwards, in numbers |
| `Transfers.WholeBalanceCanBeSpent` | depends/block_chain/runTx.js:38-62 | the largest transfer accepted is the whole balance, and leaves zero |
| `Transfers.SumsAfter` | depends/block_chain/runBlock.js:67-85 | a list of transfers that all succeed leaves every account with what it had and received less what it spent, and its nonce raised by what it sent |
| `Transfers.AllSucceedExactly` | depends/block_chain/runBlock.js:67-85 | all transfers of a block succeed if and only if each has its sender's next nonce and is covered by what the sender had, has received and has spent before it, without overflow |
| `Transfers.MultiCallExactly` | depends/block_chain/runTx.js:70-112 | in a sound world a call of a multi-signature contract succeeds exactly when it is backed, the contract takes it and the payee can hold the payment; it never lacks what it pays, and all accounts afterwards |
| `Transfers.CrowdCallExactly` | depends/block_chain/runTx.js:70-112 | the same for a crowd fund: a refund goes to the sender, a payout empties the contract and goes to its receiver |
| `Transfers.MultiCommandExactly` | consensus_constracts/multiSignConstract.js:154-235 | which ids and arguments make which command, with too few arguments an error |
| `Transfers.CrowdCommandExactly` | consensus_constracts/crowdFundConstract.js:110-145 | which ids make which command |
| `Ledger.AcceptedAgain` | consensus_full_server/processor/index.js:98-149 | run without the rejected transactions, nothing is rejected and the result is the same |
| `Ledger.ConservationExactly` | depends/block_chain/runTx.js:27-112 | a transaction keeps the sum of balances, except for a payout to the sender or the contract, which is lost, and for coins spent unbacked when the balance check is skipped |
| `Ledger.SelfTransferMints` | depends/transaction/index.js:188-194 | without the check of `validate`, a transfer to oneself would create its value |
| `Ledger.BlockConserves` | depends/block_chain/runBlock.js:67-85 | a block of transfers keeps the sum; each nonce grows by the account's accepted transactions |
| `Ledger.WorldStaysOk` | depends/block_chain/runTx.js:27-112 | in every world reached by transactions contracts cover their pending requests and contributions |
| `StateTrie.HoldsIsUnique` | depends/block_chain/stateManager.js:15-21 | accounts determine the tree of the state trie, and the tree the accounts |
| `StateTrie.StateRootsIdentifyWorlds` | depends/block_chain/runBlock.js:101-105 | equal state roots mean equal accounts, and back |
| `StateTrie.StateTrie.Put` | depends/block_chain/cache.js:143-152 | the state trie then holds the account, and all others as before |
| `StateTrie.StateTrie.Get` | depends/block_chain/cache.js:203-218 | the account stored, or the empty one |
| `StateTrie.StateTrie.ResetTrieRoot` | depends/block_chain/stateManager.js:81-107 | the state trie holds the accounts of the root gone to |
| `AccountCache.Cache.Put` | depends/block_chain/cache.js:26-33 | sets one entry |
| `AccountCache.Cache.Get` | depends/block_chain/cache.js:38-43 | the cached account, or the empty one |
| `AccountCache.Cache.GetOrLoad` | depends/block_chain/cache.js:48-82 | loads over a missing or empty entry |
| `AccountCache.Cache.Warm` | depends/block_chain/cache.js:87-106 | loads every address from the trie, whatever was cached |
| `AccountCache.Cache.Flush` | depends/block_chain/cache.js:128-162 | the loop writes exactly the modified entries to the trie and clears every flag |
| `AccountCache.WarmKeepsView` | depends/block_chain/cache.js:87-106 | warming unmodified addresses keeps coherence and view |
| `AccountCache.FlushKeepsView` | depends/block_chain/cache.js:128-182 | a flush makes the trie equal to the view and leaves no modified entry |
| `AccountCache.ViewIsOfPuts` | depends/block_chain/cache.js:48-182 | over any careful run the view is changed by puts only, and a flush makes the trie what the puts say |
| `AccountCache.WarmForgetsExactly` | depends/block_chain/cache.js:87-106 | warming keeps the view exactly when every warmed account is seen as stored |
| `Blocks.MoveCoins` | depends/block_chain/runTx.js:27-88 | the checks and the steps of nonce, debit and credit, against the ledger's condition (`Transfers.TransferSucceedsExactly` says it in numbers) |
| `Blocks.RunContract` | consensus_constracts/index.js:52-116 | a call on the contract objects, with the payee read and written through the cache, matches the ledger |
| `Blocks.RunTx` | depends/block_chain/runTx.js:16-112 | with and without the skip flags, a transaction succeeds over the cache exactly when it does in the ledger; the cache then shows the world after it and has just its entries modified |
| `Blocks.RunAll` | depends/block_chain/runBlock.js:67-85 | the failures collected are the ledger's rejected transactions, in order, and the entries modified are those from before and those of the accepted ones |
| `Blocks.RunBlock` | depends/block_chain/runBlock.js:24-147 | for any cache: without failures the state trie holds just what the ledger makes of the parent with the modified entries that were not loaded again, and the run ends well exactly when no root is given or the given one is theirs; with failures the trie is untouched and the modified entries left are exactly stated |
| `Leftovers.RunIsRightExactly` | depends/block_chain/runBlock.js:43-99 | a run of transfers accepts what it should, and its state is right if and only if every modified entry from before that is not loaded again is the parent's account |
| `Leftovers.LeftByTransfers` | depends/block_chain/runBlock.js:87-94 | a failed run of transfers leaves the entries not loaded again, and the ends of what it has accepted, as it has made them |
| `Removal.DelInvalidTransactions` | depends/block/index.js:176-191 | the nested loops skip the element after each removal |
| `Removal.KeptWhenApart` | depends/block/index.js:176-191 | what is kept is exactly what succeeded, in order, when no hash is both accepted and rejected, repeated or not |
| `Repeats.AcceptedOnce` | depends/block_chain/runTx.js:43-49 | a transaction is accepted once, however often it occurs |
| `Repeats.SurvivesExactly` | depends/block/index.js:176-191 | a hash both accepted and rejected keeps one transaction if it occurs twice, side by side at its pass, and otherwise none |
| `Repeats.KeptExactly` | depends/block/index.js:176-191 | what is kept is exactly what succeeded, in order, if and only if every such hash does so |
| `Repeats.RepeatedHashLosesAccepted` | depends/block/index.js:176-191 | a block with a repeated transaction, two of which succeed, that ends up empty |
| `Settlement.SettledExactly` | consensus_full_server/processor/index.js:98-149 | after all runs, with any modified entries from before: what is kept of a block of transfers is what succeeds on the parent if and only if its repeated hashes can be recovered from |
| `Settlement.SettledStateIsRightExactly` | consensus_full_server/processor/index.js:98-149 | the state of a block of transfers is that of the kept ones on the parent if and only if nothing is kept or every entry left that is not loaded again is the parent's account |
| `Recovery.RecoveredCleanly` | consensus_full_server/processor/index.js:98-149 | a block of any transactions that can be recovered from and pays nothing beside its ends, on a clean cache: at most two runs, the state of its sequential run, nothing modified left |
| `Recovery.RecoveredExactly` | consensus_full_server/processor/index.js:98-149 | what is kept of a block that can be recovered from, and its state, are right if and only if nothing fails or it pays nothing to accounts that are no ends of accepted transactions |
| `Recovery.SamePayments` | depends/block_chain/runTx.js:27-112 | on two worlds that agree on the ends of the transactions every other account is paid the same |
| `Losses.LostPaymentIsLeft` | depends/block_chain/cache.js:87-106 | of a block of which nothing is kept the payee of a lost payment stays modified in the cache |
| `Losses.LostPaymentIsMinted` | depends/block_chain/cache.js:128-152 | the next good block writes it, and the sum of all balances is larger by the payment |
| `Losses.MintingHappens` | consensus_full_server/processor/index.js:98-149 | such blocks of valid transfers exist |
| `Losses.RetryPaysTwice` | depends/block_chain/cache.js:48-82 | a contract's payment to an account that is no end of the kept transactions is made twice when another transaction of the block fails |
| `Losses.PayingTwiceHappens` | consensus_full_server/processor/index.js:98-149 | a world of sound contracts and a block of valid transactions for which it is |
| `Retry.RunBlockChain` | depends/block_chain/runBlockChain.js:16-67 | no parent, a bad block, failed transactions or a new state root, each exactly when it should be, with what it leaves in trie and cache |
| `Retry.ProcessBlock` | consensus_full_server/processor/index.js:98-149 | for any block and any modified entries: every outcome, exactly; the transactions kept, the number of runs, the entries left modified, the state and its root are those of the settlement |
| `Retry.ProcessChain` | consensus_full_server/processor/index.js:98-149 | for any blocks: the root at the end is that of the accounts their settlements make, one after the other, with the entries each leaves to the next |
| `Retry.ChainIsSequential` | consensus_full_server/processor/index.js:98-149 | for blocks that can each be recovered from these are the accounts of the sequential run, and nothing modified is left |
| `Frames.NumberEncode` | depends/fly/net/message.js:41-44 | the length in a header is read back |
| `Frames.MessageChunk.Read` | depends/fly/net/message_chunk.js:36-43 | returns the next bytes and moves past them |
| `Frames.MessageChunkQueue.Push` | depends/fly/net/message_chunk_queue.js:35-42 | appends to the pending bytes |
| `Frames.MessageChunkQueue.Take` | depends/fly/net/message_chunk_queue.js:87-103 | the loop over chunks takes exactly the bytes asked for off the front |
| `Frames.MessageChunkQueue.GetMessage` | depends/fly/net/message_chunk_queue.js:44-108 | delivered frames plus pending bytes are what was received; nothing is returned exactly when the queue waits |
| `Frames.WireDeterminesBodies` | depends/fly/net/message.js:41-44 | frames at the start of a wire are those of the messages it was made from |
| `Frames.DeliveredInOrder` | depends/fly/net/message_chunk_queue.js:44-108 | for any cut into chunks the messages returned are a prefix of those sent, in order |
| `Frames.HoldsBackExactly` | depends/fly/net/message_chunk_queue.js:46-85 | a complete frame is held back exactly when its header is read off and fewer than four bytes, yet all of its own, are there |
| `Frames.AllDelivered` | depends/fly/net/message_chunk_queue.js:44-108 | with bodies of at least four bytes, a queue that has everything and waits has returned everything |

## Left out

- Nodes are values: that `findPath` hands out node objects which later steps change in place, and
  nodes shared with their parent's raw array, are not modelled.
- RLP and the hash function: an injective hash of nodes and an uninterpreted size. That a node
  holding a hash encodes to at least 32 bytes is assumed where proofs need it
  (`MerkleProof.HashesAreLong`), and a branch value that equals the hash of a stored node is not
  told apart from other values.
- Missing nodes in the store: every walk starts from a root whose nodes are stored.
- `copy`, read and write streams, the secure trie, semaphores and task priorities.
- WaterLine.Agreed: a vote to leave a view counts from then on, where the code clears its tables after a
  view change; and that the node a timeout's votes go to is the next leader.
- Timers, `nextTick` races with a round reset, changes of the node list, and liveness: a timeout is
  a step that may always happen.
- Signatures: a message counts as its sender's. In the step relation a node's own vote is delivered
  like any other, or not at all; `Round.Ripple` counts it first, as the code does.
- The message buffer (`fetchMsgWithSequence`), the leader's collection of transactions, and block
  chain synchronisation: the proposed candidate and the start of a round are free.
- `Round.Ripple` gathers the stage objects of a round in one object, whose counting objects are
  `Votes.ConsensusStage`; the pre-prepare and amalgamate stages of a leader, which wait for all nodes,
  end at any time, and the stage of a failed consensus's view change is only its outcome in `WaterLine`.
- CrowdFund.Contract.Fund: amounts are taken to be recorded without leading zeros.
- Blocks.RunTx: receipts are not written.
- The encoding of accounts is uninterpreted, with an exact decoding (`StateTrie.Exact`).
- Blocks.RunBlock: the receipt root and the receipt checkpoint left open by the early return are not modelled.
- Retry.ProcessBlock: the checks of the header are one flag. For a block with contract calls, cached
  accounts that have not been modified must agree with the parent state; entries left from a run on
  another parent are covered for transfers only.
- Ledger.EMPTY: a zero balance that the code has written is one zero byte, which `isEmpty` does not take
  for empty, so that an account to which a multi-signature contract has paid zero is empty in the model
  only.
- MerkleProof.VerifyProof: what the check does with an element of a proof that is no leaf, extension or
  branch in the form the trie writes is any function (`MerkleProof.Forms`); the theorems hold for each.
- MultiSign.RejectDropsExactly: percentages are compared as exact fractions, where the code compares
  rounded floating-point quotients.
- Ledger.ConservationExactly: a contract that would pay more than it holds is taken to fail; in worlds
  that `Ledger.WorldStaysOk` covers this does not happen.
- `Cache.del`, contract creation checks, and the side-chain, copyright and dynamic contracts.
- Sockets, HTTP servers, databases, log parsing, monitoring and web clients.
