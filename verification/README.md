# Trie, chain, frames, routing and codecs: a model with proofs

A Dafny model of the parts of this Ethereum stack that keep state or do real arithmetic, each proved against
a specification that is simpler than the code. `dafny verify dfyconfig.toml` checks all of it.

| files | what they model |
|---|---|
| `Bytes.dfy`, `Hex.dfy`, `Rlp.dfy` | byte strings, the codec's hexadecimal helpers, the RLP encoder and decoder |
| `MptNode.dfy`, `MptTree.dfy`, `MptEdit.dfy`, `MptMixed.dfy`, `MptCanon.dfy`, `MptStore.dfy`, `MptSize.dfy`, `Mpt.dfy`, `MptRoot.dfy` | trie nodes and keys; the tree a root stands for; the edits on it; deletes among keys of mixed lengths; the canonical form; the node database; sizes; the trie class; which root a content has |
| `ChainDb.dfy`, `ChainWork.dfy`, `ChainReorg.dfy`, `ChainIterators.dfy`, `Chain.dfy`, `ChainRuns.dfy` | the block store's tables; sums of difficulties; reorganisations and deletions; iterators; the class that keeps the canonical chain; runs that end where one would not expect |
| `StateManager.dfy`, `Journal.dfy`, `TransientStorage.dfy`, `Frames.dfy`, `Payments.dfy`, `Evm.dfy` | the stack of state maps; the access journal; transient storage; the meaning of a tree of messages; what it comes to for balances, code and storage; its execution |
| `NodeIds.dfy`, `Buckets.dfy`, `BucketOrder.dfy`, `KBucket.dfy`, `RoutingTable.dfy` | ids and XOR distance; the buckets as lists; their order; the k-bucket tree on the heap; the lookup index |
| `Chunks.dfy`, `CodeStore.dfy`, `BlobPrice.dfy`, `BlobError.dfy` | code chunks and jump analysis; code in the binary tree; the blob price, and how far it can fall short |

Where the program works in place, so does the model: the trie, the blockchain, the state manager, the journal,
transient storage, the EVM, the bucket tree, the routing table and the code store are classes, their loops are
loops, account objects and tree nodes are objects on the heap. Each class carries a ghost value that says what
its fields stand for, every method ties the new value to the old, and the results about runs and inputs are
lemmas about those values.

**Trie** (Appendix D of the Yellow Paper). `put`, `del` and `get` find a path as a stack of nodes, edit its end
and write it back. The class keeps, beside the root and the database, the tree that the root stands for and all
trees it has stood for. The hash is any function to 32 bytes of which no collision is known among the encodings
that occur: no hash is injective on all strings. Which root a content has is defined apart from the trie, by the
structural composition of finite maps in Appendix D and the hex-prefix encoding of Appendix C.

**Chain.** Writes are queued and applied as one batch, so that every walk reads the old tables; the queue is a list
of operations, and what it does to the tables is stated at every step. The outcome of the checks that read nothing
modelled here is a parameter. A block number is any natural number. What an iterator's callback has the chain do is a
list of requests, iterations among them.

**Frames.** One checkpoint, commit and revert drives a height-tagged log, a log with indices and a stack of maps.
The specification is a function on trees of messages in which a failed frame contributes nothing; the interpreter
is any list of operations and nested messages for each frame.

**Routing** (section 2.4 of the Kademlia paper). Only the local id's path is split, so the tree is a list of buckets:
bucket i holds those that part from the local id at bit i, and the last one those that have not parted yet. Events
are returned, as at most one occurs in a call. Ids all have the length of the local id, and the distance is the
exact number.

**Codecs and price.** RLP (Appendix B of the Yellow Paper), chunks (the "Tree embedding" section of EIP-7864), jump
analysis (section 9.4.3 of the Yellow Paper), and the blob price (the "Helpers" section of EIP-4844).

## Findings

Properties that one would expect and the code does not have, each with an input and the exact condition, and two
that were in doubt and hold.

- **`del` with keys of mixed lengths is not a map's removal** (packages/merkel-trie/src/mpt.ts:803-863).
  A found branch at the root empties the trie (`MptMixed.EmptyKeyEmptiesTrie`); setting a branch's value to null
  leaves it, since `BranchMPTNode.value` takes null for a read (`MptMixed.ValueAtBranchStays`); and the count that
  collapses a branch is of children only, so the value beside an only child is lost (`MptMixed.ValueLost`). After
  any history a delete is right if and only if what is found at the root has nothing below it, the branch that loses
  a child does not keep one beside a value, and a branch found elsewhere has no value or a single child
  (`MptMixed.RunDelExact`). A branch with nothing but a value, which such histories do leave, is thus deleted rightly
  (`MptMixed.ValueAlone`), and with keys of one length every delete is right (`MptEdit.FoundUniform`).
- **A header put before its parent keeps a sum without it** (packages/blockchain/src/blockchain.ts:457-464,
  packages/blockchain/src/db/manager.ts:190-199). The total difficulty of a parent that is not stored reads as zero
  rather than failing, and what was stored for a child is not corrected when the parent comes: the parent then
  becomes the head although the child outweighs it (`ChainRuns.ChildFirst`). A put keeps all sums right if and only if
  its item was stored already, no stored header waits for it as its parent, or its own sum is zero
  (`ChainWork.PutSums`, `Chain.Blockchain.PutItem`). Block validation, which asks for the parent, rules the case out;
  putting headers does not.
- **Stale iterator heads do not all go back to the common ancestor**, although the comment at
  packages/blockchain/src/blockchain.ts:388-398 says so: those above the new block's number, and only
  those, go to the new block (`ChainReorg.ReorgedHead`), which was never run (`ChainRuns.HeadOnHeavierBlock`). The model follows the code.
- **An iterator may leave out blocks when its first callback reorganises the chain**
  (packages/blockchain/src/blockchain.ts:1033-1072). With the lock released during callbacks, a reorganisation is
  noticed by comparing with the last block kept, and before one is kept there is none to compare with: the block then
  run may stand on one that was not (`ChainRuns.BlockLeftOut`). A block follows on what was run before if and only if
  one has been kept or the head the iteration started from is still canonical (`Chain.Blockchain.Iterate`).
- **A head block that was deleted off the canonical chain stops all puts.** `_delBlock` moves the heads for canonical
  blocks only, and `_putBlockOrHeader` then throws on the missing number of the head block
  (packages/blockchain/src/blockchain.ts:453-455, 915-920; `ChainRuns.HeadBlockGone`). A put throws for this reason if
  and only if the head block's hash is not indexed (`PutThrows` in `Chain.Blockchain.PutBlockOrHeader`).
- **Deleting the genesis block leaves no chain** (packages/blockchain/src/blockchain.ts:898-938): nothing refuses it,
  all canonical blocks go, and the heads move to its parent hash. A deletion keeps the state valid if and only if it
  fails or the block is not genesis (`Chain.Blockchain.DelBlock`).
- **A creation without the balance leaves its checkpoint open** (packages/evm/src/evm.ts:598, 1119, 1302-1309): the
  exception is caught for calls and not for creations, and leaves `runCall` between checkpoint and revert
  (`Frames.ThrownCreation`). It happens if and only if the message is a creation whose sender lacks the value
  (`Frames.ThrownIff`), and then exactly one checkpoint more is open (`Execution.Evm.RunCall`). The interpreter never
  sends such a message (`Frames.NestedEnds`).
- **`add` may never return** (packages/kademlia/src/bucket.ts:123-143): with room for no contact in a bucket, adding
  the local id splits for ever (`Buckets.NeverRoom`). It ends for any room, or any other id (`KBuckets.KBucket.Add`).
- **`hexToBytes` cuts a string to its 0x prefix instead of cutting the prefix off**
  (packages/rlp/src/utils.ts:26). So it fails for every such string; it succeeds if and only if the string is an even
  number of digits (`Hex.HexToBytes`), as all strings of the codec are.
- **The doubt at packages/evm/src/journal.ts:146 is unfounded**: after heights such as 4, 3, 4 a revert stops where it
  should, since what lies below belongs to the outer checkpoint (`AccessJournal.Journal.Undo`).
- **Slicing chunks by the code's length in bytes** (packages/state-manager/src/statefulBinaryTreeStateManager.ts:345-348,
  407-410) compares bytes with chunks, and is right all the same: there are never more chunks than bytes
  (`CodeStorage.CodeStore.PutStem`).

## Model

| member | source | states |
|---|---|---|
| MptRoot.Replay | packages/merkel-trie/src/mpt.ts:242-345 | Whatever the history of puts and deletes, with keys of any lengths, the trie's root is that of the tree reached by the same edits on values; with keys of one length, or without deletes, it is the root that Appendix D of the Yellow Paper gives the map which the history leaves. Assumed are short keys and values, and no collision among the encodings that occur. |
| MptRoot.RootOfRun | packages/merkel-trie/src/mpt.ts:621-962 | After any history over keys of one length, the root is the hash of the structural composition of the map that the history leaves, which is defined on maps alone: a leaf for one key, an extension for what several share, else sixteen contents and a value, each item of 32 bytes or more by its hash. |
| MptRoot.RootOfPuts | packages/merkel-trie/src/mpt.ts:621-962 | The same after puts of any keys, of whatever lengths. |
| MptRoot.RootOfContent | packages/merkel-trie/src/mpt.ts:929-962 | The same for every canonical trie and what it holds. |
| MptSize.RootIsContent | packages/merkel-trie/src/mpt.ts:621-918 | Two histories over keys of one non-zero length end in the same root if and only if they end in the same map. |
| MptCanon.RunRefines | packages/merkel-trie/src/mpt.ts:215-345 | Over every history with keys of one length, looking any key up gives what the finite map of that history holds, and the tree is canonical. |
| MptCanon.StepRefines | packages/merkel-trie/src/mpt.ts:242-345 | One put or delete on a canonical tree is the same step on the finite map, and keeps the canonical form and the key length. |
| MptCanon.StepLookup | packages/merkel-trie/src/mpt.ts:242-345 | A put or delete changes what is found under its own key and under no other. |
| MptCanon.Unique | packages/merkel-trie/src/mpt.ts:621-918 | Two canonical trees with the same content are the same tree. |
| MptCanon.RootDecidesContent | packages/merkel-trie/src/mpt.ts:176-190 | Of two canonical tries, empty ones included, the roots are equal if and only if the contents are. |
| MptCanon.RootOfKnown | packages/merkel-trie/src/mpt.ts:621-918 | The same for the ends of two histories whose nodes' encodings are known and free of collisions. |
| MptEdit.PutLookup | packages/merkel-trie/src/mpt.ts:621-723 | After a put, every key finds what it found before, but for the one put, which finds its value; for keys of any length. |
| MptEdit.PutWf | packages/merkel-trie/src/mpt.ts:621-723 | A put keeps extensions non-empty and over a branch, and leaves without empty values. |
| MptEdit.PutCanon | packages/merkel-trie/src/mpt.ts:621-723 | A put keeps every branch at two entries or more. |
| MptEdit.PutUniform | packages/merkel-trie/src/mpt.ts:621-723 | A put of a key of the common length keeps that length, and so no value at any branch. |
| MptEdit.DelLookup | packages/merkel-trie/src/mpt.ts:729-873 | Under its guards a delete removes its key and changes no other. |
| MptMixed.DelExact | packages/merkel-trie/src/mpt.ts:729-873 | On every tree whose branches have a value or two children, a delete does what a map's removal does if and only if its guards hold: what is found at the root has nothing below it, the branch that loses a child does not keep one beside a value, and a branch found elsewhere has no value or a single child. |
| MptMixed.RunDelExact | packages/merkel-trie/src/mpt.ts:315-345 | After any history of puts and deletes, over keys of any lengths, the next delete takes its own key away and changes no other lookup if and only if what stands on that key's path meets those guards. |
| MptMixed.RunAlive | packages/merkel-trie/src/mpt.ts:242-345 | Every history, over keys of any lengths, leaves each branch with a value or two children. |
| MptMixed.DelFails | packages/merkel-trie/src/mpt.ts:729-873 | Where a guard fails there is a key under which the wrong value is found, and the lemma gives it. |
| MptMixed.EmptyKeyEmptiesTrie | packages/merkel-trie/src/mpt.ts:803-807 | An input: deleting the empty key, under which nothing is stored, empties a trie that holds two keys. |
| MptMixed.ValueAtBranchStays | packages/merkel-trie/src/mpt.ts:809-810 | An input: deleting a key that two longer keys continue leaves its value there. |
| MptMixed.ValueLost | packages/merkel-trie/src/mpt.ts:828-863 | An input: deleting one of the two keys that continue a key takes that key's value along. |
| MptMixed.ValueAlone | packages/merkel-trie/src/mpt.ts:803-807 | A history over mixed keys that leaves a value alone in a root branch, which is not canonical, and is deleted as it should be. |
| MptEdit.DelWf | packages/merkel-trie/src/mpt.ts:729-873 | A delete keeps the shape, also outside its guards. |
| MptEdit.DelUniform | packages/merkel-trie/src/mpt.ts:729-873 | With keys of one length a delete keeps that length and the canonical form. |
| MptEdit.FoundUniform | packages/merkel-trie/src/mpt.ts:803-824 | With keys of one length, what a delete finds is a leaf under a branch without a value, and the guards hold. |
| MptEdit.AbsentWhenNotFound | packages/merkel-trie/src/mpt.ts:215-233 | What is stored under a key is what stands where its path ends, or nothing when the path misses. |
| MptEdit.HoistLookup | packages/merkel-trie/src/mpt.ts:730-793 | Merging the keys around an only child changes the shape and no lookup. |
| MptEdit.CollapseLookup | packages/merkel-trie/src/mpt.ts:828-872 | Collapsing a branch keeps all lookups but that of its own value. |
| MptTree.DescendPlug | packages/merkel-trie/src/mpt.ts:358-514 | The path found, put together again, is the tree; its segments and the rest make up the key; and no child follows the rest. |
| MptTree.PlugLookup | packages/merkel-trie/src/mpt.ts:882-918 | Replacing the end of a path changes what is stored below the path and nothing else. |
| MptTree.RefInjective | packages/merkel-trie/src/mpt.ts:929-962 | Without collisions equal references, or equal roots, stand for equal trees. |
| MptTree.RootNotEmpty | packages/merkel-trie/src/mpt.ts:266-268 | No tree has the root of the empty trie. |
| MptTree.SmallTreesFit | packages/merkel-trie/src/mpt.ts:929-962 | Short keys and values make every node fit RLP, and every reference at most 33 bytes. |
| MptSize.RunBounded | packages/merkel-trie/src/mpt.ts:242-345 | No history of short keys and values, of whatever lengths, leads to a tree with a long key or value. |
| MptSize.RunKnown | packages/merkel-trie/src/mpt.ts:242-345 | So nothing has to be assumed of the trees of a history but that their encodings do not collide. |
| MptNode.EncodedKeyRoundTrip | packages/merkel-trie/src/util/hex.ts:8-47 | A key packed with its hex prefix gives back its nibbles and the kind of its node. |
| MptRoot.EncodedKeyFirst | packages/merkel-trie/src/util/hex.ts:8-24 | A packed key has a byte for every two nibbles and one more; the upper half of the first is 2 for a leaf and 0 for an extension, and 1 more for an odd number, and its lower half is then the first nibble and else 0. |
| MptRoot.EncodedKeyRest | packages/merkel-trie/src/util/hex.ts:8-24 | Its other bytes are the remaining nibbles in pairs, the first of a pair above. |
| MptRoot.NibblesAt | packages/merkel-trie/src/util/nibbles.ts:8-19 | The nibbles of a key are its bytes' halves in order, the upper one first. |
| MptNode.UnpackPacked | packages/merkel-trie/src/util/nibbles.ts:8-33 | Nibbles packed in pairs are read back. |
| MptNode.NibblesInjective | packages/merkel-trie/src/util/nibbles.ts:8-19 | Different byte keys have different nibbles. |
| MptNode.DecodeRawNode | packages/merkel-trie/src/node/util.ts:13-25 | A raw node is read back as the node it was made of. |
| MptNode.SerializeInjective | packages/merkel-trie/src/node/branch.ts:36-42 | No two nodes have one encoding. |
| MptStore.ApplyGrows | packages/merkel-trie/src/mpt.ts:912-918 | Writing nodes under their hashes never overwrites an entry with another value. |
| MptStore.KeptDenotes | packages/merkel-trie/src/mpt.ts:585-611 | A stored tree's reference denotes that tree's node and no other. |
| MptStore.GrowsKept | packages/merkel-trie/src/mpt.ts:882-918 | A tree that was stored stays stored. |
| MptStore.PlugKept | packages/merkel-trie/src/mpt.ts:358-514 | What hangs off a path in a stored tree is stored. |
| Mpt.MerklePatriciaTrie.constructor | packages/merkel-trie/src/mpt.ts:93-150 | The new trie stands for nothing and stores nothing. |
| Mpt.MerklePatriciaTrie.SetRoot | packages/merkel-trie/src/mpt.ts:176-190 | Null sets the empty root and any tree whose nodes are stored can be set, those the trie has had among them; a value that has not the length of a root fails and changes nothing. |
| Mpt.MerklePatriciaTrie.LookupNode | packages/merkel-trie/src/mpt.ts:585-611 | Gives the node that the reference denotes, and fails exactly when it denotes none. |
| Mpt.MerklePatriciaTrie.FindPath | packages/merkel-trie/src/mpt.ts:358-514 | The stack is the nodes along the key, the node is found exactly when the descent on the tree ends at it, and the remainder is what the key is short of. |
| Mpt.OnFoundDescends | packages/merkel-trie/src/mpt.ts:382-473 | On a node, the walk stops or goes on as the descent on its tree does. |
| Mpt.MerklePatriciaTrie.Get | packages/merkel-trie/src/mpt.ts:215-233 | The value that the tree behind the root holds under the key. |
| Mpt.MerklePatriciaTrie.Put | packages/merkel-trie/src/mpt.ts:242-307 | The tree behind the root is then the edited one; every tree there was is still stored. |
| Mpt.MerklePatriciaTrie.Del | packages/merkel-trie/src/mpt.ts:315-345 | Likewise for a delete. |
| Mpt.MerklePatriciaTrie.CreateInitialNode | packages/merkel-trie/src/mpt.ts:566-580 | A trie of one leaf. |
| Mpt.MerklePatriciaTrie.UpdateNode | packages/merkel-trie/src/mpt.ts:621-723 | Editing the end of the stack and rewriting it makes the root that of the tree with the value put. |
| Mpt.MerklePatriciaTrie.FillBranch | packages/merkel-trie/src/mpt.ts:663-673 | A new leaf below a branch, or the value in it, for both places where a put ends so. |
| Mpt.MerklePatriciaTrie.Fork | packages/merkel-trie/src/mpt.ts:674-720 | A leaf or extension parted from the key is replaced by a branch behind what they share. |
| Mpt.MerklePatriciaTrie.DeleteNode | packages/merkel-trie/src/mpt.ts:729-873 | The root is then that of the tree without the value, in all the ways a branch can collapse. |
| Mpt.MerklePatriciaTrie.CollapseBranch | packages/merkel-trie/src/mpt.ts:826-872 | The branch is written back, or its only child takes its place. |
| Mpt.MerklePatriciaTrie.HoistChild | packages/merkel-trie/src/mpt.ts:730-793 | The child's key, its nibble and an extension above become one key. |
| Mpt.MerklePatriciaTrie.GetChildren | packages/merkel-trie/src/node/branch.ts:53-62 | The indices and references of the filled slots, in order. |
| Mpt.OneChildLeft | packages/merkel-trie/src/node/branch.ts:53-62 | A branch node has one slot filled if and only if its tree has an only child, and it is that one. |
| Mpt.MerklePatriciaTrie.SaveStack | packages/merkel-trie/src/mpt.ts:882-918 | Whatever stack belongs to a path, the root is then that of the tree rebuilt along it, and all its nodes are inlined or stored. |
| Mpt.MerklePatriciaTrie.FormatStack | packages/merkel-trie/src/mpt.ts:889-910 | The loop gives the reference of the rebuilt tree, and its queued writes store every node on the path. |
| Mpt.MerklePatriciaTrie.FormatNode | packages/merkel-trie/src/mpt.ts:929-962 | A node of 32 bytes or more, or at the top, is queued under its hash; any other is its own reference. |
| Chain.Blockchain.Run | packages/blockchain/src/blockchain.ts:342-998 | After any run of puts, resets, deletes and iterations, failed ones and those whose callbacks make such requests themselves included, number-to-hash is defined on exactly 0..n with n the head header's number, and entry i is the head header's ancestor at number i. |
| ChainDb.CanonicalIsAncestor | packages/blockchain/src/blockchain.ts:1107-1157 | Entry i of a canonical chain is the head's ancestor at number i, by parent hashes. |
| ChainDb.AgreeBelow | packages/blockchain/src/blockchain.ts:1107-1157 | Where a header's parents meet the canonical chain once, they agree with it all the way down. |
| Chain.Blockchain.ChainIsAncestry | packages/blockchain/src/blockchain.ts:1379-1387 | The same for the state at hand, with the entries exactly 0..n. |
| Chain.Blockchain.constructor | packages/blockchain/src/blockchain.ts:118-160 | A fresh store holds the genesis block, with right sums of difficulties. |
| Chain.Blockchain.FindCommonAncestor | packages/blockchain/src/blockchain.ts:1107-1157 | Ends, with the highest header at which the new header's parents and the canonical chain agree; fails exactly when the stored parents never meet it. |
| Chain.Blockchain.WalkTogether | packages/blockchain/src/blockchain.ts:1131-1152 | The second loop: down both chains in step from any number above which they differ. |
| Chain.Blockchain.RebuildCanonical | packages/blockchain/src/blockchain.ts:1246-1310 | The queue writes exactly the entries from above the fork point to the new header, each the hash of its ancestor there; heads on overwritten entries go to the fork point. |
| Chain.Blockchain.WalkBack | packages/blockchain/src/blockchain.ts:1252-1298 | The loop stops at the fork point, having noted all heads that stand on entries overwritten. |
| Chain.Blockchain.DeleteCanonicalChainReferences | packages/blockchain/src/blockchain.ts:1172-1229 | The queue removes all entries from a number on and no others; all heads that stood on them move to the given hash. |
| Chain.Blockchain.QueueReorg | packages/blockchain/src/blockchain.ts:481-502 | The two together: what the batch of a reorganisation does to the tables as they were, and to the heads. |
| ChainReorg.ReorganiseOk | packages/blockchain/src/blockchain.ts:469-514 | Applied as one batch, a reorganisation leaves a canonical chain up to the new head with every iterator head on it. |
| ChainReorg.OverlayRewritten | packages/blockchain/src/blockchain.ts:1246-1310 | The entries are then the old ones up to the fork point and the new header's ancestors above it. |
| ChainReorg.ReorgedHead | packages/blockchain/src/blockchain.ts:1193-1197 | An iterator head above the fork point goes back to it, unless it stands above the new block's number: then it goes to the new block. |
| ChainReorg.ReorgedBlock | packages/blockchain/src/blockchain.ts:481-502 | The head header goes to the item, and the head block too when the item is a block; under a new header alone it goes where an iterator head would, and stays if it is off the chain. |
| ChainRuns.HeadOnHeavierBlock | packages/blockchain/src/blockchain.ts:388-398 | An input: two blocks run by an iterator, then a heavier block beside the first; the iterator's head is that block, which it has not run. |
| Chain.Blockchain.PutBlockOrHeader | packages/blockchain/src/blockchain.ts:400-528 | Throws exactly when a check fails, the head block is gone, or the chains do not meet, and then changes nothing; otherwise stores the item, and rewrites the chain if and only if its work exceeds the head header's; if not, a block with more work than the head block becomes that and nothing else moves. |
| Chain.Blockchain.PutItem | packages/blockchain/src/blockchain.ts:400-528 | Right sums of difficulties, with none above the head header's, stay so if and only if the item does not come after a child of its own, or adds nothing; with all parents stored they are sums back to genesis, and stay so on a stored parent, as of every validated block. |
| ChainWork.PutWork | packages/blockchain/src/blockchain.ts:457-464 | What a put stores is the sum of the difficulties back from the item as far as parents are stored, and it wrongs a sum exactly when a child was stored first and the item adds to it; no header outweighs the head in either case. |
| ChainWork.PutSums | packages/blockchain/src/blockchain.ts:457-467 | The stored sums stay those of the parent chains, as far as these are stored, if and only if the item was stored already, no stored header waits for it as its parent, or its own sum is zero. |
| ChainWork.ChildFallsShort | packages/blockchain/src/blockchain.ts:457-467 | The sum of a child stored before its parent lacks exactly the parent's own sum. |
| ChainWork.NotLate | packages/blockchain/src/blockchain.ts:457-464 | Where every header has its parent stored, no item comes after its own child. |
| ChainWork.StoreKeepsWork | packages/blockchain/src/blockchain.ts:457-467 | With the parent stored, every stored total difficulty is the sum back to genesis. |
| ChainWork.StaysHeaviest | packages/blockchain/src/blockchain.ts:472-482 | After a put, whatever came before what, no stored header has more total difficulty than the head header. |
| ChainWork.OrphanHasNoWork | packages/blockchain/src/db/manager.ts:190-199 | In every state the total difficulty of a parent that is not stored reads as zero. |
| ChainRuns.ChildFirst | packages/blockchain/src/blockchain.ts:400-528 | An input: a header put before its parent keeps its own difficulty as the stored sum, and the parent becomes the head although the child outweighs it. |
| ChainRuns.HeadBlockGone | packages/blockchain/src/blockchain.ts:453-455 | An input: a header, a lighter block beside it, and the block deleted; every put above number 0 throws then. |
| Chain.Blockchain.PutBlocks | packages/blockchain/src/blockchain.ts:285-291 | Blocks before the first that throws are stored with their bodies, nothing stored before is lost, and with validation on the sums of difficulties stay right. |
| Chain.Blockchain.Iterate | packages/blockchain/src/blockchain.ts:1011-1086 | Whatever callbacks do to the chain while the lock is free, it stays valid with the iterator's head on it. Each block run has its body stored, or a header that says it is empty; it is a child of the one kept before, of the head that the iteration started from, or after a reorganisation seen of its present head, if and only if a block has been kept or the starting head is still canonical. Undisturbed, the head moves along by as many blocks as were run: to the limit, the chain's end, or an error. |
| ChainIterators.StopsAtMissingBody | packages/blockchain/src/blockchain.ts:1029-1085 | An undisturbed iteration that comes to a block whose header is not that of an empty one and whose body is missed fails there, with that block not run and the head on the one before. |
| Chain.Blockchain.RunNext | packages/blockchain/src/blockchain.ts:1033-1072 | One round: a block is kept exactly when its callback ended well and it is canonical still, and is the iterator's head then. |
| ChainIterators.FetchedFollows | packages/blockchain/src/blockchain.ts:1033-1043 | The comparison with the last block kept sends the iterator back to its head exactly when that block is no longer the parent of the next. |
| ChainRuns.BlockLeftOut | packages/blockchain/src/blockchain.ts:1028-1072 | An input: the callback on the first block of an iteration reorganises the chain under it; the next round, told of no reorganisation, runs a block whose parent was never run. |
| Chain.Blockchain.ResetCanonicalHead | packages/blockchain/src/blockchain.ts:342-386 | Fails exactly beyond the chain's end; otherwise cuts the chain there, and all heads above move to its new end. |
| Chain.Blockchain.DelBlock | packages/blockchain/src/blockchain.ts:898-938 | Fails exactly for a block not stored; a side block goes alone, a canonical one with all above it, and heads on those move to its parent; the state stays valid unless the block is genesis. |
| ChainReorg.WhatIsGone | packages/blockchain/src/blockchain.ts:955-980 | Of every block that a deletion takes no header, body, total difficulty or number is left, and every other block keeps all four. |
| Chain.Blockchain.DelChild | packages/blockchain/src/blockchain.ts:955-998 | The recursion, reading the old tables, queues the deletion of exactly the canonical blocks from a number on. |
| ChainReorg.TruncateOk | packages/blockchain/src/blockchain.ts:1172-1229 | Cutting the chain, with or without deleting the blocks cut off, leaves a canonical chain with every iterator head on it. |
| ChainReorg.CutMeans | packages/blockchain/src/blockchain.ts:1172-1229 | The canonical entries below the cut stay as they are and those from it on go; every head that stood on one of these moves to the hash given, and no other does; when no block is deleted, none is lost. |
| ChainReorg.RemoveSide | packages/blockchain/src/blockchain.ts:913-938 | Deleting a block off the canonical chain leaves chain and heads as they are. |
| Execution.Evm.RunCall | packages/evm/src/evm.ts:1096-1185 | For any tree of nested calls and creations, the world afterwards is that of a semantics in which a failed frame contributes nothing, and all three undo mechanisms are as deep as they were, holding what they held; a thrown creation alone leaves one checkpoint more. |
| Payments.CallPays | packages/evm/src/evm.ts:451-530 | A call without code succeeds exactly when the sender has the value and the callee room for it, and then the value has gone from the one balance to the other, a self-call changing none, and both are touched; all else stays, but the sender's nonce at depth 0. A delegate call pays nothing. |
| Payments.CodeRuns | packages/evm/src/evm.ts:530-596 | A call with code runs it, as the callee, in the world that the call without code leaves, and succeeds exactly when both do. |
| Payments.CreateSucceeds | packages/evm/src/evm.ts:598-700 | A creation by a sender with the value succeeds exactly when its code is not too long and the new address has no nonce, code or storage and room for the value. |
| Payments.CreatePays | packages/evm/src/evm.ts:598-735 | It then has moved the value from the sender to the new address, with nonces up by one for the sender at depth 0 and for the new account from Spurious Dragon on, and no other account, code or storage changed. |
| Payments.InitCodeRuns | packages/evm/src/evm.ts:735-960 | A creation with code runs it, as the new account, in the world that the one without code leaves, and stores what it returns under the new address with its hash; on Frontier alone it succeeds without if it cannot pay for it. |
| Payments.FailureLeaves | packages/evm/src/evm.ts:1204-1222 | A message that fails leaves no balance, code, storage or transient storage changed; what is left is the sender's nonce at depth 0, the warm address of a creation, and a touched RIPEMD-160. |
| Payments.Widths | packages/utils/src/constants.ts:9-16 | Balances have 256 bits and nonces 64. |
| Payments.NothingBelowLimit | packages/evm/src/interpreter.ts:1085-1091 | A message does what it does without everything that its code would send from the stack limit on. |
| Payments.NotSent | packages/evm/src/interpreter.ts:1085-1164 | What the interpreter does not send does nothing: too deep, not paid for, or a creation by an account at the last nonce. |
| Payments.Sent | packages/evm/src/interpreter.ts:1085-1200 | What it sends is a message of the running contract, one level deeper, whose nonce has gone up by one for a creation. |
| Payments.OpsStore | packages/evm/src/interpreter.ts:717-728 | Operations that send nothing leave in every slot the value last stored there, or the one it had, and change no account. |
| Payments.OpsStoreTransient | packages/evm/src/transientStorage.ts:52-80 | The same for transient storage, where keys and values of the wrong length are refused, and which is none before EIP-1153. |
| Payments.OpsAccess | packages/evm/src/journal.ts:270-282 | Addresses are warm that were or that an operation has accessed. |
| Payments.OpsWarm | packages/evm/src/journal.ts:240-340 | The same for slots, and for what is always warm. |
| Frames.Conservation | packages/evm/src/evm.ts:444-525 | Whatever a message leads to, the sum of all balances stays, unless it is thrown out of. |
| Frames.ThrownIff | packages/evm/src/evm.ts:593-598 | A message is thrown out of if and only if it is a creation whose sender lacks the value. |
| Frames.ThrownCreation | packages/evm/src/evm.ts:1302-1309 | An input: a creation with value by a sender without an account. |
| Frames.NestedEnds | packages/evm/src/interpreter.ts:1140-1164 | The interpreter's checks rule that out for nested messages. |
| Frames.MessageWithoutTransient | packages/evm/src/evm.ts:1119-1181 | Before EIP-1153 no message changes transient storage, which is then not undone. |
| Execution.Evm.RunFrame | packages/evm/src/evm.ts:1119-1185 | The frame between a checkpoint and its commit or revert. |
| Execution.Evm.ExecuteCall | packages/evm/src/evm.ts:444-577 | A call's frame: transfer, code, and cleanup in the transaction's own frame. |
| Execution.Evm.ExecuteCreate | packages/evm/src/evm.ts:593-947 | A creation's frame: payment, collision, the new account, init code, the deposit, cleanup. |
| Execution.Evm.CreateContract | packages/evm/src/evm.ts:678-757 | From the new account on. |
| Execution.Evm.DepositCode | packages/evm/src/evm.ts:862-937 | The fate of the code returned, including the success without code that Frontier grants. |
| Execution.Evm.RunInterpreter | packages/evm/src/interpreter.ts:1069-1135 | The operations in order, each with the nested frames it sends. |
| Execution.Evm.BaseCall | packages/evm/src/interpreter.ts:1069-1164 | A message too deep, or not paid for, is not sent; a creator's nonce goes up before a creation is, and stays up. |
| Execution.Evm.ReduceSenderBalance | packages/evm/src/evm.ts:1302-1317 | Fails exactly without the balance; the account object is written before it is looked at, which shows in the top map alone. |
| Execution.Evm.AddToBalance | packages/evm/src/evm.ts:1319-1333 | Fails exactly on overflow, and then changes nothing. |
| Execution.Evm.PostMessageCleanup | packages/evm/src/evm.ts:1338-1340 | Only the transaction's own frame clears transient storage. |
| AccessJournal.Journal.Undo | packages/evm/src/journal.ts:143-193 | A revert restores warm addresses, warm slots and touched accounts to the matching checkpoint's, whatever inner checkpoints were committed or reverted since, but for a touched RIPEMD-160, which stays touched; the doubt noted at line 146 is unfounded. |
| AccessJournal.LogCheckpoint | packages/evm/src/journal.ts:134-141 | The height-tagged log after a checkpoint refines the stack of snapshots with one more. |
| AccessJournal.LogCommit | packages/evm/src/journal.ts:125-132 | After a commit, with the last snapshot dropped and nothing undone. |
| AccessJournal.LogRevert | packages/evm/src/journal.ts:143-193 | After undoing down to the last entry of a lower height, with the last snapshot restored; heights still differ by one and end at the current one. |
| AccessJournal.LogAdd | packages/evm/src/journal.ts:106-124 | An addition entered in the last entry is undone with it. |
| AccessJournal.Journal.UndoEntries | packages/evm/src/journal.ts:149-185 | The backward loop stops at the last entry below the current height. |
| AccessJournal.Journal.TouchAddress | packages/evm/src/journal.ts:101-124 | One touched address more, and every snapshot still to be restored. |
| AccessJournal.Journal.AddWarmedAddress | packages/evm/src/journal.ts:270-282 | A warm address more, with no slots if it was not warm. |
| AccessJournal.Journal.AddWarmedStorage | packages/evm/src/journal.ts:315-338 | A warm slot more, under an address made warm with it. |
| AccessJournal.WarmWhenAccessed | packages/evm/src/journal.ts:216-310 | After any accesses an address is warm exactly when it was before, is always warm, or was accessed, itself or by a slot, and a slot likewise; once they are undone, exactly what was warm before them is. |
| AccessJournal.Journal.IsWarmedStorage | packages/evm/src/journal.ts:289-308 | A slot is warm when it is under its address among the warm or the always warm, whichever of the two has the address. |
| AccessJournal.Journal.Revert | packages/evm/src/journal.ts:143-193 | The revert of journal and state maps together. |
| Transient.TransientStorage.Put | packages/evm/src/transientStorage.ts:52-81 | Every slot reads as before but the one put, and each snapshot can still be restored; keys and values of the wrong length fail and change nothing. |
| Transient.TransientStorage.Get | packages/evm/src/transientStorage.ts:34-44 | The value put, or 32 zero bytes. |
| Transient.ZeroBytes | packages/evm/src/transientStorage.ts:34-44 | The zero value has 32 bytes, all zero. |
| Transient.TransientStorage.Revert | packages/evm/src/transientStorage.ts:103-116 | What can be read is what could be read at the last checkpoint; fails exactly without one. |
| Transient.TransientStorage.Commit | packages/evm/src/transientStorage.ts:86-91 | Drops the last checkpoint and changes nothing that can be read. |
| Transient.UndoTwice | packages/evm/src/transientStorage.ts:103-116 | Undoing the change log in two stretches is undoing it in one. |
| Transient.RefinesPut | packages/evm/src/transientStorage.ts:52-81 | The change log with one more entry leads back to the same snapshots. |
| Transient.RefinesRevert | packages/evm/src/transientStorage.ts:103-116 | Undoing to the last index leads to its snapshot, and leaves a log that leads to the earlier ones. |
| StateManager.SimpleStateManager.Checkpoint | packages/state-manager/src/simpleStateManager.ts:63-78 | A level more that stands for the same state in account objects of its own, so that in-place writes reach no lower level. |
| StateManager.SimpleStateManager.Commit | packages/state-manager/src/simpleStateManager.ts:144-148 | The level below the top is dropped and the state stays. |
| StateManager.SimpleStateManager.Revert | packages/state-manager/src/simpleStateManager.ts:150-154 | The state is the one saved below the top. |
| StateManager.SimpleStateManager.CopyAccounts | packages/state-manager/src/simpleStateManager.ts:63-78 | Every account object in the copy is new and has the state of its original. |
| StateManager.SimpleStateManager.SetBalance | packages/state-manager/src/simpleStateManager.ts:80-90 | Writing an account object in place changes what the top level stands for, if it holds the object, and no saved level. |
| StateManager.SimpleStateManager.PutAccount | packages/state-manager/src/simpleStateManager.ts:84-90 | The account's state under its address, in the top level alone. |
| StateManager.SimpleStateManager.PutCode | packages/state-manager/src/simpleStateManager.ts:106-114 | The code, and its hash on an account made for it if there was none. |
| StateManager.SimpleStateManager.PutStorage | packages/state-manager/src/simpleStateManager.ts:128-137 | One slot of the top level. |
| StateManager.PushOk | packages/state-manager/src/simpleStateManager.ts:63-78 | A stack of maps with one more of fresh objects stands for the saved states with one more. |
| StateManager.CommitOk | packages/state-manager/src/simpleStateManager.ts:144-148 | Dropping the second from the top keeps the top state and all below. |
| KBuckets.KBucket.Add | packages/kademlia/src/bucket.ts:104-144 | Ends, by the bits left to split on, with the table of contacts and the event that adding to the list of buckets gives. |
| Buckets.InsertOk | packages/kademlia/src/bucket.ts:104-144 | Adding keeps the tree well formed, and its event tells what became of the contacts: one more, one replaced, or none changed and a ping. |
| Buckets.RoomToSplit | packages/kademlia/src/bucket.ts:129-143 | A full bucket on the local id's path and a new id for it always differ in a bit still left, so that splitting ends. |
| Buckets.NeverRoom | packages/kademlia/src/bucket.ts:123-143 | With room for no contact, the local id is sent to the last bucket after any number of splits, and that bucket is full: adding it never ends. |
| Buckets.SplitOk | packages/kademlia/src/bucket.ts:265-280 | Splitting keeps the tree well formed and every contact. |
| Buckets.RunHolds | packages/kademlia/src/bucket.ts:104-260 | After any run of additions and removals an id is in the tree at most once, and only if it was added and not removed since; the contact is one that was added when the arbiter only chooses. |
| BucketOrder.RunSorted | packages/kademlia/src/bucket.ts:107-140 | Over every run, each bucket holds its contacts in the order in which they were added or last put in the place of an older self. |
| BucketOrder.PingsOldest | packages/kademlia/src/bucket.ts:128-139 | A ping goes to as many contacts of the new one's full bucket as it has and are to be pinged at once, and nobody left out was last seen before one of them. |
| BucketOrder.InsertSorted | packages/kademlia/src/bucket.ts:107-143 | An addition keeps every bucket in order, through any number of splits, with the contact that it places seen last. |
| BucketOrder.ClocksRise | packages/kademlia/src/bucket.ts:65-67 | With the default arbiter an addition of a known id leaves the contact with the larger vector clock, the new one on a tie, and no clock falls. |
| Buckets.Run | packages/kademlia/src/bucket.ts:104-260 | Every run keeps the tree well formed: each bucket holds at most k contacts, with different ids that part from the local id at the bucket's depth, or, in the last one, not before it. |
| Buckets.IdsDistinct | packages/kademlia/src/bucket.ts:235-240 | No two contacts share an id. |
| Buckets.DeleteOk | packages/kademlia/src/bucket.ts:245-260 | Removing takes the contact with the id and no other, and says which. |
| KBuckets.KBucket.Remove | packages/kademlia/src/bucket.ts:245-260 | The tree is then that table, order included. |
| KBuckets.KBucket.FindLeaf | packages/kademlia/src/bucket.ts:109-114 | The walk down the bits of an id ends at the leaf of its bucket. |
| KBuckets.KBucket.Get | packages/kademlia/src/bucket.ts:220-230 | The contact with the id, found exactly when anyone has it. |
| KBuckets.KBucket.SplitLeaf | packages/kademlia/src/bucket.ts:265-280 | A leaf becomes an inner node on the local id's path, with each contact on the side its bit says and only the near side left to be split. |
| KBuckets.KBucket.FindClosest | packages/kademlia/src/bucket.ts:149-178 | In order of exact distance, as many contacts as asked for or there are, and nobody left out is nearer; fails exactly for a limit that is not positive. |
| Buckets.WalkInner | packages/kademlia/src/bucket.ts:160-169 | The bit counter is the depth of the inner node popped, and the child with the target's bit is the nearer one. |
| Buckets.Separate | packages/kademlia/src/bucket.ts:197-215 | Everyone on the target's side of a bit is nearer to it than everyone on the other. |
| Buckets.WalkEnds | packages/kademlia/src/bucket.ts:174-177 | When the walk stops, those found, sorted and cut, are the closest of all. |
| Buckets.SortSorts | packages/kademlia/src/bucket.ts:175-176 | Sorting orders by distance; its contract keeps the contacts. |
| KBuckets.KBucket.CountContacts | packages/kademlia/src/bucket.ts:183-191 | The number of contacts in all buckets. |
| NodeIds.ComputeDistance | packages/kademlia/src/bucket.ts:73-85 | The exact number that the bytes' differences spell, with 255 for every byte that one of the ids lacks. |
| NodeIds.DistanceIsBitwise | packages/kademlia/src/bucket.ts:73-85 | That number is the exclusive or, bit by bit. |
| NodeIds.Nearer | packages/kademlia/src/bucket.ts:197-215 | Of two ids that agree before a bit, the one with the target's bit there is nearer. |
| NodeIds.DistancesDiffer | packages/kademlia/src/bucket.ts:174-177 | Different ids are at different distances. |
| NodeIds.IdFromBits | packages/kademlia/src/bucket.ts:197-215 | Ids of one length with the same bits are the same. |
| Routing.RoutingTable.constructor | packages/kademlia/src/routing-table.ts:24-61 | An index without keys beside a tree without contacts. |
| Routing.RoutingTable.Add | packages/kademlia/src/routing-table.ts:88-93 | The index then still maps exactly the keys of the contacts in the tree, each to its own; nothing changes for a known key or a full bucket, and a peer without an id throws. |
| Routing.RoutingTable.Remove | packages/kademlia/src/routing-table.ts:123-128 | Takes the peer that the keys lead to out of tree and index, with all its keys. |
| Routing.RoutingTable.Get | packages/kademlia/src/routing-table.ts:98-104 | A contact that the lookup leads to, found exactly when there is one; for a peer with an id that someone has, that one. |
| Routing.LeadsToIff | packages/kademlia/src/routing-table.ts:75-95 | A lookup leads to a contact exactly when it has the contact's id, or its address and port where both are known. |
| Routing.AddedIndexed | packages/kademlia/src/routing-table.ts:34-39 | Entering a new contact's keys keeps the index the disjoint union of all contacts' keys. |
| Routing.RemovedIndexed | packages/kademlia/src/routing-table.ts:41-46 | So does taking a removed contact's keys out. |
| Routing.KeysDisjoint | packages/kademlia/src/routing-table.ts:73-82 | No two contacts in the tree share a key. |
| Rlp.PrefixFree | packages/rlp/src/encode.ts:4-30 | An encoding followed by anything determines both: no encoding is a prefix of another, and encoding is injective. |
| Rlp.Encode | packages/rlp/src/encode.ts:4-20 | The loop over hexadecimal lengths and buffers gives the encoding that Appendix B defines. |
| Rlp.EncodeLength | packages/rlp/src/encode.ts:22-30 | The header's bytes, though written as hexadecimal digits, are prefix and minimal big-endian length. |
| Rlp.EncodedString | packages/rlp/src/encode.ts:4-30 | A byte below 0x80 is its own encoding; up to 55 bytes stand behind 0x80 and their number, more behind 0xb7 and the number of bytes of their number, and that. |
| Rlp.EncodedList | packages/rlp/src/encode.ts:4-30 | A list is its items' encodings one after the other, behind 0xc0 and their length up to 55, or behind 0xf7, the number of bytes of that length, and the length. |
| Rlp.DecodeOne | packages/rlp/src/decode.ts:44-130 | Ends, and reads an item off the front exactly when one stands there, with what follows it. |
| Rlp.DecodeList | packages/rlp/src/decode.ts:93-129 | Likewise for lists, short and long. |
| Rlp.DecodeItems | packages/rlp/src/decode.ts:96-100 | The loop reads a payload exactly when it is a row of encodings. |
| Rlp.DecodeLength | packages/rlp/src/decode.ts:37-42 | A length's bytes, parsed as hexadecimal digits, give its value; a leading zero, or no byte, fails. |
| Rlp.Decode | packages/rlp/src/decode.ts:9-35 | A non-empty input is accepted if and only if it is the encoding of an item, and gives that item. |
| Rlp.RoundTrip | packages/rlp/src/decode.ts:9-130 | Decoding an encoding followed by any bytes gives back the item and those bytes. |
| Rlp.ConcatBytes | packages/rlp/src/utils.ts:54-64 | The buffer holds the arrays one after the other. |
| Hex.NumberBytes | packages/rlp/src/utils.ts:70-76 | The bytes of a number's padded hexadecimal form are its minimal big-endian representation. |
| Hex.ParseBytes | packages/rlp/src/utils.ts:4-16 | The number that the hexadecimal digits of bytes spell is their big-endian value. |
| Hex.HexToBytes | packages/rlp/src/utils.ts:25-52 | Succeeds exactly for an even number of digits, and so for no string behind 0x, whose prefix the code cuts to instead of off. |
| Hex.BytesToHex | packages/rlp/src/utils.ts:4-10 | Two digits for each byte, those of its halves in small letters. |
| Hex.DigitTable | packages/rlp/src/utils.ts:33-56 | A digit is one of sixteen characters in either case, and its value where it stands among them. |
| Chunks.ChunkwiseJumps | packages/utils/src/binaryTree.ts:201-239 | Scanning each chunk by itself, past the push data its first byte counts, marks exactly the jump destinations that the scan of the whole code marks. |
| Chunks.ThreeChunkPush | packages/utils/src/binaryTree.ts:221-234 | The longest case: a PUSH32 in a chunk's last byte leaves 32 bytes of data at the next chunk, one more than its first byte can count, and one at the chunk after. |
| Chunks.ChunkifyCode | packages/utils/src/binaryTree.ts:201-239 | As few chunks as hold the code; each is its 31 bytes of the code, zero after the code's end, behind the number of bytes, at most 31, that are left there of the push whose data covers its beginning. |
| Chunks.MarkPushData | packages/utils/src/binaryTree.ts:211-225 | At every position, how much push data is left there. |
| Chunks.LeftIs | packages/utils/src/binaryTree.ts:211-225 | What is left of push data at a position is what is left of the push whose data covers it. |
| Chunks.GetValidJumpDestinations | packages/evm/src/interpreter.ts:598-625 | Marks a position exactly when a JUMPDEST stands there as an instruction; and the numbers pushed are those of the data, zero-padded. |
| Chunks.StartsIff | packages/evm/src/interpreter.ts:598-625 | An instruction stands exactly where no instruction before it, of 0x60 to 0x7f, pushes 1 to 32 bytes that reach so far. |
| Chunks.PushedNumber | packages/evm/src/interpreter.ts:605-616 | The bytes of the number that a push pushes are its bytes of data in order, the first the most significant, with zero for those after the code's end. |
| Chunks.FirstAtTwice | packages/evm/src/interpreter.ts:604-623 | Scanning to a position and on from there is scanning in one go. |
| Chunks.LeftBound | packages/utils/src/binaryTree.ts:211-225 | No position has more than 32 bytes of push data left. |
| CodeStorage.CodeStore.PutCode | packages/state-manager/src/statefulBinaryTreeStateManager.ts:292-359 | Chunk i stands under suffix (128 + i) % 256 of the stem of tree index (128 + i) / 256, for every chunk; nothing under any other key changes; empty code is not stored. |
| CodeStorage.CodeStore.GetCode | packages/state-manager/src/statefulBinaryTreeStateManager.ts:361-440 | The code last put, byte for byte, and none for an account without. |
| CodeStorage.StemsCover | packages/utils/src/binaryTree.ts:362-395 | The stems cover all chunks; the last stem holds one if and only if there are at most 128 chunks or the last chunk's number leaves 128 or more by 256, and is otherwise put empty. |
| CodeStorage.GenerateChunkSuffixes | packages/utils/src/binaryTree.ts:341-353 | Suffix x is the sub-index of chunk x. |
| CodeStorage.GenerateCodeStems | packages/utils/src/binaryTree.ts:362-395 | Stem s is that of tree index s. |
| CodeStorage.KeysDiffer | packages/utils/src/binaryTree.ts:188-198 | Chunks of different accounts or with different numbers never share a key. |
| CodeStorage.StoredKept | packages/state-manager/src/statefulBinaryTreeStateManager.ts:324-354 | Writing under one account's stems leaves every other account's chunks in place. |
| CodeStorage.CodeStore.PutStem | packages/state-manager/src/statefulBinaryTreeStateManager.ts:341-354 | The slices, whose ends compare the code's length in bytes with a number of chunks, still hold exactly the chunks of the stem. |
| CodeStorage.CodeStore.GetChunks | packages/state-manager/src/statefulBinaryTreeStateManager.ts:382-416 | All chunks of the code in order. |
| BlobPrice.FakeExponential | packages/block/src/helpers.ts:136-152 | Terminates for every numerator when the denominator is positive. The terms are the factor times the denominator, then each the one before times numerator over denominator times its number, cut toward zero, up to the first that is not positive; the price is the sum of the positive ones over the denominator, rounded down. |
| BlobPrice.AtLeastFactor | packages/block/src/helpers.ts:136-152 | The price is never below the factor, nor below zero. |
| BlobPrice.Monotone | packages/block/src/helpers.ts:136-152 | A larger numerator never gives a lower price. |
| BlobPrice.BelowTaylor | packages/block/src/helpers.ts:133-152 | The price never exceeds the exact partial sum, in rational numbers, of as many terms of factor * e ** (numerator / denominator) as were added. |
| BlobError.NotFarBelowTaylor | packages/block/src/helpers.ts:133-152 | The price falls short of that partial sum by less than one and a denominator's share of what cutting the terms can lose, given as a function of their number and of numerator / denominator. |
| BlobError.LostAtMost | packages/block/src/helpers.ts:133-152 | What cutting n terms can lose is at most n times the first n terms of e ** (numerator / denominator). |

## Left out

Trie

- Pruning, key prefixes, root persistence, `getValueMap`, proofs, checkpoints of the database (CheckpointDB is not part of this model) and the key hash of a secure trie: options around the core algorithm.
- Mpt.MerklePatriciaTrie.SetRoot: a root whose nodes are not stored, and so a missing node met on the way; the class assumes the tree behind its root is there.
- MptRoot.RootOfRun: deletes among keys of mixed lengths, which need not leave a canonical trie (the first finding), and so not the root of Appendix D.
- `findPath` from a partial path: no operation modelled here uses it.
- The walk controller, which schedules the node visits of `findPath`: with one child to visit at a time it is a loop.

Chain

- The heads persisted after `delBlock`, hardfork transitions, proof-of-stake and Clique branches, uncle rules, the events and their list of deleted blocks.
- What the consensus engine's `newBlock` gets: with Ethash it does nothing.
- The contents of bodies: a block either has its body stored or a header that says it is empty.
- The checks of a block other than that its parent is stored with the number before, which are one parameter.
- Chain.Blockchain.Run: what requests do once the genesis block has been deleted.
- Chain.Blockchain.Iterate: a callback that deletes blocks while the lock is held and then succeeds (deleting takes no lock; with an error after it, as the VM does, it is covered), and no limit at all, which for a run that ends is the same as a large one.
- Block numbers of 2^64 and more, which do not fit a table key.

Frames

- The interpreter's opcodes, gas, logs, return data, the contents of code and how it is loaded (a frame's operations are given with the message), precompiles and the EOF container.
- SELFDESTRUCT, the sets of destructed and created addresses, `skipBalance` and events.
- The refresh of the interpreter's copy of its contract account after a message, with its error when the account is gone: the model reads the account from the state.
- The reports of access lists and preimages, `cleanup` at the end of a transaction, and the binary tree's access witness, whose flags survive a revert.
- Clearing a journal or reverting without a matching checkpoint, and transient storage cleared with an index above zero: the EVM does neither. The first index of transient storage is never popped by it.
- `MerkleStateManager`, `RPCStateManager` and the caches: SimpleStateManager stands for them.
- Bytes written in place after they were stored: values are taken as they were when put.

Routing

- KBuckets.KBucket.Add: ids of a length other than the local id's, as for Routing.RoutingTable.Add and KBuckets.KBucket.FindClosest: two that differ in trailing zero bytes only agree on every bit, and adding them can split for ever.
- Buckets.Update: `_update` compares the arbiter's choice with the incumbent by identity, the model by value. A new object equal in value, with an arbiter that keeps the incumbent, returns without an event in the source; here it moves to the end with `Updated`.
- The floating-point rounding of the default distance, which ties ids that differ only in low bits; ties do not occur with the exact number.
- A caller's own distance function, and an arbiter that answers with another id.
- `toArray`, `toIterable` and the summaries of buckets: they walk the tree as `count` does.
- The engine's sort, which is modelled by insertion.
- Strings as keys of the index: the hexadecimal form of an id and an address with a port never coincide, and are two kinds of key.

Codecs and price

- RLP on strings, numbers and the absent input; lengths of 2^64 and more; the rounding of lengths above 2^53, which no array has; `decode` in stream mode on the empty input.
- The account header in the binary tree (its code size has three bytes), storage slots, the hash that makes a stem (any function of address and tree index without collisions), code caches, and a code whose hash is that of the empty code without its being empty.
- `opcodesCached` of the jump analysis: a table lookup.
- `computeBlobGasPrice`, which passes chain parameters to the function modelled; a denominator of zero, for which the division throws.
