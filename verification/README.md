# Document-notarisation ledger: Merkle tree and hash chain

This project models the core of a small document-notarisation service. The
service is a Rust program. It keeps an append-only chain of blocks, and each
block commits to the content hashes of a batch of documents through a Merkle
root. The model covers two parts.

- **The Merkle tree** (`merkle_tree.dfy`, module `Merkle`). This part builds
  a tree over an ordered list of hex digests, produces an inclusion proof for
  a leaf, and checks a proof against a root.
- **Blocks and the ledger** (`blockchain.dfy`, module `Blockchain`). This part
  covers block construction and block hashing, and the ledger with its
  queue of pending documents. Its operations are create, enqueue a
  document, mine the queue into a block, look up a document, and check
  the chain's validity.

The supporting modules are:

- `Optional`: Rust's `Option`.
- `Hashing`: the digest as a parameter.
- `Strings`: Rust's lexicographic `<` on strings, and the decimal rendering of
  integers with a parser partner.
- `Models`: the document record.

Every operation is a pure function. Mutating methods become functions from
the old ledger to the new one. An `Op`/`Step`/`Run` layer replays any
sequence of enqueue and mine operations from a fresh ledger.

SHA-256 followed by lowercase hex rendering is the parameter
`h: Hasher` (`string -> string`). No property depends on what `h`
computes, with two exceptions: the tamper-detection and counterexample
lemmas require `Injective(h)`, which is collision freedom.

The three Merkle operations disagree with each other. The model keeps
them exactly as written:

- Building hashes an unpaired last node with itself. Proof generation
  carries that node up unchanged and records no sibling for it.
- Building concatenates each pair in position order. Proof checking
  concatenates the two strings in lexicographic order.

As a result, a produced proof does not in general check out. For this
reason the model states no unconditional round trip. It proves three things
instead:

- a concrete failing case (`PositionalOrderBreaksRoundTrip`);
- the three-leaf shapes that show the missing `h(c + c)` entry;
- the round trip under the conditions where it does hold: a power-of-two
  leaf count, and every pair on the path already in lexicographic order.

Proof checking has no special case for a level where proof generation
recorded no sibling: it folds exactly the entries it is given
(`ThreeLeafProofs`). The validity check recomputes each block's hash from
the predecessor's stored `hash`, not from the block's own `previous_hash`;
the two agree on every chain whose links hold.

## Model

| member | source | states |
|---|---|---|
| Merkle.ParentLevel | src/merkle_tree.rs:24-45 | one pass of the building loop yields ceil(n/2) parents; parent k is the digest of node 2k followed by node 2k+1, or by node 2k again when it is the unpaired last node |
| Merkle.LevelsChain | src/merkle_tree.rs:24-45 | every level the outer loop visits, except the last, has more than one node and is followed by its parent level; the last level has exactly one node |
| Merkle.Levels | src/merkle_tree.rs:24-45 | the levels building visits start at the leaves and end at a single node, the root |
| Merkle.Build | src/merkle_tree.rs:11-54 | the leaves are kept as given; no leaves gives root "" and no nodes; a single leaf is its own root; the node list starts with the leaves |
| Merkle.BuildStep | src/merkle_tree.rs:24-47 | a level of two or more nodes has the same root as its parent level, and its node list is the level followed by the parent level's node list |
| Merkle.NodesCount | src/merkle_tree.rs:21-41 | the node list holds the leaves plus exactly one digest per parent computed |
| Merkle.LevelsCount | src/merkle_tree.rs:24-45 | building visits LevelCount(n) levels, roots included, which is one more than the number of halvings (rounding up) that reach one node |
| Merkle.ProofParentLevel | src/merkle_tree.rs:73-87 | one level step of proof generation yields ceil(n/2) nodes; full chunks are hashed in position order; a trailing single node is carried up unchanged |
| Merkle.ProofLevels | src/merkle_tree.rs:62-87 | the levels proof generation visits start at the leaves and end at a single node; PowerOfTwoLevelsAgree relates them to Merkle.Levels |
| Merkle.IndexOf | src/merkle_tree.rs:58 | None exactly when the leaf is absent; otherwise the first position holding it |
| Merkle.Sibling | src/merkle_tree.rs:63-71 | an even index records its right neighbour and an odd index its left one; nothing is recorded only for the unpaired last node of an odd-sized level |
| Merkle.ProofPath | src/merkle_tree.rs:62-88 | a proof has at most LevelCount(n) - 1 entries, which by LevelsCount is one per level below the root |
| Merkle.GetProof | src/merkle_tree.rs:56-91 | None exactly when the leaf is absent; otherwise the proof climbs from the first occurrence of the leaf, so duplicates share one proof; the length is bounded by the level count |
| Merkle.Combine | src/merkle_tree.rs:97-105 | one checking step hashes the two strings with the lexicographically smaller first; its properties are CombineCommutative, SortedCombine and OrderedPairStep |
| Merkle.Fold | src/merkle_tree.rs:94-106 | the proof is folded into the leaf left to right; FoldAppend states how it composes over a split proof |
| Merkle.VerifyProof | src/merkle_tree.rs:93-109 | accepts exactly when the folded digest equals the root; its properties are VerifyEmptyProof, CombineCommutative, FoldAppend, PositionalOrderBreaksRoundTrip and OrderedProofVerifies |
| Merkle.EmptyTree | src/merkle_tree.rs:12-58 | an empty list builds the empty tree, from which no proof can be produced |
| Merkle.SingleLeaf | src/merkle_tree.rs:20-62 | a one-leaf tree has that leaf as root and an empty proof |
| Merkle.EvenParentLevelsAgree | src/merkle_tree.rs:75-84 | on an even-sized level, building and proof generation compute the same parents |
| Merkle.OddParentLevelsDiffer | src/merkle_tree.rs:75-84 | on an odd-sized level all parents agree except the last one: building stores h(last + last), while proof generation carries the last node itself |
| Merkle.PowerOfTwoLevelsAgree | src/merkle_tree.rs:62-87 | with a power-of-two leaf count, proof generation walks through exactly the levels that building computes |
| Merkle.PowerOfTwoProofLength | src/merkle_tree.rs:62-71 | with a power-of-two leaf count, every level contributes exactly one sibling |
| Merkle.CombineCommutative | src/merkle_tree.rs:97-101 | a checking step does not depend on which string is the running value and which is the sibling |
| Merkle.VerifyEmptyProof | src/merkle_tree.rs:93-108 | an empty proof is accepted exactly when the leaf equals the root |
| Merkle.FoldAppend | src/merkle_tree.rs:96-106 | checking a concatenated proof is checking the first part and continuing from its result |
| Merkle.PositionalOrderBreaksRoundTrip | src/merkle_tree.rs:93-108 | for the leaves "1","0", the proof for "1" is ["0"], yet with a collision-free digest that proof is rejected against the built root |
| Merkle.ThreeLeafRoot | src/merkle_tree.rs:27-38 | three leaves a, b, c build the root h(h(a+b) + h(c+c)) |
| Merkle.ThreeLeafProofs | src/merkle_tree.rs:62-88 | for three distinct leaves, the proof for b is [a, c] and the proof for c is [h(a+b)]; neither carries the h(c+c) that building used |
| Merkle.SortedCombine | src/merkle_tree.rs:97-101 | a pair already in lexicographic order is combined the way building combines it, whichever side holds the running value |
| Merkle.OrderedPairStep | src/merkle_tree.rs:97-101 | on an even-sized level, checking the node at i against its partner yields the parent that building computes for that pair, provided the pair is sorted |
| Merkle.OrderedProofReachesRoot | src/merkle_tree.rs:93-108 | with a power-of-two leaf count and every pair on the path sorted, folding the produced proof into the leaf yields the built root |
| Merkle.OrderedProofVerifies | src/merkle_tree.rs:56-109 | under the same conditions, the proof get_proof returns for a present leaf is accepted by verify_proof against the built root |
| Strings.LexLess | src/merkle_tree.rs:97 | Rust's `<` on strings; LexLessIrreflexive, LexLessAsymmetric, LexLessTotal, LexLessTransitive and PrefixIsLexLess show it is a strict total order with prefixes first |
| Strings.LexLessIrreflexive | src/merkle_tree.rs:97 | no string sorts before itself |
| Strings.LexLessAsymmetric | src/merkle_tree.rs:97 | two strings never each sort before the other |
| Strings.LexLessTotal | src/merkle_tree.rs:97 | of two distinct strings, one sorts before the other |
| Strings.LexLessTransitive | src/merkle_tree.rs:97 | the string order is transitive |
| Strings.PrefixIsLexLess | src/merkle_tree.rs:97 | a proper prefix sorts first |
| Strings.LexLeqOrder | src/merkle_tree.rs:97-101 | a comes no later than b exactly when b does not sort before a, so the checking branch puts the smaller string first |
| Strings.NatToString | src/blockchain.rs:40 | the rendering of an unsigned integer is non-empty, all digits, and starts with '0' only for zero |
| Strings.IntToString | src/blockchain.rs:40 | the rendering of a signed integer is non-empty and starts with '-' exactly when the value is negative |
| Strings.NatToStringRoundTrip | src/blockchain.rs:40 | reading back the decimal rendering of an unsigned integer gives the integer |
| Strings.IntToStringRoundTrip | src/blockchain.rs:40 | reading back the rendering of a signed integer, sign included, gives the integer |
| Strings.NatToStringInjective | src/blockchain.rs:40 | distinct indices render differently |
| Strings.IntToStringInjective | src/blockchain.rs:40 | distinct timestamps render differently |
| Strings.SpliceDiffers | src/blockchain.rs:40 | replacing one piece of a concatenation by a different piece changes the whole string |
| Blockchain.DocumentHashes | src/blockchain.rs:20 | one hash per document, in document order, each the document's content hash |
| Blockchain.NewBlock | src/blockchain.rs:19-35 | the block carries the given index, clock reading, previous hash and documents; its Merkle root is the root over the document hashes, "" for no documents and the hash itself for one; its hash binds index, timestamp, previous hash and root |
| Blockchain.CalculateHash | src/blockchain.rs:37-44 | the digest of the four fields joined without separator; OneFieldChangesHash and IndexTimestampAmbiguity state what it does and does not distinguish |
| Blockchain.FourPartsDiffer | src/blockchain.rs:40 | changing exactly one of four concatenated pieces changes the concatenation |
| Blockchain.OneFieldChangesHash | src/blockchain.rs:37-44 | with a collision-free digest, changing exactly one of index, timestamp, previous hash or Merkle root changes the block hash |
| Blockchain.IndexTimestampAmbiguity | src/blockchain.rs:40 | because the fields are joined without a separator, index 1 at time 23 and index 12 at time 3 hash identically whatever the digest |
| Blockchain.NewLedger | src/blockchain.rs:54-61 | a new ledger holds one genesis block (index 0, previous hash "0", no documents, root "") and an empty queue, and satisfies the chain invariant |
| Blockchain.AddDocument | src/blockchain.rs:63-65 | the chain is untouched, and the queue grows by the document at its end, earlier entries kept |
| Blockchain.MineBlock | src/blockchain.rs:67-83 | an empty queue changes nothing and returns None; otherwise the whole queue becomes one sealed block, which is appended after the last block with the next index and that block's hash; the queue is emptied and the new block returned |
| Blockchain.LinkOk | src/blockchain.rs:102-120 | one iteration of the validity loop: the recomputed hash with the predecessor's hash matches, and the link holds; TamperDetected and JointTamperUndetected state what it catches |
| Blockchain.ValidFrom | src/blockchain.rs:101-121 | the scan from position i succeeds exactly when every later adjacent pair passes the hash recomputation and the link check |
| Blockchain.IsValid | src/blockchain.rs:100-123 | a chain of at most one block is valid; otherwise the chain is invalid exactly when some adjacent pair fails the hash recomputation or the link check |
| Blockchain.FindHolder | src/blockchain.rs:86-95 | None exactly when no committed block holds the hash; otherwise the position of the oldest block that does |
| Blockchain.VerifyDocument | src/blockchain.rs:85-98 | None exactly when no committed block holds the hash; otherwise the stored index of the oldest holder, with the inclusion proof rebuilt from that block |
| Blockchain.InclusionProof | src/blockchain.rs:89-91 | the proof rebuilt from a block's document hashes, empty when absent; InclusionProofExists shows the default is never used for a holding block |
| Blockchain.InclusionProofExists | src/blockchain.rs:89-91 | for a block holding the hash, the empty default is never used, and the proof length is bounded by the block tree's level count |
| Blockchain.AddDocumentPreservesInvariant | src/blockchain.rs:63-65 | queuing a document keeps the chain invariant |
| Blockchain.AppendKeepsInvariant | src/blockchain.rs:81 | appending a sealed block at the next index, linked to the last block, keeps the chain invariant |
| Blockchain.AppendKeepsIndexed | src/blockchain.rs:76 | appending a block whose index is the chain length keeps every block at its own index |
| Blockchain.AppendKeepsLinked | src/blockchain.rs:77 | appending a block that names the last block's hash keeps every link intact |
| Blockchain.AppendKeepsSealed | src/blockchain.rs:75-81 | appending a sealed block keeps every block sealed |
| Blockchain.MinePreservesInvariant | src/blockchain.rs:67-83 | mining keeps the chain invariant |
| Blockchain.InvariantImpliesValid | src/blockchain.rs:100-123 | a chain satisfying the invariant passes the validity check |
| Blockchain.Step | src/blockchain.rs:63-83 | one enqueue or mine operation, which never empties the chain |
| Blockchain.Run | src/blockchain.rs:63-83 | a sequence of operations applied in order, which never empties the chain; RunPreservesInvariant states that it keeps the invariant |
| Blockchain.RunPreservesInvariant | src/blockchain.rs:63-83 | any sequence of enqueue and mine operations keeps the invariant |
| Blockchain.ReachableStatesAreValid | src/blockchain.rs:54-123 | every ledger reached from a new one by enqueuing and mining satisfies the invariant and is valid |
| Blockchain.FoundIndexIsPosition | src/blockchain.rs:85-98 | under the invariant, the index verify_document returns is a position in the chain whose block holds the document, and the proof belongs to that block |
| Blockchain.EnqueueIsInvisible | src/blockchain.rs:85-98 | queued documents do not change what verify_document finds |
| Blockchain.MinedDocumentIsFound | src/blockchain.rs:67-98 | after mining, a queued document is found; when no older block holds the same hash, it is reported at the new block's index |
| Blockchain.IsValidIgnoresUncheckedFields | src/blockchain.rs:100-123 | the validity check never reads documents, and of the genesis block it reads only the hash |
| Blockchain.TamperDetected | src/blockchain.rs:100-123 | with a collision-free digest, changing exactly one checked field of a non-genesis block makes a valid ledger invalid |
| Blockchain.JointTamperUndetected | src/blockchain.rs:40 | relabelling block 1, minted at time 23, as index 12 at time 3 leaves the ledger valid |

## Left out

- The HTTP service in `src/main.rs`: routing, upload handling, JSON responses and logging are I/O around the core.
- `Document::new` (`src/models.rs`): it hashes the uploaded bytes, draws a random UUID and reads the clock. A document is a plain value carrying those results.
- `VerificationResult` (`src/models.rs`): a response record only the HTTP layer builds.
- The `block_index` field of a document is never written by the core. It is kept in the record and not otherwise modelled.
- `SharedBlockchain`: the `Arc<RwLock<…>>` handle adds concurrency only. Operations are modelled as sequential state transitions.
- Serialization derives: they are formatting, not logic.
- SHA-256 and hex rendering: these are the parameter `h`. Tamper-related lemmas assume only that `h` is injective.
- The clock: `Utc::now()` is the parameter `now`.
- Blockchain.MineBlock: does not model the overflow of `usize` when the last index is the maximum value, because indices are unbounded naturals. It requires a non-empty chain when the queue is non-empty, which is where the source's `unwrap` would panic.
- Blockchain.NewBlock: the `i64` timestamp and `usize` index are unbounded integers, so wrap-around is not modelled.
- Merkle.VerifyProof: no unconditional round trip with Merkle.GetProof is stated, because the source's ordering and odd-node rules make it false (Merkle.PositionalOrderBreaksRoundTrip). Only the conditional round trip is proved.
- Merkle.ProofPath: its contract bounds the length only. What the entries are is stated by Merkle.Sibling, Merkle.ThreeLeafProofs and Merkle.OrderedProofReachesRoot.
- Strings.LexLess: compares characters by code point. Rust compares the UTF-8 bytes, which orders Unicode scalar values the same way. Encoding itself is not modelled.
