/**
  Blocks and the ledger. A block binds its index, creation time, the
  previous block's hash and the Merkle root of its documents' hashes under
  one digest. The ledger is a chain of blocks starting at a genesis block,
  plus a queue of documents waiting to be committed; each operation is a
  function from the old state to the new one. The clock is the parameter
  `now`.
 */
module Blockchain {
  import opened Optional
  import opened Strings
  import opened Hashing
  import opened Models
  import Merkle

  datatype Block = Block(
    index: nat,
    timestamp: int,
    previousHash: string,
    merkleRoot: string,
    documents: seq<Document>,
    hash: string)

  /** The sentinel standing in for the predecessor of the genesis block. */
  const GenesisPreviousHash: string := "0"

  /** The documents' content hashes, in document order. */
  function DocumentHashes(documents: seq<Document>): (hashes: seq<string>)
    ensures |hashes| == |documents|
    ensures forall j :: 0 <= j < |documents| ==> hashes[j] == documents[j].hash
  {
    if |documents| == 0 then [] else [documents[0].hash] + DocumentHashes(documents[1..])
  }

  /** `Block::calculate_hash`: the digest of the decimal index, the decimal
      timestamp, the previous hash and the Merkle root written one after the
      other with no separator. */
  function CalculateHash(h: Hasher, index: nat, timestamp: int, previousHash: string, merkleRoot: string): string
  {
    h(NatToString(index) + IntToString(timestamp) + previousHash + merkleRoot)
  }

  /** A block whose Merkle root is the root over its documents and whose
      hash is the digest of its four binding fields. */
  predicate Sealed(h: Hasher, b: Block)
  {
    && b.merkleRoot == Merkle.Build(h, DocumentHashes(b.documents)).root
    && b.hash == CalculateHash(h, b.index, b.timestamp, b.previousHash, b.merkleRoot)
  }

  /** `Block::new`, with the clock reading passed in as `now`. */
  function NewBlock(h: Hasher, index: nat, previousHash: string, documents: seq<Document>, now: int): (b: Block)
    ensures b.index == index && b.timestamp == now
    ensures b.previousHash == previousHash && b.documents == documents
    ensures Sealed(h, b)
    ensures documents == [] ==> b.merkleRoot == ""
    ensures |documents| == 1 ==> b.merkleRoot == documents[0].hash
  {
    var merkleRoot := Merkle.Build(h, DocumentHashes(documents)).root;
    Block(index, now, previousHash, merkleRoot, documents, CalculateHash(h, index, now, previousHash, merkleRoot))
  }

  /** With a collision-free digest, changing exactly one of the four
      binding fields changes the block hash. */
  lemma OneFieldChangesHash(h: Hasher, i: nat, t: int, p: string, r: string, i': nat, t': int, p': string, r': string)
    requires Injective(h)
    requires || (i != i' && t == t' && p == p' && r == r')
             || (i == i' && t != t' && p == p' && r == r')
             || (i == i' && t == t' && p != p' && r == r')
             || (i == i' && t == t' && p == p' && r != r')
    ensures CalculateHash(h, i, t, p, r) != CalculateHash(h, i', t', p', r')
  {
    NatToStringInjective(i, i');
    IntToStringInjective(t, t');
    FourPartsDiffer(NatToString(i), IntToString(t), p, r, NatToString(i'), IntToString(t'), p', r');
  }

  /** Changing exactly one of four concatenated pieces changes the whole. */
  lemma FourPartsDiffer(a: string, b: string, c: string, d: string, a': string, b': string, c': string, d': string)
    requires || (a != a' && b == b' && c == c' && d == d')
             || (a == a' && b != b' && c == c' && d == d')
             || (a == a' && b == b' && c != c' && d == d')
             || (a == a' && b == b' && c == c' && d != d')
    ensures a + b + c + d != a' + b' + c' + d'
  {
    if a != a' {
      SpliceDiffers([], a, a', b + c + d);
      assert a + b + c + d == [] + a + (b + c + d);
      assert a' + b + c + d == [] + a' + (b + c + d);
    } else if b != b' {
      SpliceDiffers(a, b, b', c + d);
      assert a + b + c + d == a + b + (c + d);
      assert a + b' + c + d == a + b' + (c + d);
    } else if c != c' {
      SpliceDiffers(a + b, c, c', d);
    } else {
      SpliceDiffers(a + b + c, d, d', []);
      assert a + b + c + d == a + b + c + d + [];
      assert a + b + c + d' == a + b + c + d' + [];
    }
  }

  /** The fields are joined without a separator, so an index and a
      timestamp can trade digits: index 1 at time 23 and index 12 at time 3
      hash alike whatever the digest. */
  lemma IndexTimestampAmbiguity(h: Hasher, p: string, r: string)
    ensures CalculateHash(h, 1, 23, p, r) == CalculateHash(h, 12, 3, p, r)
  {
    assert NatToString(1) + IntToString(23) == "123";
    assert NatToString(12) + IntToString(3) == "123";
  }

  // ---------------------------------------------------------------------------
  // The ledger
  // ---------------------------------------------------------------------------

  datatype Ledger = Ledger(chain: seq<Block>, pending: seq<Document>)

  /** What `is_valid` checks for one adjacent pair: the current block's hash
      recomputed against the previous block's stored hash, and the link. */
  predicate LinkOk(h: Hasher, previous: Block, current: Block)
  {
    && CalculateHash(h, current.index, current.timestamp, previous.hash, current.merkleRoot) == current.hash
    && current.previousHash == previous.hash
  }

  /** Every block sits at the position its index names. */
  ghost predicate Indexed(chain: seq<Block>)
  {
    forall i :: 0 <= i < |chain| ==> chain[i].index == i
  }

  ghost predicate AllSealed(h: Hasher, chain: seq<Block>)
  {
    forall i :: 0 <= i < |chain| ==> Sealed(h, chain[i])
  }

  /** Every block after the first names its predecessor's hash. */
  ghost predicate Linked(chain: seq<Block>)
  {
    forall i :: 1 <= i < |chain| ==> chain[i].previousHash == chain[i - 1].hash
  }

  /** The ledger invariant: a genesis block with the sentinel previous hash
      and no documents, every block at its own index and sealed, and every
      block linked to its predecessor's hash. */
  ghost predicate ChainInvariant(h: Hasher, l: Ledger)
  {
    && |l.chain| > 0
    && l.chain[0].previousHash == GenesisPreviousHash
    && l.chain[0].documents == []
    && Indexed(l.chain)
    && AllSealed(h, l.chain)
    && Linked(l.chain)
  }

  /** `Blockchain::new`: a chain holding only the genesis block, and an
      empty queue. */
  function NewLedger(h: Hasher, now: int): (l: Ledger)
    ensures |l.chain| == 1 && l.pending == []
    ensures l.chain[0].index == 0 && l.chain[0].timestamp == now
    ensures l.chain[0].previousHash == "0" && l.chain[0].documents == [] && l.chain[0].merkleRoot == ""
    ensures ChainInvariant(h, l)
  {
    Ledger([NewBlock(h, 0, GenesisPreviousHash, [], now)], [])
  }

  /** `Blockchain::add_document`: the document joins the end of the queue;
      the chain is untouched. */
  function AddDocument(l: Ledger, d: Document): (l': Ledger)
    ensures l'.chain == l.chain
    ensures |l'.pending| == |l.pending| + 1
    ensures l'.pending[..|l.pending|] == l.pending && l'.pending[|l.pending|] == d
  {
    Ledger(l.chain, l.pending + [d])
  }

  /** `Blockchain::mine_block`: nothing happens when the queue is empty;
      otherwise the whole queue becomes one new block after the last one,
      and that block is returned. Reading the last block fails on an empty
      chain, which the precondition excludes. */
  function MineBlock(h: Hasher, l: Ledger, now: int): (r: (Ledger, Option<Block>))
    requires l.pending == [] || |l.chain| > 0
    ensures l.pending == [] ==> r.0 == l && r.1 == None
    ensures l.pending != [] ==> r.1.Some?
    ensures l.pending != [] && r.1.Some? ==>
              var last, mined := l.chain[|l.chain| - 1], r.1.value;
              && r.0.pending == []
              && r.0.chain == l.chain + [mined]
              && mined.index == last.index + 1
              && mined.previousHash == last.hash
              && mined.documents == l.pending
              && mined.timestamp == now
              && Sealed(h, mined)
  {
    if l.pending == [] then (l, None)
    else
      var last := l.chain[|l.chain| - 1];
      var mined := NewBlock(h, last.index + 1, last.hash, l.pending, now);
      (Ledger(l.chain + [mined], []), Some(mined))
  }

  /** The `for i in 1..len` loop of `is_valid`, from position `i` on. */
  function ValidFrom(h: Hasher, chain: seq<Block>, i: nat): (ok: bool)
    requires i >= 1
    ensures ok <==> forall j :: i <= j < |chain| ==> LinkOk(h, chain[j - 1], chain[j])
    decreases |chain| - i
  {
    if i >= |chain| then true
    else LinkOk(h, chain[i - 1], chain[i]) && ValidFrom(h, chain, i + 1)
  }

  /** `Blockchain::is_valid`: every block after the first passes LinkOk
      against its predecessor. */
  function IsValid(h: Hasher, l: Ledger): (ok: bool)
    ensures |l.chain| <= 1 ==> ok
    ensures !ok <==> exists j :: 1 <= j < |l.chain| && !LinkOk(h, l.chain[j - 1], l.chain[j])
  {
    ValidFrom(h, l.chain, 1)
  }

  /** Whether some document of `b` has content hash `x`. */
  predicate Holds(b: Block, x: string)
  {
    x in DocumentHashes(b.documents)
  }

  /** The proof `verify_document` returns for `x` in block `b`: a tree is
      rebuilt over the block's document hashes and asked for a proof, with
      an empty list standing in for an absent one. */
  function InclusionProof(h: Hasher, b: Block, x: string): seq<string>
  {
    Merkle.GetProof(h, Merkle.Build(h, DocumentHashes(b.documents)), x).GetOr([])
  }

  ghost predicate FirstHolder(chain: seq<Block>, x: string, k: nat)
  {
    k < |chain| && Holds(chain[k], x) && forall m :: 0 <= m < k ==> !Holds(chain[m], x)
  }

  lemma FirstHolderUnique(chain: seq<Block>, x: string, k: nat, k': nat)
    requires FirstHolder(chain, x, k) && FirstHolder(chain, x, k')
    ensures k == k'
  {
  }

  /** The scan of `verify_document` over the committed blocks, oldest first:
      the position of the first block holding `x`. */
  function FindHolder(chain: seq<Block>, x: string): (r: Option<nat>)
    ensures r.None? <==> forall k :: 0 <= k < |chain| ==> !Holds(chain[k], x)
    ensures r.Some? ==> FirstHolder(chain, x, r.value)
    decreases |chain|
  {
    if |chain| == 0 then None
    else if Holds(chain[0], x) then Some(0)
    else
      match FindHolder(chain[1..], x)
      case None => None
      case Some(k) =>
        assert forall m :: 1 <= m <= k + 1 ==> chain[m] == chain[1..][m - 1];
        Some(k + 1)
  }

  /** `Blockchain::verify_document`: the stored index of the first block
      holding `x`, with the inclusion proof from that block. Only the chain
      is searched, never the queue. */
  function VerifyDocument(h: Hasher, l: Ledger, x: string): (r: Option<(nat, seq<string>)>)
    ensures r.None? <==> forall k :: 0 <= k < |l.chain| ==> !Holds(l.chain[k], x)
    ensures forall k: nat :: FirstHolder(l.chain, x, k) ==>
              r == Some((l.chain[k].index, InclusionProof(h, l.chain[k], x)))
  {
    match FindHolder(l.chain, x)
    case None => None
    case Some(k) =>
      assert forall k': nat :: FirstHolder(l.chain, x, k') ==> k' == k by {
        forall k': nat | FirstHolder(l.chain, x, k')
          ensures k' == k
        {
          FirstHolderUnique(l.chain, x, k, k');
        }
      }
      Some((l.chain[k].index, InclusionProof(h, l.chain[k], x)))
  }

  // ---------------------------------------------------------------------------
  // Properties
  // ---------------------------------------------------------------------------

  /** A block that holds `x` always yields a real proof: the empty default
      is never used, and the proof is the tree's own. */
  lemma InclusionProofExists(h: Hasher, b: Block, x: string)
    requires Holds(b, x)
    ensures Merkle.GetProof(h, Merkle.Build(h, DocumentHashes(b.documents)), x) == Some(InclusionProof(h, b, x))
    ensures |InclusionProof(h, b, x)| <= Merkle.LevelCount(|b.documents|) - 1
  {
  }

  /** Queuing a document keeps the invariant. */
  lemma AddDocumentPreservesInvariant(h: Hasher, l: Ledger, d: Document)
    requires ChainInvariant(h, l)
    ensures ChainInvariant(h, AddDocument(l, d))
  {
  }

  /** Appending a sealed block at the next index, linked to the last block,
      keeps the invariant. */
  lemma AppendKeepsInvariant(h: Hasher, l: Ledger, b: Block, pending: seq<Document>)
    requires ChainInvariant(h, l)
    requires b.index == |l.chain| && Sealed(h, b) && b.previousHash == l.chain[|l.chain| - 1].hash
    ensures ChainInvariant(h, Ledger(l.chain + [b], pending))
  {
    assert (l.chain + [b])[0] == l.chain[0];
    AppendKeepsIndexed(l.chain, b);
    AppendKeepsSealed(h, l.chain, b);
    AppendKeepsLinked(l.chain, b);
  }

  lemma AppendKeepsIndexed(chain: seq<Block>, b: Block)
    requires Indexed(chain) && b.index == |chain|
    ensures Indexed(chain + [b])
  {
    var c := chain + [b];
    forall i | 0 <= i < |c|
      ensures c[i].index == i
    {
      if i < |chain| {
        assert c[i] == chain[i];
      }
    }
  }

  lemma AppendKeepsLinked(chain: seq<Block>, b: Block)
    requires Linked(chain) && |chain| > 0 && b.previousHash == chain[|chain| - 1].hash
    ensures Linked(chain + [b])
  {
    var c := chain + [b];
    forall i | 1 <= i < |c|
      ensures c[i].previousHash == c[i - 1].hash
    {
      if i < |chain| {
        assert c[i] == chain[i] && c[i - 1] == chain[i - 1];
      }
    }
  }

  lemma AppendKeepsSealed(h: Hasher, chain: seq<Block>, b: Block)
    requires AllSealed(h, chain) && Sealed(h, b)
    ensures AllSealed(h, chain + [b])
  {
    var c := chain + [b];
    forall i | 0 <= i < |c|
      ensures Sealed(h, c[i])
    {
      if i < |chain| {
        assert c[i] == chain[i];
      }
    }
  }

  /** Mining keeps the invariant: the new block lands at the index equal to
      the old chain length and links to the old last block. */
  lemma MinePreservesInvariant(h: Hasher, l: Ledger, now: int)
    requires ChainInvariant(h, l)
    ensures ChainInvariant(h, MineBlock(h, l, now).0)
  {
    var r := MineBlock(h, l, now);
    if l.pending == [] {
      assert r.0 == l;
    } else {
      var b := r.1.value;
      assert r.0 == Ledger(l.chain + [b], []);
      assert b.index == |l.chain| by {
        assert l.chain[|l.chain| - 1].index == |l.chain| - 1;
      }
      AppendKeepsInvariant(h, l, b, []);
    }
  }

  /** The invariant makes every link check pass. */
  lemma InvariantImpliesValid(h: Hasher, l: Ledger)
    requires ChainInvariant(h, l)
    ensures IsValid(h, l)
  {
    forall j | 1 <= j < |l.chain|
      ensures LinkOk(h, l.chain[j - 1], l.chain[j])
    {
      assert Sealed(h, l.chain[j]);
    }
  }

  /** The operations the ledger's owner can apply, with the clock reading
      taken at mining time. */
  datatype Op = Enqueue(doc: Document) | Mine(now: int)

  function Step(h: Hasher, l: Ledger, op: Op): (l': Ledger)
    requires |l.chain| > 0
    ensures |l'.chain| > 0
  {
    match op
    case Enqueue(d) => AddDocument(l, d)
    case Mine(now) => MineBlock(h, l, now).0
  }

  function Run(h: Hasher, l: Ledger, ops: seq<Op>): (l': Ledger)
    requires |l.chain| > 0
    ensures |l'.chain| > 0
    decreases |ops|
  {
    if |ops| == 0 then l else Run(h, Step(h, l, ops[0]), ops[1..])
  }

  lemma {:induction false} RunPreservesInvariant(h: Hasher, l: Ledger, ops: seq<Op>)
    requires ChainInvariant(h, l)
    ensures ChainInvariant(h, Run(h, l, ops))
    decreases |ops|
  {
    if |ops| > 0 {
      match ops[0] {
        case Enqueue(d) => AddDocumentPreservesInvariant(h, l, d);
        case Mine(now) => MinePreservesInvariant(h, l, now);
      }
      RunPreservesInvariant(h, Step(h, l, ops[0]), ops[1..]);
    }
  }

  /** Every state reached from a fresh ledger by queuing and mining keeps
      the invariant and passes the validity check. */
  lemma ReachableStatesAreValid(h: Hasher, now: int, ops: seq<Op>)
    ensures ChainInvariant(h, Run(h, NewLedger(h, now), ops))
    ensures IsValid(h, Run(h, NewLedger(h, now), ops))
  {
    RunPreservesInvariant(h, NewLedger(h, now), ops);
    InvariantImpliesValid(h, Run(h, NewLedger(h, now), ops));
  }

  /** Under the invariant the index `verify_document` returns is a position
      in the chain, and the block there holds the document; the caller
      indexes the chain with it. */
  lemma FoundIndexIsPosition(h: Hasher, l: Ledger, x: string)
    requires ChainInvariant(h, l)
    requires VerifyDocument(h, l, x).Some?
    ensures var (k, proof) := VerifyDocument(h, l, x).value;
            k < |l.chain| && Holds(l.chain[k], x) && proof == InclusionProof(h, l.chain[k], x)
  {
    var first := FindHolder(l.chain, x).value;
    assert l.chain[first].index == first;
  }

  /** Queued documents are invisible to `verify_document` until mined. */
  lemma EnqueueIsInvisible(h: Hasher, l: Ledger, d: Document, x: string)
    ensures VerifyDocument(h, AddDocument(l, d), x) == VerifyDocument(h, l, x)
  {
  }

  /** After mining, a document that was queued is found; when no older block
      holds the same hash, it is found in the new block. */
  lemma MinedDocumentIsFound(h: Hasher, l: Ledger, now: int, x: string)
    requires ChainInvariant(h, l)
    requires x in DocumentHashes(l.pending)
    ensures var l' := MineBlock(h, l, now).0;
            && VerifyDocument(h, l', x).Some?
            && ((forall k :: 0 <= k < |l.chain| ==> !Holds(l.chain[k], x)) ==>
                  VerifyDocument(h, l', x) == Some((|l.chain|, InclusionProof(h, l'.chain[|l.chain|], x))))
  {
    var l' := MineBlock(h, l, now).0;
    var n := |l.chain|;
    assert l'.chain[n].documents == l.pending && l'.chain[n].index == n;
    assert Holds(l'.chain[n], x);
    if forall k :: 0 <= k < n ==> !Holds(l.chain[k], x) {
      assert FirstHolder(l'.chain, x, n);
    }
  }

  /** Which block fields decide validity: the check never reads any block's
      documents, and of the genesis block it reads only the hash. */
  lemma IsValidIgnoresUncheckedFields(h: Hasher, l: Ledger, i: nat, b: Block)
    requires i < |l.chain| && b.hash == l.chain[i].hash
    requires i > 0 ==> && b.index == l.chain[i].index && b.timestamp == l.chain[i].timestamp
                       && b.previousHash == l.chain[i].previousHash && b.merkleRoot == l.chain[i].merkleRoot
    ensures IsValid(h, l.(chain := l.chain[i := b])) == IsValid(h, l)
  {
    var c := l.chain[i := b];
    assert forall j :: 1 <= j < |c| ==> (LinkOk(h, c[j - 1], c[j]) <==> LinkOk(h, l.chain[j - 1], l.chain[j]));
  }

  /** Exactly one of the five fields `is_valid` reads differs between `a`
      and `b` (documents may differ too). */
  predicate OneCheckedFieldDiffers(a: Block, b: Block)
  {
    var same := (a.index == b.index, a.timestamp == b.timestamp, a.previousHash == b.previousHash,
                 a.merkleRoot == b.merkleRoot, a.hash == b.hash);
    same in {(false, true, true, true, true), (true, false, true, true, true), (true, true, false, true, true),
             (true, true, true, false, true), (true, true, true, true, false)}
  }

  /** Tamper detection: with a collision-free digest, changing any single
      checked field of a non-genesis block of a ledger that passes the
      validity check makes the check fail. */
  lemma TamperDetected(h: Hasher, l: Ledger, i: nat, b: Block)
    requires Injective(h) && IsValid(h, l)
    requires 1 <= i < |l.chain| && OneCheckedFieldDiffers(l.chain[i], b)
    ensures !IsValid(h, l.(chain := l.chain[i := b]))
  {
    var a, previous := l.chain[i], l.chain[i - 1];
    var c := l.chain[i := b];
    assert c[i - 1] == previous && c[i] == b;
    assert LinkOk(h, previous, a);
    if a.hash == b.hash && a.previousHash == b.previousHash {
      OneFieldChangesHash(h, a.index, a.timestamp, previous.hash, a.merkleRoot,
                          b.index, b.timestamp, previous.hash, b.merkleRoot);
    }
    assert !LinkOk(h, c[i - 1], c[i]);
  }

  /** Changing two fields together can go unnoticed: block 1 minted at time
      23 can be relabelled as index 12 at time 3 and the chain still passes. */
  lemma JointTamperUndetected(h: Hasher, l: Ledger)
    requires ChainInvariant(h, l) && |l.chain| > 1 && l.chain[1].timestamp == 23
    ensures IsValid(h, l.(chain := l.chain[1 := l.chain[1].(index := 12, timestamp := 3)]))
  {
    var a := l.chain[1];
    var c := l.chain[1 := a.(index := 12, timestamp := 3)];
    assert a.index == 1 && Sealed(h, a) && a.previousHash == l.chain[0].hash;
    IndexTimestampAmbiguity(h, l.chain[0].hash, a.merkleRoot);
    assert LinkOk(h, c[0], c[1]);
    InvariantImpliesValid(h, l);
    forall j | 2 <= j < |c|
      ensures LinkOk(h, c[j - 1], c[j])
    {
      assert LinkOk(h, l.chain[j - 1], l.chain[j]);
      assert c[j] == l.chain[j] && c[j - 1].hash == l.chain[j - 1].hash;
    }
  }
}
