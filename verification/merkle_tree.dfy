/**
  The Merkle tree: building it level by level over an ordered list of hex
  digests, producing an inclusion proof for a leaf, and checking a proof.

  The three operations do not agree with each other, and the model keeps
  them as they are:
  - building hashes an unpaired trailing node with itself, while proof
    generation carries it up to the next level unchanged;
  - building concatenates each pair in position order, while proof
    checking concatenates the two strings in lexicographic order.
  A proof produced by GetProof therefore does not in general pass
  VerifyProof; the lemmas at the end of this module show a failing case and
  the conditions under which the round trip does hold.
 */
module Merkle {
  import opened Optional
  import opened Strings
  import opened Hashing

  datatype MerkleTree = MerkleTree(root: string, leaves: seq<string>, nodes: seq<string>)

  // ---------------------------------------------------------------------------
  // Building
  // ---------------------------------------------------------------------------

  /** Index of the right child of parent `k` in a level of `n` nodes during
      building: the node itself when it is the unpaired last one. */
  function BuildRight(n: nat, k: nat): nat
  {
    if 2 * k + 1 < n then 2 * k + 1 else 2 * k
  }

  /** One pass of the inner loop of building: pairs are taken from the front,
      and a last node without a partner is paired with itself. */
  function ParentLevel(h: Hasher, level: seq<string>): (parents: seq<string>)
    ensures |parents| == (|level| + 1) / 2
    ensures forall k :: 0 <= k < |parents| ==>
              parents[k] == h(level[2 * k] + level[BuildRight(|level|, k)])
    decreases |level|
  {
    if |level| == 0 then []
    else if |level| == 1 then [h(level[0] + level[0])]
    else
      var rest := ParentLevel(h, level[2..]);
      var parents := [h(level[0] + level[1])] + rest;
      assert forall k :: 1 <= k < |parents| ==> parents[k] == rest[k - 1];
      assert forall k :: 1 <= k < |parents| ==> level[2..][2 * (k - 1)] == level[2 * k];
      assert forall k :: 1 <= k < |parents| ==>
        level[2..][BuildRight(|level| - 2, k - 1)] == level[BuildRight(|level|, k)];
      parents
  }

  /** The successive levels built from `level` up to the root, as the outer
      loop of building visits them. */
  function Levels(h: Hasher, level: seq<string>): (levels: seq<seq<string>>)
    requires |level| > 0
    ensures |levels| > 0 && levels[0] == level
    ensures |levels[|levels| - 1]| == 1
    decreases |level|
  {
    if |level| == 1 then [level]
    else [level] + Levels(h, ParentLevel(h, level))
  }

  /** Every level but the last has more than one node and is followed by its
      parent level, so building stops exactly when one node is left. */
  lemma {:induction false} LevelsChain(h: Hasher, level: seq<string>)
    requires |level| > 0
    ensures forall k :: 0 <= k < |Levels(h, level)| - 1 ==>
              |Levels(h, level)[k]| > 1 && Levels(h, level)[k + 1] == ParentLevel(h, Levels(h, level)[k])
    decreases |level|
  {
    if |level| > 1 {
      var parents := ParentLevel(h, level);
      LevelsChain(h, parents);
      var levels, rest := Levels(h, level), Levels(h, parents);
      forall k | 0 <= k < |levels| - 1
        ensures |levels[k]| > 1 && levels[k + 1] == ParentLevel(h, levels[k])
      {
        if k > 0 {
          assert levels[k] == rest[k - 1] && levels[k + 1] == rest[k];
          assert 0 <= k - 1 < |rest| - 1;
          assert |rest[k - 1]| > 1 && rest[k] == ParentLevel(h, rest[k - 1]);
        } else {
          assert levels[1] == rest[0] == parents;
        }
      }
    }
  }

  function Flatten(levels: seq<seq<string>>): seq<string>
  {
    if |levels| == 0 then [] else levels[0] + Flatten(levels[1..])
  }

  /** How many parent digests building computes over `n` leaves. */
  function InternalCount(n: nat): nat
  {
    if n <= 1 then 0 else (n + 1) / 2 + InternalCount((n + 1) / 2)
  }

  /** How many levels, leaves and root included, a tree over `n > 0` leaves has. */
  function LevelCount(n: nat): nat
  {
    if n <= 1 then 1 else 1 + LevelCount((n + 1) / 2)
  }

  /** `MerkleTree::new`: no leaves gives an empty root; otherwise the root is
      the single node of the last level, and `nodes` lists the leaves and
      then every parent in the order it was computed. */
  function Build(h: Hasher, hashes: seq<string>): (t: MerkleTree)
    ensures t.leaves == hashes
    ensures |hashes| == 0 ==> t.root == "" && t.nodes == []
    ensures |hashes| == 1 ==> t.root == hashes[0] && t.nodes == hashes
    ensures |t.nodes| >= |hashes| && t.nodes[..|hashes|] == hashes
  {
    if |hashes| == 0 then MerkleTree("", [], [])
    else
      var levels := Levels(h, hashes);
      assert Flatten(levels) == hashes + Flatten(levels[1..]);
      MerkleTree(levels[|levels| - 1][0], hashes, Flatten(levels))
  }

  /** A level with more than one node has the same root as its parent level,
      and its node list is itself followed by the parent level's nodes. */
  lemma BuildStep(h: Hasher, level: seq<string>)
    requires |level| > 1
    ensures Build(h, level).root == Build(h, ParentLevel(h, level)).root
    ensures Build(h, level).nodes == level + Build(h, ParentLevel(h, level)).nodes
  {
  }

  /** The node list holds the leaves plus one digest per parent computed. */
  lemma {:induction false} NodesCount(h: Hasher, level: seq<string>)
    ensures |Build(h, level).nodes| == |level| + InternalCount(|level|)
    decreases |level|
  {
    if |level| > 1 {
      BuildStep(h, level);
      NodesCount(h, ParentLevel(h, level));
    }
  }

  /** Building walks through LevelCount levels. */
  lemma {:induction false} LevelsCount(h: Hasher, level: seq<string>)
    requires |level| > 0
    ensures |Levels(h, level)| == LevelCount(|level|)
    decreases |level|
  {
    if |level| > 1 {
      LevelsCount(h, ParentLevel(h, level));
    }
  }

  // ---------------------------------------------------------------------------
  // Proof generation
  // ---------------------------------------------------------------------------

  /** One pass of the level loop of proof generation: chunks of two are
      hashed; a last chunk of one node is carried up unchanged. */
  function ProofParentLevel(h: Hasher, level: seq<string>): (parents: seq<string>)
    ensures |parents| == (|level| + 1) / 2
    ensures forall k :: 0 <= k < |parents| && 2 * k + 1 < |level| ==>
              parents[k] == h(level[2 * k] + level[2 * k + 1])
    ensures forall k :: 0 <= k < |parents| && 2 * k + 1 == |level| ==> parents[k] == level[2 * k]
    decreases |level|
  {
    if |level| <= 1 then level
    else
      var rest := ProofParentLevel(h, level[2..]);
      var parents := [h(level[0] + level[1])] + rest;
      assert forall k :: 1 <= k < |parents| ==> parents[k] == rest[k - 1];
      assert forall k :: 1 <= k < |parents| ==> level[2..][2 * (k - 1)] == level[2 * k];
      assert forall k :: 1 <= k < |parents| && 2 * k + 1 < |level| ==>
        level[2..][2 * (k - 1) + 1] == level[2 * k + 1];
      parents
  }

  /** The successive levels proof generation walks through. */
  function ProofLevels(h: Hasher, level: seq<string>): (levels: seq<seq<string>>)
    requires |level| > 0
    ensures |levels| > 0 && levels[0] == level
    ensures |levels[|levels| - 1]| == 1
    decreases |level|
  {
    if |level| == 1 then [level]
    else [level] + ProofLevels(h, ProofParentLevel(h, level))
  }

  /** Position `i` holds `x` and no earlier position does. */
  ghost predicate FirstOccurrence(s: seq<string>, x: string, i: nat)
  {
    i < |s| && s[i] == x && forall j :: 0 <= j < i ==> s[j] != x
  }

  /** Rust's `position`: the first index holding `x`, or None. */
  function IndexOf(s: seq<string>, x: string): (r: Option<nat>)
    ensures r.None? <==> x !in s
    ensures r.Some? ==> FirstOccurrence(s, x, r.value)
  {
    if |s| == 0 then None
    else if s[0] == x then Some(0)
    else match IndexOf(s[1..], x)
      case None => None
      case Some(i) => Some(i + 1)
  }

  /** The index `i` is paired with while climbing: its right neighbour when
      even, its left neighbour when odd. */
  function Partner(i: nat): nat
  {
    if i % 2 == 0 then i + 1 else i - 1
  }

  /** What one iteration of proof generation appends for the node at `i`. */
  function Sibling(level: seq<string>, i: nat): (entry: seq<string>)
    requires i < |level|
    ensures Partner(i) < |level| ==> entry == [level[Partner(i)]]
    ensures Partner(i) >= |level| ==> entry == [] && i == |level| - 1 && |level| % 2 == 1
  {
    if i % 2 == 0 then
      if i + 1 < |level| then [level[i + 1]] else []
    else
      [level[i - 1]]
  }

  /** The siblings collected from the leaf at `i` up to the root. */
  function ProofPath(h: Hasher, level: seq<string>, i: nat): (proof: seq<string>)
    requires i < |level|
    ensures |proof| <= LevelCount(|level|) - 1
    decreases |level|
  {
    if |level| <= 1 then []
    else Sibling(level, i) + ProofPath(h, ProofParentLevel(h, level), i / 2)
  }

  lemma FirstOccurrenceUnique(s: seq<string>, x: string, i: nat, j: nat)
    requires FirstOccurrence(s, x, i) && FirstOccurrence(s, x, j)
    ensures i == j
  {
  }

  /** `MerkleTree::get_proof`: None exactly when the leaf is absent;
      otherwise the path from the first position holding it. */
  function GetProof(h: Hasher, t: MerkleTree, leaf: string): (r: Option<seq<string>>)
    ensures r.None? <==> leaf !in t.leaves
    ensures forall i :: FirstOccurrence(t.leaves, leaf, i) ==> r == Some(ProofPath(h, t.leaves, i))
    ensures r.Some? ==> |r.value| <= LevelCount(|t.leaves|) - 1
  {
    match IndexOf(t.leaves, leaf)
    case None => None
    case Some(i) =>
      assert FirstOccurrence(t.leaves, leaf, i);
      assert forall j :: FirstOccurrence(t.leaves, leaf, j) ==> j == i by {
        forall j | FirstOccurrence(t.leaves, leaf, j)
          ensures j == i
        {
          FirstOccurrenceUnique(t.leaves, leaf, i, j);
        }
      }
      Some(ProofPath(h, t.leaves, i))
  }

  // ---------------------------------------------------------------------------
  // Proof checking
  // ---------------------------------------------------------------------------

  /** One step of proof checking: the smaller string (lexicographically) goes first. */
  function Combine(h: Hasher, current: string, sibling: string): string
  {
    if LexLess(current, sibling) then h(current + sibling) else h(sibling + current)
  }

  /** The digest obtained by folding the proof into the leaf, left to right. */
  function Fold(h: Hasher, current: string, proof: seq<string>): string
    decreases |proof|
  {
    if |proof| == 0 then current else Fold(h, Combine(h, current, proof[0]), proof[1..])
  }

  /** `MerkleTree::verify_proof`. */
  function VerifyProof(h: Hasher, leaf: string, proof: seq<string>, root: string): bool
  {
    Fold(h, leaf, proof) == root
  }

  // ---------------------------------------------------------------------------
  // Properties
  // ---------------------------------------------------------------------------

  /** An empty tree has no leaves, so no proof can be produced from it. */
  lemma EmptyTree(h: Hasher, leaf: string)
    ensures Build(h, []) == MerkleTree("", [], [])
    ensures GetProof(h, Build(h, []), leaf) == None
  {
  }

  /** A single leaf is its own root, and its proof is empty. */
  lemma SingleLeaf(h: Hasher, leaf: string)
    ensures Build(h, [leaf]).root == leaf
    ensures GetProof(h, Build(h, [leaf]), leaf) == Some([])
  {
    assert FirstOccurrence([leaf], leaf, 0);
  }

  /** For a level of even size, building and proof generation compute the
      same parent level. */
  lemma EvenParentLevelsAgree(h: Hasher, level: seq<string>)
    requires |level| % 2 == 0
    ensures ParentLevel(h, level) == ProofParentLevel(h, level)
  {
    var p, q := ParentLevel(h, level), ProofParentLevel(h, level);
    var m := |level| / 2;
    assert |level| == 2 * m && |p| == m && |q| == m;
    forall k | 0 <= k < m
      ensures p[k] == q[k]
    {
      assert 2 * k + 1 < |level|;
      assert BuildRight(|level|, k) == 2 * k + 1;
    }
  }

  /** For a level of odd size, the last node is hashed with itself when
      building but carried up as it is when producing a proof; all other
      parents agree. */
  lemma OddParentLevelsDiffer(h: Hasher, level: seq<string>, m: nat)
    requires |level| == 2 * m + 1
    ensures forall k :: 0 <= k < m ==> ParentLevel(h, level)[k] == ProofParentLevel(h, level)[k]
    ensures ParentLevel(h, level)[m] == h(level[2 * m] + level[2 * m])
    ensures ProofParentLevel(h, level)[m] == level[2 * m]
  {
    var p, q := ParentLevel(h, level), ProofParentLevel(h, level);
    assert |p| == m + 1 && |q| == m + 1;
    forall k | 0 <= k < m
      ensures p[k] == q[k]
    {
      assert 2 * k + 1 < |level|;
      assert BuildRight(|level|, k) == 2 * k + 1;
    }
    assert BuildRight(|level|, m) == 2 * m;
  }

  predicate IsPowerOfTwo(n: nat)
    decreases n
  {
    n == 1 || (n > 1 && n % 2 == 0 && IsPowerOfTwo(n / 2))
  }

  /** A power of two above one halves to a power of two, with no rounding. */
  lemma HalvePowerOfTwo(n: nat)
    requires IsPowerOfTwo(n) && n > 1
    ensures (n + 1) / 2 == n / 2 && IsPowerOfTwo((n + 1) / 2) && n % 2 == 0
  {
  }

  /** With a power-of-two leaf count no level is odd, so proof generation
      walks through exactly the levels that building computes. */
  lemma {:induction false} PowerOfTwoLevelsAgree(h: Hasher, level: seq<string>)
    requires IsPowerOfTwo(|level|)
    ensures ProofLevels(h, level) == Levels(h, level)
    decreases |level|
  {
    if |level| > 1 {
      HalvePowerOfTwo(|level|);
      EvenParentLevelsAgree(h, level);
      PowerOfTwoLevelsAgree(h, ParentLevel(h, level));
    }
  }

  /** With a power-of-two leaf count every level contributes exactly one
      sibling, so the proof has one entry per level below the root. */
  lemma {:induction false} PowerOfTwoProofLength(h: Hasher, level: seq<string>, i: nat)
    requires IsPowerOfTwo(|level|) && i < |level|
    ensures |ProofPath(h, level, i)| == |Levels(h, level)| - 1
    decreases |level|
  {
    LevelsCount(h, level);
    if |level| > 1 {
      HalvePowerOfTwo(|level|);
      assert Partner(i) < |level|;
      var parents := ProofParentLevel(h, level);
      PowerOfTwoProofLength(h, parents, i / 2);
      LevelsCount(h, parents);
    }
  }

  /** The order in which proof checking combines two digests does not
      depend on which of them is the running value. */
  lemma CombineCommutative(h: Hasher, a: string, b: string)
    ensures Combine(h, a, b) == Combine(h, b, a)
  {
    LexLessAsymmetric(a, b);
    LexLessTotal(a, b);
  }

  /** An empty proof checks out exactly when the leaf is the root. */
  lemma VerifyEmptyProof(h: Hasher, leaf: string, root: string)
    ensures VerifyProof(h, leaf, [], root) <==> leaf == root
  {
  }

  /** Checking a proof in two pieces is checking the first piece and
      continuing from its result. */
  lemma {:induction false} FoldAppend(h: Hasher, current: string, p: seq<string>, q: seq<string>)
    ensures Fold(h, current, p + q) == Fold(h, Fold(h, current, p), q)
    decreases |p|
  {
    if |p| > 0 {
      assert (p + q)[0] == p[0];
      assert (p + q)[1..] == p[1..] + q;
      FoldAppend(h, Combine(h, current, p[0]), p[1..], q);
    } else {
      assert p + q == q;
    }
  }

  /** Two leaves "1" then "0": the proof for "1" is ["0"], building hashes
      "10", checking hashes "01"; with a collision-free digest the proof is
      rejected. */
  lemma PositionalOrderBreaksRoundTrip(h: Hasher)
    requires Injective(h)
    ensures GetProof(h, Build(h, ["1", "0"]), "1") == Some(["0"])
    ensures !VerifyProof(h, "1", ["0"], Build(h, ["1", "0"]).root)
  {
    var leaves := ["1", "0"];
    assert FirstOccurrence(leaves, "1", 0);
    assert Sibling(leaves, 0) == ["0"];
    assert |ProofParentLevel(h, leaves)| == 1;
    assert ProofPath(h, ProofParentLevel(h, leaves), 0) == [];
    assert ProofPath(h, leaves, 0) == ["0"];
    assert Build(h, leaves).leaves == leaves;
    assert Build(h, leaves).root == h("1" + "0") by {
      BuildStep(h, leaves);
      assert BuildRight(2, 0) == 1;
      assert ParentLevel(h, leaves) == [h("1" + "0")];
    }
    assert Fold(h, "1", ["0"]) == h("0" + "1") by {
      assert !LexLess("1", "0");
      assert ["0"][1..] == [];
    }
    assert "0" + "1" != "1" + "0" by {
      assert ("0" + "1")[0] != ("1" + "0")[0];
    }
  }

  /** Three leaves: building hashes the third leaf with itself, so the root
      is h(h(a + b) + h(c + c)). */
  lemma ThreeLeafRoot(h: Hasher, a: string, b: string, c: string)
    ensures Build(h, [a, b, c]).root == h(h(a + b) + h(c + c))
  {
    var leaves, top := [a, b, c], [h(a + b), h(c + c)];
    BuildStep(h, leaves);
    assert BuildRight(3, 0) == 1 && BuildRight(3, 1) == 2;
    assert ParentLevel(h, leaves) == top;
    BuildStep(h, top);
    assert BuildRight(2, 0) == 1;
    assert ParentLevel(h, top) == [h(h(a + b) + h(c + c))];
  }

  /** Three distinct leaves: the proof for b is [a, c] and the proof for c
      is the single digest h(a + b). Neither mentions h(c + c), the digest
      building used for the third leaf (ThreeLeafRoot). */
  lemma ThreeLeafProofs(h: Hasher, a: string, b: string, c: string)
    requires a != b && c != a && c != b
    ensures GetProof(h, Build(h, [a, b, c]), b) == Some([a, c])
    ensures GetProof(h, Build(h, [a, b, c]), c) == Some([h(a + b)])
  {
    var leaves, carried := [a, b, c], [h(a + b), c];
    assert Build(h, leaves).leaves == leaves;
    assert ProofParentLevel(h, leaves) == carried;
    assert ProofPath(h, ProofParentLevel(h, carried), 0) == [] by {
      assert |ProofParentLevel(h, carried)| == 1;
    }
    assert ProofPath(h, leaves, 1) == [a, c] by {
      assert Sibling(leaves, 1) == [a] && Sibling(carried, 0) == [c];
      assert ProofPath(h, carried, 0) == [c];
    }
    assert ProofPath(h, leaves, 2) == [h(a + b)] by {
      assert Sibling(leaves, 2) == [] && Sibling(carried, 1) == [h(a + b)];
      assert ProofPath(h, carried, 1) == [h(a + b)];
    }
    assert FirstOccurrence(leaves, b, 1) && FirstOccurrence(leaves, c, 2);
  }

  /** Along the path from `i`, every pair is already in lexicographic order,
      so sorting it during checking leaves it as built. */
  ghost predicate PairsOrdered(h: Hasher, level: seq<string>, i: nat)
    requires i < |level|
    decreases |level|
  {
    |level| <= 1 ||
    ((Partner(i) < |level| ==> LexLeq(level[2 * (i / 2)], level[2 * (i / 2) + 1])) &&
     PairsOrdered(h, ProofParentLevel(h, level), i / 2))
  }

  /** The round trip that does hold: with a power-of-two leaf count and
      every pair on the path already in lexicographic order, folding the
      produced proof into the leaf gives the built root. */
  lemma {:induction false} OrderedProofReachesRoot(h: Hasher, level: seq<string>, i: nat)
    requires IsPowerOfTwo(|level|) && i < |level|
    requires PairsOrdered(h, level, i)
    ensures Fold(h, level[i], ProofPath(h, level, i)) == Build(h, level).root
    decreases |level|
  {
    if |level| > 1 {
      HalvePowerOfTwo(|level|);
      EvenParentLevelsAgree(h, level);
      var parents := ParentLevel(h, level);
      var k := i / 2;
      assert PairsOrdered(h, parents, k) && LexLeq(level[2 * k], level[2 * k + 1]);
      OrderedPairStep(h, level, i);
      assert parents[k] == h(level[2 * k] + level[2 * k + 1]) by {
        assert BuildRight(|level|, k) == 2 * k + 1;
      }
      var rest := ProofPath(h, parents, k);
      var sibling := level[Partner(i)];
      assert ProofPath(h, level, i) == [sibling] + rest;
      assert Fold(h, level[i], [sibling] + rest) == Fold(h, parents[k], rest) by {
        assert ([sibling] + rest)[0] == sibling && ([sibling] + rest)[1..] == rest;
      }
      OrderedProofReachesRoot(h, parents, k);
      BuildStep(h, level);
    }
  }

  /** Proof checking combines a pair that is already in lexicographic order
      the way building does, whichever of the two is the running value. */
  lemma SortedCombine(h: Hasher, left: string, right: string)
    requires LexLeq(left, right)
    ensures Combine(h, left, right) == h(left + right)
    ensures Combine(h, right, left) == h(left + right)
  {
    LexLeqOrder(left, right);
    CombineCommutative(h, left, right);
  }

  /** One level of the ordered round trip: sorting an already sorted pair
      gives the digest building computes for it, whichever side `i` is on. */
  lemma OrderedPairStep(h: Hasher, level: seq<string>, i: nat)
    requires |level| % 2 == 0 && i < |level|
    requires LexLeq(level[2 * (i / 2)], level[2 * (i / 2) + 1])
    ensures Partner(i) < |level|
    ensures Combine(h, level[i], level[Partner(i)]) == h(level[2 * (i / 2)] + level[2 * (i / 2) + 1])
  {
    var k := i / 2;
    var left, right := level[2 * k], level[2 * k + 1];
    SortedCombine(h, left, right);
    if i % 2 == 0 {
      assert i == 2 * k && Partner(i) == 2 * k + 1;
    } else {
      assert i == 2 * k + 1 && Partner(i) == 2 * k;
    }
  }

  /** The same round trip stated on GetProof and VerifyProof. */
  lemma OrderedProofVerifies(h: Hasher, leaves: seq<string>, leaf: string)
    requires IsPowerOfTwo(|leaves|) && leaf in leaves
    requires forall i :: FirstOccurrence(leaves, leaf, i) ==> PairsOrdered(h, leaves, i)
    ensures GetProof(h, Build(h, leaves), leaf).Some?
    ensures VerifyProof(h, leaf, GetProof(h, Build(h, leaves), leaf).value, Build(h, leaves).root)
  {
    var i := IndexOf(leaves, leaf).value;
    assert FirstOccurrence(leaves, leaf, i);
    OrderedProofReachesRoot(h, leaves, i);
  }
}
