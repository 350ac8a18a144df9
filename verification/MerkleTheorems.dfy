/** What a sorted-leaf Merkle root commits to, and which proofs it accepts. */
module MerkleTheorems {
  import opened Hashing
  import opened Ordering
  import opened MerkleTree

  function Pow2(d: nat): (r: nat)
    ensures r > 0
  {
    if d == 0 then 1 else 2 * Pow2(d - 1)
  }

  /** How many times n halves (rounding up) before it reaches one. */
  function Depth(n: nat): nat {
    if n <= 1 then 0 else 1 + Depth((n + 1) / 2)
  }

  /** The depth is the least d with 2^d >= n. */
  lemma {:induction false} DepthIsLeast(n: nat)
    requires n > 0
    ensures n <= Pow2(Depth(n))
    ensures Depth(n) > 0 ==> Pow2(Depth(n) - 1) < n
  {
    if n > 1 { DepthIsLeast((n + 1) / 2); }
  }

  lemma {:induction false} LayersDepth(h: Hash, layer: seq<Digest>)
    requires layer != []
    ensures |Layers(h, layer)| == Depth(|layer|) + 1
    decreases |layer|
  {
    if |layer| > 1 { LayersDepth(h, NextLayer(h, layer)); }
  }

  // ---- completeness ---------------------------------------------------------------------

  /** Every position of every layer gets a full-depth proof that folds to the top. */
  lemma {:induction false} ProofFolds(h: Hash, layer: seq<Digest>, i: nat)
    requires i < |layer|
    ensures Fold(h, layer[i], ProofFor(h, layer, i)) == Top(h, layer)
    ensures |ProofFor(h, layer, i)| == Depth(|layer|)
    decreases |layer|
  {
    if |layer| > 1 {
      var next := NextLayer(h, layer);
      assert next[i / 2] == NodeHash(h, layer[i], Sibling(layer, i)) by {
        assert next[i / 2] == NodeHash(h, layer[2 * (i / 2)], Right(layer, i / 2));
        assert i % 2 == 0 ==> Right(layer, i / 2) == Sibling(layer, i);
        assert i % 2 == 1 ==> Right(layer, i / 2) == layer[i] && Sibling(layer, i) == layer[2 * (i / 2)];
      }
      ProofFolds(h, next, i / 2);
      var p := ProofFor(h, layer, i);
      assert p[0] == Sibling(layer, i) && p[1..] == ProofFor(h, next, i / 2);
    }
  }

  /** The prover's proof for any sorted index is accepted by the verifier and has the least
      depth that fits the tree. */
  lemma {:induction false} ProofsAreComplete(h: Hash, leaves: seq<Digest>, i: nat)
    requires i < |leaves|
    ensures var s := SortLeaves(leaves);
            var p := ProofFor(h, Tagged(h, s), i);
            VerifyLeaf(h, Root(h, leaves), s[i], p) &&
            |p| == Depth(|leaves|) == |Layers(h, Tagged(h, s))| - 1 &&
            |leaves| <= Pow2(|p|) && (|p| > 0 ==> Pow2(|p| - 1) < |leaves|)
  {
    var layer := Tagged(h, SortLeaves(leaves));
    ProofFolds(h, layer, i);
    LayersDepth(h, layer);
    DepthIsLeast(|leaves|);
  }

  // ---- soundness ------------------------------------------------------------------------

  lemma PairMessageInjective(a: Digest, b: Digest, c: Digest, d: Digest)
    requires PairMessage(a, b) == PairMessage(c, d)
    ensures (a == c && b == d) || (a == d && b == c)
  {
    var w, x := if AtMost(a, b) then (a, b) else (b, a), if AtMost(c, d) then (c, d) else (d, c);
    NodeMessageInjective(w.0, w.1, x.0, x.1);
  }

  lemma LayerMessage(h: Hash, layer: seq<Digest>, i: nat)
    requires |layer| > 1 && i < (|layer| + 1) / 2
    ensures PairMessage(layer[2 * i], Right(layer, i)) in LayerMessages(h, layer)
    ensures LayerMessages(h, NextLayer(h, layer)) <= LayerMessages(h, layer)
    ensures NextLayer(h, layer)[i] == h(PairMessage(layer[2 * i], Right(layer, i)))
  {
  }

  /** One step down: a pair that hashes to a node is that node's two children. */
  lemma {:induction false} StepIntoTree(h: Hash, layer: seq<Digest>, j: nat, a: Digest, b: Digest, seen: set<Data>)
    returns (i: nat)
    requires |layer| > 1 && j < (|layer| + 1) / 2 && NextLayer(h, layer)[j] == NodeHash(h, a, b)
    requires !Clash(h, seen) && LayerMessages(h, layer) <= seen && PairMessage(a, b) in seen
    ensures i < |layer| && i / 2 == j && layer[i] == a && b == Sibling(layer, i)
  {
    LayerMessage(h, layer, j);
    var l, r := layer[2 * j], Right(layer, j);
    NoClash(h, seen, PairMessage(a, b), PairMessage(l, r));
    PairMessageInjective(a, b, l, r);
    i := if a == l && b == r then 2 * j else 2 * j + 1;
  }

  /** A fold of exactly the tree's depth that reaches the top went through the tree: it
      started at some node of the bottom layer and used that node's own siblings. */
  lemma {:induction false} FoldStaysInTree(h: Hash, layer: seq<Digest>, a: Digest, proof: seq<Digest>, seen: set<Data>)
    returns (i: nat)
    requires layer != [] && |proof| == Depth(|layer|) && Fold(h, a, proof) == Top(h, layer)
    requires !Clash(h, seen) && LayerMessages(h, layer) + FoldMessages(h, a, proof) <= seen
    ensures i < |layer| && layer[i] == a && proof == ProofFor(h, layer, i)
    decreases |layer|
  {
    if |layer| == 1 {
      i := 0;
    } else {
      LayerMessage(h, layer, 0);
      var j := FoldStaysInTree(h, NextLayer(h, layer), NodeHash(h, a, proof[0]), proof[1..], seen);
      i := StepIntoTree(h, layer, j, a, proof[0], seen);
      assert proof == [proof[0]] + proof[1..];
    }
  }

  /** v is the hash of one of these messages, and of an interior-node message at that. */
  ghost predicate IsNode(h: Hash, v: Digest, messages: set<Data>) {
    exists m :: m in messages && |m| == 65 && h(m) == v
  }

  /** An interior node is no leaf hash. */
  lemma NodeIsNoLeaf(h: Hash, c: Digest, messages: set<Data>, seen: set<Data>)
    requires IsNode(h, LeafHash(h, c), messages) && messages <= seen && LeafMessage(c) in seen
    ensures Clash(h, seen)
  {
    var m :| m in messages && |m| == 65 && h(m) == LeafHash(h, c);
    assert m in seen && Collide(h, m, LeafMessage(c));
  }

  lemma {:induction false} FoldSplit(h: Hash, a: Digest, proof: seq<Digest>, k: nat)
    requires k <= |proof|
    ensures var b := Fold(h, a, proof[..k]);
            Fold(h, a, proof) == Fold(h, b, proof[k..]) &&
            FoldMessages(h, b, proof[k..]) <= FoldMessages(h, a, proof) &&
            (k > 0 ==> IsNode(h, b, FoldMessages(h, a, proof)))
    decreases k
  {
    if k > 0 {
      var b := NodeHash(h, a, proof[0]);
      FoldSplit(h, b, proof[1..], k - 1);
      assert proof[1..][k - 1..] == proof[k..] && proof[..k][1..] == proof[1..][..k - 1];
      assert proof[..k][0] == proof[0];
      if k == 1 {
        assert PairMessage(a, proof[0]) in FoldMessages(h, a, proof);
      }
      assert IsNode(h, Fold(h, a, proof[..k]), FoldMessages(h, a, proof));
    } else {
      assert proof[k..] == proof;
    }
  }

  function Drop(h: Hash, layer: seq<Digest>, k: nat): (r: seq<Digest>)
    requires layer != [] && k <= Depth(|layer|)
    ensures r != [] && Depth(|r|) == Depth(|layer|) - k && Top(h, r) == Top(h, layer)
    ensures LayerMessages(h, r) <= LayerMessages(h, layer)
    ensures k > 0 ==> forall i :: 0 <= i < |r| ==> IsNode(h, r[i], LayerMessages(h, layer))
    decreases k
  {
    if k == 0 then layer
    else
      var next := NextLayer(h, layer);
      assert forall i :: 0 <= i < |next| ==>
          PairMessage(layer[2 * i], Right(layer, i)) in LayerMessages(h, layer) &&
          next[i] == h(PairMessage(layer[2 * i], Right(layer, i)));
      Drop(h, next, k - 1)
  }

  /** Soundness, with nothing assumed about the proof's length or contents: whatever the
      verifier accepts is one of the leaves with exactly the proof the prover makes for it,
      or two of the messages hashed by the tree and by the verifier collide. */
  lemma {:induction false} ProofsAreSound(h: Hash, leaves: seq<Digest>, c: Digest, proof: seq<Digest>)
    requires leaves != [] && VerifyLeaf(h, Root(h, leaves), c, proof)
    ensures Clash(h, TreeMessages(h, leaves) + ProofMessages(h, c, proof)) ||
            exists i :: 0 <= i < |leaves| && SortLeaves(leaves)[i] == c &&
              proof == ProofFor(h, Tagged(h, SortLeaves(leaves)), i)
    ensures Clash(h, TreeMessages(h, leaves) + ProofMessages(h, c, proof)) ||
            (c in leaves && |proof| == Depth(|leaves|))
  {
    var seen := TreeMessages(h, leaves) + ProofMessages(h, c, proof);
    if !Clash(h, seen) {
      var s := SortLeaves(leaves);
      var layer := Tagged(h, s);
      ProofNotTooShort(h, layer, c, proof, seen);
      ProofNotTooLong(h, s, LeafHash(h, c), proof, seen);
      var i := FoldStaysInTree(h, layer, LeafHash(h, c), proof, seen);
      assert LeafMessage(s[i]) in LeafMessages(s);
      NoClash(h, seen, LeafMessage(s[i]), LeafMessage(c));
      LeafMessageInjective(s[i], c);
      ProofFolds(h, layer, i);
      MultisetMembers(s, leaves);
      assert s[i] in s;
    }
  }

  /** A leaf hash can stand for no interior node: no proof is too short ... */
  lemma {:induction false} ProofNotTooShort(h: Hash, layer: seq<Digest>, c: Digest, proof: seq<Digest>, seen: set<Data>)
    requires layer != [] && Fold(h, LeafHash(h, c), proof) == Top(h, layer) && !Clash(h, seen)
    requires LayerMessages(h, layer) + ProofMessages(h, c, proof) <= seen
    ensures |proof| >= Depth(|layer|)
  {
    if |proof| < Depth(|layer|) {
      var up := Drop(h, layer, Depth(|layer|) - |proof|);
      var i := FoldStaysInTree(h, up, LeafHash(h, c), proof, seen);
      NodeIsNoLeaf(h, c, LayerMessages(h, layer), seen);
    }
  }

  /** ... and none is too long. */
  lemma {:induction false} ProofNotTooLong(h: Hash, s: seq<Digest>, a: Digest, proof: seq<Digest>, seen: set<Data>)
    requires s != [] && Fold(h, a, proof) == Top(h, Tagged(h, s)) && !Clash(h, seen)
    requires LeafMessages(s) + LayerMessages(h, Tagged(h, s)) + FoldMessages(h, a, proof) <= seen
    ensures |proof| <= Depth(|s|)
  {
    if |proof| > Depth(|s|) {
      var k := |proof| - Depth(|s|);
      FoldSplit(h, a, proof, k);
      var b := Fold(h, a, proof[..k]);
      var i := FoldStaysInTree(h, Tagged(h, s), b, proof[k..], seen);
      assert LeafMessage(s[i]) in LeafMessages(s);
      NodeIsNoLeaf(h, s[i], FoldMessages(h, a, proof), seen);
    }
  }
}
