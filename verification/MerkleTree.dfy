/** cli/hash.js: the sorted-leaf, domain-tagged Merkle tree behind every directory root. */
module MerkleTree {
  import opened Hashing
  import opened Text
  import opened Ordering

  datatype Option<+T> = None | Some(value: T)

  // ---- hashing one leaf and one pair ------------------------------------------------

  function LeafHash(h: Hash, c: Digest): Digest { h(LeafMessage(c)) }

  function PairMessage(a: Digest, b: Digest): Data {
    if AtMost(a, b) then NodeMessage(a, b) else NodeMessage(b, a)
  }

  function NodeHash(h: Hash, a: Digest, b: Digest): Digest { h(PairMessage(a, b)) }

  // ---- layers -------------------------------------------------------------------------

  /** The neighbour hashed with position 2*i: the lone last node is its own neighbour. */
  function Right(layer: seq<Digest>, i: nat): Digest
    requires 2 * i < |layer|
  {
    if 2 * i + 1 < |layer| then layer[2 * i + 1] else layer[2 * i]
  }

  function Parent(h: Hash, layer: seq<Digest>, i: nat): Digest
    requires 2 * i < |layer|
  {
    NodeHash(h, layer[2 * i], Right(layer, i))
  }

  function NextLayer(h: Hash, layer: seq<Digest>): (next: seq<Digest>)
    ensures |next| == (|layer| + 1) / 2
    ensures forall i :: 0 <= i < |next| ==> next[i] == Parent(h, layer, i)
  {
    seq((|layer| + 1) / 2, i requires 0 <= i < (|layer| + 1) / 2 => Parent(h, layer, i))
  }

  function Layers(h: Hash, layer: seq<Digest>): (r: seq<seq<Digest>>)
    ensures |r| >= 1 && r[0] == layer
    decreases |layer|
  {
    if |layer| <= 1 then [layer] else [layer] + Layers(h, NextLayer(h, layer))
  }

  /** The single value left when a non-empty layer has been folded all the way up. */
  function Top(h: Hash, layer: seq<Digest>): Digest
    requires layer != []
    decreases |layer|
  {
    if |layer| == 1 then layer[0] else Top(h, NextLayer(h, layer))
  }

  function Ascending(a: Digest, b: Digest): bool { AtMost(a, b) }

  function SortLeaves(leaves: seq<Digest>): (r: seq<Digest>)
    ensures |r| == |leaves| && multiset(r) == multiset(leaves)
  {
    Sort(leaves, Ascending)
  }

  lemma AscendingIsOrder()
    ensures TotalPreorder(Ascending)
  {
  }

  lemma SortLeavesAscend(leaves: seq<Digest>)
    ensures Sorted(SortLeaves(leaves), Ascending)
    ensures forall i, j :: 0 <= i < j < |leaves| ==> AtMost(SortLeaves(leaves)[i], SortLeaves(leaves)[j])
  {
    AscendingIsOrder();
    SortSorted(leaves, Ascending);
    var s := SortLeaves(leaves);
    forall i, j | 0 <= i < j < |s| ensures AtMost(s[i], s[j]) {
      assert Ascending(s[i], s[j]);
    }
  }

  function Tagged(h: Hash, leaves: seq<Digest>): (r: seq<Digest>)
    ensures |r| == |leaves| && forall i :: 0 <= i < |r| ==> r[i] == LeafHash(h, leaves[i])
  {
    seq(|leaves|, i requires 0 <= i < |leaves| => LeafHash(h, leaves[i]))
  }

  function Root(h: Hash, leaves: seq<Digest>): Digest
    requires leaves != []
  {
    Top(h, Tagged(h, SortLeaves(leaves)))
  }

  datatype Built = Built(root: Digest, layers: seq<seq<Digest>>, sortedLeaves: seq<Digest>)

  /** buildTree's inner loop: one level of sorted-pair hashing. */
  method PairLevel(h: Hash, layer: seq<Digest>) returns (next: seq<Digest>)
    ensures next == NextLayer(h, layer)
  {
    next := [];
    var i := 0;
    while i < |layer|
      invariant i % 2 == 0 && 0 <= i <= |layer| + 1
      invariant |next| == i / 2 && forall k :: 0 <= k < |next| ==> next[k] == Parent(h, layer, k)
    {
      var right := if i + 1 < |layer| then layer[i + 1] else layer[i];
      assert 2 * (i / 2) == i;
      next := next + [NodeHash(h, layer[i], right)];
      i := i + 2;
    }
  }

  ghost predicate Linked(h: Hash, layers: seq<seq<Digest>>) {
    forall l :: 0 <= l < |layers| - 1 ==> |layers[l]| > 1 && layers[l + 1] == NextLayer(h, layers[l])
  }

  /** Each level pairs up the one below it, until a single node is left: what buildTree returns. */
  ghost predicate IsTree(h: Hash, layers: seq<seq<Digest>>) {
    layers != [] && |layers[|layers| - 1]| == 1 && Linked(h, layers)
  }

  lemma {:induction false} TreeLayers(h: Hash, layers: seq<seq<Digest>>)
    requires IsTree(h, layers)
    ensures layers == Layers(h, layers[0]) && layers[|layers| - 1][0] == Top(h, layers[0])
  {
    if |layers| > 1 {
      TreeLayers(h, layers[1..]);
      assert layers == [layers[0]] + layers[1..];
    }
  }

  /** One pairing, in bytes: the node tag, the smaller digest, the larger one. */
  lemma ParentInBytes(h: Hash, layer: seq<Digest>, i: nat)
    requires 2 * i < |layer|
    ensures var a := layer[2 * i];
            var b := if 2 * i + 1 < |layer| then layer[2 * i + 1] else a;
            Parent(h, layer, i) == if a.value <= b.value then h([1] + Word(a) + Word(b)) else h([1] + Word(b) + Word(a))
  {
  }

  /** A whole tree in bytes: tagged leaves below, and above them each level half as long, rounded
      up, every node hashed from its two children with the smaller first. */
  lemma TreeInBytes(h: Hash, layers: seq<seq<Digest>>, sortedLeaves: seq<Digest>)
    requires IsTree(h, layers) && layers[0] == Tagged(h, sortedLeaves)
    ensures forall i :: 0 <= i < |sortedLeaves| ==> layers[0][i] == h([0] + Word(sortedLeaves[i]))
    ensures forall l :: 0 <= l < |layers| - 1 ==> |layers[l + 1]| == (|layers[l]| + 1) / 2
    ensures forall l, i :: 0 <= l < |layers| - 1 && 0 <= i < |layers[l + 1]| ==>
              2 * i < |layers[l]| &&
              var a := layers[l][2 * i];
              var b := if 2 * i + 1 < |layers[l]| then layers[l][2 * i + 1] else a;
              layers[l + 1][i] == if a.value <= b.value then h([1] + Word(a) + Word(b)) else h([1] + Word(b) + Word(a))
  {
    hide Parent;
    hide LeafHash;
    forall i | 0 <= i < |sortedLeaves| ensures layers[0][i] == h([0] + Word(sortedLeaves[i])) {
      LeafInBytes(h, sortedLeaves[i]);
    }
    forall l, i | 0 <= l < |layers| - 1 && 0 <= i < |layers[l + 1]|
      ensures 2 * i < |layers[l]| &&
              var a := layers[l][2 * i];
              var b := if 2 * i + 1 < |layers[l]| then layers[l][2 * i + 1] else a;
              layers[l + 1][i] == if a.value <= b.value then h([1] + Word(a) + Word(b)) else h([1] + Word(b) + Word(a))
    {
      assert layers[l + 1] == NextLayer(h, layers[l]);
      ParentInBytes(h, layers[l], i);
    }
  }

  /** The roots of one leaf and of two, in bytes. */
  lemma SmallRoots(h: Hash, leaves: seq<Digest>)
    requires leaves != []
    ensures |leaves| == 1 ==> Root(h, leaves) == h([0] + Word(leaves[0]))
    ensures |leaves| == 2 ==>
              var a, b := h([0] + Word(leaves[0])), h([0] + Word(leaves[1]));
              Root(h, leaves) == if a.value <= b.value then h([1] + Word(a) + Word(b)) else h([1] + Word(b) + Word(a))
  {
    hide LeafHash;
    hide SortLeaves;
    var s := SortLeaves(leaves);
    if |leaves| == 1 {
      assert leaves == [leaves[0]] && s == [s[0]];
      assert s[0] in multiset(s);
      LeafInBytes(h, leaves[0]);
    } else if |leaves| == 2 {
      TwoLeaves(leaves);
      LeafInBytes(h, leaves[0]);
      LeafInBytes(h, leaves[1]);
      ParentInBytes(h, Tagged(h, s), 0);
      assert Top(h, NextLayer(h, Tagged(h, s))) == Parent(h, Tagged(h, s), 0);
      hide Parent;
      assert Root(h, leaves) == Parent(h, Tagged(h, s), 0);
    }
  }

  lemma TwoLeaves(leaves: seq<Digest>)
    requires |leaves| == 2
    ensures SortLeaves(leaves) == leaves || SortLeaves(leaves) == [leaves[1], leaves[0]]
  {
    assert leaves == [leaves[0], leaves[1]];
    SortTwo(leaves[0], leaves[1], Ascending);
  }

  lemma LeafInBytes(h: Hash, c: Digest)
    ensures LeafHash(h, c) == h([0] + Word(c))
  {
  }

  /** buildTree.  Zero leaves are refused, as the source throws. */
  method BuildTree(h: Hash, leaves: seq<Digest>) returns (r: Option<Built>)
    ensures r.None? <==> leaves == []
    ensures r.Some? ==> IsTree(h, r.value.layers)
    ensures r.Some? ==>
              r.value == Built(Root(h, leaves), Layers(h, Tagged(h, SortLeaves(leaves))), SortLeaves(leaves))
    ensures r.Some? ==> multiset(r.value.sortedLeaves) == multiset(leaves)
    ensures r.Some? ==> forall i, j :: 0 <= i < j < |leaves| ==> r.value.sortedLeaves[i].value <= r.value.sortedLeaves[j].value
    ensures r.Some? ==> r.value.root == r.value.layers[|r.value.layers| - 1][0]
    ensures |leaves| == 1 ==> r.Some? && r.value.root == h([0] + Word(leaves[0]))
    ensures |leaves| == 2 ==>
              var a, b := h([0] + Word(leaves[0])), h([0] + Word(leaves[1]));
              r.Some? && r.value.root == if a.value <= b.value then h([1] + Word(a) + Word(b)) else h([1] + Word(b) + Word(a))
  {
    if |leaves| == 0 {
      return None;
    }
    var sortedLeaves := SortLeaves(leaves);
    var layer := Tagged(h, sortedLeaves);
    var layers := [layer];
    ghost var bottom := layer;
    while |layer| > 1
      invariant layer != [] && layers != [] && layers[0] == bottom && layers[|layers| - 1] == layer
      invariant Linked(h, layers)
      decreases |layer|
    {
      layer := PairLevel(h, layer);
      layers := layers + [layer];
    }
    TreeLayers(h, layers);
    SortLeavesAscend(leaves);
    SmallRoots(h, leaves);
    r := Some(Built(layers[|layers| - 1][0], layers, sortedLeaves));
  }

  // ---- proofs ---------------------------------------------------------------------------

  /** The sibling pushed for position idx: idx ^ 1 when in range, the node itself otherwise. */
  function Sibling(layer: seq<Digest>, idx: nat): Digest
    requires idx < |layer|
  {
    var other := if idx % 2 == 0 then idx + 1 else idx - 1;
    if other < |layer| then layer[other] else layer[idx]
  }

  function ProofFor(h: Hash, layer: seq<Digest>, index: nat): seq<Digest>
    requires index < |layer|
    decreases |layer|
  {
    if |layer| == 1 then [] else [Sibling(layer, index)] + ProofFor(h, NextLayer(h, layer), index / 2)
  }

  /** proofForIndex, over layers as buildTree returns them and an index of the bottom layer. */
  method ProofForIndex(h: Hash, layers: seq<seq<Digest>>, index: nat) returns (proof: seq<Digest>)
    requires IsTree(h, layers) && index < |layers[0]|
    ensures proof == ProofFor(h, layers[0], index)
  {
    proof := [];
    var idx: nat := index;
    ghost var full := ProofFor(h, layers[0], index);
    var l := 0;
    while l < |layers| - 1
      invariant 0 <= l < |layers|
      invariant idx < |layers[l]|
      invariant full == proof + ProofFor(h, layers[l], idx)
    {
      var lvl := layers[l];
      var other := if idx % 2 == 0 then idx + 1 else idx - 1;
      var sibling := if other < |lvl| then lvl[other] else lvl[idx];
      ghost var above := ProofFor(h, layers[l + 1], idx / 2);
      assert ProofFor(h, lvl, idx) == [sibling] + above;
      assert proof + ([sibling] + above) == (proof + [sibling]) + above;
      proof := proof + [sibling];
      idx := idx / 2;
      l := l + 1;
    }
  }

  /** What a verifier computes: hash the candidate as a leaf, then pair upwards. */
  function Fold(h: Hash, start: Digest, proof: seq<Digest>): Digest
    decreases proof
  {
    if proof == [] then start else Fold(h, NodeHash(h, start, proof[0]), proof[1..])
  }

  /** One fold step in bytes: the running value and the next sibling, the smaller first. */
  lemma FoldInBytes(h: Hash, start: Digest, proof: seq<Digest>)
    requires proof != []
    ensures var s := proof[0];
            Fold(h, start, proof)
            == Fold(h, if start.value <= s.value then h([1] + Word(start) + Word(s)) else h([1] + Word(s) + Word(start)), proof[1..])
  {
  }

  /** verifyLeaf / recomputeFold's second leg. */
  predicate VerifyLeaf(h: Hash, root: Digest, c: Digest, proof: seq<Digest>) {
    Fold(h, LeafHash(h, c), proof) == root
  }

  method FoldProof(h: Hash, c: Digest, proof: seq<Digest>) returns (computed: Digest)
    ensures computed == Fold(h, LeafHash(h, c), proof)
    ensures |proof| == 0 ==> computed == h([0] + Word(c))
    ensures |proof| == 1 ==>
              var a, s := h([0] + Word(c)), proof[0];
              computed == if a.value <= s.value then h([1] + Word(a) + Word(s)) else h([1] + Word(s) + Word(a))
  {
    LeafInBytes(h, c);
    if |proof| > 0 { FoldInBytes(h, LeafHash(h, c), proof); }
    computed := LeafHash(h, c);
    for k := 0 to |proof|
      invariant Fold(h, computed, proof[k..]) == Fold(h, LeafHash(h, c), proof)
    {
      assert proof[k..][1..] == proof[k + 1..];
      computed := NodeHash(h, computed, proof[k]);
    }
  }

  // ---- the messages a computation hashes ------------------------------------------------

  function LayerMessages(h: Hash, layer: seq<Digest>): set<Data>
    decreases |layer|
  {
    if |layer| <= 1 then {}
    else (set i | 0 <= i < (|layer| + 1) / 2 :: PairMessage(layer[2 * i], Right(layer, i)))
         + LayerMessages(h, NextLayer(h, layer))
  }

  function LeafMessages(leaves: seq<Digest>): set<Data> {
    set i | 0 <= i < |leaves| :: LeafMessage(leaves[i])
  }

  function TreeMessages(h: Hash, leaves: seq<Digest>): set<Data> {
    LeafMessages(SortLeaves(leaves)) + LayerMessages(h, Tagged(h, SortLeaves(leaves)))
  }

  function FoldMessages(h: Hash, start: Digest, proof: seq<Digest>): set<Data>
    decreases proof
  {
    if proof == [] then {}
    else {PairMessage(start, proof[0])} + FoldMessages(h, NodeHash(h, start, proof[0]), proof[1..])
  }

  function ProofMessages(h: Hash, c: Digest, proof: seq<Digest>): set<Data> {
    {LeafMessage(c)} + FoldMessages(h, LeafHash(h, c), proof)
  }
}
