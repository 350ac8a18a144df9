/** What an ordered log head commits to, and which proofs its verifiers accept.

    Generator and verifier are independent: one recurses on the split point from the top, the
    other works on index bits from the bottom.  The bridge is that both walk on the same
    sides, level by level. */
module JournalTheorems {
  import opened Hashing
  import opened MerkleTree
  import opened JournalLog

  // ---- the recursive generator walks on the verifier's sides ----------------------------------

  /** The sides of a walk up a tree, the topmost step outermost; `left` when the sibling is
      the left child. */
  datatype Sides = End | Up(below: Sides, left: bool)

  function ToDirections(s: Sides): Directions {
    match s
    case End => []
    case Up(below, left) => ToDirections(below) + [left]
  }

  /** Put one more step underneath. */
  function Beneath(low: Directions, s: Sides): Sides {
    match s
    case End => (if low == [] then End else Up(Beneath(low[..|low| - 1], End), low[|low| - 1]))
    case Up(below, left) => Up(Beneath(low, below), left)
  }

  lemma {:induction false} BeneathDirections(low: Directions, s: Sides)
    ensures ToDirections(Beneath(low, s)) == low + ToDirections(s)
    decreases s, low
  {
    match s {
      case End =>
        if low != [] {
          BeneathDirections(low[..|low| - 1], End);
          assert low == low[..|low| - 1] + [low[|low| - 1]];
        }
      case Up(below, left) => BeneathDirections(low, below);
    }
  }

  /** The sides of the generator's audit path for leaf m of n. */
  function PathSides(m: nat, n: nat): Sides
    requires m < n
    decreases n
  {
    if n == 1 then End
    else
      var k := SplitPoint(n);
      if m < k then Up(PathSides(m, k), false) else Up(PathSides(m - k, n - k), true)
  }

  /** The low bit a leaf contributes: the lone last leaf skips the level. */
  function LowBit(m: nat, n: nat): Directions {
    if m == n - 1 && n % 2 == 1 then [] else [m % 2 == 1]
  }

  /** Subtracting an even split point commutes with halving. */
  lemma HalveAfterSplit(x: nat, j: nat)
    requires x >= 2 * j
    ensures (x - 2 * j) % 2 == x % 2 && (x - 2 * j) / 2 == x / 2 - j && (x - 2 * j + 1) / 2 == (x + 1) / 2 - j
  {
  }

  /** One level from the bottom. */
  lemma {:induction false} PathSidesStep(m: nat, n: nat)
    requires m < n && n >= 2
    ensures m / 2 < (n + 1) / 2 && PathSides(m, n) == Beneath(LowBit(m, n), PathSides(m / 2, (n + 1) / 2))
    decreases n
  {
    hide SplitPoint;
    var half := (n + 1) / 2;
    if n > 2 {
      SplitHalves(n, half);
      var j := SplitPoint(half);
      var k := 2 * j;
      if m < k {
        PathSidesStep(m, k);
        assert LowBit(m, k) == LowBit(m, n);
      } else {
        HalveAfterSplit(m, j);
        HalveAfterSplit(n, j);
        assert LowBit(m - k, n - k) == LowBit(m, n);
        if n - k >= 2 { PathSidesStep(m - k, n - k); }
      }
    } else {
      assert PathSides(0, 1) == End && Beneath([], End) == End;
      assert LowBit(m, n)[..0] == [];
    }
  }

  lemma {:induction false} LastLeafSides(m: nat)
    ensures ToDirections(PathSides(m, m + 1)) == Lefts(OnesCount(m))
    decreases m
  {
    if m > 0 {
      PathSidesStep(m, m + 1);
      BeneathDirections(LowBit(m, m + 1), PathSides(m / 2, (m + 2) / 2));
      LastLeafSides(m / 2);
    }
  }

  /** Recursion from the top and index arithmetic from the bottom agree for every leaf of
      every tree. */
  lemma {:induction false} PathSidesAreIterDirs(m: nat, n: nat)
    requires m < n
    ensures ToDirections(PathSides(m, n)) == IterDirs(m, n - 1)
    decreases n
  {
    if m == n - 1 {
      LastLeafSides(m);
    } else {
      PathSidesStep(m, n);
      BeneathDirections(LowBit(m, n), PathSides(m / 2, (n + 1) / 2));
      PathSidesAreIterDirs(m / 2, (n + 1) / 2);
    }
  }

  /** The same for a consistency proof between sizes m and n, its seed left out. */
  function SubSides(m: nat, n: nat): Sides
    requires 0 < m <= n
    decreases n
  {
    if m == n then End
    else
      var k := SplitPoint(n);
      if m <= k then Up(SubSides(m, k), false) else Up(SubSides(m - k, n - k), true)
  }

  lemma {:induction false} OddSubSides(m: nat, n: nat)
    requires 0 < m < n && m % 2 == 1
    ensures SubSides(m, n) == PathSides(m - 1, n)
    decreases n
  {
    if n > 2 {
      SplitHalves(n, (n + 1) / 2);
      var j := SplitPoint((n + 1) / 2);
      var k := 2 * j;
      if m <= k {
        OddSubSides(m, k);
      } else {
        HalveAfterSplit(m, j);
        OddSubSides(m - k, n - k);
      }
    } else {
      assert SubSides(1, 1) == End == PathSides(0, 1);
    }
  }

  lemma {:induction false} EvenSubSides(m: nat, n: nat)
    requires 0 < m < n && m % 2 == 0
    ensures m / 2 < (n + 1) / 2 && SubSides(m, n) == SubSides(m / 2, (n + 1) / 2)
    decreases n
  {
    var half := (n + 1) / 2;
    SplitHalves(n, half);
    var j := SplitPoint(half);
    var k := 2 * j;
    if m < k {
      EvenSubSides(m, k);
    } else if m > k {
      HalveAfterSplit(m, j);
      HalveAfterSplit(n, j);
      EvenSubSides(m - k, n - k);
    }
  }

  lemma {:induction false} SubSidesAreConsistencyDirs(m: nat, n: nat)
    requires 0 < m < n
    ensures ToDirections(SubSides(m, n)) == ConsistencyDirs(m, n)
    decreases m
  {
    if m % 2 == 1 {
      OddSubSides(m, n);
      PathSidesAreIterDirs(m - 1, n);
    } else {
      EvenSubSides(m, n);
      assert (m - 1) / 2 == m / 2 - 1 && (n - 1) / 2 == (n + 1) / 2 - 1;
      SubSidesAreConsistencyDirs(m / 2, (n + 1) / 2);
    }
  }

  // ---- when the seed is left out ----------------------------------------------------------------

  predicate SomeLeft(s: Sides) { s.Up? && (s.left || SomeLeft(s.below)) }

  lemma {:induction false} SomeLeftIn(s: Sides)
    ensures SomeLeft(s) <==> true in ToDirections(s)
  {
    if s.Up? { SomeLeftIn(s.below); }
  }

  lemma {:induction false} OnesPositive(x: nat)
    requires x > 0
    ensures OnesCount(x) > 0
  {
    if x % 2 == 0 { OnesPositive(x / 2); }
  }

  lemma {:induction false} IterDirsHaveLeft(index: nat, last: nat)
    ensures true in IterDirs(index, last) <==> index > 0
    decreases index + last
  {
    if index == last {
      if index > 0 {
        OnesPositive(index);
        assert Lefts(OnesCount(index))[0];
      }
    } else {
      IterDirsHaveLeft(index / 2, last / 2);
    }
  }

  /** The seed is left out of the proof exactly when every sibling lies on the right. */
  lemma SeedRule(m: nat, n: nat)
    requires 0 < m < n
    ensures SeededByRoot(m) <==> !SomeLeft(SubSides(m, n))
  {
    SubSidesAreConsistencyDirs(m, n);
    SomeLeftIn(SubSides(m, n));
    IterDirsHaveLeft(Shr(m - 1, TrailingZeros(m)), Shr(n - 1, TrailingZeros(m)));
  }

  // ---- a path and its sides, as one list of steps -------------------------------------------------

  datatype Steps = Seed | Over(below: Steps, sibling: Digest, left: bool)

  function SidesOf(t: Steps): Sides {
    match t
    case Seed => End
    case Over(below, _, left) => Up(SidesOf(below), left)
  }

  function Siblings(t: Steps): seq<Digest> {
    match t
    case Seed => []
    case Over(below, sibling, _) => Siblings(below) + [sibling]
  }

  function NewRoot(h: Hash, seed: Digest, t: Steps): Digest {
    match t
    case Seed => seed
    case Over(below, x, left) =>
      var acc := NewRoot(h, seed, below);
      if left then OrderedNode(h, x, acc) else OrderedNode(h, acc, x)
  }

  function OldRoot(h: Hash, seed: Digest, t: Steps): Digest {
    match t
    case Seed => seed
    case Over(below, x, left) =>
      var acc := OldRoot(h, seed, below);
      if left then OrderedNode(h, x, acc) else acc
  }

  function StepMessages(h: Hash, seed: Digest, t: Steps): set<Data> {
    match t
    case Seed => {}
    case Over(below, x, left) =>
      var acc := NewRoot(h, seed, below);
      StepMessages(h, seed, below) + {if left then NodeMessage(x, acc) else NodeMessage(acc, x)}
  }

  /** Pair up a path with the sides it is folded on. */
  function Zip(path: seq<Digest>, s: Sides): (t: Steps)
    requires |path| == |ToDirections(s)|
    ensures SidesOf(t) == s && Siblings(t) == path
  {
    match s
    case End => Seed
    case Up(below, left) =>
      var n := |path| - 1;
      assert path == path[..n] + [path[n]];
      Over(Zip(path[..n], below), path[n], left)
  }

  lemma {:induction false} SameLength(t: Steps)
    ensures |Siblings(t)| == |ToDirections(SidesOf(t))|
  {
    if t.Over? { SameLength(t.below); }
  }

  /** The index-driven folds are folds over the steps. */
  lemma {:induction false} FoldsAreRoots(h: Hash, seed: Digest, t: Steps)
    ensures |Siblings(t)| == |ToDirections(SidesOf(t))|
    ensures FoldNew(h, seed, Siblings(t), ToDirections(SidesOf(t))) == NewRoot(h, seed, t)
    ensures FoldOld(h, seed, Siblings(t), ToDirections(SidesOf(t))) == OldRoot(h, seed, t)
    ensures FoldNewMessages(h, seed, Siblings(t), ToDirections(SidesOf(t))) == StepMessages(h, seed, t)
  {
    SameLength(t);
    if t.Over? {
      FoldsAreRoots(h, seed, t.below);
      var p, d := Siblings(t), ToDirections(SidesOf(t));
      assert p[..|p| - 1] == Siblings(t.below) && d[..|p| - 1] == ToDirections(SidesOf(t.below));
    }
  }

  // ---- the tree a log stands for ------------------------------------------------------------------

  datatype LogTree = Nil | Tip(entry: Digest) | Fork(left: LogTree, right: LogTree)

  function TreeOf(data: seq<Digest>): LogTree
    decreases |data|
  {
    if |data| == 0 then Nil
    else if |data| == 1 then Tip(data[0])
    else Fork(TreeOf(data[..SplitPoint(|data|)]), TreeOf(data[SplitPoint(|data|)..]))
  }

  function Entries(t: LogTree): seq<Digest> {
    match t
    case Nil => []
    case Tip(d) => [d]
    case Fork(l, r) => Entries(l) + Entries(r)
  }

  lemma {:induction false} EntriesOfTree(data: seq<Digest>)
    ensures Entries(TreeOf(data)) == data
    decreases |data|
  {
    if |data| > 1 {
      var k := SplitPoint(|data|);
      EntriesOfTree(data[..k]);
      EntriesOfTree(data[k..]);
      assert data == data[..k] + data[k..];
    }
  }

  /** The message whose digest a node is. */
  function NodeOf(h: Hash, t: LogTree): (m: Data)
    ensures |m| == (match t case Nil => 28 case Tip(_) => 33 case Fork(_, _) => 65)
  {
    match t
    case Nil => EmptyMessage()
    case Tip(d) => LeafMessage(d)
    case Fork(l, r) => NodeMessage(h(NodeOf(h, l)), h(NodeOf(h, r)))
  }

  function HashLog(h: Hash, t: LogTree): Digest { h(NodeOf(h, t)) }

  function LogTreeMessages(h: Hash, t: LogTree): set<Data> {
    {NodeOf(h, t)} + if t.Fork? then LogTreeMessages(h, t.left) + LogTreeMessages(h, t.right) else {}
  }

  lemma {:induction false} MthIsHashLog(h: Hash, data: seq<Digest>)
    ensures Mth(h, data) == HashLog(h, TreeOf(data))
    decreases |data|
  {
    if |data| > 1 {
      MthIsHashLog(h, data[..SplitPoint(|data|)]);
      MthIsHashLog(h, data[SplitPoint(|data|)..]);
    }
  }

  /** Every message hashed on the way to the head of a log. */
  function LogMessages(h: Hash, data: seq<Digest>): set<Data> { LogTreeMessages(h, TreeOf(data)) }

  // ---- walking a tree along sides -------------------------------------------------------------------

  predicate Fits(t: LogTree, s: Sides) {
    s.Up? ==> t.Fork? && Fits(if s.left then t.right else t.left, s.below)
  }

  /** The subtree a walk starts from. */
  function Follow(t: LogTree, s: Sides): LogTree
    requires Fits(t, s)
  {
    match s
    case End => t
    case Up(below, left) => Follow(if left then t.right else t.left, below)
  }

  /** What is left of a tree when everything to the right of that subtree is cut off. */
  function CutAfter(t: LogTree, s: Sides): LogTree
    requires Fits(t, s)
  {
    match s
    case End => t
    case Up(below, left) => if left then Fork(t.left, CutAfter(t.right, below)) else CutAfter(t.left, below)
  }

  /** The tree's own siblings along the walk. */
  function OwnSteps(h: Hash, t: LogTree, s: Sides): (r: Steps)
    requires Fits(t, s)
    ensures SidesOf(r) == s
  {
    match s
    case End => Seed
    case Up(below, left) =>
      if left then Over(OwnSteps(h, t.right, below), HashLog(h, t.left), true)
      else Over(OwnSteps(h, t.left, below), HashLog(h, t.right), false)
  }

  /** Folding a tree's own siblings rebuilds its hash, and the hash of the cut tree. */
  lemma {:induction false} OwnStepsRebuild(h: Hash, t: LogTree, s: Sides)
    requires Fits(t, s)
    ensures NewRoot(h, HashLog(h, Follow(t, s)), OwnSteps(h, t, s)) == HashLog(h, t)
    ensures OldRoot(h, HashLog(h, Follow(t, s)), OwnSteps(h, t, s)) == HashLog(h, CutAfter(t, s))
  {
    if s.Up? { OwnStepsRebuild(h, if s.left then t.right else t.left, s.below); }
  }

  /** A fold that rebuilds a tree's hash used that tree's own siblings and started from its
      own subtree. */
  lemma {:induction false} StepsAreOwn(h: Hash, seed: Digest, r: Steps, t: LogTree, seen: set<Data>)
    requires NewRoot(h, seed, r) == HashLog(h, t) && !Clash(h, seen)
    requires LogTreeMessages(h, t) <= seen && StepMessages(h, seed, r) <= seen
    ensures Fits(t, SidesOf(r)) && r == OwnSteps(h, t, SidesOf(r)) && seed == HashLog(h, Follow(t, SidesOf(r)))
    decreases r
  {
    if r.Over? {
      var acc := NewRoot(h, seed, r.below);
      var x, y := if r.left then r.sibling else acc, if r.left then acc else r.sibling;
      NoClash(h, seen, NodeMessage(x, y), NodeOf(h, t));
      NodeMessageInjective(x, y, HashLog(h, t.left), HashLog(h, t.right));
      StepsAreOwn(h, seed, r.below, if r.left then t.right else t.left, seen);
    }
  }

  /** A hash determines the whole tree. */
  lemma {:induction false} HashLogInjective(h: Hash, s: LogTree, t: LogTree, seen: set<Data>)
    requires HashLog(h, s) == HashLog(h, t) && !Clash(h, seen)
    requires LogTreeMessages(h, s) <= seen && LogTreeMessages(h, t) <= seen
    ensures s == t
    decreases s
  {
    NoClash(h, seen, NodeOf(h, s), NodeOf(h, t));
    if s.Tip? {
      LeafMessageInjective(s.entry, t.entry);
    } else if s.Fork? {
      NodeMessageInjective(HashLog(h, s.left), HashLog(h, s.right), HashLog(h, t.left), HashLog(h, t.right));
      HashLogInjective(h, s.left, t.left, seen);
      HashLogInjective(h, s.right, t.right, seen);
    }
  }

  // ---- the walks of inclusion and consistency proofs ------------------------------------------------

  /** The audit path of entry m starts at entry m. */
  lemma {:induction false} PathSidesReach(h: Hash, m: nat, data: seq<Digest>)
    requires m < |data|
    ensures Fits(TreeOf(data), PathSides(m, |data|)) && Follow(TreeOf(data), PathSides(m, |data|)) == Tip(data[m])
    ensures Path(h, m, data) == Siblings(OwnSteps(h, TreeOf(data), PathSides(m, |data|)))
    decreases |data|
  {
    hide Mth;
    hide HashLog;
    if |data| > 1 {
      var k := SplitPoint(|data|);
      MthIsHashLog(h, data[..k]);
      MthIsHashLog(h, data[k..]);
      if m < k { PathSidesReach(h, m, data[..k]); } else { PathSidesReach(h, m - k, data[k..]); }
    }
  }

  lemma PrefixTree(data: seq<Digest>, m: nat)
    requires 0 < m < |data| && SplitPoint(|data|) < m
    ensures TreeOf(data[..m])
            == Fork(TreeOf(data[..SplitPoint(|data|)]), TreeOf(data[SplitPoint(|data|)..][..m - SplitPoint(|data|)]))
  {
    var k := SplitPoint(|data|);
    GrowIsPower(1, |data|);
    SplitPointUnique(m, k);
    assert data[..m][..k] == data[..k] && data[..m][k..] == data[k..][..m - k];
  }

  /** The consistency walk cuts the tree down to exactly the first m entries. */
  lemma {:induction false} SubSidesCut(m: nat, data: seq<Digest>)
    requires 0 < m <= |data|
    ensures Fits(TreeOf(data), SubSides(m, |data|)) && CutAfter(TreeOf(data), SubSides(m, |data|)) == TreeOf(data[..m])
    decreases |data|
  {
    if m == |data| {
      assert data[..m] == data;
    } else {
      var k := SplitPoint(|data|);
      if m <= k {
        SubSidesCut(m, data[..k]);
        assert data[..k][..m] == data[..m];
      } else {
        SubSidesCut(m - k, data[k..]);
        PrefixTree(data, m);
      }
    }
  }

  /** The generator's consistency path: a seed it may leave out, then the tree's own siblings. */
  lemma {:induction false} SubproofIsOwn(h: Hash, m: nat, data: seq<Digest>, b: bool)
    requires 0 < m <= |data|
    ensures Fits(TreeOf(data), SubSides(m, |data|))
    ensures Subproof(h, m, data, b) ==
            (if b && !SomeLeft(SubSides(m, |data|)) then [] else [HashLog(h, Follow(TreeOf(data), SubSides(m, |data|)))])
            + Siblings(OwnSteps(h, TreeOf(data), SubSides(m, |data|)))
    decreases |data|
  {
    hide Mth;
    hide HashLog;
    SubSidesCut(m, data);
    if m == |data| {
      MthIsHashLog(h, data);
    } else {
      var k := SplitPoint(|data|);
      MthIsHashLog(h, data[..k]);
      MthIsHashLog(h, data[k..]);
      if m <= k {
        var pre := if b && !SomeLeft(SubSides(m, k)) then [] else [HashLog(h, Follow(TreeOf(data[..k]), SubSides(m, k)))];
        SubproofIsOwn(h, m, data[..k], b);
        PrefixedSnoc(pre, Siblings(OwnSteps(h, TreeOf(data[..k]), SubSides(m, k))), Mth(h, data[k..]));
      } else {
        var pre := [HashLog(h, Follow(TreeOf(data[k..]), SubSides(m - k, |data| - k)))];
        SubproofIsOwn(h, m - k, data[k..], false);
        PrefixedSnoc(pre, Siblings(OwnSteps(h, TreeOf(data[k..]), SubSides(m - k, |data| - k))), Mth(h, data[..k]));
      }
    }
  }

  lemma PrefixedSnoc(pre: seq<Digest>, s: seq<Digest>, x: Digest)
    ensures (pre + s) + [x] == pre + (s + [x])
  {
  }

  /** Without a left sibling the walk starts at the cut tree itself. */
  lemma {:induction false} NoLeftCut(t: LogTree, s: Sides)
    requires Fits(t, s) && !SomeLeft(s)
    ensures CutAfter(t, s) == Follow(t, s)
  {
    if s.Up? { NoLeftCut(t.left, s.below); }
  }

  // ---- inclusion --------------------------------------------------------------------------------------

  lemma RootFromSteps(h: Hash, m: nat, n: nat, seed: Digest, t: Steps)
    requires m < n && SidesOf(t) == PathSides(m, n)
    ensures RootFromPath(h, m, n, seed, Siblings(t)) == Some(NewRoot(h, seed, t))
  {
    PathSidesAreIterDirs(m, n);
    FoldsAreRoots(h, seed, t);
  }

  /** Every generated inclusion proof verifies, against the full head and the bare root. */
  lemma {:induction false} InclusionIsComplete(h: Hash, leaves: seq<Digest>, i: nat)
    requires i < |leaves|
    ensures ProveInclusion(h, leaves, i).Some?
    ensures InclusionOk(h, ProveInclusion(h, leaves, i).value, FullHead(TreeHead(h, leaves)))
    ensures InclusionOk(h, ProveInclusion(h, leaves, i).value, BareRoot(Mth(h, leaves)))
  {
    hide IterDirs;
    hide Mth;
    hide PathSides;
    hide OwnSteps;
    hide Path;
    var t, s := TreeOf(leaves), PathSides(i, |leaves|);
    PathSidesReach(h, i, leaves);
    OwnStepsRebuild(h, t, s);
    RootFromSteps(h, i, |leaves|, LeafHash(h, leaves[i]), OwnSteps(h, t, s));
    MthIsHashLog(h, leaves);
  }

  /** The messages the verifier hashes for a proof whose shape it accepts. */
  function InclusionMessages(h: Hash, proof: InclusionProof): set<Data> {
    if proof.leafIndex < 0 || proof.leafIndex >= proof.treeSize then {}
    else
      var dirs := IterDirs(proof.leafIndex, proof.treeSize - 1);
      if |proof.path| != |dirs| then {}
      else {LeafMessage(proof.leaf)} + FoldNewMessages(h, LeafHash(h, proof.leaf), proof.path, dirs)
  }

  /** An accepted proof, as steps. */
  lemma {:induction false} AcceptedSteps(h: Hash, proof: InclusionProof, trusted: Trusted) returns (t: Steps)
    requires InclusionOk(h, proof, trusted)
    ensures 0 <= proof.leafIndex < proof.treeSize && SidesOf(t) == PathSides(proof.leafIndex, proof.treeSize)
    ensures Siblings(t) == proof.path && NewRoot(h, LeafHash(h, proof.leaf), t) == RootOf(trusted)
    ensures InclusionMessages(h, proof) == {LeafMessage(proof.leaf)} + StepMessages(h, LeafHash(h, proof.leaf), t)
  {
    hide IterDirs;
    hide PathSides;
    var s := PathSides(proof.leafIndex, proof.treeSize);
    PathSidesAreIterDirs(proof.leafIndex, proof.treeSize);
    t := Zip(proof.path, s);
    FoldsAreRoots(h, LeafHash(h, proof.leaf), t);
  }

  /** Against the full head of a log, whatever the verifier accepts names a real entry at its
      real position, with exactly the audit path the generator makes for it. */
  lemma InclusionIsSound(h: Hash, data: seq<Digest>, proof: InclusionProof)
    requires InclusionOk(h, proof, FullHead(TreeHead(h, data)))
    ensures Some(proof) == ProveInclusion(h, data, proof.leafIndex) ||
            Clash(h, LogMessages(h, data) + InclusionMessages(h, proof))
  {
    var seen := LogMessages(h, data) + InclusionMessages(h, proof);
    if !Clash(h, seen) {
      var r := AcceptedSteps(h, proof, FullHead(TreeHead(h, data)));
      StepsGiveEntry(h, proof.leaf, r, data, seen);
      PathSidesReach(h, proof.leafIndex, data);
    }
  }

  /** Steps that lead from a leaf hash to a head start at an entry of the log. */
  lemma StepsGiveEntry(h: Hash, leaf: Digest, r: Steps, data: seq<Digest>, seen: set<Data>)
    requires NewRoot(h, LeafHash(h, leaf), r) == Mth(h, data) && !Clash(h, seen)
    requires LogMessages(h, data) + {LeafMessage(leaf)} + StepMessages(h, LeafHash(h, leaf), r) <= seen
    ensures Fits(TreeOf(data), SidesOf(r)) && r == OwnSteps(h, TreeOf(data), SidesOf(r))
    ensures Follow(TreeOf(data), SidesOf(r)) == Tip(leaf)
    ensures leaf in data
  {
    MthIsHashLog(h, data);
    StepsAreOwn(h, LeafHash(h, leaf), r, TreeOf(data), seen);
    var u := Follow(TreeOf(data), SidesOf(r));
    SubtreeMessages(h, TreeOf(data), SidesOf(r));
    NoClash(h, seen, LeafMessage(leaf), NodeOf(h, u));
    LeafMessageInjective(leaf, u.entry);
    SubtreeEntries(TreeOf(data), SidesOf(r), leaf);
    EntriesOfTree(data);
  }

  lemma {:induction false} SubtreeMessages(h: Hash, t: LogTree, s: Sides)
    requires Fits(t, s)
    ensures NodeOf(h, Follow(t, s)) in LogTreeMessages(h, t)
  {
    if s.Up? { SubtreeMessages(h, if s.left then t.right else t.left, s.below); }
  }

  lemma {:induction false} SubtreeEntries(t: LogTree, s: Sides, d: Digest)
    requires Fits(t, s) && Follow(t, s) == Tip(d)
    ensures d in Entries(t)
  {
    if s.Up? { SubtreeEntries(if s.left then t.right else t.left, s.below, d); }
  }

  /** Against a bare root the position is not bound, but membership still is. */
  lemma BareRootGivesMembership(h: Hash, data: seq<Digest>, proof: InclusionProof)
    requires InclusionOk(h, proof, BareRoot(Mth(h, data)))
    ensures proof.leaf in data || Clash(h, LogMessages(h, data) + InclusionMessages(h, proof))
  {
    var seen := LogMessages(h, data) + InclusionMessages(h, proof);
    if !Clash(h, seen) {
      var r := AcceptedSteps(h, proof, BareRoot(Mth(h, data)));
      StepsGiveEntry(h, proof.leaf, r, data, seen);
    }
  }

  /** Why the full head is the recommended form: the last of any three entries is accepted
      against the bare root as entry 1 of a log of two. */
  lemma BareRootDoesNotFixPosition(h: Hash, a: Digest, b: Digest, c: Digest)
    ensures var proof := InclusionProof(c, 1, 2, [Mth(h, [a, b])]);
            InclusionOk(h, proof, BareRoot(Mth(h, [a, b, c]))) &&
            !InclusionOk(h, proof, FullHead(TreeHead(h, [a, b, c])))
  {
    var data := [a, b, c];
    var t := Over(Seed, Mth(h, [a, b]), true);
    assert PathSides(1, 2) == Up(PathSides(0, 1), true) == SidesOf(t);
    assert Siblings(t) == [Mth(h, [a, b])];
    RootFromSteps(h, 1, 2, LeafHash(h, c), t);
    assert SplitPoint(3) == 2 && data[..2] == [a, b] && data[2..] == [c];
    assert Mth(h, [c]) == LeafHash(h, c);
  }

  // ---- heads and growth -------------------------------------------------------------------------------

  lemma HeadFixesLog(h: Hash, a: seq<Digest>, b: seq<Digest>, seen: set<Data>)
    requires Mth(h, a) == Mth(h, b) && !Clash(h, seen) && LogMessages(h, a) + LogMessages(h, b) <= seen
    ensures a == b
  {
    MthIsHashLog(h, a);
    MthIsHashLog(h, b);
    HashLogInjective(h, TreeOf(a), TreeOf(b), seen);
    EntriesOfTree(a);
    EntriesOfTree(b);
  }

  /** Equal roots mean the same entries in the same order, and so the same size. */
  lemma HeadBindsOrderedLog(h: Hash, a: seq<Digest>, b: seq<Digest>)
    requires Mth(h, a) == Mth(h, b)
    ensures a == b || Clash(h, LogMessages(h, a) + LogMessages(h, b))
  {
    var seen := LogMessages(h, a) + LogMessages(h, b);
    if !Clash(h, seen) { HeadFixesLog(h, a, b, seen); }
  }

  /** verifyConsistency's decision between different sizes, over steps. */
  lemma ConsistencyOverSteps(h: Hash, m: nat, n: nat, path: seq<Digest>, first: Trusted, second: Trusted, seed: Digest, t: Steps)
    requires 0 < m < n && SidesOf(t) == SubSides(m, n) && BindsSize(first, m) && BindsSize(second, n)
    requires path == (if SeededByRoot(m) then [] else [seed]) + Siblings(t)
    requires SeededByRoot(m) ==> seed == RootOf(first)
    ensures ConsistencyOk(h, ConsistencyProof(m, n, path), first, second)
            <==> OldRoot(h, seed, t) == RootOf(first) && NewRoot(h, seed, t) == RootOf(second)
  {
    SubSidesAreConsistencyDirs(m, n);
    FoldsAreRoots(h, seed, t);
    var start := if SeededByRoot(m) then 0 else 1;
    assert path[start..] == Siblings(t);
    assert t.Over?;
  }

  /** Every generated consistency proof verifies: any log is an extension of each of its prefixes. */
  lemma ConsistencyIsComplete(h: Hash, leaves: seq<Digest>, m: nat, n: nat)
    requires 0 < m <= n <= |leaves|
    ensures ProveConsistency(h, leaves, m, n).Some?
    ensures ConsistencyOk(h, ProveConsistency(h, leaves, m, n).value,
                          FullHead(TreeHead(h, leaves[..m])), FullHead(TreeHead(h, leaves[..n])))
  {
    if m < n {
      var data := leaves[..n];
      assert data[..m] == leaves[..m];
      OwnProofDecides(h, data, m, FullHead(TreeHead(h, leaves[..m])));
    }
  }

  /** A later log's own consistency proof decides exactly whether the older root is the head
      of its prefix, up to a collision when the older root seeds the fold itself. */
  lemma {:induction false} OwnProofDecides(h: Hash, data: seq<Digest>, m: nat, first: Trusted)
    requires 0 < m < |data| && BindsSize(first, m)
    ensures RootOf(first) == Mth(h, data[..m]) ==>
              ConsistencyOk(h, ConsistencyProof(m, |data|, Subproof(h, m, data, true)), first, FullHead(TreeHead(h, data)))
  {
    var t, s := TreeOf(data), SubSides(m, |data|);
    SubSidesCut(m, data);
    SubproofIsOwn(h, m, data, true);
    OwnStepsRebuild(h, t, s);
    SeedRule(m, |data|);
    MthIsHashLog(h, data);
    MthIsHashLog(h, data[..m]);
    if RootOf(first) == Mth(h, data[..m]) {
      if !SomeLeft(s) { NoLeftCut(t, s); }
      ConsistencyOverSteps(h, m, |data|, Subproof(h, m, data, true), first, FullHead(TreeHead(h, data)),
                           HashLog(h, Follow(t, s)), OwnSteps(h, t, s));
    }
  }

  /** The messages the verifier hashes while rebuilding the later root. */
  function ConsistencyMessages(h: Hash, proof: ConsistencyProof, first: Trusted): set<Data> {
    var m, n, path := proof.firstSize, proof.secondSize, proof.path;
    if !(0 < m < n) || path == [] then {}
    else
      var start := if SeededByRoot(m) then 0 else 1;
      var seed := if SeededByRoot(m) then RootOf(first) else path[0];
      if |path| != start + |ConsistencyDirs(m, n)| then {}
      else FoldNewMessages(h, seed, path[start..], ConsistencyDirs(m, n))
  }

  /** An accepted consistency proof between different sizes, as a seed and steps. */
  lemma {:induction false} AcceptedGrowth(h: Hash, proof: ConsistencyProof, first: Trusted, second: Trusted) returns (seed: Digest, t: Steps)
    requires ConsistencyOk(h, proof, first, second) && 0 < proof.firstSize < proof.secondSize
    ensures SidesOf(t) == SubSides(proof.firstSize, proof.secondSize)
    ensures OldRoot(h, seed, t) == RootOf(first) && NewRoot(h, seed, t) == RootOf(second)
    ensures ConsistencyMessages(h, proof, first) == StepMessages(h, seed, t)
  {
    var m, n, path := proof.firstSize, proof.secondSize, proof.path;
    SubSidesAreConsistencyDirs(m, n);
    var start := if SeededByRoot(m) then 0 else 1;
    seed := if SeededByRoot(m) then RootOf(first) else path[0];
    t := Zip(path[start..], SubSides(m, n));
    FoldsAreRoots(h, seed, t);
  }

  lemma ConsistencySizes(h: Hash, proof: ConsistencyProof, first: Trusted, second: Trusted)
    requires ConsistencyOk(h, proof, first, second)
    ensures proof.firstSize <= proof.secondSize && BindsSize(first, proof.firstSize) && BindsSize(second, proof.secondSize)
    ensures proof.firstSize == proof.secondSize ==> RootOf(first) == RootOf(second)
  {
  }

  /** The new-root fold pins seed and siblings to the later log, so the old-root fold can only
      give the head of that log's own prefix. */
  lemma {:induction false} StepsGivePrefix(h: Hash, seed: Digest, r: Steps, m: nat, data: seq<Digest>, seen: set<Data>)
    requires 0 < m <= |data| && SidesOf(r) == SubSides(m, |data|) && NewRoot(h, seed, r) == Mth(h, data)
    requires !Clash(h, seen) && LogMessages(h, data) + StepMessages(h, seed, r) <= seen
    ensures OldRoot(h, seed, r) == Mth(h, data[..m])
  {
    MthIsHashLog(h, data);
    MthIsHashLog(h, data[..m]);
    StepsAreOwn(h, seed, r, TreeOf(data), seen);
    OwnStepsRebuild(h, TreeOf(data), SidesOf(r));
    SubSidesCut(m, data);
  }

  function Prefix(data: seq<Digest>, n: nat): seq<Digest> { if n <= |data| then data[..n] else data }

  /** Append-only soundness, for any path whatsoever: a consistency proof accepted against the
      head of `data` shows that the older root is the head of a prefix of `data`. */
  lemma ConsistencyIsSound(h: Hash, data: seq<Digest>, first: Trusted, proof: ConsistencyProof)
    requires ConsistencyOk(h, proof, first, FullHead(TreeHead(h, data)))
    ensures proof.firstSize <= |data|
    ensures proof.firstSize == 0 || RootOf(first) == Mth(h, Prefix(data, proof.firstSize)) ||
            Clash(h, LogMessages(h, data) + ConsistencyMessages(h, proof, first))
  {
    hide ConsistencyOk;
    var m := proof.firstSize;
    var seen := LogMessages(h, data) + ConsistencyMessages(h, proof, first);
    ConsistencySizes(h, proof, first, FullHead(TreeHead(h, data)));
    if m == |data| {
      assert data[..m] == data;
    } else if m > 0 && !Clash(h, seen) {
      var seed, t := AcceptedGrowth(h, proof, first, FullHead(TreeHead(h, data)));
      StepsGivePrefix(h, seed, t, m, data, seen);
    }
  }

  /** With both heads known as heads of logs: acceptance means one log extends the other. */
  lemma ConsistencyMeansPrefix(h: Hash, older: seq<Digest>, data: seq<Digest>, proof: ConsistencyProof)
    requires ConsistencyOk(h, proof, FullHead(TreeHead(h, older)), FullHead(TreeHead(h, data)))
    ensures older <= data ||
            Clash(h, LogMessages(h, data) + ConsistencyMessages(h, proof, FullHead(TreeHead(h, older)))
                     + LogMessages(h, older) + LogMessages(h, Prefix(data, |older|)))
  {
    hide ConsistencyOk;
    hide ConsistencyMessages;
    var first := FullHead(TreeHead(h, older));
    var some := LogMessages(h, data) + ConsistencyMessages(h, proof, first);
    var seen := some + LogMessages(h, older) + LogMessages(h, Prefix(data, |older|));
    ConsistencySizes(h, proof, first, FullHead(TreeHead(h, data)));
    ConsistencyIsSound(h, data, first, proof);
    ClashMonotone(h, some, seen);
    if !Clash(h, seen) && older != [] {
      HeadFixesLog(h, older, Prefix(data, |older|), seen);
    }
  }
}
