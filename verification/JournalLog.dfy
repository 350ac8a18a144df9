/** cli/journal-log.js: the ordered Merkle log, with tree head, inclusion and consistency
    proofs as in section 2.1 of RFC 6962. */
module JournalLog {
  import opened Hashing
  import opened Text
  import opened MerkleTree

  // ---- hashing in tree order ----------------------------------------------------------------

  function OrderedNode(h: Hash, left: Digest, right: Digest): Digest { h(NodeMessage(left, right)) }

  function EmptyMessage(): (m: Data)
    ensures |m| == 28
  {
    Ascii("vh.journal-log/v1:empty-root")
  }

  function EmptyRoot(h: Hash): Digest { h(EmptyMessage()) }

  // ---- bit helpers ----------------------------------------------------------------------------

  function BitLength(x: nat): nat { if x == 0 then 0 else 1 + BitLength(x / 2) }

  function OnesCount(x: nat): nat { if x == 0 then 0 else x % 2 + OnesCount(x / 2) }

  function TrailingZeros(x: nat): nat { if x > 0 && x % 2 == 0 then 1 + TrailingZeros(x / 2) else 0 }

  function Xor(a: nat, b: nat): nat
    decreases a + b
  {
    if a == 0 && b == 0 then 0 else (if a % 2 != b % 2 then 1 else 0) + 2 * Xor(a / 2, b / 2)
  }

  /** floor(x / 2^k). */
  function Shr(x: nat, k: nat): nat { if k == 0 then x else Shr(x / 2, k - 1) }

  function BitAt(x: nat, i: nat): nat { Shr(x, i) % 2 }

  method ComputeBitLength(x: nat) returns (n: nat)
    ensures n == BitLength(x)
  {
    n := 0;
    var y: nat := x;
    while y > 0
      invariant n + BitLength(y) == BitLength(x)
    {
      y := y / 2;
      n := n + 1;
    }
  }

  method ComputeOnesCount(x: nat) returns (c: nat)
    ensures c == OnesCount(x)
  {
    c := 0;
    var y: nat := x;
    while y > 0
      invariant c + OnesCount(y) == OnesCount(x)
    {
      c := c + y % 2;
      y := y / 2;
    }
  }

  method ComputeTrailingZeros(x: nat) returns (n: nat)
    ensures n == TrailingZeros(x)
  {
    n := 0;
    var y: nat := x;
    while y > 0 && y % 2 == 0
      invariant n + TrailingZeros(y) == TrailingZeros(x)
    {
      y := y / 2;
      n := n + 1;
    }
  }

  lemma Distribute(b: nat, s: nat, t: nat)
    ensures b * (s + 2 * t) == b * s + (b * 2) * t
  {
  }

  lemma {:induction false} XorStep(bit: nat, x: nat, y: nat)
    requires x > 0 || y > 0
    ensures bit * Xor(x, y) == (if x % 2 != y % 2 then bit else 0) + (bit * 2) * Xor(x / 2, y / 2)
  {
    Distribute(bit, if x % 2 != y % 2 then 1 else 0, Xor(x / 2, y / 2));
  }

  /** Xor is bitwise: each bit of the result is set exactly where the two inputs differ. */
  lemma {:induction false} XorIsBitwise(a: nat, b: nat, i: nat)
    ensures BitAt(Xor(a, b), i) == if BitAt(a, i) != BitAt(b, i) then 1 else 0
    decreases i
  {
    if a != 0 || b != 0 {
      assert Xor(a, b) / 2 == Xor(a / 2, b / 2);
    } else {
      assert Xor(a, b) / 2 == Xor(a / 2, b / 2) == 0;
    }
    if i > 0 { XorIsBitwise(a / 2, b / 2, i - 1); }
  }

  method ComputeXor(a: nat, b: nat) returns (res: nat)
    ensures res == Xor(a, b)
  {
    res := 0;
    var bit: nat := 1;
    var x: nat, y: nat := a, b;
    while x > 0 || y > 0
      invariant res + bit * Xor(x, y) == Xor(a, b)
      decreases x + y
    {
      XorStep(bit, x, y);
      if x % 2 != y % 2 { res := res + bit; }
      x, y, bit := x / 2, y / 2, bit * 2;
    }
  }

  // ---- the largest power of two strictly below n --------------------------------------------------

  predicate IsPowerOfTwo(k: nat) { k == 1 || (k > 0 && k % 2 == 0 && IsPowerOfTwo(k / 2)) }

  /** Doubling k while the double still lies below n. */
  function Grow(k: nat, n: nat): (r: nat)
    requires 0 < k < n
    ensures k <= r < n <= 2 * r
    decreases n - k
  {
    if k * 2 < n then Grow(k * 2, n) else k
  }

  /** The split point of a tree of n leaves. */
  function SplitPoint(n: nat): (k: nat)
    requires n >= 2
    ensures 0 < k < n <= 2 * k
  {
    Grow(1, n)
  }

  lemma {:induction false} GrowIsPower(k: nat, n: nat)
    requires 0 < k < n && IsPowerOfTwo(k)
    ensures IsPowerOfTwo(Grow(k, n))
    decreases n - k
  {
    if k * 2 < n { GrowIsPower(k * 2, n); }
  }

  lemma {:induction false} PowersApart(j: nat, k: nat)
    requires IsPowerOfTwo(j) && IsPowerOfTwo(k) && j < k
    ensures 2 * j <= k
  {
    if j > 1 { PowersApart(j / 2, k / 2); }
  }

  lemma SplitPointUnique(n: nat, k: nat)
    requires n >= 2 && k < n <= 2 * k && IsPowerOfTwo(k)
    ensures k == SplitPoint(n)
  {
    GrowIsPower(1, n);
    var j := SplitPoint(n);
    if j < k { PowersApart(j, k); }
    if k < j { PowersApart(k, j); }
  }

  lemma {:induction false} GrowDoubles(k: nat, n: nat, half: nat)
    requires 0 < k < half && n <= 2 * half <= n + 1
    ensures Grow(2 * k, n) == 2 * Grow(k, half)
    decreases n - k
  {
    if 2 * k < half { GrowDoubles(2 * k, n, half); }
  }

  /** Halving a tree's size halves its split point. */
  lemma SplitHalves(n: nat, half: nat)
    requires n > 2 && n <= 2 * half <= n + 1
    ensures SplitPoint(n) == 2 * SplitPoint(half)
  {
    GrowDoubles(1, n, half);
  }

  method LargestPowerOfTwoLessThan(n: nat) returns (k: nat)
    requires n >= 2
    ensures k == SplitPoint(n)
  {
    k := 1;
    while k * 2 < n
      invariant 0 < k < n && Grow(k, n) == SplitPoint(n)
    {
      k := k * 2;
    }
  }

  // ---- tree head ------------------------------------------------------------------------------

  /** The Merkle tree hash of the ordered leaf values. */
  function Mth(h: Hash, data: seq<Digest>): Digest
    decreases |data|
  {
    if |data| == 0 then EmptyRoot(h)
    else if |data| == 1 then LeafHash(h, data[0])
    else
      var k := SplitPoint(|data|);
      OrderedNode(h, Mth(h, data[..k]), Mth(h, data[k..]))
  }

  datatype Head = Head(size: nat, root: Digest)

  function TreeHead(h: Hash, leaves: seq<Digest>): Head { Head(|leaves|, Mth(h, leaves)) }

  /** Heads in bytes, for the sizes that fix every tag and every order: the domain string for the
      empty log, the leaf tag for one entry, the node tag over left then right for two and three. */
  lemma HeadsInBytes(h: Hash, a: Digest, b: Digest, c: Digest)
    ensures TreeHead(h, []) == Head(0, h(Ascii("vh.journal-log/v1:empty-root")))
    ensures TreeHead(h, [a]) == Head(1, h([0] + Word(a)))
    ensures TreeHead(h, [a, b]) == Head(2, h([1] + Word(h([0] + Word(a))) + Word(h([0] + Word(b)))))
    ensures TreeHead(h, [a, b, c]) == Head(3, h([1] + Word(Mth(h, [a, b])) + Word(h([0] + Word(c)))))
  {
    assert SplitPoint(2) == 1 && SplitPoint(3) == 2;
    assert Mth(h, [a]) == LeafHash(h, a) && Mth(h, [b]) == LeafHash(h, b) && Mth(h, [c]) == LeafHash(h, c);
    assert [a, b][..1] == [a] && [a, b][1..] == [b];
    assert [a, b, c][..2] == [a, b] && [a, b, c][2..] == [c];
    hide Word;
  }

  /** A verifier is handed a bare root, or the full head that also binds the size. */
  datatype Trusted = BareRoot(root: Digest) | FullHead(head: Head)

  function RootOf(t: Trusted): Digest { if t.BareRoot? then t.root else t.head.root }

  predicate BindsSize(t: Trusted, size: int) { t.FullHead? ==> t.head.size == size }

  // ---- proof generation (the recursive definitions) -----------------------------------------------

  datatype InclusionProof = InclusionProof(leaf: Digest, leafIndex: int, treeSize: int, path: seq<Digest>)
  datatype ConsistencyProof = ConsistencyProof(firstSize: nat, secondSize: nat, path: seq<Digest>)

  function Path(h: Hash, m: nat, data: seq<Digest>): seq<Digest>
    requires m < |data|
    decreases |data|
  {
    if |data| == 1 then []
    else
      var k := SplitPoint(|data|);
      if m < k then Path(h, m, data[..k]) + [Mth(h, data[k..])]
      else Path(h, m - k, data[k..]) + [Mth(h, data[..k])]
  }

  function ProveInclusion(h: Hash, leaves: seq<Digest>, i: int): Option<InclusionProof> {
    if i < 0 || i >= |leaves| then None
    else Some(InclusionProof(leaves[i], i, |leaves|, Path(h, i, leaves)))
  }

  function Subproof(h: Hash, m: nat, data: seq<Digest>, b: bool): seq<Digest>
    requires 0 < m <= |data|
    decreases |data|
  {
    if m == |data| then (if b then [] else [Mth(h, data)])
    else
      var k := SplitPoint(|data|);
      if m <= k then Subproof(h, m, data[..k], b) + [Mth(h, data[k..])]
      else Subproof(h, m - k, data[k..], false) + [Mth(h, data[..k])]
  }

  function ProveConsistency(h: Hash, leaves: seq<Digest>, m: int, n: int): Option<ConsistencyProof> {
    if m <= 0 || n < m || n > |leaves| then None
    else Some(ConsistencyProof(m, n, if m == n then [] else Subproof(h, m, leaves[..n], true)))
  }

  /** When the provers refuse, and what a proof says besides its path. */
  lemma ProversInFull(h: Hash, leaves: seq<Digest>, m: int, n: int)
    ensures ProveInclusion(h, leaves, m).Some? <==> 0 <= m < |leaves|
    ensures 0 <= m < |leaves| ==>
              var p := ProveInclusion(h, leaves, m).value;
              p.leaf == leaves[m] && p.leafIndex == m && p.treeSize == |leaves|
    ensures ProveConsistency(h, leaves, m, n).Some? <==> 1 <= m <= n <= |leaves|
    ensures 1 <= m <= n <= |leaves| ==>
              var p := ProveConsistency(h, leaves, m, n).value;
              p.firstSize == m && p.secondSize == n && (m == n ==> p.path == [])
  {
  }

  // ---- proof verification (the iterative index arithmetic) ------------------------------------------

  /** One direction per proof element: true when the element is the left sibling. */
  type Directions = seq<bool>

  /** Fold every element in: the root as the path claims it. */
  function FoldNew(h: Hash, seed: Digest, path: seq<Digest>, dirs: Directions): Digest
    requires |path| == |dirs|
    decreases path
  {
    if path == [] then seed
    else
      var n := |path| - 1;
      var acc := FoldNew(h, seed, path[..n], dirs[..n]);
      if dirs[n] then OrderedNode(h, path[n], acc) else OrderedNode(h, acc, path[n])
  }

  /** Fold in left siblings only: the root of the older tree. */
  function FoldOld(h: Hash, seed: Digest, path: seq<Digest>, dirs: Directions): Digest
    requires |path| == |dirs|
    decreases path
  {
    if path == [] then seed
    else
      var n := |path| - 1;
      var acc := FoldOld(h, seed, path[..n], dirs[..n]);
      if dirs[n] then OrderedNode(h, path[n], acc) else acc
  }

  /** The node messages FoldNew hashes. */
  function FoldNewMessages(h: Hash, seed: Digest, path: seq<Digest>, dirs: Directions): set<Data>
    requires |path| == |dirs|
    decreases path
  {
    if path == [] then {}
    else
      var n := |path| - 1;
      var acc := FoldNew(h, seed, path[..n], dirs[..n]);
      FoldNewMessages(h, seed, path[..n], dirs[..n])
      + {if dirs[n] then NodeMessage(path[n], acc) else NodeMessage(acc, path[n])}
  }

  function Bits(index: nat, n: nat): (r: Directions)
    ensures |r| == n && forall i :: 0 <= i < n ==> r[i] == (BitAt(index, i) == 1)
  {
    seq(n, i requires 0 <= i < n => BitAt(index, i) == 1)
  }

  function Lefts(n: nat): (r: Directions)
    ensures |r| == n && forall i :: 0 <= i < n ==> r[i]
  {
    seq(n, _ => true)
  }

  method ChainInner(h: Hash, seed: Digest, path: seq<Digest>, index: nat) returns (acc: Digest)
    ensures acc == FoldNew(h, seed, path, Bits(index, |path|))
  {
    acc := seed;
    var dirs := Bits(index, |path|);
    for i := 0 to |path|
      invariant acc == FoldNew(h, seed, path[..i], dirs[..i])
    {
      assert path[..i + 1][..i] == path[..i] && dirs[..i + 1][..i] == dirs[..i];
      acc := if BitAt(index, i) == 0 then OrderedNode(h, acc, path[i]) else OrderedNode(h, path[i], acc);
    }
    assert path[..|path|] == path && dirs[..|path|] == dirs;
  }

  method ChainInnerRight(h: Hash, seed: Digest, path: seq<Digest>, index: nat) returns (acc: Digest)
    ensures acc == FoldOld(h, seed, path, Bits(index, |path|))
  {
    acc := seed;
    var dirs := Bits(index, |path|);
    for i := 0 to |path|
      invariant acc == FoldOld(h, seed, path[..i], dirs[..i])
    {
      assert path[..i + 1][..i] == path[..i] && dirs[..i + 1][..i] == dirs[..i];
      if BitAt(index, i) == 1 { acc := OrderedNode(h, path[i], acc); }
    }
    assert path[..|path|] == path && dirs[..|path|] == dirs;
  }

  method ChainBorderRight(h: Hash, seed: Digest, path: seq<Digest>) returns (acc: Digest)
    ensures acc == FoldNew(h, seed, path, Lefts(|path|)) == FoldOld(h, seed, path, Lefts(|path|))
  {
    acc := seed;
    var dirs := Lefts(|path|);
    for i := 0 to |path|
      invariant acc == FoldNew(h, seed, path[..i], dirs[..i]) == FoldOld(h, seed, path[..i], dirs[..i])
    {
      assert path[..i + 1][..i] == path[..i] && dirs[..i + 1][..i] == dirs[..i];
      acc := OrderedNode(h, path[i], acc);
    }
    assert path[..|path|] == path && dirs[..|path|] == dirs;
  }

  lemma {:induction false} FoldsAppend(h: Hash, seed: Digest, p: seq<Digest>, q: seq<Digest>, d: Directions, e: Directions)
    requires |p| == |d| && |q| == |e|
    ensures FoldNew(h, seed, p + q, d + e) == FoldNew(h, FoldNew(h, seed, p, d), q, e)
    ensures FoldOld(h, seed, p + q, d + e) == FoldOld(h, FoldOld(h, seed, p, d), q, e)
    decreases q
  {
    if q == [] {
      assert p + q == p && d + e == d;
    } else {
      var n := |q| - 1;
      assert (p + q)[..|p| + n] == p + q[..n] && (d + e)[..|p| + n] == d + e[..n];
      FoldsAppend(h, seed, p, q[..n], d, e[..n]);
    }
  }

  /** The directions the verifier's index arithmetic stands for, read one bit at a time:
      while index and last position differ the low bit of the index decides, afterwards every
      set bit of the index is one carried left subtree. */
  function IterDirs(index: nat, last: nat): Directions
    decreases index + last
  {
    if index == last then Lefts(OnesCount(index))
    else [index % 2 == 1] + IterDirs(index / 2, last / 2)
  }

  function InnerLength(index: nat, last: nat): nat { BitLength(Xor(index, last)) }

  lemma {:induction false} XorZero(a: nat, b: nat)
    ensures Xor(a, b) == 0 <==> a == b
    decreases a + b
  {
    if a != 0 || b != 0 { XorZero(a / 2, b / 2); }
  }

  /** "Inner" bits followed by a "border" of carried subtrees. */
  lemma {:induction false} IterDirsShape(index: nat, last: nat)
    ensures var inner := InnerLength(index, last);
            IterDirs(index, last) == Bits(index, inner) + Lefts(OnesCount(Shr(index, inner)))
    decreases index + last
  {
    XorZero(index, last);
    var inner := InnerLength(index, last);
    if index != last {
      IterDirsShape(index / 2, last / 2);
      assert inner == 1 + InnerLength(index / 2, last / 2);
      forall i | 0 < i < inner ensures BitAt(index, i) == BitAt(index / 2, i - 1) { }
      assert Bits(index, inner) == [index % 2 == 1] + Bits(index / 2, inner - 1);
    }
  }

  /** The root implied by an index, a size and a path, or nothing when the shapes disagree. */
  function RootFromPath(h: Hash, index: int, size: int, seed: Digest, path: seq<Digest>): Option<Digest> {
    if size < 1 || index < 0 || index >= size then None
    else
      var dirs := IterDirs(index, size - 1);
      if |path| != |dirs| then None else Some(FoldNew(h, seed, path, dirs))
  }

  /** Folding the inner part and then the border is one fold along the directions. */
  lemma FoldsSplit(h: Hash, index: nat, last: nat, seed: Digest, path: seq<Digest>, inner: nat, border: nat)
    requires inner == InnerLength(index, last) && border == OnesCount(Shr(index, inner))
    ensures |IterDirs(index, last)| == inner + border
    ensures |path| == inner + border ==>
              FoldNew(h, seed, path, IterDirs(index, last))
              == FoldNew(h, FoldNew(h, seed, path[..inner], Bits(index, inner)), path[inner..], Lefts(border))
    ensures |path| == inner + border ==>
              FoldOld(h, seed, path, IterDirs(index, last))
              == FoldOld(h, FoldOld(h, seed, path[..inner], Bits(index, inner)), path[inner..], Lefts(border))
  {
    IterDirsShape(index, last);
    if |path| == inner + border {
      FoldsAppend(h, seed, path[..inner], path[inner..], Bits(index, inner), Lefts(border));
      assert path[..inner] + path[inner..] == path;
    }
  }

  method RootFromInclusionPath(h: Hash, index: int, size: int, seed: Digest, path: seq<Digest>) returns (r: Option<Digest>)
    ensures r == RootFromPath(h, index, size, seed, path)
  {
    if size < 1 || index < 0 || index >= size { return None; }
    var x := ComputeXor(index, size - 1);
    var inner := ComputeBitLength(x);
    var border := ComputeOnesCount(Shr(index, inner));
    FoldsSplit(h, index, size - 1, seed, path, inner, border);
    if |path| != inner + border { return None; }
    var res := ChainInner(h, seed, path[..inner], index);
    res := ChainBorderRight(h, res, path[inner..]);
    r := Some(res);
  }

  predicate InclusionOk(h: Hash, proof: InclusionProof, trusted: Trusted) {
    BindsSize(trusted, proof.treeSize) &&
    RootFromPath(h, proof.leafIndex, proof.treeSize, LeafHash(h, proof.leaf), proof.path) == Some(RootOf(trusted))
  }

  /** verifyInclusion. */
  method VerifyInclusion(h: Hash, proof: InclusionProof, trusted: Trusted) returns (ok: bool)
    ensures ok == InclusionOk(h, proof, trusted)
    ensures ok ==> 0 <= proof.leafIndex < proof.treeSize && (trusted.FullHead? ==> trusted.head.size == proof.treeSize)
    ensures proof.treeSize == 1 && BindsSize(trusted, 1) ==>
              (ok <==> proof.leafIndex == 0 && proof.path == [] && RootOf(trusted) == h([0] + Word(proof.leaf)))
  {
    if !BindsSize(trusted, proof.treeSize) { return false; }
    var recomputed := RootFromInclusionPath(h, proof.leafIndex, proof.treeSize, LeafHash(h, proof.leaf), proof.path);
    ok := recomputed == Some(RootOf(trusted));
  }

  /** The part of a consistency proof past its seed, the seed itself, and their directions. */
  function ConsistencyDirs(m: nat, n: nat): Directions
    requires 0 < m < n
  {
    IterDirs(Shr(m - 1, TrailingZeros(m)), Shr(n - 1, TrailingZeros(m)))
  }

  predicate SeededByRoot(m: nat)
    requires m > 0
  {
    Shr(m - 1, TrailingZeros(m)) == 0
  }

  predicate ConsistencyOk(h: Hash, proof: ConsistencyProof, first: Trusted, second: Trusted) {
    var m, n, path := proof.firstSize, proof.secondSize, proof.path;
    BindsSize(first, m) && BindsSize(second, n) && m <= n &&
    if m == n then path == [] && RootOf(first) == RootOf(second)
    else if m == 0 then path == []
    else
      var start := if SeededByRoot(m) then 0 else 1;
      var dirs := ConsistencyDirs(m, n);
      path != [] && |path| == start + |dirs| &&
      var seed := if SeededByRoot(m) then RootOf(first) else path[0];
      FoldOld(h, seed, path[start..], dirs) == RootOf(first) &&
      FoldNew(h, seed, path[start..], dirs) == RootOf(second)
  }

  lemma InnerStep(a: nat, b: nat)
    requires a != b
    ensures InnerLength(a, b) == 1 + InnerLength(a / 2, b / 2)
    ensures Shr(a, InnerLength(a, b)) == Shr(a / 2, InnerLength(a / 2, b / 2))
  {
    XorZero(a, b);
  }

  /** Dropping the trailing zeros of m before the index arithmetic or after it is the same. */
  lemma {:induction false} ShiftedInner(m: nat, n: nat)
    requires 0 < m < n
    ensures var s := TrailingZeros(m);
            var a, b := Shr(m - 1, s), Shr(n - 1, s);
            a < b && InnerLength(m - 1, n - 1) == s + InnerLength(a, b) &&
            Shr(a, InnerLength(a, b)) == Shr(m - 1, InnerLength(m - 1, n - 1))
    decreases m
  {
    if m % 2 == 0 {
      var p, q := m / 2, (n + 1) / 2;
      assert (m - 1) / 2 == p - 1 && (n - 1) / 2 == q - 1 && p < q;
      ShiftedInner(p, q);
      InnerStep(m - 1, n - 1);
      assert TrailingZeros(m) == 1 + TrailingZeros(p);
    }
  }

  /** The older root seeds both folds exactly when the older size is a power of two. */
  lemma {:induction false} SeededExactly(m: nat)
    requires m > 0
    ensures SeededByRoot(m) <==> m == Power(TrailingZeros(m))
    decreases m
  {
    if m % 2 == 0 {
      assert (m - 1) / 2 == m / 2 - 1 && TrailingZeros(m) == 1 + TrailingZeros(m / 2);
      SeededExactly(m / 2);
    }
  }

  function Power(s: nat): nat { if s == 0 then 1 else 2 * Power(s - 1) }

  /** The two folds of verifyConsistency over the path after its seed. */
  method FoldBoth(h: Hash, m: nat, n: nat, seed: Digest, p: seq<Digest>)
    returns (r: Option<(Digest, Digest)>)
    requires 0 < m < n
    ensures r.None? <==> |p| != |ConsistencyDirs(m, n)|
    ensures r.Some? ==> r.value.0 == FoldOld(h, seed, p, ConsistencyDirs(m, n))
    ensures r.Some? ==> r.value.1 == FoldNew(h, seed, p, ConsistencyDirs(m, n))
  {
    var x := ComputeXor(m - 1, n - 1);
    var inner := ComputeBitLength(x);
    var border := ComputeOnesCount(Shr(m - 1, inner));
    var shift := ComputeTrailingZeros(m);
    ShiftedInner(m, n);
    inner := inner - shift;
    var mask := Shr(m - 1, shift);
    FoldsSplit(h, mask, Shr(n - 1, shift), seed, p, inner, border);
    if |p| != inner + border { return None; }
    var hash1 := ChainInnerRight(h, seed, p[..inner], mask);
    hash1 := ChainBorderRight(h, hash1, p[inner..]);
    var hash2 := ChainInner(h, seed, p[..inner], mask);
    hash2 := ChainBorderRight(h, hash2, p[inner..]);
    r := Some((hash1, hash2));
  }

  /** verifyConsistency: one path folded twice, once biased to each root. */
  method VerifyConsistency(h: Hash, proof: ConsistencyProof, first: Trusted, second: Trusted) returns (ok: bool)
    ensures ok == ConsistencyOk(h, proof, first, second)
    ensures ok ==> proof.firstSize <= proof.secondSize
    ensures ok && first.FullHead? ==> first.head.size == proof.firstSize
    ensures ok && second.FullHead? ==> second.head.size == proof.secondSize
    ensures BindsSize(first, proof.firstSize) && BindsSize(second, proof.secondSize) && proof.firstSize == proof.secondSize ==>
              (ok <==> proof.path == [] && RootOf(first) == RootOf(second))
    ensures BindsSize(first, proof.firstSize) && BindsSize(second, proof.secondSize) && proof.firstSize == 0 < proof.secondSize ==>
              (ok <==> proof.path == [])
  {
    var m, n, path := proof.firstSize, proof.secondSize, proof.path;
    if !BindsSize(first, m) || !BindsSize(second, n) || n < m { return false; }
    if m == n { return |path| == 0 && RootOf(first) == RootOf(second); }
    if m == 0 { return |path| == 0; }
    if |path| == 0 { return false; }
    var shift := ComputeTrailingZeros(m);
    SeededExactly(m);
    var seed, start := RootOf(first), 0;
    if m != Power(shift) { seed, start := path[0], 1; }
    var folds := FoldBoth(h, m, n, seed, path[start..]);
    ok := folds.Some? && folds.value == (RootOf(first), RootOf(second));
  }
}
