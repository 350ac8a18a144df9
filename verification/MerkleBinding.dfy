/** What equal roots say about the leaves.

    The lone-node rule pads a list: [a, b, c] and [a, b, c, c] build the same tree.  So the
    root alone fixes the padded tree, hence the SET of leaves; together with the number of
    leaves it fixes the multiset. */
module MerkleBinding {
  import opened Hashing
  import opened Ordering
  import opened MerkleTree
  import opened MerkleTheorems

  /** The tree buildTree grows over sorted digests, before anything is hashed. */
  datatype Tree = Tip(digest: Digest) | Fork(left: Tree, right: Tree)

  function HashTree(h: Hash, t: Tree): Digest {
    match t
    case Tip(d) => LeafHash(h, d)
    case Fork(l, r) => NodeHash(h, HashTree(h, l), HashTree(h, r))
  }

  function Messages(h: Hash, t: Tree): set<Data> {
    match t
    case Tip(d) => {LeafMessage(d)}
    case Fork(l, r) => Messages(h, l) + Messages(h, r) + {PairMessage(HashTree(h, l), HashTree(h, r))}
  }

  function Members(t: Tree): (r: set<Digest>)
    ensures r != {}
  {
    match t
    case Tip(d) => {d}
    case Fork(l, r) => Members(l) + Members(r)
  }

  predicate Perfect(t: Tree, depth: nat) {
    match t
    case Tip(_) => depth == 0
    case Fork(l, r) => depth > 0 && Perfect(l, depth - 1) && Perfect(r, depth - 1)
  }

  predicate Below(s: Tree, t: Tree) {
    forall a, b :: a in Members(s) && b in Members(t) ==> AtMost(a, b)
  }

  /** Left before right everywhere, except that a lone node is paired with itself. */
  predicate Ordered(t: Tree) {
    match t
    case Tip(_) => true
    case Fork(l, r) => Ordered(l) && Ordered(r) && (l == r || Below(l, r))
  }

  function Partner(ts: seq<Tree>, i: nat): Tree
    requires 2 * i < |ts|
  {
    if 2 * i + 1 < |ts| then ts[2 * i + 1] else ts[2 * i]
  }

  function NextTrees(ts: seq<Tree>): (r: seq<Tree>)
    ensures |r| == (|ts| + 1) / 2
    ensures forall i :: 0 <= i < |r| ==> r[i] == Fork(ts[2 * i], Partner(ts, i))
  {
    seq((|ts| + 1) / 2, i requires 0 <= i < (|ts| + 1) / 2 => Fork(ts[2 * i], Partner(ts, i)))
  }

  function TopTree(ts: seq<Tree>): Tree
    requires ts != []
    decreases |ts|
  {
    if |ts| == 1 then ts[0] else TopTree(NextTrees(ts))
  }

  function Tips(s: seq<Digest>): (r: seq<Tree>)
    ensures |r| == |s| && forall i :: 0 <= i < |r| ==> r[i] == Tip(s[i])
  {
    seq(|s|, i requires 0 <= i < |s| => Tip(s[i]))
  }

  /** The padded tree of a list of digests: all a caller needs to predict which lists share a root. */
  function PaddedTree(leaves: seq<Digest>): Tree
    requires leaves != []
  {
    TopTree(Tips(SortLeaves(leaves)))
  }

  // ---- the hashed layers are the padded tree's hashes --------------------------------------

  function HashAll(h: Hash, ts: seq<Tree>): (r: seq<Digest>)
    ensures |r| == |ts| && forall i :: 0 <= i < |r| ==> r[i] == HashTree(h, ts[i])
  {
    seq(|ts|, i requires 0 <= i < |ts| => HashTree(h, ts[i]))
  }

  lemma NextCommutes(h: Hash, ts: seq<Tree>)
    ensures NextLayer(h, HashAll(h, ts)) == HashAll(h, NextTrees(ts))
  {
    var l := HashAll(h, ts);
    forall i | 0 <= i < (|ts| + 1) / 2
      ensures Parent(h, l, i) == HashTree(h, NextTrees(ts)[i])
    {
      assert Right(l, i) == HashTree(h, Partner(ts, i));
    }
  }

  lemma {:induction false} TopCommutes(h: Hash, ts: seq<Tree>, seen: set<Data>)
    requires ts != [] && LayerMessages(h, HashAll(h, ts)) <= seen
    requires forall t :: t in ts ==> Messages(h, t) <= seen
    ensures Top(h, HashAll(h, ts)) == HashTree(h, TopTree(ts))
    ensures Messages(h, TopTree(ts)) <= seen
    decreases |ts|
  {
    if |ts| > 1 {
      var l, next := HashAll(h, ts), NextTrees(ts);
      NextCommutes(h, ts);
      LayerMessage(h, l, 0);
      forall t | t in next ensures Messages(h, t) <= seen {
        var i :| 0 <= i < |next| && next[i] == t;
        LayerMessage(h, l, i);
        assert ts[2 * i] in ts && Partner(ts, i) in ts;
        assert Right(l, i) == HashTree(h, Partner(ts, i));
      }
      TopCommutes(h, next, seen);
    }
  }

  lemma RootIsTreeHash(h: Hash, leaves: seq<Digest>)
    requires leaves != []
    ensures Root(h, leaves) == HashTree(h, PaddedTree(leaves))
    ensures Messages(h, PaddedTree(leaves)) <= TreeMessages(h, leaves)
  {
    var s := SortLeaves(leaves);
    assert HashAll(h, Tips(s)) == Tagged(h, s);
    forall t | t in Tips(s) ensures Messages(h, t) <= TreeMessages(h, leaves) {
      var i :| 0 <= i < |s| && Tips(s)[i] == t;
      assert LeafMessage(s[i]) in LeafMessages(s);
    }
    TopCommutes(h, Tips(s), TreeMessages(h, leaves));
  }

  // ---- shape of the padded tree -----------------------------------------------------------

  predicate GoodLayer(ts: seq<Tree>, depth: nat) {
    (forall i :: 0 <= i < |ts| ==> Perfect(ts[i], depth) && Ordered(ts[i])) &&
    (forall i, j :: 0 <= i < j < |ts| ==> Below(ts[i], ts[j]))
  }

  lemma NextIsGood(ts: seq<Tree>, depth: nat)
    requires GoodLayer(ts, depth)
    ensures GoodLayer(NextTrees(ts), depth + 1)
  {
    var next := NextTrees(ts);
    forall i, j | 0 <= i < j < |next| ensures Below(next[i], next[j]) {
      assert Below(ts[2 * i], ts[2 * j]) && Below(Partner(ts, i), ts[2 * j]);
      assert Below(ts[2 * i], Partner(ts, j)) && Below(Partner(ts, i), Partner(ts, j));
    }
  }

  lemma {:induction false} TopIsGood(ts: seq<Tree>, depth: nat)
    requires ts != [] && GoodLayer(ts, depth)
    ensures Ordered(TopTree(ts)) && Perfect(TopTree(ts), depth + Depth(|ts|))
    decreases |ts|
  {
    if |ts| > 1 {
      NextIsGood(ts, depth);
      TopIsGood(NextTrees(ts), depth + 1);
    }
  }

  lemma TipsAreGood(s: seq<Digest>)
    requires forall i, j :: 0 <= i < j < |s| ==> AtMost(s[i], s[j])
    ensures GoodLayer(Tips(s), 0)
  {
  }

  lemma {:induction false} PaddedTreeIsGood(leaves: seq<Digest>)
    requires leaves != []
    ensures Ordered(PaddedTree(leaves)) && Perfect(PaddedTree(leaves), Depth(|leaves|))
  {
    SortLeavesAscend(leaves);
    TipsAreGood(SortLeaves(leaves));
    TopIsGood(Tips(SortLeaves(leaves)), 0);
  }

  function AllMembers(ts: seq<Tree>): set<Digest> {
    if ts == [] then {} else Members(ts[0]) + AllMembers(ts[1..])
  }

  lemma {:induction false} AllMembersIn(ts: seq<Tree>, d: Digest)
    ensures d in AllMembers(ts) <==> exists i :: 0 <= i < |ts| && d in Members(ts[i])
  {
    if ts != [] {
      AllMembersIn(ts[1..], d);
      if d in AllMembers(ts[1..]) {
        var i :| 0 <= i < |ts[1..]| && d in Members(ts[1..][i]);
        assert d in Members(ts[i + 1]);
      }
      if i :| 0 <= i < |ts| && d in Members(ts[i]) {
        if i > 0 { assert ts[1..][i - 1] == ts[i]; }
      }
    }
  }

  lemma NextMembers(ts: seq<Tree>)
    ensures AllMembers(NextTrees(ts)) == AllMembers(ts)
  {
    var next := NextTrees(ts);
    forall d ensures d in AllMembers(next) <==> d in AllMembers(ts) {
      AllMembersIn(ts, d);
      AllMembersIn(next, d);
      if i :| 0 <= i < |ts| && d in Members(ts[i]) {
        assert ts[i] == ts[2 * (i / 2)] || ts[i] == Partner(ts, i / 2);
        assert d in Members(next[i / 2]);
      }
    }
  }

  lemma {:induction false} TopMembers(ts: seq<Tree>)
    requires ts != []
    ensures Members(TopTree(ts)) == AllMembers(ts)
    decreases |ts|
  {
    if |ts| > 1 {
      NextMembers(ts);
      TopMembers(NextTrees(ts));
    } else {
      assert AllMembers(ts) == Members(ts[0]) + AllMembers([]);
    }
  }

  /** Padding repeats leaves and loses none. */
  lemma PaddedMembers(leaves: seq<Digest>)
    requires leaves != []
    ensures forall d :: d in Members(PaddedTree(leaves)) <==> d in leaves
  {
    var s := SortLeaves(leaves);
    TopMembers(Tips(s));
    MultisetMembers(s, leaves);
    forall d ensures d in AllMembers(Tips(s)) <==> d in s {
      AllMembersIn(Tips(s), d);
      if d in s {
        var i :| 0 <= i < |s| && s[i] == d;
        assert d in Members(Tips(s)[i]);
      }
    }
  }

  /** With the same number of nodes, equal tops mean equal layers. */
  lemma {:induction false} TopTreeInjective(ts: seq<Tree>, us: seq<Tree>)
    requires ts != [] && |ts| == |us| && TopTree(ts) == TopTree(us)
    ensures ts == us
    decreases |ts|
  {
    if |ts| > 1 {
      var a, b := NextTrees(ts), NextTrees(us);
      TopTreeInjective(a, b);
      forall i | 0 <= i < |ts| ensures ts[i] == us[i] {
        assert a[i / 2] == b[i / 2];
        assert ts[i] == ts[2 * (i / 2)] || ts[i] == Partner(ts, i / 2);
      }
    }
  }

  // ---- hashes determine padded trees -------------------------------------------------------

  lemma {:induction false} UniformTrees(s: Tree, t: Tree, depth: nat, c: Digest)
    requires Perfect(s, depth) && Perfect(t, depth) && Members(s) == {c} == Members(t)
    ensures s == t
  {
    if depth > 0 {
      assert forall u :: u in {s.left, s.right, t.left, t.right} ==> Members(u) == {c};
      UniformTrees(s.left, t.left, depth - 1, c);
      UniformTrees(s.right, t.right, depth - 1, c);
    } else {
      assert s.digest in Members(s) && t.digest in Members(t);
    }
  }

  /** Two trees each below the other hold one repeated digest. */
  lemma SwappedTrees(s: Tree, t: Tree, depth: nat)
    requires Perfect(s, depth) && Perfect(t, depth) && Below(s, t) && Below(t, s)
    ensures s == t
  {
    assert Members(t) != {} && Members(s) != {};
    var c :| c in Members(t);
    var e :| e in Members(s);
    forall d | d in Members(s) ensures d == c { AtMostAntisymmetric(c, d); }
    forall d | d in Members(t) ensures d == c { AtMostAntisymmetric(d, e); }
    assert Members(s) == {c} && Members(t) == {c};
    UniformTrees(s, t, depth, c);
  }

  lemma NodeHashInjective(h: Hash, a: Digest, b: Digest, c: Digest, d: Digest, seen: set<Data>)
    requires NodeHash(h, a, b) == NodeHash(h, c, d) && !Clash(h, seen)
    requires PairMessage(a, b) in seen && PairMessage(c, d) in seen
    ensures (a == c && b == d) || (a == d && b == c)
  {
    NoClash(h, seen, PairMessage(a, b), PairMessage(c, d));
    PairMessageInjective(a, b, c, d);
  }

  /** A leaf message is 33 bytes long and a pair message 65. */
  lemma TipIsNoFork(h: Hash, s: Tree, t: Tree, seen: set<Data>)
    requires s.Tip? && t.Fork? && Messages(h, s) <= seen && Messages(h, t) <= seen && !Clash(h, seen)
    ensures HashTree(h, s) != HashTree(h, t)
  {
    hide Clash;
    if HashTree(h, s) == HashTree(h, t) {
      NoClash(h, seen, LeafMessage(s.digest), PairMessage(HashTree(h, t.left), HashTree(h, t.right)));
    }
  }

  lemma {:induction false} TreeHashInjective(h: Hash, s: Tree, t: Tree, d: nat, e: nat, seen: set<Data>)
    requires HashTree(h, s) == HashTree(h, t) && !Clash(h, seen)
    requires Messages(h, s) <= seen && Messages(h, t) <= seen
    requires Ordered(s) && Ordered(t) && Perfect(s, d) && Perfect(t, e)
    ensures s == t
    decreases s
  {
    hide Clash;
    hide Below;
    hide PairMessage;
    hide LeafMessage;
    if s.Tip? && t.Tip? {
      NoClash(h, seen, LeafMessage(s.digest), LeafMessage(t.digest));
      LeafMessageInjective(s.digest, t.digest);
    } else if s.Tip? {
      TipIsNoFork(h, s, t, seen);
    } else if t.Tip? {
      TipIsNoFork(h, t, s, seen);
    } else {
      var l, r, m, n := HashTree(h, s.left), HashTree(h, s.right), HashTree(h, t.left), HashTree(h, t.right);
      NodeHashInjective(h, l, r, m, n, seen);
      if l == m && r == n {
        TreeHashInjective(h, s.left, t.left, d - 1, e - 1, seen);
        TreeHashInjective(h, s.right, t.right, d - 1, e - 1, seen);
      } else {
        TreeHashInjective(h, s.left, t.right, d - 1, e - 1, seen);
        TreeHashInjective(h, s.right, t.left, d - 1, e - 1, seen);
        if s.left != s.right { SwappedTrees(s.left, s.right, d - 1); }
      }
    }
  }

  // ---- the theorems ------------------------------------------------------------------------

  /** Exactly which lists share a root: those with the same padded tree. */
  lemma RootsAgreeExactly(h: Hash, a: seq<Digest>, b: seq<Digest>)
    requires a != [] && b != []
    ensures PaddedTree(a) == PaddedTree(b) ==> Root(h, a) == Root(h, b)
    ensures Root(h, a) == Root(h, b) ==>
              PaddedTree(a) == PaddedTree(b) || Clash(h, TreeMessages(h, a) + TreeMessages(h, b))
  {
    RootIsTreeHash(h, a);
    RootIsTreeHash(h, b);
    PaddedTreeIsGood(a);
    PaddedTreeIsGood(b);
    var seen := TreeMessages(h, a) + TreeMessages(h, b);
    if Root(h, a) == Root(h, b) && !Clash(h, seen) {
      TreeHashInjective(h, PaddedTree(a), PaddedTree(b), Depth(|a|), Depth(|b|), seen);
    }
  }

  /** The root fixes the set of leaves. */
  lemma RootFixesSet(h: Hash, a: seq<Digest>, b: seq<Digest>)
    requires a != [] && b != [] && Root(h, a) == Root(h, b)
    ensures (forall d :: d in a <==> d in b) || Clash(h, TreeMessages(h, a) + TreeMessages(h, b))
  {
    RootsAgreeExactly(h, a, b);
    PaddedMembers(a);
    PaddedMembers(b);
  }

  lemma SortWithLargest(s: seq<Digest>, m: Digest)
    requires forall x :: x in s ==> AtMost(x, m)
    ensures SortLeaves(s + [m]) == SortLeaves(s) + [m]
  {
    var t := SortLeaves(s) + [m];
    SortLeavesAscend(s);
    SortLeavesAscend(s + [m]);
    MultisetMembers(s, SortLeaves(s));
    forall i, j | 0 <= i < j < |t| ensures Ascending(t[i], t[j]) {
      assert t[i] in SortLeaves(s);
    }
    assert multiset(t) == multiset(s + [m]);
    SortedUnique(SortLeaves(s + [m]), t, Ascending);
  }

  lemma RepeatPads(s: seq<Digest>)
    requires |s| > 1 && |s| % 2 == 1
    ensures TopTree(Tips(s)) == TopTree(Tips(s + [s[|s| - 1]]))
  {
    var t, u := Tips(s), Tips(s + [s[|s| - 1]]);
    forall i | 0 <= i < |NextTrees(t)| ensures NextTrees(t)[i] == NextTrees(u)[i] {
      assert Partner(t, i) == Partner(u, i);
    }
    assert NextTrees(t) == NextTrees(u);
  }

  /** The root does not fix the multiset: any list of three or more leaves with an odd count
      keeps its root when its largest leaf is repeated. */
  lemma RootForgetsRepeats(h: Hash, s: seq<Digest>)
    requires |s| > 1 && |s| % 2 == 1
    ensures var m := SortLeaves(s)[|s| - 1];
            m in s && Root(h, s + [m]) == Root(h, s) && multiset(s + [m]) != multiset(s)
  {
    var t := SortLeaves(s);
    var m := t[|s| - 1];
    SortLeavesAscend(s);
    MultisetMembers(s, t);
    assert m in t;
    SortWithLargest(s, m);
    RepeatPads(t);
    RootsAgreeExactly(h, s, s + [m]);
    assert multiset(s + [m])[m] == multiset(s)[m] + 1;
  }

  lemma TipsInjective(s: seq<Digest>, t: seq<Digest>)
    requires Tips(s) == Tips(t)
    ensures s == t
  {
    assert |s| == |t|;
    forall i | 0 <= i < |s| ensures s[i] == t[i] { assert Tips(s)[i] == Tips(t)[i]; }
  }

  /** When two roots agree, the multisets agree exactly if the counts do. */
  lemma RootAndCountFixMultiset(h: Hash, a: seq<Digest>, b: seq<Digest>)
    requires a != [] && b != [] && Root(h, a) == Root(h, b)
    ensures (multiset(a) == multiset(b) <==> |a| == |b|) || Clash(h, TreeMessages(h, a) + TreeMessages(h, b))
  {
    if multiset(a) == multiset(b) {
      assert |a| == |multiset(a)| == |multiset(b)| == |b|;
    } else if |a| == |b| {
      RootsAgreeExactly(h, a, b);
      var s, t := SortLeaves(a), SortLeaves(b);
      if PaddedTree(a) == PaddedTree(b) {
        TopTreeInjective(Tips(s), Tips(t));
        TipsInjective(s, t);
      }
    }
  }

  /** The root does not depend on the order of the leaves. */
  lemma RootForgetsOrder(h: Hash, a: seq<Digest>, b: seq<Digest>)
    requires a != [] && multiset(a) == multiset(b)
    ensures b != [] && Root(h, a) == Root(h, b) && SortLeaves(a) == SortLeaves(b)
  {
    assert |a| == |multiset(a)| == |b|;
    AscendingIsOrder();
    SortForgetsOrder(a, b, Ascending);
  }
}
