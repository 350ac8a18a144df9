/** cli/hash.js: path-bound leaves and directory roots. */
module DirectoryRoot {
  import opened Hashing
  import opened Text
  import opened Ordering
  import opened MerkleTree
  import opened MerkleTheorems
  import opened MerkleBinding

  /** Paths that have a UTF-8 encoding; the source throws on any other. */
  type RelPath = p: Text | WellFormed(p) witness []

  const SLASH: CodeUnit := 47
  const DOT: CodeUnit := 46

  predicate DotSlash(p: Text) { |p| >= 2 && p[0] == DOT && p[1] == SLASH }

  /** toPosixRel where the host separator is already "/": drop ONE leading "./". */
  function ToPosixRel(p: RelPath): RelPath {
    if DotSlash(p) then
      assert WellFormed(p[1..]) && p[1..][1..] == p[2..];
      p[2..]
    else p
  }

  predicate NormalForm(p: RelPath) { !DotSlash(p) }

  lemma NormalFormIsFixed(p: RelPath)
    ensures NormalForm(p) <==> ToPosixRel(p) == p
  {
    if DotSlash(p) { assert |ToPosixRel(p)| == |p| - 2; }
  }

  /** Normalising twice differs from once exactly on paths that start with "././". */
  lemma NormalisingIsNotIdempotent(p: RelPath)
    ensures ToPosixRel(ToPosixRel(p)) == ToPosixRel(p) <==> !(DotSlash(p) && DotSlash(p[2..]))
  {
    NormalFormIsFixed(ToPosixRel(p));
  }

  function DirLeafDomain(h: Hash): Digest { h(Ascii("verifyhash/dir-leaf/v1")) }

  function PathMessage(h: Hash, p: RelPath, c: Digest): Data {
    Word(DirLeafDomain(h)) + Utf8(ToPosixRel(p)) + [0] + Word(c)
  }

  function PathLeaf(h: Hash, p: RelPath, c: Digest): Digest { h(PathMessage(h, p, c)) }

  /** A path leaf in bytes: the hashed domain string, the path without one leading "./", a zero
      byte, the content digest. */
  lemma PathLeafInBytes(h: Hash, p: RelPath, c: Digest)
    ensures [46, 47] <= p ==> WellFormed(p[2..])
    ensures [46, 47] <= p ==>
              PathLeaf(h, p, c) == h(Word(h(Ascii("verifyhash/dir-leaf/v1"))) + Utf8(p[2..]) + [0] + Word(c))
    ensures !([46, 47] <= p) ==>
              PathLeaf(h, p, c) == h(Word(h(Ascii("verifyhash/dir-leaf/v1"))) + Utf8(p) + [0] + Word(c))
  {
    if [46, 47] <= p { assert p[0] == 46 && WellFormed(p[1..]) && p[1..][0] == 47 && p[1..][1..] == p[2..]; }
  }

  /** The separator and the fixed-length digest leave one way to split a leaf preimage. */
  lemma PathMessageInjective(h: Hash, p: RelPath, c: Digest, q: RelPath, d: Digest)
    requires PathMessage(h, p, c) == PathMessage(h, q, d)
    ensures ToPosixRel(p) == ToPosixRel(q) && c == d
  {
    var m, n := PathMessage(h, p, c), PathMessage(h, q, d);
    var x, y := Utf8(ToPosixRel(p)), Utf8(ToPosixRel(q));
    assert |x| == |y|;
    assert m[32..32 + |x|] == x && n[32..32 + |y|] == y;
    assert m[33 + |x|..] == Word(c) && n[33 + |y|..] == Word(d);
    WordInjective(c, d);
    Utf8Injective(ToPosixRel(p), ToPosixRel(q));
  }

  /** Leaves agree exactly on equal normalised paths with equal content, so "./x" and "x" are
      one leaf and normal-form paths never share one. */
  lemma PathLeavesAgree(h: Hash, p: RelPath, c: Digest, q: RelPath, d: Digest)
    ensures ToPosixRel(p) == ToPosixRel(q) && c == d ==> PathLeaf(h, p, c) == PathLeaf(h, q, d)
    ensures PathLeaf(h, p, c) == PathLeaf(h, q, d) ==>
              (ToPosixRel(p) == ToPosixRel(q) && c == d) || Clash(h, {PathMessage(h, p, c), PathMessage(h, q, d)})
  {
    var s := {PathMessage(h, p, c), PathMessage(h, q, d)};
    if PathLeaf(h, p, c) == PathLeaf(h, q, d) && !Clash(h, s) {
      NoClash(h, s, PathMessage(h, p, c), PathMessage(h, q, d));
      PathMessageInjective(h, p, c, q, d);
    }
  }

  // ---- hashEntries --------------------------------------------------------------------------

  datatype Entry = Entry(path: RelPath, content: Data)
  datatype FileLeaf = FileLeaf(path: RelPath, contentHash: Digest, leaf: Digest)
  datatype DirResult = DirResult(root: Digest, leaves: seq<FileLeaf>)

  /** One file's triple.  The path is normalised here and once more inside the leaf. */
  function LeafOf(h: Hash, e: Entry): FileLeaf {
    var rel := ToPosixRel(e.path);
    var c := h(e.content);
    FileLeaf(rel, c, PathLeaf(h, rel, c))
  }

  function LeavesOf(h: Hash, entries: seq<Entry>): (r: seq<FileLeaf>)
    ensures |r| == |entries| && forall i :: 0 <= i < |r| ==> r[i] == LeafOf(h, entries[i])
  {
    Map(entries, e => LeafOf(h, e))
  }

  function LeafValue(f: FileLeaf): Digest { f.leaf }

  function LeafValues(fs: seq<FileLeaf>): (r: seq<Digest>)
    ensures |r| == |fs| && forall i :: 0 <= i < |r| ==> r[i] == fs[i].leaf
  {
    Map(fs, LeafValue)
  }

  function ByLeaf(a: FileLeaf, b: FileLeaf): bool { AtMost(a.leaf, b.leaf) }

  /** hashEntries' result; zero files throw. */
  function HashEntries(h: Hash, entries: seq<Entry>): (r: Option<DirResult>)
    ensures r.Some? <==> entries != []
  {
    if entries == [] then None
    else
      var pairs := LeavesOf(h, entries);
      Some(DirResult(Root(h, LeafValues(pairs)), Sort(pairs, ByLeaf)))
  }

  /** The listing in full: one triple per file under its normalised path, ascending by leaf, and for
      a single file the root is its leaf, tagged and hashed. */
  lemma {:induction false} ListingInFull(h: Hash, entries: seq<Entry>)
    requires entries != []
    ensures var r := HashEntries(h, entries).value;
            |r.leaves| == |entries| && (forall i, j :: 0 <= i < j < |r.leaves| ==> r.leaves[i].leaf.value <= r.leaves[j].leaf.value)
    ensures forall f :: f in HashEntries(h, entries).value.leaves <==> exists i :: 0 <= i < |entries| && IsListing(h, entries[i], f)
    ensures |entries| == 1 ==>
              HashEntries(h, entries).value.root == h([0] + Word(HashEntries(h, entries).value.leaves[0].leaf))
  {
    hide PathLeaf;
    hide Root;
    hide Sort;
    var pairs := LeavesOf(h, entries);
    var s := Sort(pairs, ByLeaf);
    ByLeafIsPreorder();
    SortSorted(pairs, ByLeaf);
    MultisetMembers(pairs, s);
    forall i, j | 0 <= i < j < |s| ensures s[i].leaf.value <= s[j].leaf.value { assert ByLeaf(s[i], s[j]); }
    ListedExactly(h, entries);
    if |entries| == 1 {
      SortOne(pairs[0], ByLeaf);
      assert pairs == [pairs[0]] && LeafValues(pairs) == [pairs[0].leaf];
      SmallRoots(h, [pairs[0].leaf]);
    }
  }

  /** What is listed for a file. */
  predicate IsListing(h: Hash, e: Entry, f: FileLeaf) {
    f.contentHash == h(e.content) && f.leaf == PathLeaf(h, f.path, f.contentHash) &&
    f.path == if [46, 47] <= e.path then e.path[2..] else e.path
  }

  lemma ListingOf(h: Hash, e: Entry, f: FileLeaf)
    ensures IsListing(h, e, f) <==> f == LeafOf(h, e)
  {
    hide PathLeaf;
  }

  lemma ListedExactly(h: Hash, entries: seq<Entry>)
    ensures forall f :: f in LeavesOf(h, entries) <==> exists i :: 0 <= i < |entries| && IsListing(h, entries[i], f)
  {
    hide IsListing;
    hide LeafOf;
    var pairs := LeavesOf(h, entries);
    forall f ensures f in pairs <==> exists i :: 0 <= i < |entries| && IsListing(h, entries[i], f) {
      if f in pairs {
        var i :| 0 <= i < |pairs| && pairs[i] == f;
        ListingOf(h, entries[i], f);
      }
      if i :| 0 <= i < |entries| && IsListing(h, entries[i], f) {
        ListingOf(h, entries[i], f);
        assert pairs[i] == f;
      }
    }
  }

  /** Every message hashed on the way from file bytes to the root. */
  function EntryMessages(h: Hash, entries: seq<Entry>): set<Data> {
    (set e | e in entries :: e.content)
    + (set e | e in entries :: PathMessage(h, ToPosixRel(e.path), h(e.content)))
    + TreeMessages(h, LeafValues(LeavesOf(h, entries)))
  }

  ghost predicate SameFiles(a: seq<Entry>, b: seq<Entry>) {
    forall e :: e in a <==> e in b
  }

  /** A file set as a walk produces it: normal-form paths, each once. */
  ghost predicate FileSet(a: seq<Entry>) {
    a != [] && (forall e :: e in a ==> NormalForm(e.path)) &&
    forall i, j :: 0 <= i < j < |a| ==> a[i].path != a[j].path
  }

  lemma LeafInjective(h: Hash, e: Entry, f: Entry, seen: set<Data>)
    requires NormalForm(e.path) && NormalForm(f.path) && !Clash(h, seen)
    requires {e.content, f.content, PathMessage(h, e.path, h(e.content)), PathMessage(h, f.path, h(f.content))} <= seen
    requires LeafOf(h, e).leaf == LeafOf(h, f).leaf
    ensures e == f
  {
    NormalFormIsFixed(e.path);
    NormalFormIsFixed(f.path);
    NoClash(h, seen, PathMessage(h, e.path, h(e.content)), PathMessage(h, f.path, h(f.content)));
    PathMessageInjective(h, e.path, h(e.content), f.path, h(f.content));
    NoClash(h, seen, e.content, f.content);
  }

  lemma EntryMessagesOf(h: Hash, entries: seq<Entry>, e: Entry)
    requires e in entries && NormalForm(e.path)
    ensures e.content in EntryMessages(h, entries)
    ensures PathMessage(h, e.path, h(e.content)) in EntryMessages(h, entries)
    ensures LeafOf(h, e).leaf in LeafValues(LeavesOf(h, entries))
  {
    NormalFormIsFixed(e.path);
    var i :| 0 <= i < |entries| && entries[i] == e;
    assert LeafValues(LeavesOf(h, entries))[i] == LeafOf(h, e).leaf;
  }

  lemma {:induction false} SubsetOfFiles(h: Hash, a: seq<Entry>, b: seq<Entry>, seen: set<Data>, e: Entry)
    requires FileSet(a) && FileSet(b) && !Clash(h, seen) && EntryMessages(h, a) + EntryMessages(h, b) <= seen
    requires forall d :: d in LeafValues(LeavesOf(h, a)) <==> d in LeafValues(LeavesOf(h, b))
    requires e in a
    ensures e in b
  {
    EntryMessagesOf(h, a, e);
    var v := LeafValues(LeavesOf(h, b));
    var j :| 0 <= j < |v| && v[j] == LeafOf(h, e).leaf;
    assert b[j] in b;
    EntryMessagesOf(h, b, b[j]);
    LeafInjective(h, e, b[j], seen);
  }

  lemma SameFilesSameMultiset(a: seq<Entry>, b: seq<Entry>)
    requires FileSet(a) && FileSet(b) && SameFiles(a, b)
    ensures multiset(a) == multiset(b)
  {
    assert NoDuplicates(a) && NoDuplicates(b);
    SameMembersSameMultiset(a, b);
  }

  /** The root forgets the order in which files are enumerated. */
  lemma RootIgnoresEnumeration(h: Hash, a: seq<Entry>, b: seq<Entry>)
    requires a != [] && multiset(a) == multiset(b)
    ensures b != [] && HashEntries(h, a).value.root == HashEntries(h, b).value.root
  {
    var f := e => LeafOf(h, e);
    MapPermutes(a, b, f);
    assert LeavesOf(h, a) == Map(a, f) && LeavesOf(h, b) == Map(b, f);
    MapPermutes(LeavesOf(h, a), LeavesOf(h, b), LeafValue);
    assert |a| == |multiset(a)| == |multiset(b)| == |b|;
    RootForgetsOrder(h, LeafValues(LeavesOf(h, a)), LeafValues(LeavesOf(h, b)));
  }

  /** Two trees share a root exactly when they hold the same files at the same paths with the
      same bytes. */
  lemma {:induction false} RootsCommitToFiles(h: Hash, a: seq<Entry>, b: seq<Entry>)
    requires FileSet(a) && FileSet(b)
    ensures SameFiles(a, b) ==> HashEntries(h, a).value.root == HashEntries(h, b).value.root
    ensures HashEntries(h, a).value.root == HashEntries(h, b).value.root ==>
              SameFiles(a, b) || Clash(h, EntryMessages(h, a) + EntryMessages(h, b))
  {
    if SameFiles(a, b) {
      SameFilesSameMultiset(a, b);
      RootIgnoresEnumeration(h, a, b);
    }
    var seen := EntryMessages(h, a) + EntryMessages(h, b);
    if HashEntries(h, a).value.root == HashEntries(h, b).value.root && !Clash(h, seen) {
      var v, w := LeafValues(LeavesOf(h, a)), LeafValues(LeavesOf(h, b));
      RootFixesSet(h, v, w);
      ClashMonotone(h, TreeMessages(h, v) + TreeMessages(h, w), seen);
      forall e ensures e in a <==> e in b {
        if e in a { SubsetOfFiles(h, a, b, seen, e); }
        if e in b { SubsetOfFiles(h, b, a, seen, e); }
      }
    }
  }

  lemma ByLeafIsPreorder()
    ensures TotalPreorder(ByLeaf)
  {
  }

  lemma {:induction false} TiesAreEqual(h: Hash, a: seq<Entry>, x: FileLeaf, y: FileLeaf)
    requires FileSet(a) && !Clash(h, EntryMessages(h, a))
    requires x in LeavesOf(h, a) && y in LeavesOf(h, a) && x.leaf.value == y.leaf.value
    ensures x == y
  {
    var p := LeavesOf(h, a);
    var i :| 0 <= i < |p| && p[i] == x;
    var j :| 0 <= j < |p| && p[j] == y;
    EntryMessagesOf(h, a, a[i]);
    EntryMessagesOf(h, a, a[j]);
    LeafInjective(h, a[i], a[j], EntryMessages(h, a));
  }

  /** The whole result, manifest included, forgets the enumeration order. */
  lemma {:induction false} ManifestIgnoresEnumeration(h: Hash, a: seq<Entry>, b: seq<Entry>)
    requires FileSet(a) && multiset(a) == multiset(b)
    ensures HashEntries(h, a) == HashEntries(h, b) || Clash(h, EntryMessages(h, a))
  {
    RootIgnoresEnumeration(h, a, b);
    var f := e => LeafOf(h, e);
    MapPermutes(a, b, f);
    assert LeavesOf(h, a) == Map(a, f) && LeavesOf(h, b) == Map(b, f);
    if !Clash(h, EntryMessages(h, a)) {
      hide LeavesOf;
      hide EntryMessages;
      hide Clash;
      var p := LeavesOf(h, a);
      forall x, y | x in p && y in p && ByLeaf(x, y) && ByLeaf(y, x) ensures x == y { TiesAreEqual(h, a, x, y); }
      ByLeafIsPreorder();
      SortForgetsOrder(p, LeavesOf(h, b), ByLeaf);
    }
  }
}
