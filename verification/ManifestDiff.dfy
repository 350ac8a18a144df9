/** cli/receipt.js diffManifest and cli/core/packetseal.js validateSeal: file lists, the change
    set between two of them, and sealed lists whose root re-derives. */
module ManifestDiff {
  import opened Hashing
  import opened Text
  import opened Ordering
  import opened MerkleTree
  import opened MerkleBinding
  import opened DirectoryRoot

  /** A file list keyed by path. */
  type Index = map<RelPath, FileLeaf>

  /** What `new Map()` followed by `set` holds: the last entry of each path. */
  function IndexOf(files: seq<FileLeaf>): (m: Index)
    ensures forall p :: p in m ==> m[p].path == p && m[p] in files
    ensures forall f :: f in files ==> f.path in m
  {
    if files == [] then map[]
    else
      var n := |files| - 1;
      IndexOf(files[..n])[files[n].path := files[n]]
  }

  /** A later entry for a path replaces an earlier one. */
  lemma {:induction false} LastEntryWins(files: seq<FileLeaf>, i: nat)
    requires i < |files| && forall j :: i < j < |files| ==> files[j].path != files[i].path
    ensures IndexOf(files)[files[i].path] == files[i]
  {
    var n := |files| - 1;
    if i < n { LastEntryWins(files[..n], i); }
  }

  /** One line of a change set.  `was` is filled only for an edit. */
  datatype Row = Row(path: RelPath, contentHash: Digest, was: Option<Digest>)

  datatype Diff = Diff(added: seq<Row>, removed: seq<Row>, changed: seq<Row>, kept: seq<Row>)

  predicate IsIdentical(d: Diff) { |d.added| == 0 && |d.removed| == 0 && |d.changed| == 0 }

  predicate ByPath(rows: seq<Row>) {
    forall i, j :: 0 <= i < j < |rows| ==> PathBefore(rows[i].path, rows[j].path)
  }

  predicate IsAdded(a: Index, b: Index, r: Row) {
    r.path in b && r.path !in a && r == Row(r.path, b[r.path].contentHash, None)
  }

  predicate IsRemoved(a: Index, b: Index, r: Row) {
    r.path in a && r.path !in b && r == Row(r.path, a[r.path].contentHash, None)
  }

  predicate Edited(a: Index, b: Index, p: RelPath) { p in a && p in b && a[p].leaf != b[p].leaf }

  predicate Kept(a: Index, b: Index, p: RelPath) { p in a && p in b && a[p].leaf == b[p].leaf }

  predicate IsChanged(a: Index, b: Index, r: Row) {
    Edited(a, b, r.path) && r == Row(r.path, b[r.path].contentHash, Some(a[r.path].contentHash))
  }

  predicate IsKept(a: Index, b: Index, r: Row) {
    Kept(a, b, r.path) && r == Row(r.path, b[r.path].contentHash, None)
  }

  /** The change set from a to b: each list in path order, each holding exactly its rows. */
  ghost predicate IsDiff(a: Index, b: Index, d: Diff) {
    ByPath(d.added) && ByPath(d.removed) && ByPath(d.changed) && ByPath(d.kept) &&
    (forall r :: r in d.added <==> IsAdded(a, b, r)) &&
    (forall r :: r in d.removed <==> IsRemoved(a, b, r)) &&
    (forall r :: r in d.changed <==> IsChanged(a, b, r)) &&
    (forall r :: r in d.kept <==> IsKept(a, b, r))
  }

  // ---- diffManifest ------------------------------------------------------------------------------

  /** A JavaScript Map: its content, and its keys in insertion order. */
  method BuildIndex(files: seq<FileLeaf>) returns (keys: seq<RelPath>, m: Index)
    ensures m == IndexOf(files)
    ensures NoDuplicates(keys) && forall p :: p in keys <==> p in m
  {
    keys := [];
    m := map[];
    for i := 0 to |files|
      invariant m == IndexOf(files[..i])
      invariant NoDuplicates(keys) && forall p :: p in keys <==> p in m
    {
      assert files[..i + 1][..i] == files[..i];
      if files[i].path !in m { keys := keys + [files[i].path]; }
      m := m[files[i].path := files[i]];
    }
    assert files[..|files|] == files;
  }

  function RowLe(x: Row, y: Row): bool { TextLe(x.path, y.path) }

  lemma RowLeIsPreorder()
    ensures TotalPreorder(RowLe)
  {
    forall x: Row, y: Row ensures RowLe(x, y) || RowLe(y, x) { TextLeTotal(x.path, y.path); }
    forall x: Row, y: Row, z: Row | RowLe(x, y) && RowLe(y, z) ensures RowLe(x, z) {
      TextLeTransitive(x.path, y.path, z.path);
    }
  }

  predicate DistinctPaths(rows: seq<Row>) { forall i, j :: 0 <= i < j < |rows| ==> rows[i].path != rows[j].path }

  function Paths(rows: seq<Row>): (r: seq<RelPath>)
    ensures |r| == |rows| && forall i :: 0 <= i < |r| ==> r[i] == rows[i].path
  {
    Map(rows, (r: Row) => r.path)
  }

  /** Sorting rows with distinct paths puts them in strict path order and loses none. */
  lemma {:induction false} SortRows(rows: seq<Row>)
    requires DistinctPaths(rows)
    ensures ByPath(Sort(rows, RowLe)) && forall r :: r in Sort(rows, RowLe) <==> r in rows
  {
    var s := Sort(rows, RowLe);
    RowLeIsPreorder();
    SortSorted(rows, RowLe);
    MultisetMembers(rows, s);
    MapPermutes(rows, s, (r: Row) => r.path);
    assert NoDuplicates(Paths(rows));
    NoDuplicatesPermute(Paths(rows), Paths(s));
    forall i, j | 0 <= i < j < |s| ensures PathBefore(s[i].path, s[j].path) {
      assert RowLe(s[i], s[j]) && Paths(s)[i] != Paths(s)[j];
    }
  }

  /** The rows of the paths seen so far, each path once. */
  ghost predicate Collected(rows: seq<Row>, seen: seq<RelPath>, p: Row -> bool) {
    DistinctPaths(rows) && (forall r :: r in rows <==> r.path in seen && p(r))
  }

  lemma CollectedSnoc(rows: seq<Row>, seen: seq<RelPath>, next: RelPath, p: Row -> bool, row: Row)
    requires Collected(rows, seen, p) && next !in seen && row.path == next
    ensures p(row) && (forall r: Row :: p(r) && r.path == next ==> r == row) ==> Collected(rows + [row], seen + [next], p)
    ensures (forall r: Row :: r.path == next ==> !p(r)) ==> Collected(rows, seen + [next], p)
  {
    forall i | 0 <= i < |rows| ensures rows[i].path != next { assert rows[i] in rows; }
  }

  ghost function Added(a: Index, b: Index): Row -> bool { r => IsAdded(a, b, r) }

  ghost function Removed(a: Index, b: Index): Row -> bool { r => IsRemoved(a, b, r) }

  ghost function Changed(a: Index, b: Index): Row -> bool { r => IsChanged(a, b, r) }

  ghost function Unchanged(a: Index, b: Index): Row -> bool { r => IsKept(a, b, r) }

  lemma AddedStep(a: Index, b: Index, rows: seq<Row>, seen: seq<RelPath>, p: RelPath)
    requires Collected(rows, seen, Added(a, b)) && p !in seen && p in b
    ensures Collected(if p in a then rows else rows + [Row(p, b[p].contentHash, None)], seen + [p], Added(a, b))
  {
    CollectedSnoc(rows, seen, p, Added(a, b), Row(p, b[p].contentHash, None));
  }

  lemma RemovedStep(a: Index, b: Index, rows: seq<Row>, seen: seq<RelPath>, p: RelPath)
    requires Collected(rows, seen, Removed(a, b)) && p !in seen && p in a
    ensures Collected(if p in b then rows else rows + [Row(p, a[p].contentHash, None)], seen + [p], Removed(a, b))
  {
    CollectedSnoc(rows, seen, p, Removed(a, b), Row(p, a[p].contentHash, None));
  }

  lemma ChangedStep(a: Index, b: Index, rows: seq<Row>, seen: seq<RelPath>, p: RelPath)
    requires Collected(rows, seen, Changed(a, b)) && p !in seen && p in b
    ensures Collected(if Edited(a, b, p) then rows + [Row(p, b[p].contentHash, Some(a[p].contentHash))] else rows,
                      seen + [p], Changed(a, b))
  {
    var row := Row(p, b[p].contentHash, if p in a then Some(a[p].contentHash) else None);
    CollectedSnoc(rows, seen, p, Changed(a, b), row);
  }

  lemma UnchangedStep(a: Index, b: Index, rows: seq<Row>, seen: seq<RelPath>, p: RelPath)
    requires Collected(rows, seen, Unchanged(a, b)) && p !in seen && p in b
    ensures Collected(if Kept(a, b, p) then rows + [Row(p, b[p].contentHash, None)] else rows,
                      seen + [p], Unchanged(a, b))
  {
    CollectedSnoc(rows, seen, p, Unchanged(a, b), Row(p, b[p].contentHash, None));
  }

  method DiffManifest(recorded: seq<FileLeaf>, current: seq<FileLeaf>) returns (d: Diff)
    ensures IsDiff(IndexOf(recorded), IndexOf(current), d)
  {
    hide IndexOf;
    hide Collected;
    hide IsAdded;
    hide IsRemoved;
    hide IsChanged;
    hide IsKept;
    hide Sort;
    hide ByPath;
    var oldKeys: seq<RelPath>, a: Index := BuildIndex(recorded);
    var newKeys: seq<RelPath>, b: Index := BuildIndex(current);
    var added: seq<Row>, removed: seq<Row>, changed: seq<Row>, kept: seq<Row> := [], [], [], [];
    NothingCollected(a, b);
    for i := 0 to |newKeys|
      invariant Collected(added, newKeys[..i], Added(a, b))
      invariant Collected(changed, newKeys[..i], Changed(a, b))
      invariant Collected(kept, newKeys[..i], Unchanged(a, b))
    {
      var p := newKeys[i];
      var cur := b[p];
      assert newKeys[..i + 1] == newKeys[..i] + [p] && p !in newKeys[..i];
      AddedStep(a, b, added, newKeys[..i], p);
      ChangedStep(a, b, changed, newKeys[..i], p);
      UnchangedStep(a, b, kept, newKeys[..i], p);
      if p !in a {
        added := added + [Row(p, cur.contentHash, None)];
      } else if a[p].leaf != cur.leaf {
        changed := changed + [Row(p, cur.contentHash, Some(a[p].contentHash))];
      } else {
        kept := kept + [Row(p, cur.contentHash, None)];
      }
    }
    for i := 0 to |oldKeys|
      invariant Collected(removed, oldKeys[..i], Removed(a, b))
    {
      var p := oldKeys[i];
      assert oldKeys[..i + 1] == oldKeys[..i] + [p] && p !in oldKeys[..i];
      RemovedStep(a, b, removed, oldKeys[..i], p);
      if p !in b { removed := removed + [Row(p, a[p].contentHash, None)]; }
    }
    assert newKeys[..|newKeys|] == newKeys && oldKeys[..|oldKeys|] == oldKeys;
    d := Diff(Sort(added, RowLe), Sort(removed, RowLe), Sort(changed, RowLe), Sort(kept, RowLe));
    Assembled(a, b, oldKeys, newKeys, added, removed, changed, kept);
  }

  lemma {:induction false} Assembled(a: Index, b: Index, oldKeys: seq<RelPath>, newKeys: seq<RelPath>,
                  added: seq<Row>, removed: seq<Row>, changed: seq<Row>, kept: seq<Row>)
    requires (forall p :: p in oldKeys <==> p in a) && (forall p :: p in newKeys <==> p in b)
    requires Collected(added, newKeys, Added(a, b)) && Collected(removed, oldKeys, Removed(a, b))
    requires Collected(changed, newKeys, Changed(a, b)) && Collected(kept, newKeys, Unchanged(a, b))
    ensures IsDiff(a, b, Diff(Sort(added, RowLe), Sort(removed, RowLe), Sort(changed, RowLe), Sort(kept, RowLe)))
  {
    hide ByPath;
    hide Sort;
    hide Collected;
    SortedCollection(added, newKeys, Added(a, b));
    SortedCollection(removed, oldKeys, Removed(a, b));
    SortedCollection(changed, newKeys, Changed(a, b));
    SortedCollection(kept, newKeys, Unchanged(a, b));
  }

  lemma NothingCollected(a: Index, b: Index)
    ensures Collected([], [], Added(a, b)) && Collected([], [], Removed(a, b))
    ensures Collected([], [], Changed(a, b)) && Collected([], [], Unchanged(a, b))
  {
  }

  lemma SortedCollection(rows: seq<Row>, seen: seq<RelPath>, p: Row -> bool)
    requires Collected(rows, seen, p)
    ensures ByPath(Sort(rows, RowLe)) && forall r :: r in Sort(rows, RowLe) <==> r.path in seen && p(r)
  {
    SortRows(rows);
  }

  // ---- what a change set says --------------------------------------------------------------------

  lemma ByPathUnique(s: seq<Row>, t: seq<Row>)
    requires ByPath(s) && ByPath(t) && forall r :: r in s <==> r in t
    ensures s == t
  {
    RowLeIsPreorder();
    forall i, j | 0 <= i < j < |s| ensures s[i] != s[j] { assert PathBefore(s[i].path, s[j].path); }
    forall i, j | 0 <= i < j < |t| ensures t[i] != t[j] { assert PathBefore(t[i].path, t[j].path); }
    SameMembersSameMultiset(s, t);
    forall i, j | 0 <= i < j < |s| ensures RowLe(s[i], s[j]) { assert PathBefore(s[i].path, s[j].path); }
    forall i, j | 0 <= i < j < |t| ensures RowLe(t[i], t[j]) { assert PathBefore(t[i].path, t[j].path); }
    forall x, y | x in s && y in s && RowLe(x, y) && RowLe(y, x) ensures x == y {
      var i :| 0 <= i < |s| && s[i] == x;
      var j :| 0 <= j < |s| && s[j] == y;
      TextLeAntisymmetric(x.path, y.path);
    }
    SortedUnique(s, t, RowLe);
  }

  /** Two lists have one change set: the order their entries came in does not show. */
  lemma DiffIsDetermined(a: Index, b: Index, d: Diff, e: Diff)
    requires IsDiff(a, b, d) && IsDiff(a, b, e)
    ensures d == e
  {
    ByPathUnique(d.added, e.added);
    ByPathUnique(d.removed, e.removed);
    ByPathUnique(d.changed, e.changed);
    ByPathUnique(d.kept, e.kept);
  }

  /** The same paths with the same leaves. */
  predicate SameIndex(a: Index, b: Index) { a.Keys == b.Keys && forall p :: p in a ==> a[p].leaf == b[p].leaf }

  lemma NoRows(rows: seq<Row>, p: Row -> bool)
    requires forall r :: r in rows ==> p(r)
    ensures rows != [] ==> exists r :: p(r)
  {
    if rows != [] { assert p(rows[0]); }
  }

  lemma IdenticalExactly(a: Index, b: Index, d: Diff)
    requires IsDiff(a, b, d)
    ensures IsIdentical(d) <==> SameIndex(a, b)
  {
    if SameIndex(a, b) {
      NoRows(d.added, r => IsAdded(a, b, r));
      NoRows(d.removed, r => IsRemoved(a, b, r));
      NoRows(d.changed, r => IsChanged(a, b, r));
    }
    if IsIdentical(d) {
      forall p | p in a ensures p in b && a[p].leaf == b[p].leaf {
        var gone := Row(p, a[p].contentHash, None);
        assert IsRemoved(a, b, gone) ==> gone in d.removed;
        if p in b {
          var edit := Row(p, b[p].contentHash, Some(a[p].contentHash));
          assert IsChanged(a, b, edit) ==> edit in d.changed;
        }
      }
      forall p | p in b ensures p in a {
        var extra := Row(p, b[p].contentHash, None);
        assert IsAdded(a, b, extra) ==> extra in d.added;
      }
    }
  }

  function PathSet(rows: seq<Row>): set<RelPath> { set r | r in rows :: r.path }

  lemma {:induction false} PathSetSize(rows: seq<Row>)
    requires ByPath(rows)
    ensures |PathSet(rows)| == |rows|
  {
    if rows != [] {
      var n := |rows| - 1;
      PathSetSize(rows[..n]);
      assert PathSet(rows) == PathSet(rows[..n]) + {rows[n].path} by {
        assert rows == rows[..n] + [rows[n]];
      }
      forall r | r in rows[..n] ensures r.path != rows[n].path {
        var i :| 0 <= i < n && rows[i] == r;
        assert PathBefore(rows[i].path, rows[n].path);
      }
    }
  }

  lemma PathSetIs(rows: seq<Row>, paths: set<RelPath>)
    requires forall r :: r in rows ==> r.path in paths
    requires forall p :: p in paths ==> exists r :: r in rows && r.path == p
    ensures PathSet(rows) == paths
  {
  }

  lemma PathSetsOf(a: Index, b: Index, d: Diff)
    requires IsDiff(a, b, d)
    ensures PathSet(d.added) == b.Keys - a.Keys && PathSet(d.removed) == a.Keys - b.Keys
    ensures PathSet(d.changed) == set p | p in a && Edited(a, b, p)
    ensures PathSet(d.kept) == set p | p in a && Kept(a, b, p)
  {
    forall p | p in b.Keys - a.Keys ensures exists r :: r in d.added && r.path == p {
      assert IsAdded(a, b, Row(p, b[p].contentHash, None));
    }
    PathSetIs(d.added, b.Keys - a.Keys);
    forall p | p in a.Keys - b.Keys ensures exists r :: r in d.removed && r.path == p {
      assert IsRemoved(a, b, Row(p, a[p].contentHash, None));
    }
    PathSetIs(d.removed, a.Keys - b.Keys);
    forall p | p in a && Edited(a, b, p) ensures exists r :: r in d.changed && r.path == p {
      assert IsChanged(a, b, Row(p, b[p].contentHash, Some(a[p].contentHash)));
    }
    PathSetIs(d.changed, set p | p in a && Edited(a, b, p));
    forall p | p in a && Kept(a, b, p) ensures exists r :: r in d.kept && r.path == p {
      assert IsKept(a, b, Row(p, b[p].contentHash, None));
    }
    PathSetIs(d.kept, set p | p in a && Kept(a, b, p));
  }

  /** The four lists split both file lists with nothing lost and nothing counted twice. */
  lemma DiffCountsBothSides(a: Index, b: Index, d: Diff)
    requires IsDiff(a, b, d)
    ensures |a| == |d.kept| + |d.changed| + |d.removed|
    ensures |b| == |d.kept| + |d.changed| + |d.added|
  {
    PathSetsOf(a, b, d);
    PathSetSize(d.kept);
    PathSetSize(d.changed);
    PathSetSize(d.removed);
    PathSetSize(d.added);
    hide *;
    SidesSplit(a, b, PathSet(d.kept), PathSet(d.changed));
  }

  lemma SidesSplit(a: Index, b: Index, kept: set<RelPath>, changed: set<RelPath>)
    requires kept == set p | p in a && Kept(a, b, p)
    requires changed == set p | p in a && Edited(a, b, p)
    ensures |a| == |kept| + |changed| + |a.Keys - b.Keys|
    ensures |b| == |kept| + |changed| + |b.Keys - a.Keys|
  {
    assert |a| == |a.Keys| && |b| == |b.Keys|;
    SharedKeys(a, b, kept, changed);
    hide *;
    ThreeParts(kept, changed, a.Keys - b.Keys);
    ThreeParts(kept, changed, b.Keys - a.Keys);
  }

  lemma SharedKeys(a: Index, b: Index, kept: set<RelPath>, changed: set<RelPath>)
    requires kept == set p | p in a && Kept(a, b, p)
    requires changed == set p | p in a && Edited(a, b, p)
    ensures kept !! changed && kept !! (a.Keys - b.Keys) && changed !! (a.Keys - b.Keys)
    ensures kept !! (b.Keys - a.Keys) && changed !! (b.Keys - a.Keys)
    ensures kept + changed + (a.Keys - b.Keys) == a.Keys
    ensures kept + changed + (b.Keys - a.Keys) == b.Keys
  {
  }

  lemma ThreeParts(x: set<RelPath>, y: set<RelPath>, z: set<RelPath>)
    requires x !! y && x !! z && y !! z
    ensures |x + y + z| == |x| + |y| + |z|
  {
    assert (x + y) !! z;
  }

  // ---- seals ---------------------------------------------------------------------------------------

  datatype Manifest = Manifest(root: Digest, files: seq<FileLeaf>)

  predicate UniquePaths(files: seq<FileLeaf>) { forall i, j :: 0 <= i < j < |files| ==> files[i].path != files[j].path }

  predicate LeavesDerive(h: Hash, files: seq<FileLeaf>) {
    forall i :: 0 <= i < |files| ==> files[i].leaf == PathLeaf(h, files[i].path, files[i].contentHash)
  }

  /** What validateItemManifest demands: the recorded root is not re-derived. */
  predicate ValidManifest(h: Hash, m: Manifest) {
    m.files != [] && (forall i :: 0 <= i < |m.files| ==> m.files[i].path != []) && UniquePaths(m.files) &&
    LeavesDerive(h, m.files)
  }

  predicate SelfConsistent(h: Hash, m: Manifest)
    requires m.files != []
  {
    m.root == Root(h, LeafValues(m.files))
  }

  /** The part of a seal that ties its root to its files. */
  predicate Derives(h: Hash, s: Manifest) {
    s.files != [] && UniquePaths(s.files) && LeavesDerive(h, s.files) && SelfConsistent(h, s)
  }

  /** What validateSeal demands of a seal without a header. */
  predicate ValidSeal(h: Hash, s: Manifest) { ValidManifest(h, s) && SelfConsistent(h, s) }

  /** Without repeated paths the index is the list. */
  lemma {:induction false} IndexHolds(files: seq<FileLeaf>, f: FileLeaf)
    requires UniquePaths(files) && f in files
    ensures IndexOf(files)[f.path] == f
  {
    var n := |files| - 1;
    if f != files[n] {
      assert files == files[..n] + [files[n]];
      IndexHolds(files[..n], f);
      assert f in files[..n] && f.path != files[n].path;
    }
  }

  lemma IndexListed(files: seq<FileLeaf>, p: RelPath)
    ensures p in IndexOf(files) ==> exists i :: 0 <= i < |files| && files[i].path == p
  {
    if p in IndexOf(files) { assert IndexOf(files)[p] in files; }
  }

  lemma {:induction false} IndexSize(files: seq<FileLeaf>)
    requires UniquePaths(files)
    ensures |IndexOf(files)| == |files|
  {
    if files != [] {
      var n := |files| - 1;
      IndexSize(files[..n]);
      var m, p := IndexOf(files[..n]), files[n].path;
      IndexListed(files[..n], p);
      assert m[p := files[n]].Keys == m.Keys + {p};
    }
  }

  /** For seals the counts are file counts. */
  lemma {:induction false} SealCounts(h: Hash, s: Manifest, t: Manifest, d: Diff)
    requires ValidSeal(h, s) && ValidSeal(h, t) && IsDiff(IndexOf(s.files), IndexOf(t.files), d)
    ensures |s.files| == |d.kept| + |d.changed| + |d.removed|
    ensures |t.files| == |d.kept| + |d.changed| + |d.added|
  {
    hide IsDiff;
    IndexSize(s.files);
    IndexSize(t.files);
    DiffCountsBothSides(IndexOf(s.files), IndexOf(t.files), d);
  }

  datatype Keyed = Keyed(path: RelPath, leaf: Digest)

  function KeyedOf(f: FileLeaf): Keyed { Keyed(f.path, f.leaf) }

  lemma {:induction false} SameIndexSamePairs(s: seq<FileLeaf>, t: seq<FileLeaf>)
    requires UniquePaths(s) && UniquePaths(t) && SameIndex(IndexOf(s), IndexOf(t))
    ensures multiset(Map(s, KeyedOf)) == multiset(Map(t, KeyedOf))
  {
    var x, y := Map(s, KeyedOf), Map(t, KeyedOf);
    assert NoDuplicates(x) && NoDuplicates(y);
    forall k ensures k in x <==> k in y {
      if k in x {
        PairCarries(s, t, k);
      }
      if k in y {
        PairCarries(t, s, k);
      }
    }
    SameMembersSameMultiset(x, y);
  }

  lemma PairCarries(s: seq<FileLeaf>, t: seq<FileLeaf>, k: Keyed)
    requires UniquePaths(s) && UniquePaths(t) && SameIndex(IndexOf(s), IndexOf(t)) && k in Map(s, KeyedOf)
    ensures k in Map(t, KeyedOf)
  {
    var i :| 0 <= i < |s| && KeyedOf(s[i]) == k;
    assert s[i] in s;
    IndexHolds(s, s[i]);
    var f := IndexOf(t)[k.path];
    assert f in t;
    var j :| 0 <= j < |t| && t[j] == f;
    assert Map(t, KeyedOf)[j] == k;
  }

  /** The state the renderer calls unreachable is: no two valid seals have an empty change set
      and different roots. */
  lemma IdenticalSealsShareRoot(h: Hash, s: Manifest, t: Manifest, d: Diff)
    requires Derives(h, s) && Derives(h, t) && IsDiff(IndexOf(s.files), IndexOf(t.files), d) && IsIdentical(d)
    ensures s.root == t.root
  {
    IdenticalExactly(IndexOf(s.files), IndexOf(t.files), d);
    SameIndexSameRoot(h, s.files, t.files);
  }

  lemma {:induction false} SameIndexSameRoot(h: Hash, s: seq<FileLeaf>, t: seq<FileLeaf>)
    requires s != [] && t != [] && UniquePaths(s) && UniquePaths(t) && SameIndex(IndexOf(s), IndexOf(t))
    ensures Root(h, LeafValues(s)) == Root(h, LeafValues(t))
  {
    hide IndexOf;
    SameIndexSamePairs(s, t);
    var f := (k: Keyed) => k.leaf;
    MapPermutes(Map(s, KeyedOf), Map(t, KeyedOf), f);
    assert Map(Map(s, KeyedOf), f) == LeafValues(s) && Map(Map(t, KeyedOf), f) == LeafValues(t);
    RootForgetsOrder(h, LeafValues(s), LeafValues(t));
  }

  /** Everything hashed to derive a list's leaves and root. */
  function FileMessages(h: Hash, files: seq<FileLeaf>): set<Data> {
    (set f | f in files :: PathMessage(h, f.path, f.contentHash))
    + if files == [] then {} else TreeMessages(h, LeafValues(files))
  }

  predicate NormalPaths(files: seq<FileLeaf>) { forall i :: 0 <= i < |files| ==> NormalForm(files[i].path) }

  /** The same content at the same normalised paths. */
  ghost predicate SamePosixSet(s: seq<FileLeaf>, t: seq<FileLeaf>) {
    (forall i :: 0 <= i < |s| ==> HasPosix(t, s[i])) && (forall j :: 0 <= j < |t| ==> HasPosix(s, t[j]))
  }

  predicate HasPosix(t: seq<FileLeaf>, f: FileLeaf) {
    exists j :: 0 <= j < |t| && ToPosixRel(t[j].path) == ToPosixRel(f.path) && t[j].contentHash == f.contentHash
  }

  lemma {:induction false} LeafFoundIn(h: Hash, s: seq<FileLeaf>, t: seq<FileLeaf>, i: nat, seen: set<Data>)
    requires LeavesDerive(h, s) && LeavesDerive(h, t) && i < |s| && s[i].leaf in LeafValues(t)
    requires !Clash(h, seen) && s != [] && t != [] && FileMessages(h, s) + FileMessages(h, t) <= seen
    ensures HasPosix(t, s[i])
  {
    hide TreeMessages;
    hide PathMessage;
    var v := LeafValues(t);
    var j :| 0 <= j < |v| && v[j] == s[i].leaf;
    assert s[i] in s && t[j] in t;
    assert PathMessage(h, s[i].path, s[i].contentHash) in FileMessages(h, s);
    assert PathMessage(h, t[j].path, t[j].contentHash) in FileMessages(h, t);
    NoClash(h, seen, PathMessage(h, s[i].path, s[i].contentHash), PathMessage(h, t[j].path, t[j].contentHash));
    PathMessageInjective(h, s[i].path, s[i].contentHash, t[j].path, t[j].contentHash);
  }

  /** Equal roots of valid seals: the same content at the same normalised paths. */
  lemma {:induction false} SharedRootSharesFiles(h: Hash, s: Manifest, t: Manifest)
    requires Derives(h, s) && Derives(h, t) && s.root == t.root
    ensures SamePosixSet(s.files, t.files) || Clash(h, FileMessages(h, s.files) + FileMessages(h, t.files))
  {
    hide Root;
    hide HasPosix;
    hide TreeMessages;
    var v, w := LeafValues(s.files), LeafValues(t.files);
    var seen := FileMessages(h, s.files) + FileMessages(h, t.files);
    if !Clash(h, seen) {
      RootFixesSet(h, v, w);
      ClashMonotone(h, TreeMessages(h, v) + TreeMessages(h, w), seen);
      forall i | 0 <= i < |s.files| ensures HasPosix(t.files, s.files[i]) {
        assert v[i] in v;
        LeafFoundIn(h, s.files, t.files, i, seen);
      }
      forall j | 0 <= j < |t.files| ensures HasPosix(s.files, t.files[j]) {
        assert w[j] in w;
        LeafFoundIn(h, t.files, s.files, j, seen);
      }
    }
  }

  lemma PosixSetSameIndex(h: Hash, s: seq<FileLeaf>, t: seq<FileLeaf>)
    requires UniquePaths(s) && UniquePaths(t) && NormalPaths(s) && NormalPaths(t)
    requires LeavesDerive(h, s) && LeavesDerive(h, t) && SamePosixSet(s, t)
    ensures SameIndex(IndexOf(s), IndexOf(t))
  {
    hide IndexOf;
    hide HasPosix;
    hide PathLeaf;
    hide NormalForm;
    forall i | 0 <= i < |s| ensures s[i].path in IndexOf(t) && IndexOf(t)[s[i].path].leaf == s[i].leaf {
      PosixFound(h, s, t, i);
    }
    forall j | 0 <= j < |t| ensures t[j].path in IndexOf(s) { PosixFound(h, t, s, j); }
    var a, b := IndexOf(s), IndexOf(t);
    forall p | p in a ensures p in b && a[p].leaf == b[p].leaf {
      var i :| 0 <= i < |s| && s[i] == a[p];
    }
    forall p | p in b ensures p in a {
      var j :| 0 <= j < |t| && t[j] == b[p];
    }
  }

  lemma PosixFound(h: Hash, s: seq<FileLeaf>, t: seq<FileLeaf>, i: nat)
    requires UniquePaths(t) && NormalPaths(s) && NormalPaths(t) && LeavesDerive(h, s) && LeavesDerive(h, t)
    requires i < |s| && HasPosix(t, s[i])
    ensures s[i].path in IndexOf(t) && IndexOf(t)[s[i].path].leaf == s[i].leaf
  {
    hide PathLeaf;
    var j :| 0 <= j < |t| && ToPosixRel(t[j].path) == ToPosixRel(s[i].path) && t[j].contentHash == s[i].contentHash;
    NormalFormIsFixed(s[i].path);
    NormalFormIsFixed(t[j].path);
    assert t[j] in t;
    IndexHolds(t, t[j]);
  }

  /** Equal indexes list the same paths. */
  lemma SameIndexSameForm(s: seq<FileLeaf>, t: seq<FileLeaf>)
    requires SameIndex(IndexOf(s), IndexOf(t)) && NormalPaths(t)
    ensures NormalPaths(s)
  {
    hide IndexOf;
    hide NormalForm;
    forall i | 0 <= i < |s| ensures NormalForm(s[i].path) {
      assert s[i] in s;
      var f := IndexOf(t)[s[i].path];
      var j :| 0 <= j < |t| && t[j] == f;
    }
  }

  /** The change set agrees with the roots: against a seal over normal-form paths it is empty
      exactly when the roots are equal and the other seal's paths are in normal form too. */
  lemma {:induction false} IdenticalExactlySharedRoot(h: Hash, s: Manifest, t: Manifest, d: Diff)
    requires Derives(h, s) && Derives(h, t) && NormalPaths(t.files)
    requires IsDiff(IndexOf(s.files), IndexOf(t.files), d)
    ensures IsIdentical(d) ==> s.root == t.root && NormalPaths(s.files)
    ensures s.root == t.root && NormalPaths(s.files) ==>
              IsIdentical(d) || Clash(h, FileMessages(h, s.files) + FileMessages(h, t.files))
  {
    hide Root;
    hide IndexOf;
    hide SamePosixSet;
    hide IsDiff;
    hide FileMessages;
    hide NormalPaths;
    IdenticalExactly(IndexOf(s.files), IndexOf(t.files), d);
    if IsIdentical(d) {
      IdenticalSealsShareRoot(h, s, t, d);
      SameIndexSameForm(s.files, t.files);
    }
    if s.root == t.root && NormalPaths(s.files) && !Clash(h, FileMessages(h, s.files) + FileMessages(h, t.files)) {
      SharedRootSharesFiles(h, s, t);
      PosixSetSameIndex(h, s.files, t.files);
    }
  }

  function WithDotSlash(p: RelPath): (q: RelPath)
    ensures ToPosixRel(q) == p && |q| == |p| + 2
  {
    AsciiUtf8([DOT, SLASH]);
    WellFormedAppend([DOT, SLASH], p);
    [DOT, SLASH] + p
  }

  function SingleSeal(h: Hash, p: RelPath, c: Digest): Manifest {
    var leaf := PathLeaf(h, p, c);
    Manifest(Root(h, [leaf]), [FileLeaf(p, c, leaf)])
  }

  lemma SingleSealIsValid(h: Hash, p: RelPath, c: Digest)
    requires p != []
    ensures ValidSeal(h, SingleSeal(h, p, c))
  {
    hide Root;
    hide PathLeaf;
    var s := SingleSeal(h, p, c);
    assert LeafValues(s.files) == [s.files[0].leaf];
  }

  /** Normal form is needed: for every path and content, the seals of "./p" and of "p" are valid
      and share a root, while their change set removes one file and adds the other. */
  lemma DotSlashSealsShareRoot(h: Hash, p: RelPath, c: Digest, d: Diff)
    requires p != [] && NormalForm(p)
    requires IsDiff(IndexOf(SingleSeal(h, p, c).files), IndexOf(SingleSeal(h, WithDotSlash(p), c).files), d)
    ensures ValidSeal(h, SingleSeal(h, p, c)) && ValidSeal(h, SingleSeal(h, WithDotSlash(p), c))
    ensures SingleSeal(h, p, c).root == SingleSeal(h, WithDotSlash(p), c).root && !IsIdentical(d)
  {
    hide Root;
    hide IndexOf;
    hide IsDiff;
    hide ValidSeal;
    NormalFormIsFixed(p);
    SingleSealIsValid(h, p, c);
    SingleSealIsValid(h, WithDotSlash(p), c);
    var s, t := SingleSeal(h, p, c).files, SingleSeal(h, WithDotSlash(p), c).files;
    DifferentSingles(s[0], t[0]);
    IdenticalExactly(IndexOf(s), IndexOf(t), d);
  }

  lemma DifferentSingles(f: FileLeaf, g: FileLeaf)
    requires |f.path| != |g.path|
    ensures !SameIndex(IndexOf([f]), IndexOf([g]))
  {
    assert f.path in IndexOf([f]) && f.path !in IndexOf([g]);
  }
}
