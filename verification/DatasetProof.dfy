/** cli/dataset.js: membership proofs off a manifest, their offline check, and the verify
    verdict next to the per-file diff. */
module DatasetProof {
  import opened Hashing
  import opened Text
  import opened Ordering
  import opened MerkleTree
  import opened MerkleTheorems
  import opened MerkleBinding
  import opened DirectoryRoot
  import opened Streaming
  import opened ManifestDiff

  datatype Artifact = Artifact(root: Digest, leaf: Digest, contentHash: Digest, relPath: RelPath, proof: seq<Digest>)

  /** recomputeFold's offlineOk. */
  predicate Confirmed(h: Hash, a: Artifact) {
    a.leaf == PathLeaf(h, a.relPath, a.contentHash) && VerifyLeaf(h, a.root, a.leaf, a.proof)
  }

  datatype FoldResult = FoldResult(leafMatches: bool, foldsToRoot: bool, computedRoot: Digest, confirmed: bool)

  /** runDatasetVerifyProof over recomputeFold. */
  method VerifyProof(h: Hash, a: Artifact) returns (r: FoldResult)
    ensures r.confirmed <==> Confirmed(h, a)
    ensures r.confirmed <==> r.leafMatches && r.foldsToRoot
    ensures r.foldsToRoot <==> r.computedRoot == a.root
    ensures r.leafMatches <==> a.leaf == PathLeaf(h, a.relPath, a.contentHash)
    ensures r.computedRoot == Fold(h, LeafHash(h, a.leaf), a.proof)
  {
    var leafMatches := PathLeaf(h, a.relPath, a.contentHash) == a.leaf;
    var computed := FoldProof(h, a.leaf, a.proof);
    r := FoldResult(leafMatches, computed == a.root, computed, leafMatches && computed == a.root);
  }

  // ---- prove ----------------------------------------------------------------------------------

  datatype ProofResult = NonMember | Member(index: nat, artifact: Artifact) | InconsistentManifest

  /** sortedLeaves.findIndex, for a leaf that is there. */
  method FindLeaf(sortedLeaves: seq<Digest>, leaf: Digest) returns (index: nat)
    requires exists i :: 0 <= i < |sortedLeaves| && sortedLeaves[i] == leaf
    ensures index < |sortedLeaves| && sortedLeaves[index] == leaf && forall j :: 0 <= j < index ==> sortedLeaves[j] != leaf
  {
    index := 0;
    while sortedLeaves[index] != leaf
      invariant 0 <= index < |sortedLeaves| && forall j :: 0 <= j < index ==> sortedLeaves[j] != leaf
      decreases |sortedLeaves| - index
    {
      index := index + 1;
    }
  }

  predicate HasContent(files: seq<FileLeaf>, contentHash: Digest) {
    exists i :: 0 <= i < |files| && files[i].contentHash == contentHash
  }

  /** buildDatasetProof.  A member is found exactly when some entry has the file's content hash;
      every artifact is confirmed offline; a manifest whose root is not the root of its leaves
      never yields one.  The "not found in its own tree" failure cannot happen. */
  method BuildDatasetProof(h: Hash, content: Data, m: Manifest) returns (r: ProofResult)
    requires ValidManifest(h, m)
    ensures r.NonMember? <==> !HasContent(m.files, h(content))
    ensures r.InconsistentManifest? <==> HasContent(m.files, h(content)) && !SelfConsistent(h, m)
    ensures r.Member? ==> Confirmed(h, r.artifact)
    ensures r.Member? ==> r.index < |m.files| && !HasContent(m.files[..r.index], h(content))
    ensures r.Member? ==> r.artifact.root == m.root && r.artifact.contentHash == h(content)
    ensures r.Member? ==> m.files[r.index] == FileLeaf(r.artifact.relPath, r.artifact.contentHash, r.artifact.leaf)
  {
    hide PathLeaf;
    hide VerifyLeaf;
    hide Root;
    hide Layers;
    hide ProofFor;
    hide Linked;
    var contentHash := HashFileStream(h, content);
    var k := 0;
    while k < |m.files| && m.files[k].contentHash != contentHash
      invariant 0 <= k <= |m.files| && forall j :: 0 <= j < k ==> m.files[j].contentHash != contentHash
    {
      k := k + 1;
    }
    if k == |m.files| { return NonMember; }
    var entry := m.files[k];
    var leaves := LeafValues(m.files);
    var built := BuildTree(h, leaves);
    if built.value.root != m.root { return InconsistentManifest; }
    var sortedLeaves := built.value.sortedLeaves;
    LeafIsSorted(leaves, k);
    var index := FindLeaf(sortedLeaves, entry.leaf);
    var proof := ProofForIndex(h, built.value.layers, index);
    ProofsAreComplete(h, leaves, index);
    r := Member(k, Artifact(m.root, entry.leaf, entry.contentHash, entry.path, proof));
  }

  lemma LeafIsSorted(leaves: seq<Digest>, k: nat)
    requires k < |leaves|
    ensures exists i :: 0 <= i < |SortLeaves(leaves)| && SortLeaves(leaves)[i] == leaves[k]
  {
    MultisetMembers(leaves, SortLeaves(leaves));
    assert leaves[k] in leaves;
    assert leaves[k] in SortLeaves(leaves);
  }

  /** Everything hashed by a manifest and by the check of an artifact against it. */
  function ArtifactMessages(h: Hash, m: Manifest, a: Artifact): set<Data> {
    FileMessages(h, m.files) + ProofMessages(h, a.leaf, a.proof) + {PathMessage(h, a.relPath, a.contentHash)}
  }

  /** Whatever artifact is confirmed against the root of a self-consistent manifest, whoever made
      it: the manifest lists that content at that (normalised) path. */
  lemma ConfirmedIsListed(h: Hash, m: Manifest, a: Artifact)
    requires ValidManifest(h, m) && SelfConsistent(h, m) && a.root == m.root && Confirmed(h, a)
    ensures (exists f :: f in m.files && ToPosixRel(f.path) == ToPosixRel(a.relPath) && f.contentHash == a.contentHash) ||
            Clash(h, ArtifactMessages(h, m, a))
  {
    hide PathMessage;
    hide VerifyLeaf;
    hide Root;
    hide TreeMessages;
    hide ProofMessages;
    hide ToPosixRel;
    var seen := ArtifactMessages(h, m, a);
    var leaves := LeafValues(m.files);
    ProofsAreSound(h, leaves, a.leaf, a.proof);
    ClashMonotone(h, TreeMessages(h, leaves) + ProofMessages(h, a.leaf, a.proof), seen);
    if !Clash(h, seen) {
      assert a.leaf in leaves;
      var i :| 0 <= i < |leaves| && leaves[i] == a.leaf;
      var f := m.files[i];
      assert f in m.files && f.leaf == PathLeaf(h, f.path, f.contentHash);
      assert PathMessage(h, f.path, f.contentHash) in FileMessages(h, m.files);
      NoClash(h, seen, PathMessage(h, f.path, f.contentHash), PathMessage(h, a.relPath, a.contentHash));
      PathMessageInjective(h, f.path, f.contentHash, a.relPath, a.contentHash);
    }
  }

  /** From bytes to bytes: an artifact confirmed against the root of a directory, for a file whose
      bytes hash to the artifact's content hash, shows that the directory holds those very bytes
      at that path. */
  lemma {:induction false} ConfirmedBytesAreInDataset(h: Hash, entries: seq<Entry>, a: Artifact, content: Data)
    requires FileSet(entries) && a.root == HashEntries(h, entries).value.root && a.contentHash == h(content)
    requires Confirmed(h, a)
    ensures Entry(ToPosixRel(a.relPath), content) in entries ||
            Clash(h, EntryMessages(h, entries) + ProofMessages(h, a.leaf, a.proof)
                     + {PathMessage(h, a.relPath, a.contentHash), content})
  {
    hide PathMessage;
    hide VerifyLeaf;
    hide Root;
    hide TreeMessages;
    hide ProofMessages;
    hide EntryMessages;
    var leaves := LeafValues(LeavesOf(h, entries));
    var seen := EntryMessages(h, entries) + ProofMessages(h, a.leaf, a.proof)
                + {PathMessage(h, a.relPath, a.contentHash), content};
    TreeAmongEntries(h, entries);
    ProofsAreSound(h, leaves, a.leaf, a.proof);
    ClashMonotone(h, TreeMessages(h, leaves) + ProofMessages(h, a.leaf, a.proof), seen);
    if !Clash(h, seen) {
      assert a.leaf in leaves;
      var i :| 0 <= i < |leaves| && leaves[i] == a.leaf;
      var e := entries[i];
      NormalFormIsFixed(e.path);
      EntryMessagesOf(h, entries, e);
      NoClash(h, seen, PathMessage(h, e.path, h(e.content)), PathMessage(h, a.relPath, a.contentHash));
      PathMessageInjective(h, e.path, h(e.content), a.relPath, a.contentHash);
      NoClash(h, seen, e.content, content);
    }
  }

  lemma TreeAmongEntries(h: Hash, entries: seq<Entry>)
    ensures TreeMessages(h, LeafValues(LeavesOf(h, entries))) <= EntryMessages(h, entries)
  {
  }

  // ---- verify -------------------------------------------------------------------------------------

  datatype VerifyResult = VerifyResult(isMatch: bool, diff: Diff)

  /** runDatasetVerify: the verdict is root against root; the diff only says where.  A directory
      with no files is refused. */
  method RunDatasetVerify(h: Hash, m: Manifest, walked: seq<Entry>) returns (r: Option<VerifyResult>)
    requires ValidManifest(h, m)
    ensures r.None? <==> walked == []
    ensures r.Some? ==> (r.value.isMatch <==> HashEntries(h, walked).value.root == m.root)
    ensures r.Some? ==> IsDiff(IndexOf(m.files), IndexOf(HashEntries(h, walked).value.leaves), r.value.diff)
  {
    var built := HashDirStream(h, walked);
    if built.None? { return None; }
    var diff := DiffManifest(m.files, built.value.leaves);
    r := Some(VerifyResult(built.value.root == m.root, diff));
  }

  /** The manifest a fresh walk would write. */
  function Fresh(h: Hash, walked: seq<Entry>): Manifest
    requires walked != []
  {
    var built := HashEntries(h, walked).value;
    Manifest(built.root, built.leaves)
  }

  lemma {:induction false} FreshLeaves(h: Hash, walked: seq<Entry>)
    requires FileSet(walked)
    ensures multiset(Fresh(h, walked).files) == multiset(LeavesOf(h, walked))
    ensures forall f :: f in Fresh(h, walked).files ==> f in LeavesOf(h, walked)
  {
    hide Root;
    MultisetMembers(Fresh(h, walked).files, LeavesOf(h, walked));
  }

  lemma FreshUnique(h: Hash, walked: seq<Entry>)
    requires FileSet(walked)
    ensures UniquePaths(Fresh(h, walked).files)
  {
    hide Root;
    hide PathLeaf;
    var path := (f: FileLeaf) => f.path;
    var p, q := LeavesOf(h, walked), Fresh(h, walked).files;
    FreshLeaves(h, walked);
    forall i | 0 <= i < |walked| ensures p[i].path == walked[i].path {
      assert walked[i] in walked;
      NormalFormIsFixed(walked[i].path);
    }
    assert NoDuplicates(Map(p, path));
    MapPermutes(p, q, path);
    NoDuplicatesPermute(Map(p, path), Map(q, path));
    forall i, j | 0 <= i < j < |q| ensures q[i].path != q[j].path {
      assert Map(q, path)[i] != Map(q, path)[j];
    }
  }

  lemma {:induction false} FreshFile(h: Hash, walked: seq<Entry>, f: FileLeaf)
    requires FileSet(walked) && f in Fresh(h, walked).files
    ensures NormalForm(f.path) && f.leaf == PathLeaf(h, f.path, f.contentHash)
  {
    hide PathLeaf;
    FreshLeaves(h, walked);
    hide Fresh;
    var p := LeavesOf(h, walked);
    var k :| 0 <= k < |p| && p[k] == f;
    assert walked[k] in walked;
    NormalFormIsFixed(walked[k].path);
  }

  lemma {:induction false} FreshRoot(h: Hash, walked: seq<Entry>)
    requires FileSet(walked)
    ensures Fresh(h, walked).files != [] && Fresh(h, walked).root == Root(h, LeafValues(Fresh(h, walked).files))
  {
    hide Root;
    FreshLeaves(h, walked);
    var p, q := LeavesOf(h, walked), Fresh(h, walked).files;
    MapPermutes(p, q, LeafValue);
    RootForgetsOrder(h, LeafValues(p), LeafValues(q));
  }

  /** What a walk produces is a root over its files, at normal-form paths. */
  lemma {:induction false} FreshIsSound(h: Hash, walked: seq<Entry>)
    requires FileSet(walked)
    ensures Derives(h, Fresh(h, walked)) && NormalPaths(Fresh(h, walked).files)
  {
    hide Root;
    hide PathLeaf;
    hide NormalForm;
    hide Fresh;
    var files := Fresh(h, walked).files;
    FreshUnique(h, walked);
    FreshRoot(h, walked);
    forall i | 0 <= i < |files|
      ensures NormalForm(files[i].path)
      ensures files[i].leaf == PathLeaf(h, files[i].path, files[i].contentHash)
    {
      assert files[i] in files;
      FreshFile(h, walked, files[i]);
    }
  }

  /** For a self-consistent manifest the diff is empty exactly when the verdict is MATCH and every
      listed path is in normal form. */
  lemma {:induction false} MatchExactlyIdentical(h: Hash, m: Manifest, walked: seq<Entry>, d: Diff)
    requires ValidManifest(h, m) && SelfConsistent(h, m) && FileSet(walked)
    requires IsDiff(IndexOf(m.files), IndexOf(Fresh(h, walked).files), d)
    ensures IsIdentical(d) ==> Fresh(h, walked).root == m.root && NormalPaths(m.files)
    ensures Fresh(h, walked).root == m.root && NormalPaths(m.files) ==>
              IsIdentical(d) || Clash(h, FileMessages(h, m.files) + FileMessages(h, Fresh(h, walked).files))
  {
    hide Fresh;
    hide IsDiff;
    hide FileMessages;
    hide NormalPaths;
    FreshIsSound(h, walked);
    IdenticalExactlySharedRoot(h, m, Fresh(h, walked), d);
  }

  /** The case the second condition is for: a self-consistent manifest that lists "./p", verified
      against a directory that holds p with the same bytes, is a MATCH with a non-empty diff. */
  lemma {:induction false} DotSlashMatchesWithDiff(h: Hash, p: RelPath, content: Data, d: Diff)
    requires p != [] && NormalForm(p)
    requires IsDiff(IndexOf(SingleSeal(h, WithDotSlash(p), h(content)).files), IndexOf(Fresh(h, [Entry(p, content)]).files), d)
    ensures var m := SingleSeal(h, WithDotSlash(p), h(content));
            ValidManifest(h, m) && SelfConsistent(h, m) && Fresh(h, [Entry(p, content)]).root == m.root && !IsIdentical(d)
  {
    hide Root;
    hide IndexOf;
    hide IsDiff;
    hide ValidManifest;
    hide Fresh;
    NormalFormIsFixed(p);
    SingleSealIsValid(h, WithDotSlash(p), h(content));
    FreshSingle(h, p, content);
    var s, t := SingleSeal(h, WithDotSlash(p), h(content)).files, SingleSeal(h, p, h(content)).files;
    DifferentSingles(s[0], t[0]);
    IdenticalExactly(IndexOf(s), IndexOf(t), d);
  }

  /** Walking a directory of one file writes the manifest of that file. */
  lemma {:induction false} FreshSingle(h: Hash, p: RelPath, content: Data)
    requires NormalForm(p)
    ensures FileSet([Entry(p, content)]) && Fresh(h, [Entry(p, content)]) == SingleSeal(h, p, h(content))
  {
    hide Root;
    hide PathLeaf;
    NormalFormIsFixed(p);
    var walked := [Entry(p, content)];
    var leaves := LeavesOf(h, walked);
    assert leaves == [FileLeaf(p, h(content), PathLeaf(h, p, h(content)))];
    assert LeafValues(leaves) == [PathLeaf(h, p, h(content))];
    assert Sort(leaves[1..], ByLeaf) == [];
  }

  /** Whatever the manifest: on an empty diff the verdict is MATCH exactly when the manifest is
      self-consistent.  So an edited root over untouched files is the first way to disagree. */
  lemma {:induction false} IdenticalMatchesExactly(h: Hash, m: Manifest, walked: seq<Entry>, d: Diff)
    requires ValidManifest(h, m) && FileSet(walked)
    requires IsDiff(IndexOf(m.files), IndexOf(Fresh(h, walked).files), d) && IsIdentical(d)
    ensures Fresh(h, walked).root == m.root <==> SelfConsistent(h, m)
  {
    hide Root;
    hide IsDiff;
    hide IndexOf;
    FreshUnique(h, walked);
    FreshRoot(h, walked);
    IdenticalExactly(IndexOf(m.files), IndexOf(Fresh(h, walked).files), d);
    SameIndexSameRoot(h, m.files, Fresh(h, walked).files);
  }

  /** The second way: the true root over any other valid file list is a MATCH with a non-empty
      diff.  Over normal-form paths such a manifest is never self-consistent, unless a collision
      shows. */
  lemma {:induction false} MatchWithoutIdentical(h: Hash, files: seq<FileLeaf>, walked: seq<Entry>, d: Diff)
    requires FileSet(walked) && ValidManifest(h, Manifest(Fresh(h, walked).root, files))
    requires !SameIndex(IndexOf(files), IndexOf(Fresh(h, walked).files))
    requires IsDiff(IndexOf(files), IndexOf(Fresh(h, walked).files), d)
    ensures !IsIdentical(d)
    ensures NormalPaths(files) ==>
              !SelfConsistent(h, Manifest(Fresh(h, walked).root, files)) ||
              Clash(h, FileMessages(h, files) + FileMessages(h, Fresh(h, walked).files))
  {
    hide Fresh;
    hide IsDiff;
    hide FileMessages;
    hide IndexOf;
    hide Root;
    var m := Manifest(Fresh(h, walked).root, files);
    IdenticalExactly(IndexOf(files), IndexOf(Fresh(h, walked).files), d);
    if SelfConsistent(h, m) { MatchExactlyIdentical(h, m, walked, d); }
  }
}
