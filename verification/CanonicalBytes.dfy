/** cli/dataset.js canonicalManifestFiles: the bytes a manifest digest and an attestation are
    taken over, and why they stand for the committed set. */
module CanonicalBytes {
  import opened Hashing
  import opened Text
  import opened Ordering
  import opened MerkleTree
  import opened Json

  /** A manifest entry as its JSON strings, with the untrusted hints. */
  datatype ManifestFile = ManifestFile(relPath: Text, contentHash: Text, leaf: Text, license: Option<Text>, source: Option<Text>)

  /** The part the root commits to. */
  datatype Committed = Committed(relPath: Text, contentHash: Text, leaf: Text)

  function Commit(f: ManifestFile): Committed { Committed(f.relPath, f.contentHash, f.leaf) }

  predicate UniqueRelPaths(files: seq<ManifestFile>) {
    forall i, j :: 0 <= i < j < |files| ==> files[i].relPath != files[j].relPath
  }

  /** What the manifest reader checks as it goes: one more entry keeps paths unique exactly when its
      path is new. */
  lemma UniqueOneMore(files: seq<ManifestFile>, f: ManifestFile)
    ensures UniqueRelPaths([])
    ensures UniqueRelPaths(files + [f]) <==> UniqueRelPaths(files) && forall i :: 0 <= i < |files| ==> files[i].relPath != f.relPath
  {
    var more := files + [f];
    assert forall i :: 0 <= i < |files| ==> more[i] == files[i];
    if UniqueRelPaths(more) {
      forall i | 0 <= i < |files| ensures files[i].relPath != f.relPath { assert more[i].relPath != more[|files|].relPath; }
    }
  }

  // ---- printing ----------------------------------------------------------------------------------

  const CLOSE_OBJECT: CodeUnit := 125

  function PathKey(): (t: Text)
    ensures forall i :: 0 <= i < |t| ==> t[i] < 128
  {
    Ascii("{\"relPath\":")
  }

  function HashKey(): (t: Text)
    ensures forall i :: 0 <= i < |t| ==> t[i] < 128
  {
    Ascii(",\"contentHash\":")
  }

  function LeafKey(): (t: Text)
    ensures forall i :: 0 <= i < |t| ==> t[i] < 128
  {
    Ascii(",\"leaf\":")
  }

  function PrintEntry(e: Committed): (t: Text)
    ensures |t| > 0
  {
    PathKey() + Quote(e.relPath) + HashKey() + Quote(e.contentHash) + LeafKey() + Quote(e.leaf) + [CLOSE_OBJECT]
  }

  /** The entries after the first, each led by a comma, up to the bracket. */
  function PrintMore(es: seq<Committed>): (t: Text)
    ensures t != []
  {
    if es == [] then [CLOSE] else [COMMA] + PrintEntry(es[0]) + PrintMore(es[1..])
  }

  function PrintFiles(es: seq<Committed>): Text {
    if es == [] then [OPEN, CLOSE] else [OPEN] + PrintEntry(es[0]) + PrintMore(es[1..])
  }

  function ByRelPath(x: Committed, y: Committed): bool { TextLe(x.relPath, y.relPath) }

  /** canonicalManifestFiles. */
  function CanonicalFiles(files: seq<ManifestFile>): Text { PrintFiles(Sort(Map(files, Commit), ByRelPath)) }

  // ---- reading -------------------------------------------------------------------------------------

  /** A key followed by a string, and what follows that. */
  function ReadKeyed(key: Text, t: Text): (r: Option<(Text, Text)>)
    ensures r.Some? ==> |r.value.1| < |t|
  {
    if !(key + [QUOTE] <= t) then None else ReadString(t[|key| + 1..])
  }

  function ReadEntry(t: Text): (r: Option<(Committed, Text)>)
    ensures r.Some? ==> |r.value.1| < |t|
  {
    match ReadKeyed(PathKey(), t)
    case None => None
    case Some((p, t1)) =>
      match ReadKeyed(HashKey(), t1)
      case None => None
      case Some((c, t2)) =>
        match ReadKeyed(LeafKey(), t2)
        case None => None
        case Some((l, t3)) =>
          if t3 == [] || t3[0] != CLOSE_OBJECT then None else Some((Committed(p, c, l), t3[1..]))
  }

  function ReadMore(t: Text): Option<seq<Committed>>
    decreases |t|
  {
    if t == [CLOSE] then Some([])
    else if t == [] || t[0] != COMMA then None
    else
      match ReadEntry(t[1..])
      case None => None
      case Some((e, after)) =>
        match ReadMore(after)
        case None => None
        case Some(es) => Some([e] + es)
  }

  function ReadFiles(t: Text): Option<seq<Committed>> {
    if t == [OPEN, CLOSE] then Some([])
    else if t == [] || t[0] != OPEN then None
    else
      match ReadEntry(t[1..])
      case None => None
      case Some((e, after)) =>
        match ReadMore(after)
        case None => None
        case Some(es) => Some([e] + es)
  }

  lemma ReadPrintedKeyed(key: Text, s: Text, rest: Text)
    ensures ReadKeyed(key, key + Quote(s) + rest) == Some((s, rest))
  {
    hide ReadString;
    var t := key + Quote(s) + rest;
    assert t[|key|] == QUOTE && t[..|key| + 1] == key + [QUOTE];
    assert t[|key| + 1..] == Escape(s) + [QUOTE] + rest;
    ReadEscaped(s, rest);
  }

  lemma ReadPrintedEntry(e: Committed, rest: Text)
    ensures ReadEntry(PrintEntry(e) + rest) == Some((e, rest))
  {
    hide ReadKeyed;
    hide Quote;
    var end := [CLOSE_OBJECT] + rest;
    var c := LeafKey() + Quote(e.leaf) + end;
    var b := HashKey() + Quote(e.contentHash) + c;
    assert PrintEntry(e) + rest == PathKey() + Quote(e.relPath) + b;
    ReadPrintedKeyed(PathKey(), e.relPath, b);
    ReadPrintedKeyed(HashKey(), e.contentHash, c);
    ReadPrintedKeyed(LeafKey(), e.leaf, end);
    assert end[1..] == rest;
  }

  lemma {:induction false} ReadPrintedMore(es: seq<Committed>)
    ensures ReadMore(PrintMore(es)) == Some(es)
  {
    hide ReadEntry;
    hide PrintEntry;
    if es != [] {
      var t, rest := PrintMore(es), PrintMore(es[1..]);
      ReadPrintedMore(es[1..]);
      ReadPrintedEntry(es[0], rest);
      assert t[1..] == PrintEntry(es[0]) + rest;
      assert |t| > 1;
      assert [es[0]] + es[1..] == es;
    }
  }

  /** The reader undoes the printer. */
  lemma {:induction false} ReadPrintedFiles(es: seq<Committed>)
    ensures ReadFiles(PrintFiles(es)) == Some(es)
  {
    hide ReadEntry;
    hide PrintEntry;
    hide PrintMore;
    if es != [] {
      var t, rest := PrintFiles(es), PrintMore(es[1..]);
      ReadPrintedMore(es[1..]);
      ReadPrintedEntry(es[0], rest);
      assert t[1..] == PrintEntry(es[0]) + rest;
      assert |t| > 2;
      assert [es[0]] + es[1..] == es;
    }
  }

  // ---- faithfulness --------------------------------------------------------------------------------

  lemma ByRelPathIsPreorder()
    ensures TotalPreorder(ByRelPath)
  {
    forall x: Committed, y: Committed ensures ByRelPath(x, y) || ByRelPath(y, x) { TextLeTotal(x.relPath, y.relPath); }
    forall x: Committed, y: Committed, z: Committed | ByRelPath(x, y) && ByRelPath(y, z) ensures ByRelPath(x, z) {
      TextLeTransitive(x.relPath, y.relPath, z.relPath);
    }
  }

  function CommittedSet(files: seq<ManifestFile>): set<Committed> { set f | f in files :: Commit(f) }

  lemma CommittedSetMembers(files: seq<ManifestFile>, e: Committed)
    ensures e in CommittedSet(files) <==> e in Map(files, Commit)
  {
    if e in CommittedSet(files) {
      var f :| f in files && Commit(f) == e;
      var i :| 0 <= i < |files| && files[i] == f;
      assert Map(files, Commit)[i] == e;
    }
  }

  /** Equal strings exactly for equal committed sets, whatever the order of entries and whatever
      their hints. */
  lemma {:induction false} CanonicalExactly(a: seq<ManifestFile>, b: seq<ManifestFile>)
    requires UniqueRelPaths(a) && UniqueRelPaths(b)
    ensures CanonicalFiles(a) == CanonicalFiles(b) <==> CommittedSet(a) == CommittedSet(b)
  {
    hide Sort;
    hide PrintFiles;
    hide ReadFiles;
    var x, y := Map(a, Commit), Map(b, Commit);
    forall e ensures (e in CommittedSet(a) <==> e in x) && (e in CommittedSet(b) <==> e in y) {
      CommittedSetMembers(a, e);
      CommittedSetMembers(b, e);
    }
    if CanonicalFiles(a) == CanonicalFiles(b) {
      ReadPrintedFiles(Sort(x, ByRelPath));
      ReadPrintedFiles(Sort(y, ByRelPath));
      MultisetMembers(x, Sort(x, ByRelPath));
      MultisetMembers(y, Sort(y, ByRelPath));
      assert CommittedSet(a) == CommittedSet(b);
    }
    if CommittedSet(a) == CommittedSet(b) { SameSetSameText(a, b); }
  }

  lemma {:induction false} SameSetSameText(a: seq<ManifestFile>, b: seq<ManifestFile>)
    requires UniqueRelPaths(a) && UniqueRelPaths(b)
    requires forall e :: e in Map(a, Commit) <==> e in Map(b, Commit)
    ensures CanonicalFiles(a) == CanonicalFiles(b)
  {
    hide Sort;
    hide PrintFiles;
    var x, y := Map(a, Commit), Map(b, Commit);
    SameMembersSameMultiset(x, y);
    ByRelPathIsPreorder();
    forall e, f | e in x && f in x && ByRelPath(e, f) && ByRelPath(f, e) ensures e == f {
      var i :| 0 <= i < |x| && x[i] == e;
      var j :| 0 <= j < |x| && x[j] == f;
      TextLeAntisymmetric(e.relPath, f.relPath);
      assert a[i].relPath == a[j].relPath;
    }
    SortForgetsOrder(x, y, ByRelPath);
  }

  /** The canonical text in full: every committed triple once, strictly ascending by path, in one
      compact array. */
  lemma {:induction false} CanonicalInFull(files: seq<ManifestFile>) returns (es: seq<Committed>)
    requires UniqueRelPaths(files)
    ensures CanonicalFiles(files) == PrintFiles(es) && |es| == |files|
    ensures forall i, j :: 0 <= i < j < |es| ==> PathBefore(es[i].relPath, es[j].relPath)
    ensures forall e :: e in es <==> exists i :: 0 <= i < |files| && IsTriple(files[i], e)
  {
    hide PrintFiles;
    var x := Map(files, Commit);
    es := Sort(x, ByRelPath);
    ByRelPathIsPreorder();
    SortSorted(x, ByRelPath);
    MultisetMembers(x, es);
    MapPermutes(x, es, PathOf);
    assert NoDuplicates(Map(x, PathOf));
    NoDuplicatesPermute(Map(x, PathOf), Map(es, PathOf));
    hide Sort;
    forall i, j | 0 <= i < j < |es| ensures PathBefore(es[i].relPath, es[j].relPath) {
      assert ByRelPath(es[i], es[j]) && Map(es, PathOf)[i] != Map(es, PathOf)[j];
    }
    TriplesOf(files, x);
  }

  lemma TriplesOf(files: seq<ManifestFile>, x: seq<Committed>)
    requires x == Map(files, Commit)
    ensures forall e :: e in x <==> exists i :: 0 <= i < |files| && IsTriple(files[i], e)
  {
    forall e ensures e in x <==> exists i :: 0 <= i < |files| && IsTriple(files[i], e) {
      if e in x {
        var i :| 0 <= i < |x| && x[i] == e;
        assert IsTriple(files[i], e);
      }
      if i :| 0 <= i < |files| && IsTriple(files[i], e) { assert x[i] == e; }
    }
  }

  /** The triple of an entry, hints left out. */
  predicate IsTriple(f: ManifestFile, e: Committed) {
    e.relPath == f.relPath && e.contentHash == f.contentHash && e.leaf == f.leaf
  }

  function PathOf(e: Committed): Text { e.relPath }

  /** The compact layout: an object per entry with its three keys in fixed order, commas between. */
  lemma LayoutInFull(e: Committed)
    ensures PrintEntry(e) == Ascii("{\"relPath\":") + Quote(e.relPath) + Ascii(",\"contentHash\":") + Quote(e.contentHash)
                             + Ascii(",\"leaf\":") + Quote(e.leaf) + [125]
    ensures PrintFiles([]) == [91, 93] && PrintFiles([e]) == [91] + PrintEntry(e) + [93]
  {
    assert [e][1..] == [];
    hide Quote;
  }

  /** One more entry at the end goes between a comma and the closing bracket. */
  lemma {:induction false} CommasInFull(es: seq<Committed>, e: Committed)
    requires es != []
    ensures PrintFiles(es)[|PrintFiles(es)| - 1] == 93
    ensures PrintFiles(es + [e]) == PrintFiles(es)[..|PrintFiles(es)| - 1] + [44] + PrintEntry(e) + [93]
  {
    hide PrintEntry;
    MoreAtEnd(es[1..], e);
    assert (es + [e])[1..] == es[1..] + [e];
    var front, tail := [OPEN] + PrintEntry(es[0]), PrintMore(es[1..]);
    assert PrintFiles(es) == front + tail;
    assert (front + tail)[..|front + tail| - 1] == front + tail[..|tail| - 1];
    assert PrintFiles(es + [e]) == front + PrintMore(es[1..] + [e]);
  }

  lemma {:induction false} MoreAtEnd(es: seq<Committed>, e: Committed)
    ensures PrintMore(es)[|PrintMore(es)| - 1] == 93
    ensures PrintMore(es + [e]) == PrintMore(es)[..|PrintMore(es)| - 1] + [44] + PrintEntry(e) + [93]
  {
    hide PrintEntry;
    if es == [] {
      assert es + [e] == [e] && [e][1..] == [];
      assert PrintMore([e]) == [44] + PrintEntry(e) + [93];
    } else {
      MoreAtEnd(es[1..], e);
      assert (es + [e])[1..] == es[1..] + [e];
      var front, tail := [COMMA] + PrintEntry(es[0]), PrintMore(es[1..]);
      assert PrintMore(es) == front + tail;
      assert (front + tail)[..|front + tail| - 1] == front + tail[..|tail| - 1];
    }
  }

  // ---- the digest ------------------------------------------------------------------------------------

  lemma WellFormedQuote(s: Text)
    ensures WellFormed(Quote(s))
  {
    WellFormedScalar(Str(s));
  }

  lemma WellFormedThree(a: Text, b: Text, c: Text)
    requires WellFormed(a) && WellFormed(b) && WellFormed(c)
    ensures WellFormed(a + b + c)
  {
    WellFormedAppend(a, b);
    WellFormedAppend(a + b, c);
  }

  lemma {:induction false} WellFormedKeys()
    ensures WellFormed(PathKey()) && WellFormed(HashKey()) && WellFormed(LeafKey()) && WellFormed([CLOSE_OBJECT])
  {
    hide WellFormed;
    hide PathKey;
    hide HashKey;
    hide LeafKey;
    AsciiUtf8(PathKey());
    AsciiUtf8(HashKey());
    AsciiUtf8(LeafKey());
    AsciiUtf8([CLOSE_OBJECT]);
  }

  lemma WellFormedEntry(e: Committed)
    ensures WellFormed(PrintEntry(e))
  {
    hide Quote;
    hide WellFormed;
    hide PathKey;
    hide HashKey;
    hide LeafKey;
    WellFormedKeys();
    WellFormedQuote(e.relPath);
    WellFormedQuote(e.contentHash);
    WellFormedQuote(e.leaf);
    var p := PathKey() + Quote(e.relPath) + HashKey();
    var q := p + Quote(e.contentHash) + LeafKey();
    WellFormedThree(PathKey(), Quote(e.relPath), HashKey());
    WellFormedThree(p, Quote(e.contentHash), LeafKey());
    WellFormedThree(q, Quote(e.leaf), [CLOSE_OBJECT]);
    assert PrintEntry(e) == q + Quote(e.leaf) + [CLOSE_OBJECT];
  }

  lemma {:induction false} WellFormedMore(es: seq<Committed>)
    ensures WellFormed(PrintMore(es))
  {
    hide PrintEntry;
    AsciiUtf8([COMMA]);
    AsciiUtf8([CLOSE]);
    if es != [] {
      WellFormedEntry(es[0]);
      WellFormedMore(es[1..]);
      WellFormedThree([COMMA], PrintEntry(es[0]), PrintMore(es[1..]));
    }
  }

  lemma WellFormedFiles(es: seq<Committed>)
    ensures WellFormed(PrintFiles(es))
  {
    hide PrintEntry;
    AsciiUtf8([OPEN, CLOSE]);
    AsciiUtf8([OPEN]);
    if es != [] {
      WellFormedEntry(es[0]);
      WellFormedMore(es[1..]);
      WellFormedThree([OPEN], PrintEntry(es[0]), PrintMore(es[1..]));
    }
  }

  function CanonicalMessage(files: seq<ManifestFile>): Data {
    WellFormedFiles(Sort(Map(files, Commit), ByRelPath));
    Utf8(CanonicalFiles(files))
  }

  function ManifestDigest(h: Hash, files: seq<ManifestFile>): Digest { h(CanonicalMessage(files)) }

  /** One committed set has one digest, and any edit, rename, addition or removal shows in it. */
  lemma {:induction false} DigestExactly(h: Hash, a: seq<ManifestFile>, b: seq<ManifestFile>)
    requires UniqueRelPaths(a) && UniqueRelPaths(b)
    ensures CommittedSet(a) == CommittedSet(b) ==> ManifestDigest(h, a) == ManifestDigest(h, b)
    ensures ManifestDigest(h, a) == ManifestDigest(h, b) ==>
              CommittedSet(a) == CommittedSet(b) || Clash(h, {CanonicalMessage(a), CanonicalMessage(b)})
  {
    hide CanonicalFiles;
    hide CommittedSet;
    hide UniqueRelPaths;
    CanonicalExactly(a, b);
    var seen := {CanonicalMessage(a), CanonicalMessage(b)};
    CanonicalText(a);
    CanonicalText(b);
    if ManifestDigest(h, a) == ManifestDigest(h, b) && !Clash(h, seen) {
      NoClash(h, seen, CanonicalMessage(a), CanonicalMessage(b));
      Utf8Injective(CanonicalFiles(a), CanonicalFiles(b));
    }
  }

  lemma {:induction false} CanonicalText(files: seq<ManifestFile>)
    ensures WellFormed(CanonicalFiles(files)) && CanonicalMessage(files) == Utf8(CanonicalFiles(files))
  {
    WellFormedFiles(Sort(Map(files, Commit), ByRelPath));
  }

  // ---- digests behind the spellings --------------------------------------------------------------------

  function LowerUnit(u: CodeUnit): CodeUnit { if 65 <= u <= 90 then u + 32 else u }

  /** Only A to Z move, each to its small letter. */
  lemma LowerUnitInFull(i: nat, u: CodeUnit)
    requires i < 26
    ensures LowerUnit(65 + i) == 97 + i
    ensures u < 65 || u > 90 ==> LowerUnit(u) == u
  {
  }

  /** toLowerCase on hex text, through which the source compares hashes. */
  function LowerCase(t: Text): (r: Text)
    ensures |r| == |t|
  {
    Map(t, LowerUnit)
  }

  /** The text is one of the spellings of the digest. */
  predicate Spells(t: Text, d: Digest) { LowerCase(t) == Hex(d) }

  lemma {:induction false} HexBytesLower(d: Data)
    ensures forall i :: 0 <= i < |HexBytes(d)| ==> LowerUnit(HexBytes(d)[i]) == HexBytes(d)[i]
  {
    if d != [] { HexBytesLower(d[1..]); }
  }

  /** The lower-case spelling is the one the program itself writes. */
  lemma LowerSpelling(t: Text, d: Digest)
    requires Spells(t, d)
    ensures LowerCase(t) == t <==> t == Hex(d)
    ensures Spells(Hex(d), d)
  {
    HexBytesLower(Word(d));
    assert LowerCase(Hex(d)) == Hex(d);
  }

  /** A manifest entry by the digests its hashes name. */
  datatype Value = Value(relPath: Text, contentHash: Digest, leaf: Digest)

  predicate Names(f: ManifestFile, v: Value) {
    f.relPath == v.relPath && Spells(f.contentHash, v.contentHash) && Spells(f.leaf, v.leaf)
  }

  predicate Lists(files: seq<ManifestFile>, values: seq<Value>) {
    |files| == |values| && forall i :: 0 <= i < |files| ==> Names(files[i], values[i])
  }

  predicate SameValues(x: seq<Value>, y: seq<Value>) { (forall v :: v in x ==> v in y) && forall v :: v in y ==> v in x }

  /** Entries of one path are written with the same letters. */
  predicate SpelledAlike(a: seq<ManifestFile>, b: seq<ManifestFile>) {
    forall i, j :: 0 <= i < |a| && 0 <= j < |b| && a[i].relPath == b[j].relPath ==> Commit(a[i]) == Commit(b[j])
  }

  lemma AlikeCarries(a: seq<ManifestFile>, b: seq<ManifestFile>, x: seq<Value>, y: seq<Value>)
    requires Lists(a, x) && Lists(b, y) && SameValues(x, y) && SpelledAlike(a, b)
    ensures CommittedSet(a) <= CommittedSet(b)
  {
    hide Spells;
    forall f | f in a ensures Commit(f) in CommittedSet(b) {
      var i :| 0 <= i < |a| && a[i] == f;
      assert Names(a[i], x[i]) && x[i] in x;
      var j :| 0 <= j < |y| && y[j] == x[i];
      assert Names(b[j], y[j]) && b[j] in b;
    }
  }

  lemma SetCarriesSpelling(a: seq<ManifestFile>, b: seq<ManifestFile>)
    requires UniqueRelPaths(b) && CommittedSet(a) <= CommittedSet(b)
    ensures SpelledAlike(a, b)
  {
    forall i, j | 0 <= i < |a| && 0 <= j < |b| && a[i].relPath == b[j].relPath ensures Commit(a[i]) == Commit(b[j]) {
      assert Commit(a[i]) in CommittedSet(a);
      var g :| g in b && Commit(g) == Commit(a[i]);
      var k :| 0 <= k < |b| && b[k] == g;
      assert k == j;
    }
  }

  /** The same committed values have the same canonical bytes exactly when they are spelled alike:
      the canonical form keeps whatever case the manifest uses. */
  lemma {:induction false} SameValuesSameTextExactly(a: seq<ManifestFile>, b: seq<ManifestFile>, x: seq<Value>, y: seq<Value>)
    requires UniqueRelPaths(a) && UniqueRelPaths(b) && Lists(a, x) && Lists(b, y) && SameValues(x, y)
    ensures CanonicalFiles(a) == CanonicalFiles(b) <==> SpelledAlike(a, b)
  {
    hide CanonicalFiles;
    hide Spells;
    hide CommittedSet;
    hide UniqueRelPaths;
    hide Lists;
    CanonicalExactly(a, b);
    if SpelledAlike(a, b) {
      AlikeSymmetric(a, b);
      AlikeCarries(a, b, x, y);
      AlikeCarries(b, a, y, x);
    } else if CommittedSet(a) == CommittedSet(b) {
      SetCarriesSpelling(a, b);
    }
  }

  lemma AlikeSymmetric(a: seq<ManifestFile>, b: seq<ManifestFile>)
    requires SpelledAlike(a, b)
    ensures SpelledAlike(b, a)
  {
  }

  predicate AllLower(files: seq<ManifestFile>) {
    forall i :: 0 <= i < |files| ==> LowerCase(files[i].contentHash) == files[i].contentHash && LowerCase(files[i].leaf) == files[i].leaf
  }

  lemma LowerIsHex(f: ManifestFile, v: Value)
    requires Names(f, v) && LowerCase(f.contentHash) == f.contentHash && LowerCase(f.leaf) == f.leaf
    ensures Commit(f) == Committed(v.relPath, Hex(v.contentHash), Hex(v.leaf))
  {
  }

  lemma LowerCarries(a: seq<ManifestFile>, b: seq<ManifestFile>, x: seq<Value>, y: seq<Value>)
    requires Lists(a, x) && Lists(b, y) && AllLower(a) && AllLower(b)
    ensures CommittedSet(a) <= CommittedSet(b) <==> forall v :: v in x ==> v in y
  {
    hide Spells;
    hide Hex;
    hide LowerCase;
    forall i | 0 <= i < |a| ensures Commit(a[i]) == Committed(x[i].relPath, Hex(x[i].contentHash), Hex(x[i].leaf)) {
      LowerIsHex(a[i], x[i]);
    }
    forall j | 0 <= j < |b| ensures Commit(b[j]) == Committed(y[j].relPath, Hex(y[j].contentHash), Hex(y[j].leaf)) {
      LowerIsHex(b[j], y[j]);
    }
    if CommittedSet(a) <= CommittedSet(b) {
      forall v | v in x ensures v in y {
        var i :| 0 <= i < |x| && x[i] == v;
        assert a[i] in a && Commit(a[i]) in CommittedSet(b);
        var g :| g in b && Commit(g) == Commit(a[i]);
        var j :| 0 <= j < |b| && b[j] == g;
        HexInjective(x[i].contentHash, y[j].contentHash);
        HexInjective(x[i].leaf, y[j].leaf);
      }
    }
    if forall v :: v in x ==> v in y {
      forall f | f in a ensures Commit(f) in CommittedSet(b) {
        var i :| 0 <= i < |a| && a[i] == f;
        assert x[i] in x;
        var j :| 0 <= j < |y| && y[j] == x[i];
        assert b[j] in b;
      }
    }
  }

  /** Over digest values, for manifests spelled in lower case as the program writes them: the same
      committed set always yields the same digest, and any other yields another. */
  lemma {:induction false} DigestOverValues(h: Hash, a: seq<ManifestFile>, b: seq<ManifestFile>, x: seq<Value>, y: seq<Value>)
    requires UniqueRelPaths(a) && UniqueRelPaths(b) && Lists(a, x) && Lists(b, y) && AllLower(a) && AllLower(b)
    ensures SameValues(x, y) ==> ManifestDigest(h, a) == ManifestDigest(h, b)
    ensures ManifestDigest(h, a) == ManifestDigest(h, b) ==>
              SameValues(x, y) || Clash(h, {CanonicalMessage(a), CanonicalMessage(b)})
  {
    hide CommittedSet;
    hide UniqueRelPaths;
    hide Lists;
    hide AllLower;
    hide CanonicalMessage;
    LowerCarries(a, b, x, y);
    LowerCarries(b, a, y, x);
    DigestExactly(h, a, b);
  }
}
