/** cli/dataset.js: the licence-policy evaluator and the hint roll-up. */
module LicensePolicy {
  import opened Hashing
  import opened Text
  import opened Ordering
  import opened MerkleTree
  import opened CanonicalBytes
  import opened RuleOrder

  /** An absent list and an empty one mean the same. */
  datatype Policy = Policy(allowLicenses: seq<Text>, denyLicenses: seq<Text>,
                           allowSources: seq<Text>, denySources: seq<Text>, requireLicense: bool)

  datatype Rule = AllowLicenses | DenyLicenses | AllowSources | DenySources | RequireLicense
  datatype Violation = Violation(relPath: Text, rule: Rule, value: Text)
  datatype Report = Report(pass: bool, fileCount: nat, rulesEvaluated: nat, violations: seq<Violation>)

  function NoLicense(): Text { Ascii("(no license hint)") }

  function NoSource(): Text { Ascii("(no source hint)") }

  function Shown(hint: Option<Text>, sentinel: Text): Text { if hint.Some? then hint.value else sentinel }

  // ---- what the rules forbid -------------------------------------------------------------------

  /** An allow list takes a hint that is on it; an empty one takes everything. */
  predicate Admits(allow: seq<Text>, hint: Option<Text>) { allow == [] || (hint.Some? && hint.value in allow) }

  /** A deny list refuses only a hint that is present and on it. */
  predicate Denies(deny: seq<Text>, hint: Option<Text>) { hint.Some? && hint.value in deny }

  predicate Breaks(p: Policy, f: ManifestFile, r: Rule) {
    match r
    case RequireLicense => p.requireLicense && f.license.None?
    case AllowLicenses => !Admits(p.allowLicenses, f.license)
    case DenyLicenses => Denies(p.denyLicenses, f.license)
    case AllowSources => !Admits(p.allowSources, f.source)
    case DenySources => Denies(p.denySources, f.source)
  }

  function Value(f: ManifestFile, r: Rule): Text {
    match r
    case AllowSources => Shown(f.source, NoSource())
    case DenySources => Shown(f.source, NoSource())
    case _ => Shown(f.license, NoLicense())
  }

  /** v is a complaint about f: its path, a rule it breaks, and the value it broke it with. */
  predicate Complains(p: Policy, f: ManifestFile, v: Violation) {
    v.relPath == f.relPath && Breaks(p, f, v.rule) && v.value == Value(f, v.rule)
  }

  predicate Clean(p: Policy, f: ManifestFile) {
    (p.requireLicense ==> f.license.Some?) && Admits(p.allowLicenses, f.license) && !Denies(p.denyLicenses, f.license) &&
    Admits(p.allowSources, f.source) && !Denies(p.denySources, f.source)
  }

  predicate Violates(p: Policy, files: seq<ManifestFile>, v: Violation) {
    exists i :: 0 <= i < |files| && Complains(p, files[i], v)
  }

  predicate AllClean(p: Policy, files: seq<ManifestFile>) { forall i :: 0 <= i < |files| ==> Clean(p, files[i]) }

  // ---- order --------------------------------------------------------------------------------------

  function RuleName(r: Rule): Text {
    match r
    case AllowLicenses => Ascii("allowLicenses")
    case DenyLicenses => Ascii("denyLicenses")
    case AllowSources => Ascii("allowSources")
    case DenySources => Ascii("denySources")
    case RequireLicense => Ascii("requireLicense")
  }

  lemma RuleNamesDiffer(r: Rule, s: Rule)
    requires RuleName(r) == RuleName(s)
    ensures r == s
  {
    assert |RuleName(r)| == |RuleName(s)| && RuleName(r)[0] == RuleName(s)[0];
  }

  function KeyOf(v: Violation): SortKey { SortKey(v.relPath, RuleName(v.rule)) }

  /** Strictly in order by path, then by rule name: no two entries share both. */
  predicate StrictlySorted(vs: seq<Violation>) { StrictByKey(vs, KeyOf) }

  /** The rules in the order of their names: allowLicenses, allowSources, denyLicenses,
      denySources, requireLicense. */
  function Place(r: Rule): nat {
    match r
    case AllowLicenses => 0
    case AllowSources => 1
    case DenyLicenses => 2
    case DenySources => 3
    case RequireLicense => 4
  }

  /** By path first, then by rule. */
  predicate Precedes(v: Violation, w: Violation) {
    PathBefore(v.relPath, w.relPath) || (v.relPath == w.relPath && Place(v.rule) < Place(w.rule))
  }

  lemma RuleNamesAscend(r: Rule, s: Rule)
    requires TextLe(RuleName(r), RuleName(s))
    ensures Place(r) <= Place(s)
  {
    var x, y := RuleName(r), RuleName(s);
    assert x[0] <= y[0] by { if x[0] != y[0] { TextLeFirstDifference(x, y, 0); } }
    if x[0] == y[0] == 97 {
      assert x[..5] == [97, 108, 108, 111, 119] == y[..5];
      assert x[5] <= y[5] by { if x[5] != y[5] { TextLeFirstDifference(x, y, 5); } }
    } else if x[0] == y[0] == 100 {
      assert x[..4] == [100, 101, 110, 121] == y[..4];
      assert x[4] <= y[4] by { if x[4] != y[4] { TextLeFirstDifference(x, y, 4); } }
    }
  }

  lemma OrderInFull(vs: seq<Violation>)
    requires StrictlySorted(vs)
    ensures forall i, j :: 0 <= i < j < |vs| ==> Precedes(vs[i], vs[j])
  {
    hide RuleName;
    hide TextLe;
    forall i, j | 0 <= i < j < |vs| ensures Precedes(vs[i], vs[j]) {
      var v, w := vs[i], vs[j];
      assert KeyLe(KeyOf(v), KeyOf(w)) && KeyOf(v) != KeyOf(w);
      if v.relPath == w.relPath { RuleNamesAscend(v.rule, w.rule); }
    }
  }

  /** What a file is told off for, rule by rule, and with which value. */
  predicate Deserves(p: Policy, f: ManifestFile, v: Violation) {
    v.relPath == f.relPath &&
    match v.rule
    case RequireLicense => p.requireLicense && f.license == None && v.value == Ascii("(no license hint)")
    case AllowLicenses =>
      p.allowLicenses != [] &&
      ((f.license == None && v.value == Ascii("(no license hint)")) || (f.license == Some(v.value) && v.value !in p.allowLicenses))
    case DenyLicenses => f.license == Some(v.value) && v.value in p.denyLicenses
    case AllowSources =>
      p.allowSources != [] &&
      ((f.source == None && v.value == Ascii("(no source hint)")) || (f.source == Some(v.value) && v.value !in p.allowSources))
    case DenySources => f.source == Some(v.value) && v.value in p.denySources
  }

  lemma ComplaintInFull(p: Policy, f: ManifestFile, v: Violation)
    ensures Complains(p, f, v) <==> Deserves(p, f, v)
  {
  }

  lemma ViolationsInFull(p: Policy, files: seq<ManifestFile>, v: Violation)
    ensures Violates(p, files, v) <==> exists i :: 0 <= i < |files| && Deserves(p, files[i], v)
  {
    hide Complains;
    hide Deserves;
    forall i | 0 <= i < |files| ensures Complains(p, files[i], v) <==> Deserves(p, files[i], v) {
      ComplaintInFull(p, files[i], v);
    }
  }

  // ---- the evaluator ---------------------------------------------------------------------------------

  function One(p: Policy, f: ManifestFile, r: Rule): seq<Violation> {
    if Breaks(p, f, r) then [Violation(f.relPath, r, Value(f, r))] else []
  }

  /** One file's complaints, in the order the loop body pushes them. */
  function Complaints(p: Policy, f: ManifestFile): seq<Violation> {
    One(p, f, RequireLicense) + One(p, f, AllowLicenses) + One(p, f, DenyLicenses)
    + One(p, f, AllowSources) + One(p, f, DenySources)
  }

  /** No two entries share path and rule. */
  predicate Distinct(vs: seq<Violation>) {
    forall i, j :: 0 <= i < j < |vs| ==> vs[i].relPath != vs[j].relPath || vs[i].rule != vs[j].rule
  }

  lemma JoinKeys(x: seq<Violation>, y: seq<Violation>)
    requires Distinct(x) && Distinct(y)
    requires forall v, w :: v in x && w in y ==> v.relPath != w.relPath || v.rule != w.rule
    ensures Distinct(x + y) && forall v :: v in x + y <==> v in x || v in y
  {
    forall i, j | 0 <= i < j < |x + y|
      ensures (x + y)[i].relPath != (x + y)[j].relPath || (x + y)[i].rule != (x + y)[j].rule
    {
      if i < |x| <= j { assert x[i] in x && y[j - |x|] in y; }
    }
  }

  lemma OneExactly(p: Policy, f: ManifestFile, r: Rule)
    ensures Distinct(One(p, f, r))
    ensures forall v :: v in One(p, f, r) <==> v.rule == r && Complains(p, f, v)
  {
    hide Breaks;
    hide Value;
  }

  lemma {:induction false} ComplaintsExactly(p: Policy, f: ManifestFile)
    ensures Distinct(Complaints(p, f))
    ensures forall v :: v in Complaints(p, f) <==> Complains(p, f, v)
  {
    OneExactly(p, f, RequireLicense);
    OneExactly(p, f, AllowLicenses);
    OneExactly(p, f, DenyLicenses);
    OneExactly(p, f, AllowSources);
    OneExactly(p, f, DenySources);
    hide One;
    hide Complains;
    hide Distinct;
    var a, b, c, d, e := One(p, f, RequireLicense), One(p, f, AllowLicenses), One(p, f, DenyLicenses),
                         One(p, f, AllowSources), One(p, f, DenySources);
    JoinKeys(a, b);
    JoinKeys(a + b, c);
    JoinKeys(a + b + c, d);
    JoinKeys(a + b + c + d, e);
  }

  ghost predicate Found(out: seq<Violation>, p: Policy, files: seq<ManifestFile>) {
    Distinct(out) && forall v :: v in out <==> Violates(p, files, v)
  }

  lemma FoundStep(out: seq<Violation>, p: Policy, files: seq<ManifestFile>, i: nat)
    requires i < |files| && UniqueRelPaths(files) && Found(out, p, files[..i])
    ensures Found(out + Complaints(p, files[i]), p, files[..i + 1])
  {
    hide Breaks;
    hide Value;
    hide Complaints;
    hide Distinct;
    var f := files[i];
    var more := Complaints(p, f);
    ComplaintsExactly(p, f);
    forall v, w | v in out && w in more ensures v.relPath != w.relPath || v.rule != w.rule {
      assert Violates(p, files[..i], v);
    }
    JoinKeys(out, more);
    forall v ensures Violates(p, files[..i + 1], v) <==> Violates(p, files[..i], v) || Complains(p, f, v) {
      ViolatesStep(p, files, i, v);
    }
  }

  lemma ViolatesStep(p: Policy, files: seq<ManifestFile>, i: nat, v: Violation)
    requires i < |files|
    ensures Violates(p, files[..i + 1], v) <==> Violates(p, files[..i], v) || Complains(p, files[i], v)
  {
    hide Complains;
    var a, b := files[..i], files[..i + 1];
    assert forall j :: 0 <= j < i ==> a[j] == b[j];
    assert b[i] == files[i];
  }

  function RuleCount(p: Policy): nat {
    Indicator(p.allowLicenses != []) + Indicator(p.denyLicenses != []) + Indicator(p.allowSources != [])
    + Indicator(p.denySources != []) + Indicator(p.requireLicense)
  }

  method CountPolicyRules(p: Policy) returns (n: nat)
    ensures n == RuleCount(p)
  {
    n := 0;
    var lists := [p.allowLicenses, p.denyLicenses, p.allowSources, p.denySources];
    for i := 0 to |lists|
      invariant n == (if i > 0 then Indicator(lists[0] != []) else 0) + (if i > 1 then Indicator(lists[1] != []) else 0)
                     + (if i > 2 then Indicator(lists[2] != []) else 0) + if i > 3 then Indicator(lists[3] != []) else 0
    {
      if |lists[i]| > 0 { n := n + 1; }
    }
    if p.requireLicense { n := n + 1; }
  }

  /** evaluatePolicy on a manifest's files. */
  method EvaluatePolicy(files: seq<ManifestFile>, p: Policy) returns (r: Report)
    requires UniqueRelPaths(files)
    ensures r.pass <==> AllClean(p, files)
    ensures StrictlySorted(r.violations) && forall v :: v in r.violations <==> Violates(p, files, v)
    ensures r.fileCount == |files| && r.rulesEvaluated == RuleCount(p)
    ensures r.pass <==> r.violations == []
    ensures forall v :: v in r.violations <==> exists i :: 0 <= i < |files| && Deserves(p, files[i], v)
    ensures forall i, j :: 0 <= i < j < |r.violations| ==> Precedes(r.violations[i], r.violations[j])
  {
    hide Breaks;
    hide Value;
    hide Complaints;
    hide Distinct;
    hide Violates;
    hide Sort;
    hide RuleCount;
    hide Clean;
    hide Deserves;
    hide Precedes;
    var violations: seq<Violation> := [];
    NothingFound(p);
    for i := 0 to |files|
      invariant Found(violations, p, files[..i])
    {
      FoundStep(violations, p, files, i);
      violations := violations + Complaints(p, files[i]);
    }
    assert files[..|files|] == files;
    KeysDiffer(violations);
    SortByKey(violations, KeyOf);
    var sorted := Sort(violations, ByKey(KeyOf));
    PassExactly(p, files, sorted);
    OrderInFull(sorted);
    forall v ensures Violates(p, files, v) <==> exists i :: 0 <= i < |files| && Deserves(p, files[i], v) {
      ViolationsInFull(p, files, v);
    }
    var rules := CountPolicyRules(p);
    r := Report(sorted == [], |files|, rules, sorted);
  }

  lemma NothingFound(p: Policy)
    ensures Found([], p, [])
  {
  }

  lemma KeysDiffer(vs: seq<Violation>)
    requires Distinct(vs)
    ensures DistinctKeys(vs, KeyOf)
  {
    hide RuleName;
    forall i, j | 0 <= i < j < |vs| ensures KeyOf(vs[i]) != KeyOf(vs[j]) {
      if KeyOf(vs[i]) == KeyOf(vs[j]) { RuleNamesDiffer(vs[i].rule, vs[j].rule); }
    }
  }

  /** A file is clean exactly when no rule is broken. */
  lemma CleanExactly(p: Policy, f: ManifestFile)
    ensures Clean(p, f) <==> forall r :: !Breaks(p, f, r)
  {
    hide Admits;
    hide Denies;
    if forall r :: !Breaks(p, f, r) {
      assert !Breaks(p, f, RequireLicense) && !Breaks(p, f, AllowLicenses) && !Breaks(p, f, DenyLicenses);
      assert !Breaks(p, f, AllowSources) && !Breaks(p, f, DenySources);
    }
  }

  lemma PassExactly(p: Policy, files: seq<ManifestFile>, vs: seq<Violation>)
    requires forall v :: v in vs <==> Violates(p, files, v)
    ensures vs == [] <==> AllClean(p, files)
  {
    hide Breaks;
    hide Clean;
    hide Value;
    if vs != [] {
      assert vs[0] in vs;
      var i :| 0 <= i < |files| && Complains(p, files[i], vs[0]);
      CleanExactly(p, files[i]);
    } else {
      forall i | 0 <= i < |files| ensures Clean(p, files[i]) {
        var f := files[i];
        CleanExactly(p, f);
        forall r ensures !Breaks(p, f, r) {
          var v := Violation(f.relPath, r, Value(f, r));
          assert Breaks(p, f, r) ==> Complains(p, f, v);
          assert Complains(p, files[i], v) ==> Violates(p, files, v);
        }
      }
    }
  }

  // ---- properties of the verdict -----------------------------------------------------------------------

  /** The order of the files does not show: rearranged files give the same violation list. */
  lemma FileOrderDoesNotShow(p: Policy, a: seq<ManifestFile>, b: seq<ManifestFile>, x: seq<Violation>, y: seq<Violation>)
    requires multiset(a) == multiset(b)
    requires StrictlySorted(x) && forall v :: v in x <==> Violates(p, a, v)
    requires StrictlySorted(y) && forall v :: v in y <==> Violates(p, b, v)
    ensures x == y
  {
    hide Complains;
    MultisetMembers(a, b);
    forall v ensures Violates(p, a, v) <==> Violates(p, b, v) {
      if Violates(p, a, v) {
        var i :| 0 <= i < |a| && Complains(p, a[i], v);
        assert a[i] in b;
      }
      if Violates(p, b, v) {
        var i :| 0 <= i < |b| && Complains(p, b[i], v);
        assert b[i] in a;
      }
    }
    StrictByKeyUnique(x, y, KeyOf);
  }

  predicate Within(x: seq<Text>, y: seq<Text>) { forall t :: t in x ==> t in y }

  /** q tightens p: longer deny lists, shorter allow lists that are not emptied, and a kept
      requirement. */
  predicate Tightens(p: Policy, q: Policy) {
    Within(p.denyLicenses, q.denyLicenses) && Within(p.denySources, q.denySources) &&
    (p.allowLicenses != [] ==> q.allowLicenses != [] && Within(q.allowLicenses, p.allowLicenses)) &&
    (p.allowSources != [] ==> q.allowSources != [] && Within(q.allowSources, p.allowSources)) &&
    (p.requireLicense ==> q.requireLicense)
  }

  /** Tightening only adds violations. */
  lemma TighteningOnlyAdds(p: Policy, q: Policy, files: seq<ManifestFile>, v: Violation)
    requires Tightens(p, q) && Violates(p, files, v)
    ensures Violates(q, files, v)
  {
    var i :| 0 <= i < |files| && Complains(p, files[i], v);
    BreaksMore(p, q, files[i], v.rule);
    assert Complains(q, files[i], v);
  }

  lemma BreaksMore(p: Policy, q: Policy, f: ManifestFile, r: Rule)
    requires Tightens(p, q) && Breaks(p, f, r)
    ensures Breaks(q, f, r)
  {
  }

  /** Shrinking the licence allow list keeps every violation of every file list exactly when it
      is not emptied, or was empty before: an emptied list disables the rule. */
  lemma ShrinkingAllowExactly(p: Policy, shorter: seq<Text>)
    requires Within(shorter, p.allowLicenses)
    ensures (forall files, v :: Violates(p, files, v) ==> Violates(p.(allowLicenses := shorter), files, v))
            <==> shorter != [] || p.allowLicenses == []
  {
    var q := p.(allowLicenses := shorter);
    if shorter != [] || p.allowLicenses == [] {
      forall files, v | Violates(p, files, v) ensures Violates(q, files, v) { TighteningOnlyAdds(p, q, files, v); }
    } else {
      var f := ManifestFile([], [], [], None, None);
      var v := Violation([], AllowLicenses, NoLicense());
      assert Complains(p, [f][0], v) && Violates(p, [f], v);
      assert !Complains(q, f, v);
      assert !Violates(q, [f], v);
    }
  }

  /** And so for sources. */
  lemma ShrinkingSourcesExactly(p: Policy, shorter: seq<Text>)
    requires Within(shorter, p.allowSources)
    ensures (forall files, v :: Violates(p, files, v) ==> Violates(p.(allowSources := shorter), files, v))
            <==> shorter != [] || p.allowSources == []
  {
    var q := p.(allowSources := shorter);
    if shorter != [] || p.allowSources == [] {
      forall files, v | Violates(p, files, v) ensures Violates(q, files, v) { TighteningOnlyAdds(p, q, files, v); }
    } else {
      var f := ManifestFile([], [], [], None, None);
      var v := Violation([], AllowSources, NoSource());
      assert Complains(p, [f][0], v) && Violates(p, [f], v);
      assert !Complains(q, f, v);
      assert !Violates(q, [f], v);
    }
  }

  // ---- the roll-up -----------------------------------------------------------------------------------------

  type Histogram = map<Text, nat>

  datatype Summary = Summary(fileCount: nat, licenses: Histogram, sources: Histogram,
                             filesWithLicenseHint: nat, filesWithSourceHint: nat)

  function Keys(hints: seq<Option<Text>>, sentinel: Text): (r: seq<Text>)
    ensures |r| == |hints|
  {
    Map(hints, (x: Option<Text>) => Shown(x, sentinel))
  }

  /** The histogram has a bucket for each key that occurs, and the bucket holds its count. */
  ghost predicate Counts(m: Histogram, keys: seq<Text>) {
    forall k :: (k in m <==> k in multiset(keys)) && (k in m ==> m[k] == multiset(keys)[k])
  }

  function Bump(m: Histogram, k: Text): Histogram { m[k := (if k in m then m[k] else 0) + 1] }

  lemma BumpCounts(m: Histogram, keys: seq<Text>, k: Text)
    requires Counts(m, keys)
    ensures Counts(Bump(m, k), keys + [k])
  {
    assert multiset(keys + [k]) == multiset(keys) + multiset{k};
  }

  function Licenses(files: seq<ManifestFile>): seq<Option<Text>> { Map(files, (f: ManifestFile) => f.license) }

  function Sources(files: seq<ManifestFile>): seq<Option<Text>> { Map(files, (f: ManifestFile) => f.source) }

  /** How many entries of a list are present. */
  function Present(hints: seq<Option<Text>>): nat { multiset(Map(hints, (x: Option<Text>) => x.Some?))[true] }

  lemma PresentSnoc(hints: seq<Option<Text>>, x: Option<Text>)
    ensures Present(hints + [x]) == Present(hints) + if x.Some? then 1 else 0
  {
    var f := (y: Option<Text>) => y.Some?;
    assert Map(hints + [x], f) == Map(hints, f) + [x.Some?];
  }

  lemma KeysSnoc(hints: seq<Option<Text>>, x: Option<Text>, sentinel: Text)
    ensures Keys(hints + [x], sentinel) == Keys(hints, sentinel) + [Shown(x, sentinel)]
  {
  }

  /** aggregateManifest. */
  method AggregateManifest(files: seq<ManifestFile>) returns (r: Summary)
    ensures r.fileCount == |files|
    ensures Counts(r.licenses, Keys(Licenses(files), NoLicense()))
    ensures Counts(r.sources, Keys(Sources(files), NoSource()))
    ensures r.filesWithLicenseHint == Present(Licenses(files)) && r.filesWithSourceHint == Present(Sources(files))
  {
    hide Counts;
    hide Present;
    hide Keys;
    hide Bump;
    var licenses: Histogram, sources: Histogram := map[], map[];
    var withLicense, withSource := 0, 0;
    NothingCounted();
    for i := 0 to |files|
      invariant Counts(licenses, Keys(Licenses(files[..i]), NoLicense()))
      invariant Counts(sources, Keys(Sources(files[..i]), NoSource()))
      invariant withLicense == Present(Licenses(files[..i])) && withSource == Present(Sources(files[..i]))
    {
      var license, source := files[i].license, files[i].source;
      var ls, ss := Licenses(files[..i]), Sources(files[..i]);
      assert Licenses(files[..i + 1]) == ls + [license] && Sources(files[..i + 1]) == ss + [source];
      KeysSnoc(ls, license, NoLicense());
      KeysSnoc(ss, source, NoSource());
      BumpCounts(licenses, Keys(ls, NoLicense()), Shown(license, NoLicense()));
      BumpCounts(sources, Keys(ss, NoSource()), Shown(source, NoSource()));
      PresentSnoc(ls, license);
      PresentSnoc(ss, source);
      licenses := Bump(licenses, Shown(license, NoLicense()));
      sources := Bump(sources, Shown(source, NoSource()));
      if license.Some? { withLicense := withLicense + 1; }
      if source.Some? { withSource := withSource + 1; }
    }
    assert files[..|files|] == files;
    r := Summary(|files|, licenses, sources, withLicense, withSource);
  }

  lemma NothingCounted()
    ensures Counts(map[], Keys(Licenses([]), NoLicense())) && Counts(map[], Keys(Sources([]), NoSource()))
    ensures Present(Licenses([])) == 0 && Present(Sources([])) == 0
  {
    assert Keys(Licenses([]), NoLicense()) == [] && Keys(Sources([]), NoSource()) == [];
  }

  ghost function Total(m: Histogram): nat
    decreases |m|
  {
    if m == map[] then 0
    else
      var k :| k in m;
      m[k] + Total(m - {k})
  }

  lemma {:induction false} TotalIsSize(m: Histogram, keys: multiset<Text>)
    requires forall k :: (k in m <==> k in keys) && (k in m ==> m[k] == keys[k])
    ensures Total(m) == |keys|
    decreases |m|
  {
    if m == map[] {
      assert keys == multiset{};
    } else {
      var k :| k in m && Total(m) == m[k] + Total(m - {k});
      var rest := keys[k := 0];
      assert forall j :: j in m - {k} <==> j in m && j != k;
      TotalIsSize(m - {k}, rest);
      assert keys == rest[k := keys[k]];
    }
  }

  /** No file is dropped from a histogram and none is counted twice: buckets sum to the count. */
  lemma BucketsSumToFiles(m: Histogram, hints: seq<Option<Text>>, sentinel: Text)
    requires Counts(m, Keys(hints, sentinel))
    ensures Total(m) == |hints|
  {
    TotalIsSize(m, multiset(Keys(hints, sentinel)));
  }

  /** The no-hint bucket counts the files without a hint, and also any file whose hint is the
      sentinel text itself: it is exact precisely when no hint is spelled like the sentinel. */
  lemma {:induction false} NoHintBucketExactly(hints: seq<Option<Text>>, sentinel: Text)
    ensures forall k :: k != sentinel ==> multiset(Keys(hints, sentinel))[k] == multiset(hints)[Some(k)]
    ensures multiset(Keys(hints, sentinel))[sentinel] == (|hints| - Present(hints)) + multiset(hints)[Some(sentinel)]
    ensures multiset(Keys(hints, sentinel))[sentinel] == |hints| - Present(hints) <==> Some(sentinel) !in hints
  {
    if hints != [] {
      var n := |hints| - 1;
      var front, x := hints[..n], hints[n];
      assert hints == front + [x];
      NoHintBucketExactly(front, sentinel);
      KeysSnoc(front, x, sentinel);
      PresentSnoc(front, x);
      assert multiset(Keys(hints, sentinel)) == multiset(Keys(front, sentinel)) + multiset{Shown(x, sentinel)};
      assert multiset(hints) == multiset(front) + multiset{x};
    }
    assert Some(sentinel) in hints <==> multiset(hints)[Some(sentinel)] > 0;
  }
}
