/** cli/evidence.js: the drift-policy gate over a change set. */
module DriftPolicy {
  import opened Hashing
  import opened Text
  import opened Ordering
  import opened MerkleTree
  import opened DirectoryRoot
  import opened ManifestDiff
  import opened RuleOrder

  /** An absent list and an empty one mean the same. */
  datatype Policy = Policy(noAdded: bool, noRemoved: bool, noChanged: bool,
                           allowChangePaths: seq<Text>, frozenPaths: seq<Text>)

  datatype Rule = NoAdded | NoRemoved | NoChanged | AllowChangePaths | FrozenPaths
  datatype ChangeKind = Added | Removed | Changed
  datatype Violation = Violation(relPath: RelPath, rule: Rule, change: ChangeKind)
  datatype Report = Report(pass: bool, rulesEvaluated: nat, violations: seq<Violation>)

  /** validateDriftPolicy refuses an empty prefix. */
  predicate PolicyOk(p: Policy) {
    (forall i :: 0 <= i < |p.allowChangePaths| ==> p.allowChangePaths[i] != []) &&
    (forall i :: 0 <= i < |p.frozenPaths| ==> p.frozenPaths[i] != [])
  }

  // ---- prefixes ---------------------------------------------------------------------------------

  function Trimmed(prefix: Text): Text {
    if prefix != [] && prefix[|prefix| - 1] == SLASH then prefix[..|prefix| - 1] else prefix
  }

  predicate UnderPrefix(relPath: Text, prefix: Text) {
    var p := Trimmed(prefix);
    relPath == p || p + [SLASH] <= relPath
  }

  predicate UnderAny(relPath: Text, prefixes: seq<Text>) {
    exists i :: 0 <= i < |prefixes| && UnderPrefix(relPath, prefixes[i])
  }

  /** A prefix takes a path only at a segment boundary, and one trailing slash on it is moot. */
  lemma UnderPrefixIsSegmentAware(relPath: Text, prefix: Text)
    requires prefix != [] && prefix[|prefix| - 1] != SLASH
    ensures UnderPrefix(relPath, prefix + [SLASH]) == UnderPrefix(relPath, prefix)
    ensures UnderPrefix(relPath, prefix)
            <==> prefix <= relPath && (|relPath| == |prefix| || relPath[|prefix|] == SLASH)
  {
    assert Trimmed(prefix + [SLASH]) == prefix;
    if prefix <= relPath && |relPath| > |prefix| {
      assert relPath[..|prefix| + 1] == prefix + [relPath[|prefix|]];
    }
  }

  // ---- rule order ----------------------------------------------------------------------------------

  function RuleName(r: Rule): Text {
    match r
    case NoAdded => Ascii("noAdded")
    case NoRemoved => Ascii("noRemoved")
    case NoChanged => Ascii("noChanged")
    case AllowChangePaths => Ascii("allowChangePaths")
    case FrozenPaths => Ascii("frozenPaths")
  }

  lemma RuleNamesDiffer(r: Rule, s: Rule)
    requires RuleName(r) == RuleName(s)
    ensures r == s
  {
    assert RuleName(r)[0] == RuleName(s)[0];
    assert |RuleName(r)| == |RuleName(s)|;
    assert |RuleName(r)| > 2 && RuleName(r)[2] == RuleName(s)[2];
  }

  function KeyOf(v: Violation): SortKey { SortKey(v.relPath, RuleName(v.rule)) }

  // ---- what a policy forbids ---------------------------------------------------------------------------

  predicate IsFrozen(p: Policy, path: Text) { UnderAny(path, p.frozenPaths) }

  predicate MayChange(p: Policy, path: Text) { p.allowChangePaths == [] || UnderAny(path, p.allowChangePaths) }

  /** Whether the policy has this complaint about a path that was added, removed or changed. */
  predicate Forbids(p: Policy, rule: Rule, change: ChangeKind, path: Text) {
    match rule
    case NoAdded => change.Added? && p.noAdded
    case NoRemoved => change.Removed? && p.noRemoved
    case NoChanged => change.Changed? && p.noChanged
    case AllowChangePaths => change.Changed? && !MayChange(p, path)
    case FrozenPaths => !change.Added? && IsFrozen(p, path)
  }

  /** What happened to a path between two lists. */
  predicate Happened(a: Index, b: Index, change: ChangeKind, path: RelPath) {
    match change
    case Added => path in b && path !in a
    case Removed => path in a && path !in b
    case Changed => Edited(a, b, path)
  }

  predicate Violates(p: Policy, a: Index, b: Index, v: Violation) {
    Happened(a, b, v.change, v.relPath) && Forbids(p, v.rule, v.change, v.relPath)
  }

  /** The policy over two maps from path to content, without a change set. */
  predicate Allowed(p: Policy, a: Index, b: Index) {
    (p.noAdded ==> forall q :: q in b ==> q in a) &&
    (p.noRemoved ==> forall q :: q in a ==> q in b) &&
    (forall q :: q in a && IsFrozen(p, q) ==> q in b) &&
    (forall q :: q in a && q in b && a[q].leaf != b[q].leaf ==> !p.noChanged && MayChange(p, q) && !IsFrozen(p, q))
  }

  lemma ViolationBreaks(p: Policy, a: Index, b: Index, v: Violation)
    requires Violates(p, a, b, v)
    ensures !Allowed(p, a, b)
  {
    hide IsFrozen;
    hide MayChange;
  }

  lemma BrokenHasViolation(p: Policy, a: Index, b: Index) returns (v: Violation)
    requires !Allowed(p, a, b)
    ensures Violates(p, a, b, v)
  {
    hide IsFrozen;
    hide MayChange;
    if q: RelPath :| q in b && q !in a && p.noAdded {
      v := Violation(q, NoAdded, Added);
    } else if q: RelPath :| q in a && q !in b && p.noRemoved {
      v := Violation(q, NoRemoved, Removed);
    } else if q: RelPath :| q in a && q !in b && IsFrozen(p, q) {
      v := Violation(q, FrozenPaths, Removed);
    } else {
      var q: RelPath :| q in a && q in b && a[q].leaf != b[q].leaf && (p.noChanged || !MayChange(p, q) || IsFrozen(p, q));
      v := EditComplaint(p, q);
    }
  }

  function EditComplaint(p: Policy, q: RelPath): (v: Violation)
    requires p.noChanged || !MayChange(p, q) || IsFrozen(p, q)
    ensures v.relPath == q && v.change == Changed && Forbids(p, v.rule, Changed, q)
  {
    Violation(q, if p.noChanged then NoChanged else if !MayChange(p, q) then AllowChangePaths else FrozenPaths, Changed)
  }

  // ---- the evaluator ------------------------------------------------------------------------------------

  /** The rules a policy really carries: a false flag or an empty list is none. */
  function RuleCount(p: Policy): nat {
    Indicator(p.noAdded) + Indicator(p.noRemoved) + Indicator(p.noChanged)
    + Indicator(p.allowChangePaths != []) + Indicator(p.frozenPaths != [])
  }

  method CountDriftRules(p: Policy) returns (n: nat)
    ensures n == RuleCount(p)
  {
    n := 0;
    var bools := [p.noAdded, p.noRemoved, p.noChanged];
    for i := 0 to |bools|
      invariant n == (if i > 0 then Indicator(bools[0]) else 0) + (if i > 1 then Indicator(bools[1]) else 0)
                     + if i > 2 then Indicator(bools[2]) else 0
    {
      if bools[i] { n := n + 1; }
    }
    var flags := n;
    var lists := [p.allowChangePaths, p.frozenPaths];
    for i := 0 to |lists|
      invariant n == flags + (if i > 0 then Indicator(lists[0] != []) else 0) + if i > 1 then Indicator(lists[1] != []) else 0
    {
      if |lists[i]| > 0 { n := n + 1; }
    }
  }

  /** A policy that counts no rules passes everything. */
  lemma NoRulesPassAll(p: Policy, a: Index, b: Index)
    requires RuleCount(p) == 0
    ensures Allowed(p, a, b)
  {
    hide UnderPrefix;
  }

  /** The complaints about one changed path, in the order the loops push them. */
  function Complaints(p: Policy, change: ChangeKind, path: RelPath): seq<Violation> {
    match change
    case Added => One(p, NoAdded, change, path)
    case Removed => One(p, NoRemoved, change, path) + One(p, FrozenPaths, change, path)
    case Changed =>
      One(p, NoChanged, change, path) + One(p, AllowChangePaths, change, path) + One(p, FrozenPaths, change, path)
  }

  function One(p: Policy, rule: Rule, change: ChangeKind, path: RelPath): seq<Violation> {
    if Forbids(p, rule, change, path) then [Violation(path, rule, change)] else []
  }

  lemma JoinDistinct(x: seq<Violation>, y: seq<Violation>)
    requires NoDuplicates(x) && NoDuplicates(y) && forall v :: v in x ==> v !in y
    ensures NoDuplicates(x + y) && forall v :: v in x + y <==> v in x || v in y
  {
    forall i, j | 0 <= i < j < |x + y| ensures (x + y)[i] != (x + y)[j] {
      if i < |x| <= j { assert x[i] in x && y[j - |x|] in y; }
    }
  }

  lemma OneExactly(p: Policy, rule: Rule, change: ChangeKind, path: RelPath)
    ensures NoDuplicates(One(p, rule, change, path))
    ensures forall v :: v in One(p, rule, change, path)
                        <==> v == Violation(path, rule, change) && Forbids(p, rule, change, path)
  {
    hide Forbids;
  }

  lemma ComplaintsExactly(p: Policy, change: ChangeKind, path: RelPath)
    ensures NoDuplicates(Complaints(p, change, path))
    ensures forall v :: v in Complaints(p, change, path)
                        <==> v.relPath == path && v.change == change && Forbids(p, v.rule, change, path)
  {
    OneExactly(p, NoAdded, change, path);
    OneExactly(p, NoRemoved, change, path);
    OneExactly(p, NoChanged, change, path);
    OneExactly(p, AllowChangePaths, change, path);
    OneExactly(p, FrozenPaths, change, path);
    hide One;
    hide IsFrozen;
    hide MayChange;
    hide NoDuplicates;
    var frozen := One(p, FrozenPaths, change, path);
    match change {
      case Added =>
      case Removed =>
        JoinDistinct(One(p, NoRemoved, change, path), frozen);
      case Changed =>
        var x, y := One(p, NoChanged, change, path), One(p, AllowChangePaths, change, path);
        JoinDistinct(x, y);
        JoinDistinct(x + y, frozen);
    }
  }

  /** Everything found so far about the rows of one list: each complaint once. */
  ghost predicate Found(out: seq<Violation>, before: seq<Violation>, p: Policy, change: ChangeKind, rows: seq<Row>) {
    NoDuplicates(out) &&
    forall v :: v in out <==> v in before ||
                              (v.change == change && Forbids(p, v.rule, change, v.relPath) && exists r :: r in rows && r.path == v.relPath)
  }

  lemma {:induction false} FoundStep(out: seq<Violation>, before: seq<Violation>, p: Policy, change: ChangeKind, rows: seq<Row>, i: nat)
    requires i < |rows| && ByPath(rows) && Found(out, before, p, change, rows[..i])
    requires forall v :: v in before ==> v.change != change
    ensures Found(out + Complaints(p, change, rows[i].path), before, p, change, rows[..i + 1])
  {
    hide Forbids;
    hide Complaints;
    var path := rows[i].path;
    var more := Complaints(p, change, path);
    ComplaintsExactly(p, change, path);
    forall r | r in rows[..i] ensures r.path != path {
      var j :| 0 <= j < i && rows[j] == r;
      assert PathBefore(rows[j].path, rows[i].path);
    }
    assert rows[..i + 1] == rows[..i] + [rows[i]];
    assert forall v :: v in out + more <==> v in out || v in more;
    forall v | v in out ensures v !in more { }
    JoinDistinct(out, more);
  }

  /** One of the three loops. */
  method Collect(p: Policy, change: ChangeKind, rows: seq<Row>, before: seq<Violation>) returns (out: seq<Violation>)
    requires ByPath(rows) && NoDuplicates(before) && forall v :: v in before ==> v.change != change
    ensures Found(out, before, p, change, rows)
  {
    hide Forbids;
    hide ByPath;
    out := before;
    for i := 0 to |rows|
      invariant Found(out, before, p, change, rows[..i])
    {
      FoundStep(out, before, p, change, rows, i);
      out := out + Complaints(p, change, rows[i].path);
    }
    assert rows[..|rows|] == rows;
  }

  /** Strictly in order by path, then by rule name. */
  predicate InOrder(vs: seq<Violation>) { StrictByKey(vs, KeyOf) }

  /** A violation in full, rule by rule. */
  predicate Breaks(p: Policy, a: Index, b: Index, v: Violation) {
    var q := v.relPath;
    match v.rule
    case NoAdded => v.change == Added && p.noAdded && q in b && q !in a
    case NoRemoved => v.change == Removed && p.noRemoved && q in a && q !in b
    case NoChanged => v.change == Changed && p.noChanged && q in a && q in b && a[q].leaf != b[q].leaf
    case AllowChangePaths =>
      v.change == Changed && |p.allowChangePaths| > 0 && q in a && q in b && a[q].leaf != b[q].leaf &&
      forall i :: 0 <= i < |p.allowChangePaths| ==> !UnderPrefix(q, p.allowChangePaths[i])
    case FrozenPaths =>
      q in a && (if q in b then v.change == Changed && a[q].leaf != b[q].leaf else v.change == Removed) &&
      exists i :: 0 <= i < |p.frozenPaths| && UnderPrefix(q, p.frozenPaths[i])
  }

  lemma ViolationsInFull(p: Policy, a: Index, b: Index)
    ensures forall v :: Violates(p, a, b, v) <==> Breaks(p, a, b, v)
  {
    hide UnderPrefix;
    forall v ensures Violates(p, a, b, v) <==> Breaks(p, a, b, v) {
      match v.rule {
        case NoAdded =>
        case NoRemoved =>
        case NoChanged =>
        case AllowChangePaths =>
        case FrozenPaths =>
      }
    }
  }

  lemma PassInFull(p: Policy, a: Index, b: Index)
    requires Allowed(p, a, b)
    ensures forall i, q :: 0 <= i < |p.frozenPaths| && q in a && UnderPrefix(q, p.frozenPaths[i]) ==> q in b && a[q].leaf == b[q].leaf
    ensures p.allowChangePaths != [] ==>
              forall q :: q in a && q in b && a[q].leaf != b[q].leaf ==>
                exists i :: 0 <= i < |p.allowChangePaths| && UnderPrefix(q, p.allowChangePaths[i])
  {
    hide UnderPrefix;
    forall i, q | 0 <= i < |p.frozenPaths| && q in a && UnderPrefix(q, p.frozenPaths[i]) ensures q in b && a[q].leaf == b[q].leaf {
      assert IsFrozen(p, q);
    }
  }

  /** The order of the rule names, as strings. */
  function Place(r: Rule): nat {
    match r
    case AllowChangePaths => 0
    case FrozenPaths => 1
    case NoAdded => 2
    case NoChanged => 3
    case NoRemoved => 4
  }

  /** By path first, then by rule. */
  predicate Precedes(v: Violation, w: Violation) {
    PathBefore(v.relPath, w.relPath) || (v.relPath == w.relPath && Place(v.rule) < Place(w.rule))
  }

  lemma RuleNamesAscend(r: Rule, s: Rule)
    requires TextLe(RuleName(r), RuleName(s))
    ensures Place(r) <= Place(s)
  {
    var x, y := RuleName(r), RuleName(s);
    assert x[0] <= y[0] by { if x[0] != y[0] { TextLeFirstDifference(x, y, 0); } }
    if x[0] == y[0] == 110 {
      assert x[..2] == [110, 111] == y[..2];
      assert x[2] <= y[2] by { if x[2] != y[2] { TextLeFirstDifference(x, y, 2); } }
    }
  }

  lemma OrderInFull(vs: seq<Violation>)
    requires InOrder(vs)
    ensures forall i, j :: 0 <= i < j < |vs| ==> Precedes(vs[i], vs[j])
  {
    hide RuleName;
    hide TextLe;
    forall i, j | 0 <= i < j < |vs| ensures Precedes(vs[i], vs[j]) {
      var v, w := vs[i], vs[j];
      assert KeyLe(KeyOf(v), KeyOf(w)) && KeyOf(v) != KeyOf(w);
      if v.relPath == w.relPath { RuleNamesAscend(v.rule, w.rule); }
    }
  }

  /** evaluateDriftPolicy on the change set of two lists; nothing when the policy is refused. */
  method EvaluateDriftPolicy(d: Diff, p: Policy, ghost a: Index, ghost b: Index) returns (r: Option<Report>)
    requires IsDiff(a, b, d)
    ensures r.Some? <==> PolicyOk(p)
    ensures r.Some? ==> (r.value.pass <==> Allowed(p, a, b))
    ensures r.Some? ==> InOrder(r.value.violations) && forall v :: v in r.value.violations <==> Violates(p, a, b, v)
    ensures r.Some? ==> r.value.rulesEvaluated == RuleCount(p)
    ensures r.None? <==> [] in p.allowChangePaths || [] in p.frozenPaths
    ensures r.Some? && r.value.pass ==>
              forall i, q :: 0 <= i < |p.frozenPaths| && q in a && UnderPrefix(q, p.frozenPaths[i]) ==> q in b && a[q].leaf == b[q].leaf
    ensures r.Some? && r.value.pass && p.allowChangePaths != [] ==>
              forall q :: q in a && q in b && a[q].leaf != b[q].leaf ==>
                exists i :: 0 <= i < |p.allowChangePaths| && UnderPrefix(q, p.allowChangePaths[i])
    ensures r.Some? ==> forall v :: v in r.value.violations <==> Breaks(p, a, b, v)
    ensures r.Some? ==> forall i, j :: 0 <= i < j < |r.value.violations| ==> Precedes(r.value.violations[i], r.value.violations[j])
  {
    hide Sort;
    hide Forbids;
    hide Happened;
    hide Allowed;
    hide RuleCount;
    if !PolicyOk(p) { return None; }
    var some := Collect(p, Added, d.added, []);
    var more := Collect(p, Removed, d.removed, some);
    var all := Collect(p, Changed, d.changed, more);
    AllFound(p, a, b, d, some, more, all);
    var violations := Sort(all, ByKey(KeyOf));
    ViolationKeysDiffer(p, a, b, all);
    SortByKey(all, KeyOf);
    var rules := CountDriftRules(p);
    PassExactly(p, a, b, violations);
    ViolationsInFull(p, a, b);
    if violations == [] { PassInFull(p, a, b); }
    OrderInFull(violations);
    r := Some(Report(violations == [], rules, violations));
  }

  lemma AllFound(p: Policy, a: Index, b: Index, d: Diff, some: seq<Violation>, more: seq<Violation>, all: seq<Violation>)
    requires IsDiff(a, b, d) && Found(some, [], p, Added, d.added)
    requires Found(more, some, p, Removed, d.removed) && Found(all, more, p, Changed, d.changed)
    ensures NoDuplicates(all) && forall v :: v in all <==> Violates(p, a, b, v)
  {
    hide Forbids;
    forall path ensures (exists r :: r in d.added && r.path == path) <==> Happened(a, b, Added, path) {
      if Happened(a, b, Added, path) { assert IsAdded(a, b, Row(path, b[path].contentHash, None)); }
    }
    forall path ensures (exists r :: r in d.removed && r.path == path) <==> Happened(a, b, Removed, path) {
      if Happened(a, b, Removed, path) { assert IsRemoved(a, b, Row(path, a[path].contentHash, None)); }
    }
    forall path ensures (exists r :: r in d.changed && r.path == path) <==> Happened(a, b, Changed, path) {
      if Happened(a, b, Changed, path) { assert IsChanged(a, b, Row(path, b[path].contentHash, Some(a[path].contentHash))); }
    }
    hide *;
    FoundAll(p, a, b, d, some, more, all);
  }

  lemma FoundAll(p: Policy, a: Index, b: Index, d: Diff, some: seq<Violation>, more: seq<Violation>, all: seq<Violation>)
    requires Found(some, [], p, Added, d.added) && Found(more, some, p, Removed, d.removed) && Found(all, more, p, Changed, d.changed)
    requires forall path :: (exists r :: r in d.added && r.path == path) <==> Happened(a, b, Added, path)
    requires forall path :: (exists r :: r in d.removed && r.path == path) <==> Happened(a, b, Removed, path)
    requires forall path :: (exists r :: r in d.changed && r.path == path) <==> Happened(a, b, Changed, path)
    ensures NoDuplicates(all) && forall v :: v in all <==> Violates(p, a, b, v)
  {
    hide Forbids;
    hide Happened;
  }

  /** A path has one fate, so path and rule tell violations apart. */
  lemma ViolationKeysDiffer(p: Policy, a: Index, b: Index, vs: seq<Violation>)
    requires NoDuplicates(vs) && forall v :: v in vs <==> Violates(p, a, b, v)
    ensures DistinctKeys(vs, KeyOf)
  {
    hide RuleName;
    hide Forbids;
    forall i, j | 0 <= i < j < |vs| ensures KeyOf(vs[i]) != KeyOf(vs[j]) {
      assert Violates(p, a, b, vs[i]) && Violates(p, a, b, vs[j]);
      if KeyOf(vs[i]) == KeyOf(vs[j]) { RuleNamesDiffer(vs[i].rule, vs[j].rule); }
    }
  }

  lemma PassExactly(p: Policy, a: Index, b: Index, vs: seq<Violation>)
    requires forall v :: v in vs <==> Violates(p, a, b, v)
    ensures vs == [] <==> Allowed(p, a, b)
  {
    hide Violates;
    hide Allowed;
    if vs != [] {
      assert vs[0] in vs;
      ViolationBreaks(p, a, b, vs[0]);
    } else if !Allowed(p, a, b) {
      var v := BrokenHasViolation(p, a, b);
    }
  }

  /** The report does not depend on how the change set was found: its violations, list order
      included, are fixed by the policy and the two file lists. */
  lemma ReportIsDetermined(p: Policy, a: Index, b: Index, x: seq<Violation>, y: seq<Violation>)
    requires InOrder(x) && InOrder(y)
    requires (forall v :: v in x <==> Violates(p, a, b, v)) && (forall v :: v in y <==> Violates(p, a, b, v))
    ensures x == y
  {
    hide Violates;
    StrictByKeyUnique(x, y, KeyOf);
  }

  // ---- frozen paths ----------------------------------------------------------------------------------------

  /** With only frozen paths set, PASS means exactly that the frozen part of a is a sub-map of b. */
  lemma FrozenPartSurvives(p: Policy, a: Index, b: Index)
    ensures Allowed(p, a, b) ==> FrozenKept(p.frozenPaths, a, b)
    ensures p == Policy(false, false, false, [], p.frozenPaths) ==> (Allowed(p, a, b) <==> FrozenKept(p.frozenPaths, a, b))
  {
    hide UnderPrefix;
    if Allowed(p, a, b) { PassInFull(p, a, b); }
    if p == Policy(false, false, false, [], p.frozenPaths) && FrozenKept(p.frozenPaths, a, b) {
      forall q | q in a && IsFrozen(p, q) ensures q in b && a[q].leaf == b[q].leaf {
        var i :| 0 <= i < |p.frozenPaths| && UnderPrefix(q, p.frozenPaths[i]);
      }
    }
  }

  /** Every file of a under any one of the prefixes is in b with the same leaf. */
  predicate FrozenKept(prefixes: seq<Text>, a: Index, b: Index) {
    forall i, q :: 0 <= i < |prefixes| && q in a && UnderPrefix(q, prefixes[i]) ==> q in b && a[q].leaf == b[q].leaf
  }

  /** Freezing two lists of prefixes is freezing each. */
  lemma FrozenListsAddUp(p: Policy, x: seq<Text>, y: seq<Text>, a: Index, b: Index)
    ensures Allowed(p.(frozenPaths := x + y), a, b)
            <==> Allowed(p.(frozenPaths := x), a, b) && Allowed(p.(frozenPaths := y), a, b)
  {
    hide UnderPrefix;
    forall q ensures UnderAny(q, x + y) <==> UnderAny(q, x) || UnderAny(q, y) {
      if UnderAny(q, x) {
        var i :| 0 <= i < |x| && UnderPrefix(q, x[i]);
        assert (x + y)[i] == x[i];
      }
      if UnderAny(q, y) {
        var i :| 0 <= i < |y| && UnderPrefix(q, y[i]);
        assert (x + y)[|x| + i] == y[i];
      }
    }
  }

  // ---- chaining ----------------------------------------------------------------------------------------------

  /** When passing twice in a row means passing overall. */
  predicate Chains(p: Policy) { p.noAdded || p.noRemoved || !(p.noChanged || p.allowChangePaths != []) }

  lemma PassesCompose(p: Policy, a: Index, b: Index, c: Index)
    requires Chains(p) && Allowed(p, a, b) && Allowed(p, b, c)
    ensures Allowed(p, a, c)
  {
    hide IsFrozen;
    hide UnderAny;
  }

  function Repeat(n: nat): (t: Text)
    ensures |t| == n && forall i :: 0 <= i < n ==> t[i] == 97
  {
    seq(n, _ => 97)
  }

  function Longest(prefixes: seq<Text>): (n: nat)
    ensures forall i :: 0 <= i < |prefixes| ==> |prefixes[i]| <= n
  {
    if prefixes == [] then 0
    else
      var m, k := Longest(prefixes[..|prefixes| - 1]), |prefixes[|prefixes| - 1]|;
      assert forall i :: 0 <= i < |prefixes| - 1 ==> prefixes[i] == prefixes[..|prefixes| - 1][i];
      if k > m then k else m
  }

  /** A long path without a slash lies under no prefix. */
  lemma LongPathEscapes(prefixes: seq<Text>, n: nat)
    requires n > Longest(prefixes)
    ensures !UnderAny(Repeat(n), prefixes)
  {
    forall i | 0 <= i < |prefixes| ensures !UnderPrefix(Repeat(n), prefixes[i]) {
      var t := Trimmed(prefixes[i]);
      assert (t + [SLASH])[|t|] == SLASH && |t| < |Repeat(n)| ==> Repeat(n)[|t|] == 97;
    }
  }

  function EscapingPath(p: Policy, extra: nat): (q: RelPath)
    ensures q == Repeat(Longest(p.allowChangePaths) + Longest(p.frozenPaths) + 1 + extra)
  {
    var t := Repeat(Longest(p.allowChangePaths) + Longest(p.frozenPaths) + 1 + extra);
    AsciiUtf8(t);
    t
  }

  function FileAt(h: Hash, q: RelPath, c: Digest): FileLeaf { FileLeaf(q, c, PathLeaf(h, q, c)) }

  function SealOf(h: Hash, files: seq<FileLeaf>): Manifest
    requires files != []
  {
    Manifest(Root(h, LeafValues(files)), files)
  }

  lemma PairIndex(f: FileLeaf, g: FileLeaf)
    requires f.path != g.path
    ensures IndexOf([f, g]) == map[f.path := f, g.path := g] && IndexOf([f]) == map[f.path := f]
  {
    assert [f, g][..1] == [f] && [f][..0] == [];
  }

  lemma ValidSmallSeal(h: Hash, files: seq<FileLeaf>)
    requires 0 < |files| <= 2 && files[0].path != [] && files[0].leaf == PathLeaf(h, files[0].path, files[0].contentHash)
    requires |files| == 2 ==> files[1].path != [] && files[1].path != files[0].path
    requires |files| == 2 ==> files[1].leaf == PathLeaf(h, files[1].path, files[1].contentHash)
    ensures ValidSeal(h, SealOf(h, files))
  {
    hide Root;
    hide PathLeaf;
  }

  /** Dropping a file and adding it back edited, next to one that stays. */
  lemma DropAndReAdd(p: Policy, q: RelPath, f: FileLeaf, g: FileLeaf, r: RelPath, stay: FileLeaf)
    requires !Chains(p) && q != r && !IsFrozen(p, q) && (MayChange(p, q) ==> p.noChanged)
    ensures Allowed(p, map[q := f, r := stay], map[r := stay]) && Allowed(p, map[r := stay], map[q := g, r := stay])
    ensures Allowed(p, map[q := f, r := stay], map[q := g, r := stay]) ==> f.leaf == g.leaf
  {
    hide IsFrozen;
    hide MayChange;
    var a, c := map[q := f, r := stay], map[q := g, r := stay];
    assert q in a && q in c && a[q] == f && c[q] == g;
  }

  /** Every other policy has a remove-then-re-add that slips an edit past it: a file dropped in
      one step and added back with other content in the next.  All three seals are valid. */
  lemma {:induction false} RemoveThenReAdd(h: Hash, p: Policy, x: Digest, y: Digest) returns (a: Manifest, b: Manifest, c: Manifest)
    requires !Chains(p) && x != y
    ensures ValidSeal(h, a) && ValidSeal(h, b) && ValidSeal(h, c)
    ensures Allowed(p, IndexOf(a.files), IndexOf(b.files)) && Allowed(p, IndexOf(b.files), IndexOf(c.files))
    ensures !Allowed(p, IndexOf(a.files), IndexOf(c.files)) ||
            Clash(h, {PathMessage(h, EscapingPath(p, 0), x), PathMessage(h, EscapingPath(p, 0), y)})
  {
    hide Root;
    hide PathLeaf;
    hide PathMessage;
    hide IndexOf;
    hide UnderAny;
    hide ValidSeal;
    hide Allowed;
    var q, r := EscapingPath(p, 0), EscapingPath(p, 1);
    assert |q| != |r| && q != [] && r != [];
    LongPathEscapes(p.allowChangePaths, |q|);
    LongPathEscapes(p.frozenPaths, |q|);
    var f, g, stay := FileAt(h, q, x), FileAt(h, q, y), FileAt(h, r, x);
    a, b, c := SealOf(h, [f, stay]), SealOf(h, [stay]), SealOf(h, [g, stay]);
    ValidSmallSeal(h, [f, stay]);
    ValidSmallSeal(h, [stay]);
    ValidSmallSeal(h, [g, stay]);
    PairIndex(f, stay);
    PairIndex(g, stay);
    PairIndex(stay, f);
    DropAndReAdd(p, q, f, g, r, stay);
    PathLeavesAgree(h, q, x, q, y);
  }
}
