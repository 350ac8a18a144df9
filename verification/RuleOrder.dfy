/** The order both policy reports are printed in: by path, then by rule name. */
module RuleOrder {
  import opened Text
  import opened Ordering

  datatype SortKey = SortKey(path: Text, rule: Text)

  predicate KeyLe(x: SortKey, y: SortKey) {
    if x.path != y.path then TextLe(x.path, y.path) else TextLe(x.rule, y.rule)
  }

  lemma KeyLeTotal(x: SortKey, y: SortKey)
    ensures KeyLe(x, y) || KeyLe(y, x)
  {
    TextLeTotal(x.path, y.path);
    TextLeTotal(x.rule, y.rule);
  }

  lemma KeyLeTransitive(x: SortKey, y: SortKey, z: SortKey)
    requires KeyLe(x, y) && KeyLe(y, z)
    ensures KeyLe(x, z)
  {
    hide TextLe;
    if x.path == y.path == z.path {
      TextLeTransitive(x.rule, y.rule, z.rule);
    } else if x.path == z.path {
      TextLeAntisymmetric(x.path, y.path);
    } else if x.path != y.path && y.path != z.path {
      TextLeTransitive(x.path, y.path, z.path);
    }
  }

  lemma KeyLeAntisymmetric(x: SortKey, y: SortKey)
    requires KeyLe(x, y) && KeyLe(y, x)
    ensures x == y
  {
    hide TextLe;
    if x.path != y.path { TextLeAntisymmetric(x.path, y.path); } else { TextLeAntisymmetric(x.rule, y.rule); }
  }

  function ByKey<T>(key: T -> SortKey): (T, T) -> bool { (x, y) => KeyLe(key(x), key(y)) }

  lemma ByKeyIsPreorder<T(!new)>(key: T -> SortKey)
    ensures TotalPreorder(ByKey(key))
  {
    hide KeyLe;
    var le := ByKey(key);
    forall x, y ensures le(x, y) || le(y, x) { KeyLeTotal(key(x), key(y)); }
    forall x, y, z | le(x, y) && le(y, z) ensures le(x, z) { KeyLeTransitive(key(x), key(y), key(z)); }
  }

  predicate DistinctKeys<T>(s: seq<T>, key: T -> SortKey) {
    forall i, j :: 0 <= i < j < |s| ==> key(s[i]) != key(s[j])
  }

  /** Strictly ascending: no two entries share path and rule name. */
  predicate StrictByKey<T>(s: seq<T>, key: T -> SortKey) {
    forall i, j :: 0 <= i < j < |s| ==> KeyLe(key(s[i]), key(s[j])) && key(s[i]) != key(s[j])
  }

  lemma SortByKey<T(!new)>(s: seq<T>, key: T -> SortKey)
    requires DistinctKeys(s, key)
    ensures StrictByKey(Sort(s, ByKey(key)), key) && forall x :: x in Sort(s, ByKey(key)) <==> x in s
  {
    hide KeyLe;
    var t := Sort(s, ByKey(key));
    ByKeyIsPreorder(key);
    SortSorted(s, ByKey(key));
    MultisetMembers(s, t);
    MapPermutes(s, t, key);
    assert NoDuplicates(Map(s, key));
    NoDuplicatesPermute(Map(s, key), Map(t, key));
    forall i, j | 0 <= i < j < |t| ensures KeyLe(key(t[i]), key(t[j])) && key(t[i]) != key(t[j]) {
      assert ByKey(key)(t[i], t[j]) && Map(t, key)[i] != Map(t, key)[j];
    }
  }

  /** A strictly ordered list is fixed by what it holds. */
  lemma StrictByKeyUnique<T(!new)>(s: seq<T>, t: seq<T>, key: T -> SortKey)
    requires StrictByKey(s, key) && StrictByKey(t, key) && forall x :: x in s <==> x in t
    ensures s == t
  {
    hide KeyLe;
    assert NoDuplicates(s) && NoDuplicates(t);
    SameMembersSameMultiset(s, t);
    forall x, y | x in s && y in s && ByKey(key)(x, y) && ByKey(key)(y, x) ensures x == y {
      var i :| 0 <= i < |s| && s[i] == x;
      var j :| 0 <= j < |s| && s[j] == y;
      KeyLeAntisymmetric(key(x), key(y));
    }
    SortedUnique(s, t, ByKey(key));
  }

  /** One rule, counted when it is active. */
  function Indicator(b: bool): nat { if b then 1 else 0 }
}
