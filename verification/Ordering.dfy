/** The runtime's stable `sort`, and the uniqueness of what it returns. */
module Ordering {
  ghost predicate TotalPreorder<T(!new)>(le: (T, T) -> bool) {
    (forall x, y :: le(x, y) || le(y, x)) &&
    (forall x, y, z :: le(x, y) && le(y, z) ==> le(x, z))
  }

  predicate Sorted<T>(s: seq<T>, le: (T, T) -> bool) {
    forall i, j :: 0 <= i < j < |s| ==> le(s[i], s[j])
  }

  function Insert<T>(x: T, s: seq<T>, le: (T, T) -> bool): (r: seq<T>)
    ensures |r| == |s| + 1 && multiset(r) == multiset{x} + multiset(s)
  {
    if s == [] || le(x, s[0]) then [x] + s
    else
      assert s == [s[0]] + s[1..];
      [s[0]] + Insert(x, s[1..], le)
  }

  function Sort<T>(s: seq<T>, le: (T, T) -> bool): (r: seq<T>)
    ensures |r| == |s| && multiset(r) == multiset(s)
  {
    if s == [] then []
    else
      assert s == [s[0]] + s[1..];
      Insert(s[0], Sort(s[1..], le), le)
  }

  lemma InsertOne<T>(x: T, y: T, le: (T, T) -> bool)
    ensures Insert(x, [y], le) == if le(x, y) then [x, y] else [y, x]
  {
    assert [y][1..] == [];
  }

  lemma SortTwo<T>(x: T, y: T, le: (T, T) -> bool)
    ensures Sort([x, y], le) == if le(x, y) then [x, y] else [y, x]
  {
    InsertOne(x, y, le);
    hide Insert;
    assert [x, y][1..] == [y];
    SortOne(y, le);
  }

  lemma SortOne<T>(y: T, le: (T, T) -> bool)
    ensures Sort([y], le) == [y]
  {
    assert [y][1..] == [];
  }

  lemma MultisetMembers<T>(s: seq<T>, t: seq<T>)
    requires multiset(s) == multiset(t)
    ensures forall x :: x in s <==> x in t
  {
    forall x ensures x in s <==> x in t {
      assert x in s <==> x in multiset(s);
      assert x in t <==> x in multiset(t);
    }
  }

  lemma {:induction false} InsertSorted<T(!new)>(x: T, s: seq<T>, le: (T, T) -> bool)
    requires TotalPreorder(le) && Sorted(s, le)
    ensures Sorted(Insert(x, s, le), le)
  {
    if s != [] && !le(x, s[0]) {
      InsertSorted(x, s[1..], le);
      var r := Insert(x, s[1..], le);
      forall k | 0 <= k < |r| ensures le(s[0], r[k]) {
        assert r[k] in multiset(r);
        assert r[k] == x || r[k] in s[1..];
      }
    }
  }

  lemma {:induction false} SortSorted<T(!new)>(s: seq<T>, le: (T, T) -> bool)
    requires TotalPreorder(le)
    ensures Sorted(Sort(s, le), le)
  {
    if s != [] {
      SortSorted(s[1..], le);
      InsertSorted(s[0], Sort(s[1..], le), le);
    }
  }

  lemma SortedFirst<T(!new)>(s: seq<T>, t: seq<T>, le: (T, T) -> bool)
    requires Sorted(s, le) && s != [] && t != [] && t[0] in s
    ensures t[0] == s[0] || le(s[0], t[0])
  {
    var j :| 0 <= j < |s| && s[j] == t[0];
  }

  /** A sorted arrangement is unique when only equal elements tie. */
  lemma {:induction false} SortedUnique<T(!new)>(s: seq<T>, t: seq<T>, le: (T, T) -> bool)
    requires Sorted(s, le) && Sorted(t, le) && multiset(s) == multiset(t)
    requires forall x, y :: x in s && y in s && le(x, y) && le(y, x) ==> x == y
    ensures s == t
  {
    assert |s| == |multiset(s)| == |multiset(t)| == |t|;
    if s != [] {
      assert s[0] in t && t[0] in s by {
        MultisetMembers(s, t);
        assert s[0] in s && t[0] in t;
      }
      SortedFirst(s, t, le);
      SortedFirst(t, s, le);
      assert s[0] in s;
      assert s[0] == t[0];
      SortedTails(s, t, le);
      SortedUnique(s[1..], t[1..], le);
      assert s == [s[0]] + s[1..] && t == [t[0]] + t[1..];
    }
  }

  lemma SortedTails<T(!new)>(s: seq<T>, t: seq<T>, le: (T, T) -> bool)
    requires Sorted(s, le) && Sorted(t, le) && multiset(s) == multiset(t)
    requires s != [] && t != [] && s[0] == t[0]
    ensures Sorted(s[1..], le) && Sorted(t[1..], le) && multiset(s[1..]) == multiset(t[1..])
    ensures forall x :: x in s[1..] ==> x in s
  {
    assert s == [s[0]] + s[1..] && t == [t[0]] + t[1..];
    assert multiset(s) == multiset{s[0]} + multiset(s[1..]);
    assert multiset(t) == multiset{t[0]} + multiset(t[1..]);
    assert multiset(s[1..]) == multiset(s) - multiset{s[0]};
    assert multiset(t[1..]) == multiset(t) - multiset{t[0]};
  }

  /** Sorting forgets the order of its input, up to elements that tie. */
  lemma {:induction false} SortForgetsOrder<T(!new)>(s: seq<T>, t: seq<T>, le: (T, T) -> bool)
    requires TotalPreorder(le) && multiset(s) == multiset(t)
    requires forall x, y :: x in s && y in s && le(x, y) && le(y, x) ==> x == y
    ensures Sort(s, le) == Sort(t, le)
  {
    SortSorted(s, le);
    SortSorted(t, le);
    MultisetMembers(s, Sort(s, le));
    SortedUnique(Sort(s, le), Sort(t, le), le);
  }

  predicate NoDuplicates<T(==)>(s: seq<T>) {
    forall i, j :: 0 <= i < j < |s| ==> s[i] != s[j]
  }

  lemma {:induction false} NoDuplicatesMultiset<T>(s: seq<T>)
    ensures NoDuplicates(s) <==> forall x :: x in s ==> multiset(s)[x] == 1
  {
    if s != [] {
      NoDuplicatesMultiset(s[1..]);
      var rest := s[1..];
      assert s == [s[0]] + rest;
      assert multiset(s) == multiset{s[0]} + multiset(rest);
      if s[0] in rest {
        assert multiset(s)[s[0]] >= 2;
        var k :| 0 <= k < |rest| && rest[k] == s[0];
        assert s[k + 1] == s[0];
      } else {
        assert forall i :: 0 < i < |s| ==> s[i] == rest[i - 1];
        assert forall x :: x in rest ==> x in s && multiset(s)[x] == multiset(rest)[x];
      }
    }
  }

  lemma NoDuplicatesPermute<T>(s: seq<T>, t: seq<T>)
    requires multiset(s) == multiset(t) && NoDuplicates(s)
    ensures NoDuplicates(t)
  {
    MultisetMembers(s, t);
    NoDuplicatesMultiset(s);
    NoDuplicatesMultiset(t);
  }

  /** Without repeats, a sequence is determined up to order by what it contains. */
  lemma SameMembersSameMultiset<T(!new)>(s: seq<T>, t: seq<T>)
    requires NoDuplicates(s) && NoDuplicates(t) && forall x :: x in s <==> x in t
    ensures multiset(s) == multiset(t)
  {
    NoDuplicatesMultiset(s);
    NoDuplicatesMultiset(t);
    forall x ensures multiset(s)[x] == multiset(t)[x] {
      assert x in s <==> multiset(s)[x] > 0;
      assert x in t <==> multiset(t)[x] > 0;
    }
  }

  function Map<T, U>(s: seq<T>, f: T -> U): (r: seq<U>)
    ensures |r| == |s| && forall i :: 0 <= i < |s| ==> r[i] == f(s[i])
  {
    seq(|s|, i requires 0 <= i < |s| => f(s[i]))
  }

  lemma MapRemove<T, U>(s: seq<T>, f: T -> U, i: nat)
    requires i < |s|
    ensures multiset(Map(s, f)) == multiset{f(s[i])} + multiset(Map(Without(s, i), f))
    ensures multiset(s) == multiset{s[i]} + multiset(Without(s, i))
  {
    var a, b := Map(s[..i], f), Map(s[i + 1..], f);
    assert Map(s, f) == a + [f(s[i])] + b;
    assert Map(Without(s, i), f) == a + b;
    assert s == s[..i] + [s[i]] + s[i + 1..];
  }

  function Without<T>(s: seq<T>, i: nat): (r: seq<T>)
    requires i < |s|
    ensures |r| == |s| - 1
  {
    s[..i] + s[i + 1..]
  }

  /** Mapping a rearrangement gives a rearrangement. */
  lemma {:induction false} MapPermutes<T, U>(s: seq<T>, t: seq<T>, f: T -> U)
    requires multiset(s) == multiset(t)
    ensures multiset(Map(s, f)) == multiset(Map(t, f))
    decreases |s|
  {
    if s != [] {
      assert s[0] in t by { MultisetMembers(s, t); assert s[0] in s; }
      var i :| 0 <= i < |t| && t[i] == s[0];
      MapRemove(s, f, 0);
      MapRemove(t, f, i);
      assert multiset(Without(s, 0)) == multiset(s) - multiset{s[0]} == multiset(Without(t, i));
      MapPermutes(Without(s, 0), Without(t, i), f);
    } else {
      assert |t| == |multiset(t)| == 0;
    }
  }
}
