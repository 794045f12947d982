/** Sequences without repetition, and sequences of named items sorted by name, as
    sort.Slice leaves them. */
module Sorting {
  import opened Strings

  ghost predicate Distinct<T>(s: seq<T>) {
    forall i, j | 0 <= i < j < |s| :: s[i] != s[j]
  }

  datatype Named<+T> = Named(name: string, value: T)

  ghost predicate DistinctNames<T>(ts: seq<Named<T>>) {
    forall i, j | 0 <= i < j < |ts| :: ts[i].name != ts[j].name
  }

  /** No item precedes an item with a smaller name. */
  ghost predicate SortedByName<T>(ts: seq<Named<T>>) {
    forall i, j | 0 <= i < j < |ts| :: !Less(ts[j].name, ts[i].name)
  }

  ghost predicate StrictlySorted<T>(ts: seq<Named<T>>) {
    forall i, j | 0 <= i < j < |ts| :: Less(ts[i].name, ts[j].name)
  }

  ghost predicate Permutation<T>(a: seq<T>, b: seq<T>) {
    multiset(a) == multiset(b)
  }

  lemma SortedDistinctIsStrict<T>(ts: seq<Named<T>>)
    requires SortedByName(ts) && DistinctNames(ts)
    ensures StrictlySorted(ts)
  {
    forall i, j | 0 <= i < j < |ts|
      ensures Less(ts[i].name, ts[j].name)
    {
      LessTotal(ts[i].name, ts[j].name);
    }
  }

  lemma PermutationMembers<T>(a: seq<T>, b: seq<T>)
    requires Permutation(a, b)
    ensures |a| == |b|
    ensures forall x :: x in a <==> x in b
  {
    assert |multiset(a)| == |multiset(b)|;
    forall x
      ensures x in a <==> x in b
    {
      assert x in a <==> x in multiset(a);
      assert x in b <==> x in multiset(b);
    }
  }

  /** Strictly sorted sequences with the same members are equal. */
  lemma {:induction false} SortedUnique<T>(a: seq<Named<T>>, b: seq<Named<T>>)
    requires StrictlySorted(a) && StrictlySorted(b)
    requires forall x :: x in a <==> x in b
    ensures a == b
    decreases |a|
  {
    assert a != [] ==> a[0] in a;
    assert b != [] ==> b[0] in b;
    if a == [] || b == [] {
    } else {
      SameHead(a, b);
      forall x
        ensures x in a[1..] <==> x in b[1..]
      {
        SortedTailMember(a, x);
        SortedTailMember(b, x);
      }
      SortedUnique(a[1..], b[1..]);
      assert a == [a[0]] + a[1..] && b == [b[0]] + b[1..];
    }
  }

  lemma SameHead<T>(a: seq<Named<T>>, b: seq<Named<T>>)
    requires StrictlySorted(a) && StrictlySorted(b)
    requires forall x :: x in a <==> x in b
    requires a != [] && b != []
    ensures a[0] == b[0]
  {
    assert b[0] in a && a[0] in b;
    var i :| 0 <= i < |a| && a[i] == b[0];
    var j :| 0 <= j < |b| && b[j] == a[0];
    if i > 0 && j > 0 {
      assert Less(a[0].name, a[i].name) && Less(b[0].name, b[j].name);
      LessTransitive(a[0].name, b[0].name, a[0].name);
      LessIrreflexive(a[0].name);
    }
  }

  lemma SortedTailMember<T>(a: seq<Named<T>>, x: Named<T>)
    requires StrictlySorted(a) && a != []
    ensures x in a[1..] <==> x in a && x != a[0]
  {
    if x in a[1..] {
      var i :| 0 <= i < |a[1..]| && a[1..][i] == x;
      assert Less(a[0].name, a[i + 1].name);
      LessIrreflexive(x.name);
    }
  }

  /** Sorting is a function of the set of targets: whatever order the items came in, and
      whatever the sorting algorithm, distinct names leave one possible result. */
  lemma SortedPermutationUnique<T>(a: seq<Named<T>>, b: seq<Named<T>>, sa: seq<Named<T>>, sb: seq<Named<T>>)
    requires DistinctNames(a) && Permutation(a, b)
    requires Permutation(sa, a) && SortedByName(sa)
    requires Permutation(sb, b) && SortedByName(sb)
    ensures sa == sb
  {
    PermutationDistinct(a, sa);
    PermutationDistinct(a, sb);
    SortedDistinctIsStrict(sa);
    SortedDistinctIsStrict(sb);
    PermutationMembers(sa, sb);
    SortedUnique(sa, sb);
  }

  lemma PermutationDistinct<T>(a: seq<Named<T>>, b: seq<Named<T>>)
    requires DistinctNames(a) && Permutation(a, b)
    ensures DistinctNames(b)
  {
    forall i, j | 0 <= i < j < |b| && b[i].name == b[j].name
      ensures false
    {
      PermutationMembers(a, b);
      assert b[i] in a && b[j] in a;
      assert b[i] == b[j];
      MultiplicityOne(a, b[i]);
      MultiplicityTwo(b, i, j);
    }
  }

  lemma {:induction false} MultiplicityOne<T>(a: seq<Named<T>>, x: Named<T>)
    requires DistinctNames(a)
    ensures multiset(a)[x] <= 1
  {
    if a == [] {
    } else {
      assert a == [a[0]] + a[1..];
      MultiplicityOne(a[1..], x);
      if a[0] == x {
        assert x !in a[1..];
      }
    }
  }

  lemma MultiplicityTwo<T>(b: seq<T>, i: nat, j: nat)
    requires i < j < |b| && b[i] == b[j]
    ensures multiset(b)[b[i]] >= 2
  {
    assert b == b[..j] + [b[j]] + b[j + 1..];
    assert b[i] in b[..j];
  }

  // -------------------------------------------------------------------- filtering

  function Filter<T(!new)>(p: Named<T> -> bool, ts: seq<Named<T>>): (r: seq<Named<T>>)
    ensures forall x :: x in r <==> x in ts && p(x)
  {
    if ts == [] then []
    else if p(ts[0]) then [ts[0]] + Filter(p, ts[1..])
    else Filter(p, ts[1..])
  }

  lemma {:induction false} FilterSorted<T(!new)>(p: Named<T> -> bool, ts: seq<Named<T>>)
    requires StrictlySorted(ts)
    ensures StrictlySorted(Filter(p, ts))
  {
    if ts == [] {
    } else {
      FilterSorted(p, ts[1..]);
      var r := Filter(p, ts[1..]);
      forall j | 0 <= j < |r|
        ensures Less(ts[0].name, r[j].name)
      {
        assert r[j] in r;
        assert r[j] in ts[1..];
      }
    }
  }

  lemma {:induction false} FilterAppend<T(!new)>(p: Named<T> -> bool, ts: seq<Named<T>>, x: Named<T>)
    ensures Filter(p, ts + [x]) == Filter(p, ts) + if p(x) then [x] else []
  {
    if ts == [] {
    } else {
      assert (ts + [x])[1..] == ts[1..] + [x];
      FilterAppend(p, ts[1..], x);
    }
  }
}
