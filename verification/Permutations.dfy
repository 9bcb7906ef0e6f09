/** Sequences with the same elements. */
module Permutations {

  ghost predicate Distinct<T>(s: seq<T>) {
    forall i, j :: 0 <= i < j < |s| ==> s[i] != s[j]
  }

  /** Two permutations of each other stay so when the first element of one is removed from both. */
  lemma RemoveFirst<T>(s: seq<T>, t: seq<T>) returns (i: nat)
    requires multiset(s) == multiset(t) && s != []
    ensures i < |t| && t[i] == s[0]
    ensures t == t[..i] + ([s[0]] + t[i + 1..])
    ensures multiset(s[1..]) == multiset(t[..i] + t[i + 1..])
  {
    assert s[0] in multiset(t);
    i :| 0 <= i < |t| && t[i] == s[0];
    assert t == t[..i] + ([s[0]] + t[i + 1..]);
    assert s == [s[0]] + s[1..];
    RemoveOne(t[..i], s[0], t[i + 1..], multiset(s[1..]));
  }

  lemma RemoveOne<T>(a: seq<T>, x: T, b: seq<T>, rest: multiset<T>)
    requires multiset(a + ([x] + b)) == multiset{x} + rest
    ensures multiset(a + b) == rest
  {
    forall y
      ensures multiset(a + b)[y] == rest[y]
    {
      assert multiset(a + ([x] + b))[y] == multiset(a)[y] + multiset{x}[y] + multiset(b)[y];
    }
  }

  lemma {:induction false} DistinctCounts<T>(s: seq<T>, x: T)
    requires Distinct(s)
    ensures multiset(s)[x] == if x in s then 1 else 0
  {
    if s != [] {
      assert s == [s[0]] + s[1..];
      assert multiset(s) == multiset{s[0]} + multiset(s[1..]);
      DistinctCounts(s[1..], x);
    }
  }

  lemma DistinctPermutation<T>(s: seq<T>, t: seq<T>)
    requires Distinct(s) && Distinct(t) && forall x :: x in s <==> x in t
    ensures multiset(s) == multiset(t)
  {
    forall x
      ensures multiset(s)[x] == multiset(t)[x]
    {
      DistinctCounts(s, x);
      DistinctCounts(t, x);
    }
  }

  lemma CountWithFirst<T>(s: seq<T>, x: T)
    requires s != []
    ensures multiset(s)[x] == (if x == s[0] then 1 else 0) + multiset(s[1..])[x]
  {
    assert s == [s[0]] + s[1..];
  }

  lemma CountWithLast<T>(s: seq<T>, x: T)
    requires s != []
    ensures multiset(s)[x] == multiset(s[..|s| - 1])[x] + if x == s[|s| - 1] then 1 else 0
  {
    assert s == s[..|s| - 1] + [s[|s| - 1]];
  }
}
