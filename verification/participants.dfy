/** Operations on one activity's participant list: an ordered sequence of
    student emails, mutated in place by the handlers with Python's list
    `append` and `remove`. */
module Participants {
  import opened Seqs

  /** No element occurs twice. The handlers keep this for signup, unregister
      and delete, but it is not an invariant of every reachable state. */
  predicate NoDup<T(==)>(s: seq<T>) {
    forall i, j :: 0 <= i < j < |s| ==> s[i] != s[j]
  }

  /** The position of the first occurrence of `x`. */
  function FirstIndex<T(==)>(s: seq<T>, x: T): (i: nat)
    requires x in s
    ensures i < |s| && s[i] == x
    ensures x !in s[..i]
  {
    if s[0] == x then 0
    else
      var j := FirstIndex(s[1..], x);
      assert s[..j + 1] == [s[0]] + s[1..][..j];
      j + 1
  }

  /** Python's `list.remove(x)`: drops the first occurrence of `x`. Python
      raises `ValueError` when `x` is absent; every caller checks membership
      first, so that case is excluded here. */
  function RemoveFirst<T(==)>(s: seq<T>, x: T): (r: seq<T>)
    requires x in s
    ensures r == s[..FirstIndex(s, x)] + s[FirstIndex(s, x) + 1..]
  {
    if s[0] == x then s[1..]
    else
      var t := RemoveFirst(s[1..], x);
      var j := FirstIndex(s[1..], x);
      assert FirstIndex(s, x) == j + 1;
      assert s[..j + 1] == [s[0]] + s[1..][..j];
      assert s[j + 2..] == s[1..][j + 1..];
      [s[0]] + t
  }

  /** Removal takes exactly one copy of `x` out of the list's contents. */
  lemma RemoveFirstMultiset<T>(s: seq<T>, x: T)
    requires x in s
    ensures multiset(RemoveFirst(s, x)) == multiset(s) - multiset{x}
  {
    var i := FirstIndex(s, x);
    assert s == s[..i] + [x] + s[i + 1..];
  }

  /** Removal shortens the list by exactly one and leaves every other
      element's membership as it was. */
  lemma RemoveFirstMembers<T>(s: seq<T>, x: T, y: T)
    requires x in s
    ensures |RemoveFirst(s, x)| == |s| - 1
    ensures y != x ==> (y in RemoveFirst(s, x) <==> y in s)
  {
    var r := RemoveFirst(s, x);
    RemoveFirstMultiset(s, x);
    assert |multiset(r)| == |multiset(s)| - 1;
    assert y in r <==> y in multiset(r);
    assert y in s <==> y in multiset(s);
  }

  /** Without duplicates, removal leaves no copy of `x` behind and keeps the
      list duplicate-free. */
  lemma RemoveFirstNoDup<T>(s: seq<T>, x: T)
    requires x in s && NoDup(s)
    ensures x !in RemoveFirst(s, x)
    ensures NoDup(RemoveFirst(s, x))
  {
    var i := FirstIndex(s, x);
    var r := RemoveFirst(s, x);
    forall a | 0 <= a < |r| ensures r[a] != x {
      Splice(s, i, a);
    }
    forall a, b | 0 <= a < b < |r| ensures r[a] != r[b] {
      Splice(s, i, a);
      Splice(s, i, b);
    }
  }

  /** Appending an absent element keeps the list duplicate-free. */
  lemma AppendNoDup<T>(s: seq<T>, x: T)
    requires NoDup(s) && x !in s
    ensures NoDup(s + [x])
  {
    var r := s + [x];
    forall a, b | 0 <= a < b < |r| ensures r[a] != r[b] {
      if b == |s| {
        assert r[a] == s[a];
      }
    }
  }

  /** Appending `x` to a list that lacks it and then removing `x` gives back
      the original list. */
  lemma AppendThenRemove<T>(s: seq<T>, x: T)
    requires x !in s
    ensures RemoveFirst(s + [x], x) == s
  {
    assert (s + [x])[..|s|] == s;
  }

  /** With two copies of `x`, removal leaves the second one in place. */
  lemma RemoveFirstKeepsDuplicate<T>(s: seq<T>, x: T)
    requires multiset(s)[x] >= 2
    ensures x in s
    ensures x in RemoveFirst(s, x)
  {
    assert x in multiset(s);
    var r := RemoveFirst(s, x);
    RemoveFirstMultiset(s, x);
    assert multiset(r)[x] >= 1;
  }
}
