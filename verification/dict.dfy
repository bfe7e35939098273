/** An insertion-ordered dictionary with the semantics of a Python `dict`:
    an association list whose keys are pairwise distinct. Assigning to an
    existing key keeps its position, assigning to a new key appends it, and
    popping a key removes its entry and closes the gap. */
module Dict {
  import opened Options
  import opened Seqs

  /** No key occurs twice. */
  predicate Valid<K(==), V>(d: seq<(K, V)>) {
    forall i, j :: 0 <= i < j < |d| ==> d[i].0 != d[j].0
  }

  type Dict<K(==), V> = d: seq<(K, V)> | Valid(d) witness []

  /** The keys in iteration order. */
  function Keys<K, V>(d: seq<(K, V)>): (ks: seq<K>)
    ensures |ks| == |d|
    ensures forall i :: 0 <= i < |d| ==> ks[i] == d[i].0
  {
    seq(|d|, i requires 0 <= i < |d| => d[i].0)
  }

  /** The position of the first entry stored under `k`, if any. */
  function IndexOf<K(==), V>(d: seq<(K, V)>, k: K): (r: Option<nat>)
    ensures r.Some? ==> r.value < |d| && d[r.value].0 == k
    ensures r.Some? ==> forall i :: 0 <= i < r.value ==> d[i].0 != k
    ensures r.None? <==> k !in Keys(d)
  {
    if d == [] then None
    else if d[0].0 == k then Some(0)
    else match IndexOf(d[1..], k)
      case None => None
      case Some(i) => Some(i + 1)
  }

  /** The first entry stored under `k` is the one `IndexOf` finds. This
      restates `IndexOf`'s contract in the form its callers need. */
  lemma IndexOfFirst<K, V>(d: seq<(K, V)>, k: K, i: nat)
    requires i < |d| && d[i].0 == k
    requires forall j :: 0 <= j < i ==> d[j].0 != k
    ensures IndexOf(d, k) == Some(i)
  {
  }

  /** With distinct keys, the entry stored under `k` is the only one. */
  lemma IndexOfUnique<K, V>(d: Dict<K, V>, k: K, i: nat)
    requires i < |d| && d[i].0 == k
    ensures IndexOf(d, k) == Some(i)
  {
    IndexOfFirst(d, k, i);
  }

  /** Lookup (`d.get(k)`): the value stored under `k`, if any. */
  function Get<K(==), V>(d: Dict<K, V>, k: K): (r: Option<V>)
    ensures r.Some? <==> k in Keys(d)
    ensures r.Some? ==> (k, r.value) in d
  {
    match IndexOf(d, k)
    case None => None
    case Some(i) => Some(d[i].1)
  }

  /** Lookup returns `Some(v)` exactly for the entries `(k, v)`: with
      distinct keys no other value can be stored under `k`. */
  lemma GetEntry<K, V>(d: Dict<K, V>, k: K, v: V)
    ensures Get(d, k) == Some(v) <==> (k, v) in d
  {
    if (k, v) in d {
      var a :| 0 <= a < |d| && d[a] == (k, v);
      IndexOfUnique(d, k, a);
    }
  }


  /** Assignment `d[k] = v`: overwrites in place when `k` is present,
      appends a new entry otherwise. */
  function Put<K(==,!new), V(!new)>(d: Dict<K, V>, k: K, v: V): (r: Dict<K, V>)
    ensures Get(r, k) == Some(v)
    ensures forall j :: j != k ==> Get(r, j) == Get(d, j)
    ensures k in Keys(d) ==> Keys(r) == Keys(d)
    ensures k in Keys(d) ==> r == d[IndexOf(d, k).value := (k, v)]
    ensures k !in Keys(d) ==> r == d + [(k, v)]
  {
    match IndexOf(d, k)
    case Some(i) =>
      var r := d[i := (k, v)];
      assert Keys(r) == Keys(d);
      assert Valid(r);
      GetEntry(r, k, v);
      forall j | j != k ensures Get(r, j) == Get(d, j) {
        if Get(d, j).Some? {
          var a :| 0 <= a < |d| && d[a] == (j, Get(d, j).value);
          assert r[a] == d[a];
          GetEntry(r, j, Get(d, j).value);
        }
        if Get(r, j).Some? {
          var a :| 0 <= a < |r| && r[a] == (j, Get(r, j).value);
          assert r[a] == d[a];
          GetEntry(d, j, Get(r, j).value);
        }
      }
      r
    case None =>
      var r := d + [(k, v)];
      assert Valid(r) by {
        forall a, b | 0 <= a < b < |r| ensures r[a].0 != r[b].0 {
          if b == |d| {
            assert Keys(d)[a] == r[a].0;
          }
        }
      }
      assert r[|d|] == (k, v);
      GetEntry(r, k, v);
      forall j | j != k ensures Get(r, j) == Get(d, j) {
        if Get(d, j).Some? {
          GetEntry(r, j, Get(d, j).value);
        }
        if Get(r, j).Some? {
          GetEntry(d, j, Get(r, j).value);
        }
      }
      r
  }

  /** Overwriting a present key changes nothing before or after its
      position, and the key stays where it was. */
  lemma PutInPlace<K(!new), V(!new)>(d: Dict<K, V>, k: K, v: V)
    requires k in Keys(d)
    ensures IndexOf(Put(d, k, v), k) == IndexOf(d, k)
    ensures var i := IndexOf(d, k).value;
      Put(d, k, v)[..i] == d[..i] && Put(d, k, v)[i + 1..] == d[i + 1..]
  {
    var i := IndexOf(d, k).value;
    var p := Put(d, k, v);
    assert p == d[i := (k, v)];
    IndexOfUnique(p, k, i);
    assert p[..i] == d[..i];
    assert p[i + 1..] == d[i + 1..];
  }

  /** Cutting out the entry at position `i` keeps the other entries and
      their distinct keys. */
  lemma PopAt<K, V>(d: Dict<K, V>, i: nat)
    requires i < |d|
    ensures Valid(d[..i] + d[i + 1..])
    ensures forall e :: e in d[..i] + d[i + 1..] <==> e in d && e.0 != d[i].0
  {
    var r := d[..i] + d[i + 1..];
    forall a, b | 0 <= a < b < |r| ensures r[a].0 != r[b].0 {
      Splice(d, i, a);
      Splice(d, i, b);
    }
    forall e ensures e in r <==> e in d && e.0 != d[i].0 {
      if e in r {
        var a :| 0 <= a < |r| && r[a] == e;
        Splice(d, i, a);
      }
      if e in d && e.0 != d[i].0 {
        var a :| 0 <= a < |d| && d[a] == e;
        Splice(d, i, if a < i then a else a - 1);
      }
    }
  }

  /** `d.pop(k)` with its value discarded: removes the entry stored under `k`. */
  function Pop<K(==,!new), V(!new)>(d: Dict<K, V>, k: K): (r: Dict<K, V>)
    ensures k !in Keys(r)
    ensures k !in Keys(d) ==> r == d
    ensures k in Keys(d) ==> |r| == |d| - 1
    ensures k in Keys(d) ==> r == d[..IndexOf(d, k).value] + d[IndexOf(d, k).value + 1..]
    ensures forall e :: e in r <==> e in d && e.0 != k
    ensures forall j :: j != k ==> Get(r, j) == Get(d, j)
  {
    match IndexOf(d, k)
    case None => d
    case Some(i) =>
      PopAt(d, i);
      var r := d[..i] + d[i + 1..];
      assert k !in Keys(r);
      assert forall j :: j != k ==> Get(r, j) == Get(d, j) by {
        forall j | j != k ensures Get(r, j) == Get(d, j) {
          if Get(r, j).Some? {
            GetEntry(d, j, Get(r, j).value);
          }
          if Get(d, j).Some? {
            GetEntry(r, j, Get(d, j).value);
          }
        }
      }
      r
  }

  /** The value stored at a position is what lookup of its key returns. */
  lemma GetAt<K, V(!new)>(d: Dict<K, V>, i: int)
    requires 0 <= i < |d|
    ensures Get(d, d[i].0) == Some(d[i].1)
  {
    assert d[i] in d;
  }

  /** Two dicts with the same key order and the same lookups are equal. */
  lemma SameLookups<K(!new), V(!new)>(a: Dict<K, V>, b: Dict<K, V>)
    requires Keys(a) == Keys(b)
    requires forall k :: Get(a, k) == Get(b, k)
    ensures a == b
  {
    assert |a| == |b|;
    forall i | 0 <= i < |a| ensures a[i] == b[i] {
      assert Keys(a)[i] == Keys(b)[i];
      GetAt(a, i);
      GetAt(b, i);
    }
  }

  /** The entries whose value satisfies `keep`, in their original order. */
  function FilterEntries<K(!new), V(!new)>(d: seq<(K, V)>, keep: V -> bool): (r: seq<(K, V)>)
    ensures forall e :: e in r <==> e in d && keep(e.1)
    ensures (forall i :: 0 <= i < |d| ==> keep(d[i].1)) ==> r == d
  {
    if d == [] then []
    else
      assert d == [d[0]] + d[1..];
      if keep(d[0].1) then [d[0]] + FilterEntries(d[1..], keep)
      else FilterEntries(d[1..], keep)
  }

  /** Prepending an entry whose key the rest never uses keeps the keys distinct. */
  lemma PrependValid<K, V>(e: (K, V), t: seq<(K, V)>)
    requires Valid(t)
    requires forall j :: 0 <= j < |t| ==> t[j].0 != e.0
    ensures Valid([e] + t)
  {
    var r := [e] + t;
    forall a, b | 0 <= a < b < |r| ensures r[a].0 != r[b].0 {
      assert r[b] == t[b - 1];
      if a > 0 {
        assert r[a] == t[a - 1];
      }
    }
  }

  /** Dropping entries never makes two keys equal. */
  lemma {:induction false} FilterEntriesValid<K(!new), V(!new)>(d: seq<(K, V)>, keep: V -> bool)
    requires Valid(d)
    ensures Valid(FilterEntries(d, keep))
  {
    if d != [] {
      var tail := d[1..];
      FilterEntriesValid(tail, keep);
      var t := FilterEntries(tail, keep);
      if keep(d[0].1) {
        forall b | 0 <= b < |t| ensures t[b].0 != d[0].0 {
          assert t[b] in tail;
          var j :| 0 <= j < |tail| && tail[j] == t[b];
          assert d[j + 1] == t[b];
        }
        PrependValid(d[0], t);
      }
    }
  }


  /** The entries whose value satisfies `keep`, in their original order
      (a Python dict comprehension with an `if` clause). */
  function Filter<K(==,!new), V(!new)>(d: Dict<K, V>, keep: V -> bool): (r: Dict<K, V>)
    ensures forall e :: e in r <==> e in d && keep(e.1)
    ensures forall k :: k in Keys(r) ==> k in Keys(d)
    ensures (forall i :: 0 <= i < |d| ==> keep(d[i].1)) ==> r == d
  {
    FilterEntriesValid(d, keep);
    var r := FilterEntries(d, keep);
    assert forall k :: k in Keys(r) ==> k in Keys(d) by {
      forall k | k in Keys(r) ensures k in Keys(d) {
        var i :| 0 <= i < |r| && r[i].0 == k;
        assert r[i] in d;
      }
    }
    r
  }

  /** Filtering by two predicates gives the same dict in either order. */
  lemma {:induction false} FilterCommutes<K(!new), V(!new)>(d: Dict<K, V>, p: V -> bool, q: V -> bool)
    ensures Filter(Filter(d, p), q) == Filter(Filter(d, q), p)
  {
    if d != [] {
      var tail: Dict<K, V> := d[1..];
      FilterCommutes(tail, p, q);
    }
  }

  /** Filtering depends only on which values the predicate keeps. */
  lemma {:induction false} FilterCongruent<K(!new), V(!new)>(d: Dict<K, V>, p: V -> bool, q: V -> bool)
    requires forall i :: 0 <= i < |d| ==> p(d[i].1) == q(d[i].1)
    ensures Filter(d, p) == Filter(d, q)
  {
    if d != [] {
      var tail: Dict<K, V> := d[1..];
      FilterCongruent(tail, p, q);
    }
  }
}
