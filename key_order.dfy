/** Ordering the keys of the input map by their numbers, as `uploadData` does
    before it bins them. */
module KeyOrder {
  import opened HexKeys

  /** Every key is well formed and the numbers never decrease along the sequence. */
  predicate SortedByValue(s: seq<Key>) {
    && (forall i :: 0 <= i < |s| ==> WellFormedKey(s[i]))
    && (forall i, j :: 0 <= i < j < |s| ==> KeyValue(s[i]) <= KeyValue(s[j]))
  }

  /** Every key is well formed and no two positions hold keys of the same number. */
  predicate DistinctValues(s: seq<Key>) {
    && (forall i :: 0 <= i < |s| ==> WellFormedKey(s[i]))
    && (forall i, j :: 0 <= i < j < |s| ==> KeyValue(s[i]) != KeyValue(s[j]))
  }

  /** No two distinct keys of the set share a number. */
  predicate ValuesInjective(keys: set<Key>)
    requires AllWellFormed(keys)
  {
    forall a, b :: a in keys && b in keys && KeyValue(a) == KeyValue(b) ==> a == b
  }

  /** Inserts `k` into a sorted sequence after every key whose number is not
      above `k`'s, scanning with the comparator. */
  method InsertByValue(s: seq<Key>, k: Key) returns (r: seq<Key>)
    requires SortedByValue(s) && WellFormedKey(k)
    ensures SortedByValue(r)
    ensures multiset(r) == multiset(s) + multiset{k}
  {
    var j := 0;
    while j < |s| && Compare(s[j], k) <= 0
      invariant 0 <= j <= |s|
      invariant forall t :: 0 <= t < j ==> KeyValue(s[t]) <= KeyValue(k)
    {
      j := j + 1;
    }
    if j < |s| {
      assert KeyValue(k) < KeyValue(s[j]);
    }
    r := s[..j] + [k] + s[j..];
    InsertionPointSorted(s, k, j);
    assert s == s[..j] + s[j..];
  }

  /** Putting `k` at a position that has every key not above it on its left and
      every key above it on its right keeps a sequence sorted. */
  lemma InsertionPointSorted(s: seq<Key>, k: Key, j: nat)
    requires SortedByValue(s) && WellFormedKey(k) && j <= |s|
    requires forall t :: 0 <= t < j ==> KeyValue(s[t]) <= KeyValue(k)
    requires j < |s| ==> KeyValue(k) < KeyValue(s[j])
    ensures SortedByValue(s[..j] + [k] + s[j..])
  {
    var r := s[..j] + [k] + s[j..];
    assert forall t :: 0 <= t < |r| ==> r[t] == (if t < j then s[t] else if t == j then k else s[t - 1]);
    forall a, b | 0 <= a < b < |r|
      ensures KeyValue(r[a]) <= KeyValue(r[b])
    {
      if b < j {
        assert r[a] == s[a] && r[b] == s[b];
      } else if b == j {
        assert r[a] == s[a] && r[b] == k;
      } else if a < j {
        assert r[a] == s[a] && r[b] == s[b - 1];
        assert KeyValue(k) <= KeyValue(s[b - 1]) by {
          assert KeyValue(s[j]) <= KeyValue(s[b - 1]);
        }
      } else if a == j {
        assert r[a] == k && r[b] == s[b - 1];
        assert KeyValue(s[j]) <= KeyValue(s[b - 1]);
      } else {
        assert r[a] == s[a - 1] && r[b] == s[b - 1];
      }
    }
  }

  /** The keys of `keyValueMap`, sorted by number: the result holds every key of
      the map exactly once, in an order whose numbers never decrease. The keys are
      taken from the map in an unspecified order, as `Object.keys` gives them. */
  method SortKeys<V>(keyValueMap: map<Key, V>) returns (sorted: seq<Key>)
    requires AllWellFormed(keyValueMap.Keys)
    ensures multiset(sorted) == multiset(keyValueMap.Keys)
    ensures SortedByValue(sorted)
  {
    var remaining := keyValueMap.Keys;
    sorted := [];
    while remaining != {}
      invariant remaining <= keyValueMap.Keys
      invariant multiset(sorted) + multiset(remaining) == multiset(keyValueMap.Keys)
      invariant SortedByValue(sorted)
      decreases remaining
    {
      var k :| k in remaining;
      sorted := InsertByValue(sorted, k);
      assert multiset(remaining) == multiset(remaining - {k}) + multiset{k};
      remaining := remaining - {k};
    }
  }

  /** A sequence holding each key of a set once is the set's only ordering by
      number when no two keys share a number: sorting is deterministic then. */
  lemma {:induction false} SortedOrderingUnique(s1: seq<Key>, s2: seq<Key>)
    requires SortedByValue(s1) && SortedByValue(s2)
    requires multiset(s1) == multiset(s2)
    requires DistinctValues(s1)
    ensures s1 == s2
    decreases |s1|
  {
    assert |s1| == |multiset(s1)| == |s2|;
    if |s1| > 0 {
      var i := IndexOf(s1, s2[0]);
      var j := IndexOf(s2, s1[0]);
      assert KeyValue(s1[0]) <= KeyValue(s1[i]);
      assert KeyValue(s2[0]) <= KeyValue(s2[j]);
      assert i == 0;
      TailOrdered(s1);
      TailOrdered(s2);
      DropSameHead(s1, s2);
      SortedOrderingUnique(s1[1..], s2[1..]);
    }
  }

  /** Two permutations of each other that start with the same key are still
      permutations of each other without it. */
  lemma DropSameHead(s1: seq<Key>, s2: seq<Key>)
    requires multiset(s1) == multiset(s2) && |s1| > 0 && |s2| > 0 && s1[0] == s2[0]
    ensures multiset(s1[1..]) == multiset(s2[1..])
  {
    assert s1 == [s1[0]] + s1[1..] && s2 == [s2[0]] + s2[1..];
    assert multiset(s1) == multiset{s1[0]} + multiset(s1[1..]);
    assert multiset(s2) == multiset{s1[0]} + multiset(s2[1..]);
    forall x
      ensures multiset(s1[1..])[x] == multiset(s2[1..])[x]
    {
      assert multiset(s1)[x] == multiset(s2)[x];
    }
  }

  /** A position of `k` in `s`, which holds `k`. */
  lemma IndexOf(s: seq<Key>, k: Key) returns (i: nat)
    requires k in multiset(s)
    ensures i < |s| && s[i] == k
  {
    i :| i < |s| && s[i] == k;
  }

  /** Dropping the first key keeps a sequence sorted and its numbers distinct. */
  lemma TailOrdered(s: seq<Key>)
    requires |s| > 0
    ensures SortedByValue(s) ==> SortedByValue(s[1..])
    ensures DistinctValues(s) ==> DistinctValues(s[1..])
  {
    assert forall t :: 0 <= t < |s| - 1 ==> s[1..][t] == s[t + 1];
  }

  /** When the map's keys have pairwise different numbers, an ordering of them by
      number has pairwise different numbers too. */
  lemma OrderingOfInjectiveKeys(s: seq<Key>, keys: set<Key>)
    requires AllWellFormed(keys) && ValuesInjective(keys)
    requires multiset(s) == multiset(keys)
    ensures DistinctValues(s)
  {
    forall i | 0 <= i < |s|
      ensures s[i] in keys
    {
      assert s[i] in multiset(s);
    }
    forall i, j | 0 <= i < j < |s|
      ensures s[i] != s[j]
    {
      RepeatCountsTwice(s, i, j);
    }
  }

  lemma RepeatCountsTwice(s: seq<Key>, i: nat, j: nat)
    requires i < j < |s|
    ensures s[i] == s[j] ==> multiset(s)[s[i]] >= 2
  {
    assert s == s[..i] + [s[i]] + s[i + 1..j] + [s[j]] + s[j + 1..];
  }
}
