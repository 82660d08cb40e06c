/** Cutting the sorted key sequence into contiguous bins and recording a pivot
    for each bin.

    With `n` sorted keys and a bin size `b`, there are ceil(n / b) bins. Bin `i`
    (counted from 1) holds the keys at sorted positions (i-1)*b up to and
    including min(i*b - 1, n - 1), each with its value from the input map, and
    its pivot is the key at that last position. */
module Binning {
  import opened HexKeys
  import opened KeyOrder

  /** One key of a bin together with the value the input map gives it. */
  datatype Entry<V> = Entry(key: Key, value: V)

  /** A bin keeps its entries in sorted-key order. */
  type Bin<V> = seq<Entry<V>>

  /** Every key of the sequence has a value in the map. */
  predicate KeysIn<V>(sorted: seq<Key>, kv: map<Key, V>) {
    forall i :: 0 <= i < |sorted| ==> sorted[i] in kv
  }

  /** The number of bins, ceil(n / binSize): room for every key, and no bin left empty. */
  function NumBins(n: nat, binSize: nat): (r: nat)
    requires binSize >= 1
    ensures n <= r * binSize
    ensures n > 0 ==> (r - 1) * binSize < n
    ensures r == 0 <==> n == 0
  {
    CeilingDivision(n, binSize);
    (n + binSize - 1) / binSize
  }

  lemma CeilingDivision(n: nat, b: nat)
    requires b >= 1
    ensures var q := (n + b - 1) / b; n <= q * b && (n > 0 ==> (q - 1) * b < n) && (q == 0 <==> n == 0)
  {
    var q := (n + b - 1) / b;
    var rem := (n + b - 1) % b;
    assert q * b + rem == n + b - 1;
    assert (q - 1) * b == q * b - b;
    if q == 0 {
      assert rem == n + b - 1 < b;
    }
  }

  /** Sorted position of the first key of bin `i` (counted from 1). */
  function BinStart(i: nat, binSize: nat): (start: nat)
    requires i >= 1
  {
    (i - 1) * binSize
  }

  /** Sorted position of the pivot of bin `i` (counted from 1): the last position
      of the bin. Every bin but the last ends after exactly `binSize` keys; the
      last ends at the last key. */
  function PivotIndex(i: nat, n: nat, binSize: nat): (r: nat)
    requires binSize >= 1 && 1 <= i <= NumBins(n, binSize)
    ensures BinStart(i, binSize) <= r < n
    ensures r - BinStart(i, binSize) < binSize
    ensures i < NumBins(n, binSize) ==> r - BinStart(i, binSize) == binSize - 1
    ensures i == NumBins(n, binSize) ==> r == n - 1
  {
    BinEndBounds(i, NumBins(n, binSize), n, binSize);
    if i * binSize - 1 >= n then n - 1 else i * binSize - 1
  }

  lemma BinEndBounds(i: nat, numBins: nat, n: nat, b: nat)
    requires b >= 1 && 1 <= i <= numBins
    requires n <= numBins * b && (numBins - 1) * b < n
    ensures (i - 1) * b < n && i * b == (i - 1) * b + b
    ensures i < numBins ==> i * b <= n - 1
    ensures i == numBins ==> n <= i * b
  {
    MulMonotone(i - 1, numBins - 1, b);
    if i < numBins {
      MulMonotone(i, numBins - 1, b);
    }
  }

  lemma MulMonotone(x: nat, y: nat, b: nat)
    requires x <= y
    ensures x * b <= y * b
  {
  }

  /** The entries for sorted positions lo up to hi - 1, each key with its value. */
  function Entries<V>(sorted: seq<Key>, kv: map<Key, V>, lo: nat, hi: nat): (r: Bin<V>)
    requires lo <= hi <= |sorted| && KeysIn(sorted, kv)
    ensures |r| == hi - lo
    ensures forall t :: 0 <= t < |r| ==> r[t] == Entry(sorted[lo + t], kv[sorted[lo + t]])
    decreases hi
  {
    if lo == hi then [] else Entries(sorted, kv, lo, hi - 1) + [Entry(sorted[hi - 1], kv[sorted[hi - 1]])]
  }

  /** Bin `i` (counted from 1). */
  function BinAt<V>(sorted: seq<Key>, kv: map<Key, V>, binSize: nat, i: nat): (bin: Bin<V>)
    requires binSize >= 1 && 1 <= i <= NumBins(|sorted|, binSize) && KeysIn(sorted, kv)
  {
    Entries(sorted, kv, BinStart(i, binSize), PivotIndex(i, |sorted|, binSize) + 1)
  }

  /** The pivots, in bin order. */
  function Pivots(sorted: seq<Key>, binSize: nat): (ps: seq<Key>)
    requires binSize >= 1
    ensures |ps| == NumBins(|sorted|, binSize)
  {
    var numBins := NumBins(|sorted|, binSize);
    seq(numBins, k requires 0 <= k < numBins => sorted[PivotIndex(k + 1, |sorted|, binSize)])
  }

  /** The bins, in order. */
  function Bins<V>(sorted: seq<Key>, kv: map<Key, V>, binSize: nat): (bs: seq<Bin<V>>)
    requires binSize >= 1 && KeysIn(sorted, kv)
    ensures |bs| == NumBins(|sorted|, binSize)
  {
    var numBins := NumBins(|sorted|, binSize);
    seq(numBins, k requires 0 <= k < numBins => BinAt(sorted, kv, binSize, k + 1))
  }

  /** The bins' entries one after another. */
  function Flatten<V>(bins: seq<Bin<V>>): (entries: seq<Entry<V>>)
  {
    if bins == [] then [] else Flatten(bins[..|bins| - 1]) + bins[|bins| - 1]
  }

  function KeysOf<V>(entries: seq<Entry<V>>): (ks: seq<Key>)
    ensures |ks| == |entries|
    ensures forall t :: 0 <= t < |ks| ==> ks[t] == entries[t].key
  {
    seq(|entries|, t requires 0 <= t < |entries| => entries[t].key)
  }

  /** The partition loop of `uploadData`: for every bin it records the pivot and
      collects the bin's entries, one key at a time. */
  method Partition<V>(sortedKeys: seq<Key>, keyValueMap: map<Key, V>, binSize: nat)
    returns (pivots: seq<Key>, dataBins: seq<Bin<V>>)
    requires binSize >= 1 && KeysIn(sortedKeys, keyValueMap)
    ensures |pivots| == |dataBins| == NumBins(|sortedKeys|, binSize)
    ensures pivots == Pivots(sortedKeys, binSize)
    ensures dataBins == Bins(sortedKeys, keyValueMap, binSize)
  {
    var n := |sortedKeys|;
    pivots, dataBins := [], [];
    var numBins := NumBins(n, binSize);
    for i := 1 to numBins + 1
      invariant |pivots| == |dataBins| == i - 1
      invariant forall k :: 0 <= k < i - 1 ==> pivots[k] == sortedKeys[PivotIndex(k + 1, n, binSize)]
      invariant forall k :: 0 <= k < i - 1 ==> dataBins[k] == BinAt(sortedKeys, keyValueMap, binSize, k + 1)
    {
      var pivotIdx := i * binSize - 1;
      if pivotIdx >= n {
        pivotIdx := n - 1;
      }
      assert pivotIdx == PivotIndex(i, n, binSize);
      var pivot := sortedKeys[pivotIdx];
      pivots := pivots + [pivot];

      var bin: Bin<V> := [];
      var binStartIdx := (i - 1) * binSize;
      for j := binStartIdx to pivotIdx + 1
        invariant bin == Entries(sortedKeys, keyValueMap, binStartIdx, j)
      {
        var key := sortedKeys[j];
        var value := keyValueMap[key];
        bin := bin + [Entry(key, value)];
      }
      dataBins := dataBins + [bin];
    }
  }

  /** Bin `k` (counted from 0) holds exactly the keys at sorted positions
      k*binSize up to its pivot's position, each with its value from the map. */
  lemma BinCoversSlice<V>(sorted: seq<Key>, kv: map<Key, V>, binSize: nat, k: nat)
    requires binSize >= 1 && KeysIn(sorted, kv) && k < NumBins(|sorted|, binSize)
    ensures KeysOf(Bins(sorted, kv, binSize)[k]) == sorted[k * binSize..PivotIndex(k + 1, |sorted|, binSize) + 1]
    ensures forall e :: e in Bins(sorted, kv, binSize)[k] ==> e.key in kv && e.value == kv[e.key]
  {
    var bin := Bins(sorted, kv, binSize)[k];
    var lo := BinStart(k + 1, binSize);
    assert lo == k * binSize;
    assert bin == Entries(sorted, kv, lo, PivotIndex(k + 1, |sorted|, binSize) + 1);
    forall e | e in bin
      ensures e.key in kv && e.value == kv[e.key]
    {
      var t :| 0 <= t < |bin| && bin[t] == e;
      assert e == Entry(sorted[lo + t], kv[sorted[lo + t]]);
    }
  }

  /** Every bin but the last holds exactly `binSize` entries; the last holds
      between one and `binSize`, namely what is left after the full bins. */
  lemma BinSizes<V>(sorted: seq<Key>, kv: map<Key, V>, binSize: nat, k: nat)
    requires binSize >= 1 && KeysIn(sorted, kv) && k < NumBins(|sorted|, binSize)
    ensures 1 <= |Bins(sorted, kv, binSize)[k]| <= binSize
    ensures k < NumBins(|sorted|, binSize) - 1 ==> |Bins(sorted, kv, binSize)[k]| == binSize
    ensures k == NumBins(|sorted|, binSize) - 1 ==>
              |Bins(sorted, kv, binSize)[k]| == |sorted| - k * binSize
  {
    assert Bins(sorted, kv, binSize)[k] == BinAt(sorted, kv, binSize, k + 1);
    assert BinStart(k + 1, binSize) == k * binSize;
  }

  /** Pivot `k` is the last key of bin `k`. */
  lemma PivotIsLastKeyOfBin<V>(sorted: seq<Key>, kv: map<Key, V>, binSize: nat, k: nat)
    requires binSize >= 1 && KeysIn(sorted, kv) && k < NumBins(|sorted|, binSize)
    ensures |Bins(sorted, kv, binSize)[k]| > 0
    ensures Bins(sorted, kv, binSize)[k][|Bins(sorted, kv, binSize)[k]| - 1].key == Pivots(sorted, binSize)[k]
  {
    var bin := Bins(sorted, kv, binSize)[k];
    assert bin == BinAt(sorted, kv, binSize, k + 1);
    var last := PivotIndex(k + 1, |sorted|, binSize);
    assert bin[|bin| - 1] == Entry(sorted[last], kv[sorted[last]]);
  }

  /** Two adjacent lists of entries join into the entries of the joined positions. */
  lemma EntriesAppend<V>(sorted: seq<Key>, kv: map<Key, V>, lo: nat, mid: nat, hi: nat)
    requires lo <= mid <= hi <= |sorted| && KeysIn(sorted, kv)
    ensures Entries(sorted, kv, lo, mid) + Entries(sorted, kv, mid, hi) == Entries(sorted, kv, lo, hi)
  {
    var joined := Entries(sorted, kv, lo, mid) + Entries(sorted, kv, mid, hi);
    var whole := Entries(sorted, kv, lo, hi);
    assert |joined| == |whole|;
    forall t | 0 <= t < |whole|
      ensures joined[t] == whole[t]
    {
      if t < mid - lo {
        assert joined[t] == Entries(sorted, kv, lo, mid)[t];
      } else {
        assert joined[t] == Entries(sorted, kv, mid, hi)[t - (mid - lo)];
      }
    }
  }

  /** The number of sorted positions that the first `m` bins cover. */
  function CoveredBy(m: nat, n: nat, binSize: nat): (r: nat)
    requires binSize >= 1 && m <= NumBins(n, binSize)
    ensures r <= n
    ensures m == NumBins(n, binSize) ==> r == n
  {
    if m == 0 then 0 else PivotIndex(m, n, binSize) + 1
  }

  /** The first `m` bins together hold exactly the sorted positions they cover. */
  lemma {:induction false} FlattenPrefix<V>(sorted: seq<Key>, kv: map<Key, V>, binSize: nat, m: nat)
    requires binSize >= 1 && KeysIn(sorted, kv) && m <= NumBins(|sorted|, binSize)
    ensures Flatten(Bins(sorted, kv, binSize)[..m]) == Entries(sorted, kv, 0, CoveredBy(m, |sorted|, binSize))
  {
    var bins := Bins(sorted, kv, binSize);
    if m > 0 {
      FlattenPrefix(sorted, kv, binSize, m - 1);
      var start, end := BinBounds(sorted, kv, binSize, m);
      assert Flatten(bins[..m]) == Flatten(bins[..m - 1]) + bins[m - 1] by {
        assert bins[..m][..m - 1] == bins[..m - 1];
      }
      EntriesAppend(sorted, kv, 0, start, end);
    }
  }

  /** Bin `m` (counted from 1) starts where the bins before it stop and ends
      where the first `m` bins stop. */
  lemma BinBounds<V>(sorted: seq<Key>, kv: map<Key, V>, binSize: nat, m: nat) returns (start: nat, end: nat)
    requires binSize >= 1 && KeysIn(sorted, kv) && 1 <= m <= NumBins(|sorted|, binSize)
    ensures start == CoveredBy(m - 1, |sorted|, binSize)
    ensures end == CoveredBy(m, |sorted|, binSize) && start <= end
    ensures Bins(sorted, kv, binSize)[m - 1] == Entries(sorted, kv, start, end)
  {
    start := BinStart(m, binSize);
    end := PivotIndex(m, |sorted|, binSize) + 1;
    if m > 1 {
      assert BinStart(m, binSize) == BinStart(m - 1, binSize) + binSize;
    }
  }

  /** Partition completeness: the bins, read one after another, are exactly the
      sorted keys with their values, with no key left out, repeated or moved. */
  lemma BinsPartitionSortedKeys<V>(sorted: seq<Key>, kv: map<Key, V>, binSize: nat)
    requires binSize >= 1 && KeysIn(sorted, kv)
    ensures Flatten(Bins(sorted, kv, binSize)) == Entries(sorted, kv, 0, |sorted|)
    ensures KeysOf(Flatten(Bins(sorted, kv, binSize))) == sorted
  {
    var bins := Bins(sorted, kv, binSize);
    FlattenPrefix(sorted, kv, binSize, |bins|);
    assert bins[..|bins|] == bins;
  }

  /** The pivot of bin `k` sits at a later sorted position than the pivot of any
      earlier bin. */
  lemma PivotIndexIncreasing(n: nat, binSize: nat, k1: nat, k2: nat)
    requires binSize >= 1 && 1 <= k1 < k2 <= NumBins(n, binSize)
    ensures PivotIndex(k1, n, binSize) < PivotIndex(k2, n, binSize)
  {
    MulMonotone(k1, k2 - 1, binSize);
    assert BinStart(k1 + 1, binSize) == BinStart(k1, binSize) + binSize;
  }

  /** Where an entry of bin `k` comes from: a sorted position inside the bin's
      slice, whose key and value it carries. */
  lemma EntryPosition<V>(sorted: seq<Key>, kv: map<Key, V>, binSize: nat, k: nat, e: Entry<V>)
    returns (pos: nat)
    requires binSize >= 1 && KeysIn(sorted, kv) && k < NumBins(|sorted|, binSize)
    requires e in Bins(sorted, kv, binSize)[k]
    ensures BinStart(k + 1, binSize) <= pos <= PivotIndex(k + 1, |sorted|, binSize)
    ensures e == Entry(sorted[pos], kv[sorted[pos]])
  {
    var bin := Bins(sorted, kv, binSize)[k];
    assert bin == BinAt(sorted, kv, binSize, k + 1);
    var t :| 0 <= t < |bin| && bin[t] == e;
    pos := BinStart(k + 1, binSize) + t;
  }

  /** With the keys sorted by number, no key of bin `k` is above its pivot. */
  lemma PivotIsBinMaximum<V>(sorted: seq<Key>, kv: map<Key, V>, binSize: nat, k: nat)
    requires binSize >= 1 && KeysIn(sorted, kv) && SortedByValue(sorted)
    requires k < NumBins(|sorted|, binSize)
    ensures forall e :: e in Bins(sorted, kv, binSize)[k] ==>
              KeyValue(e.key) <= KeyValue(Pivots(sorted, binSize)[k])
  {
    var p := PivotIndex(k + 1, |sorted|, binSize);
    assert Pivots(sorted, binSize)[k] == sorted[p];
    forall e: Entry<V> | e in Bins(sorted, kv, binSize)[k]
      ensures KeyValue(e.key) <= KeyValue(sorted[p])
    {
      var pos := EntryPosition(sorted, kv, binSize, k, e);
    }
  }

  /** With the keys sorted by number, no key of a bin after bin `k` is below
      bin `k`'s pivot: the pivots route every key to its bin. */
  lemma PivotBoundsLaterBins<V>(sorted: seq<Key>, kv: map<Key, V>, binSize: nat, k: nat, k2: nat)
    requires binSize >= 1 && KeysIn(sorted, kv) && SortedByValue(sorted)
    requires k < k2 < NumBins(|sorted|, binSize)
    ensures forall e :: e in Bins(sorted, kv, binSize)[k2] ==>
              KeyValue(Pivots(sorted, binSize)[k]) <= KeyValue(e.key)
  {
    var n := |sorted|;
    var p := PivotIndex(k + 1, n, binSize);
    assert Pivots(sorted, binSize)[k] == sorted[p];
    assert p < BinStart(k2 + 1, binSize) by {
      MulMonotone(k + 1, k2, binSize);
      assert BinStart(k + 2, binSize) == BinStart(k + 1, binSize) + binSize;
    }
    forall e: Entry<V> | e in Bins(sorted, kv, binSize)[k2]
      ensures KeyValue(sorted[p]) <= KeyValue(e.key)
    {
      var pos := EntryPosition(sorted, kv, binSize, k2, e);
    }
  }

  /** The pivots of keys sorted by number are sorted by number; when no two keys
      share a number, the pivots strictly increase. */
  lemma PivotsOrdered(sorted: seq<Key>, binSize: nat)
    requires binSize >= 1 && SortedByValue(sorted)
    ensures SortedByValue(Pivots(sorted, binSize))
    ensures DistinctValues(sorted) ==>
              forall i, j :: 0 <= i < j < |Pivots(sorted, binSize)| ==>
                KeyValue(Pivots(sorted, binSize)[i]) < KeyValue(Pivots(sorted, binSize)[j])
  {
    var n := |sorted|;
    var ps := Pivots(sorted, binSize);
    assert forall i :: 0 <= i < |ps| ==> ps[i] == sorted[PivotIndex(i + 1, n, binSize)];
    forall i, j | 0 <= i < j < |ps|
      ensures KeyValue(ps[i]) <= KeyValue(ps[j])
      ensures DistinctValues(sorted) ==> KeyValue(ps[i]) < KeyValue(ps[j])
    {
      PivotIndexIncreasing(n, binSize, i + 1, j + 1);
    }
  }

  /** An empty map gives no bins and no pivots. */
  lemma EmptyInputHasNoBins<V>(kv: map<Key, V>, binSize: nat)
    requires binSize >= 1
    ensures Pivots([], binSize) == [] && Bins([], kv, binSize) == []
  {
  }
}
