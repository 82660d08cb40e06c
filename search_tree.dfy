/** The tree builder: it holds the input map, the metadata and the bin size,
    and `UploadData` sorts the keys, bins them, stores every bin, and stores a
    root descriptor that ties pivots, bin addresses and the sorted keys
    together.

    The content-addressed store is not part of the model: storing a bin or the
    root is a function from the stored value to its address, passed in by the
    caller. */
module SearchTree {
  import opened HexKeys
  import opened KeyOrder
  import opened Binning

  /** The bin size used when the caller gives none. */
  const DefaultBinSize: nat := 500

  /** The root object: the caller's metadata, the pivots, one bin address per
      pivot, and every key in sorted order. */
  datatype RootDescriptor<M, A> = RootDescriptor(metadata: M, pivots: seq<Key>, bins: seq<A>, keys: seq<Key>)

  /** The root descriptor built from one ordering of the keys. */
  function Descriptor<V, M, A>(metadata: M, sorted: seq<Key>, kv: map<Key, V>, binSize: nat, putBin: Bin<V> -> A)
    : (root: RootDescriptor<M, A>)
    requires binSize >= 1 && KeysIn(sorted, kv)
  {
    var bins := Bins(sorted, kv, binSize);
    RootDescriptor(metadata, Pivots(sorted, binSize),
                   seq(|bins|, i requires 0 <= i < |bins| => putBin(bins[i])), sorted)
  }

  /** An ordering of the map's keys only holds keys of the map. */
  lemma PermutationKeysIn<V>(s: seq<Key>, kv: map<Key, V>)
    requires multiset(s) == multiset(kv.Keys)
    ensures KeysIn(s, kv)
  {
    forall i | 0 <= i < |s|
      ensures s[i] in kv
    {
      assert s[i] in multiset(s);
    }
  }

  /** What the root descriptor says: one address per pivot, the address at
      position `i` is that of the bin whose last key is pivot `i`, the bins
      read in order give back the sorted keys with their values, and the
      metadata is the caller's. */
  lemma DescriptorAligned<V, M, A>(metadata: M, sorted: seq<Key>, kv: map<Key, V>, binSize: nat, putBin: Bin<V> -> A)
    requires binSize >= 1 && KeysIn(sorted, kv)
    ensures var root := Descriptor(metadata, sorted, kv, binSize, putBin);
      && root.metadata == metadata
      && root.keys == sorted
      && |root.bins| == |root.pivots| == NumBins(|sorted|, binSize)
      && KeysOf(Flatten(Bins(sorted, kv, binSize))) == root.keys
      && forall i :: 0 <= i < |root.bins| ==>
           var bin := Bins(sorted, kv, binSize)[i];
           root.bins[i] == putBin(bin) && |bin| > 0 && bin[|bin| - 1].key == root.pivots[i]
  {
    var root := Descriptor(metadata, sorted, kv, binSize, putBin);
    BinsPartitionSortedKeys(sorted, kv, binSize);
    forall i | 0 <= i < |root.bins|
      ensures var bin := Bins(sorted, kv, binSize)[i];
              |bin| > 0 && bin[|bin| - 1].key == root.pivots[i]
    {
      PivotIsLastKeyOfBin(sorted, kv, binSize, i);
    }
  }

  /** Building twice gives the same root descriptor, as long as no two keys of
      the map share a number: then the sorted order is unique. */
  lemma BuildDeterministic<V, M, A>(
    metadata: M, s1: seq<Key>, s2: seq<Key>, kv: map<Key, V>, binSize: nat, putBin: Bin<V> -> A)
    requires binSize >= 1 && AllWellFormed(kv.Keys) && ValuesInjective(kv.Keys)
    requires multiset(s1) == multiset(kv.Keys) && SortedByValue(s1)
    requires multiset(s2) == multiset(kv.Keys) && SortedByValue(s2)
    ensures KeysIn(s1, kv) && KeysIn(s2, kv)
    ensures Descriptor(metadata, s1, kv, binSize, putBin) == Descriptor(metadata, s2, kv, binSize, putBin)
  {
    PermutationKeysIn(s1, kv);
    PermutationKeysIn(s2, kv);
    OrderingOfInjectiveKeys(s1, kv.Keys);
    SortedOrderingUnique(s1, s2);
  }

  lemma ThreeKeyValues()
    ensures WellFormedKey("0x00") && WellFormedKey("0x01") && WellFormedKey("0x02")
    ensures KeyValue("0x00") == 0 && KeyValue("0x01") == 1 && KeyValue("0x02") == 2
  {
    assert "0x00"[2..] == "00" && "0x01"[2..] == "01" && "0x02"[2..] == "02";
    assert Lower("00") == "00" && Lower("01") == "01" && Lower("02") == "02";
  }

  /** Three keys sort as 0x00, 0x01, 0x02, whatever order they come in. */
  lemma ThreeKeysSortOrder(s: seq<Key>)
    requires multiset(s) == multiset({"0x00", "0x01", "0x02"}) && SortedByValue(s)
    ensures s == ["0x00", "0x01", "0x02"]
  {
    ThreeKeysOrdered();
    SortedOrderingUnique(["0x00", "0x01", "0x02"], s);
  }

  lemma ThreeKeysOrdered()
    ensures SortedByValue(["0x00", "0x01", "0x02"]) && DistinctValues(["0x00", "0x01", "0x02"])
    ensures multiset(["0x00", "0x01", "0x02"]) == multiset({"0x00", "0x01", "0x02"})
  {
    var expected := ["0x00", "0x01", "0x02"];
    ThreeKeyValues();
    assert forall i :: 0 <= i < 3 ==> KeyValue(expected[i]) == i;
  }

  /** Three sorted keys with a bin size of two: the first bin holds the first
      two keys, the second bin the third, and the pivots are the second and the
      third key. */
  lemma ThreeKeysInBinsOfTwo<V>(s: seq<Key>, kv: map<Key, V>, binSize: nat)
    requires |s| == 3 && KeysIn(s, kv) && binSize == 2
    ensures Pivots(s, binSize) == [s[1], s[2]]
    ensures Bins(s, kv, binSize) == [[Entry(s[0], kv[s[0]]), Entry(s[1], kv[s[1]])], [Entry(s[2], kv[s[2]])]]
  {
    var n := |s|;
    assert NumBins(n, binSize) == 2;
    assert PivotIndex(1, n, binSize) == 1 && PivotIndex(2, n, binSize) == 2;
    assert BinStart(1, binSize) == 0 && BinStart(2, binSize) == 2;
    var ps := Pivots(s, binSize);
    assert ps[0] == s[PivotIndex(1, n, binSize)];
    assert ps[1] == s[PivotIndex(2, n, binSize)];
    var bins := Bins(s, kv, binSize);
    assert bins[0] == Entries(s, kv, BinStart(1, binSize), PivotIndex(1, n, binSize) + 1);
    assert bins[1] == Entries(s, kv, BinStart(2, binSize), PivotIndex(2, n, binSize) + 1);
    var first, second := Entries(s, kv, 0, 2), Entries(s, kv, 2, 3);
    assert first == [Entry(s[0], kv[s[0]]), Entry(s[1], kv[s[1]])];
    assert second == [Entry(s[2], kv[s[2]])];
    assert bins == [first, second];
  }

  /** The builder of one search tree. */
  class LocalSearchTree<V, M> {
    var keyValueMap: map<Key, V>
    var metadata: M
    var binSize: nat

    constructor (data: map<Key, V>, metadata: M, binSize: nat := DefaultBinSize)
      ensures keyValueMap == data && this.metadata == metadata && this.binSize == binSize
    {
      this.keyValueMap := data;
      this.metadata := metadata;
      this.binSize := binSize;
    }

    /** Sorts the keys by number, cuts them into bins with pivots, stores every
        bin and then the root descriptor, and returns the descriptor with the
        root's address. The object itself is left unchanged. */
    method UploadData<A>(putBin: Bin<V> -> A, putRoot: RootDescriptor<M, A> -> A)
      returns (root: RootDescriptor<M, A>, rootHash: A)
      requires binSize >= 1 && AllWellFormed(keyValueMap.Keys)
      ensures multiset(root.keys) == multiset(keyValueMap.Keys) && SortedByValue(root.keys)
      ensures KeysIn(root.keys, keyValueMap)
      ensures root == Descriptor(metadata, root.keys, keyValueMap, binSize, putBin)
      ensures rootHash == putRoot(root)
    {
      var sortedKeys := SortKeys(keyValueMap);
      PermutationKeysIn(sortedKeys, keyValueMap);
      var pivots, dataBins := Partition(sortedKeys, keyValueMap, binSize);
      var binHashes := seq(|dataBins|, i requires 0 <= i < |dataBins| => putBin(dataBins[i]));
      root := RootDescriptor(metadata, pivots, binHashes, sortedKeys);
      rootHash := putRoot(root);
    }
  }
}
