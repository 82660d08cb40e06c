# Pivot-indexed search tree over a content-addressed store — Dafny model

`LocalIPFSSearchTree.uploadData` builds a static, two-level lookup structure
over a key→value map. It sorts the keys by the unsigned number their hex
payload spells, cuts the sorted keys into contiguous bins of `binSize` keys,
records the last key of each bin as that bin's pivot, stores every bin, and
then stores a root object holding the metadata, the pivots, the bins'
addresses (aligned with the pivots) and the full sorted key list.

This project models that construction:

- `hex_keys.dfy` (module `HexKeys`): how a key is read as a number. The
  first two UTF-16 code units are dropped (the model asks that both prefix
  characters be single code units, so these are its first two characters), the rest is lower-cased and read as a
  base-16 integer of any width (`KeyValue`). The sort comparator (`Compare`)
  orders keys by that number.
- `key_order.dfy` (module `KeyOrder`): the sort. An insertion sort driven by
  `Compare` is proved to return every key of the map exactly once, ordered by
  number. When no two keys share a number, the sorted order is unique.
- `binning.dfy` (module `Binning`): the partition loop, as the nested loops of
  the source (`Partition`). It is proved against pure definitions of the bin
  count, the pivot positions, the pivots and the bins. Lemmas state
  completeness, bin sizes, pivot placement and pivot order.
- `search_tree.dfy` (module `SearchTree`): the `LocalSearchTree` class. It has
  the source's fields (`keyValueMap`, `metadata`, `binSize`, default 500) and
  `UploadData`, which assembles the root descriptor. Storing an object is a
  function from the object to its address, supplied by the caller
  (`putBin`, `putRoot`).

What the code guarantees, and where that is less than one might expect:

- One might expect pivots to strictly increase, with ties impossible because
  the map's keys are unique. The code only guarantees that pivots never
  decrease. Distinct key strings can spell the same number, e.g.
  `0x1`/`0x01` or `0xab`/`0xAB` (`HexKeys.DistinctKeysCanTie`). Strict increase
  is proved only when no two keys share a number.
- An empty map gives zero bins and zero pivots, and the root is still built
  and stored. The code does this with no special case.
- `binSize` must be at least 1. With `binSize` 0 and at least one key, the
  source computes an infinite bin count and its loop never ends.
- `Math.ceil(N / binSize)` is computed in floating point. It agrees with the
  model's integer ceiling whenever `N < 2^52`, which every array length meets.

## Model

| member | source | states |
|---|---|---|
| `HexKeys.HexValue` | src/libs/ipfs-search-tree/local-ipfs-search-tree.ts:25-26 | a payload of `n` hex digits denotes an unsigned number below 16^n; its recursive proof uses the bound for the shorter payload |
| `HexKeys.KeyValue` | src/libs/ipfs-search-tree/local-ipfs-search-tree.ts:25-26 | the number a key stands for: its payload after the first two characters (each one UTF-16 code unit, so `substr(2)` drops exactly them), lower-cased and read in base 16, is below 16 to the number of payload digits |
| `HexKeys.Compare` | src/libs/ipfs-search-tree/local-ipfs-search-tree.ts:24-31 | the comparator is -1, 0 or 1 exactly as the first key's number is below, equal to or above the second's |
| `HexKeys.CompareIsConsistent` | src/libs/ipfs-search-tree/local-ipfs-search-tree.ts:27-30 | the comparator is reflexive, sign-antisymmetric and transitive, as a sort needs |
| `HexKeys.FixedWidthOrder` | src/libs/ipfs-search-tree/local-ipfs-search-tree.ts:25-30 | on lower-case payloads of one width, numeric order equals string order and equal numbers mean equal payloads |
| `HexKeys.SameWidthTies` | src/libs/ipfs-search-tree/local-ipfs-search-tree.ts:25-27 | two keys of one width tie exactly when their lower-cased payloads are equal |
| `HexKeys.DistinctKeysCanTie` | src/libs/ipfs-search-tree/local-ipfs-search-tree.ts:25-28 | distinct key strings can tie: `0x1` and `0x01`, and `0xab` and `0xAB`, have equal numbers |
| `KeyOrder.InsertByValue` | src/libs/ipfs-search-tree/local-ipfs-search-tree.ts:24-31 | inserting one key into a sorted sequence with the comparator keeps it sorted by number and adds exactly that key |
| `KeyOrder.SortKeys` | src/libs/ipfs-search-tree/local-ipfs-search-tree.ts:24-31 | the sorted keys are a permutation of the map's keys (each exactly once) ordered by non-decreasing number |
| `KeyOrder.SortedOrderingUnique` | src/libs/ipfs-search-tree/local-ipfs-search-tree.ts:24-31 | two orderings of the same keys, both sorted by number, are equal when no two keys share a number |
| `KeyOrder.OrderingOfInjectiveKeys` | src/libs/ipfs-search-tree/local-ipfs-search-tree.ts:24 | an ordering of a map's keys holds pairwise different numbers when the map's keys do |
| `Binning.NumBins` | src/libs/ipfs-search-tree/local-ipfs-search-tree.ts:37 | the bin count is ceil(N / binSize): the bins hold all N keys, no bin is empty, and N = 0 gives 0 bins |
| `Binning.PivotIndex` | src/libs/ipfs-search-tree/local-ipfs-search-tree.ts:39-42 | pivot `i` sits inside bin `i`, at its last position: binSize - 1 past the bin's start for every bin but the last, and N - 1 for the last |
| `Binning.Entries` | src/libs/ipfs-search-tree/local-ipfs-search-tree.ts:46-52 | the entries of sorted positions lo..hi-1 pair each key with exactly its value in the map |
| `Binning.Partition` | src/libs/ipfs-search-tree/local-ipfs-search-tree.ts:32-54 | the nested loops yield one pivot and one bin per bin index, equal to `Binning.Pivots` and `Binning.Bins`: pivot `i` is the key at min(i*binSize-1, N-1), and bin `i` (`Binning.BinAt`) holds the entries from `Binning.BinStart` = (i-1)*binSize up to it |
| `Binning.BinCoversSlice` | src/libs/ipfs-search-tree/local-ipfs-search-tree.ts:39-52 | bin `k` holds exactly the sorted keys from position k*binSize to its pivot's position, each with its original value |
| `Binning.BinSizes` | src/libs/ipfs-search-tree/local-ipfs-search-tree.ts:37-48 | every bin but the last has exactly binSize entries; the last has between 1 and binSize, namely N - (numBins-1)*binSize |
| `Binning.PivotIsLastKeyOfBin` | src/libs/ipfs-search-tree/local-ipfs-search-tree.ts:39-53 | each bin is non-empty and its last key is its pivot |
| `Binning.BinsPartitionSortedKeys` | src/libs/ipfs-search-tree/local-ipfs-search-tree.ts:38-53 | the bins read one after another are exactly the sorted keys with their values: no gap, overlap or reordering |
| `Binning.PivotIndexIncreasing` | src/libs/ipfs-search-tree/local-ipfs-search-tree.ts:39-42 | later bins have their pivots at strictly later sorted positions |
| `Binning.PivotIsBinMaximum` | src/libs/ipfs-search-tree/local-ipfs-search-tree.ts:39-51 | with sorted keys, no key of a bin has a number above the bin's pivot |
| `Binning.PivotBoundsLaterBins` | src/libs/ipfs-search-tree/local-ipfs-search-tree.ts:39-51 | with sorted keys, no key of a later bin has a number below an earlier bin's pivot |
| `Binning.PivotsOrdered` | src/libs/ipfs-search-tree/local-ipfs-search-tree.ts:38-44 | pivots never decrease in number, and strictly increase when no two keys share a number |
| `Binning.EmptyInputHasNoBins` | src/libs/ipfs-search-tree/local-ipfs-search-tree.ts:32-38 | no keys give no pivots and no bins |
| `SearchTree.DescriptorAligned` | src/libs/ipfs-search-tree/local-ipfs-search-tree.ts:57-69 | in the root descriptor (`SearchTree.Descriptor`, which `UploadData` is proved to build), the metadata is passed through, `keys` is the sorted order, there is one address per pivot, address `i` is that of the bin whose last key is pivot `i`, and the bins read in order (`Binning.Flatten`) give back `keys` |
| `SearchTree.BuildDeterministic` | src/libs/ipfs-search-tree/local-ipfs-search-tree.ts:22-69 | two builds from the same map, metadata and bin size give the same root descriptor when no two keys share a number |
| `SearchTree.ThreeKeysSortOrder` | src/libs/ipfs-search-tree/local-ipfs-search-tree.ts:24-31 | keys 0x00, 0x01 and 0x02 sort as 0x00, 0x01, 0x02 whatever order they arrive in |
| `SearchTree.ThreeKeysInBinsOfTwo` | src/libs/ipfs-search-tree/local-ipfs-search-tree.ts:37-54 | three sorted keys with bin size 2 give bins [k0, k1] and [k2] with their values, and pivots [k1, k2] |
| `SearchTree.LocalSearchTree.constructor` | src/libs/ipfs-search-tree/local-ipfs-search-tree.ts:14-20 | the builder keeps the given map, metadata and bin size, with bin size 500 when none is given |
| `SearchTree.LocalSearchTree.UploadData` | src/libs/ipfs-search-tree/local-ipfs-search-tree.ts:22-73 | the root's keys are the map's keys sorted by number; its pivots, bin addresses and metadata are those of the descriptor built from that order; the returned address is the stored root's |

## Left out

- The IPFS client (src/libs/ipfs-search-tree/local-ipfs-search-tree.ts:15) and `uploadObjectToIPFS` (lines 76-86) are network I/O. Storing a bin or the root is modelled as a caller-supplied function from the object to its address.
- Upload failures and the all-or-nothing behaviour of `Promise.all` (line 57) are not modelled, and neither is the concurrency of the bin uploads. Every upload succeeds in the model, and only the order-preserving result of the map over the bins is kept.
- The `updateProgress(1 / numBins)` callback (line 59) is a floating-point UI side effect. It is left out, and so are the constructor's `ipfsEndpoint` and `updateProgress` parameters.
- SearchTree.LocalSearchTree.UploadData: requires `binSize >= 1` and well-formed keys. A key is well formed when its first two characters are each one UTF-16 code unit (so that `substr(2)` drops exactly them), it has a payload after them, and every payload character is a hex digit of either case. Other payloads are read by `BigNumber` as NaN, which makes the comparator inconsistent and the sort's result unspecified, or in forms the model does not cover, such as fractional or signed payloads or a second `0x` prefix. Keys whose prefix holds a character outside the Basic Multilingual Plane are not modelled (`HexKeys.WidePrefixExcluded`). `binSize` is a natural number, so fractional or negative bin sizes are not modelled either.
- HexKeys.KeyValue: defined only for keys whose two prefix characters are single UTF-16 code units. For a prefix character outside the Basic Multilingual Plane, JavaScript's `substr(2)` would cut a surrogate pair, which the model's character strings cannot express.
- KeyOrder.SortKeys: JavaScript's sort algorithm and the insertion order of `Object.keys` are replaced by an insertion sort over keys taken in unspecified order. Only the result's guarantee is modelled: each key once, ordered by number. When two distinct keys share a number, their relative order is left open.
- SearchTree.LocalSearchTree.UploadData: the source returns only the root's address. The model also returns the root descriptor, so that the contract can talk about what was stored.
- Bins are sequences of (key, value) entries in sorted order, not JavaScript objects. How an object is serialised to JSON is not modelled.
- Lower-casing covers ASCII letters only. No other character lower-cases to a hex digit, so well-formed keys are unaffected.
