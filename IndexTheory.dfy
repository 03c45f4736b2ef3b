/**
  The indexes as functions of the input. For one field, the classified key of
  every row is a sequence keys: keys[i] is the key row i is filed under, or
  None when row i is not indexed for the field. A chunk-local index is built by
  filing the rows of one range in increasing order; the global index folds the
  chunk-local ones in, chunk by chunk and, within a chunk, key by key in
  insertion order, mapping each chunk key through `fold` (case folding for the
  String and Date indexes, the identity for the Integer index).
*/
module IndexTheory {
  import opened Wrappers
  import opened Dicts
  import opened Chunks

  // ---------------------------------------------------------------------------
  // Building one chunk
  // ---------------------------------------------------------------------------

  /** File row i under its key, if it has one. */
  function AddRow<K(==,!new)>(d: Dict<K>, key: Option<K>, i: int): Dict<K>
  {
    match key
    case None => d
    case Some(k) => d.Append(k, [i])
  }

  /** The index a chunk builds over the rows lo .. hi - 1, filed in increasing order. */
  function BuildRange<K(==,!new)>(keys: seq<Option<K>>, lo: nat, hi: nat): Dict<K>
    requires hi <= |keys|
    decreases hi
  {
    if hi <= lo then Empty() else AddRow(BuildRange(keys, lo, hi - 1), keys[hi - 1], hi - 1)
  }

  /** Every list of a dictionary is non-empty. */
  ghost predicate NonEmptyLists<K(!new)>(d: Dict<K>)
  {
    forall k :: k in d.entries ==> d.entries[k] != []
  }

  /** Row x is in the list a range index files under k exactly when x lies in
      the range and its key is k. */
  lemma {:induction false} BuildRangeMember<K(!new)>(keys: seq<Option<K>>, lo: nat, hi: nat, k: K, x: int)
    requires hi <= |keys|
    ensures x in BuildRange(keys, lo, hi).Get(k) <==> lo <= x < hi && keys[x] == Some(k)
    decreases hi
  {
    var d := BuildRange(keys, lo, hi);
    if hi > lo {
      BuildRangeMember(keys, lo, hi - 1, k, x);
      var d0 := BuildRange(keys, lo, hi - 1);
      if keys[hi - 1] == Some(k) {
        assert d.Get(k) == d0.Get(k) + [hi - 1];
      } else {
        assert d.Get(k) == d0.Get(k);
      }
    } else {
      assert d == Empty();
    }
  }

  /** A range index is a valid dictionary whose lists are all non-empty. */
  lemma {:induction false} BuildRangeValid<K(!new)>(keys: seq<Option<K>>, lo: nat, hi: nat)
    requires hi <= |keys|
    ensures BuildRange(keys, lo, hi).Valid()
    ensures NonEmptyLists(BuildRange(keys, lo, hi))
    decreases hi
  {
    if hi > lo {
      BuildRangeValid(keys, lo, hi - 1);
    }
  }

  /** Every list of a range index is strictly ascending. */
  lemma {:induction false} BuildRangeAscending<K(!new)>(keys: seq<Option<K>>, lo: nat, hi: nat, k: K)
    requires hi <= |keys|
    ensures StrictlyAscending(BuildRange(keys, lo, hi).Get(k))
    decreases hi
  {
    var d := BuildRange(keys, lo, hi);
    if hi > lo {
      BuildRangeAscending(keys, lo, hi - 1, k);
      var d0 := BuildRange(keys, lo, hi - 1);
      if keys[hi - 1] == Some(k) {
        assert d.Get(k) == d0.Get(k) + [hi - 1];
        forall j | 0 <= j < |d0.Get(k)|
          ensures d0.Get(k)[j] < hi - 1
        {
          BuildRangeMember(keys, lo, hi - 1, k, d0.Get(k)[j]);
        }
      } else {
        assert d.Get(k) == d0.Get(k);
      }
    } else {
      assert d == Empty();
    }
  }

  /** A range index is a valid dictionary, every list non-empty; the list it
      files under k holds exactly the rows of the range whose key is k, in
      strictly ascending order. */
  lemma BuildRangeSpec<K(!new)>(keys: seq<Option<K>>, lo: nat, hi: nat, k: K)
    requires hi <= |keys|
    ensures BuildRange(keys, lo, hi).Valid()
    ensures NonEmptyLists(BuildRange(keys, lo, hi))
    ensures forall x :: x in BuildRange(keys, lo, hi).Get(k) <==> lo <= x < hi && keys[x] == Some(k)
    ensures StrictlyAscending(BuildRange(keys, lo, hi).Get(k))
  {
    BuildRangeValid(keys, lo, hi);
    forall x
      ensures x in BuildRange(keys, lo, hi).Get(k) <==> lo <= x < hi && keys[x] == Some(k)
    {
      BuildRangeMember(keys, lo, hi, k, x);
    }
    BuildRangeAscending(keys, lo, hi, k);
  }

  // ---------------------------------------------------------------------------
  // Merging
  // ---------------------------------------------------------------------------

  /** Fold the lists that `local` files under the keys ks (in that order) into g. */
  function MergeKeys<K(==,!new)>(g: Dict<K>, local: Dict<K>, ks: seq<K>, fold: K -> K): Dict<K>
    decreases |ks|
  {
    if ks == [] then g
    else
      var last := ks[|ks| - 1];
      MergeKeys(g, local, ks[..|ks| - 1], fold).Append(fold(last), local.Get(last))
  }

  /** Fold one chunk-local dictionary into g, in its insertion order. */
  function MergeDict<K(==,!new)>(g: Dict<K>, local: Dict<K>, fold: K -> K): Dict<K>
  {
    MergeKeys(g, local, local.keys, fold)
  }

  /** Fold the chunk-local dictionaries into g, in chunk order. */
  function MergeAll<K(==,!new)>(g: Dict<K>, locals: seq<Dict<K>>, fold: K -> K): Dict<K>
    decreases |locals|
  {
    if locals == [] then g
    else MergeDict(MergeAll(g, locals[..|locals| - 1], fold), locals[|locals| - 1], fold)
  }

  /** Merging keeps a dictionary well formed. */
  lemma {:induction false} MergeKeysValid<K(!new)>(g: Dict<K>, local: Dict<K>, ks: seq<K>, fold: K -> K)
    requires g.Valid()
    ensures MergeKeys(g, local, ks, fold).Valid()
    decreases |ks|
  {
    if ks != [] {
      MergeKeysValid(g, local, ks[..|ks| - 1], fold);
    }
  }

  lemma {:induction false} MergeAllValid<K(!new)>(g: Dict<K>, locals: seq<Dict<K>>, fold: K -> K)
    requires g.Valid()
    ensures MergeAll(g, locals, fold).Valid()
    decreases |locals|
  {
    if locals != [] {
      MergeAllValid(g, locals[..|locals| - 1], fold);
      MergeKeysValid(MergeAll(g, locals[..|locals| - 1], fold), locals[|locals| - 1], locals[|locals| - 1].keys, fold);
    }
  }

  /** The chunk-local index of every chunk, for chunks of the given size. */
  function ChunkDicts<K(==,!new)>(keys: seq<Option<K>>, size: nat): (r: seq<Dict<K>>)
    requires size > 0
    ensures |r| == NumChunks(|keys|, size)
  {
    seq(NumChunks(|keys|, size), c requires 0 <= c < NumChunks(|keys|, size) =>
      BuildRange(keys, ChunkStart(c, size), ChunkEnd(c, size, |keys|)))
  }

  // ---------------------------------------------------------------------------
  // Bags: which rows end up under a key, counted with multiplicity
  // ---------------------------------------------------------------------------

  /** The rows d files under those keys of ks that fold to target. */
  function KeyBag<K(==,!new)>(d: Dict<K>, ks: seq<K>, target: K, fold: K -> K): multiset<int>
    decreases |ks|
  {
    if ks == [] then multiset{}
    else
      var last := ks[|ks| - 1];
      KeyBag(d, ks[..|ks| - 1], target, fold)
        + (if fold(last) == target then multiset(d.Get(last)) else multiset{})
  }

  /** The rows d files under keys that fold to target. */
  function DictBag<K(==,!new)>(d: Dict<K>, target: K, fold: K -> K): multiset<int>
  {
    KeyBag(d, d.keys, target, fold)
  }

  /** The rows the dictionaries ds file under keys that fold to target. */
  function BagSum<K(==,!new)>(ds: seq<Dict<K>>, target: K, fold: K -> K): multiset<int>
    decreases |ds|
  {
    if ds == [] then multiset{}
    else BagSum(ds[..|ds| - 1], target, fold) + DictBag(ds[|ds| - 1], target, fold)
  }

  /** The rows lo .. hi - 1 whose key folds to target: the reference answer. */
  function RowBag<K(==,!new)>(keys: seq<Option<K>>, lo: nat, hi: nat, target: K, fold: K -> K): multiset<int>
    requires hi <= |keys|
    decreases hi
  {
    if hi <= lo then multiset{}
    else
      RowBag(keys, lo, hi - 1, target, fold)
        + (if keys[hi - 1].Some? && fold(keys[hi - 1].value) == target then multiset{hi - 1} else multiset{})
  }

  /** Each row of the range is counted once if its key folds to target, and
      no other row is counted. */
  lemma {:induction false} RowBagCount<K(!new)>(keys: seq<Option<K>>, lo: nat, hi: nat, target: K, fold: K -> K, x: int)
    requires hi <= |keys|
    ensures RowBag(keys, lo, hi, target, fold)[x] ==
      if lo <= x < hi && keys[x].Some? && fold(keys[x].value) == target then 1 else 0
    decreases hi
  {
    if hi > lo {
      RowBagCount(keys, lo, hi - 1, target, fold, x);
      var last := if keys[hi - 1].Some? && fold(keys[hi - 1].value) == target then multiset{hi - 1} else multiset{};
      assert RowBag(keys, lo, hi, target, fold) == RowBag(keys, lo, hi - 1, target, fold) + last;
    }
  }

  /** Adjacent ranges add up. */
  lemma RowBagSplit<K(!new)>(keys: seq<Option<K>>, lo: nat, mid: nat, hi: nat, target: K, fold: K -> K)
    requires lo <= mid <= hi <= |keys|
    ensures RowBag(keys, lo, mid, target, fold) + RowBag(keys, mid, hi, target, fold) == RowBag(keys, lo, hi, target, fold)
  {
    forall x
      ensures (RowBag(keys, lo, mid, target, fold) + RowBag(keys, mid, hi, target, fold))[x] == RowBag(keys, lo, hi, target, fold)[x]
    {
      RowBagCount(keys, lo, mid, target, fold, x);
      RowBagCount(keys, mid, hi, target, fold, x);
      RowBagCount(keys, lo, hi, target, fold, x);
    }
  }

  /** Merging keys ks of local into g adds exactly their rows under each folded key. */
  lemma {:induction false} MergeKeysBag<K(!new)>(g: Dict<K>, local: Dict<K>, ks: seq<K>, target: K, fold: K -> K)
    ensures multiset(MergeKeys(g, local, ks, fold).Get(target))
      == multiset(g.Get(target)) + KeyBag(local, ks, target, fold)
    decreases |ks|
  {
    if ks != [] {
      MergeKeysBag(g, local, ks[..|ks| - 1], target, fold);
    }
  }

  /** Merging the chunks in order adds every chunk's rows under each folded key. */
  lemma {:induction false} MergeAllBag<K(!new)>(g: Dict<K>, locals: seq<Dict<K>>, target: K, fold: K -> K)
    ensures multiset(MergeAll(g, locals, fold).Get(target))
      == multiset(g.Get(target)) + BagSum(locals, target, fold)
    decreases |locals|
  {
    if locals != [] {
      var prefix := locals[..|locals| - 1];
      MergeAllBag(g, prefix, target, fold);
      MergeKeysBag(MergeAll(g, prefix, fold), locals[|locals| - 1], locals[|locals| - 1].keys, target, fold);
    }
  }

  /** KeyBag only looks at the lists of the keys it is given. */
  lemma {:induction false} KeyBagAgree<K(!new)>(d1: Dict<K>, d2: Dict<K>, ks: seq<K>, target: K, fold: K -> K)
    requires forall k :: k in ks ==> d1.Get(k) == d2.Get(k)
    ensures KeyBag(d1, ks, target, fold) == KeyBag(d2, ks, target, fold)
    decreases |ks|
  {
    if ks != [] {
      KeyBagAgree(d1, d2, ks[..|ks| - 1], target, fold);
    }
  }

  /** One step of KeyBag: the last key's rows join the bag of the others. */
  lemma KeyBagUnfold<K(!new)>(d: Dict<K>, ks: seq<K>, target: K, fold: K -> K)
    requires ks != []
    ensures KeyBag(d, ks, target, fold) == KeyBag(d, ks[..|ks| - 1], target, fold)
      + (if fold(ks[|ks| - 1]) == target then multiset(d.Get(ks[|ks| - 1])) else multiset{})
  {
  }

  /** KeyBagBump when k is the last key of ks. */
  lemma KeyBagBumpLast<K(!new)>(d: Dict<K>, k: K, i: int, ks: seq<K>, target: K, fold: K -> K)
    requires NoDup(ks) && ks != [] && ks[|ks| - 1] == k
    ensures KeyBag(d.Append(k, [i]), ks, target, fold)
      == KeyBag(d, ks, target, fold) + (if fold(k) == target then multiset{i} else multiset{})
  {
    var d' := d.Append(k, [i]);
    var prefix := ks[..|ks| - 1];
    NoDupButLast(ks);
    KeyBagAgree(d', d, prefix, target, fold);
    KeyBagUnfold(d, ks, target, fold);
    KeyBagUnfold(d', ks, target, fold);
    assert d'.Get(k) == d.Get(k) + [i];
  }

  /** KeyBagBump when the last key of ks is not k, given the bump on the others. */
  lemma KeyBagBumpOther<K(!new)>(d: Dict<K>, k: K, i: int, ks: seq<K>, target: K, fold: K -> K)
    requires ks != [] && ks[|ks| - 1] != k
    requires KeyBag(d.Append(k, [i]), ks[..|ks| - 1], target, fold)
      == KeyBag(d, ks[..|ks| - 1], target, fold) + (if k in ks[..|ks| - 1] && fold(k) == target then multiset{i} else multiset{})
    ensures KeyBag(d.Append(k, [i]), ks, target, fold)
      == KeyBag(d, ks, target, fold) + (if k in ks && fold(k) == target then multiset{i} else multiset{})
  {
    var d' := d.Append(k, [i]);
    var prefix := ks[..|ks| - 1];
    var last := ks[|ks| - 1];
    var e := if k in ks && fold(k) == target then multiset{i} else multiset{};
    InButLast(ks, k);
    var bag := KeyBag(d, prefix, target, fold);
    var tail := if fold(last) == target then multiset(d.Get(last)) else multiset{};
    assert KeyBag(d', prefix, target, fold) == bag + e;
    KeyBagUnfold(d, ks, target, fold);
    assert d'.Get(last) == d.Get(last);
    KeyBagUnfold(d', ks, target, fold);
    UnionSwap(bag, e, tail);
  }

  /** Adding row i to the list of an existing key k adds i once to the bag of
      every duplicate-free key sequence that contains k. */
  lemma {:induction false} KeyBagBump<K(!new)>(d: Dict<K>, k: K, i: int, ks: seq<K>, target: K, fold: K -> K)
    requires NoDup(ks)
    ensures KeyBag(d.Append(k, [i]), ks, target, fold)
      == KeyBag(d, ks, target, fold) + (if k in ks && fold(k) == target then multiset{i} else multiset{})
    decreases |ks|
  {
    if ks != [] {
      if ks[|ks| - 1] == k {
        KeyBagBumpLast(d, k, i, ks, target, fold);
      } else {
        NoDupButLast(ks);
        KeyBagBump(d, k, i, ks[..|ks| - 1], target, fold);
        KeyBagBumpOther(d, k, i, ks, target, fold);
      }
    }
  }

  /** Filing one row adds it once to the bag of the key it folds to. */
  lemma AddRowBag<K(!new)>(d: Dict<K>, key: Option<K>, i: int, target: K, fold: K -> K)
    requires d.Valid()
    ensures DictBag(AddRow(d, key, i), target, fold)
      == DictBag(d, target, fold) + (if key.Some? && fold(key.value) == target then multiset{i} else multiset{})
  {
    match key
    case None =>
    case Some(k) =>
      var d' := d.Append(k, [i]);
      if k in d.entries {
        KeyBagBump(d, k, i, d.keys, target, fold);
      } else {
        assert (d.keys + [k])[..|d.keys|] == d.keys;
        KeyBagAgree(d', d, d.keys, target, fold);
      }
  }

  /** A chunk-local index holds, under each folded key, exactly the rows of its range with that key. */
  lemma {:induction false} BuildRangeBag<K(!new)>(keys: seq<Option<K>>, lo: nat, hi: nat, target: K, fold: K -> K)
    requires hi <= |keys|
    ensures DictBag(BuildRange(keys, lo, hi), target, fold) == RowBag(keys, lo, hi, target, fold)
    decreases hi
  {
    if hi > lo {
      BuildRangeBag(keys, lo, hi - 1, target, fold);
      BuildRangeValid(keys, lo, hi - 1);
      AddRowBag(BuildRange(keys, lo, hi - 1), keys[hi - 1], hi - 1, target, fold);
    }
  }

  /** The first c chunks together hold the rows before Boundary(c). */
  lemma {:induction false} ChunkBagPrefix<K(!new)>(keys: seq<Option<K>>, size: nat, c: nat, target: K, fold: K -> K)
    requires size > 0 && c <= NumChunks(|keys|, size)
    ensures Boundary(c, size, |keys|) <= |keys|
    ensures BagSum(ChunkDicts(keys, size)[..c], target, fold) == RowBag(keys, 0, Boundary(c, size, |keys|), target, fold)
    decreases c
  {
    var n := |keys|;
    ChunkBoundaries(n, size);
    if c > 0 {
      var ds := ChunkDicts(keys, size);
      ChunkBagPrefix(keys, size, c - 1, target, fold);
      assert ds[..c][..c - 1] == ds[..c - 1];
      BuildRangeBag(keys, ChunkStart(c - 1, size), ChunkEnd(c - 1, size, n), target, fold);
      RowBagSplit(keys, 0, Boundary(c - 1, size, n), Boundary(c, size, n), target, fold);
    }
  }

  /** Merging the chunks of any size adds, under each folded key, exactly the
      rows whose key folds to it: the same rows a single pass over the whole
      input would file there. */
  lemma MergedChunksBag<K(!new)>(g: Dict<K>, keys: seq<Option<K>>, size: nat, target: K, fold: K -> K)
    requires size > 0
    ensures multiset(MergeAll(g, ChunkDicts(keys, size), fold).Get(target))
      == multiset(g.Get(target)) + RowBag(keys, 0, |keys|, target, fold)
  {
    var ds := ChunkDicts(keys, size);
    MergeAllBag(g, ds, target, fold);
    ChunkBagPrefix(keys, size, |ds|, target, fold);
    ChunkBoundaries(|keys|, size);
    assert ds[..|ds|] == ds;
  }

  /** Chunk-size invariance: the rows under each key do not depend on the
      chunk size (only their order inside a list may). */
  lemma ChunkSizeInvariance<K(!new)>(keys: seq<Option<K>>, size1: nat, size2: nat, target: K, fold: K -> K)
    requires size1 > 0 && size2 > 0
    ensures multiset(MergeAll(Empty(), ChunkDicts(keys, size1), fold).Get(target))
         == multiset(MergeAll(Empty(), ChunkDicts(keys, size2), fold).Get(target))
  {
    MergedChunksBag(Empty(), keys, size1, target, fold);
    MergedChunksBag(Empty(), keys, size2, target, fold);
  }

  /** Exactly once: after merging every chunk into an empty index, each row
      with a key appears exactly once under the key it folds to and nowhere
      else, and a row without a key appears nowhere. */
  lemma MergedExactlyOnce<K(!new)>(keys: seq<Option<K>>, size: nat, target: K, fold: K -> K, x: int)
    requires size > 0
    ensures multiset(MergeAll(Empty(), ChunkDicts(keys, size), fold).Get(target))[x]
      == if 0 <= x < |keys| && keys[x].Some? && fold(keys[x].value) == target then 1 else 0
  {
    MergedChunksBag(Empty(), keys, size, target, fold);
    RowBagCount(keys, 0, |keys|, target, fold, x);
  }

  // ---------------------------------------------------------------------------
  // Without case folding, the chunked build is the single-pass build
  // ---------------------------------------------------------------------------

  /** MergeKeys only looks at the lists of the keys it is given. */
  lemma {:induction false} MergeKeysAgree<K(!new)>(g: Dict<K>, l1: Dict<K>, l2: Dict<K>, ks: seq<K>, fold: K -> K)
    requires forall k :: k in ks ==> l1.Get(k) == l2.Get(k)
    ensures MergeKeys(g, l1, ks, fold) == MergeKeys(g, l2, ks, fold)
    decreases |ks|
  {
    if ks != [] {
      MergeKeysAgree(g, l1, l2, ks[..|ks| - 1], fold);
    }
  }

  /** Every merged key is present afterwards. */
  lemma {:induction false} MergeKeysPresent<K(!new)>(g: Dict<K>, local: Dict<K>, ks: seq<K>, fold: K -> K, k: K)
    requires k in ks
    ensures fold(k) in MergeKeys(g, local, ks, fold).entries
    decreases |ks|
  {
    if ks[|ks| - 1] != k {
      assert k in ks[..|ks| - 1];
      MergeKeysPresent(g, local, ks[..|ks| - 1], fold, k);
    }
  }

  /** The fold leaves every key as it is. */
  ghost predicate IsIdentity<K(!new)>(fold: K -> K)
  {
    forall x :: fold(x) == x
  }

  /** With the identity fold, adding row i to local's list for an existing
      key k appends i to the merged list for k. */
  lemma {:induction false} MergeKeysBump<K(!new)>(g: Dict<K>, local: Dict<K>, k: K, i: int, ks: seq<K>, fold: K -> K)
    requires IsIdentity(fold)
    requires NoDup(ks)
    ensures k in ks ==> MergeKeys(g, local.Append(k, [i]), ks, fold) == MergeKeys(g, local, ks, fold).Append(k, [i])
    ensures k !in ks ==> MergeKeys(g, local.Append(k, [i]), ks, fold) == MergeKeys(g, local, ks, fold)
    decreases |ks|
  {
    var local' := local.Append(k, [i]);
    if ks != [] {
      var prefix := ks[..|ks| - 1];
      var last := ks[|ks| - 1];
      assert ks == prefix + [last];
      assert NoDup(prefix);
      var before := MergeKeys(g, local, prefix, fold);
      var before' := MergeKeys(g, local', prefix, fold);
      assert fold(last) == last;
      assert MergeKeys(g, local, ks, fold) == before.Append(last, local.Get(last));
      assert MergeKeys(g, local', ks, fold) == before'.Append(last, local'.Get(last));
      if last == k {
        assert k !in prefix;
        MergeKeysAgree(g, local', local, prefix, fold);
        assert before' == before;
        assert local'.Get(k) == local.Get(k) + [i];
        AppendTwice(before, k, local.Get(k), [i]);
      } else {
        assert local'.Get(last) == local.Get(last);
        MergeKeysBump(g, local, k, i, prefix, fold);
        if k in prefix {
          assert before' == before.Append(k, [i]);
          MergeKeysPresent(g, local, prefix, fold, k);
          assert fold(k) == k;
          AppendCommute(before, k, [i], last, local.Get(last));
        } else {
          assert before' == before;
        }
      }
    }
  }

  /** With the identity fold, merging commutes with filing one more row. */
  lemma MergeAddRow<K(!new)>(g: Dict<K>, local: Dict<K>, key: Option<K>, i: int, fold: K -> K)
    requires IsIdentity(fold)
    requires local.Valid()
    ensures MergeDict(g, AddRow(local, key, i), fold) == AddRow(MergeDict(g, local, fold), key, i)
  {
    match key
    case None =>
    case Some(k) =>
      var local' := local.Append(k, [i]);
      if k in local.entries {
        MergeKeysBump(g, local, k, i, local.keys, fold);
      } else {
        assert (local.keys + [k])[..|local.keys|] == local.keys;
        MergeKeysAgree(g, local', local, local.keys, fold);
      }
  }

  /** With the identity fold, merging the index of [mid, hi) into the index of
      [lo, mid) gives the index of [lo, hi), key order included. */
  lemma {:induction false} MergeAdjacentRanges<K(!new)>(keys: seq<Option<K>>, lo: nat, mid: nat, hi: nat, fold: K -> K)
    requires IsIdentity(fold)
    requires lo <= mid <= hi <= |keys|
    ensures MergeDict(BuildRange(keys, lo, mid), BuildRange(keys, mid, hi), fold) == BuildRange(keys, lo, hi)
    decreases hi
  {
    if hi > mid {
      MergeAdjacentRanges(keys, lo, mid, hi - 1, fold);
      MergeRangeAddRow(keys, lo, mid, hi, fold);
      MergeAdjacentStep(keys, lo, mid, hi, fold);
    } else {
      assert BuildRange(keys, mid, hi) == Empty();
    }
  }

  /** MergeAddRow for the last row of a range. */
  lemma MergeRangeAddRow<K(!new)>(keys: seq<Option<K>>, lo: nat, mid: nat, hi: nat, fold: K -> K)
    requires IsIdentity(fold)
    requires lo <= mid < hi <= |keys|
    ensures MergeDict(BuildRange(keys, lo, mid), BuildRange(keys, mid, hi), fold)
      == AddRow(MergeDict(BuildRange(keys, lo, mid), BuildRange(keys, mid, hi - 1), fold), keys[hi - 1], hi - 1)
  {
    var b0 := BuildRange(keys, mid, hi - 1);
    assert BuildRange(keys, mid, hi) == AddRow(b0, keys[hi - 1], hi - 1);
    BuildRangeValid(keys, mid, hi - 1);
    MergeAddRow(BuildRange(keys, lo, mid), b0, keys[hi - 1], hi - 1, fold);
  }

  /** The inductive step of MergeAdjacentRanges: one more row on the right. */
  lemma MergeAdjacentStep<K(!new)>(keys: seq<Option<K>>, lo: nat, mid: nat, hi: nat, fold: K -> K)
    requires lo <= mid < hi <= |keys|
    requires MergeDict(BuildRange(keys, lo, mid), BuildRange(keys, mid, hi - 1), fold) == BuildRange(keys, lo, hi - 1)
    requires MergeDict(BuildRange(keys, lo, mid), BuildRange(keys, mid, hi), fold)
      == AddRow(MergeDict(BuildRange(keys, lo, mid), BuildRange(keys, mid, hi - 1), fold), keys[hi - 1], hi - 1)
    ensures MergeDict(BuildRange(keys, lo, mid), BuildRange(keys, mid, hi), fold) == BuildRange(keys, lo, hi)
  {
    assert BuildRange(keys, lo, hi) == AddRow(BuildRange(keys, lo, hi - 1), keys[hi - 1], hi - 1);
  }

  /** The first c chunks merged into an empty index are the single-pass index
      of the rows before Boundary(c). */
  lemma {:induction false} ChunkMergePrefix<K(!new)>(keys: seq<Option<K>>, size: nat, c: nat, fold: K -> K)
    requires IsIdentity(fold)
    requires size > 0 && c <= NumChunks(|keys|, size)
    ensures Boundary(c, size, |keys|) <= |keys|
    ensures MergeAll(Empty(), ChunkDicts(keys, size)[..c], fold) == BuildRange(keys, 0, Boundary(c, size, |keys|))
    decreases c
  {
    var n := |keys|;
    ChunkBoundaries(n, size);
    if c > 0 {
      var ds := ChunkDicts(keys, size);
      ChunkMergePrefix(keys, size, c - 1, fold);
      assert ds[..c][..c - 1] == ds[..c - 1];
      MergeAdjacentRanges(keys, 0, Boundary(c - 1, size, n), Boundary(c, size, n), fold);
    }
  }

  /** Without case folding, the chunked build equals the single-pass build
      whatever the chunk size: the same keys in the same order, each with the
      strictly ascending list of its rows. */
  lemma ChunkedEqualsSinglePass<K(!new)>(keys: seq<Option<K>>, size: nat, fold: K -> K)
    requires IsIdentity(fold)
    requires size > 0
    ensures MergeAll(Empty(), ChunkDicts(keys, size), fold) == BuildRange(keys, 0, |keys|)
  {
    var ds := ChunkDicts(keys, size);
    ChunkMergePrefix(keys, size, |ds|, fold);
    ChunkBoundaries(|keys|, size);
    assert ds[..|ds|] == ds;
  }
}
