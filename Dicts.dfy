/**
  Dictionary<K, List<int>>, the shape of every index in the store: a map from
  a key to a list of row ids. Enumeration follows insertion order (the .NET
  dictionary never has an entry removed here), so the keys are kept as a
  sequence beside the map.
*/
module Dicts {

  predicate NoDup<T(==)>(s: seq<T>)
  {
    forall i, j :: 0 <= i < j < |s| ==> s[i] != s[j]
  }

  predicate StrictlyAscending(s: seq<int>)
  {
    forall i, j :: 0 <= i < j < |s| ==> s[i] < s[j]
  }

  /** Membership in a sequence, one element split off at the end. */
  lemma InButLast<T>(s: seq<T>, x: T)
    requires s != []
    ensures x in s <==> x in s[..|s| - 1] || x == s[|s| - 1]
  {
    assert s == s[..|s| - 1] + [s[|s| - 1]];
  }

  /** Dropping the last element keeps a sequence free of duplicates. */
  lemma NoDupButLast<T>(s: seq<T>)
    requires s != [] && NoDup(s)
    ensures NoDup(s[..|s| - 1]) && s[|s| - 1] !in s[..|s| - 1]
  {
  }

  /** Multiset union, regrouped. */
  lemma UnionSwap<T>(a: multiset<T>, b: multiset<T>, c: multiset<T>)
    ensures (a + b) + c == (a + c) + b
  {
  }

  datatype Dict<K(!new)> = Dict(keys: seq<K>, entries: map<K, seq<int>>)
  {
    /** Every key is listed once, in insertion order, and nothing else is listed. */
    ghost predicate Valid()
    {
      NoDup(keys) && forall k :: k in entries <==> k in keys
    }

    /** TryGetValue, with the empty list for an absent key. */
    function Get(k: K): seq<int>
    {
      if k in entries then entries[k] else []
    }

    /** TryGetValue, create the list on first sight of the key, then AddRange
        (Add for a single row). The key joins the enumeration order only if it
        is new; no other key's list changes. */
    function Append(k: K, xs: seq<int>): (d: Dict<K>)
      ensures d.entries.Keys == entries.Keys + {k}
      ensures d.Get(k) == Get(k) + xs
      ensures forall k' :: k' != k ==> d.Get(k') == Get(k')
      ensures d.keys == if k in entries then keys else keys + [k]
      ensures Valid() ==> d.Valid()
    {
      if k in entries then Dict(keys, entries[k := entries[k] + xs])
      else Dict(keys + [k], entries[k := xs])
    }
  }

  /** A new, empty dictionary. */
  function Empty<K(!new)>(): (d: Dict<K>)
    ensures d.Valid() && d.keys == [] && d.entries == map[]
  {
    Dict([], map[])
  }

  /** Appending twice under one key is appending the concatenation once. */
  lemma AppendTwice<K(!new)>(d: Dict<K>, k: K, xs: seq<int>, ys: seq<int>)
    ensures d.Append(k, xs).Append(k, ys) == d.Append(k, xs + ys)
  {
    if k in d.entries {
      assert d.entries[k] + xs + ys == d.entries[k] + (xs + ys);
    }
  }

  /** Appends under two different keys commute when the first key is already
      present (so it does not move in the enumeration order). */
  lemma AppendCommute<K(!new)>(d: Dict<K>, k: K, xs: seq<int>, l: K, ys: seq<int>)
    requires k != l && k in d.entries
    ensures d.Append(k, xs).Append(l, ys) == d.Append(l, ys).Append(k, xs)
  {
  }
}
