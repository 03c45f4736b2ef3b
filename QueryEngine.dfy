/**
  What a query returns, as functions of the store's contents: how one
  condition is answered (through the field's index, or by scanning every
  record), how two conditions joined by AND are intersected, and which
  records come back.
*/
module QueryEngine {
  import opened Wrappers
  import opened Text
  import opened Json
  import opened Dicts
  import opened Builder
  import opened QueryParser

  /** The store's contents: the index configuration, the records in load
      order, and one index per configured field. */
  datatype Store = Store(config: IndexConfig, records: seq<Record>, indexes: Indexes)

  /** Every configured field has an index of its kind, every index is well
      formed, and every row number it files names a record. */
  ghost predicate Consistent(s: Store)
  {
    && Fits(s.indexes, s.config)
    && (forall f :: f in s.indexes.strings ==>
          s.indexes.strings[f].Valid() && IdsBelow(s.indexes.strings[f], |s.records|))
    && (forall f :: f in s.indexes.nums ==>
          s.indexes.nums[f].Valid() && IdsBelow(s.indexes.nums[f], |s.records|))
    && (forall f :: f in s.indexes.dates ==>
          s.indexes.dates[f].Valid() && IdsBelow(s.indexes.dates[f], |s.records|))
  }

  // ---------------------------------------------------------------------------
  // Evaluating a condition against one value
  // ---------------------------------------------------------------------------

  /** EvaluateCondition: '=' compares the value's text with the query value;
      '<' and '>' hold only for a number when the query value parses as a
      number. */
  function EvaluateCondition(v: JsonValue, value: string, op: Op): (holds: bool)
    ensures holds && op != Eq ==> v.Num? && ParseInteger(value).Some?
    ensures v.Num? && op != Eq && ParseInteger(value).Some? ==>
      (holds <==> Compare(v.value, ParseInteger(value).value, op))
    ensures op == Eq && v.Str? ==> (holds <==> v.s == value)
    ensures op == Eq && v.Null? ==> (holds <==> value == "")
  {
    match op
    case Eq => TextOf(v) == value
    case Lt => v.Num? && ParseInteger(value).Some? && v.value < ParseInteger(value).value
    case Gt => v.Num? && ParseInteger(value).Some? && v.value > ParseInteger(value).value
  }

  /** A number written in decimal form, tested against a query value written
      in decimal form, satisfies a condition exactly when the two numbers
      stand in the condition's relation, as an index lookup decides it. */
  lemma EvaluateConditionDecimal(n: int, isInt64: bool, q: int, op: Op)
    ensures EvaluateCondition(Num(n, isInt64, Decimal(n)), Decimal(q), op) <==> Compare(n, q, op)
  {
    ParseDecimal(q);
    if op == Eq {
      ParseDecimal(n);
    }
  }

  /** A record matches a condition in a scan when it has the field and the
      field's value satisfies the condition. */
  predicate ScanHit(r: Record, c: QueryCondition)
  {
    c.field in r && EvaluateCondition(r[c.field], c.value, c.op)
  }

  /** The rows 0 .. hi - 1 that match c, in increasing order. */
  function ScanMatches(records: seq<Record>, c: QueryCondition, hi: nat): seq<int>
    requires hi <= |records|
  {
    if hi == 0 then []
    else ScanMatches(records, c, hi - 1) + if ScanHit(records[hi - 1], c) then [hi - 1] else []
  }

  /** A scan returns exactly the matching rows, each once, in increasing
      order. */
  lemma {:induction false} ScanMatchesSpec(records: seq<Record>, c: QueryCondition, hi: nat)
    requires hi <= |records|
    ensures StrictlyAscending(ScanMatches(records, c, hi))
    ensures forall x :: x in ScanMatches(records, c, hi) <==> 0 <= x < hi && ScanHit(records[x], c)
  {
    if hi > 0 {
      ScanMatchesSpec(records, c, hi - 1);
      var init := ScanMatches(records, c, hi - 1);
      assert forall j :: 0 <= j < |init| ==> init[j] in init;
    }
  }

  // ---------------------------------------------------------------------------
  // Answering a condition through an index
  // ---------------------------------------------------------------------------

  /** Key k stands in relation op to the query value q. */
  predicate Compare(k: int, q: int, op: Op)
  {
    match op
    case Eq => k == q
    case Lt => k < q
    case Gt => k > q
  }

  /** The lists of the keys of ks (in that order) that stand in relation op
      to q, concatenated. */
  function KeysMatching(d: Dict<int>, ks: seq<int>, q: int, op: Op): seq<int>
  {
    if ks == [] then []
    else
      var k := ks[|ks| - 1];
      KeysMatching(d, ks[..|ks| - 1], q, op) + if Compare(k, q, op) then d.Get(k) else []
  }

  lemma {:induction false} KeysMatchingMember(d: Dict<int>, ks: seq<int>, q: int, op: Op, x: int)
    ensures x in KeysMatching(d, ks, q, op) <==> exists k :: k in ks && Compare(k, q, op) && x in d.Get(k)
  {
    if ks != [] {
      var init, k := ks[..|ks| - 1], ks[|ks| - 1];
      KeysMatchingMember(d, init, q, op, x);
      InButLast(ks, k);
      if exists k' :: k' in ks && Compare(k', q, op) && x in d.Get(k') {
        var k' :| k' in ks && Compare(k', q, op) && x in d.Get(k');
        InButLast(ks, k');
      }
    }
  }

  /** GetIntIndexMatches: nothing when the query value is not a 64-bit
      integer; '=' gives the value's list; '<' and '>' the lists of every
      smaller or larger key, in the index's enumeration order. */
  function IntMatches(d: Dict<int>, c: QueryCondition): seq<int>
  {
    match ParseInt64(c.value)
    case None => []
    case Some(q) =>
      if c.op == Eq then d.Get(q) else KeysMatching(d, d.keys, q, c.op)
  }

  /** An integer index lookup returns exactly the rows filed under a key
      that stands in the condition's relation to the query value. */
  lemma IntMatchesMember(d: Dict<int>, c: QueryCondition, x: int)
    requires d.Valid()
    ensures x in IntMatches(d, c) <==>
      ParseInt64(c.value).Some? && exists k :: Compare(k, ParseInt64(c.value).value, c.op) && x in d.Get(k)
  {
    if ParseInt64(c.value).Some? {
      var q := ParseInt64(c.value).value;
      if c.op == Eq {
        assert Compare(q, q, Eq);
      } else {
        KeysMatchingMember(d, d.keys, q, c.op, x);
      }
    }
  }

  /** GetStringIndexMatches and GetDateIndexMatches: '=' gives the list of
      the query value, compared case-insensitively; any other operator falls
      back to a scan. */
  function TextMatches(d: Dict<string>, records: seq<Record>, c: QueryCondition): seq<int>
  {
    if c.op == Eq then d.Get(Fold(c.value)) else ScanMatches(records, c, |records|)
  }

  /** A String or Date lookup names only records. */
  lemma TextMatchesBelow(d: Dict<string>, records: seq<Record>, c: QueryCondition)
    requires IdsBelow(d, |records|)
    ensures forall j :: 0 <= j < |TextMatches(d, records, c)| ==> 0 <= TextMatches(d, records, c)[j] < |records|
  {
    ScanMatchesSpec(records, c, |records|);
    var ids := TextMatches(d, records, c);
    assert forall j :: 0 <= j < |ids| ==> ids[j] in ids;
  }

  /** An Integer lookup names only records. */
  lemma IntMatchesBelow(d: Dict<int>, c: QueryCondition, n: int)
    requires d.Valid() && IdsBelow(d, n)
    ensures forall j :: 0 <= j < |IntMatches(d, c)| ==> 0 <= IntMatches(d, c)[j] < n
  {
    forall j | 0 <= j < |IntMatches(d, c)|
      ensures 0 <= IntMatches(d, c)[j] < n
    {
      IntMatchesMember(d, c, IntMatches(d, c)[j]);
    }
  }

  /** GetMatchingIndicesForCondition: a configured field is answered by its
      index, any other field by a scan. Every row number names a record. */
  function Matching(s: Store, c: QueryCondition): (ids: seq<int>)
    requires Consistent(s)
    ensures forall j :: 0 <= j < |ids| ==> 0 <= ids[j] < |s.records|
  {
    if c.field in s.config then
      match s.config[c.field]
      case String =>
        TextMatchesBelow(s.indexes.strings[c.field], s.records, c);
        TextMatches(s.indexes.strings[c.field], s.records, c)
      case Integer =>
        IntMatchesBelow(s.indexes.nums[c.field], c, |s.records|);
        IntMatches(s.indexes.nums[c.field], c)
      case Date =>
        TextMatchesBelow(s.indexes.dates[c.field], s.records, c);
        TextMatches(s.indexes.dates[c.field], s.records, c)
    else
      ScanMatchesSpec(s.records, c, |s.records|);
      var ids := ScanMatches(s.records, c, |s.records|);
      assert forall j :: 0 <= j < |ids| ==> ids[j] in ids;
      ids
  }

  // ---------------------------------------------------------------------------
  // Combining conditions and selecting records
  // ---------------------------------------------------------------------------

  /** Enumerable.Intersect: the distinct elements of a that are in b, in the
      order of their first occurrence in a. */
  function Intersect(a: seq<int>, b: seq<int>): (r: seq<int>)
    ensures |r| <= |a|
    ensures forall j :: 0 <= j < |r| ==> r[j] in b
  {
    if a == [] then []
    else
      var r := Intersect(a[..|a| - 1], b);
      var x := a[|a| - 1];
      if x in b && x !in r then r + [x] else r
  }

  /** The intersection holds exactly the common elements, each once. */
  lemma {:induction false} IntersectSpec(a: seq<int>, b: seq<int>)
    ensures NoDup(Intersect(a, b))
    ensures forall x :: x in Intersect(a, b) <==> x in a && x in b
  {
    if a != [] {
      IntersectSpec(a[..|a| - 1], b);
      InButLast(a, a[|a| - 1]);
      forall x | x in a
        ensures x in a[..|a| - 1] || x == a[|a| - 1]
      {
        InButLast(a, x);
      }
    }
  }

  /** The intersection keeps the order of a: of two elements of the result,
      the earlier occurs in a before any occurrence of the later. */
  lemma {:induction false} IntersectOrder(a: seq<int>, b: seq<int>, i: int, j: int)
    requires 0 <= i < j < |Intersect(a, b)|
    ensures exists p :: 0 <= p < |a| && a[p] == Intersect(a, b)[i] && Intersect(a, b)[j] !in a[..p + 1]
  {
    var init, x := a[..|a| - 1], a[|a| - 1];
    var r := Intersect(init, b);
    IntersectSpec(init, b);
    if j < |r| {
      assert Intersect(a, b)[i] == r[i] && Intersect(a, b)[j] == r[j];
      IntersectOrder(init, b, i, j);
      var p :| 0 <= p < |init| && init[p] == r[i] && r[j] !in init[..p + 1];
      assert a[..p + 1] == init[..p + 1];
      assert a[p] == Intersect(a, b)[i] && Intersect(a, b)[j] !in a[..p + 1];
    } else {
      assert Intersect(a, b) == r + [x];
      assert Intersect(a, b)[i] == r[i] && Intersect(a, b)[j] == x;
      assert r[i] in r;
      var p :| 0 <= p < |init| && init[p] == r[i];
      assert x !in init;
      assert a[..p + 1] == init[..p + 1];
      assert x !in init[..p + 1];
      assert a[p] == Intersect(a, b)[i] && Intersect(a, b)[j] !in a[..p + 1];
    }
  }

  /** From increasing input comes increasing output. */
  lemma {:induction false} IntersectAscending(a: seq<int>, b: seq<int>)
    requires StrictlyAscending(a)
    ensures StrictlyAscending(Intersect(a, b))
  {
    if a != [] {
      var init := a[..|a| - 1];
      IntersectAscending(init, b);
      IntersectSpec(init, b);
      var r := Intersect(init, b);
      forall j | 0 <= j < |r|
        ensures r[j] < a[|a| - 1]
      {
        assert r[j] in r;
        assert r[j] in init;
        var i :| 0 <= i < |init| && init[i] == r[j];
        assert a[i] == init[i];
      }
    }
  }

  /** The records at the given row numbers, in that order. */
  function Select(records: seq<Record>, ids: seq<int>): (rs: seq<Record>)
    requires forall j :: 0 <= j < |ids| ==> 0 <= ids[j] < |records|
    ensures |rs| == |ids|
  {
    seq(|ids|, j requires 0 <= j < |ids| => records[ids[j]])
  }

  /** The intersection of two lists of row numbers names only records. */
  lemma IntersectBelow(a: seq<int>, b: seq<int>, n: int)
    requires forall j :: 0 <= j < |a| ==> 0 <= a[j] < n
    ensures forall j :: 0 <= j < |Intersect(a, b)| ==> 0 <= Intersect(a, b)[j] < n
  {
    IntersectSpec(a, b);
    forall j | 0 <= j < |Intersect(a, b)|
      ensures 0 <= Intersect(a, b)[j] < n
    {
      assert Intersect(a, b)[j] in a;
    }
  }

  /** The row numbers for a parsed query: one condition's matches; the
      intersection of two conditions joined by AND; none for any other
      shape. */
  function Answer(s: Store, info: QueryInfo): (ids: seq<int>)
    requires Consistent(s)
    ensures forall j :: 0 <= j < |ids| ==> 0 <= ids[j] < |s.records|
  {
    if |info.conditions| == 1 then Matching(s, info.conditions[0])
    else if |info.conditions| == 2 && info.operator == "AND" then
      var a, b := Matching(s, info.conditions[0]), Matching(s, info.conditions[1]);
      IntersectBelow(a, b, |s.records|);
      Intersect(a, b)
    else []
  }

  /** The row numbers ExecuteQuery selects: none for a query that does not
      parse, otherwise the answer to the parsed query. */
  function QueryIndices(s: Store, q: string): (ids: seq<int>)
    requires Consistent(s)
    ensures forall j :: 0 <= j < |ids| ==> 0 <= ids[j] < |s.records|
  {
    match QueryOf(q)
    case None => []
    case Some(info) => Answer(s, info)
  }

  /** A query that parses to one condition selects that condition's
      matches. */
  lemma QueryIndicesSingle(s: Store, q: string, c: QueryCondition)
    requires Consistent(s) && QueryOf(q).Some? && QueryOf(q).value.conditions == [c]
    ensures QueryIndices(s, q) == Matching(s, c)
  {
  }

  /** ExecuteQuery: the records at the selected row numbers. */
  function Execute(s: Store, q: string): seq<Record>
    requires Consistent(s)
  {
    Select(s.records, QueryIndices(s, q))
  }

  /** A row is selected exactly when the query parses and the row matches
      its one condition, or both of its two AND-joined conditions; it is
      selected at most once when there are two. */
  lemma QueryIndicesMember(s: Store, q: string, x: int)
    requires Consistent(s)
    ensures x in QueryIndices(s, q) <==>
      && QueryOf(q).Some?
      && var cs := QueryOf(q).value.conditions;
         || (|cs| == 1 && x in Matching(s, cs[0]))
         || (|cs| == 2 && QueryOf(q).value.operator == "AND" && x in Matching(s, cs[0]) && x in Matching(s, cs[1]))
    ensures QueryOf(q).Some? && |QueryOf(q).value.conditions| == 2 ==> NoDup(QueryIndices(s, q))
  {
    if QueryOf(q).Some? {
      var cs := QueryOf(q).value.conditions;
      if |cs| == 2 {
        IntersectSpec(Matching(s, cs[0]), Matching(s, cs[1]));
      }
    }
  }

  // ---------------------------------------------------------------------------
  // What the answers mean for a store built by one load
  // ---------------------------------------------------------------------------

  /** The store holds exactly one successful load of its records into empty
      indexes. */
  ghost predicate LoadedOnce(s: Store)
  {
    && s.indexes == MergedIndexes(EmptyIndexes(s.config), s.records)
    && !AnyThrows(s.records, s.config)
  }

  /** What a record must satisfy to be returned for c: through a String or
      Date index, '=' asks for a non-empty string equal to the query value up
      to case; through an Integer index, the query value must be a 64-bit
      integer and the field must read as an integer in the relation to it;
      everything else is the scan's test. */
  predicate Holds(config: IndexConfig, r: Record, c: QueryCondition)
  {
    if c.field in config && config[c.field] != Integer && c.op == Eq then
      var reading := ReadText(Lookup(r, c.field));
      reading.Key? && Fold(reading.key) == Fold(c.value)
    else if c.field in config && config[c.field] == Integer then
      var reading := ReadInteger(Lookup(r, c.field));
      ParseInt64(c.value).Some? && reading.Key? && Compare(reading.key, ParseInt64(c.value).value, c.op)
    else ScanHit(r, c)
  }

  /** Every String or Date index stays well formed with its row numbers
      below n after a load of at most n rows. */
  lemma TextFieldsKeep(m: map<string, Dict<string>>, rs: seq<Record>, n: int)
    requires forall f :: f in m ==> m[f].Valid() && IdsBelow(m[f], n)
    requires |rs| <= n
    ensures MergeTextFields(m, rs).Keys == m.Keys
    ensures forall f :: f in MergeTextFields(m, rs) ==>
      MergeTextFields(m, rs)[f].Valid() && IdsBelow(MergeTextFields(m, rs)[f], n)
  {
    forall f | f in m
      ensures MergeTextFields(m, rs)[f].Valid() && IdsBelow(MergeTextFields(m, rs)[f], n)
    {
      LoadTextValid(m, rs, f);
      LoadTextIdsBelow(m, rs, f, n);
    }
  }

  lemma IntFieldsKeep(m: map<string, Dict<int>>, rs: seq<Record>, n: int)
    requires forall f :: f in m ==> m[f].Valid() && IdsBelow(m[f], n)
    requires |rs| <= n
    ensures MergeIntFields(m, rs).Keys == m.Keys
    ensures forall f :: f in MergeIntFields(m, rs) ==>
      MergeIntFields(m, rs)[f].Valid() && IdsBelow(MergeIntFields(m, rs)[f], n)
  {
    forall f | f in m
      ensures MergeIntFields(m, rs)[f].Valid() && IdsBelow(MergeIntFields(m, rs)[f], n)
    {
      LoadIntValid(m, rs, f);
      LoadIntIdsBelow(m, rs, f, n);
    }
  }

  /** Row numbers below a bound are below any larger bound. */
  lemma IdsBelowGrow<K(!new)>(m: map<string, Dict<K>>, a: int, b: int)
    requires a <= b && forall f :: f in m ==> IdsBelow(m[f], a)
    ensures forall f :: f in m ==> IdsBelow(m[f], b)
  {
  }

  /** A successful load keeps a store consistent: the merged indexes keep
      their fields and their shape, and every row number they file, old or
      new, names a record of the longer list. */
  lemma LoadKeepsConsistent(s: Store, rs: seq<Record>)
    requires Consistent(s)
    ensures Consistent(Store(s.config, s.records + rs, MergedIndexes(s.indexes, rs)))
  {
    var n := |s.records + rs|;
    IdsBelowGrow(s.indexes.strings, |s.records|, n);
    IdsBelowGrow(s.indexes.nums, |s.records|, n);
    IdsBelowGrow(s.indexes.dates, |s.records|, n);
    TextFieldsKeep(s.indexes.strings, rs, n);
    IntFieldsKeep(s.indexes.nums, rs, n);
    TextFieldsKeep(s.indexes.dates, rs, n);
  }

  /** For a store built by one load, a condition returns exactly the records
      that satisfy it. */
  lemma MatchingMeaning(s: Store, c: QueryCondition, x: int)
    requires Consistent(s) && LoadedOnce(s)
    ensures x in Matching(s, c) <==> 0 <= x < |s.records| && Holds(s.config, s.records[x], c)
  {
    ScanMatchesSpec(s.records, c, |s.records|);
    var f := c.field;
    if f in s.config {
      var empty := EmptyIndexes(s.config);
      match s.config[f]
      case String =>
        if c.op == Eq {
          LoadTextFirst(empty.strings, s.records, f, Fold(c.value), x);
        }
      case Date =>
        if c.op == Eq {
          LoadTextFirst(empty.dates, s.records, f, Fold(c.value), x);
        }
      case Integer =>
        IntMatchesMember(s.indexes.nums[f], c, x);
        if ParseInt64(c.value).Some? {
          var q := ParseInt64(c.value).value;
          if x in Matching(s, c) {
            var k :| Compare(k, q, c.op) && x in s.indexes.nums[f].Get(k);
            LoadIntFirst(empty.nums, s.records, f, k);
          }
          if 0 <= x < |s.records| && Holds(s.config, s.records[x], c) {
            var k := ReadInteger(Lookup(s.records[x], f)).key;
            LoadIntFirst(empty.nums, s.records, f, k);
          }
        }
    }
  }

  /** Indexing a field can change a query's answer: with an Integer index,
      "n = 007" returns a record whose n is the number 7, which a scan (which
      compares the text "7" with "007") does not return. */
  lemma IndexChangesAnswer()
    ensures var r: Record := map["n" := Num(7, true, "7")];
      var c := QueryCondition("n", Eq, "007");
      Holds(map["n" := Integer], r, c) && !ScanHit(r, c)
  {
    var r: Record := map["n" := Num(7, true, "7")];
    assert ReadInteger(Lookup(r, "n")) == Key(7);
    ParseSevenWithZeros();
  }

  /** "007" reads as the integer 7. */
  lemma ParseSevenWithZeros()
    ensures ParseInt64("007") == Some(7)
  {
    assert Trimmed("007", NumberWhite);
    TrimCharsFixed("007", NumberWhite);
    var ds := "007";
    assert ds[..2] == "00" && ds[..2][..1] == "0" && ds[..2][..1][..0] == "";
    assert DigitsValue("0") == 0;
    assert DigitsValue("00") == 0;
    assert DigitsValue(ds) == 7;
  }

  /** Where an index and a scan agree: a record the scan returns for a
      non-empty '=' value on a String or Date field, or for '<' or '>' with a
      64-bit query value on an Integer field, is returned through the index
      too (a record whose field throws never reaches a store). */
  lemma ScanHitIndexed(config: IndexConfig, r: Record, c: QueryCondition)
    requires c.field in config && !FieldThrows(r, c.field, config[c.field])
    requires config[c.field] != Integer ==> c.op == Eq && c.value != ""
    requires config[c.field] == Integer ==> c.op != Eq && ParseInt64(c.value).Some?
    requires ScanHit(r, c)
    ensures Holds(config, r, c)
  {
  }

  /** Where they differ: a String index compares case-insensitively, a scan
      exactly. */
  lemma IndexIgnoresCase()
    ensures var r: Record := map["name" := Str("ab")];
      var c := QueryCondition("name", Eq, "AB");
      Holds(map["name" := String], r, c) && !ScanHit(r, c)
  {
    assert Fold("ab") == "AB";
    assert Fold("AB") == "AB";
  }
}
