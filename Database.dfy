/**
  The database object: the records, one index per configured field, the
  query cache, and the operations that load records and answer queries.
  Each method is proved against the functions of QueryEngine and Builder.
*/
module Database {
  import opened Wrappers
  import opened Text
  import opened Json
  import opened Dicts
  import opened Builder
  import opened QueryParser
  import opened QueryEngine

  /** At most three indexes; the indexes are consistent with the records;
      with no records loaded yet, every index is empty. */
  ghost predicate Sound(s: Store)
  {
    && |s.config| <= MaxIndexes
    && Consistent(s)
    && (s.records == [] ==> s.indexes == EmptyIndexes(s.config))
  }

  /** A successful load keeps a store sound, and a load into a store with no
      records gives a store built by that one load. */
  lemma LoadKeepsSound(s: Store, rs: seq<Record>)
    requires Sound(s) && !AnyThrows(rs, s.config)
    ensures Sound(Store(s.config, s.records + rs, MergedIndexes(s.indexes, rs)))
    ensures s.records == [] ==> LoadedOnce(Store(s.config, s.records + rs, MergedIndexes(s.indexes, rs)))
  {
    LoadKeepsConsistent(s, rs);
    if s.records == [] {
      assert s.records + rs == rs;
      if rs == [] {
        LoadNothing(s.indexes);
      }
    }
  }

  /** Exactly the configured fields of done have an empty index of their
      kind. */
  ghost predicate EmptyFor(ix: Indexes, config: IndexConfig, done: set<string>)
  {
    && ix.strings.Keys == FieldsOf(config, String) * done && (forall f :: f in ix.strings ==> ix.strings[f] == Empty())
    && ix.nums.Keys == FieldsOf(config, Integer) * done && (forall f :: f in ix.nums ==> ix.nums[f] == Empty())
    && ix.dates.Keys == FieldsOf(config, Date) * done && (forall f :: f in ix.dates ==> ix.dates[f] == Empty())
  }

  /** Adding the empty index of one more field. */
  lemma EmptyForStep(ix: Indexes, config: IndexConfig, done: set<string>, f: string)
    requires EmptyFor(ix, config, done) && f in config
    ensures config[f] == String ==> EmptyFor(ix.(strings := ix.strings[f := Empty()]), config, done + {f})
    ensures config[f] == Integer ==> EmptyFor(ix.(nums := ix.nums[f := Empty()]), config, done + {f})
    ensures config[f] == Date ==> EmptyFor(ix.(dates := ix.dates[f := Empty()]), config, done + {f})
  {
  }

  /** Once every field is done, the indexes are the empty ones. */
  lemma EmptyForAll(ix: Indexes, config: IndexConfig)
    requires EmptyFor(ix, config, config.Keys)
    ensures ix == EmptyIndexes(config)
  {
    var e := EmptyIndexes(config);
    assert ix.strings == e.strings && ix.nums == e.nums && ix.dates == e.dates;
  }

  /** The constructor's loop over the configuration: an empty index of the
      configured kind for each configured field. */
  method InitIndexes(indexConfig: IndexConfig) returns (ix: Indexes)
    ensures ix == EmptyIndexes(indexConfig)
  {
    var s: map<string, Dict<string>> := map[];
    var n: map<string, Dict<int>> := map[];
    var d: map<string, Dict<string>> := map[];
    var todo := indexConfig.Keys;
    ghost var done: set<string> := {};
    while todo != {}
      invariant done + todo == indexConfig.Keys && done !! todo
      invariant EmptyFor(Indexes(s, n, d), indexConfig, done)
      decreases todo
    {
      var f :| f in todo;
      EmptyForStep(Indexes(s, n, d), indexConfig, done, f);
      match indexConfig[f] {
        case String => s := s[f := Empty()];
        case Integer => n := n[f := Empty()];
        case Date => d := d[f := Empty()];
      }
      todo := todo - {f};
      done := done + {f};
    }
    EmptyForAll(Indexes(s, n, d), indexConfig);
    ix := Indexes(s, n, d);
  }

  /** The '<' and '>' loops of GetIntIndexMatches: walk the index in
      enumeration order and collect the lists of the keys that stand in
      relation op to q. */
  method CollectKeys(fieldIndex: Dict<int>, q: int, op: Op) returns (result: seq<int>)
    ensures result == KeysMatching(fieldIndex, fieldIndex.keys, q, op)
  {
    result := [];
    var keys := fieldIndex.keys;
    for i := 0 to |keys|
      invariant result == KeysMatching(fieldIndex, keys[..i], q, op)
    {
      assert keys[..i + 1][..i] == keys[..i];
      if Compare(keys[i], q, op) {
        result := result + fieldIndex.Get(keys[i]);
      }
    }
    assert keys[..|keys|] == keys;
  }

  class VesselDatabase {
    /** The records, in load order. */
    var records: seq<Record>
    /** Field name to String index, Integer index and Date index. */
    var strings: map<string, Dict<string>>
    var nums: map<string, Dict<int>>
    var dates: map<string, Dict<string>>
    /** Query results, keyed by the case-folded query text. */
    var cache: map<string, seq<Record>>
    /** Field name to the kind of index it has. */
    const config: IndexConfig

    /** The store the queries read. */
    function State(): Store
      reads this
    {
      Store(config, records, Indexes(strings, nums, dates))
    }

    ghost predicate Valid()
      reads this
    {
      Sound(State())
    }

    /** The constructor, once the configuration is known to hold at most three
        indexes: no records, an empty cache, and an empty index of the
        configured kind for each configured field. */
    constructor (indexConfig: IndexConfig)
      requires |indexConfig| <= MaxIndexes
      ensures Valid()
      ensures config == indexConfig && records == [] && cache == map[]
      ensures Indexes(strings, nums, dates) == EmptyIndexes(indexConfig)
    {
      var ix := InitIndexes(indexConfig);
      config := indexConfig;
      records := [];
      strings, nums, dates := ix.strings, ix.nums, ix.dates;
      cache := map[];
    }

    /** Creating a database fails with "Maximum 3 indexes allowed" exactly
        when more than three fields are configured. */
    static method Create(indexConfig: IndexConfig) returns (r: Result<VesselDatabase, string>)
      ensures r.Failure? <==> |indexConfig| > MaxIndexes
      ensures r.Failure? ==> r.error == "Maximum 3 indexes allowed"
      ensures r.Success? ==>
        && fresh(r.value) && r.value.Valid()
        && r.value.config == indexConfig && r.value.records == [] && r.value.cache == map[]
    {
      if |indexConfig| > MaxIndexes {
        return Failure("Maximum 3 indexes allowed");
      }
      var db := new VesselDatabase(indexConfig);
      return Success(db);
    }

    /** LoadDataAsync, after the JSON is parsed: setting the record list's
        capacity to the batch size fails when the list already holds more
        records; otherwise the batch is indexed chunk by chunk, appended and
        merged. A failed load changes nothing; the cache is kept either
        way. */
    method LoadData(elements: seq<Record>) returns (err: Option<LoadError>)
      requires Valid()
      modifies this
      ensures Valid()
      ensures err.Some? <==> |elements| < |old(records)| || AnyThrows(elements, config)
      ensures err.Some? ==> err.value == if |elements| < |old(records)| then CapacityBelowCount else FieldReadFailed
      ensures err.Some? ==> State() == old(State())
      ensures err.None? ==>
        && records == old(records) + elements
        && Indexes(strings, nums, dates) == MergedIndexes(old(Indexes(strings, nums, dates)), elements)
      ensures err.None? && old(records) == [] ==> LoadedOnce(State())
      ensures cache == old(cache)
    {
      if |elements| < |records| {
        return Some(CapacityBelowCount);
      }
      var r := InitIndexCollectionsForChunks(config, elements, records, Indexes(strings, nums, dates));
      match r {
        case Failure(e) =>
          return Some(e);
        case Success(loaded) =>
          LoadKeepsSound(State(), elements);
          records := loaded.records;
          strings, nums, dates := loaded.indexes.strings, loaded.indexes.nums, loaded.indexes.dates;
          return None;
      }
    }

    /** GetIndicesLinearScan: the rows whose field satisfies the condition,
        in increasing order. */
    method GetIndicesLinearScan(condition: QueryCondition) returns (result: seq<int>)
      ensures result == ScanMatches(records, condition, |records|)
      ensures StrictlyAscending(result)
      ensures forall x :: x in result <==> 0 <= x < |records| && ScanHit(records[x], condition)
    {
      result := [];
      for i := 0 to |records|
        invariant result == ScanMatches(records, condition, i)
      {
        if condition.field in records[i] && EvaluateCondition(records[i][condition.field], condition.value, condition.op) {
          result := result + [i];
        }
      }
      ScanMatchesSpec(records, condition, |records|);
    }

    /** GetStringIndexMatches: '=' looks the value up case-insensitively;
        any other operator falls back to a scan. */
    method GetStringIndexMatches(condition: QueryCondition) returns (result: seq<int>)
      requires condition.field in strings
      ensures result == TextMatches(strings[condition.field], records, condition)
    {
      var fieldIndex := strings[condition.field];
      result := [];
      match condition.op {
        case Eq =>
          if Fold(condition.value) in fieldIndex.entries {
            result := result + fieldIndex.entries[Fold(condition.value)];
          }
        case _ =>
          result := GetIndicesLinearScan(condition);
      }
    }

    /** GetIntIndexMatches: nothing when the value is not a 64-bit integer;
        '=' looks the value up; '<' and '>' walk the index in enumeration
        order and collect the lists of the smaller or larger keys. */
    method GetIntIndexMatches(condition: QueryCondition) returns (result: seq<int>)
      requires condition.field in nums
      ensures result == IntMatches(nums[condition.field], condition)
    {
      var fieldIndex := nums[condition.field];
      result := [];
      var parsed := ParseInt64(condition.value);
      if parsed.None? {
        return;
      }
      var queryValue := parsed.value;
      if condition.op == Eq {
        if queryValue in fieldIndex.entries {
          result := result + fieldIndex.entries[queryValue];
        }
      } else {
        result := CollectKeys(fieldIndex, queryValue, condition.op);
      }
    }

    /** GetDateIndexMatches: as for a String index. */
    method GetDateIndexMatches(condition: QueryCondition) returns (result: seq<int>)
      requires condition.field in dates
      ensures result == TextMatches(dates[condition.field], records, condition)
    {
      var fieldIndex := dates[condition.field];
      result := [];
      match condition.op {
        case Eq =>
          if Fold(condition.value) in fieldIndex.entries {
            result := result + fieldIndex.entries[Fold(condition.value)];
          }
        case _ =>
          result := GetIndicesLinearScan(condition);
      }
    }

    /** GetMatchingIndicesForCondition: the index of a configured field,
        otherwise a scan. */
    method GetMatchingIndicesForCondition(condition: QueryCondition) returns (result: seq<int>)
      requires Valid()
      ensures result == Matching(State(), condition)
    {
      if condition.field in config {
        match config[condition.field] {
          case String =>
            result := GetStringIndexMatches(condition);
          case Integer =>
            result := GetIntIndexMatches(condition);
          case Date =>
            result := GetDateIndexMatches(condition);
        }
      } else {
        result := GetIndicesLinearScan(condition);
      }
    }

    /** ExecuteQuery: parse, answer one condition or two joined by AND, and
        return the records at the matching rows. */
    method ExecuteQuery(queryString: string) returns (result: seq<Record>)
      requires Valid()
      ensures result == Execute(State(), queryString)
    {
      var query := ParseQuery(queryString);
      if query.None? {
        return [];
      }
      var info := query.value;
      var matchingIndices: seq<int>;
      if |info.conditions| == 1 {
        matchingIndices := GetMatchingIndicesForCondition(info.conditions[0]);
      } else if |info.conditions| == 2 && info.operator == "AND" {
        var indices1 := GetMatchingIndicesForCondition(info.conditions[0]);
        var indices2 := GetMatchingIndicesForCondition(info.conditions[1]);
        matchingIndices := Intersect(indices1, indices2);
      } else {
        return [];
      }
      assert matchingIndices == QueryIndices(State(), queryString);
      result := Select(records, matchingIndices);
    }

    /** Query: a query whose text equals a cached one up to case is answered
        from the cache, which is left as it was; any other query is executed
        and its result cached under its text. Nothing else changes. */
    method Query(queryString: string) returns (result: seq<Record>)
      requires Valid()
      modifies this`cache
      ensures Valid()
      ensures Fold(queryString) in old(cache) ==> result == old(cache)[Fold(queryString)] && cache == old(cache)
      ensures Fold(queryString) !in old(cache) ==>
        result == Execute(State(), queryString) && cache == old(cache)[Fold(queryString) := result]
    {
      var key := Fold(queryString);
      if key in cache {
        return cache[key];
      }
      result := ExecuteQuery(queryString);
      cache := cache[key := result];
    }
  }

  /** "a=b" parses to the single condition a = b. */
  lemma ParseLowerQuery()
    ensures QueryOf("a=b") == Some(QueryInfo([QueryCondition("a", Eq, "b")], ""))
  {
    var c := QueryCondition("a", Eq, "b");
    assert Render(c) == "a=b";
    assert WellFormed(c);
    assert !Contains("a=b", WherePrefix) && !Contains("a=b", AndSeparator);
    QueryOfRender(c);
  }

  /** "a=B" parses to the single condition a = B. */
  lemma ParseUpperQuery()
    ensures QueryOf("a=B") == Some(QueryInfo([QueryCondition("a", Eq, "B")], ""))
  {
    var c := QueryCondition("a", Eq, "B");
    assert Render(c) == "a=B";
    assert WellFormed(c);
    assert !Contains("a=B", WherePrefix) && !Contains("a=B", AndSeparator);
    QueryOfRender(c);
  }

  /** Folding only upper-cases: strings that agree up to case fold alike. */
  lemma FoldAlike(s: string, t: string)
    requires |s| == |t| && forall i :: 0 <= i < |s| ==> FoldChar(s[i]) == FoldChar(t[i])
    ensures Fold(s) == Fold(t)
  {
  }

  /** The sample record. */
  function SampleRecord(): Record
  {
    map["a" := Str("b")]
  }

  /** The sample record matches a = b but not a = B. */
  lemma SampleHits()
    ensures ScanHit(SampleRecord(), QueryCondition("a", Eq, "b"))
    ensures !ScanHit(SampleRecord(), QueryCondition("a", Eq, "B"))
  {
    assert SampleRecord()["a"] == Str("b");
  }

  /** One record, a = "b", and no index. */
  function SampleStore(): (s: Store)
    ensures Consistent(s)
  {
    var s := Store(map[], [SampleRecord()], Indexes(map[], map[], map[]));
    assert FieldsOf(s.config, String) == {} && FieldsOf(s.config, Integer) == {} && FieldsOf(s.config, Date) == {};
    s
  }

  /** Two single-condition queries on an unindexed field whose scans find
      different numbers of rows return different results. */
  lemma ScansDiffer(s: Store, q1: string, q2: string, c1: QueryCondition, c2: QueryCondition)
    requires Consistent(s)
    requires QueryOf(q1).Some? && QueryOf(q1).value.conditions == [c1] && c1.field !in s.config
    requires QueryOf(q2).Some? && QueryOf(q2).value.conditions == [c2] && c2.field !in s.config
    requires |ScanMatches(s.records, c1, |s.records|)| != |ScanMatches(s.records, c2, |s.records|)|
    ensures Execute(s, q1) != Execute(s, q2)
  {
    QueryIndicesSingle(s, q1, c1);
    QueryIndicesSingle(s, q2, c2);
  }

  /** A scan of the sample store finds one row for a = b and none for
      a = B. */
  lemma SampleScans()
    ensures |ScanMatches(SampleStore().records, QueryCondition("a", Eq, "b"), |SampleStore().records|)| == 1
    ensures |ScanMatches(SampleStore().records, QueryCondition("a", Eq, "B"), |SampleStore().records|)| == 0
  {
    var s := SampleStore();
    SampleHits();
    assert s.records[0] == SampleRecord();
  }

  /** "a=b" and "a=B" are the same cache key. */
  lemma SampleKeysFoldAlike()
    ensures Fold("a=b") == Fold("a=B")
  {
    FoldAlike("a=b", "a=B");
  }

  /** The cache conflates queries that differ only in case, although their
      answers can differ: on an unindexed field the scan compares exactly, so
      "a=b" and "a=B" select different records, yet the second is served the
      first's cached result. */
  lemma CacheConflatesCase()
    ensures Fold("a=b") == Fold("a=B")
    ensures Execute(SampleStore(), "a=b") != Execute(SampleStore(), "a=B")
  {
    ParseLowerQuery();
    ParseUpperQuery();
    SampleScans();
    ScansDiffer(SampleStore(), "a=b", "a=B", QueryCondition("a", Eq, "b"), QueryCondition("a", Eq, "B"));
    SampleKeysFoldAlike();
  }
}
