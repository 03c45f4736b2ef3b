/**
  The loader (VesselDbHelper): the input rows are cut into chunks of
  ChunkSize rows; every chunk files its rows into chunk-local indexes, one per
  configured field; the chunks' rows are appended to the record list in chunk
  order; and the chunk-local indexes are folded, chunk by chunk, into the
  global per-field indexes. The parallel phases run here one after another.
*/
module Builder {
  import opened Wrappers
  import opened Text
  import opened Json
  import opened Dicts
  import opened Chunks
  import opened IndexTheory

  // ---------------------------------------------------------------------------
  // Reading one field of one record for an index
  // ---------------------------------------------------------------------------

  /** What reading a field for its index gives: nothing to file, the key to
      file the row under, or an exception. */
  datatype Reading<K> = Skip | Key(key: K) | Throws

  /** JsonElement.TryGetProperty: an exact (ordinal) property lookup. */
  function Lookup(r: Record, field: string): Option<JsonValue>
  {
    if field in r then Some(r[field]) else None
  }

  /** A String or Date field: a missing or null property is skipped;
      otherwise GetString is called, which throws on anything but a string,
      and an empty string is skipped. */
  function ReadText(v: Option<JsonValue>): (r: Reading<string>)
    ensures r.Key? <==> v.Some? && v.value.Str? && v.value.s != ""
    ensures r.Key? ==> v == Some(Str(r.key))
    ensures r.Throws? <==> v.Some? && !v.value.Null? && !v.value.Str?
  {
    match v
    case None => Skip
    case Some(Null) => Skip
    case Some(Str(s)) => if s == "" then Skip else Key(s)
    case Some(_) => Throws
  }

  /** An Integer field: a missing or null property is skipped; a number goes
      through GetInt64, which throws unless the number is an integer literal
      in the signed 64-bit range; a
      string is filed when long.TryParse accepts it and skipped otherwise; any
      other value is skipped. */
  function ReadInteger(v: Option<JsonValue>): (r: Reading<int>)
    ensures r.Key? ==> IsInt64(r.key) && v.Some? && (v.value.Num? || v.value.Str?)
    ensures r.Key? && v.value.Num? ==> r.key == v.value.value
    ensures r.Key? && v.value.Str? ==> ParseInteger(v.value.s) == Some(r.key)
    ensures v.Some? && v.value.Str? ==>
      (r.Key? <==> ParseInteger(v.value.s).Some? && IsInt64(ParseInteger(v.value.s).value))
    ensures r.Throws? <==> v.Some? && v.value.Num? && !(v.value.isInt64 && IsInt64(v.value.value))
  {
    match v
    case None => Skip
    case Some(Null) => Skip
    case Some(Num(n, isInt64, _)) => if isInt64 && IsInt64(n) then Key(n) else Throws
    case Some(Str(s)) => if ParseInt64(s).Some? then Key(ParseInt64(s).value) else Skip
    case Some(Other(_)) => Skip
  }

  /** The key a reading files the row under, if any. */
  function KeyOf<K>(r: Reading<K>): Option<K>
  {
    if r.Key? then Some(r.key) else None
  }

  /** Reading field f of r for an index of the given kind throws. */
  predicate FieldThrows(r: Record, f: string, kind: IndexType)
  {
    if kind == Integer then ReadInteger(Lookup(r, f)).Throws? else ReadText(Lookup(r, f)).Throws?
  }

  /** Filing r throws for some configured field: the exception is rethrown
      and fails the whole load. */
  predicate RecordThrows(r: Record, config: IndexConfig)
  {
    exists f :: f in config && FieldThrows(r, f, config[f])
  }

  /** Some row of rs throws. */
  predicate AnyThrows(rs: seq<Record>, config: IndexConfig)
  {
    exists i :: 0 <= i < |rs| && RecordThrows(rs[i], config)
  }

  /** Row by row, the key a String or Date field files each row under. */
  function TextKeys(rs: seq<Record>, f: string): (keys: seq<Option<string>>)
    ensures |keys| == |rs|
    ensures forall i :: 0 <= i < |rs| ==> keys[i] == KeyOf(ReadText(Lookup(rs[i], f)))
  {
    seq(|rs|, i requires 0 <= i < |rs| => KeyOf(ReadText(Lookup(rs[i], f))))
  }

  /** Row by row, the key an Integer field files each row under. */
  function IntKeys(rs: seq<Record>, f: string): (keys: seq<Option<int>>)
    ensures |keys| == |rs|
    ensures forall i :: 0 <= i < |rs| ==> keys[i] == KeyOf(ReadInteger(Lookup(rs[i], f)))
  {
    seq(|rs|, i requires 0 <= i < |rs| => KeyOf(ReadInteger(Lookup(rs[i], f))))
  }

  // ---------------------------------------------------------------------------
  // Index collections
  // ---------------------------------------------------------------------------

  /** One index per configured field, kept in the map of the field's kind.
      The same shape serves for a chunk's local indexes and the global ones. */
  datatype Indexes = Indexes(
    strings: map<string, Dict<string>>,
    nums: map<string, Dict<int>>,
    dates: map<string, Dict<string>>)

  /** The configured fields of one kind. */
  function FieldsOf(config: IndexConfig, kind: IndexType): set<string>
  {
    set f | f in config && config[f] == kind
  }

  /** Exactly the configured fields of each kind have an index. */
  predicate Fits(ix: Indexes, config: IndexConfig)
  {
    && ix.strings.Keys == FieldsOf(config, String)
    && ix.nums.Keys == FieldsOf(config, Integer)
    && ix.dates.Keys == FieldsOf(config, Date)
  }

  /** One empty index per configured field, in the map of its kind. */
  function EmptyIndexes(config: IndexConfig): (ix: Indexes)
    ensures Fits(ix, config)
  {
    Indexes(
      map f | f in FieldsOf(config, String) :: Empty<string>(),
      map f | f in FieldsOf(config, Integer) :: Empty<int>(),
      map f | f in FieldsOf(config, Date) :: Empty<string>())
  }

  /** A String or Date index map after row i (the record r) was filed under
      every field in done. */
  function FiledText(m: map<string, Dict<string>>, r: Record, i: int, done: set<string>): map<string, Dict<string>>
  {
    map f | f in m :: if f in done then AddRow(m[f], KeyOf(ReadText(Lookup(r, f))), i) else m[f]
  }

  /** An Integer index map after row i (the record r) was filed under every
      field in done. */
  function FiledInt(m: map<string, Dict<int>>, r: Record, i: int, done: set<string>): map<string, Dict<int>>
  {
    map f | f in m :: if f in done then AddRow(m[f], KeyOf(ReadInteger(Lookup(r, f))), i) else m[f]
  }

  /** Filing row i (the record r) into the chunk-local indexes: None when a
      field read throws, otherwise every field's index gets the row under the
      key its reading gives. */
  function AddRecord(ix: Indexes, r: Record, i: int, config: IndexConfig): Option<Indexes>
  {
    if RecordThrows(r, config) then None
    else Some(Filed(ix, r, i, config.Keys))
  }

  /** All index maps after row i (the record r) was filed under every field
      in done. */
  function Filed(ix: Indexes, r: Record, i: int, done: set<string>): Indexes
  {
    Indexes(FiledText(ix.strings, r, i, done), FiledInt(ix.nums, r, i, done), FiledText(ix.dates, r, i, done))
  }

  /** Filing row i (the record r) under one field f of the given kind. */
  function FileOne(ix: Indexes, r: Record, i: int, f: string, kind: IndexType): Indexes
  {
    match kind
    case String =>
      if f in ix.strings then ix.(strings := ix.strings[f := AddRow(ix.strings[f], KeyOf(ReadText(Lookup(r, f))), i)])
      else ix
    case Integer =>
      if f in ix.nums then ix.(nums := ix.nums[f := AddRow(ix.nums[f], KeyOf(ReadInteger(Lookup(r, f))), i)])
      else ix
    case Date =>
      if f in ix.dates then ix.(dates := ix.dates[f := AddRow(ix.dates[f], KeyOf(ReadText(Lookup(r, f))), i)])
      else ix
  }

  /** Filing one more field extends the fields done by one. */
  lemma FiledTextStep(m: map<string, Dict<string>>, r: Record, i: int, done: set<string>, f: string)
    requires f !in done
    ensures f in m ==> FiledText(m, r, i, done + {f}) == FiledText(m, r, i, done)[f := AddRow(m[f], KeyOf(ReadText(Lookup(r, f))), i)]
    ensures f !in m ==> FiledText(m, r, i, done + {f}) == FiledText(m, r, i, done)
  {
  }

  lemma FiledIntStep(m: map<string, Dict<int>>, r: Record, i: int, done: set<string>, f: string)
    requires f !in done
    ensures f in m ==> FiledInt(m, r, i, done + {f}) == FiledInt(m, r, i, done)[f := AddRow(m[f], KeyOf(ReadInteger(Lookup(r, f))), i)]
    ensures f !in m ==> FiledInt(m, r, i, done + {f}) == FiledInt(m, r, i, done)
  {
  }

  /** Filing one more field extends the fields done by one. */
  lemma FiledStep(local: Indexes, r: Record, i: int, done: set<string>, f: string, config: IndexConfig)
    requires Fits(local, config) && f in config && f !in done
    ensures Filed(local, r, i, done + {f}) == FileOne(Filed(local, r, i, done), r, i, f, config[f])
  {
    FiledTextStep(local.strings, r, i, done, f);
    FiledIntStep(local.nums, r, i, done, f);
    FiledTextStep(local.dates, r, i, done, f);
  }

  /** The chunk-local indexes after filing rows lo .. hi - 1 in order. */
  function BuildLocal(rs: seq<Record>, config: IndexConfig, lo: nat, hi: nat): Option<Indexes>
    requires hi <= |rs|
    decreases hi
  {
    if hi <= lo then Some(EmptyIndexes(config))
    else match BuildLocal(rs, config, lo, hi - 1)
      case None => None
      case Some(ix) => AddRecord(ix, rs[hi - 1], hi - 1, config)
  }

  /** A range that builds gives an index for exactly the configured
      fields. */
  lemma BuildLocalFits(rs: seq<Record>, config: IndexConfig, lo: nat, hi: nat)
    requires hi <= |rs| && BuildLocal(rs, config, lo, hi).Some?
    ensures Fits(BuildLocal(rs, config, lo, hi).value, config)
  {
    BuildLocalFields(rs, config, lo, hi);
  }

  /** One more row: a range that builds to local, extended by row hi, builds
      to local with that row filed. */
  lemma BuildLocalNext(rs: seq<Record>, config: IndexConfig, lo: nat, hi: nat, local: Indexes)
    requires lo <= hi < |rs| && BuildLocal(rs, config, lo, hi) == Some(local)
    ensures Fits(local, config)
    ensures BuildLocal(rs, config, lo, hi + 1) == AddRecord(local, rs[hi], hi, config)
    ensures rs[lo..hi + 1] == rs[lo..hi] + [rs[hi]]
  {
    BuildLocalFits(rs, config, lo, hi);
  }

  /** Building a range fails exactly when one of its rows throws. */
  lemma {:induction false} BuildLocalFails(rs: seq<Record>, config: IndexConfig, lo: nat, hi: nat)
    requires hi <= |rs|
    ensures BuildLocal(rs, config, lo, hi).None? <==> exists i :: lo <= i < hi && RecordThrows(rs[i], config)
    decreases hi
  {
    if hi > lo {
      BuildLocalFails(rs, config, lo, hi - 1);
      if BuildLocal(rs, config, lo, hi - 1).Some? && RecordThrows(rs[hi - 1], config) {
        assert BuildLocal(rs, config, lo, hi).None?;
      }
    }
  }

  /** A successful range build holds, for every configured field, exactly the
      index the generic single-range build gives over that field's keys. */
  lemma {:induction false} BuildLocalFields(rs: seq<Record>, config: IndexConfig, lo: nat, hi: nat)
    requires hi <= |rs|
    requires BuildLocal(rs, config, lo, hi).Some?
    ensures Fits(BuildLocal(rs, config, lo, hi).value, config)
    ensures var ix := BuildLocal(rs, config, lo, hi).value;
      && (forall f :: f in ix.strings ==> ix.strings[f] == BuildRange(TextKeys(rs, f), lo, hi))
      && (forall f :: f in ix.nums ==> ix.nums[f] == BuildRange(IntKeys(rs, f), lo, hi))
      && (forall f :: f in ix.dates ==> ix.dates[f] == BuildRange(TextKeys(rs, f), lo, hi))
    decreases hi
  {
    if hi > lo {
      BuildLocalFields(rs, config, lo, hi - 1);
    }
  }

  // ---------------------------------------------------------------------------
  // Building the chunk-local indexes
  // ---------------------------------------------------------------------------

  /** One case of the switch on the field's kind: read field f of vessel
      and, when the reading gives a key, append recordIndex to that key's list
      in the field's index; None when the read throws. */
  method FileField(vessel: Record, recordIndex: int, ix: Indexes, f: string, kind: IndexType)
    returns (r: Option<Indexes>)
    requires kind == String ==> f in ix.strings
    requires kind == Integer ==> f in ix.nums
    requires kind == Date ==> f in ix.dates
    ensures r.None? <==> FieldThrows(vessel, f, kind)
    ensures r.Some? ==> r.value == FileOne(ix, vessel, recordIndex, f, kind)
  {
    match kind {
    case String =>
      var reading := ReadText(Lookup(vessel, f));
      if reading.Throws? {
        return None;
      }
      if reading.Key? {
        return Some(ix.(strings := ix.strings[f := ix.strings[f].Append(reading.key, [recordIndex])]));
      }
      assert ix.strings[f := ix.strings[f]] == ix.strings;
    case Integer =>
      var reading := ReadInteger(Lookup(vessel, f));
      if reading.Throws? {
        return None;
      }
      if reading.Key? {
        return Some(ix.(nums := ix.nums[f := ix.nums[f].Append(reading.key, [recordIndex])]));
      }
      assert ix.nums[f := ix.nums[f]] == ix.nums;
    case Date =>
      var reading := ReadText(Lookup(vessel, f));
      if reading.Throws? {
        return None;
      }
      if reading.Key? {
        return Some(ix.(dates := ix.dates[f := ix.dates[f].Append(reading.key, [recordIndex])]));
      }
      assert ix.dates[f := ix.dates[f]] == ix.dates;
    }
    return Some(ix);
  }

  /** BuildIndexesForRecord: for every configured field, read the field and
      append recordIndex to the list of its key in the chunk's index of that
      field; None when a read throws. */
  method BuildIndexesForRecord(vessel: Record, recordIndex: int, local: Indexes, config: IndexConfig)
    returns (r: Option<Indexes>)
    requires Fits(local, config)
    ensures r == AddRecord(local, vessel, recordIndex, config)
  {
    var ix := local;
    var todo := config.Keys;
    ghost var done: set<string> := {};
    while todo != {}
      invariant done + todo == config.Keys && done !! todo
      invariant forall f :: f in done ==> !FieldThrows(vessel, f, config[f])
      invariant ix == Filed(local, vessel, recordIndex, done)
      decreases todo
    {
      var f :| f in todo;
      FiledStep(local, vessel, recordIndex, done, f, config);
      var filed := FileField(vessel, recordIndex, ix, f, config[f]);
      if filed.None? {
        return None;
      }
      ix := filed.value;
      done := done + {f};
      todo := todo - {f};
    }
    assert !RecordThrows(vessel, config);
    r := Some(ix);
  }

  /** The body of the parallel loop over chunks: the rows startIndex ..
      endIndex - 1 are collected and filed, in order, into the chunk's empty
      local indexes; ok is false exactly when one of them throws. */
  method BuildChunk(config: IndexConfig, elements: seq<Record>, startIndex: nat, endIndex: nat,
                    initLocal: Indexes, initRows: seq<Record>)
    returns (ok: bool, local: Indexes, rows: seq<Record>)
    requires startIndex <= endIndex <= |elements|
    requires initLocal == EmptyIndexes(config) && initRows == []
    ensures ok <==> forall j :: startIndex <= j < endIndex ==> !RecordThrows(elements[j], config)
    ensures ok ==> BuildLocal(elements, config, startIndex, endIndex) == Some(local)
    ensures ok ==> rows == elements[startIndex..endIndex]
  {
    local, rows := initLocal, initRows;
    var i := startIndex;
    while i < endIndex
      invariant startIndex <= i <= endIndex
      invariant BuildLocal(elements, config, startIndex, i) == Some(local)
      invariant rows == elements[startIndex..i]
    {
      var vessel := elements[i];
      BuildLocalNext(elements, config, startIndex, i, local);
      rows := rows + [vessel];
      var filed := BuildIndexesForRecord(vessel, i, local, config);
      if filed.None? {
        assert RecordThrows(elements[i], config);
        return false, local, rows;
      }
      local := filed.value;
      i := i + 1;
    }
    BuildLocalFails(elements, config, startIndex, endIndex);
    ok := true;
  }

  /** Chunk c of elements was built: local holds its rows' indexes and rows
      its rows, in order. */
  predicate ChunkBuilt(elements: seq<Record>, config: IndexConfig, chunkSize: nat, c: nat,
                       local: Indexes, rows: seq<Record>)
  {
    var lo, hi := ChunkStart(c, chunkSize), ChunkEnd(c, chunkSize, |elements|);
    && lo <= hi <= |elements|
    && BuildLocal(elements, config, lo, hi) == Some(local)
    && rows == elements[lo..hi]
  }

  /** BuildIndexesForChunks: chunk c files the rows of its range into
      locals[c] and collects them in vesselChunks[c]. It reports failure
      exactly when some row throws. */
  method BuildIndexesForChunks(config: IndexConfig, elements: seq<Record>, chunkSize: nat, numChunks: nat,
                               locals: array<Indexes>, vesselChunks: array<seq<Record>>)
    returns (ok: bool)
    requires chunkSize > 0 && numChunks == NumChunks(|elements|, chunkSize)
    requires locals.Length == numChunks && vesselChunks.Length == numChunks
    requires forall c :: 0 <= c < numChunks ==> locals[c] == EmptyIndexes(config) && vesselChunks[c] == []
    modifies locals, vesselChunks
    ensures ok <==> !AnyThrows(elements, config)
    ensures ok ==> forall c :: 0 <= c < numChunks ==>
      ChunkBuilt(elements, config, chunkSize, c, locals[c], vesselChunks[c])
  {
    var n := |elements|;
    ChunkBoundaries(n, chunkSize);
    for c := 0 to numChunks
      invariant forall i :: 0 <= i < Boundary(c, chunkSize, n) ==> !RecordThrows(elements[i], config)
      invariant forall d :: 0 <= d < c ==> ChunkBuilt(elements, config, chunkSize, d, locals[d], vesselChunks[d])
      invariant forall d :: c <= d < numChunks ==> locals[d] == EmptyIndexes(config) && vesselChunks[d] == []
    {
      var startIndex := c * chunkSize;
      var endIndex := if startIndex + chunkSize < n then startIndex + chunkSize else n;
      assert startIndex == ChunkStart(c, chunkSize) == Boundary(c, chunkSize, n);
      assert endIndex == ChunkEnd(c, chunkSize, n) == Boundary(c + 1, chunkSize, n);
      var chunkOk, local, rows := BuildChunk(config, elements, startIndex, endIndex, locals[c], vesselChunks[c]);
      if !chunkOk {
        return false;
      }
      locals[c] := local;
      vesselChunks[c] := rows;
      assert ChunkBuilt(elements, config, chunkSize, c, locals[c], vesselChunks[c]);
    }
    return true;
  }

  // ---------------------------------------------------------------------------
  // Merging the chunk-local indexes into the global ones
  // ---------------------------------------------------------------------------

  /** The integer keys are compared as they are. */
  function Same(x: int): int
  {
    x
  }

  /** The index every chunk holds for field f; a chunk without one
      contributes nothing. */
  function Column<K(==,!new)>(chunks: seq<map<string, Dict<K>>>, f: string): (col: seq<Dict<K>>)
    ensures |col| == |chunks|
  {
    seq(|chunks|, c requires 0 <= c < |chunks| => if f in chunks[c] then chunks[c][f] else Empty())
  }

  /** The String, Integer and Date index maps of the chunks. */
  function StringMaps(chunks: seq<Indexes>): seq<map<string, Dict<string>>>
  {
    seq(|chunks|, c requires 0 <= c < |chunks| => chunks[c].strings)
  }

  function NumMaps(chunks: seq<Indexes>): seq<map<string, Dict<int>>>
  {
    seq(|chunks|, c requires 0 <= c < |chunks| => chunks[c].nums)
  }

  function DateMaps(chunks: seq<Indexes>): seq<map<string, Dict<string>>>
  {
    seq(|chunks|, c requires 0 <= c < |chunks| => chunks[c].dates)
  }

  /** Fold, chunk by chunk and key by key in insertion order, the lists of
      field f into the global index g of that field: a key new to g is added,
      and the chunk's list is appended to the key's list. */
  method MergeField<K(==,!new)>(g: Dict<K>, chunks: seq<map<string, Dict<K>>>, f: string, fold: K -> K)
    returns (r: Dict<K>)
    ensures r == MergeAll(g, Column(chunks, f), fold)
  {
    var col := Column(chunks, f);
    r := g;
    for c := 0 to |chunks|
      invariant r == MergeAll(g, col[..c], fold)
    {
      assert col[..c + 1][..c] == col[..c];
      if f in chunks[c] {
        var chunkFieldIndex := chunks[c][f];
        ghost var before := r;
        for j := 0 to |chunkFieldIndex.keys|
          invariant r == MergeKeys(before, chunkFieldIndex, chunkFieldIndex.keys[..j], fold)
        {
          assert chunkFieldIndex.keys[..j + 1][..j] == chunkFieldIndex.keys[..j];
          var key := chunkFieldIndex.keys[j];
          r := r.Append(fold(key), chunkFieldIndex.Get(key));
        }
        assert chunkFieldIndex.keys[..|chunkFieldIndex.keys|] == chunkFieldIndex.keys;
      } else {
        assert col[c] == Empty<K>();
      }
    }
    assert col[..|chunks|] == col;
  }

  /** The per-field loop shared by the three merges: every field in fields
      has its chunk lists folded into its global index; other entries stay. */
  method MergeFields<K(==,!new)>(fields: set<string>, global: map<string, Dict<K>>,
                                 chunks: seq<map<string, Dict<K>>>, fold: K -> K)
    returns (merged: map<string, Dict<K>>)
    requires fields <= global.Keys
    ensures merged.Keys == global.Keys
    ensures forall f :: f in merged ==>
      merged[f] == if f in fields then MergeAll(global[f], Column(chunks, f), fold) else global[f]
  {
    merged := global;
    var todo := fields;
    while todo != {}
      invariant todo <= fields
      invariant merged.Keys == global.Keys
      invariant forall f :: f in merged ==>
        merged[f] == if f in fields && f !in todo then MergeAll(global[f], Column(chunks, f), fold) else global[f]
      decreases todo
    {
      var fieldName :| fieldName in todo;
      var fieldIndex := MergeField(merged[fieldName], chunks, fieldName, fold);
      merged := merged[fieldName := fieldIndex];
      todo := todo - {fieldName};
    }
  }

  /** MergeAllStringIndexes: every String field's chunk lists are folded into
      its global index, whose keys compare case-insensitively. */
  method MergeAllStringIndexes(config: IndexConfig, global: map<string, Dict<string>>, chunks: seq<Indexes>)
    returns (merged: map<string, Dict<string>>)
    requires FieldsOf(config, String) <= global.Keys
    ensures merged.Keys == global.Keys
    ensures forall f :: f in merged ==>
      merged[f] == if f in FieldsOf(config, String) then MergeAll(global[f], Column(StringMaps(chunks), f), Fold) else global[f]
  {
    merged := MergeFields(FieldsOf(config, String), global, StringMaps(chunks), Fold);
  }

  /** MergeAllNumIndexes: every Integer field's chunk lists are folded into
      its global index, whose keys compare exactly. */
  method MergeAllNumIndexes(config: IndexConfig, global: map<string, Dict<int>>, chunks: seq<Indexes>)
    returns (merged: map<string, Dict<int>>)
    requires FieldsOf(config, Integer) <= global.Keys
    ensures merged.Keys == global.Keys
    ensures forall f :: f in merged ==>
      merged[f] == if f in FieldsOf(config, Integer) then MergeAll(global[f], Column(NumMaps(chunks), f), Same) else global[f]
  {
    merged := MergeFields(FieldsOf(config, Integer), global, NumMaps(chunks), Same);
  }

  /** MergeAllDateIndexes: every Date field's chunk lists are folded into its
      global index, whose keys compare case-insensitively. */
  method MergeAllDateIndexes(config: IndexConfig, global: map<string, Dict<string>>, chunks: seq<Indexes>)
    returns (merged: map<string, Dict<string>>)
    requires FieldsOf(config, Date) <= global.Keys
    ensures merged.Keys == global.Keys
    ensures forall f :: f in merged ==>
      merged[f] == if f in FieldsOf(config, Date) then MergeAll(global[f], Column(DateMaps(chunks), f), Fold) else global[f]
  {
    merged := MergeFields(FieldsOf(config, Date), global, DateMaps(chunks), Fold);
  }

  // ---------------------------------------------------------------------------
  // The whole load
  // ---------------------------------------------------------------------------

  /** The chunk-local state a load leaves behind. */
  datatype ChunkInfos = ChunkInfos(
    chunkSize: nat,
    numChunks: nat,
    locals: seq<Indexes>,
    vesselChunks: seq<seq<Record>>)

  /** The records and indexes after a load, and the chunk state it used. */
  datatype Loaded = Loaded(records: seq<Record>, indexes: Indexes, info: ChunkInfos)

  /** Why a load fails: a field read threw, or the record list already holds
      more records than the batch has (its capacity cannot be set below its
      count). */
  datatype LoadError = FieldReadFailed | CapacityBelowCount

  /** Every String or Date index of m with the chunk indexes of rows rs
      folded in. */
  function MergeTextFields(m: map<string, Dict<string>>, rs: seq<Record>): map<string, Dict<string>>
  {
    map f | f in m :: MergeAll(m[f], ChunkDicts(TextKeys(rs, f), ChunkSize), Fold)
  }

  /** Every Integer index of m with the chunk indexes of rows rs folded in. */
  function MergeIntFields(m: map<string, Dict<int>>, rs: seq<Record>): map<string, Dict<int>>
  {
    map f | f in m :: MergeAll(m[f], ChunkDicts(IntKeys(rs, f), ChunkSize), Same)
  }

  /** The global indexes after loading the batch rs. */
  function MergedIndexes(global: Indexes, rs: seq<Record>): Indexes
  {
    Indexes(MergeTextFields(global.strings, rs), MergeIntFields(global.nums, rs), MergeTextFields(global.dates, rs))
  }

  /** Every chunk of the batch was built, in order. */
  ghost predicate AllChunksBuilt(elements: seq<Record>, config: IndexConfig, locals: seq<Indexes>, rows: seq<seq<Record>>)
  {
    && |locals| == |rows| == NumChunks(|elements|, ChunkSize)
    && forall c :: 0 <= c < |locals| ==> ChunkBuilt(elements, config, ChunkSize, c, locals[c], rows[c])
  }

  /** Reading a chunk's index of field f out of the chunk states gives that
      chunk's single-range build over f's keys. */
  lemma ChunkColumns(elements: seq<Record>, config: IndexConfig, locals: seq<Indexes>, rows: seq<seq<Record>>, f: string)
    requires AllChunksBuilt(elements, config, locals, rows)
    ensures f in FieldsOf(config, String) ==> Column(StringMaps(locals), f) == ChunkDicts(TextKeys(elements, f), ChunkSize)
    ensures f in FieldsOf(config, Integer) ==> Column(NumMaps(locals), f) == ChunkDicts(IntKeys(elements, f), ChunkSize)
    ensures f in FieldsOf(config, Date) ==> Column(DateMaps(locals), f) == ChunkDicts(TextKeys(elements, f), ChunkSize)
  {
    var n := |elements|;
    forall c | 0 <= c < |locals|
      ensures f in FieldsOf(config, String) ==>
        Column(StringMaps(locals), f)[c] == ChunkDicts(TextKeys(elements, f), ChunkSize)[c]
      ensures f in FieldsOf(config, Integer) ==>
        Column(NumMaps(locals), f)[c] == ChunkDicts(IntKeys(elements, f), ChunkSize)[c]
      ensures f in FieldsOf(config, Date) ==>
        Column(DateMaps(locals), f)[c] == ChunkDicts(TextKeys(elements, f), ChunkSize)[c]
    {
      assert ChunkBuilt(elements, config, ChunkSize, c, locals[c], rows[c]);
      BuildLocalFields(elements, config, ChunkStart(c, ChunkSize), ChunkEnd(c, ChunkSize, n));
    }
  }

  /** One field of the String merge over built chunks. */
  lemma StringsMergeField(config: IndexConfig, global: Indexes, elements: seq<Record>, chunks: seq<Indexes>,
                           rows: seq<seq<Record>>, f: string)
    requires Fits(global, config) && f in global.strings
    requires AllChunksBuilt(elements, config, chunks, rows)
    ensures MergeAll(global.strings[f], Column(StringMaps(chunks), f), Fold) == MergeTextFields(global.strings, elements)[f]
  {
    ChunkColumns(elements, config, chunks, rows, f);
  }

  /** The String merge over built chunks gives the merged String indexes. */
  lemma StringsMerged(config: IndexConfig, global: Indexes, elements: seq<Record>, chunks: seq<Indexes>,
                      rows: seq<seq<Record>>, strings: map<string, Dict<string>>)
    requires Fits(global, config)
    requires AllChunksBuilt(elements, config, chunks, rows)
    requires strings.Keys == global.strings.Keys
    requires forall f :: f in strings ==>
      strings[f] == MergeAll(global.strings[f], Column(StringMaps(chunks), f), Fold)
    ensures strings == MergeTextFields(global.strings, elements)
  {
    forall f | f in strings
      ensures strings[f] == MergeTextFields(global.strings, elements)[f]
    {
      StringsMergeField(config, global, elements, chunks, rows, f);
    }
  }

  /** One field of the Integer merge over built chunks. */
  lemma NumsMergeField(config: IndexConfig, global: Indexes, elements: seq<Record>, chunks: seq<Indexes>,
                        rows: seq<seq<Record>>, f: string)
    requires Fits(global, config) && f in global.nums
    requires AllChunksBuilt(elements, config, chunks, rows)
    ensures MergeAll(global.nums[f], Column(NumMaps(chunks), f), Same) == MergeIntFields(global.nums, elements)[f]
  {
    ChunkColumns(elements, config, chunks, rows, f);
  }

  /** The Integer merge over built chunks gives the merged Integer indexes. */
  lemma NumsMerged(config: IndexConfig, global: Indexes, elements: seq<Record>, chunks: seq<Indexes>,
                   rows: seq<seq<Record>>, nums: map<string, Dict<int>>)
    requires Fits(global, config)
    requires AllChunksBuilt(elements, config, chunks, rows)
    requires nums.Keys == global.nums.Keys
    requires forall f :: f in nums ==>
      nums[f] == MergeAll(global.nums[f], Column(NumMaps(chunks), f), Same)
    ensures nums == MergeIntFields(global.nums, elements)
  {
    forall f | f in nums
      ensures nums[f] == MergeIntFields(global.nums, elements)[f]
    {
      NumsMergeField(config, global, elements, chunks, rows, f);
    }
  }

  /** One field of the Date merge over built chunks. */
  lemma DatesMergeField(config: IndexConfig, global: Indexes, elements: seq<Record>, chunks: seq<Indexes>,
                         rows: seq<seq<Record>>, f: string)
    requires Fits(global, config) && f in global.dates
    requires AllChunksBuilt(elements, config, chunks, rows)
    ensures MergeAll(global.dates[f], Column(DateMaps(chunks), f), Fold) == MergeTextFields(global.dates, elements)[f]
  {
    ChunkColumns(elements, config, chunks, rows, f);
  }

  /** The Date merge over built chunks gives the merged Date indexes. */
  lemma DatesMerged(config: IndexConfig, global: Indexes, elements: seq<Record>, chunks: seq<Indexes>,
                    rows: seq<seq<Record>>, dates: map<string, Dict<string>>)
    requires Fits(global, config)
    requires AllChunksBuilt(elements, config, chunks, rows)
    requires dates.Keys == global.dates.Keys
    requires forall f :: f in dates ==>
      dates[f] == MergeAll(global.dates[f], Column(DateMaps(chunks), f), Fold)
    ensures dates == MergeTextFields(global.dates, elements)
  {
    forall f | f in dates
      ensures dates[f] == MergeTextFields(global.dates, elements)[f]
    {
      DatesMergeField(config, global, elements, chunks, rows, f);
    }
  }

  /** The chunks' rows, in chunk order. */
  function Concat(rows: seq<seq<Record>>): seq<Record>
  {
    if rows == [] then [] else Concat(rows[..|rows| - 1]) + rows[|rows| - 1]
  }

  /** vesselChunks.Sum(chunk => chunk.Count): the number of rows over all
      chunks. */
  function TotalCount(rows: seq<seq<Record>>): (n: nat)
    ensures n == |Concat(rows)|
  {
    if rows == [] then 0 else TotalCount(rows[..|rows| - 1]) + |rows[|rows| - 1]|
  }

  /** The first c built chunks hold the rows before chunk c, in order. */
  lemma {:induction false} ConcatPrefix(elements: seq<Record>, config: IndexConfig, locals: seq<Indexes>,
                                        rows: seq<seq<Record>>, c: nat)
    requires AllChunksBuilt(elements, config, locals, rows) && c <= |rows|
    ensures Boundary(c, ChunkSize, |elements|) <= |elements|
    ensures Concat(rows[..c]) == elements[..Boundary(c, ChunkSize, |elements|)]
  {
    var n := |elements|;
    ChunkBoundaries(n, ChunkSize);
    if c > 0 {
      ConcatPrefix(elements, config, locals, rows, c - 1);
      assert rows[..c][..c - 1] == rows[..c - 1];
      assert ChunkBuilt(elements, config, ChunkSize, c - 1, locals[c - 1], rows[c - 1]);
      var lo, hi := Boundary(c - 1, ChunkSize, n), Boundary(c, ChunkSize, n);
      assert elements[..lo] + elements[lo..hi] == elements[..hi];
    }
  }

  /** The built chunks hold the whole batch, in order. */
  lemma ConcatChunks(elements: seq<Record>, config: IndexConfig, locals: seq<Indexes>, rows: seq<seq<Record>>)
    requires AllChunksBuilt(elements, config, locals, rows)
    ensures Concat(rows) == elements
  {
    ConcatPrefix(elements, config, locals, rows, |rows|);
    ChunkBoundaries(|elements|, ChunkSize);
    assert rows[..|rows|] == rows;
    assert elements[..|elements|] == elements;
  }

  /** vessels.AddRange for every chunk, in order. */
  method AppendChunks(vessels: seq<Record>, rows: seq<seq<Record>>) returns (records: seq<Record>)
    ensures records == vessels + Concat(rows)
  {
    records := vessels;
    for c := 0 to |rows|
      invariant records == vessels + Concat(rows[..c])
    {
      assert rows[..c + 1][..c] == rows[..c];
      records := records + rows[c];
    }
    assert rows[..|rows|] == rows;
  }

  /** The three merges of InitIndexCollectionsForChunks, over built
      chunks: the global indexes with the batch folded in. */
  method MergeChunks(config: IndexConfig, global: Indexes, elements: seq<Record>,
                     chunks: seq<Indexes>, rows: seq<seq<Record>>)
    returns (ix: Indexes)
    requires Fits(global, config) && AllChunksBuilt(elements, config, chunks, rows)
    ensures ix == MergedIndexes(global, elements)
  {
    var strings := MergeAllStringIndexes(config, global.strings, chunks);
    var nums := MergeAllNumIndexes(config, global.nums, chunks);
    var dates := MergeAllDateIndexes(config, global.dates, chunks);
    StringsMerged(config, global, elements, chunks, rows, strings);
    NumsMerged(config, global, elements, chunks, rows, nums);
    DatesMerged(config, global, elements, chunks, rows, dates);
    ix := Indexes(strings, nums, dates);
  }

  /** InitIndexCollectionsForChunks: cut the batch into chunks, build every
      chunk's local indexes, set the record list's capacity to the rows
      built (which fails below its count), append the chunks' rows in chunk
      order and fold the local indexes into the global ones. The row numbers
      filed are positions in the batch. */
  method InitIndexCollectionsForChunks(config: IndexConfig, elements: seq<Record>, vessels: seq<Record>, global: Indexes)
    returns (r: Result<Loaded, LoadError>)
    requires Fits(global, config)
    ensures r.Failure? <==> AnyThrows(elements, config) || |elements| < |vessels|
    ensures r.Failure? ==> r.error == if AnyThrows(elements, config) then FieldReadFailed else CapacityBelowCount
    ensures r.Success? ==>
      && r.value.records == vessels + elements
      && r.value.indexes == MergedIndexes(global, elements)
      && r.value.info.chunkSize == ChunkSize
      && r.value.info.numChunks == NumChunks(|elements|, ChunkSize)
      && AllChunksBuilt(elements, config, r.value.info.locals, r.value.info.vesselChunks)
  {
    var arrayLength := |elements|;
    var chunkSize := ChunkSize;
    var numChunks := (arrayLength + chunkSize - 1) / chunkSize;
    var locals := new Indexes[numChunks](_ => EmptyIndexes(config));
    var vesselChunks := new seq<Record>[numChunks](_ => []);
    var ok := BuildIndexesForChunks(config, elements, chunkSize, numChunks, locals, vesselChunks);
    if !ok {
      return Failure(FieldReadFailed);
    }
    var chunks, rows := locals[..], vesselChunks[..];
    assert AllChunksBuilt(elements, config, chunks, rows);
    ConcatChunks(elements, config, chunks, rows);
    var totalVesselCount := TotalCount(rows);
    if totalVesselCount < |vessels| {
      return Failure(CapacityBelowCount);
    }
    var records := AppendChunks(vessels, rows);
    var indexes := MergeChunks(config, global, elements, chunks, rows);
    r := Success(Loaded(records, indexes, ChunkInfos(chunkSize, numChunks, chunks, rows)));
  }

  // ---------------------------------------------------------------------------
  // What a load files
  // ---------------------------------------------------------------------------

  /** Every row number d files lies in 0 .. n - 1. */
  ghost predicate IdsBelow<K(!new)>(d: Dict<K>, n: int)
  {
    forall k, x :: x in d.Get(k) ==> 0 <= x < n
  }

  /** A String or Date index after a load: each row number keeps the count it
      had, and row x of the batch is added exactly once, under the
      case-folded value of its field, when the field reads as a non-empty
      string; nothing else is added. */
  lemma LoadTextExactlyOnce(m: map<string, Dict<string>>, rs: seq<Record>, f: string, t: string, x: int)
    requires f in m
    ensures multiset(MergeTextFields(m, rs)[f].Get(t))[x] == multiset(m[f].Get(t))[x] +
      if 0 <= x < |rs| && ReadText(Lookup(rs[x], f)).Key? && Fold(ReadText(Lookup(rs[x], f)).key) == t then 1 else 0
  {
    MergedChunksBag(m[f], TextKeys(rs, f), ChunkSize, t, Fold);
    RowBagCount(TextKeys(rs, f), 0, |rs|, t, Fold, x);
  }

  /** An Integer index after a load: row x of the batch is added exactly once,
      under its value, when the field reads as a 64-bit integer. */
  lemma LoadIntExactlyOnce(m: map<string, Dict<int>>, rs: seq<Record>, f: string, k: int, x: int)
    requires f in m
    ensures multiset(MergeIntFields(m, rs)[f].Get(k))[x] == multiset(m[f].Get(k))[x] +
      if 0 <= x < |rs| && ReadInteger(Lookup(rs[x], f)) == Key(k) then 1 else 0
  {
    MergedChunksBag(m[f], IntKeys(rs, f), ChunkSize, k, Same);
    RowBagCount(IntKeys(rs, f), 0, |rs|, k, Same, x);
  }

  /** Loading into an empty Integer index gives, for every value, exactly the
      rows whose field holds that value, in increasing order: the chunked
      build equals one pass over the batch. */
  lemma LoadIntFirst(m: map<string, Dict<int>>, rs: seq<Record>, f: string, k: int)
    requires f in m && m[f] == Empty()
    ensures StrictlyAscending(MergeIntFields(m, rs)[f].Get(k))
    ensures forall x :: x in MergeIntFields(m, rs)[f].Get(k) <==> 0 <= x < |rs| && ReadInteger(Lookup(rs[x], f)) == Key(k)
  {
    ChunkedEqualsSinglePass(IntKeys(rs, f), ChunkSize, Same);
    BuildRangeSpec(IntKeys(rs, f), 0, |rs|, k);
  }

  /** Loading into an empty String or Date index files each row at most once,
      and exactly the rows whose field reads as a string folding to t. */
  lemma LoadTextFirst(m: map<string, Dict<string>>, rs: seq<Record>, f: string, t: string, x: int)
    requires f in m && m[f] == Empty()
    ensures multiset(MergeTextFields(m, rs)[f].Get(t))[x] <= 1
    ensures x in MergeTextFields(m, rs)[f].Get(t) <==>
      0 <= x < |rs| && ReadText(Lookup(rs[x], f)).Key? && Fold(ReadText(Lookup(rs[x], f)).key) == t
  {
    LoadTextExactlyOnce(m, rs, f, t, x);
  }

  /** A String or Date list is in merge order, not row order: when "ab",
      "AB" and "ab" fill rows 0, 1 and 2 of one chunk, the chunk files "ab"
      before "AB", and the merge appends row 1 after rows 0 and 2. */
  lemma LoadTextOutOfOrder(m: map<string, Dict<string>>, rs: seq<Record>)
    requires m == map["name" := Empty()]
    requires rs == [map["name" := Str("ab")], map["name" := Str("AB")], map["name" := Str("ab")]]
    ensures MergeTextFields(m, rs)["name"].Get("AB") == [0, 2, 1]
  {
    var keys := TextKeys(rs, "name");
    TwoSpellingsRead(rs);
    TwoSpellingsFold();
    SpellingsInOneChunk(keys, "ab", "AB");
    OneChunk(keys);
    MergeTwoSpellings(BuildRange(keys, 0, 3), "ab", "AB", Fold);
    MergedTextField(m, rs, "name");
  }

  /** A field of the map is merged over its own keys. */
  lemma MergedTextField(m: map<string, Dict<string>>, rs: seq<Record>, f: string)
    requires f in m
    ensures f in MergeTextFields(m, rs)
    ensures MergeTextFields(m, rs)[f] == MergeAll(m[f], ChunkDicts(TextKeys(rs, f), ChunkSize), Fold)
  {
  }

  /** The rows "ab", "AB", "ab" read as those three keys. */
  lemma TwoSpellingsRead(rs: seq<Record>)
    requires rs == [map["name" := Str("ab")], map["name" := Str("AB")], map["name" := Str("ab")]]
    ensures TextKeys(rs, "name") == [Some("ab"), Some("AB"), Some("ab")]
  {
  }

  /** "ab" and "AB" are two spellings of the one folded key "AB". */
  lemma TwoSpellingsFold()
    ensures "ab" != "AB" && Fold("ab") == "AB" && Fold("AB") == "AB"
  {
    assert "ab"[0] != "AB"[0];
    assert Fold("ab")[0] == 'A' && Fold("ab")[1] == 'B';
    assert Fold("AB")[0] == 'A' && Fold("AB")[1] == 'B';
  }

  /** A batch of at most ChunkSize rows is one chunk. */
  lemma OneChunk<K(!new)>(keys: seq<Option<K>>)
    requires 0 < |keys| <= ChunkSize
    ensures ChunkDicts(keys, ChunkSize) == [BuildRange(keys, 0, |keys|)]
  {
    assert NumChunks(|keys|, ChunkSize) == 1;
    assert ChunkEnd(0, ChunkSize, |keys|) == |keys|;
  }

  /** A chunk whose rows hold a, b, a lists a first, with rows 0 and 2, then
      b with row 1. */
  lemma SpellingsInOneChunk<K(!new)>(keys: seq<Option<K>>, a: K, b: K)
    requires keys == [Some(a), Some(b), Some(a)] && a != b
    ensures BuildRange(keys, 0, 3).keys == [a, b]
    ensures BuildRange(keys, 0, 3).Get(a) == [0, 2] && BuildRange(keys, 0, 3).Get(b) == [1]
  {
    TwoSpellingsFirstRows(keys, a, b);
    var l2 := BuildRange(keys, 0, 2);
    var l3 := BuildRange(keys, 0, 3);
    assert l3 == l2.Append(a, [2]);
    assert l3.Get(a) == l2.Get(a) + [2];
  }

  /** The first two rows of that chunk list a with row 0, then b with row 1. */
  lemma TwoSpellingsFirstRows<K(!new)>(keys: seq<Option<K>>, a: K, b: K)
    requires |keys| == 3 && keys[0] == Some(a) && keys[1] == Some(b) && a != b
    ensures BuildRange(keys, 0, 2).keys == [a, b] && a in BuildRange(keys, 0, 2).entries
    ensures BuildRange(keys, 0, 2).Get(a) == [0] && BuildRange(keys, 0, 2).Get(b) == [1]
  {
    var l1 := BuildRange(keys, 0, 1);
    assert l1 == Empty<K>().Append(a, [0]);
    assert BuildRange(keys, 0, 2) == l1.Append(b, [1]);
  }

  /** Merging a chunk that lists a then b, two spellings of one folded key,
      into an empty index appends a's rows, then b's. */
  lemma MergeTwoSpellings<K(!new)>(local: Dict<K>, a: K, b: K, fold: K -> K)
    requires local.keys == [a, b] && fold(a) == fold(b)
    ensures MergeAll(Empty(), [local], fold).Get(fold(b)) == local.Get(a) + local.Get(b)
  {
    assert [local][..0] == [];
    assert MergeAll(Empty(), [local], fold) == MergeKeys(Empty(), local, [a, b], fold);
    assert [a, b][..1] == [a] && [a][..0] == [];
    var m1 := MergeKeys(Empty(), local, [a], fold);
    assert m1 == MergeKeys(Empty(), local, [], fold).Append(fold(a), local.Get(a));
    assert m1.Get(fold(a)) == local.Get(a);
    assert MergeAll(Empty(), [local], fold) == m1.Append(fold(b), local.Get(b));
  }

  /** A load keeps every row number below the new record count when the old
      ones were below the old count. */
  lemma LoadTextIdsBelow(m: map<string, Dict<string>>, rs: seq<Record>, f: string, n: int)
    requires f in m && IdsBelow(m[f], n) && |rs| <= n
    ensures IdsBelow(MergeTextFields(m, rs)[f], n)
  {
    forall k, x | x in MergeTextFields(m, rs)[f].Get(k)
      ensures 0 <= x < n
    {
      LoadTextExactlyOnce(m, rs, f, k, x);
      assert multiset(MergeTextFields(m, rs)[f].Get(k))[x] > 0;
      if x !in m[f].Get(k) {
        assert multiset(m[f].Get(k))[x] == 0;
      }
    }
  }

  lemma LoadIntIdsBelow(m: map<string, Dict<int>>, rs: seq<Record>, f: string, n: int)
    requires f in m && IdsBelow(m[f], n) && |rs| <= n
    ensures IdsBelow(MergeIntFields(m, rs)[f], n)
  {
    forall k, x | x in MergeIntFields(m, rs)[f].Get(k)
      ensures 0 <= x < n
    {
      LoadIntExactlyOnce(m, rs, f, k, x);
      assert multiset(MergeIntFields(m, rs)[f].Get(k))[x] > 0;
      if x !in m[f].Get(k) {
        assert multiset(m[f].Get(k))[x] == 0;
      }
    }
  }

  /** A load keeps every index well formed. */
  lemma LoadTextValid(m: map<string, Dict<string>>, rs: seq<Record>, f: string)
    requires f in m && m[f].Valid()
    ensures MergeTextFields(m, rs)[f].Valid()
  {
    MergeAllValid(m[f], ChunkDicts(TextKeys(rs, f), ChunkSize), Fold);
  }

  lemma LoadIntValid(m: map<string, Dict<int>>, rs: seq<Record>, f: string)
    requires f in m && m[f].Valid()
    ensures MergeIntFields(m, rs)[f].Valid()
  {
    MergeAllValid(m[f], ChunkDicts(IntKeys(rs, f), ChunkSize), Same);
  }

  /** Loading an empty batch changes no index. */
  lemma LoadNothing(global: Indexes)
    ensures MergedIndexes(global, []) == global
  {
    TextNothing(global.strings);
    IntNothing(global.nums);
    TextNothing(global.dates);
  }

  /** LoadNothing for the text-keyed (String or Date) indexes. */
  lemma TextNothing(m: map<string, Dict<string>>)
    ensures MergeTextFields(m, []) == m
  {
    forall f | f in m
      ensures MergeTextFields(m, [])[f] == m[f]
    {
      assert |ChunkDicts(TextKeys([], f), ChunkSize)| == 0;
    }
  }

  /** LoadNothing for the Integer indexes. */
  lemma IntNothing(m: map<string, Dict<int>>)
    ensures MergeIntFields(m, []) == m
  {
    forall f | f in m
      ensures MergeIntFields(m, [])[f] == m[f]
    {
      assert |ChunkDicts(IntKeys([], f), ChunkSize)| == 0;
    }
  }
}
