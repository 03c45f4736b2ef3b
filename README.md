# InMemDb vessel database: a verified model

InMemDb keeps vessel records (JSON objects) in memory and answers simple
queries over them. It also keeps up to three secondary indexes. The index
configuration names each indexed field and gives it a kind:

- String and Date: a dictionary from the field's text to the list of rows
  that hold that text, comparing texts case-insensitively.
- Integer: a dictionary from a 64-bit value to the list of rows that hold
  that value.

A load cuts the parsed batch into chunks of 10000 rows. Each chunk builds
its own local indexes and collects its own rows. The rows are then appended
to the record list in chunk order. Each field's chunk indexes are folded,
chunk by chunk and key by key, into that field's global index.

A query is `WHERE F op v` or `WHERE F op v AND G op w`, where op is `=`, `<`
or `>`. A condition on an indexed field is answered through its index where
the index supports the operator. Any other condition is answered by scanning
every record. Two conditions are intersected. Results are cached by query
text.

The model is in Dafny. The C# methods that change state or loop (the
database class, the loader's chunk loop and merges, the scan, the index
lookups, the query parser's loop) are Dafny methods, each proved against a
specification function. The pure code (`ParseCondition`,
`EvaluateCondition`, the field readers, the string and number helpers) is
made of Dafny functions. The properties the code promises are proved as
lemmas about those functions.

| file | module | models |
|---|---|---|
| `Wrappers.dfy` | `Wrappers` | `Option` and `Result` |
| `Json.dfy` | `Json` | JSON values as the indexer sees them, records, index kinds, the three-index limit |
| `Dicts.dfy` | `Dicts` | a .NET `Dictionary<K, List<int>>` without removals: keys in insertion order plus their lists |
| `Text.dfy` | `Text` | `Trim`, `Trim(chars)`, `Split`, `Replace`, `IndexOf`, `long.TryParse`, OrdinalIgnoreCase folding |
| `Chunks.dfy` | `Chunks` | the chunk arithmetic of the loader |
| `IndexTheory.dfy` | `IndexTheory` | building one chunk's index of one field, merging chunk indexes, and what a merged index holds |
| `Builder.dfy` | `Builder` | `VesselDbHelper`: the per-record indexer, the chunk loop, the three merges and the whole load |
| `Query.dfy` | `QueryParser` | `ParseQuery` and `ParseCondition` |
| `QueryEngine.dfy` | `QueryEngine` | what a condition and a query return, as functions of the store |
| `Database.dfy` | `Database` | the `VesselDatabase` class: constructor, load, index lookups, scan, execution and the query cache |

The model follows the code in the places below. Each is stated in the
contracts and proved.

- The query cache is a dictionary with `StringComparer.OrdinalIgnoreCase`
  (VesselDatabase.cs line 34). Two query texts that differ only in case
  therefore share one cache entry, and the second is answered with the
  first one's records (`CacheConflatesCase`). A design that keys the cache
  by the exact text would keep them apart.
- A String or Date lookup compares case-insensitively, but a scan compares
  the value's text exactly (`IndexIgnoresCase`). An Integer lookup parses
  the query value, so `n = 007` finds the value 7 where a scan would not
  (`IndexChangesAnswer`).
- An Integer index lists its rows in increasing order (`LoadIntFirst`). A
  String or Date list is in merge order. That order can be out of row order
  when two spellings of one key, differing in case, meet in one chunk: rows
  holding "ab", "AB" and "ab" are listed as 0, 2, 1 (`LoadTextOutOfOrder`).
- A query with three or more AND-joined conditions parses. It is then
  answered with no records, because `ExecuteQuery` handles only one
  condition or two.
- `LoadDataAsync` sets the record list's capacity to the batch size before
  indexing (line 79). A load whose batch is smaller than the records
  already held therefore fails, and leaves the database unchanged.
- Row numbers filed by a load are positions in that batch. They equal
  record positions for the first load into an empty database, which is the
  case the answers are proved for (`LoadedOnce`, `MatchingMeaning`). A load
  never clears the query cache.

## Model

| member | source | states |
|---|---|---|
| Database.VesselDatabase.constructor | InMemoryDataBase/Database/VesselDatabase.cs:28-58 | a new database has no records and an empty cache, and gives every configured field an empty index of its kind and no other field an index |
| Database.VesselDatabase.Create | InMemoryDataBase/Database/VesselDatabase.cs:37-40 | construction fails with "Maximum 3 indexes allowed" exactly when more than three fields are configured, and otherwise yields a valid empty database |
| Database.InitIndexes | InMemoryDataBase/Database/VesselDatabase.cs:44-58 | the loop over the configuration leaves exactly one empty index per configured field, in the map of that field's kind |
| Database.VesselDatabase.LoadData | InMemoryDataBase/Database/VesselDatabase.cs:61-95 | a load fails exactly when the batch is smaller than the records held (capacity) or some configured field of some record throws, and then changes nothing; on success the batch is appended and folded into the indexes; a first load gives indexes that hold exactly the batch; the cache is kept |
| Database.LoadKeepsSound | InMemoryDataBase/Database/VesselDatabase.cs:82-89 | a successful load keeps at most three indexes, consistent with the records, and a load into an empty database is a store built by that one load |
| Database.VesselDatabase.Query | InMemoryDataBase/Database/VesselDatabase.cs:98-116 | a query whose text equals a cached one up to case returns the cached records and leaves the cache unchanged; any other query returns the executed answer and caches it under its text |
| Database.CacheConflatesCase | InMemoryDataBase/Database/VesselDatabase.cs:34 | "a=b" and "a=B" share a cache key, yet on a store with one record a = "b" and no index their answers differ, so whichever runs second is answered from the other's cache entry |
| Database.VesselDatabase.ExecuteQuery | InMemoryDataBase/Database/VesselDatabase.cs:118-147 | the records returned are those at the row numbers of the parsed query's answer, in that order, or none when the query does not parse |
| Database.VesselDatabase.GetMatchingIndicesForCondition | InMemoryDataBase/Database/VesselDatabase.cs:149-165 | a configured field is answered through the lookup of its kind, any other field by a scan |
| Database.VesselDatabase.GetStringIndexMatches | InMemoryDataBase/Database/VesselDatabase.cs:167-187 | '=' returns the list filed under the query value, compared case-insensitively (none when absent); any other operator returns the scan |
| Database.VesselDatabase.GetIntIndexMatches | InMemoryDataBase/Database/VesselDatabase.cs:189-230 | nothing when the value is not a 64-bit integer; '=' returns that value's list; '<' and '>' return the lists of every smaller or larger key in enumeration order |
| Database.CollectKeys | InMemoryDataBase/Database/VesselDatabase.cs:208-226 | the enumeration loops concatenate, in the index's key order, the lists of exactly the keys in the relation to the query value |
| Database.VesselDatabase.GetDateIndexMatches | InMemoryDataBase/Database/VesselDatabase.cs:232-252 | as for a String index, over the Date index |
| Database.VesselDatabase.GetIndicesLinearScan | InMemoryDataBase/Database/VesselDatabase.cs:254-273 | the scan returns exactly the rows that have the field with a value satisfying the condition, each once, in increasing order |
| QueryEngine.EvaluateCondition | InMemoryDataBase/Database/VesselDatabase.cs:275-297 | '<' and '>' hold only for a number and a query value that parses, and then exactly when the number stands in that relation to the parsed value; '=' on a string holds exactly when the string equals the query value, and on null exactly when the query value is empty |
| QueryEngine.EvaluateConditionDecimal | InMemoryDataBase/Database/VesselDatabase.cs:275-297 | for a number written in decimal and a query value written in decimal, the scan's test of every operator agrees with the comparison an Integer index applies |
| QueryEngine.ScanMatchesSpec | InMemoryDataBase/Database/VesselDatabase.cs:254-297 | a row is scanned in exactly when it has the field and EvaluateCondition holds for it; the rows come out strictly increasing |
| QueryEngine.KeysMatchingMember | InMemoryDataBase/Database/VesselDatabase.cs:208-226 | a row is collected exactly when it is filed under one of the enumerated keys that stands in the relation to the query value |
| QueryEngine.IntMatchesMember | InMemoryDataBase/Database/VesselDatabase.cs:189-230 | an Integer lookup returns a row exactly when the query value is a 64-bit integer and the row is filed under a key in the condition's relation to it |
| QueryEngine.TextMatchesBelow | InMemoryDataBase/Database/VesselDatabase.cs:167-187 | a String or Date lookup returns only row numbers of records |
| QueryEngine.Matching | InMemoryDataBase/Database/VesselDatabase.cs:149-165 | every row number a condition returns names a record, so selecting the records cannot fail |
| QueryEngine.MatchingMeaning | InMemoryDataBase/Database/VesselDatabase.cs:149-297 | after one load, a condition returns row x exactly when x is a record satisfying it: case-insensitive text equality through a String or Date index, the 64-bit comparison through an Integer index, the scan's test otherwise |
| QueryEngine.Intersect | InMemoryDataBase/Database/VesselDatabase.cs:138 | the intersection is no longer than the first list and holds only elements of the second |
| QueryEngine.IntersectSpec | InMemoryDataBase/Database/VesselDatabase.cs:138 | the intersection holds exactly the rows in both lists, each once |
| QueryEngine.IntersectOrder | InMemoryDataBase/Database/VesselDatabase.cs:138 | the intersection keeps the first list's order: an earlier result occurs in the first list before any occurrence of a later one |
| QueryEngine.IntersectAscending | InMemoryDataBase/Database/VesselDatabase.cs:138 | the intersection of an increasing list with any list is increasing |
| QueryEngine.QueryIndicesSingle | InMemoryDataBase/Database/VesselDatabase.cs:130-133 | a query parsing to one condition selects exactly that condition's rows, in its order |
| QueryEngine.QueryIndicesMember | InMemoryDataBase/Database/VesselDatabase.cs:118-146 | a row is selected exactly when the query parses and the row matches its one condition, or both of its two AND-joined conditions; with two it is selected at most once; any other shape selects nothing |
| QueryEngine.LoadKeepsConsistent | InMemoryDataBase/Database/Utility/VesselDbHelper.cs:56-74 | a load keeps every index well formed and every filed row number below the new record count |
| QueryEngine.ScanHitIndexed | InMemoryDataBase/Database/VesselDatabase.cs:275-297 | a record the scan returns for a non-empty '=' value on a String or Date field, or for '<' or '>' with a 64-bit query value on an Integer field, is returned through the index too |
| QueryEngine.IndexIgnoresCase | InMemoryDataBase/Database/VesselDatabase.cs:176-180 | a String index returns a record whose value differs from the query value only in case, which a scan does not |
| QueryEngine.IndexChangesAnswer | InMemoryDataBase/Database/VesselDatabase.cs:194-206 | an Integer index answers "n = 007" with the record whose n is 7, which a scan does not |
| QueryParser.ParseCondition | InMemoryDataBase/Database/VesselDatabase.cs:326-346 | a condition fails to parse exactly when it contains none of '=', '<', '>'; a parsed condition's field and value together are shorter than the text, since the operator is cut out |
| QueryParser.ParseConditionSplit | InMemoryDataBase/Database/VesselDatabase.cs:328-340 | the operator is '=' if present, else '<' if present, else '>', and the text is split at its first occurrence |
| QueryParser.ParseConditionTrims | InMemoryDataBase/Database/VesselDatabase.cs:337-338 | the field has no surrounding white space and the value no surrounding quotes |
| QueryParser.ParseConditionRender | InMemoryDataBase/Database/VesselDatabase.cs:326-346 | a well-formed condition written as field, operator, value parses back to itself |
| QueryParser.CollectConditions | InMemoryDataBase/Database/VesselDatabase.cs:307-314 | the loop keeps, in order, the conditions of exactly the parts that parse |
| QueryParser.ParsedPartsMember | InMemoryDataBase/Database/VesselDatabase.cs:309-314 | a condition is kept exactly when some part parses to it |
| QueryParser.ParseQuery | InMemoryDataBase/Database/VesselDatabase.cs:299-324 | the parser's result is the query the text denotes, QueryOf |
| QueryParser.QueryOfNone | InMemoryDataBase/Database/VesselDatabase.cs:299-324 | a query fails to parse exactly when no AND-separated part (or the whole text, without " AND ") parses as a condition |
| QueryParser.QueryOfShape | InMemoryDataBase/Database/VesselDatabase.cs:305-321 | a parsed query has the operator "AND" exactly when the text contains " AND ", holds the conditions of exactly the parts that parse, and otherwise holds the one condition of the whole text |
| QueryParser.QueryOfRender | InMemoryDataBase/Database/VesselDatabase.cs:299-324 | a well-formed condition written out, without "WHERE " or " AND " inside, parses as a one-condition query of itself |
| Text.SplitOn | InMemoryDataBase/Database/VesselDatabase.cs:307 | splitting gives parts without the separator that join back to the text, more than one exactly when the separator occurs |
| Text.RemoveAllIsJoinOfSplit | InMemoryDataBase/Database/VesselDatabase.cs:301 | removing every "WHERE " is joining the pieces between its occurrences |
| Text.SplitOnLeftmost | InMemoryDataBase/Database/VesselDatabase.cs:307 | the split cuts at the leftmost, non-overlapping occurrences: every part but the last, followed by the separator, first contains the separator right after the part |
| Text.ParseIntegerComplete | InMemoryDataBase/Database/VesselDatabase.cs:194 | every text made of white space, an optional sign, decimal digits and white space parses, to the signed value of the digits |
| Text.ParseIntegerSound | InMemoryDataBase/Database/VesselDatabase.cs:194 | every text that parses has that shape, with the result as the value |
| Text.ParseIntegerRejects | InMemoryDataBase/Database/VesselDatabase.cs:194 | a text holding a character that is no digit, sign or white space does not parse |
| Text.ParseDecimal | InMemoryDataBase/Database/VesselDatabase.cs:194 | the decimal text of any integer parses back to that integer |
| Text.ParseInt64Padded | InMemoryDataBase/Database/Utility/VesselDbHelper.cs:250-251 | the decimal text of n between white space parses to n, and long.TryParse accepts it exactly when n is in the signed 64-bit range |
| Text.ParseInt64 | InMemoryDataBase/Database/VesselDatabase.cs:194 | long.TryParse yields a value only in the signed 64-bit range, the value the integer parser reads, and fails exactly when that parser fails or the value is out of range |
| Chunks.NumChunksIsCeiling | InMemoryDataBase/Database/Utility/VesselDbHelper.cs:19-20 | the chunk count is the least number of chunks of 10000 rows that cover the batch |
| Chunks.ChunkBoundaries | InMemoryDataBase/Database/Utility/VesselDbHelper.cs:187-190 | chunks are non-empty and adjacent, the first starts at row 0 and the last ends at the batch's end |
| Chunks.ChunkRangesPartition | InMemoryDataBase/Database/Utility/VesselDbHelper.cs:187-195 | every row lies in exactly one chunk, and every chunk row is a row of the batch |
| Builder.ReadText | InMemoryDataBase/Database/Utility/VesselDbHelper.cs:224-233 | a String or Date field is filed exactly when it is a non-empty string, under that string; it throws exactly when it is present, not null and not a string; otherwise it is skipped |
| Builder.ReadInteger | InMemoryDataBase/Database/Utility/VesselDbHelper.cs:224-258 | an Integer field is filed only under a 64-bit key: a number under its value, a string under what the integer parser reads, and a string exactly when long.TryParse accepts it; it throws exactly when it is a number that is no 64-bit integer literal |
| Builder.FileField | InMemoryDataBase/Database/Utility/VesselDbHelper.cs:224-280 | reading one field fails exactly when it throws; otherwise the row is appended under the key read (non-empty text for String and Date, a 64-bit number or long-parsable text for Integer) or nothing changes |
| Builder.BuildIndexesForRecord | InMemoryDataBase/Database/Utility/VesselDbHelper.cs:212-289 | filing one record gives the record's row under the key of every configured field, and fails when any field read throws |
| Builder.BuildLocalFails | InMemoryDataBase/Database/Utility/VesselDbHelper.cs:282-286 | building a range of rows fails exactly when one of its rows throws |
| Builder.BuildLocalFields | InMemoryDataBase/Database/Utility/VesselDbHelper.cs:195-207 | a range built record by record holds, per field, the single-field build over that field's keys |
| Builder.BuildChunk | InMemoryDataBase/Database/Utility/VesselDbHelper.cs:187-207 | a chunk succeeds exactly when none of its rows throws, and then holds its rows' indexes and its rows in order |
| Builder.BuildIndexesForChunks | InMemoryDataBase/Database/Utility/VesselDbHelper.cs:172-210 | the build succeeds exactly when no row throws, and then every chunk is built over its own range |
| Builder.MergeField | InMemoryDataBase/Database/Utility/VesselDbHelper.cs:95-111 | the loops fold every chunk's lists, chunk by chunk and key by key in insertion order, into the global index, adding new keys and appending lists |
| Builder.MergeFields | InMemoryDataBase/Database/Utility/VesselDbHelper.cs:90-113 | every field of the kind is merged and every other field's index is untouched |
| Builder.MergeAllStringIndexes | InMemoryDataBase/Database/Utility/VesselDbHelper.cs:144-170 | the String fields are merged with case-insensitive keys; no other field changes |
| Builder.MergeAllNumIndexes | InMemoryDataBase/Database/Utility/VesselDbHelper.cs:116-142 | the Integer fields are merged with exact keys; no other field changes |
| Builder.MergeAllDateIndexes | InMemoryDataBase/Database/Utility/VesselDbHelper.cs:88-114 | the Date fields are merged with case-insensitive keys; no other field changes |
| Builder.TotalCount | InMemoryDataBase/Database/Utility/VesselDbHelper.cs:56 | the summed chunk sizes equal the number of collected rows |
| Builder.ConcatChunks | InMemoryDataBase/Database/Utility/VesselDbHelper.cs:56-61 | the built chunks' rows, in chunk order, are exactly the batch |
| Builder.AppendChunks | InMemoryDataBase/Database/Utility/VesselDbHelper.cs:60-61 | appending every chunk in order extends the records by all chunk rows in order |
| Builder.MergeChunks | InMemoryDataBase/Database/Utility/VesselDbHelper.cs:63-74 | the three merges over built chunks give the global indexes with the batch folded in |
| Builder.InitIndexCollectionsForChunks | InMemoryDataBase/Database/Utility/VesselDbHelper.cs:9-86 | a load fails exactly when a row throws or the capacity cannot be set; on success the records are the old ones followed by the batch, the indexes are the merged ones, and every chunk of the ceiling count was built |
| Builder.LoadTextExactlyOnce | InMemoryDataBase/Database/Utility/VesselDbHelper.cs:144-170 | a load adds each batch row to a String or Date index once, under the case-folded value of its field when that reads as non-empty text, and nothing else |
| Builder.LoadIntExactlyOnce | InMemoryDataBase/Database/Utility/VesselDbHelper.cs:116-142 | a load adds each batch row to an Integer index once, under its value when the field reads as an integer, and nothing else |
| Builder.LoadIntFirst | InMemoryDataBase/Database/Utility/VesselDbHelper.cs:116-142 | a first load gives, for each value, exactly the rows holding it, in strictly increasing order |
| Builder.LoadTextFirst | InMemoryDataBase/Database/Utility/VesselDbHelper.cs:144-170 | a first load gives, for each folded text, exactly the rows whose field folds to it, each at most once |
| Builder.LoadTextOutOfOrder | InMemoryDataBase/Database/Utility/VesselDbHelper.cs:144-170 | loading rows "ab", "AB", "ab" into an empty String index lists the folded key's rows as 0, 2, 1, not in row order |
| Builder.LoadNothing | InMemoryDataBase/Database/Utility/VesselDbHelper.cs:9-86 | loading an empty batch changes no index |
| IndexTheory.BuildRangeSpec | InMemoryDataBase/Database/Utility/VesselDbHelper.cs:195-207 | a chunk's index of a field is well formed, has no empty list, and lists under each key exactly the chunk rows with that key, strictly increasing |
| IndexTheory.MergeAllValid | InMemoryDataBase/Database/Utility/VesselDbHelper.cs:95-111 | merging keeps an index well formed: distinct keys in insertion order, each with a list |
| IndexTheory.MergedChunksBag | InMemoryDataBase/Database/Utility/VesselDbHelper.cs:116-142 | after merging, a key's list holds its old rows plus exactly the batch rows whose key folds to it |
| IndexTheory.MergedExactlyOnce | InMemoryDataBase/Database/Utility/VesselDbHelper.cs:116-142 | merging into an empty index files every row with a key exactly once, and no other row |
| IndexTheory.ChunkSizeInvariance | InMemoryDataBase/Database/Utility/VesselDbHelper.cs:19-20 | which rows a key holds does not depend on the chunk size |
| IndexTheory.ChunkedEqualsSinglePass | InMemoryDataBase/Database/Utility/VesselDbHelper.cs:187-207 | with exact keys, the chunked build followed by the merge equals one pass over the batch, whatever the chunk size |

## Left out

- Reading the JSON file and parsing it (VesselDatabase.cs lines 63-78, and the enumeration at VesselDbHelper.cs lines 176-184) are not modelled. A load starts from the parsed records.
- Console output and Stopwatch timing are not modelled. This covers the messages in `Query` and the load, `PrintIndexStats`, `PrintTopValues` and `PrintQueryResult`. Program.cs, the interactive loop, is not part of this model.
- `ConfigurationLoader` (reading appsettings.json) is not part of this model. The constructor takes the configuration as a parameter.
- Database.VesselDatabase.constructor: it requires at most three fields. The failing case of the C# constructor is modelled by `Create`, whose `Failure` stands for the `ArgumentException`.
- Parallelism is not modelled. `Parallel.For`, `Parallel.ForEach`, the range partitioner, `ConcurrentBag` and the per-field `lock` become sequential loops in the order the code's arrays are indexed. The merge reads chunks in array order whatever the thread schedule, so the indexes are the same.
- Builder.BuildIndexesForChunks: it stops at the first failing chunk. The C# code lets other chunks run on and rethrows the first exception as an `AggregateException`. Either way the load fails. The chunk indexes a failed load leaves behind are not observed.
- Exceptions other than a field read that throws, and a capacity below the count, are not modelled (memory exhaustion, for example).
- QueryEngine.EvaluateCondition: '<' and '>' compare integers, not doubles. JSON numbers are modelled by their integer value. `double.TryParse` is modelled by the integer parser, so fractions, exponents and culture-specific formats are not modelled.
- Text.ParseInt64: it accepts leading and trailing white space, an optional sign and digits, as `NumberStyles.Integer` does in the invariant culture. Culture-specific signs and digits are not modelled.
- Json.TextOf: `JsonElement.ToString` is modelled by the text kept in each value. A string gives its contents, a number its raw text, `null` the empty text, and any other value the text carried by `Other`.
- Text.Fold: OrdinalIgnoreCase folds only the ASCII letters here. Case pairs outside ASCII are compared as different.
- A case-insensitive global dictionary keeps the first spelling it saw of a key. The model keeps the folded key. Lookups and enumeration order are the same; only the spelling shown by `PrintTopValues` differs.
- The outer field-name dictionaries (VesselDatabase.cs lines 31-33) compare field names case-insensitively. The model compares them exactly, as the configuration dictionary does. The two differ only for configured names that differ only in case.
- The cache returns the same `List` object it stores, so a caller that changes the list changes later answers. The model has values, not aliased lists.
- Fields of a record are a map, so a JSON object with two properties of the same name cannot be represented.
- Row numbers and the record count are unbounded integers. The C# `int` limit on the number of records is not modelled.
- Each load is proved to keep every row number pointing at some record (`LoadKeepsConsistent`). That a row number points at the record it was filed for is proved only for the first load (`MatchingMeaning`), because later loads file positions within their own batch, as the code does.
