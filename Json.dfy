/**
  The values a record holds and the index configuration. A record is a JSON
  object; only the parts of a JSON value that the store looks at are kept.
*/
module Json {

  /** A JSON value. A number keeps its value (the store compares numbers as
      integers), whether its text is an integer literal with no fraction and
      no exponent (GetInt64 refuses "5.0" and "5e0"; the signed 64-bit range
      GetInt64 also demands is checked on the value), and its raw text. True,
      false, objects and arrays are all Other, with the text
      JsonElement.ToString gives them. */
  datatype JsonValue =
    | Null
    | Str(s: string)
    | Num(value: int, isInt64: bool, text: string)
    | Other(text: string)

  /** A record: a JSON object, looked up by exact (ordinal) property name. */
  type Record = map<string, JsonValue>

  /** JsonElement.ToString(): a string's own characters, the raw text of any
      other value, and the empty string for null. */
  function TextOf(v: JsonValue): string
  {
    match v
    case Null => ""
    case Str(s) => s
    case Num(_, _, text) => text
    case Other(text) => text
  }

  /** The kind of index configured for a field. */
  datatype IndexType = String | Integer | Date

  /** The index configuration: field name (ordinal) to index kind. */
  type IndexConfig = map<string, IndexType>

  /** The configuration source never yields more than this many indexes. */
  const MaxIndexes: nat := 3
}
