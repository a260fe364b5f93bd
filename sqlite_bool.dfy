/** How SQLite stores a Rust `bool`: bound as an integer argument, read back
    from the integer view of a result column. */
module SqliteBool {
  import opened Wrappers

  type i32 = x: int | -0x8000_0000 <= x < 0x8000_0000

  /** The argument values a statement can be bound with. */
  datatype ArgumentValue =
    | Null
    | Int(i: i32)
    | Int64(i64: int)
    | Double(d: real)
    | Text(s: string)
    | Blob(b: seq<int>)

  /** A result column as the decoders see it; `Int()` is the engine's integer
      reading of the column. */
  datatype ResultValue = ResultValue(asInt: i32)
  {
    function Int(): i32 { asInt }
  }

  /** The storage classes a column is described by, and SQLite's five column
      affinities. */
  datatype SqliteType = Null | Text | Float | Integer | Boolean | Blob
  datatype SqliteTypeAffinity = Text | Numeric | Integer | Real | Blob

  datatype SqliteTypeInfo = SqliteTypeInfo(ty: SqliteType, affinity: SqliteTypeAffinity)

  /** The error type of the backend; a bool decode never produces one. */
  datatype SqliteError = SqliteError(code: int)

  /** `Type<Sqlite> for bool`. */
  function BoolTypeInfo(): (t: SqliteTypeInfo)
    ensures t.ty == Boolean && t.affinity == Numeric
  {
    SqliteTypeInfo(Boolean, Numeric)
  }

  /** `i32::from(bool)`. */
  function BoolToI32(b: bool): (i: i32)
    ensures 0 <= i <= 1
    ensures i != 0 <==> b
  {
    if b then 1 else 0
  }

  /** The caller's argument vector, which encoders push onto. */
  class Arguments {
    var values: seq<ArgumentValue>

    constructor ()
      ensures values == []
    {
      values := [];
    }

    /** `Encode<Sqlite> for bool`: pushes one integer argument. */
    method EncodeBool(b: bool)
      modifies this
      ensures values == old(values) + [Int(BoolToI32(b))]
    {
      values := values + [Int(BoolToI32(b))];
    }
  }

  /** `Decode<Sqlite> for bool`: any non-zero integer is true. */
  function DecodeBool(value: ResultValue): (r: Result<bool, SqliteError>)
    ensures r.Ok?
    ensures r.value <==> value.Int() != 0
  {
    Ok(value.Int() != 0)
  }

  /** Decoding the integer a bool was encoded as gives the bool back. */
  lemma BoolRoundTrip(b: bool)
    ensures DecodeBool(ResultValue(BoolToI32(b))) == Ok(b)
  {
  }
}
