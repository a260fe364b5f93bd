# sqlx core, modelled in Dafny

This project models four small pieces of the sqlx database driver and proves
properties of them.

- **Postgres error and notice responses** (`pg_response.dfy`, module
  `PgResponse`). The message body is a run of fields, each a tag byte followed
  by a NUL-terminated string, and a zero tag byte ends it (see "Error and
  Notice Message Fields" in the PostgreSQL Frontend/Backend Protocol).
  - `Response::read` is a loop over a byte cursor (`Read`). It is proved equal
    to a functional decoder: `Scan` splits the body into fields, then
    `Assemble` requires S, C and M and collects every other tag into a map,
    where the last write wins.
  - The severity is parsed lazily: the V field if there is one, the S field
    otherwise.
- **Postgres type descriptors** (`pg_types.dfy`, module `PgTypes`):
  - an object identifier with an optional name: `type_name`, `oid`,
    `type_feature_gate` and `Display`;
  - the `compatible` relation, with its INET/CIDR special cases;
  - the null-lifting decode of `Option<T>`;
  - `SharedStr`.
- **SQLite `bool`** (`sqlite_bool.dfy`, module `SqliteBool`). Encoding pushes
  one integer argument onto the caller's argument vector (a class with a
  `seq` field). Decoding reads "non-zero" as true.
- **SQLite connection lifecycle** (`sqlite_connection.dfy`, module
  `SqliteConn`). The SQLite library is an `Engine` object:
  - what `sqlite3_open_v2` and the pragma script return are oracle fields;
  - it keeps the open handles and the unfinalized statements;
  - it records every call it receives.

  The module models:
  - `establish` and `connect`;
  - the filename derived from the URL;
  - the connection's statement caches;
  - `Drop`, `close` and `ping`.

  Teardown is also stated as a pure function over call sequences, so that the
  order of the calls can be compared.

`wrappers.dfy` holds the `Option`, `Result` and `Unit` datatypes.

Bytes of the Postgres wire format are written as `char`, so that ASCII
literals read as they do in the source's `b"..."` strings.

## Model

| member | source | states |
|---|---|---|
| PgResponse.IsErrorIffAtLeastError | sqlx-core/src/postgres/protocol/response.rs:17-23 | `is_error` holds exactly for the severities at or above ERROR in the server's level order, which are Panic, Fatal and Error |
| PgResponse.IsError | sqlx-core/src/postgres/protocol/response.rs:18-23 | holds for Panic, Fatal and Error only; `IsErrorIffAtLeastError` ties it to the server's level order |
| PgResponse.ParseSeverity | sqlx-core/src/postgres/protocol/response.rs:26-44 | parsing succeeds only on a severity's exact upper-case spelling; any other text is refused with an unexpected-severity error that carries the text |
| PgResponse.ParseSeverityText | sqlx-core/src/postgres/protocol/response.rs:29-39 | each of the eight spellings parses back to its own severity |
| PgResponse.ParseSeverityFailsIff | sqlx-core/src/postgres/protocol/response.rs:29-43 | parsing fails exactly when the text is none of the eight spellings |
| PgResponse.GetU8 | sqlx-core/src/postgres/protocol/response.rs:91 | a byte is taken off exactly when the buffer is non-empty, with the rest left behind; an empty buffer is a truncation error |
| PgResponse.NulIndex | sqlx-core/src/postgres/protocol/response.rs:97 | the position found is the first NUL, or the end of the buffer when it holds none |
| PgResponse.GetStrNul | sqlx-core/src/postgres/protocol/response.rs:97 | a string is taken off exactly when the buffer holds a NUL: the buffer is the string, the NUL and the rest, and the string has no NUL; otherwise it is a truncation error |
| PgResponse.GetStrNulSplit | sqlx-core/src/postgres/protocol/response.rs:97 | a NUL-free string followed by a NUL is taken off whole, whatever follows it |
| PgResponse.Scan | sqlx-core/src/postgres/protocol/response.rs:90-116 | the fields read are all writable and their encoding, with the zero tag, is a prefix of the buffer; the only failure is truncation |
| PgResponse.ScanAfter | sqlx-core/src/postgres/protocol/response.rs:90-116 | scanning past fields already read puts them in front of what the remaining bytes scan to |
| PgResponse.ScanEncode | sqlx-core/src/postgres/protocol/response.rs:90-116 | round trip: the encoding of any writable fields scans back to the same fields, whatever bytes trail the zero tag |
| PgResponse.ScanOkIff | sqlx-core/src/postgres/protocol/response.rs:90-97 | scanning succeeds exactly when the buffer starts with a well-formed body |
| PgResponse.ScanTruncated | sqlx-core/src/postgres/protocol/response.rs:91-97 | every proper prefix of a body fails with a truncation error |
| PgResponse.LastValueIsLast | sqlx-core/src/postgres/protocol/response.rs:99-115 | a tag's value is found exactly when the tag occurs, and it is the value at the tag's last occurrence |
| PgResponse.Others | sqlx-core/src/postgres/protocol/response.rs:112-114 | the optional map holds exactly the tags other than S, C and M that occur, each with its last value |
| PgResponse.Response.Code | sqlx-core/src/postgres/protocol/response.rs:69 | the code the response was assembled with, which `DecodeSample` pins for the sample |
| PgResponse.Response.Message | sqlx-core/src/postgres/protocol/response.rs:71 | the message the response was assembled with, which `DecodeSample` pins for the sample |
| PgResponse.Response.Field | sqlx-core/src/postgres/protocol/response.rs:73-81 | S, C and M read the stored severity, code and message, every other tag the optional map; `AssembleField` proves this is the last value written under the tag |
| PgResponse.Response.Severity | sqlx-core/src/postgres/protocol/response.rs:61-67 | parses the V value when there is one and the stored severity otherwise; `AssembleSeverity` states it in terms of the fields read |
| PgResponse.Assemble | sqlx-core/src/postgres/protocol/response.rs:99-126 | builds the response from the fields read, failing on the first missing S, C or M; `AssembleOutcome` and `AssembleField` state its result |
| PgResponse.Decode | sqlx-core/src/postgres/protocol/response.rs:83-134 | the functional decoder: scan, then assemble; `Read` is proved equal to it and `DecodeEncoded` gives its round trip |
| PgResponse.DecodeAtTag | sqlx-core/src/postgres/protocol/response.rs:90-97 | at a tag position, running out of bytes or finding no NUL after a non-zero tag fails the whole decode, and a zero tag ends it with the fields read so far |
| PgResponse.Read | sqlx-core/src/postgres/protocol/response.rs:83-134 | the loop over the byte cursor returns exactly what scanning and then assembling the fields returns |
| PgResponse.DecodeIsAssemble | sqlx-core/src/postgres/protocol/response.rs:90-126 | decoding is truncation when scanning fails and assembly of the scanned fields otherwise |
| PgResponse.DecodeEncoded | sqlx-core/src/postgres/protocol/response.rs:83-134 | round trip at the byte level: the body written for any writable fields, followed by any bytes, decodes to the response assembled from those fields |
| PgResponse.AssembleOutcome | sqlx-core/src/postgres/protocol/response.rs:118-126 | the response is built exactly when S, C and M all occur; otherwise the error names the first of severity, code and message that is missing |
| PgResponse.AssembleField | sqlx-core/src/postgres/protocol/response.rs:73-81 | `field(t)` is the last value written under `t` for every tag: the stored severity, code or message for S, C and M, the map entry otherwise, and `None` for a tag that never appeared |
| PgResponse.AssembleOptionalKeys | sqlx-core/src/postgres/protocol/response.rs:99-114 | the optional map never holds S, C, M or the zero tag |
| PgResponse.AssembleSeverity | sqlx-core/src/postgres/protocol/response.rs:61-67 | `severity()` parses the last V value when V occurs, and the last S value otherwise |
| PgResponse.AssembleRepeatedTag | sqlx-core/src/postgres/protocol/response.rs:99-115 | writing a tag again replaces its value and leaves every other tag's value as it was |
| PgResponse.SampleIsEncoded | sqlx-core/src/postgres/protocol/response.rs:142-143 | the sample bytes are the encoding of its seven fields |
| PgResponse.DecodeSample | sqlx-core/src/postgres/protocol/response.rs:145-158 | the sample decodes with severity Notice, code "42710", the expected message, and F, L and R fields "extension.c", "1656" and "CreateExtension" |
| PgTypes.FromPreservesText | sqlx-core/src/postgres/types/mod.rs:192-220 | every conversion into `SharedStr` derefs to the text it was given, for both the static and the shared variant |
| PgTypes.SharedStr.Deref | sqlx-core/src/postgres/types/mod.rs:192-201 | the text, whichever way it is held; `FromPreservesText` shows each conversion keeps it |
| PgTypes.FromStatic | sqlx-core/src/postgres/types/mod.rs:209-213 | wraps a static string; it derefs to that string (`FromPreservesText`) |
| PgTypes.FromString | sqlx-core/src/postgres/types/mod.rs:215-220 | moves an owned string into a shared copy; it derefs to that string (`FromPreservesText`) |
| PgTypes.FromShared | sqlx-core/src/postgres/types/mod.rs:203-207 | a clone; it derefs to the same text (`FromPreservesText`) |
| PgTypes.DecimalRoundTrip | sqlx-core/src/postgres/types/mod.rs:153 | the decimal spelling of an identifier is non-empty, all digits, has no leading zero, and reads back as the identifier |
| PgTypes.New | sqlx-core/src/postgres/types/mod.rs:107-112 | a descriptor with an identifier and a name; `NewAccessors` states what its accessors report |
| PgTypes.WithOid | sqlx-core/src/postgres/types/mod.rs:118-123 | a descriptor with an identifier and no name; `WithOidAccessors` states what its accessors report |
| PgTypes.PgTypeInfo.TypeName | sqlx-core/src/postgres/types/mod.rs:126-128 | the name, or `<UNKNOWN>` when there is none (`NewAccessors`, `WithOidAccessors`) |
| PgTypes.PgTypeInfo.TypeFeatureGate | sqlx-core/src/postgres/types/mod.rs:130-140 | the Cargo feature a type needs; `FeatureGates` states each gate in both directions |
| PgTypes.PgTypeInfo.Oid | sqlx-core/src/postgres/types/mod.rs:142-145 | the numeric identifier (`NewAccessors`, `WithOidAccessors`) |
| PgTypes.PgTypeInfo.Display | sqlx-core/src/postgres/types/mod.rs:148-156 | the name, or `OID ` and the identifier in decimal; `DisplayOid` and `DecimalRoundTrip` state that the digits read back |
| PgTypes.PgTypeInfo.Compatible | sqlx-core/src/postgres/types/mod.rs:159-171 | the coercion check; `CompatibleIffSameClass`, `CompatibleIsEquivalence` and `CompatibleCases` state what it accepts |
| PgTypes.WithOidAccessors | sqlx-core/src/postgres/types/mod.rs:118-145 | a descriptor made from an identifier alone reports that identifier, the name `<UNKNOWN>`, and displays as `OID ` with the identifier in decimal |
| PgTypes.NewAccessors | sqlx-core/src/postgres/types/mod.rs:107-128 | a named descriptor reports its identifier and its name, and displays as its name |
| PgTypes.DisplayOid | sqlx-core/src/postgres/types/mod.rs:148-156 | a nameless descriptor displays as `OID ` followed by digits that read back as its identifier |
| PgTypes.FeatureGates | sqlx-core/src/postgres/types/mod.rs:130-140 | the feature gate is "chrono" exactly for DATE, TIME, TIMESTAMP and TIMESTAMPTZ, "uuid" exactly for UUID, "bigdecimal" exactly for NUMERIC, "ipnetwork" exactly for CIDR and INET, and none for every other type |
| PgTypes.CompatibleIffSameClass | sqlx-core/src/postgres/types/mod.rs:158-171 | two descriptors are compatible exactly when they fall in the same class once CIDR is counted as INET and the CIDR array as the INET array |
| PgTypes.CompatibleIsEquivalence | sqlx-core/src/postgres/types/mod.rs:158-171 | compatibility is reflexive, symmetric and transitive |
| PgTypes.CompatibleCases | sqlx-core/src/postgres/types/mod.rs:159-169 | INET and CIDR accept each other, and so do their array types; a scalar network type never accepts an array type; every other type is compatible exactly with equal identifiers |
| PgTypes.DecodeOption | sqlx-core/src/postgres/types/mod.rs:174-183 | a NULL value decodes to `Ok(None)`; otherwise the inner decoder's value is wrapped in `Some` and its error is passed on unchanged |
| SqliteBool.BoolTypeInfo | sqlx-core/src/sqlite/types/bool.rs:7-11 | `bool` is described as Boolean with Numeric affinity |
| SqliteBool.BoolToI32 | sqlx-core/src/sqlite/types/bool.rs:15 | the integer for a bool is 0 or 1, and is non-zero exactly for true |
| SqliteBool.Arguments.EncodeBool | sqlx-core/src/sqlite/types/bool.rs:13-17 | encoding appends exactly one integer argument, 1 for true and 0 for false, and leaves the earlier arguments as they were |
| SqliteBool.DecodeBool | sqlx-core/src/sqlite/types/bool.rs:19-23 | decoding never fails and gives true exactly when the column's integer is non-zero |
| SqliteBool.BoolRoundTrip | sqlx-core/src/sqlite/types/bool.rs:13-23 | decoding the integer a bool was encoded as gives the bool back |
| SqliteConn.TrimStartMatchesIsTail | sqlx-core/src/sqlite/connection.rs:55-58 | trimming leaves a tail of the text that does not start with the pattern; an empty pattern removes nothing |
| SqliteConn.TrimStartMatchesRemovesCopies | sqlx-core/src/sqlite/connection.rs:55-58 | what trimming removes is a whole number of copies of the pattern |
| SqliteConn.FilenameIsStrippedTail | sqlx-core/src/sqlite/connection.rs:55-58 | the filename is a tail of the URL that never starts with `//`, and the URL is some copies of `sqlite:`, then some copies of `//`, then the filename |
| SqliteConn.TrimStartMatches | sqlx-core/src/sqlite/connection.rs:55-58 | removes leading copies of a pattern; `TrimStartMatchesIsTail` and `TrimStartMatchesRemovesCopies` pin down its result |
| SqliteConn.Filename | sqlx-core/src/sqlite/connection.rs:55-58 | the URL with leading `sqlite:` copies and then leading `//` copies removed; `FilenameIsStrippedTail` states its shape |
| SqliteConn.FilenameMemory | sqlx-core/src/sqlite/connection.rs:55-58 | `sqlite::memory:` opens `:memory:` |
| SqliteConn.FilenameFile | sqlx-core/src/sqlite/connection.rs:55-58 | `sqlite://a.db` opens `a.db` |
| SqliteConn.FilenameRepeated | sqlx-core/src/sqlite/connection.rs:55-58 | `sqlite:sqlite:////x` opens `x`: both copies of `sqlite:` and both copies of `//` are removed |
| SqliteConn.RunFinalizeAll | sqlx-core/src/sqlite/connection.rs:151 | finalizing a list of statements forgets exactly those statements and leaves the handles alone |
| SqliteConn.Teardown | sqlx-core/src/sqlite/connection.rs:148-158 | the corrected teardown calls: every persistent statement, then the non-persistent one, then the close; `TeardownCloses` proves it releases the handle |
| SqliteConn.TeardownAsWritten | sqlx-core/src/sqlite/connection.rs:148-158 | the teardown calls in the order the source makes them, with the non-persistent statement finalized after the close; `TeardownAsWrittenLeaks` proves the leak |
| SqliteConn.TeardownCloses | sqlx-core/src/sqlite/connection.rs:148-158 | when every statement still prepared on the handle is cached by the connection, finalizing them all before the close releases the handle and forgets exactly the cached statements |
| SqliteConn.TeardownAsWrittenLeaks | sqlx-core/src/sqlite/connection.rs:148-158 | in the order `Drop` uses, a live non-persistent statement makes the close return SQLITE_BUSY and the handle stays open; the corrected order releases it |
| SqliteConn.TeardownOrdersAgreeWithoutStatement | sqlx-core/src/sqlite/connection.rs:148-158 | without a non-persistent statement the written order and the corrected order make the same calls |
| SqliteConn.Engine.OpenV2 | sqlx-core/src/sqlite/connection.rs:64-81 | opening returns the oracle status; on SQLITE_OK it opens a handle that was not open before, and otherwise no handle |
| SqliteConn.Engine.ExtendedResultCodes | sqlx-core/src/sqlite/connection.rs:87 | the call is recorded, with no effect on handles or statements |
| SqliteConn.Engine.Exec | sqlx-core/src/sqlite/connection.rs:120-131 | the pragma script returns the oracle status; the call is recorded, with no effect on handles or statements |
| SqliteConn.Engine.Finalize | sqlx-core/src/sqlite/connection.rs:151 | finalizing a statement forgets it and leaves the handles alone; the call is recorded |
| SqliteConn.Engine.Close | sqlx-core/src/sqlite/connection.rs:157 | closing returns SQLITE_BUSY and keeps the handle while a statement on it is unfinalized, and otherwise releases it with SQLITE_OK |
| SqliteConn.Establish | sqlx-core/src/sqlite/connection.rs:51-101 | a URL error is returned with no engine call; a non-OK open status is returned as an error with no connection, and in this model no handle is left open; otherwise extended result codes are switched on and a fresh connection with no statement and empty caches is returned |
| SqliteConn.Connect | sqlx-core/src/sqlite/connection.rs:109-134 | as for `establish` (a fresh handle numbered by the engine's counter, the prepared statements untouched), followed by the WAL/synchronous pragma script; if the script fails, its status is returned and the new handle is closed again |
| SqliteConn.ExecutePragmas | sqlx-core/src/sqlite/connection.rs:118-131 | the script's failure drops the connection, which closes its handle, and is returned as the error; success leaves the connection unchanged |
| SqliteConn.SqliteConnection.constructor | sqlx-core/src/sqlite/connection.rs:94-100 | a new connection holds no non-persistent statement, no persistent statements and an empty query map |
| SqliteConn.SqliteConnection.ClearStatements | sqlx-core/src/sqlite/connection.rs:151 | clearing the persistent statements finalizes each of them, in order, and empties the list; the non-persistent statement, the query map and the engine's handle numbering are left as they were |
| SqliteConn.SqliteConnection.Drop | sqlx-core/src/sqlite/connection.rs:148-158 | teardown finalizes every cached statement and then closes the handle, which is released; both caches end empty, the query map and the engine's handle numbering are left as they were |
| SqliteConn.SqliteConnection.Close | sqlx-core/src/sqlite/connection.rs:137-140 | `close` always succeeds; consuming the connection runs the teardown, whose calls and resulting engine state (handle released, cached statements finalized) are stated, with the caches emptied and the handle counter and oracle statuses unchanged |
| SqliteConn.SqliteConnection.Ping | sqlx-core/src/sqlite/connection.rs:142-145 | `ping` always succeeds and changes nothing |

## Left out

- The worker thread, futures and `unsafe impl Send/Sync` in `connection.rs`
  are not modelled. Each job runs as a direct call on the engine.
- The SQLite C functions are not modelled. `sqlite3_open_v2`,
  `sqlite3_extended_result_codes`, `sqlite3_close` and statement finalization
  become `Engine` methods with oracle results.
- A failed `sqlite3_open_v2` allocates no handle in this model. The real
  library may allocate one, and the source never closes it.
- The executor and `statement.rs` are not part of this model.
  - Pragma execution is one engine call that leaves the statement caches
    unchanged.
  - Dropping a statement is modelled as finalizing it.
  - Nothing in the model fills the caches, so `Drop` is proved for any cache
    contents that satisfy `Valid`.
- SqliteConn.Establish: requires that the filename contain no NUL, where
  `CString::new(..).unwrap()` would panic.
- The URL text is taken as given. `url::Url` parsing and normalisation are not
  modelled, and a parse failure is a parameter.
- SqliteConn.SqliteConnection.Drop: models the corrected order (see Findings).
  The written order is `TeardownAsWritten`.
- SqliteConn.SqliteConnection.Close: runs the corrected `Drop`, so it promises
  the handle is released even when a non-persistent statement is cached. The
  source's `close` runs `Drop` as written, which leaves the handle open in that
  case (see Findings).
- `sqlite/types/float.rs` is not modelled: it is floating point only.
- `database.rs`, `sqlite/database.rs` and `runtime.rs` hold only type bindings
  and runtime re-exports.
- `postgres/error.rs` is not modelled. It reads fields that `Response` does not
  have.
- The `fmt.pad` width and alignment of `SharedStr`'s `Display` are not
  modelled.
- `get_str_nul` does no UTF-8 validation here. Field strings are NUL-free byte
  sequences.
- Wire bytes are `char`, not restricted to 0..255.
- The unit test reads fields and an index operator that `Response` does not
  have. Its expectations are stated through `severity()`, `code()`,
  `message()` and `field()` instead.
- The variants of `SqliteArgumentValue`, `SqliteType` and `SqliteTypeAffinity`
  are defined outside the shown source. Only `Int`, `Boolean` and `Numeric`
  are used, and the other variants are assumptions.

## Findings

| source | as written | input that shows it | evidently intended | confidence | as-written member | corrected member |
|---|---|---|---|---|---|---|
| sqlx-core/src/sqlite/connection.rs:148-158 | `Drop` clears the persistent statements and calls `sqlite3_close`. The non-persistent `statement` field is dropped (finalized) only after `drop` returns, that is after the close. | A connection whose `statement` holds a prepared statement on its handle: `sqlite3_close` returns SQLITE_BUSY, and the handle is never released. | Every statement is finalized before the handle is closed, so that the close releases it; line 150 says statements go first. | medium, not executed; depends on `SqliteStatement`'s drop finalizing the statement | SqliteConn.TeardownAsWrittenLeaks | SqliteConn.TeardownCloses |
