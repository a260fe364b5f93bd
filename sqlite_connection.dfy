/** The lifecycle of a SQLite connection: deriving the database filename from
    the URL, opening the handle, running the start-up pragmas, and tearing the
    connection down. The SQLite library is an engine object whose open and
    exec results are oracles and which records every call made to it. */
module SqliteConn {
  import opened Wrappers

  // ---------------------------------------------------------------------------
  // Engine constants

  const SQLITE_OK := 0
  /** What `sqlite3_close` returns while statements on the handle are still
      unfinalized; the handle then stays open. */
  const SQLITE_BUSY := 5

  const SQLITE_OPEN_READWRITE: bv32 := 0x0000_0002
  const SQLITE_OPEN_CREATE: bv32 := 0x0000_0004
  const SQLITE_OPEN_NOMUTEX: bv32 := 0x0000_8000
  const SQLITE_OPEN_SHAREDCACHE: bv32 := 0x0002_0000

  /** The flags every connection is opened with. */
  const OPEN_FLAGS: bv32 :=
    SQLITE_OPEN_READWRITE | SQLITE_OPEN_CREATE | SQLITE_OPEN_NOMUTEX | SQLITE_OPEN_SHAREDCACHE

  /** The script `connect` runs on a new connection (write-ahead logging,
      normal synchronisation), with the raw literal's surrounding whitespace. */
  const PRAGMAS := "\nPRAGMA journal_mode = WAL;\n" + "PRAGMA synchronous = NORMAL;\n" + "                "

  const NUL: char := '\0'

  // ---------------------------------------------------------------------------
  // Filename derivation

  const SCHEME := "sqlite:"
  const SLASHES := "//"

  /** `k` copies of `p` in a row. */
  function Repeat(p: string, k: nat): string
  {
    if k == 0 then [] else p + Repeat(p, k - 1)
  }

  /** `r` is a tail of `s`. */
  predicate IsSuffix(r: string, s: string)
  {
    |r| <= |s| && r == s[|s| - |r|..]
  }

  lemma SuffixOfSuffix(s: string, mid: string, r: string)
    requires IsSuffix(mid, s) && IsSuffix(r, mid)
    ensures IsSuffix(r, s)
  {
    assert s[|s| - |mid|..][|mid| - |r|..] == s[|s| - |r|..];
  }

  /** `s` begins with `p`. */
  predicate StartsWith(s: string, p: string)
  {
    |p| <= |s| && s[..|p|] == p
  }

  /** `str::trim_start_matches` with a string pattern: removes every leading
      occurrence of `p`. An empty pattern removes nothing. */
  function TrimStartMatches(s: string, p: string): string
    decreases |s|
  {
    if p != [] && StartsWith(s, p) then TrimStartMatches(s[|p|..], p) else s
  }

  /** What is left is a tail of `s` that does not start with `p`; an empty
      pattern leaves `s` as it is. */
  lemma {:induction false} TrimStartMatchesIsTail(s: string, p: string)
    ensures IsSuffix(TrimStartMatches(s, p), s)
    ensures p != [] ==> !StartsWith(TrimStartMatches(s, p), p)
    ensures p == [] ==> TrimStartMatches(s, p) == s
    decreases |s|
  {
    if p != [] && StartsWith(s, p) {
      TrimStartMatchesIsTail(s[|p|..], p);
      SuffixOfSuffix(s, s[|p|..], TrimStartMatches(s, p));
    }
  }

  lemma PrependCopy(s: string, p: string, t: string, k: nat, r: string)
    requires StartsWith(s, p) && t == s[|p|..] && t == Repeat(p, k) + r
    ensures s == Repeat(p, k + 1) + r
  {
    calc {
      s;
      s[..|p|] + s[|p|..];
      p + (Repeat(p, k) + r);
    }
  }

  /** What was removed is a whole number of copies of the pattern. */
  lemma {:induction false} TrimStartMatchesRemovesCopies(s: string, p: string)
    ensures exists k: nat :: s == Repeat(p, k) + TrimStartMatches(s, p)
    decreases |s|
  {
    if p != [] && StartsWith(s, p) {
      var t := s[|p|..];
      TrimStartMatchesRemovesCopies(t, p);
      var k: nat :| t == Repeat(p, k) + TrimStartMatches(t, p);
      PrependCopy(s, p, t, k, TrimStartMatches(t, p));
    } else {
      assert s == Repeat(p, 0) + s;
    }
  }

  /** The database filename for a URL: the text after every leading `sqlite:`
      and then every leading `//`. */
  function Filename(url: string): string
  {
    TrimStartMatches(TrimStartMatches(url, SCHEME), SLASHES)
  }

  lemma ConcatAssoc3(s: string, a: string, mid: string, b: string, r: string)
    requires s == a + mid && mid == b + r
    ensures s == a + b + r
  {
  }

  /** Trimming `p` and then `q` leaves a tail that does not start with `q`,
      after some copies of `p` and then some copies of `q`. */
  lemma TrimTwice(s: string, p: string, q: string)
    requires q != []
    ensures var r := TrimStartMatches(TrimStartMatches(s, p), q);
      IsSuffix(r, s) && !StartsWith(r, q) &&
      exists j: nat, k: nat :: s == Repeat(p, j) + Repeat(q, k) + r
  {
    var mid := TrimStartMatches(s, p);
    var r := TrimStartMatches(mid, q);
    TrimStartMatchesIsTail(s, p);
    TrimStartMatchesIsTail(mid, q);
    SuffixOfSuffix(s, mid, r);
    TrimStartMatchesRemovesCopies(s, p);
    TrimStartMatchesRemovesCopies(mid, q);
    var j: nat :| s == Repeat(p, j) + mid;
    var k: nat :| mid == Repeat(q, k) + r;
    ConcatAssoc3(s, Repeat(p, j), mid, Repeat(q, k), r);
  }

  /** The filename is a tail of the URL that does not start with `//`, and the
      part cut off is some copies of `sqlite:` followed by some copies of `//`. */
  lemma FilenameIsStrippedTail(url: string)
    ensures IsSuffix(Filename(url), url)
    ensures !StartsWith(Filename(url), SLASHES)
    ensures exists j: nat, k: nat :: url == Repeat(SCHEME, j) + Repeat(SLASHES, k) + Filename(url)
  {
    TrimTwice(url, SCHEME, SLASHES);
  }

  /** The in-memory database URL and a file URL. */
  lemma FilenameMemory()
    ensures Filename("sqlite::memory:") == ":memory:"
  {
    var u := "sqlite::memory:";
    assert StartsWith(u, SCHEME) by { assert u[..7] == SCHEME; }
    assert u[7..] == ":memory:";
    assert !StartsWith(":memory:", SCHEME) by { assert ":memory:"[0] != SCHEME[0]; }
    assert TrimStartMatches(u, SCHEME) == ":memory:";
    assert !StartsWith(":memory:", SLASHES) by { assert ":memory:"[0] != SLASHES[0]; }
  }
  lemma FilenameFile()
    ensures Filename("sqlite://a.db") == "a.db"
  {
    var u := "sqlite://a.db";
    assert StartsWith(u, SCHEME) by { assert u[..7] == SCHEME; }
    assert u[7..] == "//a.db";
    assert !StartsWith("//a.db", SCHEME) by { assert "//a.db"[0] != SCHEME[0]; }
    assert TrimStartMatches(u, SCHEME) == "//a.db";
    assert StartsWith("//a.db", SLASHES) by { assert "//a.db"[..2] == SLASHES; }
    assert "//a.db"[2..] == "a.db";
    assert !StartsWith("a.db", SLASHES) by { assert "a.db"[0] != SLASHES[0]; }
  }

  /** Repeated prefixes are all removed. */
  lemma FilenameRepeated()
    ensures Filename("sqlite:sqlite:////x") == "x"
  {
    var u := "sqlite:sqlite:////x";
    assert StartsWith(u, SCHEME) by { assert u[..7] == SCHEME; }
    assert u[7..] == "sqlite:////x";
    var u1 := "sqlite:////x";
    assert StartsWith(u1, SCHEME) by { assert u1[..7] == SCHEME; }
    assert u1[7..] == "////x";
    assert !StartsWith("////x", SCHEME) by { assert "////x"[0] != SCHEME[0]; }
    assert TrimStartMatches(u, SCHEME) == "////x";
    assert StartsWith("////x", SLASHES) by { assert "////x"[..2] == SLASHES; }
    assert "////x"[2..] == "//x";
    assert StartsWith("//x", SLASHES) by { assert "//x"[..2] == SLASHES; }
    assert "//x"[2..] == "x";
    assert !StartsWith("x", SLASHES) by { assert "x"[0] != SLASHES[0]; }
  }

  // ---------------------------------------------------------------------------
  // The engine

  datatype Handle = Handle(id: nat)
  datatype Statement = Statement(id: nat, handle: Handle)

  /** One call into the SQLite library, as the engine records it. */
  datatype EngineCall =
    | OpenV2(filename: string, flags: bv32)
    | ExtendedResultCodes(db: Handle, onoff: int)
    | Exec(db: Handle, sql: string)
    | Finalize(stmt: Statement)
    | Close(db: Handle)

  /** The part of the engine's state that teardown acts on: the open handles
      and the statements not yet finalized. */
  datatype EngineState = EngineState(handles: set<Handle>, prepared: set<Statement>)

  /** Whether some statement prepared on `h` is still unfinalized. */
  predicate Busy(st: EngineState, h: Handle)
  {
    exists s :: s in st.prepared && s.handle == h
  }

  /** What `sqlite3_close(h)` returns in state `st`. */
  function CloseStatus(st: EngineState, h: Handle): int
  {
    if Busy(st, h) then SQLITE_BUSY else SQLITE_OK
  }

  predicate IsTeardownCall(c: EngineCall)
  {
    c.Finalize? || c.Close?
  }

  predicate AllTeardown(calls: seq<EngineCall>)
  {
    forall i :: 0 <= i < |calls| ==> IsTeardownCall(calls[i])
  }

  /** The effect of a finalize or close: finalizing forgets the statement;
      closing releases the handle unless it is busy, in which case nothing
      changes. */
  function Apply(st: EngineState, c: EngineCall): EngineState
    requires IsTeardownCall(c)
  {
    match c
    case Finalize(s) => st.(prepared := st.prepared - {s})
    case Close(h) => if Busy(st, h) then st else st.(handles := st.handles - {h})
  }

  /** The state after a sequence of finalize and close calls, in order. */
  function Run(st: EngineState, calls: seq<EngineCall>): EngineState
    requires AllTeardown(calls)
    decreases |calls|
  {
    if calls == [] then st else Run(Apply(st, calls[0]), calls[1..])
  }

  lemma {:induction false} RunAppend(st: EngineState, a: seq<EngineCall>, b: seq<EngineCall>)
    requires AllTeardown(a)
    requires AllTeardown(b)
    ensures AllTeardown(a + b)
    ensures Run(st, a + b) == Run(Run(st, a), b)
    decreases |a|
  {
    if a != [] {
      assert (a + b)[1..] == a[1..] + b;
      RunAppend(Apply(st, a[0]), a[1..], b);
    } else {
      assert a + b == b;
    }
  }

  /** One `Finalize` per statement, in order. */
  function FinalizeAll(ss: seq<Statement>): (r: seq<EngineCall>)
    ensures |r| == |ss|
    ensures forall i :: 0 <= i < |ss| ==> r[i] == Finalize(ss[i])
    ensures AllTeardown(r)
  {
    if ss == [] then [] else [Finalize(ss[0])] + FinalizeAll(ss[1..])
  }

  function FinalizeOpt(s: Option<Statement>): (r: seq<EngineCall>)
    ensures s.None? ==> r == []
    ensures s.Some? ==> r == [Finalize(s.value)]
    ensures AllTeardown(r)
  {
    match s
    case None => []
    case Some(t) => [Finalize(t)]
  }

  /** Finalizing a list of statements forgets exactly those statements and
      leaves the handles alone. */
  lemma {:induction false} RunFinalizeAll(st: EngineState, ss: seq<Statement>)
    ensures Run(st, FinalizeAll(ss)) == EngineState(st.handles, st.prepared - set s | s in ss)
    decreases |ss|
  {
    if ss != [] {
      var next := Apply(st, Finalize(ss[0]));
      RunFinalizeAll(next, ss[1..]);
      assert FinalizeAll(ss)[1..] == FinalizeAll(ss[1..]);
      assert (set s | s in ss) == {ss[0]} + set s | s in ss[1..];
    }
  }

  /** The corrected teardown: finalize every cached statement (the persistent
      ones, then the non-persistent one), and only then close the handle. */
  function Teardown(statements: seq<Statement>, statement: Option<Statement>, h: Handle): seq<EngineCall>
  {
    FinalizeAll(statements) + FinalizeOpt(statement) + [Close(h)]
  }

  /** The teardown as `Drop` performs it: the persistent statements are
      finalized, the handle is closed, and the non-persistent statement is
      finalized only afterwards, when the struct's fields are dropped. */
  function TeardownAsWritten(statements: seq<Statement>, statement: Option<Statement>, h: Handle): seq<EngineCall>
  {
    FinalizeAll(statements) + [Close(h)] + FinalizeOpt(statement)
  }

  /** The statements on `h` that are still prepared all belong to the
      connection's caches. */
  predicate OwnsAll(st: EngineState, statements: seq<Statement>, statement: Option<Statement>, h: Handle)
  {
    forall s :: s in st.prepared && s.handle == h ==> s in statements || statement == Some(s)
  }

  /** The corrected teardown finds the handle idle when it closes it, so the
      handle is released and every cached statement is finalized. */
  lemma TeardownCloses(st: EngineState, statements: seq<Statement>, statement: Option<Statement>, h: Handle)
    requires OwnsAll(st, statements, statement, h)
    ensures AllTeardown(Teardown(statements, statement, h))
    ensures Run(st, Teardown(statements, statement, h)).handles == st.handles - {h}
    ensures Run(st, Teardown(statements, statement, h)).prepared
         == st.prepared - (set s | s in statements) - (if statement.Some? then {statement.value} else {})
  {
    var fin := FinalizeAll(statements) + FinalizeOpt(statement);
    RunFinalizeAll(st, statements);
    var afterAll := Run(st, FinalizeAll(statements));
    RunAppend(st, FinalizeAll(statements), FinalizeOpt(statement));
    var afterFin := Run(afterAll, FinalizeOpt(statement));
    assert afterFin.handles == st.handles;
    assert afterFin.prepared == st.prepared - (set s | s in statements) - (if statement.Some? then {statement.value} else {});
    assert !Busy(afterFin, h);
    RunAppend(st, fin, [Close(h)]);
  }

  /** As written, a non-persistent statement that is still prepared keeps the
      handle busy when it is closed: the close fails with SQLITE_BUSY and the
      handle is never released, although the statement is finalized after. */
  lemma TeardownAsWrittenLeaks(st: EngineState, statements: seq<Statement>, s: Statement, h: Handle)
    requires s in st.prepared && s.handle == h && s !in statements
    requires h in st.handles
    requires OwnsAll(st, statements, Some(s), h)
    ensures AllTeardown(TeardownAsWritten(statements, Some(s), h))
    ensures CloseStatus(Run(st, FinalizeAll(statements)), h) == SQLITE_BUSY
    ensures h in Run(st, TeardownAsWritten(statements, Some(s), h)).handles
    ensures h !in Run(st, Teardown(statements, Some(s), h)).handles
  {
    RunFinalizeAll(st, statements);
    var afterAll := Run(st, FinalizeAll(statements));
    assert s in afterAll.prepared;
    RunAppend(st, FinalizeAll(statements), [Close(h)]);
    RunAppend(st, FinalizeAll(statements) + [Close(h)], [Finalize(s)]);
    TeardownCloses(st, statements, Some(s), h);
  }

  /** With no non-persistent statement the two orders are the same. */
  lemma TeardownOrdersAgreeWithoutStatement(statements: seq<Statement>, h: Handle)
    ensures TeardownAsWritten(statements, None, h) == Teardown(statements, None, h)
  {
  }

  /** The SQLite library. `openStatus` and `execStatus` are what the next
      `sqlite3_open_v2` and `sqlite3_exec` return; `calls` records every call
      in order. */
  class Engine {
    var openStatus: int
    var execStatus: int
    var nextId: nat
    var handles: set<Handle>
    var prepared: set<Statement>
    var calls: seq<EngineCall>

    /** Handles are numbered from `nextId` up, and a statement lives only on an
        open handle. */
    predicate Valid()
      reads this
    {
      (forall h :: h in handles ==> h.id < nextId) &&
      (forall s :: s in prepared ==> s.handle in handles)
    }

    function State(): EngineState
      reads this
    {
      EngineState(handles, prepared)
    }

    constructor (openStatus: int, execStatus: int)
      ensures Valid()
      ensures this.openStatus == openStatus && this.execStatus == execStatus
      ensures handles == {} && prepared == {} && calls == []
    {
      this.openStatus := openStatus;
      this.execStatus := execStatus;
      nextId := 0;
      handles := {};
      prepared := {};
      calls := [];
    }

    /** `sqlite3_open_v2`: on success a new handle is opened. */
    method OpenV2(filename: string, flags: bv32) returns (status: int, h: Option<Handle>)
      requires Valid()
      modifies this
      ensures Valid()
      ensures status == openStatus && openStatus == old(openStatus) && execStatus == old(execStatus)
      ensures status == SQLITE_OK ==> h == Some(Handle(old(nextId))) && h.value !in old(handles) && handles == old(handles) + {h.value}
      ensures status != SQLITE_OK ==> h.None? && handles == old(handles)
      ensures prepared == old(prepared)
      ensures calls == old(calls) + [EngineCall.OpenV2(filename, flags)]
    {
      status := openStatus;
      calls := calls + [EngineCall.OpenV2(filename, flags)];
      if status == SQLITE_OK {
        h := Some(Handle(nextId));
        handles := handles + {Handle(nextId)};
        nextId := nextId + 1;
      } else {
        h := None;
      }
    }

    /** `sqlite3_extended_result_codes`: recorded, with no effect on the
        handles or statements. */
    method ExtendedResultCodes(db: Handle, onoff: int)
      modifies this
      ensures calls == old(calls) + [EngineCall.ExtendedResultCodes(db, onoff)]
      ensures openStatus == old(openStatus) && execStatus == old(execStatus) && nextId == old(nextId)
      ensures State() == old(State())
    {
      calls := calls + [EngineCall.ExtendedResultCodes(db, onoff)];
    }

    /** Running a script to completion on `db`. */
    method Exec(db: Handle, sql: string) returns (status: int)
      modifies this
      ensures status == execStatus
      ensures calls == old(calls) + [EngineCall.Exec(db, sql)]
      ensures openStatus == old(openStatus) && execStatus == old(execStatus) && nextId == old(nextId)
      ensures State() == old(State())
    {
      status := execStatus;
      calls := calls + [EngineCall.Exec(db, sql)];
    }

    /** `sqlite3_finalize`. */
    method Finalize(s: Statement)
      requires Valid()
      modifies this
      ensures Valid()
      ensures State() == Apply(old(State()), EngineCall.Finalize(s))
      ensures calls == old(calls) + [EngineCall.Finalize(s)]
      ensures openStatus == old(openStatus) && execStatus == old(execStatus) && nextId == old(nextId)
    {
      prepared := prepared - {s};
      calls := calls + [EngineCall.Finalize(s)];
    }

    /** `sqlite3_close`: refuses with SQLITE_BUSY while a statement on the
        handle is unfinalized. */
    method Close(db: Handle) returns (status: int)
      requires Valid()
      modifies this
      ensures Valid()
      ensures status == CloseStatus(old(State()), db)
      ensures State() == Apply(old(State()), EngineCall.Close(db))
      ensures calls == old(calls) + [EngineCall.Close(db)]
      ensures openStatus == old(openStatus) && execStatus == old(execStatus) && nextId == old(nextId)
    {
      if exists s :: s in prepared && s.handle == db {
        status := SQLITE_BUSY;
      } else {
        status := SQLITE_OK;
        handles := handles - {db};
      }
      calls := calls + [EngineCall.Close(db)];
    }
  }

  // ---------------------------------------------------------------------------
  // The connection

  datatype ParseError = ParseError(reason: string)

  datatype Error =
    | UrlParse(parse: ParseError)
    | Sqlite(code: int)

  class SqliteConnection {
    const engine: Engine
    const handle: Handle
    /** The most recently prepared, non-persistent statement. */
    var statement: Option<Statement>
    /** The persistent statements. */
    var statements: seq<Statement>
    var statementByQuery: map<string, nat>

    /** The handle is open, and every statement still prepared on it is held
        by one of the caches. */
    predicate Valid()
      reads this, engine
    {
      engine.Valid() && handle in engine.handles &&
      OwnsAll(engine.State(), statements, statement, handle)
    }

    constructor (engine: Engine, handle: Handle)
      ensures this.engine == engine && this.handle == handle
      ensures statement == None && statements == [] && statementByQuery == map[]
    {
      this.engine := engine;
      this.handle := handle;
      statement := None;
      statements := [];
      statementByQuery := map[];
    }

    /** `self.statements.clear()`: each persistent statement is dropped, and so
        finalized, in order. */
    method ClearStatements()
      requires engine.Valid()
      modifies this, engine
      ensures engine.Valid()
      ensures engine.State() == Run(old(engine.State()), FinalizeAll(old(statements)))
      ensures engine.calls == old(engine.calls) + FinalizeAll(old(statements))
      ensures statements == [] && statement == old(statement)
      ensures statementByQuery == old(statementByQuery) && engine.nextId == old(engine.nextId)
      ensures engine.openStatus == old(engine.openStatus) && engine.execStatus == old(engine.execStatus)
    {
      ghost var st0 := engine.State();
      ghost var ss := statements;
      var i := 0;
      while i < |statements|
        invariant 0 <= i <= |statements| && statements == ss && statement == old(statement)
        invariant engine.Valid()
        invariant engine.State() == Run(st0, FinalizeAll(statements[..i]))
        invariant engine.calls == old(engine.calls) + FinalizeAll(statements[..i])
        invariant engine.openStatus == old(engine.openStatus) && engine.execStatus == old(engine.execStatus)
        invariant statementByQuery == old(statementByQuery) && engine.nextId == old(engine.nextId)
      {
        engine.Finalize(statements[i]);
        assert statements[..i + 1] == statements[..i] + [statements[i]];
        assert FinalizeAll(statements[..i + 1]) == FinalizeAll(statements[..i]) + [Finalize(statements[i])];
        RunAppend(st0, FinalizeAll(statements[..i]), [Finalize(statements[i])]);
        i := i + 1;
      }
      assert statements[..i] == ss;
      statements := [];
    }

    /** `Drop`, with the non-persistent statement finalized before the handle is
        closed, so that the close succeeds. */
    method Drop()
      requires Valid()
      modifies this, engine
      ensures engine.Valid()
      ensures engine.calls == old(engine.calls) + Teardown(old(statements), old(statement), handle)
      ensures engine.State() == Run(old(engine.State()), Teardown(old(statements), old(statement), handle))
      ensures engine.handles == old(engine.handles) - {handle}
      ensures statements == [] && statement == None
      ensures statementByQuery == old(statementByQuery) && engine.nextId == old(engine.nextId)
      ensures engine.openStatus == old(engine.openStatus) && engine.execStatus == old(engine.execStatus)
    {
      ghost var st0 := engine.State();
      ghost var ss := statements;
      ghost var opt := statement;
      TeardownCloses(st0, statements, statement, handle);
      ClearStatements();
      ghost var afterAll := engine.State();
      if statement.Some? {
        engine.Finalize(statement.value);
        statement := None;
      }
      assert engine.State() == Run(afterAll, FinalizeOpt(opt));
      ghost var fin := FinalizeAll(ss) + FinalizeOpt(opt);
      RunAppend(st0, FinalizeAll(ss), FinalizeOpt(opt));
      assert engine.State() == Run(st0, fin);
      assert engine.calls == old(engine.calls) + fin;
      ghost var beforeClose := engine.State();
      var _ := engine.Close(handle);
      assert engine.State() == Run(beforeClose, [EngineCall.Close(handle)]);
      RunAppend(st0, fin, [EngineCall.Close(handle)]);
      assert Teardown(ss, opt, handle) == fin + [EngineCall.Close(handle)];
    }

    /** `Connection::close`: consumes the connection, whose drop does the
        teardown; the result is always success. */
    method Close() returns (r: Result<Unit, Error>)
      requires Valid()
      modifies this, engine
      ensures r == Ok(Unit)
      ensures engine.calls == old(engine.calls) + Teardown(old(statements), old(statement), handle)
      ensures engine.handles == old(engine.handles) - {handle}
      ensures engine.State() == Run(old(engine.State()), Teardown(old(statements), old(statement), handle))
      ensures statements == [] && statement == None && statementByQuery == old(statementByQuery)
      ensures engine.nextId == old(engine.nextId)
      ensures engine.openStatus == old(engine.openStatus) && engine.execStatus == old(engine.execStatus)
    {
      Drop();
      r := Ok(Unit);
    }

    /** `Connection::ping`: succeeds and changes nothing. */
    method Ping() returns (r: Result<Unit, Error>)
      ensures r == Ok(Unit)
    {
      r := Ok(Unit);
    }
  }

  /** `establish`: a URL that did not parse is returned as an error before the
      engine is touched; otherwise the filename is opened, a non-OK status is
      returned as an error, and an opened handle gets extended result codes
      and a connection with empty statement caches. */
  method Establish(url: Result<string, ParseError>, engine: Engine) returns (r: Result<SqliteConnection, Error>)
    requires engine.Valid()
    requires url.Ok? ==> NUL !in Filename(url.value)
    modifies engine
    ensures engine.Valid()
    ensures url.Err? ==> r == Err(UrlParse(url.error)) && unchanged(engine)
    ensures url.Ok? && engine.openStatus != SQLITE_OK ==>
              r == Err(Sqlite(engine.openStatus)) &&
              engine.calls == old(engine.calls) + [OpenV2(Filename(url.value), OPEN_FLAGS)] &&
              engine.State() == old(engine.State())
    ensures url.Ok? && engine.openStatus == SQLITE_OK ==>
              r.Ok? && fresh(r.value) && r.value.engine == engine && r.value.Valid() &&
              r.value.statement == None && r.value.statements == [] && r.value.statementByQuery == map[] &&
              r.value.handle == Handle(old(engine.nextId)) && r.value.handle !in old(engine.handles) &&
              engine.handles == old(engine.handles) + {r.value.handle} &&
              engine.prepared == old(engine.prepared) &&
              engine.calls == old(engine.calls) + [OpenV2(Filename(url.value), OPEN_FLAGS),
                                                   ExtendedResultCodes(r.value.handle, 1)]
    ensures engine.openStatus == old(engine.openStatus) && engine.execStatus == old(engine.execStatus)
  {
    if url.Err? {
      return Err(UrlParse(url.error));
    }
    var filename := Filename(url.value);
    var status, h := engine.OpenV2(filename, OPEN_FLAGS);
    if status != SQLITE_OK {
      return Err(Sqlite(status));
    }
    engine.ExtendedResultCodes(h.value, 1);
    var conn := new SqliteConnection(engine, h.value);
    r := Ok(conn);
  }

  /** `Connect::connect`: establish, then run the pragma script; if the script
      fails the new connection is dropped and the error returned. */
  method Connect(url: Result<string, ParseError>, engine: Engine) returns (r: Result<SqliteConnection, Error>)
    requires engine.Valid()
    requires url.Ok? ==> NUL !in Filename(url.value)
    modifies engine
    ensures engine.Valid()
    ensures url.Err? ==> r == Err(UrlParse(url.error)) && unchanged(engine)
    ensures url.Ok? && engine.openStatus != SQLITE_OK ==>
              r == Err(Sqlite(engine.openStatus)) &&
              engine.calls == old(engine.calls) + [OpenV2(Filename(url.value), OPEN_FLAGS)] &&
              engine.State() == old(engine.State())
    ensures url.Ok? && engine.openStatus == SQLITE_OK && engine.execStatus != SQLITE_OK ==>
              r == Err(Sqlite(engine.execStatus)) &&
              engine.State() == old(engine.State()) &&
              var h := Handle(old(engine.nextId));
              engine.calls == old(engine.calls) + [OpenV2(Filename(url.value), OPEN_FLAGS),
                                                   ExtendedResultCodes(h, 1), Exec(h, PRAGMAS), Close(h)]
    ensures url.Ok? && engine.openStatus == SQLITE_OK && engine.execStatus == SQLITE_OK ==>
              r.Ok? && fresh(r.value) && r.value.engine == engine && r.value.Valid() &&
              r.value.statement == None && r.value.statements == [] && r.value.statementByQuery == map[] &&
              r.value.handle == Handle(old(engine.nextId)) && r.value.handle !in old(engine.handles) &&
              engine.handles == old(engine.handles) + {r.value.handle} &&
              engine.prepared == old(engine.prepared) &&
              engine.calls == old(engine.calls) + [OpenV2(Filename(url.value), OPEN_FLAGS),
                                                   ExtendedResultCodes(r.value.handle, 1), Exec(r.value.handle, PRAGMAS)]
  {
    r := Establish(url, engine);
    if r.Ok? {
      r := ExecutePragmas(r.value);
    }
  }

  /** The second half of `connect`: the pragma script on a new connection. On
      failure the connection is dropped, which closes its handle. */
  method ExecutePragmas(conn: SqliteConnection) returns (r: Result<SqliteConnection, Error>)
    requires conn.Valid() && conn.statement == None && conn.statements == []
    modifies conn, conn.engine
    ensures conn.engine.Valid()
    ensures conn.engine.openStatus == old(conn.engine.openStatus) && conn.engine.execStatus == old(conn.engine.execStatus)
    ensures conn.engine.execStatus != SQLITE_OK ==>
              r == Err(Sqlite(conn.engine.execStatus)) &&
              conn.engine.calls == old(conn.engine.calls) + [Exec(conn.handle, PRAGMAS), EngineCall.Close(conn.handle)] &&
              conn.engine.State() == old(conn.engine.State()).(handles := old(conn.engine.handles) - {conn.handle})
    ensures conn.engine.execStatus == SQLITE_OK ==>
              r == Ok(conn) && conn.Valid() && unchanged(conn) &&
              conn.engine.calls == old(conn.engine.calls) + [Exec(conn.handle, PRAGMAS)] &&
              conn.engine.State() == old(conn.engine.State())
  {
    var engine := conn.engine;
    ghost var before := engine.State();
    ghost var calls0 := engine.calls;
    var status := engine.Exec(conn.handle, PRAGMAS);
    if status != SQLITE_OK {
      conn.Drop();
      assert Teardown([], None, conn.handle) == [EngineCall.Close(conn.handle)];
      assert engine.calls == calls0 + [Exec(conn.handle, PRAGMAS), EngineCall.Close(conn.handle)];
      assert engine.State() == Apply(before, EngineCall.Close(conn.handle));
      return Err(Sqlite(status));
    }
    r := Ok(conn);
  }

}
