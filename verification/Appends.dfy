/**
 The append path (src/append.rs, src/system_stream.rs): version assignment, content-addressed ids and
 `INSERT OR IGNORE`, each call one transaction.

 An event id is a free value over the canonical content it is derived from, or the raw bytes of an id
 that came from elsewhere.  This idealises the hash: `CceCanon.PreimagesEqualExactly` shows that equal
 preimages mean equal canonical content, and the model adds that distinct preimages never collide.
 */
module Appends {
  import opened Types
  import opened Cce
  import opened Events

  datatype EventId =
    | Derived(eventType: Bytes, typeVersion: u32, cause: Option<EventId>, content: Value)
    | Raw(bytes: Bytes)

  type Row = Event<EventId>

  /** An `Append` after `prepare_payload`: the value for the id and the bytes to store. */
  datatype Append = Append(
    stream: string,
    branch: string,
    eventType: Bytes,
    typeVersion: u32,
    payload: Bytes,
    content: Value,
    cause: Option<EventId>,
    correlation: Option<EventId>,
    externalId: Option<string>,
    tagsValid: bool,
    timestamp: int)

  datatype AppendError = InvalidIndexedTags | Cce(error: CceError) | StreamNotDeclared(stream: string) | ConditionError

  datatype Appended = Appended(id: EventId, version: nat, isNew: bool)

  datatype Db = Db(rows: seq<Row>, streams: set<string>)

  const SYSTEM_STREAM := "_fossic/system"
  const MAIN := "main"

  // ----- One append as a function -----

  /** The free stand-in for `derive_event_id`, with its errors. */
  function DeriveId(nfc: Nfc, eventType: Bytes, typeVersion: u32, cause: Option<EventId>, content: Value)
    : Result<EventId, CceError>
  {
    if StringError(nfc, eventType).Some? then Err(StringError(nfc, eventType).value)
    else if FirstError(nfc, content).Some? then Err(FirstError(nfc, content).value)
    else Ok(Derived(nfc(eventType), typeVersion, cause, Canon(nfc, content)))
  }

  predicate On(r: Row, stream: string, branch: string)
  {
    r.stream == stream && r.branch == branch
  }

  /** `SELECT COALESCE(MAX(version), -1) + 1`. */
  function NextVersion(rows: seq<Row>, stream: string, branch: string): nat
  {
    if rows == [] then 0
    else
      var n := NextVersion(rows[..|rows| - 1], stream, branch);
      var last := rows[|rows| - 1];
      if On(last, stream, branch) && last.version + 1 > n then last.version + 1 else n
  }

  /** A unique constraint of the `events` table would be violated. */
  predicate Conflicts(rows: seq<Row>, row: Row)
  {
    exists r | r in rows :: r.id == row.id || (On(r, row.stream, row.branch) && r.version == row.version)
  }

  function InsertOrIgnore(rows: seq<Row>, row: Row): seq<Row>
  {
    if Conflicts(rows, row) then rows else rows + [row]
  }

  function RowOf(a: Append, id: EventId, version: nat): Row
  {
    Event(id, a.stream, a.branch, version, a.timestamp, a.cause, a.correlation, a.eventType, a.typeVersion,
          a.payload, a.content, a.externalId)
  }

  /** What is checked and computed before the transaction begins. */
  function Prepare(nfc: Nfc, a: Append): Result<EventId, AppendError>
  {
    if !a.tagsValid then Err(InvalidIndexedTags)
    else match DeriveId(nfc, a.eventType, a.typeVersion, a.cause, a.content)
      case Err(e) => Err(Cce(e))
      case Ok(id) => Ok(id)
  }

  /** What the transaction does with one prepared append. */
  function Write(rows: seq<Row>, a: Append, id: EventId): (seq<Row>, Appended)
  {
    var version := NextVersion(rows, a.stream, a.branch);
    var row := RowOf(a, id, version);
    (InsertOrIgnore(rows, row), Appended(id, version, !Conflicts(rows, row)))
  }

  function AppendOne(nfc: Nfc, db: Db, a: Append): (Db, Result<Appended, AppendError>)
  {
    match Prepare(nfc, a)
    case Err(e) => (db, Err(e))
    case Ok(id) =>
      if a.stream !in db.streams then (db, Err(StreamNotDeclared(a.stream)))
      else
        var (rows, done) := Write(db.rows, a, id);
        (db.(rows := rows), Ok(done))
  }

  /** A condition reads the rows inside the transaction; it may fail. */
  type Condition = seq<Row> -> Result<bool, AppendError>

  function AppendIf(nfc: Nfc, db: Db, a: Append, condition: Condition): (Db, Result<Option<Appended>, AppendError>)
  {
    match Prepare(nfc, a)
    case Err(e) => (db, Err(e))
    case Ok(id) =>
      if a.stream !in db.streams then (db, Err(StreamNotDeclared(a.stream)))
      else match condition(db.rows)
        case Err(e) => (db, Err(e))
        case Ok(false) => (db, Ok(None))
        case Ok(true) =>
          var (rows, done) := Write(db.rows, a, id);
          (db.(rows := rows), Ok(Some(done)))
  }

  /** The compare-and-swap condition of the documentation: the newest version is the expected one. */
  function VersionIs(stream: string, branch: string, expected: int): Condition
  {
    rows => Ok(NextVersion(rows, stream, branch) - 1 == expected)
  }

  function PrepareAll(nfc: Nfc, appends: seq<Append>): Result<seq<EventId>, AppendError>
  {
    if appends == [] then Ok([])
    else match Prepare(nfc, appends[0])
      case Err(e) => Err(e)
      case Ok(id) =>
        match PrepareAll(nfc, appends[1..])
        case Err(e) => Err(e)
        case Ok(ids) => Ok([id] + ids)
  }

  function WriteAll(rows: seq<Row>, streams: set<string>, appends: seq<Append>, ids: seq<EventId>)
    : Result<(seq<Row>, seq<Appended>), AppendError>
    requires |appends| == |ids|
    decreases |appends|
  {
    if appends == [] then Ok((rows, []))
    else if appends[0].stream !in streams then Err(StreamNotDeclared(appends[0].stream))
    else
      var (rows', done) := Write(rows, appends[0], ids[0]);
      match WriteAll(rows', streams, appends[1..], ids[1..])
      case Err(e) => Err(e)
      case Ok((rows'', rest)) => Ok((rows'', [done] + rest))
  }

  lemma {:induction false} PrepareAllLength(nfc: Nfc, appends: seq<Append>)
    ensures PrepareAll(nfc, appends).Ok? ==> |PrepareAll(nfc, appends).value| == |appends|
  {
    if appends != [] {
      PrepareAllLength(nfc, appends[1..]);
    }
  }

  /** All appends are prepared first, then written in one transaction that rolls back on an error. */
  function AppendBatch(nfc: Nfc, db: Db, appends: seq<Append>): (Db, Result<seq<Appended>, AppendError>)
  {
    match PrepareAll(nfc, appends)
    case Err(e) => (db, Err(e))
    case Ok(ids) =>
      PrepareAllLength(nfc, appends);
      match WriteAll(db.rows, db.streams, appends, ids)
      case Err(e) => (db, Err(e))
      case Ok((rows, done)) => (db.(rows := rows), Ok(done))
  }

  /** `SystemStreamWriter::emit`: no stream check, no cause, every error dropped. */
  function Emit(nfc: Nfc, db: Db, eventType: Bytes, payload: Bytes, content: Value, timestamp: int): Db
  {
    match DeriveId(nfc, eventType, 1, None, content)
    case Err(_) => db
    case Ok(id) =>
      var a := Append(SYSTEM_STREAM, MAIN, eventType, 1, payload, content, None, None, None, true, timestamp);
      db.(rows := Write(db.rows, a, id).0)
  }

  // ----- The store's invariant -----

  /** The rows of one stream and branch, oldest first. */
  function LogOf(rows: seq<Row>, stream: string, branch: string): seq<Row>
  {
    if rows == [] then []
    else
      var log := LogOf(rows[..|rows| - 1], stream, branch);
      if On(rows[|rows| - 1], stream, branch) then log + [rows[|rows| - 1]] else log
  }

  /** Each stream and branch holds exactly the versions 0..n-1, in order. */
  ghost predicate Contiguous(rows: seq<Row>)
  {
    forall stream: string, branch: string, i: nat | i < |LogOf(rows, stream, branch)| ::
      LogOf(rows, stream, branch)[i].version == i
  }

  ghost predicate UniqueIds(rows: seq<Row>)
  {
    forall i, j | 0 <= i < j < |rows| :: rows[i].id != rows[j].id
  }

  /** The row's id is derived from the row's own content. */
  ghost predicate ContentAddressed(nfc: Nfc, r: Row)
  {
    DeriveId(nfc, r.eventType, r.typeVersion, r.cause, r.content) == Ok(r.id)
  }

  ghost predicate Sound(nfc: Nfc, rows: seq<Row>)
  {
    && Contiguous(rows)
    && UniqueIds(rows)
    && forall r | r in rows :: ContentAddressed(nfc, r)
  }

  // ----- The invariant without logs and id derivation -----

  /** Type, type version, cause and canonical payload agree: the content that an id stands for. */
  ghost predicate SameContent(nfc: Nfc, r: Row, eventType: Bytes, typeVersion: u32, cause: Option<EventId>,
                              content: Value)
  {
    && nfc(r.eventType) == nfc(eventType) && r.typeVersion == typeVersion && r.cause == cause
    && Canon(nfc, r.content) == Canon(nfc, content)
  }

  ghost predicate HasVersion(rows: seq<Row>, stream: string, branch: string, v: nat)
  {
    exists r :: r in rows && r.stream == stream && r.branch == branch && r.version == v
  }

  /**
   The rows of each stream and branch are numbered 0, 1, 2 and so on in the order they were added, and no two
   rows of the store have the same content.
   */
  ghost predicate NumberedAndDistinct(nfc: Nfc, rows: seq<Row>)
  {
    && (forall i, j | 0 <= i < j < |rows| && rows[i].stream == rows[j].stream && rows[i].branch == rows[j].branch ::
          rows[i].version < rows[j].version)
    && (forall r, v: nat | r in rows && v < r.version :: HasVersion(rows, r.stream, r.branch, v))
    && forall i, j | 0 <= i < j < |rows| ::
         !SameContent(nfc, rows[i], rows[j].eventType, rows[j].typeVersion, rows[j].cause, rows[j].content)
  }

  /** Ids that exist are equal exactly when the contents they are derived from are the same. */
  lemma {:induction false} IdsEqualExactly(nfc: Nfc, t: Bytes, m: u32, c: Option<EventId>, a: Value,
                                           u: Bytes, n: u32, d: Option<EventId>, b: Value)
    requires DeriveId(nfc, t, m, c, a).Ok? && DeriveId(nfc, u, n, d, b).Ok?
    ensures DeriveId(nfc, t, m, c, a) == DeriveId(nfc, u, n, d, b)
       <==> nfc(t) == nfc(u) && m == n && c == d && Canon(nfc, a) == Canon(nfc, b)
  {
  }

  /** A row stands in its log behind the rows of its stream and branch that were added before it. */
  lemma {:induction false} LogAt(rows: seq<Row>, i: nat)
    requires i < |rows|
    ensures LogOf(rows[..i], rows[i].stream, rows[i].branch) + [rows[i]]
         <= LogOf(rows, rows[i].stream, rows[i].branch)
    decreases |rows|
  {
    var front := rows[..|rows| - 1];
    if i < |rows| - 1 {
      LogAt(front, i);
      assert front[..i] == rows[..i] && front[i] == rows[i];
    } else {
      assert front == rows[..i];
    }
  }

  lemma {:induction false} VersionIsPosition(rows: seq<Row>, i: nat)
    requires Contiguous(rows) && i < |rows|
    ensures rows[i].version == |LogOf(rows[..i], rows[i].stream, rows[i].branch)|
  {
    var log := LogOf(rows, rows[i].stream, rows[i].branch);
    LogAt(rows, i);
    assert log[|LogOf(rows[..i], rows[i].stream, rows[i].branch)|] == rows[i];
  }

  lemma {:induction false} SoundIsNumberedAndDistinct(nfc: Nfc, rows: seq<Row>)
    requires Sound(nfc, rows)
    ensures NumberedAndDistinct(nfc, rows)
  {
    hide DeriveId;
    forall i, j | 0 <= i < j < |rows| && rows[i].stream == rows[j].stream && rows[i].branch == rows[j].branch
      ensures rows[i].version < rows[j].version
    {
      VersionIsPosition(rows, i);
      VersionIsPosition(rows, j);
      LogAt(rows[..j], i);
      assert rows[..j][..i] == rows[..i];
    }
    forall r, v: nat | r in rows && v < r.version
      ensures HasVersion(rows, r.stream, r.branch, v)
    {
      var i :| 0 <= i < |rows| && rows[i] == r;
      var log := LogOf(rows, r.stream, r.branch);
      VersionIsPosition(rows, i);
      LogAt(rows, i);
      LogElements(rows, r.stream, r.branch);
      assert log[v] in log && log[v].version == v;
    }
    forall i, j | 0 <= i < j < |rows|
      ensures !SameContent(nfc, rows[i], rows[j].eventType, rows[j].typeVersion, rows[j].cause, rows[j].content)
    {
      assert ContentAddressed(nfc, rows[i]) && ContentAddressed(nfc, rows[j]);
      IdsEqualExactly(nfc, rows[i].eventType, rows[i].typeVersion, rows[i].cause, rows[i].content,
                      rows[j].eventType, rows[j].typeVersion, rows[j].cause, rows[j].content);
    }
  }

  /** In a sound store an insert is ignored exactly when a row has the same content. */
  lemma {:induction false} NewExactlyByContent(nfc: Nfc, rows: seq<Row>, a: Append, id: EventId)
    requires Sound(nfc, rows) && DeriveId(nfc, a.eventType, a.typeVersion, a.cause, a.content) == Ok(id)
    ensures Write(rows, a, id).1.isNew
       <==> forall r | r in rows :: !SameContent(nfc, r, a.eventType, a.typeVersion, a.cause, a.content)
  {
    hide DeriveId, Contiguous, UniqueIds, Write;
    ConflictIsDuplicateId(rows, a, id);
    forall r | r in rows
      ensures r.id == id <==> SameContent(nfc, r, a.eventType, a.typeVersion, a.cause, a.content)
    {
      assert ContentAddressed(nfc, r);
      IdsEqualExactly(nfc, r.eventType, r.typeVersion, r.cause, r.content, a.eventType, a.typeVersion, a.cause,
        a.content);
    }
  }

  lemma {:induction false} LogOfAppend(rows: seq<Row>, row: Row, stream: string, branch: string)
    ensures LogOf(rows + [row], stream, branch)
         == LogOf(rows, stream, branch) + (if On(row, stream, branch) then [row] else [])
  {
    assert (rows + [row])[..|rows|] == rows;
  }

  lemma {:induction false} LogElements(rows: seq<Row>, stream: string, branch: string)
    ensures forall r :: r in LogOf(rows, stream, branch) <==> r in rows && On(r, stream, branch)
  {
    if rows != [] {
      var last := rows[|rows| - 1];
      LogElements(rows[..|rows| - 1], stream, branch);
      assert rows == rows[..|rows| - 1] + [last];
    }
  }

  /** With contiguous versions, the next version is the length of the log. */
  lemma {:induction false} NextVersionIsLength(rows: seq<Row>, stream: string, branch: string)
    requires forall i: nat | i < |LogOf(rows, stream, branch)| :: LogOf(rows, stream, branch)[i].version == i
    ensures NextVersion(rows, stream, branch) == |LogOf(rows, stream, branch)|
  {
    if rows != [] {
      var front, last := rows[..|rows| - 1], rows[|rows| - 1];
      var log := LogOf(front, stream, branch);
      forall i: nat | i < |log|
        ensures log[i].version == i
      {
        assert LogOf(rows, stream, branch)[i] == log[i];
      }
      NextVersionIsLength(front, stream, branch);
      if On(last, stream, branch) {
        assert LogOf(rows, stream, branch)[|log|] == last;
      }
    }
  }

  lemma {:induction false} VersionsBelowNext(rows: seq<Row>, r: Row)
    requires r in rows
    ensures r.version < NextVersion(rows, r.stream, r.branch)
  {
    var front, last := rows[..|rows| - 1], rows[|rows| - 1];
    if r != last {
      assert rows == front + [last];
      VersionsBelowNext(front, r);
    }
  }

  /** Only a known id makes an insert be ignored: the version is always fresh. */
  lemma {:induction false} ConflictIsDuplicateId(rows: seq<Row>, a: Append, id: EventId)
    ensures Write(rows, a, id).1.isNew <==> forall r | r in rows :: r.id != id
  {
    var row := RowOf(a, id, NextVersion(rows, a.stream, a.branch));
    forall r | r in rows && On(r, row.stream, row.branch)
      ensures r.version != row.version
    {
      VersionsBelowNext(rows, r);
    }
  }

  lemma {:induction false} WriteKeepsSound(nfc: Nfc, rows: seq<Row>, a: Append, id: EventId)
    requires Sound(nfc, rows) && DeriveId(nfc, a.eventType, a.typeVersion, a.cause, a.content) == Ok(id)
    ensures Sound(nfc, Write(rows, a, id).0)
    ensures Write(rows, a, id).1.version == |LogOf(rows, a.stream, a.branch)|
  {
    var row := RowOf(a, id, NextVersion(rows, a.stream, a.branch));
    NextVersionIsLength(rows, a.stream, a.branch);
    if !Conflicts(rows, row) {
      forall stream: string, branch: string, i: nat | i < |LogOf(rows + [row], stream, branch)|
        ensures LogOf(rows + [row], stream, branch)[i].version == i
      {
        LogOfAppend(rows, row, stream, branch);
      }
      forall i | 0 <= i < |rows|
        ensures rows[i].id != id
      {
        assert rows[i] in rows;
      }
    }
  }

  lemma {:induction false} PreparedIsDerived(nfc: Nfc, a: Append)
    requires Prepare(nfc, a).Ok?
    ensures DeriveId(nfc, a.eventType, a.typeVersion, a.cause, a.content) == Ok(Prepare(nfc, a).value)
  {
  }

  lemma {:induction false} WriteAllKeepsSound(nfc: Nfc, rows: seq<Row>, streams: set<string>,
                                              appends: seq<Append>, ids: seq<EventId>)
    requires Sound(nfc, rows) && PrepareAll(nfc, appends) == Ok(ids) && |appends| == |ids|
    ensures var r := WriteAll(rows, streams, appends, ids); r.Ok? ==> Sound(nfc, r.value.0)
    decreases |appends|
  {
    hide Sound;
    hide Write;
    if appends != [] {
      assert ids == [Prepare(nfc, appends[0]).value] + PrepareAll(nfc, appends[1..]).value;
      assert ids[1..] == PrepareAll(nfc, appends[1..]).value;
      PreparedIsDerived(nfc, appends[0]);
      WriteKeepsSound(nfc, rows, appends[0], ids[0]);
      PrepareAllLength(nfc, appends[1..]);
      WriteAllKeepsSound(nfc, Write(rows, appends[0], ids[0]).0, streams, appends[1..], ids[1..]);
    }
  }
}
