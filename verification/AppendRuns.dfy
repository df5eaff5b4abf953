/** Runs of the append path: what every sequence of appends, batches, guarded appends and system emits keeps. */
module AppendRuns {
  import opened Types
  import opened Cce
  import opened Events
  import opened Appends

  datatype Op =
    | DeclareStream(stream: string)
    | OpAppend(a: Append)
    | OpAppendIf(a: Append, condition: Condition)
    | OpAppendBatch(appends: seq<Append>)
    | OpEmit(eventType: Bytes, payload: Bytes, content: Value, timestamp: int)

  function Step(nfc: Nfc, db: Db, op: Op): Db
  {
    match op
    case DeclareStream(s) => db.(streams := db.streams + {s})
    case OpAppend(a) => AppendOne(nfc, db, a).0
    case OpAppendIf(a, condition) => AppendIf(nfc, db, a, condition).0
    case OpAppendBatch(appends) => AppendBatch(nfc, db, appends).0
    case OpEmit(t, p, c, ts) => Emit(nfc, db, t, p, c, ts)
  }

  function Run(nfc: Nfc, db: Db, ops: seq<Op>): Db
    decreases |ops|
  {
    if ops == [] then db else Run(nfc, Step(nfc, db, ops[0]), ops[1..])
  }

  /** A freshly opened store. */
  const EMPTY_STORE := Db([], {SYSTEM_STREAM})

  lemma {:induction false} StepKeepsSound(nfc: Nfc, db: Db, op: Op)
    requires Sound(nfc, db.rows)
    ensures Sound(nfc, Step(nfc, db, op).rows)
    ensures db.rows <= Step(nfc, db, op).rows
  {
    hide Sound;
    match op
    case DeclareStream(_) =>
    case OpAppend(a) =>
      if Prepare(nfc, a).Ok? {
        WriteKeepsSound(nfc, db.rows, a, Prepare(nfc, a).value);
      }
    case OpAppendIf(a, condition) =>
      if Prepare(nfc, a).Ok? {
        WriteKeepsSound(nfc, db.rows, a, Prepare(nfc, a).value);
      }
    case OpAppendBatch(appends) =>
      var ids := PrepareAll(nfc, appends);
      PrepareAllLength(nfc, appends);
      if ids.Ok? {
        WriteAllKeepsSound(nfc, db.rows, db.streams, appends, ids.value);
        WriteAllGrows(db.rows, db.streams, appends, ids.value);
      }
    case OpEmit(t, p, c, ts) =>
      var id := DeriveId(nfc, t, 1, None, c);
      if id.Ok? {
        WriteKeepsSound(nfc, db.rows, Append(SYSTEM_STREAM, MAIN, t, 1, p, c, None, None, None, true, ts), id.value);
      }
  }

  lemma {:induction false} WriteAllGrows(rows: seq<Row>, streams: set<string>, appends: seq<Append>, ids: seq<EventId>)
    requires |appends| == |ids|
    ensures var r := WriteAll(rows, streams, appends, ids); r.Ok? ==> rows <= r.value.0
    decreases |appends|
  {
    if appends != [] {
      WriteAllGrows(Write(rows, appends[0], ids[0]).0, streams, appends[1..], ids[1..]);
    }
  }

  /**
   Over every run from an empty store: contiguous versions on each stream and branch, ids unique
   store-wide, each row's id derived from its content; and rows are only ever added.
   */
  lemma {:induction false} EveryRunIsSound(nfc: Nfc, db: Db, ops: seq<Op>)
    requires Sound(nfc, db.rows)
    ensures Sound(nfc, Run(nfc, db, ops).rows) && NumberedAndDistinct(nfc, Run(nfc, db, ops).rows)
    ensures db.rows <= Run(nfc, db, ops).rows
    decreases |ops|
  {
    hide Sound, NumberedAndDistinct;
    if ops != [] {
      StepKeepsSound(nfc, db, ops[0]);
      EveryRunIsSound(nfc, Step(nfc, db, ops[0]), ops[1..]);
    }
    SoundIsNumberedAndDistinct(nfc, Run(nfc, db, ops).rows);
  }

  lemma {:induction false} EmptyStoreIsSound(nfc: Nfc, ops: seq<Op>)
    ensures Sound(nfc, Run(nfc, EMPTY_STORE, ops).rows) && NumberedAndDistinct(nfc, Run(nfc, EMPTY_STORE, ops).rows)
  {
    hide NumberedAndDistinct;
    EveryRunIsSound(nfc, EMPTY_STORE, ops);
  }

  // ----- Duplicates, batches and guarded appends -----

  /** Appending content the store already holds, on any stream, changes nothing. */
  lemma {:induction false} DuplicatesChangeNothing(nfc: Nfc, db: Db, a: Append, r: Row)
    requires Sound(nfc, db.rows) && r in db.rows && Prepare(nfc, a) == Ok(r.id)
    ensures AppendOne(nfc, db, a).0 == db
    ensures a.stream in db.streams ==> AppendOne(nfc, db, a).1.Ok? && !AppendOne(nfc, db, a).1.value.isNew
  {
    ConflictIsDuplicateId(db.rows, a, r.id);
  }

  ghost predicate HoldsContent(nfc: Nfc, rows: seq<Row>, a: Append)
  {
    exists r :: r in rows && SameContent(nfc, r, a.eventType, a.typeVersion, a.cause, a.content)
  }

  /** Two appends whose contents differ, and are not in the store yet, give two rows; otherwise there is one at most. */
  lemma {:induction false} TwoRowsExactly(nfc: Nfc, db: Db, a: Append, b: Append)
    requires Sound(nfc, db.rows) && Prepare(nfc, a).Ok? && Prepare(nfc, b).Ok?
    requires a.stream in db.streams && b.stream in db.streams
    requires !HoldsContent(nfc, db.rows, a) && !HoldsContent(nfc, db.rows, b)
    ensures |AppendOne(nfc, AppendOne(nfc, db, a).0, b).0.rows| == |db.rows| + 2
       <==> !(nfc(a.eventType) == nfc(b.eventType) && a.typeVersion == b.typeVersion && a.cause == b.cause
              && Canon(nfc, a.content) == Canon(nfc, b.content))
  {
    hide Sound, DeriveId, NextVersion, SameContent;
    var mid := AppendOne(nfc, db, a).0;
    var row := RowOf(a, Prepare(nfc, a).value, NextVersion(db.rows, a.stream, a.branch));
    PreparedIsDerived(nfc, a);
    PreparedIsDerived(nfc, b);
    WriteKeepsSound(nfc, db.rows, a, Prepare(nfc, a).value);
    NewExactlyByContent(nfc, db.rows, a, Prepare(nfc, a).value);
    NewExactlyByContent(nfc, mid.rows, b, Prepare(nfc, b).value);
    assert mid.rows == db.rows + [row] && row in mid.rows;
    assert forall r :: r in mid.rows <==> r in db.rows || r == row;
    ContentOfRow(nfc, a, b, row);
  }

  lemma {:induction false} ContentOfRow(nfc: Nfc, a: Append, b: Append, row: Row)
    requires row.eventType == a.eventType && row.typeVersion == a.typeVersion && row.cause == a.cause
    requires row.content == a.content
    ensures SameContent(nfc, row, b.eventType, b.typeVersion, b.cause, b.content)
       <==> nfc(a.eventType) == nfc(b.eventType) && a.typeVersion == b.typeVersion && a.cause == b.cause
            && Canon(nfc, a.content) == Canon(nfc, b.content)
  {
  }

  function AppendEach(nfc: Nfc, db: Db, appends: seq<Append>): (Db, seq<Result<Appended, AppendError>>)
    decreases |appends|
  {
    if appends == [] then (db, [])
    else
      var (db', r) := AppendOne(nfc, db, appends[0]);
      var (db'', rs) := AppendEach(nfc, db', appends[1..]);
      (db'', [r] + rs)
  }

  /** A batch changes nothing when it fails, and equals the same appends one by one when it succeeds. */
  lemma {:induction false} BatchIsAllOrNothing(nfc: Nfc, db: Db, appends: seq<Append>)
    ensures AppendBatch(nfc, db, appends).1.Err? ==> AppendBatch(nfc, db, appends).0 == db
    ensures AppendBatch(nfc, db, appends).1.Ok? ==>
              && AppendBatch(nfc, db, appends).0 == AppendEach(nfc, db, appends).0
              && AppendEach(nfc, db, appends).1 == Oks(AppendBatch(nfc, db, appends).1.value)
    ensures AppendBatch(nfc, db, appends).1.Ok? <==> forall r | r in AppendEach(nfc, db, appends).1 :: r.Ok?
    decreases |appends|
  {
    if appends != [] {
      var (db', r) := AppendOne(nfc, db, appends[0]);
      BatchIsAllOrNothing(nfc, db', appends[1..]);
      PrepareAllLength(nfc, appends[1..]);
      BatchStep(nfc, db, appends);
      var rs := AppendEach(nfc, db', appends[1..]).1;
      assert forall x :: x in [r] + rs <==> x == r || x in rs;
    }
  }

  function Oks(done: seq<Appended>): seq<Result<Appended, AppendError>>
  {
    if done == [] then [] else [Ok(done[0])] + Oks(done[1..])
  }

  lemma {:induction false} BatchStep(nfc: Nfc, db: Db, appends: seq<Append>)
    requires appends != []
    ensures var (db', r) := AppendOne(nfc, db, appends[0]);
            var rest := AppendBatch(nfc, db', appends[1..]);
            var all := AppendBatch(nfc, db, appends);
            if r.Ok? && rest.1.Ok? then all == (rest.0, Ok([r.value] + rest.1.value)) else all.1.Err?
  {
    PrepareAllLength(nfc, appends);
    PrepareAllLength(nfc, appends[1..]);
    if Prepare(nfc, appends[0]).Ok? && PrepareAll(nfc, appends[1..]).Ok? {
      var ids := PrepareAll(nfc, appends).value;
      assert ids[1..] == PrepareAll(nfc, appends[1..]).value;
    }
  }

  lemma {:induction false} NextVersionGrows(rows: seq<Row>, more: seq<Row>, stream: string, branch: string)
    requires rows <= more
    ensures NextVersion(rows, stream, branch) <= NextVersion(more, stream, branch)
  {
    if |rows| < |more| {
      NextVersionGrows(rows, more[..|more| - 1], stream, branch);
    } else {
      assert rows == more;
    }
  }

  /** A guard that holds only where the newest version is the expected one, whatever else it checks. */
  ghost predicate Expects(condition: Condition, stream: string, branch: string, expected: int)
  {
    forall rows :: condition(rows) == Ok(true) ==> NextVersion(rows, stream, branch) - 1 == expected
  }

  /** The compare-and-swap guard of the documentation is one. */
  lemma {:induction false} VersionIsExpects(stream: string, branch: string, expected: int)
    ensures Expects(VersionIs(stream, branch, expected), stream, branch, expected)
  {
  }

  ghost predicate InsertsGuarded(nfc: Nfc, db: Db, op: Op, stream: string, branch: string, expected: int)
  {
    && op.OpAppendIf? && op.a.stream == stream && op.a.branch == branch
    && Expects(op.condition, stream, branch, expected)
    && Step(nfc, db, op).rows != db.rows
  }

  /** Of all the guarded appends of a run that expect one version, at most one inserts. */
  lemma {:induction false} GuardedAppendsAreExclusive(nfc: Nfc, db: Db, ops: seq<Op>, i: nat, j: nat,
                                                      stream: string, branch: string, expected: int)
    requires Sound(nfc, db.rows) && i < j < |ops|
    requires InsertsGuarded(nfc, Run(nfc, db, ops[..i]), ops[i], stream, branch, expected)
    ensures !InsertsGuarded(nfc, Run(nfc, db, ops[..j]), ops[j], stream, branch, expected)
  {
    hide NumberedAndDistinct, Sound, InsertsGuarded, Step, NextVersion;
    var before := Run(nfc, db, ops[..i]);
    var after := Run(nfc, db, ops[..i + 1]);
    EveryRunIsSound(nfc, db, ops[..i]);
    RunSplits(nfc, db, ops[..i], [ops[i]]);
    assert ops[..i] + [ops[i]] == ops[..i + 1];
    assert Run(nfc, before, [ops[i]]) == Step(nfc, before, ops[i]);
    GuardedInsertPasses(nfc, before, ops[i], stream, branch, expected);
    RunSplits(nfc, db, ops[..i + 1], ops[i + 1..j]);
    assert ops[..i + 1] + ops[i + 1..j] == ops[..j];
    StepKeepsSound(nfc, before, ops[i]);
    EveryRunIsSound(nfc, after, ops[i + 1..j]);
    NextVersionGrows(after.rows, Run(nfc, db, ops[..j]).rows, stream, branch);
    if InsertsGuarded(nfc, Run(nfc, db, ops[..j]), ops[j], stream, branch, expected) {
      GuardedInsertPasses(nfc, Run(nfc, db, ops[..j]), ops[j], stream, branch, expected);
    }
  }

  lemma {:induction false} GuardedInsertPasses(nfc: Nfc, db: Db, op: Op, stream: string, branch: string, expected: int)
    requires InsertsGuarded(nfc, db, op, stream, branch, expected)
    ensures NextVersion(db.rows, stream, branch) - 1 == expected
    ensures NextVersion(Step(nfc, db, op).rows, stream, branch) == expected + 2
  {
    var rows := Step(nfc, db, op).rows;
    assert rows[..|rows| - 1] == db.rows;
  }

  lemma {:induction false} RunSplits(nfc: Nfc, db: Db, a: seq<Op>, b: seq<Op>)
    ensures Run(nfc, db, a + b) == Run(nfc, Run(nfc, db, a), b)
    decreases |a|
  {
    if a == [] {
      assert a + b == b;
    } else {
      RunSplits(nfc, Step(nfc, db, a[0]), a[1..], b);
      assert (a + b)[1..] == a[1..] + b;
    }
  }
}
