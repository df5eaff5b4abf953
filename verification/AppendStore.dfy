/** The append methods of the store, proved against the functions of `Appends`. */
module AppendStore {
  import opened Types
  import opened Cce
  import opened Events
  import opened Appends
  import opened AppendRuns
  import CceSpec

  /** `row` holds the append under the given id and version. */
  predicate Holds(row: Row, a: Append, id: EventId, version: nat)
  {
    && row.id == id && row.version == version && row.stream == a.stream && row.branch == a.branch
    && row.eventType == a.eventType && row.typeVersion == a.typeVersion && row.cause == a.cause
    && row.payload == a.payload && row.content == a.content && row.timestamp == a.timestamp
    && row.correlation == a.correlation && row.externalId == a.externalId
  }

  /**
   What a finished append means for its caller: nothing but one row that holds the append was added, and only if
   no row had its id.  A sound store stays sound; there, that is if no row had the same content, and `done`
   names the next version, so that the versions of the stream and branch below it are exactly those taken.
   */
  ghost predicate Recorded(nfc: Nfc, before: Db, after: Db, a: Append, done: Appended)
  {
    && DeriveId(nfc, a.eventType, a.typeVersion, a.cause, a.content) == Ok(done.id)
    && after.streams == before.streams
    && (done.isNew <==> forall row | row in before.rows :: row.id != done.id)
    && (done.isNew ==> exists row :: after.rows == before.rows + [row] && Holds(row, a, done.id, done.version))
    && (!done.isNew ==> after.rows == before.rows)
    && (Sound(nfc, before.rows) ==>
          && Sound(nfc, after.rows) && NumberedAndDistinct(nfc, after.rows)
          && (done.isNew <==> forall row | row in before.rows ::
                !SameContent(nfc, row, a.eventType, a.typeVersion, a.cause, a.content))
          && forall v: nat :: HasVersion(before.rows, a.stream, a.branch, v) <==> v < done.version)
  }

  lemma {:induction false} WriteRecords(nfc: Nfc, db: Db, a: Append, id: EventId)
    requires DeriveId(nfc, a.eventType, a.typeVersion, a.cause, a.content) == Ok(id)
    ensures Recorded(nfc, db, db.(rows := Write(db.rows, a, id).0), a, Write(db.rows, a, id).1)
  {
    hide Sound, DeriveId, NumberedAndDistinct, SameContent, HasVersion, Holds;
    ConflictIsDuplicateId(db.rows, a, id);
    if Write(db.rows, a, id).1.isNew {
      var row := RowOf(a, id, NextVersion(db.rows, a.stream, a.branch));
      assert Write(db.rows, a, id).0 == db.rows + [row];
      assert Holds(row, a, id, row.version) by { RowHolds(a, id, row.version); }
    }
    if Sound(nfc, db.rows) {
      WriteKeepsSound(nfc, db.rows, a, id);
      NewExactlyByContent(nfc, db.rows, a, id);
      SoundIsNumberedAndDistinct(nfc, Write(db.rows, a, id).0);
      TakenVersions(nfc, db.rows, a.stream, a.branch);
    }
  }

  lemma {:induction false} RowHolds(a: Append, id: EventId, version: nat)
    ensures Holds(RowOf(a, id, version), a, id, version)
  {
  }

  /** The versions taken on a stream and branch are those below the length of its log. */
  lemma {:induction false} TakenVersions(nfc: Nfc, rows: seq<Row>, stream: string, branch: string)
    requires Sound(nfc, rows)
    ensures forall v: nat :: HasVersion(rows, stream, branch, v) <==> v < |LogOf(rows, stream, branch)|
  {
    hide ContentAddressed, UniqueIds;
    var log := LogOf(rows, stream, branch);
    LogElements(rows, stream, branch);
    forall v: nat | v < |log| ensures HasVersion(rows, stream, branch, v) {
      assert log[v] in log && log[v].version == v;
    }
    forall row | row in rows && row.stream == stream && row.branch == branch
      ensures row.version < |log|
    {
      assert row in log;
      var k: nat :| k < |log| && log[k] == row;
    }
  }

  /** What is checked before the transaction. */
  ghost predicate Admissible(nfc: Nfc, a: Append)
  {
    a.tagsValid && |nfc(a.eventType)| <= 67_108_864 && CceSpec.Passes(nfc, a.content)
  }

  /** The first check that fails: the tags, the type, the payload, then the stream. */
  ghost predicate Rejected(nfc: Nfc, streams: set<string>, a: Append, e: AppendError)
  {
    if !a.tagsValid then e == InvalidIndexedTags
    else if |nfc(a.eventType)| > 67_108_864 then e == Cce(StringTooLarge(|nfc(a.eventType)|))
    else if !CceSpec.Passes(nfc, a.content) then e.Cce? && CceSpec.StopsWith(nfc, a.content, e.error)
    else a.stream !in streams && e == StreamNotDeclared(a.stream)
  }

  lemma {:induction false} PrepareExactly(nfc: Nfc, a: Append)
    ensures Prepare(nfc, a).Ok? <==> Admissible(nfc, a)
    ensures forall streams :: Prepare(nfc, a).Err? ==> Rejected(nfc, streams, a, Prepare(nfc, a).error)
    ensures forall streams :: Prepare(nfc, a).Ok? && a.stream !in streams ==>
              Rejected(nfc, streams, a, StreamNotDeclared(a.stream))
  {
    hide CceSpec.Passes, CceSpec.StopsWith;
    CceSpec.FirstErrorIsPrescribed(nfc, a.content);
    CceSpec.PassesExactly(nfc, a.content);
  }

  // ----- What a batch means -----

  /** The appends were recorded one after another. */
  ghost predicate RecordedAll(nfc: Nfc, before: Db, after: Db, appends: seq<Append>, done: seq<Appended>)
    decreases |appends|
  {
    && |done| == |appends|
    && if appends == [] then after == before
       else exists mid ::
              Recorded(nfc, before, mid, appends[0], done[0]) && RecordedAll(nfc, mid, after, appends[1..], done[1..])
  }

  /** Every append is checked before the first stream is looked up. */
  ghost predicate BatchRejected(nfc: Nfc, streams: set<string>, appends: seq<Append>, e: AppendError)
  {
    || (exists i :: 0 <= i < |appends| && FirstInadmissible(nfc, appends, i) && Rejected(nfc, streams, appends[i], e))
    || ((forall a | a in appends :: Admissible(nfc, a))
        && exists i ::
             0 <= i < |appends| && FirstUndeclared(streams, appends, i) && e == StreamNotDeclared(appends[i].stream))
  }

  ghost predicate FirstInadmissible(nfc: Nfc, appends: seq<Append>, i: nat)
    requires i < |appends|
  {
    !Admissible(nfc, appends[i]) && forall a | a in appends[..i] :: Admissible(nfc, a)
  }

  predicate FirstUndeclared(streams: set<string>, appends: seq<Append>, i: nat)
    requires i < |appends|
  {
    appends[i].stream !in streams && forall a | a in appends[..i] :: a.stream in streams
  }

  lemma {:induction false} PrepareAllExactly(nfc: Nfc, streams: set<string>, appends: seq<Append>)
    ensures PrepareAll(nfc, appends).Ok? <==> forall a | a in appends :: Admissible(nfc, a)
    ensures PrepareAll(nfc, appends).Err? ==>
              exists i :: 0 <= i < |appends| && FirstInadmissible(nfc, appends, i)
                          && Rejected(nfc, streams, appends[i], PrepareAll(nfc, appends).error)
  {
    hide Admissible, Rejected, Prepare;
    if appends != [] {
      var rest := appends[1..];
      PrepareExactly(nfc, appends[0]);
      PrepareAllExactly(nfc, streams, rest);
      assert forall a :: a in appends <==> a == appends[0] || a in rest;
      if Prepare(nfc, appends[0]).Err? {
        assert appends[..0] == [] && FirstInadmissible(nfc, appends, 0);
      } else if PrepareAll(nfc, appends).Err? {
        var e := PrepareAll(nfc, rest).error;
        var i :| 0 <= i < |rest| && FirstInadmissible(nfc, rest, i) && Rejected(nfc, streams, rest[i], e);
        assert appends[..i + 1] == [appends[0]] + rest[..i] && appends[i + 1] == rest[i];
        assert FirstInadmissible(nfc, appends, i + 1);
      }
    }
  }

  lemma {:induction false} WriteAllRecords(nfc: Nfc, rows: seq<Row>, streams: set<string>, appends: seq<Append>,
                                           ids: seq<EventId>)
    requires PrepareAll(nfc, appends) == Ok(ids) && |ids| == |appends|
    ensures match WriteAll(rows, streams, appends, ids)
      case Ok((more, done)) =>
        && RecordedAll(nfc, Db(rows, streams), Db(more, streams), appends, done)
        && forall a | a in appends :: a.stream in streams
      case Err(e) =>
        exists i ::
          0 <= i < |appends| && FirstUndeclared(streams, appends, i) && e == StreamNotDeclared(appends[i].stream)
    decreases |appends|
  {
    hide Recorded, Write;
    if appends == [] {
    } else if appends[0].stream !in streams {
      assert appends[..0] == [] && FirstUndeclared(streams, appends, 0);
    } else {
      var rest := appends[1..];
      assert ids == [Prepare(nfc, appends[0]).value] + PrepareAll(nfc, rest).value;
      assert ids[1..] == PrepareAll(nfc, rest).value;
      PreparedIsDerived(nfc, appends[0]);
      WriteRecords(nfc, Db(rows, streams), appends[0], ids[0]);
      WriteAllRecords(nfc, Write(rows, appends[0], ids[0]).0, streams, rest, ids[1..]);
      assert forall a :: a in appends <==> a == appends[0] || a in rest;
      FirstRecorded(nfc, rows, streams, appends, ids);
      match WriteAll(Write(rows, appends[0], ids[0]).0, streams, rest, ids[1..])
      case Ok(_) =>
      case Err(e) =>
        var i :| 0 <= i < |rest| && FirstUndeclared(streams, rest, i) && e == StreamNotDeclared(rest[i].stream);
        assert appends[..i + 1] == [appends[0]] + rest[..i] && appends[i + 1] == rest[i];
        assert FirstUndeclared(streams, appends, i + 1);
    }
  }

  lemma {:induction false} FirstRecorded(nfc: Nfc, rows: seq<Row>, streams: set<string>, appends: seq<Append>,
                                         ids: seq<EventId>)
    requires appends != [] && |ids| == |appends| && appends[0].stream in streams
    requires var (mid, one) := Write(rows, appends[0], ids[0]);
             Recorded(nfc, Db(rows, streams), Db(mid, streams), appends[0], one)
    requires var tail := WriteAll(Write(rows, appends[0], ids[0]).0, streams, appends[1..], ids[1..]);
             tail.Ok? ==> RecordedAll(nfc, Db(Write(rows, appends[0], ids[0]).0, streams), Db(tail.value.0, streams),
                                      appends[1..], tail.value.1)
    ensures var all := WriteAll(rows, streams, appends, ids);
            all.Ok? ==> RecordedAll(nfc, Db(rows, streams), Db(all.value.0, streams), appends, all.value.1)
  {
    hide Recorded, Write;
    var all := WriteAll(rows, streams, appends, ids);
    if all.Ok? {
      assert all.value.1[1..] == WriteAll(Write(rows, appends[0], ids[0]).0, streams, appends[1..], ids[1..]).value.1;
    }
  }

  class EventStore {
    var db: Db

    constructor ()
      ensures db == EMPTY_STORE
    {
      db := EMPTY_STORE;
    }

    method AppendEvent(nfc: Nfc, a: Append) returns (r: Result<Appended, AppendError>)
      modifies this
      ensures (db, r) == AppendOne(nfc, old(db), a)
      ensures r.Ok? <==> Admissible(nfc, a) && a.stream in old(db).streams
      ensures r.Err? ==> Rejected(nfc, old(db).streams, a, r.error)
      ensures if r.Ok? then Recorded(nfc, old(db), db, a, r.value) else db == old(db)
    {
      hide Recorded, Admissible, Rejected;
      PrepareExactly(nfc, a);
      if !a.tagsValid {
        return Err(InvalidIndexedTags);
      }
      var id := DeriveId(nfc, a.eventType, a.typeVersion, a.cause, a.content);
      if id.Err? {
        return Err(Cce(id.error));
      }
      if a.stream !in db.streams {
        return Err(StreamNotDeclared(a.stream));
      }
      var nextVersion := NextVersion(db.rows, a.stream, a.branch);
      var row := RowOf(a, id.value, nextVersion);
      var isNew := !Conflicts(db.rows, row);
      WriteRecords(nfc, db, a, id.value);
      db := db.(rows := InsertOrIgnore(db.rows, row));
      return Ok(Appended(id.value, nextVersion, isNew));
    }

    method AppendEventIf(nfc: Nfc, a: Append, condition: Condition) returns (r: Result<Option<Appended>, AppendError>)
      modifies this
      ensures (db, r) == AppendIf(nfc, old(db), a, condition)
      ensures r.Ok? && r.value.Some? <==>
                Admissible(nfc, a) && a.stream in old(db).streams && condition(old(db).rows) == Ok(true)
      ensures r.Ok? && r.value.None? <==>
                Admissible(nfc, a) && a.stream in old(db).streams && condition(old(db).rows) == Ok(false)
      ensures r.Err? ==> Rejected(nfc, old(db).streams, a, r.error) || condition(old(db).rows) == Err(r.error)
      ensures if r.Ok? && r.value.Some? then Recorded(nfc, old(db), db, a, r.value.value) else db == old(db)
    {
      hide Recorded, Admissible, Rejected;
      PrepareExactly(nfc, a);
      if !a.tagsValid {
        return Err(InvalidIndexedTags);
      }
      var id := DeriveId(nfc, a.eventType, a.typeVersion, a.cause, a.content);
      if id.Err? {
        return Err(Cce(id.error));
      }
      if a.stream !in db.streams {
        return Err(StreamNotDeclared(a.stream));
      }
      var holds := condition(db.rows);
      if holds.Err? {
        return Err(holds.error);
      }
      if !holds.value {
        return Ok(None);
      }
      var nextVersion := NextVersion(db.rows, a.stream, a.branch);
      var row := RowOf(a, id.value, nextVersion);
      var isNew := !Conflicts(db.rows, row);
      WriteRecords(nfc, db, a, id.value);
      db := db.(rows := InsertOrIgnore(db.rows, row));
      return Ok(Some(Appended(id.value, nextVersion, isNew)));
    }

    /** Encode everything, then write everything to a transaction that is committed at the end. */
    method AppendEvents(nfc: Nfc, appends: seq<Append>) returns (r: Result<seq<Appended>, AppendError>)
      modifies this
      ensures (db, r) == AppendBatch(nfc, old(db), appends)
      ensures r.Ok? <==> forall a | a in appends :: Admissible(nfc, a) && a.stream in old(db).streams
      ensures if r.Ok? then RecordedAll(nfc, old(db), db, appends, r.value) else db == old(db)
      ensures r.Err? ==> BatchRejected(nfc, old(db).streams, appends, r.error)
    {
      hide Admissible, Rejected, RecordedAll, Recorded;
      PrepareAllExactly(nfc, db.streams, appends);
      if PrepareAll(nfc, appends).Ok? {
        PrepareAllLength(nfc, appends);
        WriteAllRecords(nfc, db.rows, db.streams, appends, PrepareAll(nfc, appends).value);
      }
      PrepareAllLength(nfc, appends);
      var encoded := EncodeAll(nfc, appends);
      if encoded.Err? {
        return Err(encoded.error);
      }
      var tx := WriteTransaction(db.rows, db.streams, appends, encoded.value);
      if tx.Err? {
        return Err(tx.error);
      }
      db := db.(rows := tx.value.0);
      return Ok(tx.value.1);
    }
  }

  method EncodeAll(nfc: Nfc, appends: seq<Append>) returns (r: Result<seq<EventId>, AppendError>)
    ensures r == PrepareAll(nfc, appends)
  {
    var encoded: seq<EventId> := [];
    assert appends[0..] == appends;
    PrependNothing(PrepareAll(nfc, appends));
    for i := 0 to |appends|
      invariant PrepareAll(nfc, appends) == Prepend(encoded, PrepareAll(nfc, appends[i..]))
    {
      var a := appends[i];
      assert appends[i..][1..] == appends[i + 1..];
      if !a.tagsValid {
        return Err(InvalidIndexedTags);
      }
      var id := DeriveId(nfc, a.eventType, a.typeVersion, a.cause, a.content);
      if id.Err? {
        return Err(Cce(id.error));
      }
      PrependStep(encoded, id.value, PrepareAll(nfc, appends[i + 1..]));
      encoded := encoded + [id.value];
    }
    assert appends[|appends|..] == [] && encoded + [] == encoded;
    return Ok(encoded);
  }

  method WriteTransaction(rows: seq<Row>, streams: set<string>, appends: seq<Append>, encoded: seq<EventId>)
    returns (r: Result<(seq<Row>, seq<Appended>), AppendError>)
    requires |appends| == |encoded|
    ensures r == WriteAll(rows, streams, appends, encoded)
  {
    var tx, outcomes: seq<Appended> := rows, [];
    assert appends[0..] == appends && encoded[0..] == encoded;
    PrependNoOutcomes(WriteAll(rows, streams, appends, encoded));
    for i := 0 to |appends|
      invariant WriteAll(rows, streams, appends, encoded)
             == PrependOutcomes(outcomes, WriteAll(tx, streams, appends[i..], encoded[i..]))
    {
      var a := appends[i];
      assert appends[i..][1..] == appends[i + 1..] && encoded[i..][1..] == encoded[i + 1..];
      if a.stream !in streams {
        return Err(StreamNotDeclared(a.stream));
      }
      var nextVersion := NextVersion(tx, a.stream, a.branch);
      var row := RowOf(a, encoded[i], nextVersion);
      var done := Appended(encoded[i], nextVersion, !Conflicts(tx, row));
      tx := InsertOrIgnore(tx, row);
      PrependOutcomesStep(outcomes, done, WriteAll(tx, streams, appends[i + 1..], encoded[i + 1..]));
      outcomes := outcomes + [done];
    }
    assert appends[|appends|..] == [] && outcomes + [] == outcomes;
    return Ok((tx, outcomes));
  }

  function Prepend(ids: seq<EventId>, rest: Result<seq<EventId>, AppendError>): Result<seq<EventId>, AppendError>
  {
    match rest
    case Err(e) => Err(e)
    case Ok(more) => Ok(ids + more)
  }

  lemma {:induction false} PrependNothing(rest: Result<seq<EventId>, AppendError>)
    ensures Prepend([], rest) == rest
  {
    if rest.Ok? { assert [] + rest.value == rest.value; }
  }

  lemma {:induction false} PrependStep(ids: seq<EventId>, id: EventId, rest: Result<seq<EventId>, AppendError>)
    ensures Prepend(ids, Prepend([id], rest)) == Prepend(ids + [id], rest)
  {
    if rest.Ok? { assert ids + ([id] + rest.value) == ids + [id] + rest.value; }
  }

  function PrependOutcomes(done: seq<Appended>, rest: Result<(seq<Row>, seq<Appended>), AppendError>)
    : Result<(seq<Row>, seq<Appended>), AppendError>
  {
    match rest
    case Err(e) => Err(e)
    case Ok((rows, more)) => Ok((rows, done + more))
  }

  lemma {:induction false} PrependNoOutcomes(rest: Result<(seq<Row>, seq<Appended>), AppendError>)
    ensures PrependOutcomes([], rest) == rest
  {
    if rest.Ok? { assert [] + rest.value.1 == rest.value.1; }
  }

  lemma {:induction false} PrependOutcomesStep(done: seq<Appended>, one: Appended,
                                               rest: Result<(seq<Row>, seq<Appended>), AppendError>)
    ensures PrependOutcomes(done, PrependOutcomes([one], rest)) == PrependOutcomes(done + [one], rest)
  {
    if rest.Ok? { assert done + ([one] + rest.value.1) == done + [one] + rest.value.1; }
  }
}
