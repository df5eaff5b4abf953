/** The reports of dropped background tasks as events of the system stream: src/executor.rs, src/system_stream.rs. */
module DropReports {
  import opened Types
  import opened Cce
  import opened CceCanon
  import opened Executor
  import A = Appends

  function Ascii(s: string): Bytes
  {
    seq(|s|, i requires 0 <= i < |s| => s[i] as int % 256)
  }

  function KindName(kind: Kind): string
  {
    match kind
    case GcOrphanSnapshots => "GcOrphanSnapshots"
    case TakeSnapshot(_, _) => "TakeSnapshot"
    case Custom(_) => "Custom"
  }

  function PriorityName(p: Priority): string
  {
    match p case Low => "Low" case Normal => "Normal" case High => "High"
  }

  /** The payload of `DeferredTaskDropped`, which alone determines the event's id. */
  function ReportOf(t: Task): Value
  {
    Obj([Entry(Ascii("task"), Str(Ascii(KindName(t.kind)))),
         Entry(Ascii("priority"), Str(Ascii(PriorityName(t.priority)))),
         Entry(Ascii("deadline_us"), Int(t.deadline))])
  }

  const DROPPED: Bytes := Ascii("DeferredTaskDropped")

  function ReportId(nfc: Nfc, t: Task): Result<A.EventId, CceError>
  {
    A.DeriveId(nfc, DROPPED, 1, None, ReportOf(t))
  }

  /** The tasks whose reports have the same payload: of one kind, whatever stream or closure it names. */
  predicate Alike(t: Task, u: Task)
  {
    && (t.kind.GcOrphanSnapshots? <==> u.kind.GcOrphanSnapshots?) && (t.kind.TakeSnapshot? <==> u.kind.TakeSnapshot?)
    && t.priority == u.priority && t.deadline == u.deadline
  }

  // ----- The id of a report -----

  predicate IsAscii(s: Bytes)
  {
    forall b | b in s :: b < 128
  }

  /** What Unicode promises of NFC: ASCII text is in normal form. */
  ghost predicate FixesAscii(nfc: Nfc)
  {
    forall s | IsAscii(s) :: nfc(s) == s
  }

  lemma {:induction false} AsciiFixed(nfc: Nfc, s: string)
    requires FixesAscii(nfc) && forall i | 0 <= i < |s| :: s[i] < 128 as char
    ensures nfc(Ascii(s)) == Ascii(s) && |Ascii(s)| == |s|
  {
    assert forall i | 0 <= i < |s| :: Ascii(s)[i] == s[i] as int;
    assert IsAscii(Ascii(s));
  }

  lemma {:induction false} NamesFixed(nfc: Nfc, t: Task)
    requires FixesAscii(nfc)
    ensures nfc(Ascii(KindName(t.kind))) == Ascii(KindName(t.kind))
    ensures nfc(Ascii(PriorityName(t.priority))) == Ascii(PriorityName(t.priority))
  {
    AsciiFixed(nfc, KindName(t.kind));
    AsciiFixed(nfc, PriorityName(t.priority));
  }

  lemma {:induction false} KeysFixed(nfc: Nfc)
    requires FixesAscii(nfc)
    ensures nfc(Ascii("task")) == Ascii("task") && nfc(Ascii("priority")) == Ascii("priority")
    ensures nfc(Ascii("deadline_us")) == Ascii("deadline_us") && nfc(DROPPED) == DROPPED
  {
    AsciiFixed(nfc, "task");
    AsciiFixed(nfc, "priority");
    AsciiFixed(nfc, "deadline_us");
    AsciiFixed(nfc, "DeferredTaskDropped");
  }

  lemma {:induction false} ReportEncodes(nfc: Nfc, t: Task)
    requires FixesAscii(nfc)
    ensures Encodable(nfc, ReportOf(t)) && !HasDuplicateKeys(nfc, ReportOf(t).entries) && ReportId(nfc, t).Ok?
  {
    KeysFixed(nfc);
    NamesFixed(nfc, t);
    EntryErrors(nfc, ReportOf(t).entries);
  }

  lemma {:induction false} SameReportParts(nfc: Nfc, t: Task, u: Task)
    requires FixesAscii(nfc) && Same(nfc, ReportOf(t), ReportOf(u))
    ensures Ascii(KindName(t.kind)) == Ascii(KindName(u.kind)) && t.deadline == u.deadline
    ensures Ascii(PriorityName(t.priority)) == Ascii(PriorityName(u.priority))
  {
    hide Ascii, KindName, PriorityName, FixesAscii;
    ReportEncodes(nfc, t);
    NamesFixed(nfc, t);
    NamesFixed(nfc, u);
    var xs, ys := ReportOf(t).entries, ReportOf(u).entries;
    var p, q :| Inverse(p, q, |xs|) && SameVia(nfc, xs, ys, p);
    forall i | 0 <= i < 3
      ensures p[i] == i
    {
      assert SameKey(nfc, xs[i], ys[p[i]]) && xs[p[i]].key == ys[p[i]].key;
      assert SameKey(nfc, xs[i], xs[p[i]]) && SameKey(nfc, xs[p[i]], xs[i]);
    }
    assert Same(nfc, xs[0].value, ys[0].value) && Same(nfc, xs[1].value, ys[1].value)
           && Same(nfc, xs[2].value, ys[2].value);
  }

  /** Every report has an id, and two reports have the same id exactly when kind name, priority and deadline agree. */
  lemma {:induction false} ReportIdsEqualExactly(nfc: Nfc, t: Task, u: Task)
    requires FixesAscii(nfc)
    ensures ReportId(nfc, t).Ok? && (ReportId(nfc, t) == ReportId(nfc, u) <==> Alike(t, u))
  {
    ReportEncodes(nfc, t);
    ReportEncodes(nfc, u);
    if ReportId(nfc, t) == ReportId(nfc, u) {
      CanonSame(nfc, ReportOf(t), ReportOf(u)) by { hide ReportOf; }
      SameReportParts(nfc, t, u);
      NameLengths(t, u);
    }
  }

  lemma {:induction false} NameLengths(t: Task, u: Task)
    requires Ascii(KindName(t.kind)) == Ascii(KindName(u.kind))
    requires Ascii(PriorityName(t.priority)) == Ascii(PriorityName(u.priority))
    ensures KindName(t.kind) == KindName(u.kind) && t.priority == u.priority
  {
    assert |KindName(t.kind)| == |Ascii(KindName(t.kind))| == |Ascii(KindName(u.kind))| == |KindName(u.kind)|;
    assert |PriorityName(t.priority)| == |Ascii(PriorityName(t.priority))| == |PriorityName(u.priority)|;
  }

  // ----- The rows of the reports -----

  function EmitOne(nfc: Nfc, db: A.Db, t: Task, now: int): A.Db
  {
    A.Emit(nfc, db, DROPPED, [], ReportOf(t), now)
  }

  function EmitAll(nfc: Nfc, db: A.Db, reports: seq<Task>, now: int): A.Db
    decreases |reports|
  {
    if reports == [] then db else EmitAll(nfc, EmitOne(nfc, db, reports[0], now), reports[1..], now)
  }

  ghost predicate Holds(rows: seq<A.Row>, id: Result<A.EventId, CceError>)
  {
    exists r :: r in rows && Ok(r.id) == id
  }

  /** The store holds exactly one row with the id of the report. */
  ghost predicate ReportedOnce(nfc: Nfc, rows: seq<A.Row>, t: Task)
  {
    Holds(rows, ReportId(nfc, t))
    && forall i, j | 0 <= i < |rows| && 0 <= j < |rows| && Ok(rows[i].id) == Ok(rows[j].id) == ReportId(nfc, t) ::
       i == j
  }

  /** An event of the system stream on main, without cause or correlation, that names kind, priority and deadline. */
  predicate IsReport(row: A.Row, t: Task, now: int)
  {
    && row.stream == "_fossic/system" && row.branch == "main" && row.timestamp == now
    && row.eventType == Ascii("DeferredTaskDropped") && row.typeVersion == 1 && row.content == ReportOf(t)
    && row.cause == None && row.correlation == None && row.externalId == None
  }

  /** One report: a row with its id is added unless one is there. */
  lemma {:induction false} EmitAdds(nfc: Nfc, db: A.Db, t: Task, now: int)
    requires FixesAscii(nfc) && A.Sound(nfc, db.rows)
    ensures var id, after := ReportId(nfc, t), EmitOne(nfc, db, t, now);
            && A.Sound(nfc, after.rows) && db.rows <= after.rows && Holds(after.rows, id)
            && (Holds(db.rows, id) ==> after == db)
            && (!Holds(db.rows, id) ==>
                  exists row :: after.rows == db.rows + [row] && Ok(row.id) == id && IsReport(row, t, now))
  {
    hide A.DeriveId, ReportOf, A.Contiguous, A.ContentAddressed, A.NextVersion, FixesAscii;
    ReportIdsEqualExactly(nfc, t, t);
    var id := ReportId(nfc, t).value;
    var a := A.Append(A.SYSTEM_STREAM, A.MAIN, DROPPED, 1, [], ReportOf(t), None, None, None, true, now);
    A.WriteKeepsSound(nfc, db.rows, a, id);
    A.ConflictIsDuplicateId(db.rows, a, id);
    var row := A.RowOf(a, id, A.NextVersion(db.rows, A.SYSTEM_STREAM, A.MAIN));
    var after := EmitOne(nfc, db, t, now);
    if Holds(db.rows, Ok(id)) {
      assert A.Conflicts(db.rows, row);
      assert after == db;
    } else {
      assert after.rows == db.rows + [row];
      assert row in after.rows;
    }
  }

  /** Every reported task has exactly one row afterwards. */
  lemma {:induction false} EveryReportHasOneRow(nfc: Nfc, db: A.Db, reports: seq<Task>, now: int, t: Task)
    requires FixesAscii(nfc) && A.Sound(nfc, db.rows) && t in reports
    ensures A.Sound(nfc, EmitAll(nfc, db, reports, now).rows)
    ensures ReportedOnce(nfc, EmitAll(nfc, db, reports, now).rows, t)
  {
    hide A.Contiguous, A.ContentAddressed, EmitAll, ReportId, Holds;
    IdsAfter(nfc, db, reports, now, ReportId(nfc, t));
  }

  /** The ids in the store afterwards are those from before and those of the reports. */
  lemma {:induction false} IdsAfter(nfc: Nfc, db: A.Db, reports: seq<Task>, now: int, id: Result<A.EventId, CceError>)
    requires FixesAscii(nfc) && A.Sound(nfc, db.rows)
    ensures var after := EmitAll(nfc, db, reports, now).rows;
            && A.Sound(nfc, after) && db.rows <= after
            && (Holds(after, id) <==> Holds(db.rows, id) || exists t :: t in reports && ReportId(nfc, t) == id)
    decreases |reports|
  {
    hide A.Sound, EmitOne, ReportId, FixesAscii;
    if reports != [] {
      var after := EmitOne(nfc, db, reports[0], now);
      EmitAdds(nfc, db, reports[0], now);
      IdsAfter(nfc, after, reports[1..], now, id);
      assert forall t :: t in reports <==> t == reports[0] || t in reports[1..];
    }
  }

  /** No report is in the store yet and no two tasks look alike. */
  ghost predicate AllDistinct(nfc: Nfc, rows: seq<A.Row>, reports: seq<Task>)
  {
    && (forall t | t in reports :: !Holds(rows, ReportId(nfc, t)))
    && forall i, j | 0 <= i < j < |reports| :: !Alike(reports[i], reports[j])
  }

  /**
   The payload names neither stream nor branch, so tasks that look alike share one report: each task gets
   a row of its own exactly when no report is in the store yet and no two tasks look alike.
   */
  lemma {:induction false} OwnRowsExactly(nfc: Nfc, db: A.Db, reports: seq<Task>, now: int)
    requires FixesAscii(nfc) && A.Sound(nfc, db.rows)
    ensures |EmitAll(nfc, db, reports, now).rows| <= |db.rows| + |reports|
    ensures |EmitAll(nfc, db, reports, now).rows| == |db.rows| + |reports| <==> AllDistinct(nfc, db.rows, reports)
    decreases |reports|
  {
    hide A.Sound, EmitOne, ReportId, FixesAscii, Alike, Holds, AllDistinct;
    if reports == [] {
      NoneDistinct(nfc, db.rows);
    } else {
      var after := EmitOne(nfc, db, reports[0], now);
      EmitAdds(nfc, db, reports[0], now);
      OwnRowsExactly(nfc, after, reports[1..], now);
      DistinctSplits(nfc, db.rows, after.rows, reports);
    }
  }

  lemma {:induction false} NoneDistinct(nfc: Nfc, rows: seq<A.Row>)
    ensures AllDistinct(nfc, rows, [])
  {
  }

  lemma {:induction false} DistinctSplits(nfc: Nfc, rows: seq<A.Row>, after: seq<A.Row>, reports: seq<Task>)
    requires FixesAscii(nfc) && reports != []
    requires Holds(rows, ReportId(nfc, reports[0])) ==> after == rows
    requires !Holds(rows, ReportId(nfc, reports[0])) ==>
               exists row :: after == rows + [row] && Ok(row.id) == ReportId(nfc, reports[0])
    ensures AllDistinct(nfc, rows, reports)
       <==> !Holds(rows, ReportId(nfc, reports[0])) && AllDistinct(nfc, after, reports[1..])
  {
    hide ReportId, FixesAscii, Alike;
    forall t | t in reports[1..] && !Holds(rows, ReportId(nfc, reports[0]))
      ensures Holds(after, ReportId(nfc, t)) <==> Holds(rows, ReportId(nfc, t)) || Alike(reports[0], t)
    {
      ReportIdsEqualExactly(nfc, reports[0], t);
      var row :| after == rows + [row] && Ok(row.id) == ReportId(nfc, reports[0]);
      OneMore(rows, row, ReportId(nfc, t));
    }
    if AllDistinct(nfc, after, reports[1..]) && !Holds(rows, ReportId(nfc, reports[0])) {
      forall i, j | 0 <= i < j < |reports|
        ensures !Alike(reports[i], reports[j])
      {
        assert reports[j] == reports[1..][j - 1] && (i > 0 ==> reports[i] == reports[1..][i - 1]);
      }
      assert forall t :: t in reports ==> t == reports[0] || t in reports[1..];
    }
    if AllDistinct(nfc, rows, reports) {
      assert reports[0] in reports;
      forall t | t in reports[1..]
        ensures !Holds(after, ReportId(nfc, t))
      {
        var j :| 0 <= j < |reports[1..]| && reports[1..][j] == t;
        assert reports[j + 1] == t && !Alike(reports[0], reports[j + 1]);
      }
    }
  }

  lemma {:induction false} OneMore(rows: seq<A.Row>, row: A.Row, id: Result<A.EventId, CceError>)
    ensures Holds(rows + [row], id) <==> Holds(rows, id) || Ok(row.id) == id
  {
    assert row in rows + [row];
  }
}
