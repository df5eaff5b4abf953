/**
 One-shot, bounded and iterated reads (src/read.rs, `RangeIter` in src/store.rs, and
 `read_by_correlation_bounded_impl` in src/cross_stream.rs).

 The log of one stream and branch is the sequence of its rows in version order; appends extend it.
 */
module Reads {
  import opened Types
  import opened Events

  type Row = Event<nat>

  datatype Query = Query(from: Option<u64>, upTo: Option<u64>, limit: Option<u64>, eventType: Option<Bytes>)

  datatype Cursor =
    | RangeCursor(stream: string, branch: string, next: u64)
    | CorrelationCursor(correlation: nat, last: nat)
    | CausationCursor

  type Outcome = ReadOutcome<Cursor>

  datatype ReadError = CursorMismatch | StorageError(code: nat)

  ghost predicate Ascending(log: seq<Row>)
  {
    && (forall i | 0 <= i < |log| :: log[i].version < TWO_63)
    && (forall i, j | 0 <= i < j < |log| :: log[i].version < log[j].version)
  }

  // ----- The one-shot read -----

  predicate Selected(e: Row, low: int, high: int, eventType: Option<Bytes>)
  {
    low <= e.version <= high && (eventType.Some? ==> e.eventType == eventType.value)
  }

  /** `SELECT ... WHERE version >= low AND version <= high AND (type IS NULL OR event_type = type) ORDER BY version`. */
  function Select(log: seq<Row>, low: int, high: int, eventType: Option<Bytes>): seq<Row>
  {
    if log == [] then []
    else
      var rest := Select(log[1..], low, high, eventType);
      if Selected(log[0], low, high, eventType) then [log[0]] + rest else rest
  }

  function High(q: Query): int
  {
    if q.upTo.Some? then AsI64(q.upTo.value) else TWO_63 - 1
  }

  function Low(q: Query, resume: Option<u64>): int
  {
    if resume.Some? then AsI64(resume.value) else if q.from.Some? then AsI64(q.from.value) else 0
  }

  /** Everything a read is about, from its own start or from a cursor on. */
  function All(log: seq<Row>, q: Query, resume: Option<u64>): seq<Row>
  {
    Select(log, Low(q, resume), High(q), q.eventType)
  }

  /** SQL's `LIMIT`: a negative limit, which is what 2^63 and above wrap to, is none. */
  function Limited(events: seq<Row>, limit: int): seq<Row>
  {
    if 0 <= limit < |events| then events[..limit] else events
  }

  /** `read_range_impl`. */
  function ReadRange(log: seq<Row>, q: Query): seq<Row>
  {
    Limited(All(log, q, None), if q.limit.Some? then AsI64(q.limit.value) else TWO_63 - 1)
  }

  // ----- One page -----

  function ByteCount(events: seq<Row>): nat
  {
    if events == [] then 0 else ByteCount(events[..|events| - 1]) + |events[|events| - 1].payload|
  }

  /** The loop takes row `k` after the `k` rows before it. */
  predicate Takes(events: seq<Row>, k: nat, maxResults: Option<nat>, maxBytes: Option<nat>)
    requires k < |events|
  {
    && !(maxResults.Some? && k >= maxResults.value)
    && !(maxBytes.Some? && k > 0 && ByteCount(events[..k]) + |events[k].payload| > maxBytes.value)
  }

  /** `k` rows are one page of `events`: each of them is taken, and the next one, if any, is not. */
  predicate IsCut(events: seq<Row>, k: nat, maxResults: Option<nat>, maxBytes: Option<nat>)
  {
    && k <= |events|
    && (forall j | 0 <= j < k :: Takes(events, j, maxResults, maxBytes))
    && (k < |events| ==> !Takes(events, k, maxResults, maxBytes))
  }

  /** What a page over `events` must be, `cursor` standing for the cursor built at the cut. */
  predicate IsPage(o: Outcome, events: seq<Row>, maxResults: Option<nat>, maxBytes: Option<nat>)
  {
    && IsCut(events, |o.data|, maxResults, maxBytes) && o.data == events[..|o.data|]
    && (o.Complete? <==> |o.data| == |events|)
    && (o.Truncated? ==> (o.reason.ResultCount? <==> maxResults.Some? && |o.data| >= maxResults.value))
  }

  predicate IsRangePage(o: Outcome, log: seq<Row>, q: Query, resume: Option<u64>, maxResults: Option<nat>,
                        maxBytes: Option<nat>)
  {
    var events := All(log, q, resume);
    && IsPage(o, events, maxResults, maxBytes)
    && (o.Truncated? ==> o.cursor.RangeCursor? && o.cursor.next == events[|o.data|].version)
  }

  predicate IsCorrelationPage(o: Outcome, events: seq<Row>, correlation: nat, maxResults: Option<nat>,
                              maxBytes: Option<nat>)
  {
    && IsPage(o, events, maxResults, maxBytes)
    && (o.Truncated? ==>
          o.cursor == CorrelationCursor(correlation, if o.data == [] then 0 else o.data[|o.data| - 1].id))
  }

  // ----- What a selection and a page are, without the query and the cut -----

  /**
   The events of the log within the versions asked for, where a lower bound from 2^63 on is negative and excludes
   nothing, an upper bound from there on excludes everything, and a resumed read starts at its cursor instead of
   at the lower bound; of the type asked for; by ascending version.
   */
  ghost predicate IsSelection(log: seq<Row>, q: Query, resume: Option<u64>, events: seq<Row>)
  {
    && (forall i, j | 0 <= i < j < |events| :: events[i].version < events[j].version)
    && forall e :: e in events <==>
         && e in log
         && (match if resume.Some? then resume else q.from
             case None => true
             case Some(low) => low >= 0x8000_0000_0000_0000 || low <= e.version)
         && (q.upTo.Some? ==> q.upTo.value < 0x8000_0000_0000_0000 && e.version <= q.upTo.value)
         && (q.eventType.Some? ==> e.eventType == q.eventType.value)
  }

  lemma {:induction false} AllIsSelection(log: seq<Row>, q: Query, resume: Option<u64>)
    requires Ascending(log)
    ensures IsSelection(log, q, resume, All(log, q, resume))
  {
    hide Select;
    SelectIsFrom(log, Low(q, resume), High(q), q.eventType);
  }

  /** The one-shot read keeps the first events up to the limit: 2^63 - 1 without one, all from 2^63 on. */
  lemma {:induction false} OneShotExactly(log: seq<Row>, q: Query)
    requires Ascending(log)
    ensures var all := All(log, q, None);
            var limit := if q.limit.Some? then q.limit.value else 0x7FFF_FFFF_FFFF_FFFF;
            && IsSelection(log, q, None, all)
            && ReadRange(log, q) == if limit < 0x8000_0000_0000_0000 && limit < |all| then all[..limit] else all
  {
    hide IsSelection, Select;
    AllIsSelection(log, q, None);
  }

  /** The payload lengths of the first `k` events, added up. */
  function Total(events: seq<Row>, k: nat): nat
    requires k <= |events|
  {
    if k == 0 then 0 else Total(events, k - 1) + |events[k - 1].payload|
  }

  /**
   The page is a front of the events, more than one only within the byte budget, never more than the result
   budget, and the next event would have broken one of them: the result budget if that is the reason named.
   */
  ghost predicate IsFront(o: Outcome, events: seq<Row>, maxResults: Option<nat>, maxBytes: Option<nat>)
  {
    var n := |o.data|;
    && n <= |events| && o.data == events[..n]
    && (maxResults.Some? ==> n <= maxResults.value)
    && (maxBytes.Some? && n > 1 ==> Total(events, n) <= maxBytes.value)
    && (o.Complete? <==> n == |events|)
    && (o.Truncated? && n < |events| ==>
          var full := maxResults.Some? && n == maxResults.value;
          && (full || (maxBytes.Some? && n > 0 && Total(events, n + 1) > maxBytes.value))
          && (o.reason.ResultCount? <==> full))
  }

  lemma {:induction false} TotalIsByteCount(events: seq<Row>, k: nat)
    requires k <= |events|
    ensures ByteCount(events[..k]) == Total(events, k)
  {
    if k > 0 {
      TotalIsByteCount(events, k - 1);
      assert events[..k][..k - 1] == events[..k - 1];
    }
  }

  lemma {:induction false} PageIsFront(o: Outcome, events: seq<Row>, maxResults: Option<nat>, maxBytes: Option<nat>)
    requires IsPage(o, events, maxResults, maxBytes)
    ensures IsFront(o, events, maxResults, maxBytes)
  {
    hide ByteCount;
    var n := |o.data|;
    if n > 0 {
      assert Takes(events, n - 1, maxResults, maxBytes);
      TotalIsByteCount(events, n - 1);
    }
    if n < |events| {
      TotalIsByteCount(events, n);
    }
  }

  /** The loop of both bounded reads: push rows until one does not fit; `exceedCount` says why it did not. */
  method FillPage(rows: seq<Row>, maxResults: Option<nat>, maxBytes: Option<nat>)
    returns (events: seq<Row>, exceedCount: bool)
    ensures IsCut(rows, |events|, maxResults, maxBytes) && events == rows[..|events|]
    ensures |events| < |rows| ==> (exceedCount <==> maxResults.Some? && |events| >= maxResults.value)
  {
    events, exceedCount := [], false;
    var byteCount := 0;
    while |events| < |rows|
      invariant |events| <= |rows| && events == rows[..|events|] && byteCount == ByteCount(events)
      invariant forall j | 0 <= j < |events| :: Takes(rows, j, maxResults, maxBytes)
    {
      var event := rows[|events|];
      exceedCount := maxResults.Some? && |events| >= maxResults.value;
      var exceedBytes := maxBytes.Some? && events != [] && byteCount + |event.payload| > maxBytes.value;
      if exceedCount || exceedBytes {
        return;
      }
      ByteCountOneMore(events, event);
      byteCount := byteCount + |event.payload|;
      events := events + [event];
    }
  }

  lemma {:induction false} ByteCountOneMore(events: seq<Row>, event: Row)
    ensures ByteCount(events + [event]) == ByteCount(events) + |event.payload|
  {
    assert (events + [event])[..|events|] == events;
  }

  method ReadRangeBounded(stream: string, branch: string, log: seq<Row>, q: Query, resume: Option<u64>,
                          maxResults: Option<nat>, maxBytes: Option<nat>) returns (o: Outcome)
    requires Ascending(log)
    ensures IsRangePage(o, log, q, resume, maxResults, maxBytes)
    ensures o.Truncated? ==> o.cursor.stream == stream && o.cursor.branch == branch
    ensures IsSelection(log, q, resume, All(log, q, resume)) && IsFront(o, All(log, q, resume), maxResults, maxBytes)
  {
    AllIsSelection(log, q, resume);
    forall p: Outcome | IsPage(p, All(log, q, resume), maxResults, maxBytes) {
      PageIsFront(p, All(log, q, resume), maxResults, maxBytes);
    }
    hide Select, IsCut, IsSelection, IsFront;
    var rows := All(log, q, resume);
    var events, exceedCount := FillPage(rows, maxResults, maxBytes);
    CutIsWithin(rows, |events|, maxResults, maxBytes);
    if |events| < |rows| {
      SelectIsFrom(log, Low(q, resume), High(q), q.eventType);
      var next := rows[|events|].version;
      return Truncated(events, RangeCursor(stream, branch, next), if exceedCount then ResultCount else ByteSize);
    }
    o := Complete(events);
  }

  lemma {:induction false} CutIsWithin(rows: seq<Row>, k: nat, maxResults: Option<nat>, maxBytes: Option<nat>)
    requires IsCut(rows, k, maxResults, maxBytes)
    ensures k <= |rows|
  {
  }

  // ----- What a selection keeps -----

  lemma {:induction false} SelectIsFrom(log: seq<Row>, low: int, high: int, eventType: Option<Bytes>)
    requires Ascending(log)
    ensures Ascending(Select(log, low, high, eventType))
    ensures forall e :: e in Select(log, low, high, eventType) <==> e in log && Selected(e, low, high, eventType)
  {
    if log != [] {
      assert Ascending(log[1..]) && log == [log[0]] + log[1..];
      SelectIsFrom(log[1..], low, high, eventType);
      var rest := Select(log[1..], low, high, eventType);
      forall j | 0 <= j < |rest| ensures log[0].version < rest[j].version { assert rest[j] in log[1..]; }
    }
  }

  lemma {:induction false} SelectConcat(a: seq<Row>, b: seq<Row>, low: int, high: int, eventType: Option<Bytes>)
    ensures Select(a + b, low, high, eventType) == Select(a, low, high, eventType) + Select(b, low, high, eventType)
  {
    if a == [] {
      assert a + b == b;
    } else {
      assert (a + b)[1..] == a[1..] + b;
      SelectConcat(a[1..], b, low, high, eventType);
    }
  }

  lemma {:induction false} SelectAgrees(log: seq<Row>, low: int, later: int, high: int, eventType: Option<Bytes>)
    requires low <= later && forall i | 0 <= i < |log| :: later <= log[i].version
    ensures Select(log, low, high, eventType) == Select(log, later, high, eventType)
  {
    if log != [] {
      SelectAgrees(log[1..], low, later, high, eventType);
    }
  }

  /** Selecting again from the version of the row at the cut gives what is left from the cut on. */
  lemma {:induction false} SelectResumes(log: seq<Row>, low: int, high: int, eventType: Option<Bytes>, k: nat)
    requires Ascending(log) && k < |Select(log, low, high, eventType)|
    ensures var all := Select(log, low, high, eventType); Select(log, all[k].version, high, eventType) == all[k..]
  {
    var all := Select(log, low, high, eventType);
    SelectIsFrom(log, low, high, eventType);
    assert all[k] in log && low <= all[k].version;
    assert Ascending(log[1..]);
    if Selected(log[0], low, high, eventType) {
      if k == 0 {
        SelectAgrees(log, low, all[0].version, high, eventType);
      } else {
        assert all[0] == log[0] && all[0].version < all[k].version;
        assert all[1..] == Select(log[1..], low, high, eventType);
        SelectResumes(log[1..], low, high, eventType, k - 1);
        assert all[1..][k - 1..] == all[k..];
      }
    } else {
      SelectResumes(log[1..], low, high, eventType, k);
    }
  }

  // ----- Paging over a growing log -----

  /** One call: the log it finds, its budgets, and the page it returned. */
  datatype Call = Call(log: seq<Row>, maxResults: Option<nat>, maxBytes: Option<nat>, page: Outcome)

  /** Each call reads where the one before was cut, on the same log or a longer one; only the last may be complete. */
  ghost predicate Paged(calls: seq<Call>, q: Query, resume: Option<u64>)
  {
    calls != [] ==>
      var c := calls[0];
      && Ascending(c.log) && IsRangePage(c.page, c.log, q, resume, c.maxResults, c.maxBytes)
      && (|calls| > 1 ==> c.page.Truncated? && c.log <= calls[1].log && Paged(calls[1..], q, Some(c.page.cursor.next)))
  }

  function DataOf(calls: seq<Call>): seq<Row>
  {
    if calls == [] then [] else calls[0].page.data + DataOf(calls[1..])
  }

  /** What the calls have not returned yet of the log that the last of them found. */
  function Outstanding(last: Call, q: Query): seq<Row>
  {
    if last.page.Complete? then []
    else All(last.log, q, if last.page.cursor.RangeCursor? then Some(last.page.cursor.next) else None)
  }

  lemma {:induction false} PageLeavesRest(c: Call, q: Query, resume: Option<u64>, more: seq<Row>)
    requires Ascending(more) && c.log <= more && Ascending(c.log)
    requires IsRangePage(c.page, c.log, q, resume, c.maxResults, c.maxBytes) && c.page.Truncated?
    ensures c.page.data + All(more, q, Some(c.page.cursor.next)) == All(more, q, resume)
  {
    var low, high, k := Low(q, resume), High(q), |c.page.data|;
    var all, longer := All(c.log, q, resume), All(more, q, resume);
    SelectIsFrom(c.log, low, high, q.eventType);
    SelectConcat(c.log, more[|c.log|..], low, high, q.eventType);
    assert c.log + more[|c.log|..] == more;
    assert all <= longer;
    SelectResumes(more, low, high, q.eventType, k);
    assert all[k] == longer[k] && all[k].version < TWO_63 && c.page.data == longer[..k];
  }

  /**
   Whatever the budgets and however the log grows between pages, the pages followed so far and what the last
   cursor still selects make up the one-shot read of the log as of the last page.
   */
  lemma {:induction false} PagesConcatenateToRead(calls: seq<Call>, q: Query, resume: Option<u64>)
    requires calls != [] && Paged(calls, q, resume)
    ensures var last := calls[|calls| - 1]; DataOf(calls) + Outstanding(last, q) == All(last.log, q, resume)
    ensures Ascending(calls[|calls| - 1].log) && calls[0].log <= calls[|calls| - 1].log
    decreases |calls|
  {
    var c := calls[0];
    assert DataOf(calls) == c.page.data + DataOf(calls[1..]);
    if |calls| == 1 {
      assert DataOf(calls[1..]) == [];
      if c.page.Truncated? {
        PageLeavesRest(c, q, resume, c.log);
      }
    } else {
      PagesConcatenateToRead(calls[1..], q, Some(c.page.cursor.next));
      var last := calls[|calls| - 1];
      assert calls[1..][|calls[1..]| - 1] == last;
      PageLeavesRest(c, q, resume, last.log);
      assert c.page.data + (DataOf(calls[1..]) + Outstanding(last, q)) == DataOf(calls) + Outstanding(last, q);
    }
  }

  /**
   Following cursors until a page is complete collects everything the query selects from the log as of the
   last page; the paged form ignores `limit`, so it is the one-shot read exactly when the limit cuts nothing.
   */
  lemma {:induction false} CompletePagingIsOneRead(calls: seq<Call>, q: Query)
    requires calls != [] && Paged(calls, q, None) && calls[|calls| - 1].page.Complete?
    ensures var log := calls[|calls| - 1].log;
      var limit := if q.limit.Some? then AsI64(q.limit.value) else TWO_63 - 1;
      && DataOf(calls) == All(log, q, None)
      && (DataOf(calls) == ReadRange(log, q) <==> limit < 0 || |DataOf(calls)| <= limit)
  {
    PagesConcatenateToRead(calls, q, None);
    assert DataOf(calls) + [] == DataOf(calls);
  }

  /** A truncated page holds something exactly when its result budget is not zero. */
  lemma {:induction false} ProgressExactlyWithPositiveBudget(o: Outcome, events: seq<Row>, maxResults: Option<nat>,
                                                             maxBytes: Option<nat>)
    requires IsPage(o, events, maxResults, maxBytes) && o.Truncated?
    ensures o.data == [] <==> maxResults == Some(0)
  {
    if o.data == [] {
      assert !Takes(events, 0, maxResults, maxBytes);
    } else {
      assert Takes(events, 0, maxResults, maxBytes);
    }
  }

  /** With positive budgets on a fixed log, there are never more pages than rows, plus the last one. */
  lemma {:induction false} PagingTerminates(calls: seq<Call>, q: Query, resume: Option<u64>, log: seq<Row>)
    requires calls != [] && Paged(calls, q, resume)
    requires forall i | 0 <= i < |calls| :: calls[i].log == log && calls[i].maxResults != Some(0)
    ensures |calls| <= |All(log, q, resume)| + 1
    ensures |calls| == |All(log, q, resume)| + 1 ==> calls[|calls| - 1].page.Complete?
    decreases |calls|
  {
    var c := calls[0];
    if c.page.Truncated? {
      PageLeavesRest(c, q, resume, log);
      ProgressExactlyWithPositiveBudget(c.page, All(log, q, resume), c.maxResults, c.maxBytes);
      assert |c.page.data| < |All(log, q, resume)|;
      if |calls| > 1 {
        PagingTerminates(calls[1..], q, Some(c.page.cursor.next), log);
      }
    }
  }

  // ----- The iterator -----

  const ITER_BATCH_SIZE: nat := 100

  function Or(perCall: Option<nat>, default: Option<nat>): Option<nat>
  {
    if perCall.Some? then perCall else default
  }

  /** `Store::read_range_bounded`: decode the cursor, resolve the budgets, read one page. */
  method StoreReadRangeBounded(stream: string, branch: string, log: seq<Row>, q: Query, maxResults: Option<nat>,
                               maxBytes: Option<nat>,
                               defaultResults: Option<nat>, defaultBytes: Option<nat>, resume: Option<Cursor>)
    returns (r: Result<Outcome, ReadError>)
    requires Ascending(log)
    ensures r.Err? <==> resume.Some? && !resume.value.RangeCursor?
    ensures r.Ok? ==> IsRangePage(r.value, log, q, if resume.Some? then Some(resume.value.next) else None,
                                  Or(maxResults, defaultResults), Or(maxBytes, defaultBytes))
    ensures r.Ok? ==> IsFront(r.value, All(log, q, if resume.Some? then Some(resume.value.next) else None),
                              if maxResults.Some? then maxResults else defaultResults,
                              if maxBytes.Some? then maxBytes else defaultBytes)
  {
    var resumeVersion: Option<u64> := None;
    if resume.Some? {
      if !resume.value.RangeCursor? {
        return Err(CursorMismatch);
      }
      resumeVersion := Some(resume.value.next);
    }
    var o := ReadRangeBounded(stream, branch, log, q, resumeVersion, Or(maxResults, defaultResults),
      Or(maxBytes, defaultBytes));
    r := Ok(o);
  }

  lemma {:induction false} PagedAppend(calls: seq<Call>, q: Query, resume: Option<u64>, c: Call)
    requires calls != [] && Paged(calls, q, resume)
    requires calls[|calls| - 1].page.Truncated? && calls[|calls| - 1].log <= c.log
    requires calls[|calls| - 1].page.cursor.RangeCursor?
    requires Ascending(c.log)
    requires IsRangePage(c.page, c.log, q, Some(calls[|calls| - 1].page.cursor.next), c.maxResults, c.maxBytes)
    ensures Paged(calls + [c], q, resume) && DataOf(calls + [c]) == DataOf(calls) + c.page.data
    decreases |calls|
  {
    assert calls[0].page.Truncated? ==> calls[0].page.cursor.RangeCursor?;
    hide IsRangePage, Ascending;
    assert (calls + [c])[1..] == calls[1..] + [c];
    if |calls| == 1 {
      assert (calls + [c])[1..] == [c] && [c][1..] == [] && calls[1..] == [];
      assert DataOf([c]) == c.page.data + DataOf([]) && DataOf(calls) == calls[0].page.data;
    } else {
      assert calls[1..][|calls[1..]| - 1] == calls[|calls| - 1];
      PagedAppend(calls[1..], q, Some(calls[0].page.cursor.next), c);
      assert DataOf(calls + [c]) == calls[0].page.data + (DataOf(calls[1..]) + c.page.data);
    }
  }

  /** `log` and `failure` are what the store holds, and whether it fails, at the moment of a fetch. */
  class RangeIter {
    const stream: string
    const branch: string
    const query: Query
    const defaultBytes: Option<nat>
    var resume: Option<Cursor>
    var buffer: seq<Row>
    var exhausted: bool
    ghost var calls: seq<Call>
    ghost var emitted: seq<Row>
    ghost var failed: bool

    /** The log as of the last fetch. */
    ghost function Seen(): seq<Row>
      reads this
    {
      if calls == [] then [] else calls[|calls| - 1].log
    }

    ghost predicate Done()
      reads this
    {
      exhausted && buffer == []
    }

    /** The pages fetched so far, and how much of them was emitted. */
    ghost predicate Follows()
      reads this
    {
      Paged(calls, query, None) && emitted + buffer == DataOf(calls)
    }

    ghost predicate Valid()
      reads this
    {
      && (failed ==> Done())
      && Follows()
      && (calls == [] ==> resume == None && (exhausted ==> failed))
      && (calls != [] ==>
            var last := calls[|calls| - 1];
            && (!exhausted ==> last.page.Truncated? && last.page.cursor.RangeCursor?)
            && (!exhausted ==> resume == Some(last.page.cursor))
            && (exhausted && !failed ==> last.page.Complete?))
    }

    constructor (stream: string, branch: string, query: Query, defaultBytes: Option<nat>)
      ensures Valid() && emitted == [] && !failed && !exhausted && calls == []
    {
      this.stream, this.branch, this.query, this.defaultBytes := stream, branch, query, defaultBytes;
      resume, buffer, exhausted := None, [], false;
      calls, emitted, failed := [], [], false;
    }

    method FetchBatch(log: seq<Row>, failure: Option<nat>) returns (r: Result<Unit, ReadError>)
      requires Valid() && !exhausted && buffer == [] && Ascending(log) && Seen() <= log
      modifies this
      ensures Follows() && emitted == old(emitted)
      ensures failure.Some? ==> r.Err? && calls == old(calls) && failed && !exhausted && buffer == [] && resume == None
      ensures failure.None?
              ==> r.Ok? && Valid() && !failed && Seen() == log && calls != [] && (buffer == [] ==> exhausted)
    {
      hide All, Select, IsRangePage, Paged, DataOf, Ascending;
      var from := resume;
      resume := None;
      if failure.Some? {
        failed := true;
        return Err(StorageError(failure.value));
      }
      var read := StoreReadRangeBounded(stream, branch, log, query, Some(ITER_BATCH_SIZE), None, None, defaultBytes,
        from);
      var page := read.value;  // its own cursors always decode to a range
      ghost var c := Call(log, Some(ITER_BATCH_SIZE), defaultBytes, page);
      if calls != [] {
        PagedAppend(calls, query, None, c);
      } else {
        assert calls + [c] == [c];
        NothingPaged(query);
        PagedOnce(c, query);
      }
      ProgressIfTruncated(page, log, query, if from.Some? then Some(from.value.next) else None, defaultBytes);
      calls := calls + [c];
      match page {
        case Complete(events) =>
          buffer := buffer + events;
          exhausted := true;
        case Truncated(data, cursor, _) =>
          buffer := buffer + data;
          resume := Some(cursor);
      }
      assert emitted + buffer == DataOf(calls);
      r := Ok(Unit.Unit);
    }

    /**
     Each item is the next row of the read; the end is reached only when the whole read of the log as of the
     last fetch was emitted; after the end or an error the iterator yields nothing for ever.
     */
    method Next(log: seq<Row>, failure: Option<nat>) returns (item: Option<Result<Row, ReadError>>)
      requires Valid() && Ascending(log) && Seen() <= log
      modifies this
      ensures Valid()
      ensures old(Done()) ==> item == None && unchanged(this)
      ensures item.Some? && item.value.Ok? ==> !failed && emitted == old(emitted) + [item.value.value]
      ensures item.Some? && item.value.Err? ==> Done() && failed && emitted == old(emitted)
      ensures item.None? ==> Done() && emitted == old(emitted) && (!failed ==> emitted == All(Seen(), query, None))
      ensures emitted <= All(Seen(), query, None)
    {
      hide Paged, DataOf, All, Ascending;
      if exhausted && buffer == [] {
        EmitsTheRead();
        return None;
      }
      if buffer == [] {
        var fetched := FetchBatch(log, failure);
        if fetched.Err? {
          exhausted := true;
          EmitsTheRead();
          return Some(Err(fetched.error));
        }
        if buffer == [] {
          exhausted := true;
          EmitsTheRead();
          return None;
        }
      }
      item := Some(Ok(buffer[0]));
      emitted := emitted + [buffer[0]];
      buffer := buffer[1..];
      assert emitted + buffer == DataOf(calls);
      EmitsTheRead();
    }

    lemma {:induction false} EmitsTheRead()
      requires Valid()
      ensures emitted <= All(Seen(), query, None)
      ensures Done() && !failed ==> emitted == All(Seen(), query, None)
    {
      if calls != [] {
        PagesConcatenateToRead(calls, query, None);
        var last := calls[|calls| - 1];
        assert emitted + (buffer + Outstanding(last, query)) == All(last.log, query, None);
        if Done() && !failed {
          assert emitted + ([] + []) == emitted;
        }
      }
    }
  }

  lemma {:induction false} NothingPaged(q: Query)
    ensures Paged([], q, None) && DataOf([]) == []
  {
  }

  lemma {:induction false} PagedOnce(c: Call, q: Query)
    requires Ascending(c.log) && IsRangePage(c.page, c.log, q, None, c.maxResults, c.maxBytes)
    ensures Paged([c], q, None) && DataOf([c]) == c.page.data
  {
    assert [c][1..] == [] && DataOf([c]) == c.page.data + DataOf([]);
  }

  lemma {:induction false} ProgressIfTruncated(page: Outcome, log: seq<Row>, q: Query, resume: Option<u64>,
                                               maxBytes: Option<nat>)
    requires IsRangePage(page, log, q, resume, Some(ITER_BATCH_SIZE), maxBytes)
    ensures page.data == [] ==> page.Complete?
  {
    if page.Truncated? {
      ProgressExactlyWithPositiveBudget(page, All(log, q, resume), Some(ITER_BATCH_SIZE), maxBytes);
    }
  }

  // ----- Correlation reads -----

  /** `SELECT ... WHERE correlation_id = c AND (after IS NULL OR id > after) ORDER BY id`. */
  function Correlated(rows: seq<Row>, correlation: nat, after: Option<nat>): seq<Row>
  {
    if rows == [] then []
    else
      var rest := Correlated(rows[1..], correlation, after);
      if Correlates(rows[0], correlation, after) then [rows[0]] + rest else rest
  }

  predicate Correlates(e: Row, correlation: nat, after: Option<nat>)
  {
    e.correlation == Some(correlation) && (after.Some? ==> e.id > after.value)
  }

  ghost predicate AreMatches(rows: seq<Row>, correlation: nat, after: Option<nat>, events: seq<Row>)
  {
    forall e :: e in events <==>
      e in rows && e.correlation == Some(correlation) && (after.Some? ==> e.id > after.value)
  }

  method ReadByCorrelationBounded(rows: seq<Row>, correlation: nat, after: Option<nat>, maxResults: Option<nat>,
                                  maxBytes: Option<nat>)
    returns (o: Outcome)
    ensures IsCorrelationPage(o, Correlated(rows, correlation, after), correlation, maxResults, maxBytes)
    ensures IsFront(o, Correlated(rows, correlation, after), maxResults, maxBytes)
    ensures AreMatches(rows, correlation, after, Correlated(rows, correlation, after))
  {
    CorrelatedElements(rows, correlation, after);
    forall p: Outcome | IsPage(p, Correlated(rows, correlation, after), maxResults, maxBytes) {
      PageIsFront(p, Correlated(rows, correlation, after), maxResults, maxBytes);
    }
    hide Correlated, IsCut, IsFront, AreMatches;
    var found := Correlated(rows, correlation, after);
    var events, exceedCount := FillPage(found, maxResults, maxBytes);
    CutIsWithin(found, |events|, maxResults, maxBytes);
    if |events| < |found| {
      var last := if events == [] then 0 else events[|events| - 1].id;
      return Truncated(events, CorrelationCursor(correlation, last), if exceedCount then ResultCount else ByteSize);
    }
    o := Complete(events);
  }

  lemma {:induction false} CorrelatedElements(rows: seq<Row>, correlation: nat, after: Option<nat>)
    ensures forall e :: e in Correlated(rows, correlation, after) <==>
      e in rows && e.correlation == Some(correlation) && (after.Some? ==> e.id > after.value)
  {
    if rows != [] {
      CorrelatedElements(rows[1..], correlation, after);
      assert rows == [rows[0]] + rows[1..];
    }
  }

  lemma {:induction false} CorrelatedAscends(rows: seq<Row>, correlation: nat, after: Option<nat>)
    requires ById(rows)
    ensures ById(Correlated(rows, correlation, after))
    ensures forall e :: e in Correlated(rows, correlation, after) <==>
      e in rows && e.correlation == Some(correlation) && (after.Some? ==> e.id > after.value)
  {
    CorrelatedElements(rows, correlation, after);
    if rows != [] {
      TailById(rows);
      CorrelatedAscends(rows[1..], correlation, after);
      hide ById;
      var rest := Correlated(rows[1..], correlation, after);
      forall j | 0 <= j < |rest| ensures rows[0].id < rest[j].id { assert rest[j] in rows[1..]; }
      ConsById(rows[0], rest);
    }
  }

  lemma {:induction false} TailById(rows: seq<Row>)
    requires ById(rows) && rows != []
    ensures ById(rows[1..]) && forall e | e in rows[1..] :: rows[0].id < e.id
  {
  }

  lemma {:induction false} ConsById(e: Row, rest: seq<Row>)
    requires ById(rest) && forall j | 0 <= j < |rest| :: e.id < rest[j].id
    ensures ById([e] + rest)
  {
  }

  lemma {:induction false} CorrelatedAfterFirst(rows: seq<Row>, correlation: nat, after: Option<nat>, later: nat)
    requires after.Some? ==> after.value <= later
    requires forall i | 0 <= i < |rows| :: later < rows[i].id
    ensures Correlated(rows, correlation, Some(later)) == Correlated(rows, correlation, after)
  {
    if rows != [] {
      CorrelatedAfterFirst(rows[1..], correlation, after, later);
    }
  }

  /** Resuming after the `k`-th match gives the matches from `k + 1` on. */
  lemma {:induction false} CorrelatedResumes(rows: seq<Row>, correlation: nat, after: Option<nat>, k: nat)
    requires ById(rows) && k < |Correlated(rows, correlation, after)|
    ensures var found := Correlated(rows, correlation, after);
            Correlated(rows, correlation, Some(found[k].id)) == found[k + 1..]
  {
    hide Correlated, ById;
    var found := Correlated(rows, correlation, after);
    MatchFacts(rows, correlation, after, k);
    var rest, last := Correlated(rows[1..], correlation, after), Some(found[k].id);
    CorrelatedStep(rows, correlation, after);
    CorrelatedStep(rows, correlation, last);
    if !Correlates(rows[0], correlation, after) {
      CorrelatedResumes(rows[1..], correlation, after, k);
    } else {
      TailOfCons(found, rows[0], rest, k);
      if k == 0 {
        TailIsLater(rows);
        CorrelatedAfterFirst(rows[1..], correlation, after, rows[0].id);
      } else {
        CorrelatedResumes(rows[1..], correlation, after, k - 1);
      }
    }
  }

  lemma {:induction false} MatchFacts(rows: seq<Row>, correlation: nat, after: Option<nat>, k: nat)
    requires ById(rows) && k < |Correlated(rows, correlation, after)|
    ensures var found := Correlated(rows, correlation, after);
      rows != [] && ById(rows[1..]) && (after.Some? ==> found[k].id > after.value)
        && (k > 0 ==> found[0].id < found[k].id)
  {
    var found := Correlated(rows, correlation, after);
    CorrelatedAscends(rows, correlation, after);
    FirstIsLeast(found, k);
    assert found[k] in found;
  }

  lemma {:induction false} TailIsLater(rows: seq<Row>)
    requires ById(rows) && rows != []
    ensures forall i | 0 <= i < |rows[1..]| :: rows[0].id < rows[1..][i].id
  {
  }

  lemma {:induction false} TailOfCons(found: seq<Row>, head: Row, rest: seq<Row>, k: nat)
    requires found == [head] + rest && k < |found|
    ensures k == 0 ==> found[k + 1..] == rest
    ensures k > 0 ==> rest[k - 1] == found[k] && rest[k - 1 + 1..] == found[k + 1..]
  {
  }

  lemma {:induction false} CorrelatedStep(rows: seq<Row>, correlation: nat, after: Option<nat>)
    requires rows != []
    ensures Correlates(rows[0], correlation, after) ==>
      Correlated(rows, correlation, after) == [rows[0]] + Correlated(rows[1..], correlation, after)
    ensures !Correlates(rows[0], correlation, after) ==>
      Correlated(rows, correlation, after) == Correlated(rows[1..], correlation, after)
  {
  }

  lemma {:induction false} FirstIsLeast(rows: seq<Row>, k: nat)
    requires ById(rows) && k < |rows|
    ensures k == 0 || rows[0].id < rows[k].id
  {
  }

  /** One call of a correlation read: its budgets and the page it returned. */
  datatype CorrelationCall = CorrelationCall(maxResults: Option<nat>, maxBytes: Option<nat>, page: Outcome)

  /** Calls of one correlation read on a fixed store, each resumed from the cursor before. */
  ghost predicate CorrelationPaged(calls: seq<CorrelationCall>, rows: seq<Row>, correlation: nat, after: Option<nat>)
  {
    calls != [] ==>
      var c := calls[0];
      && IsCorrelationPage(c.page, Correlated(rows, correlation, after), correlation, c.maxResults, c.maxBytes)
      && (|calls| > 1 ==>
            && c.page.Truncated?
            && CorrelationPaged(calls[1..], rows, correlation, Some(c.page.cursor.last)))
  }

  function PagesData(calls: seq<CorrelationCall>): seq<Row>
  {
    if calls == [] then [] else calls[0].page.data + PagesData(calls[1..])
  }

  /** What a cursor of the last page still selects. */
  function Unread(last: CorrelationCall, rows: seq<Row>, correlation: nat): seq<Row>
  {
    if last.page.Truncated? && last.page.cursor.CorrelationCursor?
    then Correlated(rows, correlation, Some(last.page.cursor.last)) else []
  }

  /**
   With result budgets that are not zero, the pages so far and what is unread are the matches, strictly
   ascending by id; complete paging returns every match once.
   */
  lemma {:induction false} CorrelationPagingIsComplete(calls: seq<CorrelationCall>, rows: seq<Row>, correlation: nat,
                                                       after: Option<nat>)
    requires ById(rows) && calls != [] && CorrelationPaged(calls, rows, correlation, after)
    requires forall c | c in calls :: c.maxResults != Some(0)
    ensures var found := Correlated(rows, correlation, after);
            && ById(found) && PagesData(calls) + Unread(calls[|calls| - 1], rows, correlation) == found
            && (calls[|calls| - 1].page.Complete? ==> PagesData(calls) == found)
    ensures |calls| <= |Correlated(rows, correlation, after)| + 1
    decreases |calls|
  {
    hide Correlated, IsCorrelationPage, ById;
    var c, found := calls[0], Correlated(rows, correlation, after);
    assert c in calls;
    CorrelatedAscends(rows, correlation, after);
    CallLeavesRest(c, rows, correlation, after);
    if |calls| == 1 {
      assert PagesData(calls[1..]) == [] && PagesData(calls) == c.page.data;
    } else {
      var last := Some(c.page.cursor.last);
      assert forall d | d in calls[1..] :: d in calls;
      CorrelationPagingIsComplete(calls[1..], rows, correlation, last);
      assert calls[1..][|calls[1..]| - 1] == calls[|calls| - 1];
      Joined(c.page.data, PagesData(calls[1..]), Unread(calls[|calls| - 1], rows, correlation));
    }
  }

  lemma {:induction false} Joined(a: seq<Row>, b: seq<Row>, c: seq<Row>)
    ensures a + b + c == a + (b + c)
  {
  }

  /** A page and what its cursor still selects are what the call selected. */
  lemma {:induction false} CallLeavesRest(c: CorrelationCall, rows: seq<Row>, correlation: nat, after: Option<nat>)
    requires ById(rows) && c.maxResults != Some(0)
    requires IsCorrelationPage(c.page, Correlated(rows, correlation, after), correlation, c.maxResults, c.maxBytes)
    ensures c.page.data + Unread(c, rows, correlation) == Correlated(rows, correlation, after)
    ensures c.page.Truncated? ==> c.page.cursor.CorrelationCursor? && c.page.data != []
  {
    hide Correlated, Takes, ById;
    var page, found := c.page, Correlated(rows, correlation, after);
    if page.Truncated? {
      ProgressExactlyWithPositiveBudget(page, found, c.maxResults, c.maxBytes);
      CorrelatedResumes(rows, correlation, after, |page.data| - 1);
    }
  }

  lemma {:induction false} ZeroBudgetTakesNothing(events: seq<Row>, maxBytes: Option<nat>)
    requires events != []
    ensures !Takes(events, 0, Some(0), maxBytes)
  {
  }

  /** A page with result budget zero loses the position: its cursor starts over, whatever was read before. */
  lemma {:induction false} ZeroBudgetStartsOver(page: Outcome, rows: seq<Row>, correlation: nat, after: Option<nat>,
                                                maxBytes: Option<nat>)
    requires IsCorrelationPage(page, Correlated(rows, correlation, after), correlation, Some(0), maxBytes)
    requires Correlated(rows, correlation, after) != [] && forall i | 0 <= i < |rows| :: rows[i].id > 0
    ensures page.Truncated?
    ensures Correlated(rows, correlation, Some(page.cursor.last)) == Correlated(rows, correlation, None)
  {
    ZeroBudgetTakesNothing(Correlated(rows, correlation, after), maxBytes);
    CorrelatedAfterFirst(rows, correlation, None, 0);
  }
}
