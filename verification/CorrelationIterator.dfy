/**
 `CorrelationIter` of src/store.rs: the events of one correlation, fetched in batches of a hundred and yielded one by
 one.  The store does not change while it is consumed.
 */
module CorrelationIterator {
  import opened Types
  import opened Events
  import opened Reads

  lemma {:induction false} CorrelationPagedAppend(calls: seq<CorrelationCall>, rows: seq<Row>, correlation: nat,
                                                  after: Option<nat>, c: CorrelationCall)
    requires calls != [] && CorrelationPaged(calls, rows, correlation, after)
    requires var last := calls[|calls| - 1].page;
             && last.Truncated? && last.cursor.CorrelationCursor?
             && IsCorrelationPage(c.page, Correlated(rows, correlation, Some(last.cursor.last)), correlation,
                                  c.maxResults, c.maxBytes)
    ensures CorrelationPaged(calls + [c], rows, correlation, after)
    ensures PagesData(calls + [c]) == PagesData(calls) + c.page.data
    decreases |calls|
  {
    hide Correlated, IsPage;
    assert (calls + [c])[1..] == calls[1..] + [c];
    if |calls| == 1 {
      assert calls[1..] == [] && [c][1..] == [] && PagesData([c]) == c.page.data + PagesData([]);
      assert PagesData(calls + [c]) == calls[0].page.data + PagesData([c]);
    } else {
      assert calls[1..][|calls[1..]| - 1] == calls[|calls| - 1];
      CorrelationPagedAppend(calls[1..], rows, correlation, Some(calls[0].page.cursor.last), c);
      assert PagesData(calls + [c]) == calls[0].page.data + (PagesData(calls[1..]) + c.page.data);
    }
  }

  lemma {:induction false} FirstCall(rows: seq<Row>, correlation: nat, c: CorrelationCall)
    requires IsCorrelationPage(c.page, Correlated(rows, correlation, None), correlation, c.maxResults, c.maxBytes)
    ensures CorrelationPaged([c], rows, correlation, None) && PagesData([c]) == c.page.data
  {
    hide Correlated, IsPage;
    assert [c][1..] == [] && PagesData([c]) == c.page.data + PagesData([]);
  }

  lemma {:induction false} NoCalls(rows: seq<Row>, correlation: nat)
    ensures CorrelationPaged([], rows, correlation, None) && PagesData([]) == []
  {
  }

  class CorrelationIter {
    const rows: seq<Row>
    const correlation: nat
    const defaultBytes: Option<nat>
    var resume: Option<Cursor>
    var buffer: seq<Row>
    var exhausted: bool
    ghost var calls: seq<CorrelationCall>
    ghost var emitted: seq<Row>
    ghost var failed: bool

    ghost predicate Done()
      reads this
    {
      exhausted && buffer == []
    }

    /** The pages fetched so far, and how much of them was emitted. */
    ghost predicate Follows()
      reads this
    {
      && CorrelationPaged(calls, rows, correlation, None) && emitted + buffer == PagesData(calls)
      && forall c | c in calls :: c.maxResults == Some(ITER_BATCH_SIZE)
    }

    ghost predicate Valid()
      reads this
    {
      && ById(rows) && (failed ==> Done()) && Follows()
      && (calls == [] ==> resume == None && (exhausted ==> failed))
      && (calls != [] ==>
            var last := calls[|calls| - 1].page;
            && (!exhausted ==> last.Truncated? && last.cursor.CorrelationCursor? && resume == Some(last.cursor))
            && (exhausted && !failed ==> last.Complete?))
    }

    constructor (rows: seq<Row>, correlation: nat, defaultBytes: Option<nat>)
      requires ById(rows)
      ensures Valid() && emitted == [] && !failed && !exhausted
      ensures this.rows == rows && this.correlation == correlation && this.defaultBytes == defaultBytes
    {
      this.rows, this.correlation, this.defaultBytes := rows, correlation, defaultBytes;
      resume, buffer, exhausted := None, [], false;
      calls, emitted, failed := [], [], false;
      NoCalls(rows, correlation);
    }

    method FetchBatch(failure: Option<nat>) returns (r: Result<Unit, ReadError>)
      requires Valid() && !exhausted && buffer == []
      modifies this
      ensures Follows() && emitted == old(emitted)
      ensures failure.Some? ==> r.Err? && calls == old(calls) && failed && !exhausted && buffer == [] && resume == None
      ensures failure.None? ==> r.Ok? && Valid() && !failed && calls != [] && (buffer == [] ==> exhausted)
    {
      hide Correlated, CorrelationPaged, PagesData, ById, Takes, IsFront, AreMatches;
      var from := resume;
      resume := None;
      if failure.Some? {
        failed := true;
        return Err(StorageError(failure.value));
      }
      var after := if from.Some? then Some(from.value.last) else None;
      var page := ReadByCorrelationBounded(rows, correlation, after, Some(ITER_BATCH_SIZE), defaultBytes);
      ghost var c := CorrelationCall(Some(ITER_BATCH_SIZE), defaultBytes, page);
      if page.Truncated? {
        ProgressExactlyWithPositiveBudget(page, Correlated(rows, correlation, after), Some(ITER_BATCH_SIZE),
                                          defaultBytes);
      }
      if calls == [] {
        FirstCall(rows, correlation, c);
        NoCalls(rows, correlation);
        assert calls + [c] == [c];
      } else {
        CorrelationPagedAppend(calls, rows, correlation, None, c);
      }
      calls := calls + [c];
      match page {
        case Complete(events) =>
          buffer := buffer + events;
          exhausted := true;
        case Truncated(data, cursor, _) =>
          buffer := buffer + data;
          resume := Some(cursor);
      }
      assert emitted + buffer == PagesData(calls);
      r := Ok(Unit.Unit);
    }

    /**
     Each item is the next match by id; the end is reached only when all were emitted; after the end or an error
     the iterator yields nothing for ever.
     */
    method Next(failure: Option<nat>) returns (item: Option<Result<Row, ReadError>>)
      requires Valid()
      modifies this
      ensures Valid()
      ensures old(Done()) ==> item == None && unchanged(this)
      ensures item.Some? && item.value.Ok? ==> !failed && emitted == old(emitted) + [item.value.value]
      ensures item.Some? && item.value.Err? ==> Done() && failed && emitted == old(emitted)
      ensures item.None? ==> Done() && emitted == old(emitted)
      ensures item.None? && !failed ==> emitted == Correlated(rows, correlation, None)
      ensures emitted <= Correlated(rows, correlation, None)
    {
      hide CorrelationPaged, PagesData, Correlated, ById;
      if exhausted && buffer == [] {
        EmitsTheMatches();
        return None;
      }
      if buffer == [] {
        var fetched := FetchBatch(failure);
        if fetched.Err? {
          exhausted := true;
          EmitsTheMatches();
          return Some(Err(fetched.error));
        }
        if buffer == [] {
          exhausted := true;
          EmitsTheMatches();
          return None;
        }
      }
      item := Some(Ok(buffer[0]));
      emitted := emitted + [buffer[0]];
      buffer := buffer[1..];
      assert emitted + buffer == PagesData(calls);
      EmitsTheMatches();
    }

    lemma {:induction false} EmitsTheMatches()
      requires Valid()
      ensures emitted <= Correlated(rows, correlation, None)
      ensures Done() && !failed ==> emitted == Correlated(rows, correlation, None)
    {
      hide Correlated, CorrelationPaged, PagesData, Unread;
      if calls == [] {
        NoCalls(rows, correlation);
      } else {
        CorrelationPagingIsComplete(calls, rows, correlation, None);
        assert emitted + (buffer + Unread(calls[|calls| - 1], rows, correlation))
               == Correlated(rows, correlation, None);
      }
    }
  }
}
