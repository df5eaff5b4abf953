/**
 `CausationIter` of src/store.rs: the causation walk, fetched in batches of a hundred and yielded event by event.
 The store does not change while it is consumed.
 */
module CausationIterator {
  import opened Types
  import opened Events
  import opened Walk
  import opened WalkPaging
  import opened PagingLimits

  const ITER_BATCH_SIZE: nat := 100

  datatype WalkError = StorageError(code: nat)

  function BatchBudget(defaultBytes: Option<nat>): nat -> Budget
  {
    n => Budget(Some(ITER_BATCH_SIZE), defaultBytes)
  }

  /** Pages from the start on, possibly none yet. */
  ghost predicate PagedSoFar(expand: Expand, start: nat, maxDepth: nat, budgets: nat -> Budget, pages: seq<Outcome>)
  {
    pages == [] || Paged(expand, start, maxDepth, None, budgets, 0, pages)
  }

  lemma {:induction false} PagedAppend(expand: Expand, start: nat, maxDepth: nat, resume: Option<Cursor>,
                                       budgets: nat -> Budget, n: nat, pages: seq<Outcome>, page: Outcome)
    requires Paged(expand, start, maxDepth, resume, budgets, n, pages) && pages[|pages| - 1].Truncated?
    requires page == Page(expand, start, maxDepth, Some(pages[|pages| - 1].cursor), budgets(n + |pages|))
    ensures Paged(expand, start, maxDepth, resume, budgets, n, pages + [page])
    ensures DataOf(pages + [page]) == DataOf(pages) + page.data
    decreases |pages|
  {
    hide Page;
    assert (pages + [page])[1..] == pages[1..] + [page];
    if |pages| == 1 {
      assert pages[1..] == [] && [page][1..] == [] && DataOf([page]) == page.data + DataOf([]);
      assert DataOf(pages + [page]) == pages[0].data + DataOf([page]);
    } else {
      assert pages[1..][|pages[1..]| - 1] == pages[|pages| - 1];
      PagedAppend(expand, start, maxDepth, Some(pages[0].cursor), budgets, n + 1, pages[1..], page);
      assert DataOf(pages + [page]) == pages[0].data + (DataOf(pages[1..]) + page.data);
    }
  }

  lemma {:induction false} FirstPage(expand: Expand, start: nat, maxDepth: nat, budgets: nat -> Budget, page: Outcome)
    requires page == Page(expand, start, maxDepth, None, budgets(0))
    ensures Paged(expand, start, maxDepth, None, budgets, 0, [page]) && DataOf([page]) == page.data
  {
    hide Page;
    assert [page][1..] == [] && DataOf([page]) == page.data + DataOf([]);
  }

  /** A cut page is never empty. */
  lemma {:induction false} CutPageIsNotEmpty(expand: Expand, start: nat, maxDepth: nat, resume: Option<Cursor>,
                                             budget: Budget)
    ensures var page := Page(expand, start, maxDepth, resume, budget); page.data == [] ==> page.Complete?
  {
    PageAdvances(expand, start, maxDepth, resume, budget);
    var o := OriginOf(start, resume);
    var levels := Levels(expand, maxDepth, o.frontier, o.seen, o.depth);
    var k := Fit([], levels, budget);
    if k > 0 {
      assert levels[..k][0] == levels[0] && Flatten(levels[..k]) == levels[0] + Flatten(levels[..k][1..]);
    }
  }

  class CausationIter {
    const rows: seq<Row>
    const start: nat
    const dir: Direction
    const maxDepth: nat
    const sampling: Sampling
    const defaultBytes: Option<nat>
    var resume: Option<Cursor>
    var buffer: seq<Row>
    var exhausted: bool
    ghost var pages: seq<Outcome>
    ghost var emitted: seq<Row>
    ghost var failed: bool

    ghost function Expand(): Expand
    {
      Expander(rows, dir, sampling, maxDepth)
    }

    ghost predicate Done()
      reads this
    {
      exhausted && buffer == []
    }

    /** The pages fetched so far, and how much of them was emitted. */
    ghost predicate Follows()
      reads this
    {
      PagedSoFar(Expand(), start, maxDepth, BatchBudget(defaultBytes), pages) && emitted + buffer == DataOf(pages)
    }

    ghost predicate Valid()
      reads this
    {
      && ById(rows) && (failed ==> Done()) && Follows()
      && (pages == [] ==> resume == None && (exhausted ==> failed))
      && (pages != [] ==>
            var last := pages[|pages| - 1];
            && (!exhausted ==> last.Truncated? && resume == Some(last.cursor))
            && (exhausted && !failed ==> last.Complete?))
    }

    constructor (rows: seq<Row>, start: nat, dir: Direction, maxDepth: nat, sampling: Sampling,
                 defaultBytes: Option<nat>)
      requires ById(rows)
      ensures Valid() && emitted == [] && !failed && !exhausted
      ensures this.rows == rows && this.start == start && this.dir == dir && this.maxDepth == maxDepth
      ensures this.sampling == sampling && this.defaultBytes == defaultBytes
    {
      this.rows, this.start, this.dir, this.maxDepth := rows, start, dir, maxDepth;
      this.sampling, this.defaultBytes := sampling, defaultBytes;
      resume, buffer, exhausted := None, [], false;
      pages, emitted, failed := [], [], false;
    }

    method FetchBatch(failure: Option<nat>) returns (r: Result<Unit, WalkError>)
      requires Valid() && !exhausted && buffer == []
      modifies this
      ensures Follows() && emitted == old(emitted)
      ensures failure.Some? ==> r.Err? && pages == old(pages) && failed && !exhausted && buffer == [] && resume == None
      ensures failure.None? ==> r.Ok? && Valid() && !failed && pages != [] && (buffer == [] ==> exhausted)
    {
      hide Page, Paged, DataOf, ById, Expander, IsWalk, IsCutAt, IsBound, IsOrigin;
      var from := resume;
      resume := None;
      if failure.Some? {
        failed := true;
        return Err(StorageError(failure.value));
      }
      var budget := Budget(Some(ITER_BATCH_SIZE), defaultBytes);
      ghost var bound, origin, walk, cut;
      var page;
      page, bound, origin, walk, cut := WalkCausationBounded(rows, start, dir, maxDepth, sampling, from, budget);
      CutPageIsNotEmpty(Expand(), start, maxDepth, from, budget);
      if pages == [] {
        FirstPage(Expand(), start, maxDepth, BatchBudget(defaultBytes), page);
        assert pages + [page] == [page] && emitted + page.data == DataOf([page]) by { NoPages(); }
      } else {
        PagedAppend(Expand(), start, maxDepth, None, BatchBudget(defaultBytes), 0, pages, page);
      }
      pages := pages + [page];
      match page {
        case Complete(events) =>
          buffer := buffer + events;
          exhausted := true;
        case Truncated(data, cursor, _) =>
          buffer := buffer + data;
          resume := Some(cursor);
      }
      assert emitted + buffer == DataOf(pages);
      r := Ok(Unit.Unit);
    }

    /**
     As `RangeIter.Next`: the next event of the pages, an error once, and nothing for ever after the end or an error.
     */
    method Next(failure: Option<nat>) returns (item: Option<Result<Row, WalkError>>)
      requires Valid()
      modifies this
      ensures Valid()
      ensures old(Done()) ==> item == None && unchanged(this)
      ensures item.Some? && item.value.Ok? ==> !failed && emitted == old(emitted) + [item.value.value]
      ensures item.Some? && item.value.Err? ==> Done() && failed && emitted == old(emitted)
      ensures item.None? ==> Done() && emitted == old(emitted)
    {
      hide PagedSoFar, DataOf, ById, Expander;
      if exhausted && buffer == [] {
        return None;
      }
      if buffer == [] {
        var fetched := FetchBatch(failure);
        if fetched.Err? {
          exhausted := true;
          return Some(Err(fetched.error));
        }
        if buffer == [] {
          exhausted := true;
          return None;
        }
      }
      item := Some(Ok(buffer[0]));
      emitted := emitted + [buffer[0]];
      buffer := buffer[1..];
      assert emitted + buffer == DataOf(pages);
    }

    /**
     Forward and Backward on an acyclic store: what was emitted is a front of the walk without a budget,
     without repetition, and all of it once the iterator has ended without an error.
     */
    lemma {:induction false} EmitsTheWalk()
      requires Valid() && Acyclic(rows) && dir != Both && LimitHolds(rows, start, dir, sampling, maxDepth)
      ensures var walk := Flatten(FullWalk(rows, start, dir, sampling, maxDepth));
              emitted <= walk && DistinctIds(walk) && (Done() && !failed ==> emitted == walk)
    {
      hide Paged, Acyclic, ById, DistinctIds, FullWalk, LimitHolds;
      if pages != [] {
        PagesConcatenateToWalk(rows, start, dir, maxDepth, sampling, BatchBudget(defaultBytes), pages);
      } else {
        NoPages();
        PagesConcatenateToWalk(rows, start, dir, maxDepth, sampling, BatchBudget(defaultBytes), [FirstOf()]);
      }
    }

    /**
     An exhaustive walk in direction Both that ended without an error was emitted as it is exactly when the
     iterator had nothing to come back to.
     */
    lemma {:induction false} EmitsBothExactly()
      requires Valid() && Done() && !failed && dir == Both && sampling == Exhaustive
      ensures emitted == Flatten(FullWalk(rows, start, Both, Exhaustive, maxDepth))
         <==> NothingToComeBackTo(rows, start, maxDepth, pages)
    {
      hide Paged, ById, FullWalk, NothingToComeBackTo;
      BothPagingExactly(rows, start, maxDepth, BatchBudget(defaultBytes), pages);
      assert emitted + [] == emitted;
    }

    ghost function FirstOf(): (page: Outcome)
      ensures Paged(Expand(), start, maxDepth, None, BatchBudget(defaultBytes), 0, [page])
    {
      var page := Page(Expand(), start, maxDepth, None, BatchBudget(defaultBytes)(0));
      FirstPage(Expand(), start, maxDepth, BatchBudget(defaultBytes), page);
      page
    }
  }

  lemma {:induction false} NoPages()
    ensures DataOf([]) == []
  {
  }
}
