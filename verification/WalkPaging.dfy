/**
 Following resume cursors (src/cross_stream.rs): on an acyclic store the pages of a Forward or
 Backward walk concatenate to the walk without a budget.
 */
module WalkPaging {
  import opened Types
  import opened Events
  import opened Walk

  // ----- Causes and cycles -----

  function CauseOf(rows: seq<Row>, id: nat): Option<nat>
  {
    if rows == [] then None
    else if rows[0].id == id then rows[0].cause
    else CauseOf(rows[1..], id)
  }

  /** The id `n` causes above `id`. */
  function Up(rows: seq<Row>, id: nat, n: nat): Option<nat>
    decreases n
  {
    if n == 0 then Some(id)
    else match CauseOf(rows, id)
      case None => None
      case Some(c) => Up(rows, c, n - 1)
  }

  ghost predicate Acyclic(rows: seq<Row>)
  {
    forall id: nat, n: nat :: n > 0 ==> Up(rows, id, n) != Some(id)
  }

  lemma {:induction false} CauseOfRow(rows: seq<Row>, r: Row)
    requires ById(rows) && r in rows
    ensures CauseOf(rows, r.id) == r.cause
  {
    if rows[0] != r {
      var k :| 0 <= k < |rows| && rows[k] == r;
      assert rows[0].id < rows[k].id && rows[1..][k - 1] == r;
      CauseOfRow(rows[1..], r);
    }
  }

  lemma {:induction false} UpAdds(rows: seq<Row>, id: nat, m: nat, n: nat)
    requires Up(rows, id, m).Some?
    ensures Up(rows, id, m + n) == Up(rows, Up(rows, id, m).value, n)
    decreases m
  {
    if m > 0 {
      UpAdds(rows, CauseOf(rows, id).value, m - 1, n);
    }
  }

  /** Ids that count down along every cause edge rule out cycles. */
  lemma {:induction false} RankedIsAcyclic(rows: seq<Row>, rank: map<nat, nat>)
    requires ById(rows)
    requires forall r | r in rows && r.cause.Some? ::
               r.id in rank && (r.cause.value in rank ==> rank[r.cause.value] < rank[r.id])
    ensures Acyclic(rows)
  {
    forall id: nat, n: nat | n > 0
      ensures Up(rows, id, n) != Some(id)
    {
      RankDrops(rows, rank, id, n);
    }
  }

  lemma {:induction false} CauseOfSome(rows: seq<Row>, id: nat)
    requires CauseOf(rows, id).Some?
    ensures exists r :: r in rows && r.id == id && r.cause == CauseOf(rows, id)
  {
    if rows[0].id == id {
      assert rows[0] in rows;
    } else {
      CauseOfSome(rows[1..], id);
    }
  }

  lemma {:induction false} RankDrops(rows: seq<Row>, rank: map<nat, nat>, id: nat, n: nat)
    requires ById(rows) && n > 0
    requires forall r | r in rows && r.cause.Some? ::
               r.id in rank && (r.cause.value in rank ==> rank[r.cause.value] < rank[r.id])
    ensures Up(rows, id, n).Some? ==>
              id in rank && (Up(rows, id, n).value in rank ==> rank[Up(rows, id, n).value] < rank[id])
    decreases n
  {
    if CauseOf(rows, id).Some? {
      CauseOfSome(rows, id);
      var c := CauseOf(rows, id).value;
      assert Up(rows, id, 1) == Up(rows, c, 0);
      if n > 1 {
        RankDrops(rows, rank, c, n - 1);
      }
    }
  }

  // ----- What a Forward or Backward walk from `start` can reach -----

  /** `x` is `k` steps from `start` in a direction in which every step is forced. */
  ghost predicate Reached(rows: seq<Row>, dir: Direction, start: nat, x: nat, k: nat)
  {
    match dir
    case Forward => Up(rows, x, k) == Some(start)
    case Backward => Up(rows, start, k) == Some(x)
    case Both => false
  }

  ghost predicate AllReached(rows: seq<Row>, dir: Direction, start: nat, xs: set<nat>, k: nat)
  {
    forall x | x in xs :: Reached(rows, dir, start, x, k)
  }

  ghost predicate ReachedBy(rows: seq<Row>, dir: Direction, start: nat, xs: set<nat>, k: nat)
  {
    forall x | x in xs :: exists j :: 0 <= j <= k && Reached(rows, dir, start, x, j)
  }

  lemma {:induction false} NextReached(rows: seq<Row>, dir: Direction, start: nat, frontier: set<nat>, k: nat)
    requires ById(rows) && AllReached(rows, dir, start, frontier, k)
    ensures dir != Both ==> AllReached(rows, dir, start, Next(rows, dir, frontier), k + 1)
  {
    match dir
    case Forward =>
      forall r | r in rows && r.cause.Some? && r.cause.value in frontier
        ensures Reached(rows, dir, start, r.id, k + 1)
      {
        CauseOfRow(rows, r);
        assert Reached(rows, dir, start, r.cause.value, k);
      }
    case Backward =>
      forall r | r in rows && r.id in frontier && r.cause.Some?
        ensures Reached(rows, dir, start, r.cause.value, k + 1)
      {
        CauseOfRow(rows, r);
        assert Reached(rows, dir, start, r.id, k);
        UpAdds(rows, start, k, 1);
        assert Up(rows, r.id, 1) == Up(rows, r.cause.value, 0);
      }
    case Both =>
  }

  lemma {:induction false} ReachedTwiceLoops(rows: seq<Row>, dir: Direction, start: nat, x: nat, j: nat, k: nat)
    requires j < k && Reached(rows, dir, start, x, j) && Reached(rows, dir, start, x, k)
    ensures !Acyclic(rows)
  {
    match dir
    case Forward =>
      UpAdds(rows, x, j, k - j);
      assert Up(rows, start, k - j) == Some(start);
    case Backward =>
      UpAdds(rows, start, j, k - j);
      assert Up(rows, x, k - j) == Some(x);
  }

  /** Without cycles nothing is reached at two depths. */
  lemma {:induction false} ReachedOnce(rows: seq<Row>, dir: Direction, start: nat, x: nat, j: nat, k: nat)
    requires Acyclic(rows) && Reached(rows, dir, start, x, j) && Reached(rows, dir, start, x, k)
    ensures j == k
  {
    if j < k {
      ReachedTwiceLoops(rows, dir, start, x, j, k);
    } else if k < j {
      ReachedTwiceLoops(rows, dir, start, x, k, j);
    }
  }

  lemma {:induction false} NextUnseen(rows: seq<Row>, dir: Direction, start: nat, frontier: set<nat>, seen: set<nat>,
                                      k: nat)
    requires ById(rows) && Acyclic(rows) && dir != Both
    requires AllReached(rows, dir, start, frontier, k) && ReachedBy(rows, dir, start, seen, k)
    ensures Next(rows, dir, frontier) - seen == Next(rows, dir, frontier)
  {
    NextReached(rows, dir, start, frontier, k);
    forall x | x in Next(rows, dir, frontier)
      ensures x !in seen
    {
      if x in seen {
        var j :| 0 <= j <= k && Reached(rows, dir, start, x, j);
        ReachedOnce(rows, dir, start, x, j, k + 1);
      }
    }
  }

  lemma {:induction false} LevelReached(rows: seq<Row>, dir: Direction, sampling: Sampling, maxDepth: nat,
                                        start: nat, frontier: seq<nat>, seen: set<nat>, k: nat)
    requires ById(rows) && dir != Both
    requires AllReached(rows, dir, start, Elements(frontier), k) && ReachedBy(rows, dir, start, seen, k)
    ensures var level := Level(rows, dir, sampling, maxDepth, frontier, seen);
            && AllReached(rows, dir, start, Ids(level), k + 1)
            && Elements(IdsOf(level)) == Ids(level)
            && ReachedBy(rows, dir, start, seen + Ids(level), k + 1)
  {
    var ids := Next(rows, dir, Elements(frontier)) - seen;
    var level := Level(rows, dir, sampling, maxDepth, frontier, seen);
    NextReached(rows, dir, start, Elements(frontier), k);
    PickElements(rows, ids);
    forall r | r in level
      ensures r.id in ids
    {
      assert r in Pick(rows, ids);
    }
    ElementsOfIds(level);
  }

  lemma {:induction false} ElementsOfIds(rows: seq<Row>)
    ensures Elements(IdsOf(rows)) == Ids(rows)
  {
    forall x | x in Elements(IdsOf(rows))
      ensures x in Ids(rows)
    {
      var i :| 0 <= i < |rows| && IdsOf(rows)[i] == x;
      assert rows[i] in rows;
    }
    forall r | r in rows
      ensures r.id in Elements(IdsOf(rows))
    {
      var i :| 0 <= i < |rows| && rows[i] == r;
      assert IdsOf(rows)[i] == r.id;
    }
  }

  lemma {:induction false} ExpansionIgnoresSeen(expand: Expand, rows: seq<Row>, dir: Direction, sampling: Sampling,
                                                maxDepth: nat, start: nat,
                                                frontier: seq<nat>, seen: set<nat>, seen': set<nat>, k: nat)
    requires expand == Expander(rows, dir, sampling, maxDepth)
    requires ById(rows) && Acyclic(rows) && dir != Both
    requires AllReached(rows, dir, start, Elements(frontier), k)
    requires ReachedBy(rows, dir, start, seen, k) && ReachedBy(rows, dir, start, seen', k)
    ensures expand(frontier, seen) == expand(frontier, seen') == Level(rows, dir, sampling, maxDepth, frontier, seen)
    ensures Level(rows, dir, sampling, maxDepth, frontier, seen')
            == Level(rows, dir, sampling, maxDepth, frontier, seen)
  {
    hide AllReached, ReachedBy, Acyclic, ById;
    NextUnseen(rows, dir, start, Elements(frontier), seen, k);
    NextUnseen(rows, dir, start, Elements(frontier), seen', k);
  }

  /** The walk ahead does not depend on which of the ids behind it are remembered as seen. */
  lemma {:induction false} SeenIrrelevant(expand: Expand, rows: seq<Row>, dir: Direction, sampling: Sampling,
                                          maxDepth: nat, limit: nat, start: nat,
                                          frontier: seq<nat>, seen: set<nat>, seen': set<nat>, depth: nat, k: nat)
    requires expand == Expander(rows, dir, sampling, maxDepth)
    requires ById(rows) && Acyclic(rows) && dir != Both
    requires AllReached(rows, dir, start, Elements(frontier), k)
    requires ReachedBy(rows, dir, start, seen, k) && ReachedBy(rows, dir, start, seen', k)
    ensures Levels(expand, limit, frontier, seen, depth) == Levels(expand, limit, frontier, seen', depth)
    decreases limit + 1 - depth
  {
    hide AllReached, ReachedBy, Acyclic, Elements, Expander, ById, IdsOf, Ids;
    if depth <= limit && frontier != [] {
      var level := expand(frontier, seen);
      ExpansionIgnoresSeen(expand, rows, dir, sampling, maxDepth, start, frontier, seen, seen', k);
      LevelReached(rows, dir, sampling, maxDepth, start, frontier, seen, k);
      LevelReached(rows, dir, sampling, maxDepth, start, frontier, seen', k);
      SeenIrrelevant(expand, rows, dir, sampling, maxDepth, limit, start, IdsOf(level), seen + Ids(level),
                     seen' + Ids(level), depth + 1, k + 1);
    }
  }

  /** After its first `c` levels, a walk goes on as the walk resumed from the last of them. */
  lemma {:induction false} ResumedTail(expand: Expand, rows: seq<Row>, dir: Direction, sampling: Sampling,
                                       maxDepth: nat, limit: nat, start: nat,
                                       frontier: seq<nat>, seen: set<nat>, depth: nat, k: nat, c: nat)
    requires expand == Expander(rows, dir, sampling, maxDepth)
    requires ById(rows) && Acyclic(rows) && dir != Both
    requires AllReached(rows, dir, start, Elements(frontier), k) && ReachedBy(rows, dir, start, seen, k)
    requires var levels := Levels(expand, limit, frontier, seen, depth); 0 < c <= |levels|
    ensures var levels := Levels(expand, limit, frontier, seen, depth);
            var last := IdsOf(levels[c - 1]);
            && AllReached(rows, dir, start, Elements(last), k + c)
            && levels[c..] == Levels(expand, limit, last, Elements(last), depth + c)
    decreases c
  {
    hide Level;
    hide IdsOf;
    hide Next;
    var levels := Levels(expand, limit, frontier, seen, depth);
    var level := expand(frontier, seen);
    var seen' := seen + Ids(level);
    LevelReached(rows, dir, sampling, maxDepth, start, frontier, seen, k);
    assert levels[0] == level && levels[1..] == Levels(expand, limit, IdsOf(level), seen', depth + 1);
    if c == 1 {
      assert ReachedBy(rows, dir, start, Elements(IdsOf(level)), k + 1);
      SeenIrrelevant(expand, rows, dir, sampling, maxDepth, limit, start, IdsOf(level), seen', Elements(IdsOf(level)),
                     depth + 1, k + 1);
    } else {
      ResumedTail(expand, rows, dir, sampling, maxDepth, limit, start, IdsOf(level), seen', depth + 1, k + 1, c - 1);
      assert levels[c..] == levels[1..][c - 1..] && levels[c - 1] == levels[1..][c - 2];
    }
  }

  // ----- Following the cursors -----

  lemma {:induction false} PageAdvances(expand: Expand, start: nat, maxDepth: nat, resume: Option<Cursor>,
                                        budget: Budget)
    ensures var page := Page(expand, start, maxDepth, resume, budget);
            var o := OriginOf(start, resume);
            var levels := Levels(expand, maxDepth, o.frontier, o.seen, o.depth);
            var k := Fit([], levels, budget);
            if page.Complete? then page.data == Flatten(levels)
            else && 0 < k < |levels| && page.data == Flatten(levels[..k])
                 && page.cursor == Cursor(IdsOf(levels[k - 1]), (o.depth - 1 + k) % TWO_32)
  {
  }

  /** Each page is what its call returns for the cursor of the page before; only the last may be complete. */
  ghost predicate Paged(expand: Expand, start: nat, maxDepth: nat, resume: Option<Cursor>,
                        budgets: nat -> Budget, n: nat, pages: seq<Outcome>)
    decreases |pages|
  {
    && pages != [] && pages[0] == Page(expand, start, maxDepth, resume, budgets(n))
    && (|pages| > 1 ==>
          && pages[0].Truncated?
          && Paged(expand, start, maxDepth, Some(pages[0].cursor), budgets, n + 1, pages[1..]))
  }

  function DataOf(pages: seq<Outcome>): seq<Row>
  {
    if pages == [] then [] else pages[0].data + DataOf(pages[1..])
  }

  /** One level more would be empty: the walk ends by itself and not at the depth limit. */
  ghost predicate Uncut(expand: Expand, limit: nat, frontier: seq<nat>, seen: set<nat>, depth: nat)
  {
    Levels(expand, limit + 1, frontier, seen, depth) == Levels(expand, limit, frontier, seen, depth)
  }

  /** The depth counter of a cursor does not wrap before the depth limit, or the limit does not matter. */
  ghost predicate DepthCounts(expand: Expand, limit: nat, o: Origin)
  {
    limit <= TWO_32 || Uncut(expand, limit, o.frontier, o.seen, o.depth)
  }

  /** One level more of the limit adds at most one level to a walk that used up the limit, and none to others. */
  lemma {:induction false} LimitGrows(expand: Expand, limit: nat, frontier: seq<nat>, seen: set<nat>, depth: nat)
    ensures Levels(expand, limit, frontier, seen, depth) <= Levels(expand, limit + 1, frontier, seen, depth)
    ensures depth + |Levels(expand, limit, frontier, seen, depth)| <= limit ==>
              Uncut(expand, limit, frontier, seen, depth)
    decreases limit + 1 - depth
  {
    if depth <= limit && frontier != [] && expand(frontier, seen) != [] {
      var level := expand(frontier, seen);
      LimitGrows(expand, limit, IdsOf(level), seen + Ids(level), depth + 1);
    }
  }

  /** A walk that the depth limit does not cut is the same from any smaller depth. */
  lemma {:induction false} DepthIrrelevant(expand: Expand, limit: nat, frontier: seq<nat>, seen: set<nat>,
                                           depth: nat, lower: nat)
    requires lower <= depth <= limit + 1 && Uncut(expand, limit, frontier, seen, depth)
    ensures Levels(expand, limit, frontier, seen, lower) == Levels(expand, limit, frontier, seen, depth)
    ensures Uncut(expand, limit, frontier, seen, lower)
    decreases limit + 1 - depth
  {
    if frontier != [] && expand(frontier, seen) != [] && depth <= limit {
      var level := expand(frontier, seen);
      var seen' := seen + Ids(level);
      assert Levels(expand, limit, frontier, seen, depth)[1..] == Levels(expand, limit, IdsOf(level), seen', depth + 1);
      assert Levels(expand, limit + 1, frontier, seen, depth)[1..]
          == Levels(expand, limit + 1, IdsOf(level), seen', depth + 1);
      DepthIrrelevant(expand, limit, IdsOf(level), seen', depth + 1, lower + 1);
    }
  }

  /** What a page leaves is what the call with its cursor walks, whether or not the cursor's depth wrapped. */
  lemma {:induction false} CursorResumes(expand: Expand, rows: seq<Row>, start: nat, dir: Direction, maxDepth: nat,
                                         sampling: Sampling,
                                         o: Origin, k: nat, c: nat, cursor: Cursor)
    requires expand == Expander(rows, dir, sampling, maxDepth)
    requires ById(rows) && Acyclic(rows) && dir != Both && o.depth >= 1 && DepthCounts(expand, maxDepth, o)
    requires AllReached(rows, dir, start, Elements(o.frontier), k) && ReachedBy(rows, dir, start, o.seen, k)
    requires var levels := Levels(expand, maxDepth, o.frontier, o.seen, o.depth);
             0 < c < |levels| && cursor == Cursor(IdsOf(levels[c - 1]), (o.depth - 1 + c) % TWO_32)
    ensures var levels := Levels(expand, maxDepth, o.frontier, o.seen, o.depth);
            var next := OriginOf(start, Some(cursor));
            && levels[c..] == Levels(expand, maxDepth, next.frontier, next.seen, next.depth)
            && DepthCounts(expand, maxDepth, next)
            && AllReached(rows, dir, start, Elements(next.frontier), k + c)
            && ReachedBy(rows, dir, start, next.seen, k + c)
  {
    hide Levels, IdsOf, Expander, Acyclic, ById;
    ResumedTail(expand, rows, dir, sampling, maxDepth, maxDepth, start, o.frontier, o.seen, o.depth, k, c);
    var levels := Levels(expand, maxDepth, o.frontier, o.seen, o.depth);
    var next := OriginOf(start, Some(cursor));
    assert o.depth - 1 + c < maxDepth;
    if maxDepth > TWO_32 {
      ResumedTail(expand, rows, dir, sampling, maxDepth, maxDepth + 1, start, o.frontier, o.seen, o.depth, k, c);
      assert Uncut(expand, maxDepth, next.frontier, next.seen, o.depth + c);
      DepthIrrelevant(expand, maxDepth, next.frontier, next.seen, o.depth + c, next.depth);
    }
  }

  lemma {:induction false} PagesFrom(expand: Expand, rows: seq<Row>, start: nat, dir: Direction, maxDepth: nat,
                                     sampling: Sampling,
                                     resume: Option<Cursor>, budgets: nat -> Budget, n: nat, k: nat,
                                     pages: seq<Outcome>)
    requires expand == Expander(rows, dir, sampling, maxDepth)
    requires ById(rows) && Acyclic(rows) && dir != Both
    requires Paged(expand, start, maxDepth, resume, budgets, n, pages)
    requires var o := OriginOf(start, resume);
             && AllReached(rows, dir, start, Elements(o.frontier), k) && ReachedBy(rows, dir, start, o.seen, k)
             && DepthCounts(expand, maxDepth, o)
    ensures var o := OriginOf(start, resume);
            var levels := Levels(expand, maxDepth, o.frontier, o.seen, o.depth);
            && DataOf(pages) <= Flatten(levels)
            && (pages[|pages| - 1].Complete? ==> DataOf(pages) == Flatten(levels))
            && (|pages| > 1 ==> |pages| <= |levels|)
            && (|pages| >= |levels| ==> pages[|pages| - 1].Complete?)
    decreases |pages|
  {
    hide Level, Levels, Flatten, Acyclic, ById, AllReached, ReachedBy, Expander, Page;
    var o := OriginOf(start, resume);
    var levels := Levels(expand, maxDepth, o.frontier, o.seen, o.depth);
    var page := pages[0];
    PageAdvances(expand, start, maxDepth, resume, budgets(n));
    if |pages| == 1 {
      assert DataOf(pages[1..]) == [] && DataOf(pages) == page.data;
    }
    if page.Truncated? {
      var c := Fit([], levels, budgets(n));
      CursorResumes(expand, rows, start, dir, maxDepth, sampling, o, k, c, page.cursor);
      FlattenResumed(levels, c, levels[c..]);
      if |pages| > 1 {
        PagesFrom(expand, rows, start, dir, maxDepth, sampling, Some(page.cursor), budgets, n + 1, k + c, pages[1..]);
        assert pages[1..][|pages[1..]| - 1] == pages[|pages| - 1];
      }
    }
  }

  lemma {:induction false} FlattenResumed(levels: seq<seq<Row>>, c: nat, rest: seq<seq<Row>>)
    requires c <= |levels| && levels[c..] == rest
    ensures Flatten(levels) == Flatten(levels[..c]) + Flatten(rest)
  {
    assert levels == levels[..c] + levels[c..];
    FlattenAppend(levels[..c], levels[c..]);
  }

  /** Levels are disjoint and not empty, so a walk has no more of them than the table has rows. */
  lemma {:induction false} FewerLevelsThanRows(expand: Expand, rows: seq<Row>, dir: Direction, sampling: Sampling,
                                               maxDepth: nat,
                                               frontier: seq<nat>, seen: set<nat>, depth: nat)
    requires expand == Expander(rows, dir, sampling, maxDepth) && ById(rows)
    ensures |Levels(expand, maxDepth, frontier, seen, depth)| <= |Ids(rows) - seen|
    decreases maxDepth + 1 - depth
  {
    hide IdsOf, Ids, Fresh, Expander, ById;
    if depth <= maxDepth && frontier != [] {
      var level := expand(frontier, seen);
      ExpansionIsFresh(expand, rows, dir, sampling, maxDepth, frontier, seen);
      if level != [] {
        FewerLevelsThanRows(expand, rows, dir, sampling, maxDepth, IdsOf(level), seen + Ids(level), depth + 1);
        FreshUsesUp(rows, level, seen);
      }
    }
  }

  lemma {:induction false} ExpansionIsFresh(expand: Expand, rows: seq<Row>, dir: Direction, sampling: Sampling,
                                            maxDepth: nat,
                                            frontier: seq<nat>, seen: set<nat>)
    requires expand == Expander(rows, dir, sampling, maxDepth) && ById(rows)
    ensures Fresh(rows, expand(frontier, seen), seen)
  {
    hide Level, Fresh, ById;
    LevelIsFresh(rows, dir, sampling, maxDepth, frontier, seen);
  }

  lemma {:induction false} FreshUsesUp(rows: seq<Row>, level: seq<Row>, seen: set<nat>)
    requires level != [] && Fresh(rows, level, seen)
    ensures |Ids(rows) - (seen + Ids(level))| < |Ids(rows) - seen|
  {
    var r := level[0];
    assert r in level && r.id in Ids(level) && r.id in Ids(rows) - seen;
    var less, more := Ids(rows) - (seen + Ids(level)), Ids(rows) - seen;
    assert less <= more - {r.id};
    SubsetIsSmaller(less, more - {r.id});
  }

  lemma {:induction false} SubsetIsSmaller(a: set<nat>, b: set<nat>)
    requires a <= b
    ensures |a| <= |b|
  {
    assert b == a + (b - a);
  }

  lemma {:induction false} NoMoreIdsThanRows(rows: seq<Row>)
    ensures |Ids(rows)| <= |rows|
  {
    if rows != [] {
      NoMoreIdsThanRows(rows[1..]);
      assert Ids(rows) == Ids(rows[1..]) + {rows[0].id} by {
        assert forall r :: r in rows <==> r == rows[0] || r in rows[1..];
      }
    }
  }

  /** The whole walk does not outrun the u32 depth of a cursor before the depth limit cuts it. */
  ghost predicate LimitHolds(rows: seq<Row>, start: nat, dir: Direction, sampling: Sampling, maxDepth: nat)
  {
    DepthCounts(Expander(rows, dir, sampling, maxDepth), maxDepth, OriginOf(start, None))
  }

  /**
   Forward and Backward paging is lossless: whatever the sampling mode, the depth limit and the budget of
   each page, following cursors repeats nothing, needs no more pages than the walk has levels, and ends
   with exactly the walk without a budget.  Only a depth limit above 2^32 that cuts the walk is outside.
   */
  lemma {:induction false} PagesConcatenateToWalk(rows: seq<Row>, start: nat, dir: Direction, maxDepth: nat,
                                                  sampling: Sampling, budgets: nat -> Budget, pages: seq<Outcome>)
    requires ById(rows) && Acyclic(rows) && dir != Both && LimitHolds(rows, start, dir, sampling, maxDepth)
    requires Paged(Expander(rows, dir, sampling, maxDepth), start, maxDepth, None, budgets, 0, pages)
    ensures var walk := FullWalk(rows, start, dir, sampling, maxDepth);
            && DataOf(pages) <= Flatten(walk) && DistinctIds(Flatten(walk))
            && (pages[|pages| - 1].Complete? ==> DataOf(pages) == Flatten(walk))
            && (|pages| > 1 ==> |pages| <= |walk|)
            && (|pages| >= |walk| ==> pages[|pages| - 1].Complete?)
  {
    hide Uncut;
    var expand := Expander(rows, dir, sampling, maxDepth);
    StartIsReached(rows, start, dir);
    PagesFrom(expand, rows, start, dir, maxDepth, sampling, None, budgets, 0, 0, pages);
    WalkNeverRepeats(expand, rows, dir, sampling, maxDepth, [start], {start}, 1);
  }

  lemma {:induction false} StartIsReached(rows: seq<Row>, start: nat, dir: Direction)
    requires dir != Both
    ensures AllReached(rows, dir, start, Elements([start]), 0) && ReachedBy(rows, dir, start, {start}, 0)
  {
    assert Up(rows, start, 0) == Some(start);
    assert Reached(rows, dir, start, start, 0);
  }

  /** A table of at most 2^32 rows is inside for every depth limit. */
  lemma {:induction false} SmallTablesPage(rows: seq<Row>, start: nat, dir: Direction, maxDepth: nat,
                                           sampling: Sampling)
    requires ById(rows) && |rows| <= TWO_32
    ensures LimitHolds(rows, start, dir, sampling, maxDepth)
  {
    var expand := Expander(rows, dir, sampling, maxDepth);
    FewerLevelsThanRows(expand, rows, dir, sampling, maxDepth, [start], {start}, 1);
    NoMoreIdsThanRows(rows);
    SubsetIsSmaller(Ids(rows) - {start}, Ids(rows));
    LimitGrows(expand, maxDepth, [start], {start}, 1);
  }

  /** One walk yields no event twice and none it started with, on any graph and in any direction. */
  lemma {:induction false} WalkNeverRepeats(expand: Expand, rows: seq<Row>, dir: Direction, sampling: Sampling,
                                            maxDepth: nat,
                                            frontier: seq<nat>, seen: set<nat>, depth: nat)
    requires expand == Expander(rows, dir, sampling, maxDepth)
    requires ById(rows)
    ensures Fresh(rows, Flatten(Levels(expand, maxDepth, frontier, seen, depth)), seen)
    decreases maxDepth + 1 - depth
  {
    hide Level;
    hide IdsOf;
    hide Fresh;
    if depth <= maxDepth && frontier != [] {
      var level := expand(frontier, seen);
      LevelIsFresh(rows, dir, sampling, maxDepth, frontier, seen);
      if level != [] {
        WalkNeverRepeats(expand, rows, dir, sampling, maxDepth, IdsOf(level), seen + Ids(level), depth + 1);
        var rest := Levels(expand, maxDepth, IdsOf(level), seen + Ids(level), depth + 1);
        FreshConcat(rows, level, Flatten(rest), seen);
        FlattenCons(level, rest);
      } else {
        FreshNothing(rows, seen);
      }
    } else {
      FreshNothing(rows, seen);
    }
  }

  lemma {:induction false} FreshNothing(rows: seq<Row>, seen: set<nat>)
    ensures Fresh(rows, [], seen)
  {
  }

  lemma {:induction false} FlattenCons(level: seq<Row>, rest: seq<seq<Row>>)
    ensures Flatten([level] + rest) == level + Flatten(rest)
  {
    assert ([level] + rest)[1..] == rest;
  }

  ghost predicate Fresh(rows: seq<Row>, data: seq<Row>, seen: set<nat>)
  {
    DistinctIds(data) && forall r | r in data :: r in rows && r.id !in seen
  }

  lemma {:induction false} LevelIsFresh(rows: seq<Row>, dir: Direction, sampling: Sampling, maxDepth: nat,
                                        frontier: seq<nat>, seen: set<nat>)
    requires ById(rows)
    ensures Fresh(rows, Level(rows, dir, sampling, maxDepth, frontier, seen), seen)
  {
    var ids := Next(rows, dir, Elements(frontier)) - seen;
    PickElements(rows, ids);
    assert forall r | r in Level(rows, dir, sampling, maxDepth, frontier, seen) :: r in Pick(rows, ids);
  }

  lemma {:induction false} FreshConcat(rows: seq<Row>, a: seq<Row>, b: seq<Row>, seen: set<nat>)
    requires Fresh(rows, a, seen) && Fresh(rows, b, seen + Ids(a))
    ensures Fresh(rows, a + b, seen)
  {
    forall i, j | 0 <= i < |a| && 0 <= j < |b|
      ensures a[i].id != b[j].id
    {
      assert a[i] in a && b[j] in b;
    }
  }

  /** A page is whole levels of the walk, and within its budget unless it is a single level. */
  lemma {:induction false} PageIsWholeLevels(expand: Expand, start: nat, maxDepth: nat,
                                             resume: Option<Cursor>, budget: Budget)
    ensures var o := OriginOf(start, resume);
            var levels := Levels(expand, maxDepth, o.frontier, o.seen, o.depth);
            var page := Page(expand, start, maxDepth, resume, budget);
            var k := Fit([], levels, budget);
            && page.data == Flatten(levels[..k]) && (k == 0 <==> levels == [])
            && (k > 1 ==> Within(page.data, budget))
            && (page.Truncated? <==> k < |levels|)
            && (k < |levels| ==> !Within(Flatten(levels[..k + 1]), budget))
  {
    var o := OriginOf(start, resume);
    var levels := Levels(expand, maxDepth, o.frontier, o.seen, o.depth);
    var k := Fit([], levels, budget);
    FitIsMaximal([], levels, budget);
    assert levels[..|levels|] == levels;
    assert k == 0 <==> levels == [];
    assert [] + Flatten(levels[..k]) == Flatten(levels[..k]);
    if k < |levels| {
      assert [] + Flatten(levels[..k + 1]) == Flatten(levels[..k + 1]);
    }
  }
}
