/**
 Where following resume cursors loses the walk (src/cross_stream.rs): a depth limit above 2^32 that cuts it, whose
 count the cursor cannot hold, and direction Both, in which the next page comes back to what was already read.
 */
module PagingLimits {
  import opened Types
  import opened Events
  import opened Walk
  import opened WalkPaging
  import Cce

  // ----- A depth limit that the cursor cannot count up to -----

  ghost predicate PagingIsLossless(rows: seq<Row>, start: nat, dir: Direction, sampling: Sampling, maxDepth: nat)
  {
    forall budgets: nat -> Budget, pages: seq<Outcome> |
      Paged(Expander(rows, dir, sampling, maxDepth), start, maxDepth, None, budgets, 0, pages)
      && pages[|pages| - 1].Complete? ::
      DataOf(pages) == Flatten(FullWalk(rows, start, dir, sampling, maxDepth))
  }

  /** Forward and Backward, complete paging gives the whole walk under all budgets exactly when the limit holds. */
  lemma {:induction false} LosslessExactly(rows: seq<Row>, start: nat, dir: Direction, sampling: Sampling,
                                           maxDepth: nat)
    requires ById(rows) && Acyclic(rows) && dir != Both
    ensures PagingIsLossless(rows, start, dir, sampling, maxDepth) <==> LimitHolds(rows, start, dir, sampling, maxDepth)
  {
    hide ById, Acyclic, LimitHolds;
    if LimitHolds(rows, start, dir, sampling, maxDepth) {
      forall budgets: nat -> Budget, pages: seq<Outcome> |
        Paged(Expander(rows, dir, sampling, maxDepth), start, maxDepth, None, budgets, 0, pages)
        && pages[|pages| - 1].Complete?
        ensures DataOf(pages) == Flatten(FullWalk(rows, start, dir, sampling, maxDepth))
      {
        PagesConcatenateToWalk(rows, start, dir, maxDepth, sampling, budgets, pages);
      }
    } else {
      var budgets, pages := CutWalkOverruns(rows, start, dir, sampling, maxDepth);
    }
  }

  /**
   A first page of exactly 2^32 levels has a cursor that says no depth was consumed, so the second page goes
   beyond the limit.
   */
  lemma {:induction false} CutWalkOverruns(rows: seq<Row>, start: nat, dir: Direction, sampling: Sampling,
                                           maxDepth: nat)
    returns (budgets: nat -> Budget, pages: seq<Outcome>)
    requires ById(rows) && Acyclic(rows) && dir != Both && !LimitHolds(rows, start, dir, sampling, maxDepth)
    ensures Paged(Expander(rows, dir, sampling, maxDepth), start, maxDepth, None, budgets, 0, pages)
    ensures |pages| == 2 && pages[1].Complete?
    ensures Flatten(FullWalk(rows, start, dir, sampling, maxDepth)) < DataOf(pages)
  {
    hide Levels, ById, Acyclic, Expander, IdsOf, Fit, Flatten, AllReached, ReachedBy;
    var expand := Expander(rows, dir, sampling, maxDepth);
    var walk := Levels(expand, maxDepth, [start], {start}, 1);
    LimitGrows(expand, maxDepth, [start], {start}, 1);
    var full := Budget(Some(|Flatten(walk[..TWO_32])|), None);
    budgets := n => if n == 0 then full else Budget(None, None);
    FitExactly(walk, TWO_32);
    var first := Page(expand, start, maxDepth, None, budgets(0));
    var last := IdsOf(walk[TWO_32 - 1]);
    assert first == PageOf(walk, OriginOf(start, None), TWO_32, full);
    assert first.Truncated? && first.cursor == Cursor(last, 0) && first.data == Flatten(walk[..TWO_32]);
    var beyond := Levels(expand, maxDepth, last, Elements(last), 1);
    FitAll(beyond);
    var second := Page(expand, start, maxDepth, Some(first.cursor), budgets(1));
    assert second == Complete(Flatten(beyond));
    pages := [first, second];
    assert pages[1..] == [second] && [second][1..] == [];
    assert DataOf([second]) == second.data + DataOf([]) && DataOf(pages) == first.data + DataOf([second]);
    StartIsReached(rows, start, dir);
    CutTailIsShorter(expand, rows, dir, sampling, maxDepth, start, walk);
    FlattenResumed(walk, TWO_32, walk[TWO_32..]);
    FlattenPrefix(walk[TWO_32..], beyond);
    LongerBehind(first.data, Flatten(walk[TWO_32..]), second.data);
  }

  lemma {:induction false} LongerBehind(front: seq<Row>, a: seq<Row>, b: seq<Row>)
    requires a < b
    ensures front + a < front + b
  {
  }

  lemma {:induction false} CutTailIsShorter(expand: Expand, rows: seq<Row>, dir: Direction, sampling: Sampling,
                                            maxDepth: nat, start: nat, walk: seq<seq<Row>>)
    requires expand == Expander(rows, dir, sampling, maxDepth) && ById(rows) && Acyclic(rows) && dir != Both
    requires walk == Levels(expand, maxDepth, [start], {start}, 1)
    requires TWO_32 < |walk| && !Uncut(expand, maxDepth, [start], {start}, 1)
    ensures var last := IdsOf(walk[TWO_32 - 1]); walk[TWO_32..] < Levels(expand, maxDepth, last, Elements(last), 1)
  {
    hide Levels, ById, Acyclic, Expander, IdsOf, AllReached, ReachedBy;
    var more := Levels(expand, maxDepth + 1, [start], {start}, 1);
    var last := IdsOf(walk[TWO_32 - 1]);
    LimitGrows(expand, maxDepth, [start], {start}, 1);
    assert walk < more && more[TWO_32 - 1] == walk[TWO_32 - 1];
    StartIsReached(rows, start, dir);
    ResumedTail(expand, rows, dir, sampling, maxDepth, maxDepth + 1, start, [start], {start}, 1, 0, TWO_32);
    assert walk[TWO_32..] < more[TWO_32..];
    LimitGrowsBy(expand, maxDepth + 1, TWO_32 - 1, last, Elements(last), 1 + TWO_32);
    LevelsShift(expand, maxDepth, maxDepth + TWO_32, last, Elements(last), 1, 1 + TWO_32);
  }

  /** Only the number of levels to go matters. */
  lemma {:induction false} LevelsShift(expand: Expand, limit: nat, limit': nat, frontier: seq<nat>, seen: set<nat>,
                                       depth: nat, depth': nat)
    requires limit' - depth' == limit - depth
    ensures Levels(expand, limit', frontier, seen, depth') == Levels(expand, limit, frontier, seen, depth)
    decreases limit + 1 - depth
  {
    if depth <= limit && frontier != [] && expand(frontier, seen) != [] {
      var level := expand(frontier, seen);
      LevelsShift(expand, limit, limit', IdsOf(level), seen + Ids(level), depth + 1, depth' + 1);
    }
  }

  lemma {:induction false} LimitGrowsBy(expand: Expand, limit: nat, extra: nat, frontier: seq<nat>, seen: set<nat>,
                                        depth: nat)
    ensures Levels(expand, limit, frontier, seen, depth) <= Levels(expand, limit + extra, frontier, seen, depth)
    decreases extra
  {
    hide Levels;
    if extra > 0 {
      LimitGrowsBy(expand, limit, extra - 1, frontier, seen, depth);
      LimitGrows(expand, limit + extra - 1, frontier, seen, depth);
    }
  }

  lemma {:induction false} FlattenPrefix(a: seq<seq<Row>>, b: seq<seq<Row>>)
    requires a < b && NoEmptyLevel(b)
    ensures Flatten(a) < Flatten(b)
  {
    var rest := b[|a|..];
    FlattenResumed(b, |a|, rest);
    assert a == b[..|a|] && rest[0] == b[|a|] && Flatten(rest) == rest[0] + Flatten(rest[1..]);
  }

  /** A result budget of the size of the first `c` levels takes exactly these. */
  lemma {:induction false} FitExactly(levels: seq<seq<Row>>, c: nat)
    requires NoEmptyLevel(levels) && 0 < c <= |levels|
    ensures Fit([], levels, Budget(Some(|Flatten(levels[..c])|), None)) == c
  {
    hide Fit, Flatten;
    var budget := Budget(Some(|Flatten(levels[..c])|), None);
    var k := Fit([], levels, budget);
    FitIsMaximal([], levels, budget);
    assert [] + Flatten(levels[..k]) == Flatten(levels[..k]);
    if k > c {
      FlattenPrefix(levels[..c], levels[..k]);
    }
    if k < c {
      assert [] + Flatten(levels[..k + 1]) == Flatten(levels[..k + 1]);
      if k + 1 < c {
        FlattenPrefix(levels[..k + 1], levels[..c]);
      }
    }
  }

  lemma {:induction false} FitAll(levels: seq<seq<Row>>)
    requires NoEmptyLevel(levels)
    ensures Fit([], levels, Budget(None, None)) == |levels|
  {
    hide Fit, Flatten;
    FitIsMaximal([], levels, Budget(None, None));
  }

  // ----- Direction Both: the next page comes back -----

  /** A row reached from `prev` reaches `prev` back. */
  lemma {:induction false} BackAgain(rows: seq<Row>, prev: set<nat>, x: nat) returns (f: nat)
    requires x in Next(rows, Both, prev) && prev <= Ids(rows)
    ensures f in prev && f in Next(rows, Both, {x})
  {
    if x in ChildIds(rows, prev) {
      var r :| r in rows && r.cause.Some? && r.cause.value in prev && r.id == x;
      f := r.cause.value;
      assert f in ParentIds(rows, {x});
    } else {
      var r :| r in rows && r.id in prev && r.cause.Some? && r.cause.value in Ids(rows) && r.cause.value == x;
      f := r.id;
      assert f in ChildIds(rows, {x});
    }
  }

  lemma {:induction false} NextGrows(rows: seq<Row>, small: set<nat>, large: set<nat>)
    requires small <= large
    ensures Next(rows, Both, small) <= Next(rows, Both, large)
  {
  }

  /** Each level is expanded from the one before, whose ids are among those seen. */
  lemma {:induction false} LevelIsExpanded(expand: Expand, limit: nat, frontier: seq<nat>, seen: set<nat>, depth: nat,
                                           i: nat) returns (seen': set<nat>)
    requires Elements(frontier) <= seen && i < |Levels(expand, limit, frontier, seen, depth)|
    ensures var levels := Levels(expand, limit, frontier, seen, depth);
            var before := FrontierBefore(levels, frontier, i);
            Elements(before) <= seen' && levels[i] == expand(before, seen')
    decreases i
  {
    hide IdsOf, Ids;
    var levels := Levels(expand, limit, frontier, seen, depth);
    if i == 0 {
      seen' := seen;
    } else {
      ElementsOfIds(levels[0]);
      assert levels[1..] == Levels(expand, limit, IdsOf(levels[0]), seen + Ids(levels[0]), depth + 1);
      seen' := LevelIsExpanded(expand, limit, IdsOf(levels[0]), seen + Ids(levels[0]), depth + 1, i - 1);
    }
  }

  /** The level walked from `last` alone holds an id of the frontier before it. */
  lemma {:induction false} LevelReturns(rows: seq<Row>, maxDepth: nat, before: seq<nat>, seen: set<nat>, last: seq<Row>)
    returns (f: nat)
    requires ById(rows) && Elements(before) <= seen && Elements(before) <= Ids(rows)
    requires last == Level(rows, Both, Exhaustive, maxDepth, before, seen) && last != []
    ensures f in before && f in Ids(Level(rows, Both, Exhaustive, maxDepth, IdsOf(last), Elements(IdsOf(last))))
  {
    var prev := Elements(before);
    PickElements(rows, Next(rows, Both, prev) - seen);
    assert last[0] in last;
    f := BackAgain(rows, prev, last[0].id);
    ElementsOfIds(last);
    NextGrows(rows, {last[0].id}, Elements(IdsOf(last)));
    PickElements(rows, Next(rows, Both, Elements(IdsOf(last))) - Elements(IdsOf(last)));
  }

  lemma {:induction false} FirstLevelOnPage(expand: Expand, start: nat, maxDepth: nat, resume: Option<Cursor>,
                                            budget: Budget, f: nat)
    requires var o := OriginOf(start, resume);
             o.depth <= maxDepth && o.frontier != [] && f in Ids(expand(o.frontier, o.seen))
    ensures f in Ids(Page(expand, start, maxDepth, resume, budget).data)
  {
    var o := OriginOf(start, resume);
    var levels := Levels(expand, maxDepth, o.frontier, o.seen, o.depth);
    var level := expand(o.frontier, o.seen);
    var r :| r in level && r.id == f;
    PageAdvances(expand, start, maxDepth, resume, budget);
    var k := if Page(expand, start, maxDepth, resume, budget).Complete? then |levels| else Fit([], levels, budget);
    assert levels[..|levels|] == levels;
    assert levels[..k][0] == level && Flatten(levels[..k]) == level + Flatten(levels[..k][1..]);
    assert r in Flatten(levels[..k]);
  }

  /** After a cut page, the next one holds an event of the frontier before the cut. */
  lemma {:induction false} NextPageReturns(rows: seq<Row>, start: nat, maxDepth: nat, resume: Option<Cursor>,
                                           budget: Budget, again: Budget) returns (f: nat)
    requires var expand := Expander(rows, Both, Exhaustive, maxDepth);
             var o := OriginOf(start, resume);
             var levels := Levels(expand, maxDepth, o.frontier, o.seen, o.depth);
             && ById(rows) && Page(expand, start, maxDepth, resume, budget).Truncated?
             && Elements(FrontierBefore(levels, o.frontier, Fit([], levels, budget) - 1)) <= Ids(rows)
    ensures var expand := Expander(rows, Both, Exhaustive, maxDepth);
            var o := OriginOf(start, resume);
            var levels := Levels(expand, maxDepth, o.frontier, o.seen, o.depth);
            var page := Page(expand, start, maxDepth, resume, budget);
            && f in FrontierBefore(levels, o.frontier, Fit([], levels, budget) - 1)
            && f in Ids(Page(expand, start, maxDepth, Some(page.cursor), again).data)
  {
    hide Levels, Fit, ById, Flatten, IdsOf;
    var expand := Expander(rows, Both, Exhaustive, maxDepth);
    var o := OriginOf(start, resume);
    var levels := Levels(expand, maxDepth, o.frontier, o.seen, o.depth);
    PageAdvances(expand, start, maxDepth, resume, budget);
    var page, k := Page(expand, start, maxDepth, resume, budget), Fit([], levels, budget);
    var seen := LevelIsExpanded(expand, maxDepth, o.frontier, o.seen, o.depth, k - 1);
    f := LevelReturns(rows, maxDepth, FrontierBefore(levels, o.frontier, k - 1), seen, levels[k - 1]);
    FirstLevelOnPage(expand, start, maxDepth, Some(page.cursor), again, f);
  }

  /** No event twice, and not the start. */
  ghost predicate NeverReturns(data: seq<Row>, start: nat)
  {
    DistinctIds(data) && start !in Ids(data)
  }

  lemma {:induction false} SharedIdReturns(pages: seq<Outcome>, i: nat, j: nat, start: nat, f: nat)
    requires i < j < |pages| && f in Ids(pages[j].data) && (f == start || f in Ids(pages[i].data))
    ensures !NeverReturns(DataOf(pages), start)
  {
    DataSplits(pages, j);
    var front, back := DataOf(pages[..j]), DataOf(pages[j..]);
    assert pages[j..][0] == pages[j] && back == pages[j].data + DataOf(pages[j..][1..]);
    var r :| r in pages[j].data && r.id == f;
    assert r in back && r in DataOf(pages);
    if f != start {
      DataSplits(pages[..j], i);
      assert pages[..j][i..][0] == pages[i];
      var q :| q in pages[i].data && q.id == f;
      assert q in DataOf(pages[..j][i..]) && q in front;
      TwoPlaces(front, back, q, r);
    }
  }

  lemma {:induction false} TwoPlaces(front: seq<Row>, back: seq<Row>, q: Row, r: Row)
    requires q in front && r in back && q.id == r.id
    ensures !DistinctIds(front + back)
  {
    var a :| 0 <= a < |front| && front[a] == q;
    var b :| 0 <= b < |back| && back[b] == r;
    assert (front + back)[a] == q && (front + back)[|front| + b] == r;
  }

  lemma {:induction false} DataSplits(pages: seq<Outcome>, j: nat)
    requires j <= |pages|
    ensures DataOf(pages) == DataOf(pages[..j]) + DataOf(pages[j..])
  {
    if j == 0 {
      assert pages[0..] == pages;
    } else {
      DataSplits(pages[1..], j - 1);
      assert pages[..j][1..] == pages[1..][..j - 1] && pages[1..][j - 1..] == pages[j..];
    }
  }

  /** Ids without a row make no difference to what counts as seen. */
  lemma {:induction false} UnstoredIrrelevant(rows: seq<Row>, maxDepth: nat, frontier: seq<nat>, seen: set<nat>,
                                              seen': set<nat>, depth: nat)
    requires forall x | x in Ids(rows) :: x in seen <==> x in seen'
    ensures var expand := Expander(rows, Both, Exhaustive, maxDepth);
            Levels(expand, maxDepth, frontier, seen, depth) == Levels(expand, maxDepth, frontier, seen', depth)
    decreases maxDepth + 1 - depth
  {
    hide IdsOf, Ids;
    var expand := Expander(rows, Both, Exhaustive, maxDepth);
    if depth <= maxDepth && frontier != [] {
      var next := Next(rows, Both, Elements(frontier));
      NextExists(rows, Both, Elements(frontier));
      assert next - seen == next - seen';
      var level := expand(frontier, seen);
      UnstoredIrrelevant(rows, maxDepth, IdsOf(level), seen + Ids(level), seen' + Ids(level), depth + 1);
    }
  }

  /** One page, or two from an event that is not stored, cut after the first level. */
  ghost predicate NothingToComeBackTo(rows: seq<Row>, start: nat, maxDepth: nat, pages: seq<Outcome>)
    requires pages != []
  {
    || |pages| == 1
    || (start !in Ids(rows) && |pages| == 2
        && pages[0].data == Level(rows, Both, Exhaustive, maxDepth, [start], {start}))
  }

  lemma {:induction false} WalkNeverReturns(rows: seq<Row>, start: nat, maxDepth: nat)
    requires ById(rows)
    ensures NeverReturns(Flatten(FullWalk(rows, start, Both, Exhaustive, maxDepth)), start)
  {
    hide Levels, Flatten, ById, DistinctIds;
    WalkNeverRepeats(Expander(rows, Both, Exhaustive, maxDepth), rows, Both, Exhaustive, maxDepth, [start], {start}, 1);
  }

  lemma {:induction false} FrontNeverReturns(all: seq<Row>, front: seq<Row>, start: nat)
    requires NeverReturns(all, start) && front <= all
    ensures NeverReturns(front, start)
  {
    assert forall i | 0 <= i < |front| :: front[i] == all[i] && front[i] in all;
  }

  /** What precedes the last level of a page is stored, and on the page unless it is where the page began. */
  lemma {:induction false} BeforeTheCut(rows: seq<Row>, maxDepth: nat, o: Origin, k: nat)
    requires var levels := Levels(Expander(rows, Both, Exhaustive, maxDepth), maxDepth, o.frontier, o.seen, o.depth);
             0 < k <= |levels| && Elements(o.frontier) <= o.seen && ById(rows)
    requires k == 1 ==> Elements(o.frontier) <= Ids(rows)
    ensures var levels := Levels(Expander(rows, Both, Exhaustive, maxDepth), maxDepth, o.frontier, o.seen, o.depth);
            var before := FrontierBefore(levels, o.frontier, k - 1);
            && Elements(before) <= Ids(rows)
            && forall f | f in before :: (k == 1 && f in o.frontier) || f in Ids(Flatten(levels[..k]))
  {
    hide Levels, Level, ById, Flatten;
    var expand := Expander(rows, Both, Exhaustive, maxDepth);
    var levels := Levels(expand, maxDepth, o.frontier, o.seen, o.depth);
    if k > 1 {
      var seen := LevelIsExpanded(expand, maxDepth, o.frontier, o.seen, o.depth, k - 2);
      var level := levels[k - 2];
      LevelIsFresh(rows, Both, Exhaustive, maxDepth, FrontierBefore(levels, o.frontier, k - 2), seen);
      ElementsOfIds(level);
      LevelOnPage(levels[..k], k - 2);
      forall f | f in IdsOf(level) ensures f in Ids(rows) && f in Ids(Flatten(levels[..k])) {
        assert f in Elements(IdsOf(level));
      }
    }
  }

  lemma {:induction false} LevelOnPage(levels: seq<seq<Row>>, i: nat)
    requires i < |levels|
    ensures forall r | r in levels[i] :: r in Flatten(levels)
    ensures Ids(levels[i]) <= Ids(Flatten(levels))
  {
    if i > 0 {
      LevelOnPage(levels[1..], i - 1);
    }
  }

  lemma {:induction false} FirstPageLevels(rows: seq<Row>, start: nat, maxDepth: nat, budget: Budget)
    requires var page := Page(Expander(rows, Both, Exhaustive, maxDepth), start, maxDepth, None, budget);
             page.Truncated? && page.data == Level(rows, Both, Exhaustive, maxDepth, [start], {start})
    ensures var levels := FullWalk(rows, start, Both, Exhaustive, maxDepth);
            |levels| > 1 && Fit([], levels, budget) == 1
  {
    hide Fit, Flatten, Level;
    var expand := Expander(rows, Both, Exhaustive, maxDepth);
    var levels := FullWalk(rows, start, Both, Exhaustive, maxDepth);
    PageAdvances(expand, start, maxDepth, None, budget);
    var k := Fit([], levels, budget);
    assert levels[0] == Level(rows, Both, Exhaustive, maxDepth, [start], {start});
    OneLevel(levels);
    if k > 1 {
      FlattenPrefix(levels[..1], levels[..k]);
    }
  }

  lemma {:induction false} OneLevel(levels: seq<seq<Row>>)
    requires levels != []
    ensures Flatten(levels[..1]) == levels[0]
  {
    assert levels[..1][1..] == [] && Flatten([]) == [];
  }

  /** From an event that is not stored, the page after the first level goes on as the whole walk does. */
  lemma {:induction false} UnstoredResumes(rows: seq<Row>, start: nat, maxDepth: nat, budget: Budget)
    requires start !in Ids(rows)
    requires var page := Page(Expander(rows, Both, Exhaustive, maxDepth), start, maxDepth, None, budget);
             page.Truncated? && page.data == Level(rows, Both, Exhaustive, maxDepth, [start], {start})
    ensures var expand := Expander(rows, Both, Exhaustive, maxDepth);
            var walk := FullWalk(rows, start, Both, Exhaustive, maxDepth);
            var page := Page(expand, start, maxDepth, None, budget);
            var next := OriginOf(start, Some(page.cursor));
            && |walk| > 1 && page.data == walk[0] && next.frontier == IdsOf(walk[0]) && next.seen == Ids(walk[0])
            && walk[1..] == Levels(expand, maxDepth, next.frontier, next.seen, next.depth)
  {
    hide Fit, Flatten, Level, IdsOf;
    var expand := Expander(rows, Both, Exhaustive, maxDepth);
    var walk := FullWalk(rows, start, Both, Exhaustive, maxDepth);
    FirstPageLevels(rows, start, maxDepth, budget);
    PageAdvances(expand, start, maxDepth, None, budget);
    OneLevel(walk);
    ElementsOfIds(walk[0]);
    assert walk[1..] == Levels(expand, maxDepth, IdsOf(walk[0]), {start} + Ids(walk[0]), 2);
    UnstoredIrrelevant(rows, maxDepth, IdsOf(walk[0]), {start} + Ids(walk[0]), Ids(walk[0]), 2);
  }

  lemma {:induction false} TwoPagesFromUnstored(rows: seq<Row>, start: nat, maxDepth: nat, budgets: nat -> Budget,
                                                pages: seq<Outcome>)
    requires Paged(Expander(rows, Both, Exhaustive, maxDepth), start, maxDepth, None, budgets, 0, pages)
    requires |pages| == 2 && NothingToComeBackTo(rows, start, maxDepth, pages)
    ensures var walk := FullWalk(rows, start, Both, Exhaustive, maxDepth);
            && DataOf(pages) <= Flatten(walk)
            && (pages[1].Complete? ==> DataOf(pages) == Flatten(walk))
  {
    hide Levels, Fit, Flatten, Level, Page, IdsOf;
    var expand := Expander(rows, Both, Exhaustive, maxDepth);
    var walk := FullWalk(rows, start, Both, Exhaustive, maxDepth);
    UnstoredResumes(rows, start, maxDepth, budgets(0));
    PageAdvances(expand, start, maxDepth, Some(pages[0].cursor), budgets(1));
    OneLevel(walk);
    FlattenResumed(walk, 1, walk[1..]);
    assert pages[1..] == [pages[1]] && pages[1..][1..] == [];
    assert DataOf(pages[1..]) == pages[1..][0].data + DataOf(pages[1..][1..]);
    if pages[1].Truncated? {
      var k := Fit([], walk[1..], budgets(1));
      FlattenResumed(walk[1..], k, walk[1..][k..]);
    }
  }

  lemma {:induction false} PagesReturn(rows: seq<Row>, start: nat, maxDepth: nat, budgets: nat -> Budget,
                                       pages: seq<Outcome>)
    requires ById(rows)
    requires Paged(Expander(rows, Both, Exhaustive, maxDepth), start, maxDepth, None, budgets, 0, pages)
    requires !NothingToComeBackTo(rows, start, maxDepth, pages)
    ensures !NeverReturns(DataOf(pages), start)
  {
    hide Levels, Fit, ById, Flatten, Level, Page, IdsOf, NeverReturns;
    var expand := Expander(rows, Both, Exhaustive, maxDepth);
    var walk := FullWalk(rows, start, Both, Exhaustive, maxDepth);
    var k := Fit([], walk, budgets(0));
    PageAdvances(expand, start, maxDepth, None, budgets(0));
    assert pages[1] == Page(expand, start, maxDepth, Some(pages[0].cursor), budgets(1));
    if start in Ids(rows) || k > 1 {
      BeforeTheCut(rows, maxDepth, OriginOf(start, None), k);
      var f := NextPageReturns(rows, start, maxDepth, None, budgets(0), budgets(1));
      SharedIdReturns(pages, 0, 1, start, f);
    } else {
      OneLevel(walk);
      FirstOfWalk(rows, start, maxDepth);
      UnstoredResumes(rows, start, maxDepth, budgets(0));
      var next := OriginOf(start, Some(pages[0].cursor));
      assert pages[1..][0] == pages[1] && pages[1..][1] == pages[2];
      assert Paged(expand, start, maxDepth, Some(pages[1].cursor), budgets, 2, pages[1..][1..]);
      assert pages[2] == Page(expand, start, maxDepth, Some(pages[1].cursor), budgets(2));
      PageAdvances(expand, start, maxDepth, Some(pages[0].cursor), budgets(1));
      var c := Fit([], walk[1..], budgets(1));
      FirstIsStored(rows, start, maxDepth);
      BeforeTheCut(rows, maxDepth, next, c);
      var f := NextPageReturns(rows, start, maxDepth, Some(pages[0].cursor), budgets(1), budgets(2));
      ElementsOfIds(walk[0]);
      if f in Ids(pages[1].data) {
        SharedIdReturns(pages, 1, 2, start, f);
      } else {
        assert f in Elements(IdsOf(walk[0]));
        SharedIdReturns(pages, 0, 2, start, f);
      }
    }
  }

  lemma {:induction false} FirstOfWalk(rows: seq<Row>, start: nat, maxDepth: nat)
    requires FullWalk(rows, start, Both, Exhaustive, maxDepth) != []
    ensures FullWalk(rows, start, Both, Exhaustive, maxDepth)[0]
         == Level(rows, Both, Exhaustive, maxDepth, [start], {start})
  {
  }

  lemma {:induction false} FirstIsStored(rows: seq<Row>, start: nat, maxDepth: nat)
    requires ById(rows) && FullWalk(rows, start, Both, Exhaustive, maxDepth) != []
    ensures Ids(FullWalk(rows, start, Both, Exhaustive, maxDepth)[0]) <= Ids(rows)
  {
    hide Level, ById;
    LevelIsFresh(rows, Both, Exhaustive, maxDepth, [start], {start});
  }

  /**
   Following cursors through an exhaustive walk in direction Both comes back to an event already read, or to the
   start, as soon as there is something to come back to; until then, and only then, it is lossless.
   */
  lemma {:induction false} BothPagingExactly(rows: seq<Row>, start: nat, maxDepth: nat, budgets: nat -> Budget,
                                             pages: seq<Outcome>)
    requires ById(rows)
    requires Paged(Expander(rows, Both, Exhaustive, maxDepth), start, maxDepth, None, budgets, 0, pages)
    ensures NeverReturns(DataOf(pages), start) <==> NothingToComeBackTo(rows, start, maxDepth, pages)
    ensures pages[|pages| - 1].Complete? ==>
              (DataOf(pages) == Flatten(FullWalk(rows, start, Both, Exhaustive, maxDepth))
               <==> NothingToComeBackTo(rows, start, maxDepth, pages))
  {
    hide Levels, Fit, ById, Flatten, IdsOf, DistinctIds, Fresh, Page, Level;
    var expand := Expander(rows, Both, Exhaustive, maxDepth);
    var walk := Levels(expand, maxDepth, [start], {start}, 1);
    WalkNeverReturns(rows, start, maxDepth);
    PageAdvances(expand, start, maxDepth, None, budgets(0));
    if |pages| == 1 {
      assert DataOf(pages[1..]) == [] && DataOf(pages) == pages[0].data;
      if pages[0].Truncated? {
        FlattenResumed(walk, Fit([], walk, budgets(0)), walk[Fit([], walk, budgets(0))..]);
      }
      FrontNeverReturns(Flatten(walk), pages[0].data, start);
    } else if NothingToComeBackTo(rows, start, maxDepth, pages) {
      TwoPagesFromUnstored(rows, start, maxDepth, budgets, pages);
      FrontNeverReturns(Flatten(walk), DataOf(pages), start);
    } else {
      PagesReturn(rows, start, maxDepth, budgets, pages);
    }
  }

  // ----- A chain of three events -----

  function Caused(id: nat, cause: Option<nat>): Row
  {
    Event(id, "s", "main", 0, 0, cause, None, [], 1, [], Cce.Null, None)
  }

  /** The second causes the third and is caused by the first. */
  const CHAIN: seq<Row> := [Caused(1, None), Caused(2, Some(1)), Caused(3, Some(2))]

  /** Walked from the first, one event to a page, the page after the second event gives the first. */
  lemma {:induction false} ChainReturns(maxDepth: nat)
    requires maxDepth >= 2
    ensures var expand, one := Expander(CHAIN, Both, Exhaustive, maxDepth), Budget(Some(1), None);
            var first := Page(expand, 1, maxDepth, None, one);
            && first.Truncated? && first.data == [CHAIN[1]]
            && 1 in Ids(Page(expand, 1, maxDepth, Some(first.cursor), one).data)
  {
    ChainIds();
    ChainNext();
    ChainPicks();
    assert Elements([1]) == {1} && Elements([2]) == {2};
    SecondPageReturns(CHAIN, 1, maxDepth, CHAIN[1]);
  }

  /** From a start with one neighbour, which has another, at one event to a page the second page holds the start. */
  lemma {:induction false} SecondPageReturns(rows: seq<Row>, start: nat, maxDepth: nat, r: Row)
    requires ById(rows) && start in Ids(rows) && maxDepth >= 2
    requires Pick(rows, Next(rows, Both, Elements([start])) - {start}) == [r]
    requires Pick(rows, Next(rows, Both, Elements([r.id])) - {start, r.id}) != []
    ensures var expand, one := Expander(rows, Both, Exhaustive, maxDepth), Budget(Some(1), None);
            var first := Page(expand, start, maxDepth, None, one);
            && first.Truncated? && first.data == [r]
            && start in Ids(Page(expand, start, maxDepth, Some(first.cursor), one).data)
  {
    hide Page, Fit, Pick, Next, ById, Elements;
    var expand, one := Expander(rows, Both, Exhaustive, maxDepth), Budget(Some(1), None);
    var walk := FullWalk(rows, start, Both, Exhaustive, maxDepth);
    assert walk[0] == [r];
    assert IdsOf([r]) == [r.id] && {start} + Ids([r]) == {start, r.id};
    assert walk[1..] == Levels(expand, maxDepth, [r.id], {start, r.id}, 2);
    assert |walk| > 1;
    OneLevel(walk);
    FitExactly(walk, 1);
    assert Fit([], walk, one) == 1;
    PageAdvances(expand, start, maxDepth, None, one);
    PageIsWholeLevels(expand, start, maxDepth, None, one);
    assert Elements([start]) == {start} by { StartAlone(start); }
    BeforeTheCut(rows, maxDepth, OriginOf(start, None), 1);
    var f := NextPageReturns(rows, start, maxDepth, None, one, one);
  }

  lemma {:induction false} StartAlone(start: nat)
    ensures Elements([start]) == {start}
  {
  }

  lemma {:induction false} ChainIds()
    ensures ById(CHAIN) && Ids(CHAIN) == {1, 2, 3}
  {
    assert forall r :: r in CHAIN <==> r == CHAIN[0] || r == CHAIN[1] || r == CHAIN[2];
  }

  lemma {:induction false} ChainNext()
    ensures Next(CHAIN, Both, {1}) - {1} == {2} && Next(CHAIN, Both, {2}) - {1, 2} == {3}
  {
    ChainIds();
    assert forall r :: r in CHAIN <==> r == CHAIN[0] || r == CHAIN[1] || r == CHAIN[2];
  }

  lemma {:induction false} ChainPicks()
    ensures Pick(CHAIN, {2}) == [CHAIN[1]] && Pick(CHAIN, {3}) == [CHAIN[2]]
  {
    var b, c := CHAIN[1], CHAIN[2];
    assert CHAIN[1..] == [b, c] && [b, c][1..] == [c] && [c][1..] == [];
    assert Pick([c], {2}) == [] && Pick([c], {3}) == [c];
    assert Pick([b, c], {2}) == [b] && Pick([b, c], {3}) == [c];
  }
}
