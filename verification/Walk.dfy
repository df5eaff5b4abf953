/**
 The bounded causation walk (src/cross_stream.rs): a frontier loop with sampling, budgets, cuts at
 level boundaries and a resume cursor.

 The table is the sequence of its rows in primary-key order, so `ORDER BY id ASC` keeps the order of
 the table.  `Levels` is the walk without a budget, level by level; `Page` is what one call returns.
 */
module Walk {
  import opened Types
  import opened Events

  type Row = Event<nat>

  datatype Direction = Forward | Backward | Both

  datatype Sampling = Exhaustive | BreadthFirst(maxPerLevel: nat) | Adaptive(targetCount: nat)

  datatype Cursor = Cursor(frontier: seq<nat>, depthConsumed: nat)

  datatype Budget = Budget(maxResults: Option<nat>, maxBytes: Option<nat>)

  type Outcome = ReadOutcome<Cursor>

  // ----- The table and its edges -----

  function IdsOf(rows: seq<Row>): (r: seq<nat>)
    ensures |r| == |rows|
    ensures forall i | 0 <= i < |rows| :: r[i] == rows[i].id
  {
    seq(|rows|, i requires 0 <= i < |rows| => rows[i].id)
  }

  function Ids(rows: seq<Row>): set<nat>
  {
    set r | r in rows :: r.id
  }

  function Elements(ids: seq<nat>): set<nat>
  {
    set x | x in ids
  }

  /** The rows whose id is in `ids`, in id order. */
  function Pick(rows: seq<Row>, ids: set<nat>): seq<Row>
  {
    if rows == [] then []
    else if rows[0].id in ids then [rows[0]] + Pick(rows[1..], ids)
    else Pick(rows[1..], ids)
  }

  /** Ids of the rows whose cause is in the frontier. */
  function ChildIds(rows: seq<Row>, frontier: set<nat>): set<nat>
  {
    set r | r in rows && r.cause.Some? && r.cause.value in frontier :: r.id
  }

  /** Ids of the rows that are the cause of a frontier row. */
  function ParentIds(rows: seq<Row>, frontier: set<nat>): set<nat>
  {
    set r | r in rows && r.id in frontier && r.cause.Some? && r.cause.value in Ids(rows) :: r.cause.value
  }

  /** Ids of the existing rows one step from the frontier. */
  function Next(rows: seq<Row>, dir: Direction, frontier: set<nat>): set<nat>
  {
    match dir
    case Forward => ChildIds(rows, frontier)
    case Backward => ParentIds(rows, frontier)
    case Both => ChildIds(rows, frontier) + ParentIds(rows, frontier)
  }

  lemma {:induction false} PickMembers(rows: seq<Row>, ids: set<nat>)
    ensures forall r :: r in Pick(rows, ids) <==> r in rows && r.id in ids
  {
    if rows != [] {
      PickMembers(rows[1..], ids);
      assert forall r :: r in rows <==> r == rows[0] || r in rows[1..];
    }
  }

  lemma {:induction false} PickOrdered(rows: seq<Row>, ids: set<nat>)
    requires ById(rows)
    ensures ById(Pick(rows, ids))
  {
    if rows != [] {
      PickOrdered(rows[1..], ids);
      PickMembers(rows[1..], ids);
      var rest := Pick(rows[1..], ids);
      forall j | 0 <= j < |rest|
        ensures rows[0].id < rest[j].id
      {
        assert rest[j] in rest && rest[j] in rows[1..];
      }
    }
  }

  lemma {:induction false} PickElements(rows: seq<Row>, ids: set<nat>)
    ensures forall r :: r in Pick(rows, ids) <==> r in rows && r.id in ids
    ensures Ids(Pick(rows, ids)) == Ids(rows) * ids
    ensures ById(rows) ==> ById(Pick(rows, ids))
  {
    hide Pick, ById;
    PickMembers(rows, ids);
    if ById(rows) {
      PickOrdered(rows, ids);
    }
  }

  lemma {:induction false} NextExists(rows: seq<Row>, dir: Direction, frontier: set<nat>)
    ensures Next(rows, dir, frontier) <= Ids(rows)
  {
  }

  // ----- The walk without a budget -----

  function Sample(level: seq<Row>, sampling: Sampling, maxDepth: nat): (r: seq<Row>)
    ensures r <= level
  {
    match sampling
    case Exhaustive => level
    case BreadthFirst(n) => if |level| <= n then level else level[..n]
    case Adaptive(t) =>
      var perLevel := t / (if maxDepth == 0 then 1 else maxDepth);
      var n := if perLevel == 0 then 1 else perLevel;
      if |level| <= n then level else level[..n]
  }

  function Level(rows: seq<Row>, dir: Direction, sampling: Sampling, maxDepth: nat, frontier: seq<nat>, seen: set<nat>)
    : seq<Row>
  {
    Sample(Pick(rows, Next(rows, dir, Elements(frontier)) - seen), sampling, maxDepth)
  }

  ghost predicate NoEmptyLevel(levels: seq<seq<Row>>)
  {
    forall i | 0 <= i < |levels| :: levels[i] != []
  }

  /** How a frontier and the ids seen so far give the next level. */
  type Expand = (seq<nat>, set<nat>) -> seq<Row>

  function Expander(rows: seq<Row>, dir: Direction, sampling: Sampling, maxDepth: nat): Expand
  {
    (frontier, seen) => Level(rows, dir, sampling, maxDepth, frontier, seen)
  }

  /** The levels of a walk, from a frontier at a given depth down to `maxDepth` or the first empty level. */
  function Levels(expand: Expand, maxDepth: nat, frontier: seq<nat>, seen: set<nat>, depth: nat)
    : (levels: seq<seq<Row>>)
    ensures NoEmptyLevel(levels)
    ensures |levels| <= (if depth > maxDepth then 0 else maxDepth + 1 - depth)
    decreases maxDepth + 1 - depth
  {
    if depth > maxDepth || frontier == [] then []
    else
      var level := expand(frontier, seen);
      if level == [] then []
      else [level] + Levels(expand, maxDepth, IdsOf(level), seen + Ids(level), depth + 1)
  }

  function Flatten(levels: seq<seq<Row>>): seq<Row>
  {
    if levels == [] then [] else levels[0] + Flatten(levels[1..])
  }

  /** The whole walk from `start`, as one call without budgets yields it. */
  function FullWalk(rows: seq<Row>, start: nat, dir: Direction, sampling: Sampling, maxDepth: nat): seq<seq<Row>>
  {
    Levels(Expander(rows, dir, sampling, maxDepth), maxDepth, [start], {start}, 1)
  }

  // ----- One page -----

  function Size(rows: seq<Row>): nat
  {
    if rows == [] then 0 else |rows[0].payload| + Size(rows[1..])
  }

  predicate CountExceeds(n: nat, budget: Budget)
  {
    budget.maxResults.Some? && n > budget.maxResults.value
  }

  predicate BytesExceed(n: nat, budget: Budget)
  {
    budget.maxBytes.Some? && n > budget.maxBytes.value
  }

  predicate Within(data: seq<Row>, budget: Budget)
  {
    !CountExceeds(|data|, budget) && !BytesExceed(Size(data), budget)
  }

  /** How many of `levels` still fit on a page that already holds `done`; the first level always fits. */
  function Fit(done: seq<Row>, levels: seq<seq<Row>>, budget: Budget): (k: nat)
    ensures k <= |levels|
    ensures done == [] && levels != [] ==> k > 0
    decreases |levels|
  {
    if levels == [] || (done != [] && !Within(done + levels[0], budget)) then 0
    else 1 + Fit(done + levels[0], levels[1..], budget)
  }

  /** Where a call starts: its frontier, the ids it holds as seen, and its first depth. */
  datatype Origin = Origin(frontier: seq<nat>, seen: set<nat>, depth: nat)

  function OriginOf(start: nat, resume: Option<Cursor>): Origin
  {
    match resume
    case None => Origin([start], {start}, 1)
    case Some(c) => Origin(c.frontier, Elements(c.frontier), c.depthConsumed + 1)
  }

  /** The page that holds the first `k` levels of a walk from `o`. */
  function PageOf(levels: seq<seq<Row>>, o: Origin, k: nat, budget: Budget): Outcome
    requires k <= |levels| && o.depth >= 1
  {
    if k == |levels| then Complete(Flatten(levels))
    else
      var data := Flatten(levels[..k]);
      var frontier := if k == 0 then o.frontier else IdsOf(levels[k - 1]);
      Truncated(data, Cursor(frontier, (o.depth - 1 + k) % TWO_32),
                if CountExceeds(|data| + |levels[k]|, budget) then ResultCount else ByteSize)
  }

  function Page(expand: Expand, start: nat, maxDepth: nat, resume: Option<Cursor>, budget: Budget): Outcome
  {
    var o := OriginOf(start, resume);
    var levels := Levels(expand, maxDepth, o.frontier, o.seen, o.depth);
    PageOf(levels, o, Fit([], levels, budget), budget)
  }

  lemma {:induction false} FlattenAppend(a: seq<seq<Row>>, b: seq<seq<Row>>)
    ensures Flatten(a + b) == Flatten(a) + Flatten(b)
  {
    if a == [] {
      assert a + b == b;
    } else {
      FlattenAppend(a[1..], b);
      assert (a + b)[1..] == a[1..] + b && (a + b)[0] == a[0];
      Regrouped(a[0], Flatten(a[1..]), Flatten(b));
    }
  }

  lemma {:induction false} Regrouped(a: seq<Row>, b: seq<Row>, c: seq<Row>)
    ensures a + (b + c) == a + b + c
  {
  }

  lemma {:induction false} SizeAppend(a: seq<Row>, b: seq<Row>)
    ensures Size(a + b) == Size(a) + Size(b)
  {
    if a == [] {
      assert a + b == b;
    } else {
      SizeAppend(a[1..], b);
      assert (a + b)[1..] == a[1..] + b;
    }
  }

  /** A page is within budget unless it is a single level, and the next level would not fit. */
  lemma {:induction false} FitIsMaximal(done: seq<Row>, levels: seq<seq<Row>>, budget: Budget)
    requires NoEmptyLevel(levels)
    ensures var k := Fit(done, levels, budget);
            && ((done != [] && k > 0) || k > 1 ==> Within(done + Flatten(levels[..k]), budget))
            && (k < |levels| ==> !Within(done + Flatten(levels[..k + 1]), budget))
    decreases |levels|
  {
    var k := Fit(done, levels, budget);
    if levels != [] {
      FlattenTakeStep(done, levels, k);
      if k == 0 {
        assert Flatten(levels[1..][..0]) == [];
        assert done + levels[0] + Flatten(levels[1..][..0]) == done + levels[0];
        FlattenTakeStep(done, levels, 1);
      } else {
        FitIsMaximal(done + levels[0], levels[1..], budget);
        if k == 1 {
          assert done + levels[0] + Flatten(levels[1..][..0]) == done + levels[0];
        }
        if k < |levels| {
          FlattenTakeStep(done, levels, k + 1);
        }
      }
    }
  }

  lemma {:induction false} FlattenTakeStep(done: seq<Row>, levels: seq<seq<Row>>, k: nat)
    requires levels != [] && k <= |levels|
    ensures k > 0 ==> done + Flatten(levels[..k]) == done + levels[0] + Flatten(levels[1..][..k - 1])
  {
    if k > 0 {
      assert levels[..k][1..] == levels[1..][..k - 1];
    }
  }

  // ----- What a walk and a page are, without sampling and cutting -----

  /** `r` is one step from the frontier. */
  ghost predicate IsNeighbour(rows: seq<Row>, dir: Direction, frontier: seq<nat>, r: Row)
  {
    || (dir != Backward && r.cause.Some? && r.cause.value in frontier)
    || (dir != Forward && exists child :: child in rows && child.id in frontier && child.cause == Some(r.id))
  }

  /**
   The unseen neighbours of the frontier by ascending id: all of them without a bound, else the first ones up to
   the bound.
   */
  ghost predicate IsLevel(rows: seq<Row>, dir: Direction, bound: Option<nat>, frontier: seq<nat>, seen: set<nat>,
                          level: seq<Row>)
  {
    && ById(level) && (bound.Some? ==> |level| <= bound.value)
    && (forall r | r in level :: r in rows && r.id !in seen && IsNeighbour(rows, dir, frontier, r))
    && forall r | r in rows && r.id !in seen && r !in level && IsNeighbour(rows, dir, frontier, r) ::
         bound == Some(|level|) && forall x | x in level :: x.id < r.id
  }

  /**
   How many rows of a level the sampling mode keeps: all, a fixed number, or an even share of a target, at least one.
   */
  ghost predicate IsBound(sampling: Sampling, maxDepth: nat, bound: Option<nat>)
  {
    match sampling
    case Exhaustive => bound == None
    case BreadthFirst(maxPerLevel) => bound == Some(maxPerLevel)
    case Adaptive(target) =>
      && bound.Some? && bound.value >= 1
      && (maxDepth <= 1 ==> bound.value == if target == 0 then 1 else target)
      && (maxDepth > 1 ==> bound.value * maxDepth <= target < (bound.value + 1) * maxDepth
                           || (bound.value == 1 && target < maxDepth))
  }

  function FrontierBefore(levels: seq<seq<Row>>, frontier: seq<nat>, i: nat): seq<nat>
    requires i <= |levels|
  {
    if i == 0 then frontier else IdsOf(levels[i - 1])
  }

  function SeenBefore(levels: seq<seq<Row>>, seen: set<nat>, i: nat): set<nat>
    requires i <= |levels|
  {
    seen + Ids(Flatten(levels[..i]))
  }

  /**
   Each level follows from the one before and from all that was seen, down to the depth limit or to where there is
   nothing more.
   */
  ghost predicate IsWalk(rows: seq<Row>, dir: Direction, bound: Option<nat>, maxDepth: nat, o: Origin,
                         levels: seq<seq<Row>>)
  {
    && (forall i | 0 <= i < |levels| ::
          && levels[i] != []
          && IsLevel(rows, dir, bound, FrontierBefore(levels, o.frontier, i), SeenBefore(levels, o.seen, i), levels[i]))
    && (levels == [] || o.depth + |levels| <= maxDepth + 1)
    && (o.depth + |levels| <= maxDepth ==>
          IsLevel(rows, dir, bound, FrontierBefore(levels, o.frontier, |levels|),
                  SeenBefore(levels, o.seen, |levels|), []))
  }

  /**
   The first `k` of the levels, more than one only within both budgets; what remains is announced by the last
   frontier and the depth so far, and the next level would have broken the budget that is named.
   */
  ghost predicate IsCutAt(levels: seq<seq<Row>>, o: Origin, budget: Budget, page: Outcome, k: nat)
  {
    && k <= |levels| && (levels != [] ==> k > 0) && page.data == Flatten(levels[..k])
    && (k > 1 && budget.maxResults.Some? ==> |page.data| <= budget.maxResults.value)
    && (k > 1 && budget.maxBytes.Some? ==> Size(page.data) <= budget.maxBytes.value)
    && (page.Complete? <==> k == |levels|)
    && (page.Truncated? && 0 < k < |levels| ==>
          var tooMany := budget.maxResults.Some? && |page.data| + |levels[k]| > budget.maxResults.value;
          var tooBig := budget.maxBytes.Some? && Size(page.data) + Size(levels[k]) > budget.maxBytes.value;
          && (tooMany || tooBig) && (page.reason.ResultCount? <==> tooMany)
          && page.cursor.frontier == IdsOf(levels[k - 1])
          && page.cursor.depthConsumed == (o.depth - 1 + k) % 0x1_0000_0000)
  }

  /** The origin of a call: the start, seen and at depth 1, or the frontier of a cursor. */
  ghost predicate IsOrigin(start: nat, resume: Option<Cursor>, o: Origin)
  {
    match resume
    case None => o.frontier == [start] && o.seen == {start} && o.depth == 1
    case Some(c) =>
      o.frontier == c.frontier && (forall x :: x in o.seen <==> x in c.frontier) && o.depth == c.depthConsumed + 1
  }

  lemma {:induction false} LevelIsLevel(rows: seq<Row>, dir: Direction, sampling: Sampling, maxDepth: nat,
                                        bound: Option<nat>, frontier: seq<nat>, seen: set<nat>)
    requires ById(rows) && IsBound(sampling, maxDepth, bound)
    ensures IsLevel(rows, dir, bound, frontier, seen, Level(rows, dir, sampling, maxDepth, frontier, seen))
  {
    hide Pick, Next, IsNeighbour;
    var ids := Next(rows, dir, Elements(frontier)) - seen;
    var all := Pick(rows, ids);
    PickElements(rows, ids);
    NeighboursAreNext(rows, dir, frontier);
    SampleBounds(all, sampling, maxDepth, bound);
    var level := Sample(all, sampling, maxDepth);
    FrontOfOrdered(all, level);
  }

  lemma {:induction false} NeighboursAreNext(rows: seq<Row>, dir: Direction, frontier: seq<nat>)
    requires ById(rows)
    ensures forall r | r in rows :: IsNeighbour(rows, dir, frontier, r) <==> r.id in Next(rows, dir, Elements(frontier))
  {
    forall r | r in rows
      ensures IsNeighbour(rows, dir, frontier, r) <==> r.id in Next(rows, dir, Elements(frontier))
    {
      assert forall q | q in rows && q.id == r.id :: q == r;
      assert r.id in ChildIds(rows, Elements(frontier)) <==> r.cause.Some? && r.cause.value in frontier;
    }
  }

  lemma {:induction false} SampleBounds(level: seq<Row>, sampling: Sampling, maxDepth: nat, bound: Option<nat>)
    requires IsBound(sampling, maxDepth, bound)
    ensures Sample(level, sampling, maxDepth)
         == if bound.Some? && bound.value < |level| then level[..bound.value] else level
  {
    if sampling.Adaptive? && maxDepth > 1 {
      Quotient(sampling.targetCount, maxDepth, bound.value);
    }
  }

  lemma {:induction false} BoundFor(sampling: Sampling, maxDepth: nat) returns (bound: Option<nat>)
    ensures IsBound(sampling, maxDepth, bound)
  {
    match sampling
    case Exhaustive => bound := None;
    case BreadthFirst(n) => bound := Some(n);
    case Adaptive(target) =>
      if maxDepth <= 1 {
        bound := Some(if target == 0 then 1 else target);
      } else {
        var q := target / maxDepth;
        assert q * maxDepth <= target < (q + 1) * maxDepth;
        bound := Some(if q == 0 then 1 else q);
      }
  }

  lemma {:induction false} Quotient(target: nat, share: nat, bound: nat)
    requires share > 1 && bound >= 1
    requires bound * share <= target < (bound + 1) * share || (bound == 1 && target < share)
    ensures bound == if target / share == 0 then 1 else target / share
  {
    var q := target / share;
    assert q * share <= target < (q + 1) * share;
    Multiples(q + 1, bound, share);
    Multiples(bound + 1, q, share);
  }

  lemma {:induction false} Multiples(a: nat, b: nat, share: nat)
    ensures a <= b ==> a * share <= b * share
  {
  }

  lemma {:induction false} FrontOfOrdered(all: seq<Row>, level: seq<Row>)
    requires ById(all) && level <= all
    ensures ById(level) && (forall r | r in level :: r in all)
    ensures forall r, x | r in all && r !in level && x in level :: x.id < r.id
    ensures (exists r :: r in all && r !in level) ==> |level| < |all|
  {
    forall r, x | r in all && r !in level && x in level ensures x.id < r.id {
      var i :| 0 <= i < |all| && all[i] == r;
      var j :| 0 <= j < |level| && level[j] == x;
      assert i >= |level| && all[j] == x;
    }
  }

  lemma {:induction false} LevelsAreWalk(rows: seq<Row>, dir: Direction, sampling: Sampling, maxDepth: nat,
                                         bound: Option<nat>, frontier: seq<nat>, seen: set<nat>, depth: nat)
    requires ById(rows) && IsBound(sampling, maxDepth, bound)
    ensures IsWalk(rows, dir, bound, maxDepth, Origin(frontier, seen, depth),
                   Levels(Expander(rows, dir, sampling, maxDepth), maxDepth, frontier, seen, depth))
    decreases maxDepth + 1 - depth
  {
    hide Level, IsLevel, IsBound, Ids, IdsOf, SeenBefore, IsWalk, ById;
    var levels := Levels(Expander(rows, dir, sampling, maxDepth), maxDepth, frontier, seen, depth);
    var level := Level(rows, dir, sampling, maxDepth, frontier, seen);
    LevelIsLevel(rows, dir, sampling, maxDepth, bound, frontier, seen);
    assert SeenBefore(levels, seen, 0) == seen by { NothingSeen(levels, seen); }
    if frontier == [] {
      NoFrontier(rows, dir, bound, seen);
    }
    if levels == [] {
      EmptyWalk(rows, dir, bound, maxDepth, Origin(frontier, seen, depth));
    } else {
      var rest := Levels(Expander(rows, dir, sampling, maxDepth), maxDepth, IdsOf(level), seen + Ids(level), depth + 1);
      LevelsAreWalk(rows, dir, sampling, maxDepth, bound, IdsOf(level), seen + Ids(level), depth + 1);
      WalkFromLevel(rows, dir, bound, maxDepth, Origin(frontier, seen, depth), level, rest);
    }
  }

  lemma {:induction false} NothingSeen(levels: seq<seq<Row>>, seen: set<nat>)
    ensures SeenBefore(levels, seen, 0) == seen
  {
    assert Flatten(levels[..0]) == [] && Ids([]) == {};
  }

  lemma {:induction false} EmptyWalk(rows: seq<Row>, dir: Direction, bound: Option<nat>, maxDepth: nat, o: Origin)
    requires o.depth <= maxDepth ==> IsLevel(rows, dir, bound, o.frontier, o.seen, [])
    ensures IsWalk(rows, dir, bound, maxDepth, o, [])
  {
    hide IsLevel;
    NothingSeen([], o.seen);
  }

  lemma {:induction false} NoFrontier(rows: seq<Row>, dir: Direction, bound: Option<nat>, seen: set<nat>)
    ensures IsLevel(rows, dir, bound, [], seen, [])
  {
  }

  lemma {:induction false} WalkFromLevel(rows: seq<Row>, dir: Direction, bound: Option<nat>, maxDepth: nat, o: Origin,
                                         level: seq<Row>, rest: seq<seq<Row>>)
    requires level != [] && IsLevel(rows, dir, bound, o.frontier, o.seen, level) && o.depth <= maxDepth
    requires IsWalk(rows, dir, bound, maxDepth, Origin(IdsOf(level), o.seen + Ids(level), o.depth + 1), rest)
    ensures IsWalk(rows, dir, bound, maxDepth, o, [level] + rest)
  {
    hide IsLevel, IdsOf;
    var levels := [level] + rest;
    NothingSeen(levels, o.seen);
    forall i | 0 <= i <= |rest|
      ensures FrontierBefore(levels, o.frontier, i + 1) == FrontierBefore(rest, IdsOf(level), i)
      ensures SeenBefore(levels, o.seen, i + 1) == SeenBefore(rest, o.seen + Ids(level), i)
    {
      SeenAfterLevel(level, rest, o.seen, i);
    }
    forall i | 0 <= i < |levels|
      ensures levels[i] != []
      ensures IsLevel(rows, dir, bound, FrontierBefore(levels, o.frontier, i), SeenBefore(levels, o.seen, i), levels[i])
    {
      if i > 0 {
        assert levels[i] == rest[i - 1];
        assert FrontierBefore(levels, o.frontier, i - 1 + 1) == FrontierBefore(rest, IdsOf(level), i - 1);
      }
    }
    assert FrontierBefore(levels, o.frontier, |rest| + 1) == FrontierBefore(rest, IdsOf(level), |rest|);
  }

  lemma {:induction false} SeenAfterLevel(level: seq<Row>, rest: seq<seq<Row>>, seen: set<nat>, i: nat)
    requires i <= |rest|
    ensures SeenBefore([level] + rest, seen, i + 1) == SeenBefore(rest, seen + Ids(level), i)
  {
    var levels := [level] + rest;
    assert levels[..i + 1] == [level] + rest[..i] && ([level] + rest[..i])[1..] == rest[..i];
    assert Flatten(levels[..i + 1]) == level + Flatten(rest[..i]);
    assert Ids(level + Flatten(rest[..i])) == Ids(level) + Ids(Flatten(rest[..i]));
  }

  lemma {:induction false} PageIsCut(levels: seq<seq<Row>>, o: Origin, budget: Budget)
    requires NoEmptyLevel(levels) && o.depth >= 1
    ensures var k := Fit([], levels, budget); IsCutAt(levels, o, budget, PageOf(levels, o, k, budget), k)
  {
    hide Fit, Size, IdsOf, Flatten;
    var k := Fit([], levels, budget);
    FitIsMaximal([], levels, budget);
    assert levels[..|levels|] == levels && [] + Flatten(levels[..k]) == Flatten(levels[..k]);
    if k < |levels| {
      assert [] + Flatten(levels[..k + 1]) == Flatten(levels[..k + 1]);
      assert levels[..k + 1] == levels[..k] + [levels[k]];
      FlattenOneMore(levels[..k], levels[k]);
      SizeAppend(Flatten(levels[..k]), levels[k]);
    }
  }

  lemma {:induction false} PageIsPrescribed(rows: seq<Row>, start: nat, dir: Direction, maxDepth: nat,
                                            sampling: Sampling,
                                            resume: Option<Cursor>, budget: Budget)
    returns (bound: Option<nat>, o: Origin, walk: seq<seq<Row>>, k: nat)
    requires ById(rows)
    ensures IsBound(sampling, maxDepth, bound) && IsOrigin(start, resume, o)
    ensures IsWalk(rows, dir, bound, maxDepth, o, walk)
    ensures IsCutAt(walk, o, budget, Page(Expander(rows, dir, sampling, maxDepth), start, maxDepth, resume, budget), k)
  {
    hide IsWalk, IsCutAt, IsBound, Fit, PageOf;
    bound := BoundFor(sampling, maxDepth);
    o := OriginOf(start, resume);
    walk := Levels(Expander(rows, dir, sampling, maxDepth), maxDepth, o.frontier, o.seen, o.depth);
    k := Fit([], walk, budget);
    LevelsAreWalk(rows, dir, sampling, maxDepth, bound, o.frontier, o.seen, o.depth);
    PageIsCut(walk, o, budget);
  }

  /** A size is the sum of the lengths of the payloads. */
  lemma {:induction false} SizeIsSum(rows: seq<Row>, r: Row)
    ensures Size([]) == 0 && Size(rows + [r]) == Size(rows) + |r.payload|
  {
    SizeAppend(rows, [r]);
    assert [r][1..] == [];
  }

  // ----- The methods -----

  method SortById(rows: seq<Row>, ghost table: seq<Row>) returns (sorted: seq<Row>)
    requires ById(table) && (forall r | r in rows :: r in table)
    requires DistinctIds(rows)
    ensures sorted == Pick(table, Ids(rows))
  {
    sorted := [];
    PickNothing(table);
    assert Ids(rows[..0]) == {};
    for i := 0 to |rows|
      invariant sorted == Pick(table, Ids(rows[..i]))
    {
      InsertByIdPick(rows[i], table, Ids(rows[..i]));
      assert Ids(rows[..i + 1]) == Ids(rows[..i]) + {rows[i].id} by {
        assert rows[..i + 1] == rows[..i] + [rows[i]];
      }
      sorted := InsertById(rows[i], sorted);
    }
    assert rows[..|rows|] == rows;
  }

  function InsertById(r: Row, sorted: seq<Row>): seq<Row>
  {
    if sorted == [] || r.id < sorted[0].id then [r] + sorted else [sorted[0]] + InsertById(r, sorted[1..])
  }

  lemma {:induction false} PickNothing(rows: seq<Row>)
    ensures Pick(rows, {}) == []
  {
    if rows != [] {
      PickNothing(rows[1..]);
    }
  }

  lemma {:induction false} PickIrrelevant(rows: seq<Row>, s: set<nat>, t: set<nat>)
    requires Ids(rows) * s == Ids(rows) * t
    ensures Pick(rows, s) == Pick(rows, t)
  {
    if rows != [] {
      assert rows[0] in rows && rows[0].id in Ids(rows);
      assert rows[0].id in s <==> rows[0].id in t by {
        assert rows[0].id in s <==> rows[0].id in Ids(rows) * s;
        assert rows[0].id in t <==> rows[0].id in Ids(rows) * t;
      }
      assert Ids(rows) == Ids(rows[1..]) + {rows[0].id} by {
        assert forall r :: r in rows <==> r == rows[0] || r in rows[1..];
      }
      forall x | x in Ids(rows[1..])
        ensures x in s <==> x in t
      {
        assert x in s <==> x in Ids(rows) * s;
        assert x in t <==> x in Ids(rows) * t;
      }
      assert Ids(rows[1..]) * s == Ids(rows[1..]) * t;
      PickIrrelevant(rows[1..], s, t);
    }
  }

  lemma {:induction false} InsertByIdPick(r: Row, rows: seq<Row>, ids: set<nat>)
    requires ById(rows) && r in rows && r.id !in ids
    ensures InsertById(r, Pick(rows, ids)) == Pick(rows, ids + {r.id})
  {
    var rest := rows[1..];
    PickElements(rest, ids);
    if rows[0] == r {
      assert r.id !in Ids(rest);
      PickIrrelevant(rest, ids, ids + {r.id});
      var picked := Pick(rest, ids);
      if picked != [] {
        assert picked[0] in picked;
      }
    } else {
      InsertByIdPick(r, rest, ids);
      var k :| 0 <= k < |rows| && rows[k] == r;
      assert rows[0].id < r.id;
      assert rest[k - 1] == r;
    }
  }

  /** One level of the graph, ordered by id: children, parents, or their deduplicated and re-sorted union. */
  method ExpandFrontier(rows: seq<Row>, frontier: seq<nat>, dir: Direction) returns (level: seq<Row>)
    requires ById(rows)
    ensures level == Pick(rows, Next(rows, dir, Elements(frontier)))
  {
    var fwd := Pick(rows, ChildIds(rows, Elements(frontier)));
    var bwd := Pick(rows, ParentIds(rows, Elements(frontier)));
    match dir {
      case Forward => return fwd;
      case Backward => return bwd;
      case Both =>
        level := MergeById(rows, ChildIds(rows, Elements(frontier)), ParentIds(rows, Elements(frontier)));
    }
  }

  /** The forward rows, then the backward rows that are not among them, sorted by id. */
  method MergeById(rows: seq<Row>, children: set<nat>, parents: set<nat>) returns (level: seq<Row>)
    requires ById(rows)
    ensures level == Pick(rows, children + parents)
  {
    hide Pick, DistinctIds, ById, Ids;
    var fwd, bwd := Pick(rows, children), Pick(rows, parents);
    MergeStart(rows, children, parents);
    var fwdIds, combined := Ids(fwd), fwd;
    for i := 0 to |bwd|
      invariant forall r | r in combined :: r in rows
      invariant Ids(combined) == fwdIds + Ids(bwd[..i])
      invariant DistinctIds(combined)
    {
      assert bwd[i] in bwd;
      MergeStep(combined, bwd, i, fwdIds);
      if bwd[i].id !in fwdIds {
        combined := combined + [bwd[i]];
      }
    }
    assert bwd[..|bwd|] == bwd;
    level := SortById(combined, rows);
    PickIrrelevant(rows, Ids(combined), children + parents);
  }

  lemma {:induction false} MergeStart(rows: seq<Row>, children: set<nat>, parents: set<nat>)
    requires ById(rows)
    ensures var fwd, bwd := Pick(rows, children), Pick(rows, parents);
      && DistinctIds(fwd) && ById(bwd) && Ids(bwd[..0]) == {}
      && (forall r | r in fwd :: r in rows) && (forall r | r in bwd :: r in rows)
      && Ids(fwd) + Ids(bwd) == Ids(rows) * (children + parents)
  {
    PickElements(rows, children);
    PickElements(rows, parents);
  }

  lemma {:induction false} MergeStep(combined: seq<Row>, bwd: seq<Row>, i: nat, fwdIds: set<nat>)
    requires DistinctIds(combined) && ById(bwd) && i < |bwd| && Ids(combined) == fwdIds + Ids(bwd[..i])
    ensures var merged := if bwd[i].id !in fwdIds then combined + [bwd[i]] else combined;
      DistinctIds(merged) && Ids(merged) == fwdIds + Ids(bwd[..i + 1])
  {
    hide DistinctIds, ById, Ids;
    FreshId(bwd, i);
    if bwd[i].id !in fwdIds {
      AddRow(combined, bwd[i]);
    }
  }

  ghost predicate DistinctIds(rows: seq<Row>)
  {
    forall i, j | 0 <= i < j < |rows| :: rows[i].id != rows[j].id
  }

  lemma {:induction false} FreshId(rows: seq<Row>, i: nat)
    requires ById(rows) && i < |rows|
    ensures rows[i].id !in Ids(rows[..i]) && Ids(rows[..i + 1]) == Ids(rows[..i]) + {rows[i].id}
  {
    assert rows[..i + 1] == rows[..i] + [rows[i]];
    forall r | r in rows[..i]
      ensures r.id != rows[i].id
    {
      var j :| 0 <= j < i && rows[j] == r;
    }
  }

  lemma {:induction false} AddRow(rows: seq<Row>, r: Row)
    requires DistinctIds(rows) && r.id !in Ids(rows)
    ensures DistinctIds(rows + [r]) && Ids(rows + [r]) == Ids(rows) + {r.id}
  {
    forall j | 0 <= j < |rows|
      ensures rows[j].id != r.id
    {
      assert rows[j] in rows;
    }
  }

  /** `retain(|e| !seen.contains(id))`. */
  method RetainUnseen(rows: seq<Row>, level: seq<Row>, ids: set<nat>, seen: set<nat>) returns (kept: seq<Row>)
    requires level == Pick(rows, ids)
    ensures kept == Pick(rows, ids - seen)
  {
    kept := [];
    for i := 0 to |level|
      invariant kept == Unseen(level[..i], seen)
    {
      assert level[..i + 1][..i] == level[..i];
      if level[i].id !in seen {
        kept := kept + [level[i]];
      }
    }
    assert level[..|level|] == level;
    UnseenPick(rows, ids, seen);
  }

  function Unseen(level: seq<Row>, seen: set<nat>): seq<Row>
  {
    if level == [] then []
    else
      var front := Unseen(level[..|level| - 1], seen);
      if level[|level| - 1].id in seen then front else front + [level[|level| - 1]]
  }

  lemma {:induction false} UnseenHead(level: seq<Row>, seen: set<nat>)
    requires level != []
    ensures Unseen(level, seen) == (if level[0].id in seen then [] else [level[0]]) + Unseen(level[1..], seen)
  {
    if |level| == 1 {
      assert level[..0] == [] && level[1..] == [];
    } else {
      UnseenHead(level[..|level| - 1], seen);
      assert level[..|level| - 1][1..] == level[1..][..|level| - 2];
    }
  }

  lemma {:induction false} UnseenPick(rows: seq<Row>, ids: set<nat>, seen: set<nat>)
    ensures Unseen(Pick(rows, ids), seen) == Pick(rows, ids - seen)
  {
    if rows != [] {
      UnseenPick(rows[1..], ids, seen);
      if rows[0].id in ids {
        UnseenHead(Pick(rows, ids), seen);
        assert Pick(rows, ids)[1..] == Pick(rows[1..], ids);
      }
    }
  }

  method LevelBytes(level: seq<Row>) returns (n: nat)
    ensures n == Size(level)
  {
    n := 0;
    var i := |level|;
    while i > 0
      invariant 0 <= i <= |level| && n == Size(level[i..])
    {
      i := i - 1;
      assert level[i..][1..] == level[i + 1..];
      n := n + |level[i].payload|;
    }
    assert level[0..] == level;
  }

  /** One iteration's query: expand, drop what was seen, sample. */
  method NextLevel(rows: seq<Row>, dir: Direction, sampling: Sampling, maxDepth: nat,
                   frontier: seq<nat>, seen: set<nat>) returns (level: seq<Row>)
    requires ById(rows)
    ensures level == Level(rows, dir, sampling, maxDepth, frontier, seen)
  {
    level := ExpandFrontier(rows, frontier, dir);
    level := RetainUnseen(rows, level, Next(rows, dir, Elements(frontier)), seen);
    level := Sample(level, sampling, maxDepth);
  }

  /** The loop has yielded exactly the levels `done` of a walk that goes on with `rest`, and they all fit. */
  ghost predicate Yielded(levels: seq<seq<Row>>, done: seq<seq<Row>>, rest: seq<seq<Row>>, o: Origin, budget: Budget,
                          frontier: seq<nat>, depth: nat, results: seq<Row>, byteCount: nat)
  {
    && levels == done + rest && byteCount == Size(results)
    && depth == o.depth + |done| && o.depth >= 1
    && results == Flatten(done)
    && (results == [] <==> done == [])
    && frontier == (if done == [] then o.frontier else IdsOf(done[|done| - 1]))
    && Fit([], levels, budget) == |done| + Fit(results, rest, budget)
  }

  lemma {:induction false} YieldNothing(levels: seq<seq<Row>>, o: Origin, budget: Budget)
    requires o.depth >= 1
    ensures Yielded(levels, [], levels, o, budget, o.frontier, o.depth, [], 0)
  {
    assert [] + levels == levels;
  }

  lemma {:induction false} YieldLevel(levels: seq<seq<Row>>, done: seq<seq<Row>>, level: seq<Row>, rest: seq<seq<Row>>,
                                      o: Origin, budget: Budget, frontier: seq<nat>, depth: nat, results: seq<Row>,
                                      byteCount: nat)
    requires Yielded(levels, done, [level] + rest, o, budget, frontier, depth, results, byteCount) && level != []
    requires results == [] || !Breaks(results, level, byteCount, budget)
    ensures Yielded(levels, done + [level], rest, o, budget, IdsOf(level), depth + 1, results + level,
                    byteCount + Size(level))
  {
    hide Fit, Flatten, IdsOf, Within, Size, Breaks;
    SizeAppend(results, level);
    BreaksExactly(results, level, budget);
    FlattenOneMore(done, level);
    FitOneMore(results, level, rest, budget);
    assert done + [level] + rest == done + ([level] + rest);
  }

  /** One more level would break the budget. */
  predicate Breaks(results: seq<Row>, level: seq<Row>, byteCount: nat, budget: Budget)
  {
    CountExceeds(|results| + |level|, budget) || BytesExceed(byteCount + Size(level), budget)
  }

  lemma {:induction false} BreaksExactly(results: seq<Row>, level: seq<Row>, budget: Budget)
    ensures Breaks(results, level, Size(results), budget) <==> !Within(results + level, budget)
  {
    SizeAppend(results, level);
  }

  lemma {:induction false} FlattenOneMore(done: seq<seq<Row>>, level: seq<Row>)
    ensures Flatten(done + [level]) == Flatten(done) + level
  {
    FlattenAppend(done, [level]);
    assert [level][1..] == [];
    assert Flatten([level]) == level + Flatten([]);
  }

  lemma {:induction false} FitOneMore(results: seq<Row>, level: seq<Row>, rest: seq<seq<Row>>, budget: Budget)
    requires results == [] || Within(results + level, budget)
    ensures Fit(results, [level] + rest, budget) == 1 + Fit(results + level, rest, budget)
  {
    hide Within;
    assert ([level] + rest)[1..] == rest;
  }

  /** Cutting before a level that does not fit gives the page of the levels yielded so far. */
  lemma {:induction false} CutHere(levels: seq<seq<Row>>, done: seq<seq<Row>>, level: seq<Row>, rest: seq<seq<Row>>,
                                   o: Origin, budget: Budget, frontier: seq<nat>, depth: nat, results: seq<Row>,
                                   byteCount: nat)
    requires Yielded(levels, done, [level] + rest, o, budget, frontier, depth, results, byteCount)
    requires results != [] && Breaks(results, level, byteCount, budget)
    ensures PageOf(levels, o, Fit([], levels, budget), budget)
            == Truncated(results, Cursor(frontier, (depth - 1) % TWO_32),
                         if CountExceeds(|results| + |level|, budget) then ResultCount else ByteSize)
  {
    BreaksExactly(results, level, budget);
    assert levels[..|done|] == done && levels[|done|] == level;
  }

  /** When nothing is left, the page is the whole walk. */
  lemma {:induction false} NothingLeft(levels: seq<seq<Row>>, done: seq<seq<Row>>, o: Origin, budget: Budget,
                                       frontier: seq<nat>, depth: nat, results: seq<Row>, byteCount: nat)
    requires Yielded(levels, done, [], o, budget, frontier, depth, results, byteCount)
    ensures PageOf(levels, o, Fit([], levels, budget), budget) == Complete(results)
  {
    assert done + [] == done;
  }

  lemma {:induction false} WalkGoesOn(rows: seq<Row>, dir: Direction, sampling: Sampling, maxDepth: nat,
                                      frontier: seq<nat>, seen: set<nat>, depth: nat, level: seq<Row>)
    requires level == Level(rows, dir, sampling, maxDepth, frontier, seen) && depth <= maxDepth && frontier != []
    ensures var expand := Expander(rows, dir, sampling, maxDepth);
            Levels(expand, maxDepth, frontier, seen, depth)
            == if level == [] then []
              else [level] + Levels(expand, maxDepth, IdsOf(level), seen + Ids(level), depth + 1)
  {
    hide Level;
  }

  lemma {:induction false} WalkEnds(expand: Expand, maxDepth: nat, frontier: seq<nat>, seen: set<nat>, depth: nat)
    ensures depth > maxDepth || frontier == [] ==> Levels(expand, maxDepth, frontier, seen, depth) == []
  {
  }

  /** `walk_causation_bounded_impl`: the frontier loop returns exactly the page cut from the whole walk. */
  method WalkCausationBounded(rows: seq<Row>, start: nat, dir: Direction, maxDepth: nat, sampling: Sampling,
                              resume: Option<Cursor>, budget: Budget)
    returns (outcome: Outcome, ghost bound: Option<nat>, ghost o: Origin, ghost walk: seq<seq<Row>>, ghost k: nat)
    requires ById(rows)
    ensures outcome == Page(Expander(rows, dir, sampling, maxDepth), start, maxDepth, resume, budget)
    ensures IsBound(sampling, maxDepth, bound) && IsOrigin(start, resume, o)
    ensures IsWalk(rows, dir, bound, maxDepth, o, walk) && IsCutAt(walk, o, budget, outcome, k)
  {
    hide IsWalk, IsCutAt, IsBound, IsOrigin, ById, Size, Flatten, Fit, Level, Levels, Expander, IdsOf, Ids, Yielded,
         PageOf, BytesExceed, CountExceeds;
    ghost var expand := Expander(rows, dir, sampling, maxDepth);
    var origin := OriginOf(start, resume);
    var currentFrontier, seen, depth := origin.frontier, origin.seen, origin.depth;
    var results: seq<Row>, byteCount := [], 0;
    ghost var levels := Levels(expand, maxDepth, currentFrontier, seen, depth);
    ghost var done: seq<seq<Row>>, rest := [], levels;
    YieldNothing(levels, origin, budget);
    while depth <= maxDepth && currentFrontier != []
      invariant Yielded(levels, done, rest, origin, budget, currentFrontier, depth, results, byteCount)
      invariant rest == Levels(expand, maxDepth, currentFrontier, seen, depth)
      decreases maxDepth + 1 - depth
    {
      var level := NextLevel(rows, dir, sampling, maxDepth, currentFrontier, seen);
      WalkGoesOn(rows, dir, sampling, maxDepth, currentFrontier, seen, depth, level);
      if level == [] {
        break;
      }
      ghost var after := Levels(expand, maxDepth, IdsOf(level), seen + Ids(level), depth + 1);
      var levelBytes := LevelBytes(level);
      var exceedCount := CountExceeds(|results| + |level|, budget);
      if (exceedCount || BytesExceed(byteCount + levelBytes, budget)) && results != [] {
        var reason := if exceedCount then ResultCount else ByteSize;
        CutHere(levels, done, level, after, origin, budget, currentFrontier, depth, results, byteCount);
        outcome := Truncated(results, Cursor(currentFrontier, (depth - 1) % TWO_32), reason);
        bound, o, walk, k := PageIsPrescribed(rows, start, dir, maxDepth, sampling, resume, budget);
        return;
      }
      YieldLevel(levels, done, level, after, origin, budget, currentFrontier, depth, results, byteCount);
      done, rest := done + [level], after;
      seen := seen + Ids(level);
      byteCount := byteCount + levelBytes;
      currentFrontier := IdsOf(level);
      results := results + level;
      depth := depth + 1;
    }
    WalkEnds(expand, maxDepth, currentFrontier, seen, depth);
    NothingLeft(levels, done, origin, budget, currentFrontier, depth, results, byteCount);
    outcome := Complete(results);
    bound, o, walk, k := PageIsPrescribed(rows, start, dir, maxDepth, sampling, resume, budget);
  }
}
