/**
 What the causation walks return (src/cross_stream.rs): the exhaustive frontier loop yields the
 events at each shortest distance, and the recursive-CTE walks agree with it.
 */
module WalkDistance {
  import opened Types
  import opened Events
  import opened Walk
  import opened WalkPaging

  // ----- Paths and distances -----

  /** There is a path of `n` steps from `start` to `x`. */
  ghost predicate Reach(rows: seq<Row>, dir: Direction, start: nat, x: nat, n: nat)
    decreases n
  {
    if n == 0 then x == start
    else exists a: nat :: Reach(rows, dir, start, a, n - 1) && x in Next(rows, dir, {a})
  }

  ghost predicate AtDistance(rows: seq<Row>, dir: Direction, start: nat, x: nat, n: nat)
  {
    Reach(rows, dir, start, x, n) && forall m: nat | m < n :: !Reach(rows, dir, start, x, m)
  }

  ghost predicate WithinSteps(rows: seq<Row>, dir: Direction, start: nat, x: nat, k: nat)
  {
    exists m: nat :: m <= k && Reach(rows, dir, start, x, m)
  }

  /** Ids of the existing rows at shortest distance `n`. */
  ghost function DistanceIds(rows: seq<Row>, dir: Direction, start: nat, n: nat): set<nat>
  {
    set r | r in rows && AtDistance(rows, dir, start, r.id, n) :: r.id
  }

  /** The events at shortest distance lo..hi, ordered by distance and then by id. */
  ghost function ByDistance(rows: seq<Row>, dir: Direction, start: nat, lo: nat, hi: nat): seq<Row>
    decreases hi + 1 - lo
  {
    if lo > hi then []
    else Pick(rows, DistanceIds(rows, dir, start, lo)) + ByDistance(rows, dir, start, lo + 1, hi)
  }

  lemma {:induction false} NextOfUnion(rows: seq<Row>, dir: Direction, frontier: set<nat>, x: nat)
    ensures x in Next(rows, dir, frontier) <==> exists a :: a in frontier && x in Next(rows, dir, {a})
  {
    if x in ChildIds(rows, frontier) && dir != Backward {
      var r :| r in rows && r.cause.Some? && r.cause.value in frontier && r.id == x;
      assert x in Next(rows, dir, {r.cause.value});
    } else if x in ParentIds(rows, frontier) && dir != Forward {
      var r :| r in rows && r.id in frontier && r.cause.Some? && r.cause.value in Ids(rows) && r.cause.value == x;
      assert x in Next(rows, dir, {r.id});
    }
  }

  /** The loop's state after `k` levels: the frontier is distance `k`, the seen ids are distance at most `k`. */
  ghost predicate Explored(rows: seq<Row>, dir: Direction, start: nat, frontier: set<nat>, seen: set<nat>, k: nat)
  {
    && (forall x: nat :: x in frontier <==> AtDistance(rows, dir, start, x, k))
    && (forall x: nat :: x in seen <==> WithinSteps(rows, dir, start, x, k))
  }

  lemma {:induction false} StepIsDistance(rows: seq<Row>, dir: Direction, start: nat, x: nat, n: nat)
    requires AtDistance(rows, dir, start, x, n + 1)
    ensures exists a: nat :: AtDistance(rows, dir, start, a, n) && x in Next(rows, dir, {a})
  {
    var a: nat :| Reach(rows, dir, start, a, n) && x in Next(rows, dir, {a});
    forall m: nat | m < n
      ensures !Reach(rows, dir, start, a, m)
    {
      if Reach(rows, dir, start, a, m) {
        assert Reach(rows, dir, start, x, m + 1);
      }
    }
  }

  lemma {:induction false} LevelIsDistance(rows: seq<Row>, dir: Direction, start: nat, frontier: set<nat>,
                                           seen: set<nat>, k: nat)
    requires Explored(rows, dir, start, frontier, seen, k)
    ensures Next(rows, dir, frontier) - seen == DistanceIds(rows, dir, start, k + 1)
    ensures Explored(rows, dir, start, DistanceIds(rows, dir, start, k + 1),
                     seen + DistanceIds(rows, dir, start, k + 1), k + 1)
  {
    var ids := DistanceIds(rows, dir, start, k + 1);
    forall x: nat
      ensures x in Next(rows, dir, frontier) && x !in seen <==> AtDistance(rows, dir, start, x, k + 1)
      ensures AtDistance(rows, dir, start, x, k + 1) ==> x in Ids(rows)
    {
      NextOfUnion(rows, dir, frontier, x);
      WithinStepsGrows(rows, dir, start, k, x);
      if x in Next(rows, dir, frontier) && x !in seen {
        assert Reach(rows, dir, start, x, k + 1);
        assert WithinSteps(rows, dir, start, x, k + 1);
      }
      if AtDistance(rows, dir, start, x, k + 1) {
        StepIsDistance(rows, dir, start, x, k);
        var a: nat :| AtDistance(rows, dir, start, a, k) && x in Next(rows, dir, {a});
        NextExists(rows, dir, {a});
      }
    }
    forall x: nat
      ensures x in ids <==> AtDistance(rows, dir, start, x, k + 1)
    {
    }
    forall x: nat
      ensures x in seen + ids <==> WithinSteps(rows, dir, start, x, k + 1)
    {
      WithinStepsGrows(rows, dir, start, k, x);
    }
  }

  lemma {:induction false} WithinStepsGrows(rows: seq<Row>, dir: Direction, start: nat, k: nat, x: nat)
    ensures WithinSteps(rows, dir, start, x, k + 1)
            <==> WithinSteps(rows, dir, start, x, k) || AtDistance(rows, dir, start, x, k + 1)
    ensures !(WithinSteps(rows, dir, start, x, k) && AtDistance(rows, dir, start, x, k + 1))
  {
    if WithinSteps(rows, dir, start, x, k + 1) && !WithinSteps(rows, dir, start, x, k) {
      var m: nat :| m <= k + 1 && Reach(rows, dir, start, x, m);
      forall j: nat | j < k + 1
        ensures !Reach(rows, dir, start, x, j)
      {
      }
    }
    if WithinSteps(rows, dir, start, x, k) {
      var m: nat :| m <= k && Reach(rows, dir, start, x, m);
    }
  }

  lemma {:induction false} NearerRow(rows: seq<Row>, dir: Direction, start: nat, x: nat, n: nat) returns (a: nat)
    requires n > 0 && AtDistance(rows, dir, start, x, n + 1)
    ensures a in DistanceIds(rows, dir, start, n)
  {
    StepIsDistance(rows, dir, start, x, n);
    a :| AtDistance(rows, dir, start, a, n) && x in Next(rows, dir, {a});
    var b: nat :| Reach(rows, dir, start, b, n - 1) && a in Next(rows, dir, {b});
    NextExists(rows, dir, {b});
  }

  lemma {:induction false} NothingFarther(rows: seq<Row>, dir: Direction, start: nat, lo: nat, hi: nat)
    requires lo > 0 && DistanceIds(rows, dir, start, lo) == {}
    ensures ByDistance(rows, dir, start, lo, hi) == []
    decreases hi + 1 - lo
  {
    if lo <= hi {
      PickNothing(rows);
      forall r | r in rows
        ensures !AtDistance(rows, dir, start, r.id, lo + 1)
      {
        if AtDistance(rows, dir, start, r.id, lo + 1) {
          var nearer := NearerRow(rows, dir, start, r.id, lo);
        }
      }
      assert DistanceIds(rows, dir, start, lo + 1) == {};
      NothingFarther(rows, dir, start, lo + 1, hi);
    }
  }

  /** One exhaustive expansion of the ids at distance `k` gives the rows at distance `k + 1`. */
  lemma {:induction false} ExpansionIsDistance(expand: Expand, rows: seq<Row>, dir: Direction, start: nat,
                                               maxDepth: nat,
                                               frontier: seq<nat>, seen: set<nat>, k: nat)
    requires expand == Expander(rows, dir, Exhaustive, maxDepth) && ById(rows)
    requires Explored(rows, dir, start, Elements(frontier), seen, k)
    ensures var ids, level := DistanceIds(rows, dir, start, k + 1), expand(frontier, seen);
      && level == Pick(rows, ids) && Ids(level) == ids && Elements(IdsOf(level)) == ids && (level == [] <==> ids == {})
      && Explored(rows, dir, start, ids, seen + ids, k + 1)
  {
    hide Explored, DistanceIds, IdsOf, Next;
    var ids, level := DistanceIds(rows, dir, start, k + 1), expand(frontier, seen);
    LevelIsDistance(rows, dir, start, Elements(frontier), seen, k);
    assert level == Pick(rows, ids);
    PickElements(rows, ids);
    DistanceIdsExist(rows, dir, start, k + 1);
    assert Ids(rows) * ids == ids && Ids(level) == ids;
    ElementsOfIds(level);
    EmptyHasNoIds(level);
  }

  lemma {:induction false} EmptyHasNoIds(level: seq<Row>)
    ensures Ids(level) == {} <==> level == []
  {
    if level != [] {
      assert level[0] in level && level[0].id in Ids(level);
    }
  }

  lemma {:induction false} LevelsAreDistances(expand: Expand, rows: seq<Row>, dir: Direction, start: nat, maxDepth: nat,
                                              frontier: seq<nat>, seen: set<nat>, k: nat)
    requires expand == Expander(rows, dir, Exhaustive, maxDepth)
    requires ById(rows) && frontier != []
    requires Explored(rows, dir, start, Elements(frontier), seen, k)
    ensures Flatten(Levels(expand, maxDepth, frontier, seen, k + 1)) == ByDistance(rows, dir, start, k + 1, maxDepth)
    decreases maxDepth + 1 - k
  {
    hide IdsOf, Explored, DistanceIds, Expander, Pick, Elements, Ids, ById, Flatten;
    if k + 1 <= maxDepth {
      var level := expand(frontier, seen);
      ExpansionIsDistance(expand, rows, dir, start, maxDepth, frontier, seen, k);
      if level == [] {
        NothingFarther(rows, dir, start, k + 1, maxDepth);
        FlattenNothing();
      } else {
        IdsOfNonEmpty(level);
        LevelsAreDistances(expand, rows, dir, start, maxDepth, IdsOf(level), seen + Ids(level), k + 1);
        FlattenCons(level, Levels(expand, maxDepth, IdsOf(level), seen + Ids(level), k + 2));
      }
    } else {
      FlattenNothing();
    }
  }

  lemma {:induction false} FlattenNothing()
    ensures Flatten([]) == []
  {
  }

  lemma {:induction false} IdsOfNonEmpty(level: seq<Row>)
    requires level != []
    ensures IdsOf(level) != []
  {
  }

  lemma {:induction false} DistanceIdsExist(rows: seq<Row>, dir: Direction, start: nat, n: nat)
    ensures DistanceIds(rows, dir, start, n) <= Ids(rows)
  {
  }

  /**
   The exhaustive walk without a budget returns exactly the existing events at shortest distance
   1..maxDepth, each once, ordered by distance and then by id; in every direction, cycles included.
   */
  lemma {:induction false} ExhaustiveWalkIsByDistance(rows: seq<Row>, dir: Direction, start: nat, maxDepth: nat)
    requires ById(rows)
    ensures Flatten(FullWalk(rows, start, dir, Exhaustive, maxDepth)) == ByDistance(rows, dir, start, 1, maxDepth)
  {
    assert Reach(rows, dir, start, start, 0);
    forall x: nat
      ensures WithinSteps(rows, dir, start, x, 0) <==> x == start
    {
    }
    assert Explored(rows, dir, start, {start}, {start}, 0);
    assert Elements([start]) == {start};
    LevelsAreDistances(Expander(rows, dir, Exhaustive, maxDepth), rows, dir, start, maxDepth, [start], {start}, 0);
  }

  ghost predicate Between(rows: seq<Row>, dir: Direction, start: nat, x: nat, lo: nat, hi: nat)
  {
    exists n: nat :: lo <= n <= hi && AtDistance(rows, dir, start, x, n)
  }

  lemma {:induction false} BetweenStep(rows: seq<Row>, dir: Direction, start: nat, x: nat, lo: nat, hi: nat)
    requires lo <= hi
    ensures Between(rows, dir, start, x, lo, hi)
            <==> AtDistance(rows, dir, start, x, lo) || Between(rows, dir, start, x, lo + 1, hi)
  {
    hide AtDistance;
  }

  lemma {:induction false} ByDistanceBetween(rows: seq<Row>, dir: Direction, start: nat, lo: nat, hi: nat, r: Row)
    requires ById(rows)
    ensures r in ByDistance(rows, dir, start, lo, hi) <==> r in rows && Between(rows, dir, start, r.id, lo, hi)
    decreases hi + 1 - lo
  {
    hide AtDistance, DistanceIds, Pick, ById;
    if lo <= hi {
      hide Between;
      ByDistanceBetween(rows, dir, start, lo + 1, hi, r);
      PickElements(rows, DistanceIds(rows, dir, start, lo));
      BetweenStep(rows, dir, start, r.id, lo, hi);
      if r in rows {
        InDistanceIds(rows, dir, start, lo, r);
      }
    }
  }

  lemma {:induction false} ByDistanceElements(rows: seq<Row>, dir: Direction, start: nat, lo: nat, hi: nat, r: Row)
    requires ById(rows)
    ensures r in ByDistance(rows, dir, start, lo, hi)
       <==> r in rows && exists n: nat :: lo <= n <= hi && AtDistance(rows, dir, start, r.id, n)
  {
    hide AtDistance;
    ByDistanceBetween(rows, dir, start, lo, hi, r);
  }

  lemma {:induction false} InDistanceIds(rows: seq<Row>, dir: Direction, start: nat, n: nat, r: Row)
    requires r in rows
    ensures r.id in DistanceIds(rows, dir, start, n) <==> AtDistance(rows, dir, start, r.id, n)
  {
  }

  // ----- The recursive-CTE walks -----

  /** A row of the recursive table: an id and the depth it was found at. */
  datatype At = At(id: nat, depth: nat)

  /**
   What the recursive select adds for one id: its children, or its cause.  A cause may name no
   existing row; the final join with `events` drops it.
   */
  function CteNext(rows: seq<Row>, dir: Direction, id: nat): set<nat>
    requires dir != Both
  {
    if dir == Forward then ChildIds(rows, {id})
    else set r | r in rows && r.id == id && r.cause.Some? :: r.cause.value
  }

  ghost predicate CteReach(rows: seq<Row>, dir: Direction, start: nat, x: nat, n: nat)
    requires dir != Both
    decreases n
  {
    if n == 0 then x == start
    else exists a: nat :: CteReach(rows, dir, start, a, n - 1) && x in CteNext(rows, dir, a)
  }

  /** Every id the recursion can produce. */
  ghost function CteIds(rows: seq<Row>): set<nat>
  {
    Ids(rows) + set r | r in rows && r.cause.Some? :: r.cause.value
  }

  ghost function CteUniverse(rows: seq<Row>, maxDepth: nat): set<At>
  {
    set x, d: nat | x in CteIds(rows) && d <= maxDepth :: At(x, d)
  }

  /** The recursive table holds only paths, and every path it holds is extended unless it still waits in the queue. */
  ghost predicate CteInvariant(rows: seq<Row>, dir: Direction, start: nat, maxDepth: nat, table: set<At>,
                               queue: set<At>)
    requires dir != Both
  {
    && queue <= table <= CteUniverse(rows, maxDepth)
    && (forall a | a in table :: 1 <= a.depth <= maxDepth && CteReach(rows, dir, start, a.id, a.depth))
    && (forall x | x in CteNext(rows, dir, start) :: At(x, 1) in table)
    && (forall a, x | a in table && a !in queue && a.depth < maxDepth && x in CteNext(rows, dir, a.id) ::
          At(x, a.depth + 1) in table)
  }

  /**
   `WITH RECURSIVE ... UNION ...`: rows leave the queue one at a time, in any order, and what the
   recursive select yields for one is queued unless the table already holds it.
   */
  method RecursiveTable(rows: seq<Row>, dir: Direction, start: nat, maxDepth: nat) returns (table: set<At>)
    requires dir != Both && maxDepth > 0
    ensures forall x: nat, d: nat :: At(x, d) in table <==> 1 <= d <= maxDepth && CteReach(rows, dir, start, x, d)
  {
    hide CteReach;
    table := set x | x in CteNext(rows, dir, start) :: At(x, 1);
    var queue := table;
    CteStarts(rows, dir, start, maxDepth, table);
    while queue != {}
      invariant CteInvariant(rows, dir, start, maxDepth, table, queue)
      decreases CteUniverse(rows, maxDepth) - table, queue
    {
      var a :| a in queue;
      var found := if a.depth < maxDepth then set x | x in CteNext(rows, dir, a.id) :: At(x, a.depth + 1) else {};
      CteStep(rows, dir, start, maxDepth, table, queue, a, found);
      queue := queue - {a} + (found - table);
      table := table + found;
    }
    CteComplete(rows, dir, start, maxDepth, table);
  }

  lemma {:induction false} CteNextIds(rows: seq<Row>, dir: Direction, id: nat)
    requires dir != Both
    ensures CteNext(rows, dir, id) <= CteIds(rows)
  {
  }

  lemma {:induction false} CteStarts(rows: seq<Row>, dir: Direction, start: nat, maxDepth: nat, table: set<At>)
    requires dir != Both && maxDepth > 0
    requires table == set x | x in CteNext(rows, dir, start) :: At(x, 1)
    ensures CteInvariant(rows, dir, start, maxDepth, table, table)
  {
    CteNextIds(rows, dir, start);
    assert CteReach(rows, dir, start, start, 0);
  }

  lemma {:induction false} CteStep(rows: seq<Row>, dir: Direction, start: nat, maxDepth: nat,
                                   table: set<At>, queue: set<At>, a: At, found: set<At>)
    requires dir != Both && CteInvariant(rows, dir, start, maxDepth, table, queue) && a in queue
    requires found == if a.depth < maxDepth then set x | x in CteNext(rows, dir, a.id) :: At(x, a.depth + 1) else {}
    ensures CteInvariant(rows, dir, start, maxDepth, table + found, queue - {a} + (found - table))
  {
    hide CteNext;
    hide CteIds;
    CteNextIds(rows, dir, a.id);
    forall b | b in found
      ensures b.depth <= maxDepth && CteReach(rows, dir, start, b.id, b.depth)
    {
      assert CteReach(rows, dir, start, a.id, b.depth - 1);
    }
  }

  lemma {:induction false} CteComplete(rows: seq<Row>, dir: Direction, start: nat, maxDepth: nat, table: set<At>)
    requires dir != Both && CteInvariant(rows, dir, start, maxDepth, table, {})
    ensures forall x: nat, d: nat :: At(x, d) in table <==> 1 <= d <= maxDepth && CteReach(rows, dir, start, x, d)
  {
    forall x: nat, d: nat | 1 <= d <= maxDepth && CteReach(rows, dir, start, x, d)
      ensures At(x, d) in table
    {
      CteFinds(rows, dir, start, maxDepth, table, x, d);
    }
  }

  lemma {:induction false} CteFinds(rows: seq<Row>, dir: Direction, start: nat, maxDepth: nat, table: set<At>, x: nat,
                                    d: nat)
    requires dir != Both && CteInvariant(rows, dir, start, maxDepth, table, {})
    requires 1 <= d <= maxDepth && CteReach(rows, dir, start, x, d)
    ensures At(x, d) in table
    decreases d
  {
    var a: nat :| CteReach(rows, dir, start, a, d - 1) && x in CteNext(rows, dir, a);
    if d > 1 {
      CteFinds(rows, dir, start, maxDepth, table, a, d - 1);
      var b := At(a, d - 1);
      assert b in table && x in CteNext(rows, dir, b.id);
    }
  }

  /** For existing rows, the recursion's paths are the walk's paths. */
  lemma {:induction false} CteReachIsReach(rows: seq<Row>, dir: Direction, start: nat, x: nat, n: nat)
    requires dir != Both
    ensures n > 0 && Reach(rows, dir, start, x, n) ==> CteReach(rows, dir, start, x, n) && x in Ids(rows)
    ensures x in Ids(rows) && CteReach(rows, dir, start, x, n) ==> Reach(rows, dir, start, x, n)
    decreases n
  {
    if n > 0 {
      if a: nat :| Reach(rows, dir, start, a, n - 1) && x in Next(rows, dir, {a}) {
        CteReachIsReach(rows, dir, start, a, n - 1);
        NextExists(rows, dir, {a});
        assert x in CteNext(rows, dir, a);
      }
      if x in Ids(rows) {
        if a: nat :| CteReach(rows, dir, start, a, n - 1) && x in CteNext(rows, dir, a) {
          CteReachIsReach(rows, dir, start, a, n - 1);
          CtePredecessor(rows, dir, start, a, n - 1, x);
        }
      }
    }
  }

  lemma {:induction false} CtePredecessor(rows: seq<Row>, dir: Direction, start: nat, a: nat, n: nat, x: nat)
    requires dir != Both && x in Ids(rows) && x in CteNext(rows, dir, a) && CteReach(rows, dir, start, a, n)
    ensures x in Next(rows, dir, {a})
    ensures n == 0 || a in Ids(rows)
  {
    if dir == Backward {
      var r :| r in rows && r.id == a && r.cause.Some? && r.cause.value == x;
    } else if n > 0 {
      var b: nat :| CteReach(rows, dir, start, b, n - 1) && a in CteNext(rows, dir, b);
    }
  }

  /**
   The events a recursive-CTE walk returns are those of the exhaustive frontier loop, with their
   shortest distance as the smallest depth; the CTE adds `start` itself exactly when `start` lies on a
   cycle of at most `maxDepth` steps.
   */
  lemma {:induction false} CteAgreesWithFrontierLoop(rows: seq<Row>, dir: Direction, start: nat, maxDepth: nat,
                                                     table: set<At>, r: Row)
    requires ById(rows) && dir != Both && r in rows
    requires forall x: nat, d: nat :: At(x, d) in table <==> 1 <= d <= maxDepth && CteReach(rows, dir, start, x, d)
    ensures r.id != start ==>
              ((exists d: nat :: At(r.id, d) in table)
               <==> r in Flatten(FullWalk(rows, start, dir, Exhaustive, maxDepth)))
    ensures r.id == start ==>
              r !in Flatten(FullWalk(rows, start, dir, Exhaustive, maxDepth))
              && ((exists d: nat :: At(r.id, d) in table)
                  <==> exists d: nat :: 1 <= d <= maxDepth && Reach(rows, dir, start, start, d))
    ensures forall n: nat :: AtDistance(rows, dir, start, r.id, n) && 1 <= n <= maxDepth ==>
              At(r.id, n) in table && forall d: nat | At(r.id, d) in table :: n <= d
  {
    ExhaustiveWalkIsByDistance(rows, dir, start, maxDepth);
    ByDistanceElements(rows, dir, start, 1, maxDepth, r);
    forall d: nat
      ensures At(r.id, d) in table <==> 1 <= d <= maxDepth && Reach(rows, dir, start, r.id, d)
    {
      CteReachIsReach(rows, dir, start, r.id, d);
    }
    if r.id == start {
      assert Reach(rows, dir, start, r.id, 0);
      if d: nat :| 1 <= d <= maxDepth && Reach(rows, dir, start, start, d) {
        assert At(r.id, d) in table;
      }
      if d: nat :| At(r.id, d) in table {
        assert 1 <= d <= maxDepth && Reach(rows, dir, start, start, d);
      }
    } else if d: nat :| At(r.id, d) in table {
      var n := Shortest(rows, dir, start, r.id, d);
      assert AtDistance(rows, dir, start, r.id, n);
      assert n > 0;
    }
  }

  lemma {:induction false} Shortest(rows: seq<Row>, dir: Direction, start: nat, x: nat, d: nat) returns (n: nat)
    requires Reach(rows, dir, start, x, d)
    ensures n <= d && AtDistance(rows, dir, start, x, n)
    decreases d
  {
    if m: nat :| m < d && Reach(rows, dir, start, x, m) {
      n := Shortest(rows, dir, start, x, m);
    } else {
      n := d;
    }
  }

  /** On an acyclic store no path leads back to `start`, so both walks return the same set of events. */
  lemma {:induction false} CteWalkEqualsFrontierLoop(rows: seq<Row>, dir: Direction, start: nat, maxDepth: nat,
                                                     table: set<At>)
    requires ById(rows) && Acyclic(rows) && dir != Both
    requires forall x: nat, d: nat :: At(x, d) in table <==> 1 <= d <= maxDepth && CteReach(rows, dir, start, x, d)
    ensures forall r | r in rows ::
              (exists d: nat :: At(r.id, d) in table)
                <==> r in Flatten(FullWalk(rows, start, dir, Exhaustive, maxDepth))
  {
    forall r | r in rows
      ensures (exists d: nat :: At(r.id, d) in table)
              <==> r in Flatten(FullWalk(rows, start, dir, Exhaustive, maxDepth))
    {
      CteAgreesWithFrontierLoop(rows, dir, start, maxDepth, table, r);
      if r.id == start {
        forall d: nat | 1 <= d <= maxDepth
          ensures !Reach(rows, dir, start, start, d)
        {
          if Reach(rows, dir, start, start, d) {
            LoopGoesUp(rows, dir, start, d);
          }
        }
      }
    }
  }

  lemma {:induction false} LoopGoesUp(rows: seq<Row>, dir: Direction, start: nat, d: nat)
    requires ById(rows) && dir != Both && Reach(rows, dir, start, start, d)
    ensures Up(rows, start, d) == Some(start)
  {
    ReachIsReached(rows, dir, start, start, d);
  }

  lemma {:induction false} ReachIsReached(rows: seq<Row>, dir: Direction, start: nat, x: nat, n: nat)
    requires ById(rows) && dir != Both && Reach(rows, dir, start, x, n)
    ensures Reached(rows, dir, start, x, n)
    decreases n
  {
    if n > 0 {
      var a: nat :| Reach(rows, dir, start, a, n - 1) && x in Next(rows, dir, {a});
      ReachIsReached(rows, dir, start, a, n - 1);
      NextReached(rows, dir, start, {a}, n - 1);
    }
  }
}
