/**
 Branch chains and their cache (src/branches.rs, `create_branch` and `resolve_chain` in src/store.rs).

 Rows are kept in creation order; they are never removed and a fork point never changes.
 */
module Branches {
  import opened Types
  import opened Orbits

  datatype BranchRow = BranchRow(stream: string, id: string, parent: string, forkVersion: nat)

  /** Events of `branch` up to and including version `upTo`, or all of them. */
  datatype Segment = Segment(branch: string, upTo: Option<nat>)

  datatype BranchError = Reserved | AlreadyExists | BranchNotFound(stream: string, branch: string)

  const MAIN := "main"

  /** The primary-key query on (stream, id). */
  function Lookup(rows: seq<BranchRow>, stream: string, id: string): Option<BranchRow>
  {
    if rows == [] then None
    else if rows[0].stream == stream && rows[0].id == id then Some(rows[0])
    else Lookup(rows[1..], stream, id)
  }

  /** The query finds a row of the branch, and one exactly if there is one. */
  lemma {:induction false} LookupExactly(rows: seq<BranchRow>, stream: string, id: string)
    ensures match Lookup(rows, stream, id)
      case Some(row) => row in rows && row.stream == stream && row.id == id
      case None => forall row | row in rows :: !(row.stream == stream && row.id == id)
  {
    if rows != [] {
      LookupExactly(rows[1..], stream, id);
      assert forall row :: row in rows <==> row == rows[0] || row in rows[1..];
    }
  }

  lemma {:induction false} LookupGrows(rows: seq<BranchRow>, more: seq<BranchRow>, stream: string, id: string)
    requires rows <= more && Lookup(rows, stream, id).Some?
    ensures Lookup(more, stream, id) == Lookup(rows, stream, id)
  {
    if !(rows[0].stream == stream && rows[0].id == id) {
      LookupGrows(rows[1..], more[1..], stream, id);
    }
  }

  // ----- What a chain is -----

  /** `child` was forked off `parent`, which counts up to the fork point. */
  predicate ForkedOff(rows: seq<BranchRow>, stream: string, child: Segment, parent: Segment)
  {
    child.branch != MAIN &&
    match Lookup(rows, stream, child.branch)
    case None => false
    case Some(row) => parent == Segment(row.parent, Some(row.forkVersion))
  }

  /** A row of the child names the parent, and the parent counts up to its fork version. */
  ghost predicate IsFork(rows: seq<BranchRow>, stream: string, child: Segment, parent: Segment)
  {
    exists row :: row in rows && row.stream == stream && row.id == child.branch && row.parent == parent.branch
                  && parent.upTo == Some(row.forkVersion)
  }

  /** Main first, the unbounded leaf last, each segment forked off the one before. */
  ghost predicate LeadsTo(rows: seq<BranchRow>, stream: string, branch: string, chain: seq<Segment>)
  {
    && chain != [] && chain[0].branch == "main" && chain[|chain| - 1] == Segment(branch, None)
    && forall i | 0 < i < |chain| :: IsFork(rows, stream, chain[i], chain[i - 1])
  }

  predicate Absent(rows: seq<BranchRow>, stream: string, id: string)
  {
    forall row | row in rows :: !(row.stream == stream && row.id == id)
  }

  lemma {:induction false} NotFoundIsAbsent(rows: seq<BranchRow>, stream: string, id: string)
    requires Lookup(rows, stream, id).None?
    ensures Absent(rows, stream, id)
  {
    LookupExactly(rows, stream, id);
  }

  lemma {:induction false} ChainLeadsTo(rows: seq<BranchRow>, stream: string, branch: string, chain: seq<Segment>)
    requires IsChain(rows, stream, branch, chain)
    ensures LeadsTo(rows, stream, branch, chain)
  {
    hide Lookup;
    forall i | 0 < i < |chain| ensures IsFork(rows, stream, chain[i], chain[i - 1]) {
      assert ForkedOff(rows, stream, chain[i], chain[i - 1]);
      LookupExactly(rows, stream, chain[i].branch);
    }
  }

  predicate Linked(rows: seq<BranchRow>, stream: string, chain: seq<Segment>)
  {
    forall i | 0 < i < |chain| :: ForkedOff(rows, stream, chain[i], chain[i - 1])
  }

  /** From main to the leaf, which is unbounded; each bound is the fork version of the child. */
  predicate IsChain(rows: seq<BranchRow>, stream: string, branch: string, chain: seq<Segment>)
  {
    && chain != [] && chain[0].branch == MAIN && chain[|chain| - 1] == Segment(branch, None)
    && Linked(rows, stream, chain)
  }

  lemma {:induction false} EndsAgree(rows: seq<BranchRow>, stream: string, a: seq<Segment>, b: seq<Segment>)
    requires a != [] && b != [] && a[0].branch == MAIN && b[0].branch == MAIN && a[|a| - 1] == b[|b| - 1]
    requires Linked(rows, stream, a) && Linked(rows, stream, b)
    ensures a == b
    decreases |a|
  {
    var m, n := |a| - 1, |b| - 1;
    assert m > 0 ==> ForkedOff(rows, stream, a[m], a[m - 1]);
    assert n > 0 ==> ForkedOff(rows, stream, b[n], b[n - 1]);
    if m > 0 && n > 0 {
      EndsAgree(rows, stream, a[..m], b[..n]);
      assert a == a[..m] + [a[m]] && b == b[..n] + [b[n]];
    } else {
      assert a == [a[0]] && b == [b[0]];
    }
  }

  /** A branch has at most one chain. */
  lemma {:induction false} ChainIsUnique(rows: seq<BranchRow>, stream: string, branch: string, a: seq<Segment>,
                                         b: seq<Segment>)
    requires IsChain(rows, stream, branch, a) && IsChain(rows, stream, branch, b)
    ensures a == b
  {
    EndsAgree(rows, stream, a, b);
  }

  lemma {:induction false} LinkedGrows(rows: seq<BranchRow>, more: seq<BranchRow>, stream: string, chain: seq<Segment>)
    requires rows <= more && Linked(rows, stream, chain)
    ensures Linked(more, stream, chain)
  {
    forall i | 0 < i < |chain| ensures ForkedOff(more, stream, chain[i], chain[i - 1]) {
      assert ForkedOff(rows, stream, chain[i], chain[i - 1]);
      LookupGrows(rows, more, stream, chain[i].branch);
    }
  }

  // ----- The walk from the leaf -----

  /** Reached `current`, whose segment ends at `fork`; the segments below it are collected. */
  datatype Walk =
    | Walking(current: string, fork: Option<nat>, below: seq<Segment>)
    | Found(chain: seq<Segment>)
    | Missing(branch: string)

  function StepWalk(rows: seq<BranchRow>, stream: string, w: Walk): Walk
  {
    match w
    case Walking(current, fork, below) =>
      if current == MAIN then Found([Segment(MAIN, fork)] + below)
      else (match Lookup(rows, stream, current)
            case None => Missing(current)
            case Some(row) => Walking(row.parent, Some(row.forkVersion), [Segment(current, fork)] + below))
    case _ => w
  }

  /** The segments below are linked, end at the unbounded leaf, and were forked off the current one. */
  predicate OnTheWay(rows: seq<BranchRow>, stream: string, branch: string, w: Walk)
  {
    match w
    case Walking(current, fork, below) =>
      if below == [] then current == branch && fork == None
      else
        && below[|below| - 1] == Segment(branch, None) && Linked(rows, stream, below)
        && ForkedOff(rows, stream, below[0], Segment(current, fork))
    case Found(chain) => IsChain(rows, stream, branch, chain)
    case Missing(_) => true
  }

  lemma {:induction false} WalkStaysOnTheWay(rows: seq<BranchRow>, stream: string, branch: string, w: Walk)
    requires OnTheWay(rows, stream, branch, w)
    ensures OnTheWay(rows, stream, branch, StepWalk(rows, stream, w))
  {
    hide Lookup;
    if w.Walking? {
      var more := [Segment(w.current, w.fork)] + w.below;
      forall i | 0 < i < |more| ensures ForkedOff(rows, stream, more[i], more[i - 1]) {
        if i > 1 { assert ForkedOff(rows, stream, w.below[i - 1], w.below[i - 2]); }
      }
    }
  }

  lemma {:induction false} GrowthStaysOnTheWay(rows: seq<BranchRow>, more: seq<BranchRow>, stream: string,
                                               branch: string, w: Walk)
    requires rows <= more && OnTheWay(rows, stream, branch, w)
    ensures OnTheWay(more, stream, branch, w)
  {
    hide Lookup;
    match w
    case Walking(current, fork, below) =>
      if below != [] {
        LinkedGrows(rows, more, stream, below);
        LookupGrows(rows, more, stream, below[0].branch);
      }
    case Found(chain) => LinkedGrows(rows, more, stream, chain);
    case Missing(_) =>
  }

  // ----- Concurrent resolves, creations and the cache -----

  datatype Name = Name(stream: string, branch: string)

  datatype Resolver = Resolver(name: Name, walk: Walk)

  datatype Answer = Answer(name: Name, chain: seq<Segment>)

  /** `answers` are the chains that `resolve_chain` returned, by caller. */
  datatype System = System(
    rows: seq<BranchRow>,
    cache: map<Name, seq<Segment>>,
    resolvers: map<nat, Resolver>,
    answers: map<nat, Answer>)

  /**
   Creations commit here or in another process; only the former invalidate, and later.  Each query of a walk is a step.
   */
  datatype Step =
    | Create(row: BranchRow)
    | Invalidate(stream: string)
    | Ask(who: nat, name: Name)
    | Query(who: nat)
    | Insert(who: nat)

  function CreateBranch(rows: seq<BranchRow>, row: BranchRow): Result<seq<BranchRow>, BranchError>
  {
    if row.id == MAIN then Err(Reserved)
    else if Lookup(rows, row.stream, row.id).Some? then Err(AlreadyExists)
    else Ok(rows + [row])
  }

  /** A branch is created unless it is called main or there is one of its name on the stream. */
  lemma {:induction false} CreatedExactly(rows: seq<BranchRow>, row: BranchRow)
    ensures match CreateBranch(rows, row)
      case Ok(more) =>
        && more == rows + [row] && row.id != "main"
        && forall other | other in rows :: !(other.stream == row.stream && other.id == row.id)
      case Err(e) =>
        if row.id == "main" then e == Reserved
        else e == AlreadyExists && exists other :: other in rows && other.stream == row.stream && other.id == row.id
  {
    LookupExactly(rows, row.stream, row.id);
  }

  function Do(s: System, step: Step): System
  {
    match step
    case Create(row) => if CreateBranch(s.rows, row).Ok? then s.(rows := CreateBranch(s.rows, row).value) else s
    case Invalidate(stream) => s.(cache := map n | n in s.cache && n.stream != stream :: s.cache[n])
    case Ask(who, name) =>
      if name in s.cache then s.(answers := s.answers[who := Answer(name, s.cache[name])])
      else s.(resolvers := s.resolvers[who := Resolver(name, Walking(name.branch, None, []))])
    case Query(who) =>
      if who in s.resolvers
      then
        var r := s.resolvers[who];
        s.(resolvers := s.resolvers[who := r.(walk := StepWalk(s.rows, r.name.stream, r.walk))])
      else s
    case Insert(who) =>
      if who in s.resolvers && s.resolvers[who].walk.Found?
      then
        var r := s.resolvers[who];
        s.(cache := s.cache[r.name := r.walk.chain], answers := s.answers[who := Answer(r.name, r.walk.chain)],
           resolvers := s.resolvers - {who})
      else s
  }

  function Run(s: System, steps: seq<Step>): System
    decreases |steps|
  {
    if steps == [] then s else Run(Do(s, steps[0]), steps[1..])
  }

  /** Everything cached, answered or under way agrees with the branches as they are now. */
  ghost predicate UpToDate(s: System)
  {
    && (forall n | n in s.cache :: IsChain(s.rows, n.stream, n.branch, s.cache[n]))
    && (forall w | w in s.answers ::
       IsChain(s.rows, s.answers[w].name.stream, s.answers[w].name.branch, s.answers[w].chain))
    && (forall w | w in s.resolvers ::
       OnTheWay(s.rows, s.resolvers[w].name.stream, s.resolvers[w].name.branch, s.resolvers[w].walk))
  }

  lemma {:induction false} CreateKeepsUpToDate(s: System, row: BranchRow)
    requires UpToDate(s) && CreateBranch(s.rows, row).Ok?
    ensures UpToDate(s.(rows := s.rows + [row]))
  {
    hide IsChain, OnTheWay, Lookup;
    var more := s.rows + [row];
    forall n | n in s.cache ensures IsChain(more, n.stream, n.branch, s.cache[n]) {
      ChainGrows(s.rows, more, n.stream, n.branch, s.cache[n]);
    }
    forall w | w in s.answers
      ensures IsChain(more, s.answers[w].name.stream, s.answers[w].name.branch, s.answers[w].chain)
    {
      ChainGrows(s.rows, more, s.answers[w].name.stream, s.answers[w].name.branch, s.answers[w].chain);
    }
    forall w | w in s.resolvers
      ensures OnTheWay(more, s.resolvers[w].name.stream, s.resolvers[w].name.branch, s.resolvers[w].walk)
    {
      GrowthStaysOnTheWay(s.rows, more, s.resolvers[w].name.stream, s.resolvers[w].name.branch, s.resolvers[w].walk);
    }
  }

  lemma {:induction false} ChainGrows(rows: seq<BranchRow>, more: seq<BranchRow>, stream: string, branch: string,
                                      chain: seq<Segment>)
    requires rows <= more && IsChain(rows, stream, branch, chain)
    ensures IsChain(more, stream, branch, chain)
  {
    hide Lookup;
    LinkedGrows(rows, more, stream, chain);
  }

  lemma {:induction false} StepKeepsUpToDate(s: System, step: Step)
    requires UpToDate(s)
    ensures UpToDate(Do(s, step))
  {
    hide IsChain, StepWalk, Lookup, Linked;
    match step
    case Create(row) => if CreateBranch(s.rows, row).Ok? { CreateKeepsUpToDate(s, row); }
    case Query(who) =>
      if who in s.resolvers {
        WalkStaysOnTheWay(s.rows, s.resolvers[who].name.stream, s.resolvers[who].name.branch, s.resolvers[who].walk);
      }
    case _ =>
  }

  lemma {:induction false} RunKeepsUpToDate(s: System, steps: seq<Step>)
    requires UpToDate(s)
    ensures UpToDate(Run(s, steps))
    decreases |steps|
  {
    hide UpToDate, Do;
    if steps != [] {
      StepKeepsUpToDate(s, steps[0]);
      RunKeepsUpToDate(Do(s, steps[0]), steps[1..]);
    }
  }

  /**
   At every moment of every run, whatever the cache holds and whatever any caller was ever told is the chain
   that resolving afresh on the branches of that moment can only give.
   */
  lemma {:induction false} CachedChainsAreFresh(steps: seq<Step>, name: Name, current: seq<Segment>)
    requires IsChain(Run(System([], map[], map[], map[]), steps).rows, name.stream, name.branch, current)
    ensures var s := Run(System([], map[], map[], map[]), steps);
      && (name in s.cache ==> s.cache[name] == current)
      && forall w | w in s.answers && s.answers[w].name == name :: s.answers[w].chain == current
  {
    hide Run, IsChain, OnTheWay;
    RunKeepsUpToDate(System([], map[], map[], map[]), steps);
    var s := Run(System([], map[], map[], map[]), steps);
    if name in s.cache {
      ChainIsUnique(s.rows, name.stream, name.branch, s.cache[name], current);
    }
    forall w | w in s.answers && s.answers[w].name == name ensures s.answers[w].chain == current {
      ChainIsUnique(s.rows, name.stream, name.branch, s.answers[w].chain, current);
    }
  }

  // ----- Termination -----

  function WalkFor(rows: seq<BranchRow>, stream: string, w: Walk, steps: nat): Walk
    decreases steps
  {
    if steps == 0 then w else WalkFor(rows, stream, StepWalk(rows, stream, w), steps - 1)
  }

  lemma {:induction false} ChainLeadsHome(rows: seq<BranchRow>, stream: string, chain: seq<Segment>,
                                          below: seq<Segment>)
    requires chain != [] && chain[0].branch == MAIN && Linked(rows, stream, chain)
    ensures WalkFor(rows, stream, Walking(chain[|chain| - 1].branch, chain[|chain| - 1].upTo, below), |chain|).Found?
    decreases |chain|
  {
    var n := |chain| - 1;
    var w := Walking(chain[n].branch, chain[n].upTo, below);
    if n > 0 {
      assert ForkedOff(rows, stream, chain[n], chain[n - 1]);
      ChainLeadsHome(rows, stream, chain[..n], [chain[n]] + below);
    } else {
      assert WalkFor(rows, stream, StepWalk(rows, stream, w), 0).Found?;
    }
  }

  lemma {:induction false} LongWalkStaysOnTheWay(rows: seq<BranchRow>, stream: string, branch: string, w: Walk,
                                                 steps: nat)
    requires OnTheWay(rows, stream, branch, w)
    ensures OnTheWay(rows, stream, branch, WalkFor(rows, stream, w, steps))
    decreases steps
  {
    hide OnTheWay, StepWalk;
    if steps > 0 {
      WalkStaysOnTheWay(rows, stream, branch, w);
      LongWalkStaysOnTheWay(rows, stream, branch, StepWalk(rows, stream, w), steps - 1);
    }
  }

  // The walk as a loop over ids: each id but main links to the parent of its row, if it has one.

  function Parent(rows: seq<BranchRow>, stream: string): string -> Option<string>
  {
    id => if id == MAIN then None
          else match Lookup(rows, stream, id) case None => None case Some(row) => Some(row.parent)
  }

  /** What a caller can check before the call: the parents run out within `|rows| + 1` steps. */
  predicate Ends(rows: seq<BranchRow>, stream: string, branch: string)
  {
    After<string>(Parent(rows, stream), branch, |rows| + 1).None?
  }

  lemma {:induction false} WalkFollowsParents(rows: seq<BranchRow>, stream: string, w: Walk, n: nat)
    requires w.Walking?
    ensures WalkFor(rows, stream, w, n).Walking? <==> After<string>(Parent(rows, stream), w.current, n).Some?
    decreases n
  {
    hide Lookup;
    if n > 0 {
      var next := StepWalk(rows, stream, w);
      if next.Walking? {
        WalkFollowsParents(rows, stream, next, n - 1);
      } else {
        OverIsOver(rows, stream, next, n - 1);
      }
    }
  }

  lemma {:induction false} OverIsOver(rows: seq<BranchRow>, stream: string, w: Walk, n: nat)
    requires !w.Walking?
    ensures WalkFor(rows, stream, w, n) == w
    decreases n
  {
    if n > 0 {
      OverIsOver(rows, stream, w, n - 1);
    }
  }

  ghost function RowIds(rows: seq<BranchRow>): set<string>
  {
    set row | row in rows :: row.id
  }

  lemma {:induction false} FewIds(rows: seq<BranchRow>, stream: string)
    ensures LinksWithin(Parent(rows, stream), RowIds(rows)) && |RowIds(rows)| <= |rows|
  {
    if rows != [] {
      FewIds(rows[1..], stream);
      assert RowIds(rows) == RowIds(rows[1..]) + {rows[0].id} by {
        assert rows == [rows[0]] + rows[1..];
      }
    }
    forall id: string | Parent(rows, stream)(id).Some? ensures id in RowIds(rows) {
      assert rows[Position(rows, stream, id)] in rows;
    }
  }

  /**
   Resolution ends, with a chain or with a missing branch, exactly when it does within one step more than
   there are rows, which is when it never comes back to a branch.
   */
  lemma {:induction false} ResolutionEndsExactly(rows: seq<BranchRow>, stream: string, branch: string)
    ensures (exists n: nat :: !WalkFor(rows, stream, Walking(branch, None, []), n).Walking?)
            <==> Ends(rows, stream, branch)
    ensures !Ends(rows, stream, branch) <==>
      exists i: nat, j: nat :: i < j && After<string>(Parent(rows, stream), branch, i).Some?
        && After<string>(Parent(rows, stream), branch, i) == After<string>(Parent(rows, stream), branch, j)
  {
    hide WalkFor, After, Parent;
    var w := Walking(branch, None, []);
    FewIds(rows, stream);
    EndsSoonOrNever(Parent(rows, stream), RowIds(rows), branch, |rows| + 1);
    if n: nat :| !WalkFor(rows, stream, w, n).Walking? {
      WalkFollowsParents(rows, stream, w, n);
    }
    if Ends(rows, stream, branch) {
      WalkFollowsParents(rows, stream, w, |rows| + 1);
      assert !WalkFor(rows, stream, w, |rows| + 1).Walking?;
    }
  }

  /** It ends within those steps with a chain exactly when the branch has one. */
  lemma {:induction false} FoundSoonExactlyWithAChain(rows: seq<BranchRow>, stream: string, branch: string)
    ensures (exists chain :: IsChain(rows, stream, branch, chain))
       <==> WalkFor(rows, stream, Walking(branch, None, []), |rows| + 1).Found?
  {
    hide WalkFor, IsChain, After, Parent;
    var w := Walking(branch, None, []);
    ResolvesExactlyWithAChain(rows, stream, branch);
    if n: nat :| WalkFor(rows, stream, w, n).Found? {
      ResolutionEndsExactly(rows, stream, branch);
      WalkFollowsParents(rows, stream, w, |rows| + 1);
      SameEnd(rows, stream, w, n, |rows| + 1);
    }
  }

  lemma {:induction false} SameEnd(rows: seq<BranchRow>, stream: string, w: Walk, m: nat, n: nat)
    requires !WalkFor(rows, stream, w, m).Walking? && !WalkFor(rows, stream, w, n).Walking?
    ensures WalkFor(rows, stream, w, m) == WalkFor(rows, stream, w, n)
    decreases m
  {
    if !w.Walking? {
      OverIsOver(rows, stream, w, m);
      OverIsOver(rows, stream, w, n);
    } else {
      SameEnd(rows, stream, StepWalk(rows, stream, w), m - 1, n - 1);
    }
  }

  /** Resolution arrives exactly when the branch has a chain. */
  lemma {:induction false} ResolvesExactlyWithAChain(rows: seq<BranchRow>, stream: string, branch: string)
    ensures (exists n: nat :: WalkFor(rows, stream, Walking(branch, None, []), n).Found?)
       <==> exists chain :: IsChain(rows, stream, branch, chain)
  {
    hide WalkFor, ForkedOff;
    var w := Walking(branch, None, []);
    if n: nat :| WalkFor(rows, stream, w, n).Found? {
      LongWalkStaysOnTheWay(rows, stream, branch, w, n);
      assert IsChain(rows, stream, branch, WalkFor(rows, stream, w, n).chain);
    }
    if chain :| IsChain(rows, stream, branch, chain) {
      ChainLeadsHome(rows, stream, chain, []);
      assert WalkFor(rows, stream, w, |chain|).Found?;
    }
  }

  function Queries(who: nat, n: nat): seq<Step>
  {
    seq(n, _ => Query(who))
  }

  lemma {:induction false} QueriesWalk(s: System, who: nat, n: nat)
    requires who in s.resolvers
    ensures var r := s.resolvers[who];
            Run(s, Queries(who, n))
            == s.(resolvers := s.resolvers[who := r.(walk := WalkFor(s.rows, r.name.stream, r.walk, n))])
    decreases n
  {
    hide StepWalk;
    if n == 0 {
      assert s.resolvers[who := s.resolvers[who]] == s.resolvers;
    } else {
      QueriesWalk(Do(s, Query(who)), who, n - 1);
      assert Queries(who, n)[1..] == Queries(who, n - 1);
    }
  }

  lemma {:induction false} RunSplits(s: System, a: seq<Step>, b: seq<Step>)
    ensures Run(s, a + b) == Run(Run(s, a), b)
    decreases |a|
  {
    hide Do;
    if a == [] {
      assert a + b == b;
    } else {
      RunSplits(Do(s, a[0]), a[1..], b);
      assert (a + b)[1..] == a[1..] + b;
    }
  }

  /** Asking for a branch that is not cached, and querying on, answers and caches its chain. */
  lemma {:induction false} AskingAnswers(s: System, who: nat, name: Name, chain: seq<Segment>)
    requires name !in s.cache && IsChain(s.rows, name.stream, name.branch, chain)
    ensures var t := Run(s, [Ask(who, name)] + Queries(who, |s.rows| + 1) + [Insert(who)]);
            who in t.answers && t.answers[who] == Answer(name, chain) && name in t.cache && t.cache[name] == chain
  {
    hide WalkFor, IsChain, StepWalk;
    var w := Walking(name.branch, None, []);
    var asked := Do(s, Ask(who, name));
    var end := WalkFor(s.rows, name.stream, w, |s.rows| + 1);
    FoundSoonExactlyWithAChain(s.rows, name.stream, name.branch);
    LongWalkStaysOnTheWay(s.rows, name.stream, name.branch, w, |s.rows| + 1);
    ChainIsUnique(s.rows, name.stream, name.branch, chain, end.chain);
    QueriesWalk(asked, who, |s.rows| + 1);
    var found := Run(asked, Queries(who, |s.rows| + 1));
    assert found.resolvers[who] == Resolver(name, end);
    RunSplits(s, [Ask(who, name)], Queries(who, |s.rows| + 1));
    RunSplits(s, [Ask(who, name)] + Queries(who, |s.rows| + 1), [Insert(who)]);
    assert Run(s, [Ask(who, name)]) == asked by { OneStep(s, Ask(who, name)); }
    assert Run(found, [Insert(who)]) == Do(found, Insert(who)) by { OneStep(found, Insert(who)); }
  }

  lemma {:induction false} OneStep(s: System, step: Step)
    ensures Run(s, [step]) == Do(s, step)
  {
    assert [step][1..] == [];
  }

  /** Two branches that name each other as parents are accepted, and resolving either walks in circles for ever. */
  lemma {:induction false} MutualParentsNeverResolve(stream: string, a: string, b: string, below: seq<Segment>,
                                                     fork: Option<nat>, steps: nat)
    requires a != b && a != MAIN && b != MAIN
    ensures var rows := [BranchRow(stream, a, b, 0), BranchRow(stream, b, a, 0)];
      && CreateBranch([], rows[0]) == Ok([rows[0]]) && CreateBranch([rows[0]], rows[1]) == Ok(rows)
      && WalkFor(rows, stream, Walking(a, fork, below), steps).Walking?
      && WalkFor(rows, stream, Walking(b, fork, below), steps).Walking?
    decreases steps
  {
    var rows := [BranchRow(stream, a, b, 0), BranchRow(stream, b, a, 0)];
    assert rows[1..] == [rows[1]] && [rows[1]][1..] == [] && [rows[0]][1..] == [];
    assert rows[..0] + [rows[0]] == [rows[0]] && [rows[0]] + [rows[1]] == rows;
    assert Lookup([rows[1]], stream, b) == Some(rows[1]) && Lookup([rows[0]], stream, b) == None;
    if steps > 0 {
      assert Lookup(rows, stream, a) == Some(rows[0]) && Lookup(rows, stream, b) == Some(rows[1]);
      assert StepWalk(rows, stream, Walking(a, fork, below)) == Walking(b, Some(0), [Segment(a, fork)] + below);
      assert StepWalk(rows, stream, Walking(b, fork, below)) == Walking(a, Some(0), [Segment(b, fork)] + below);
      MutualParentsNeverResolve(stream, a, b, [Segment(a, fork)] + below, Some(0), steps - 1);
      MutualParentsNeverResolve(stream, a, b, [Segment(b, fork)] + below, Some(0), steps - 1);
    }
  }

  /** Every parent is main or was there before its child. */
  predicate ParentsCameFirst(rows: seq<BranchRow>)
  {
    forall i | 0 <= i < |rows| :: rows[i].parent == MAIN || Lookup(rows[..i], rows[i].stream, rows[i].parent).Some?
  }

  /** The position of a branch's row. */
  function Position(rows: seq<BranchRow>, stream: string, id: string): (i: nat)
    requires Lookup(rows, stream, id).Some?
    ensures i < |rows| && rows[i] == Lookup(rows, stream, id).value
    ensures rows[i].stream == stream && rows[i].id == id
  {
    if rows[0].stream == stream && rows[0].id == id then 0 else 1 + Position(rows[1..], stream, id)
  }

  lemma {:induction false} PositionInPrefix(rows: seq<BranchRow>, i: nat, stream: string, id: string)
    requires i <= |rows| && Lookup(rows[..i], stream, id).Some?
    ensures Lookup(rows, stream, id).Some? && Position(rows, stream, id) < i
  {
    LookupGrows(rows[..i], rows, stream, id);
    if !(rows[0].stream == stream && rows[0].id == id) {
      assert rows[..i][1..] == rows[1..][..i - 1];
      PositionInPrefix(rows[1..], i - 1, stream, id);
    }
  }

  function Reverse(xs: seq<Segment>): seq<Segment>
  {
    if xs == [] then [] else [xs[|xs| - 1]] + Reverse(xs[..|xs| - 1])
  }

  lemma {:induction false} ReverseOneMore(xs: seq<Segment>, x: Segment)
    ensures Reverse(xs + [x]) == [x] + Reverse(xs)
  {
    assert (xs + [x])[..|xs|] == xs;
  }

  lemma {:induction false} ParentsFirstWalk(rows: seq<BranchRow>, stream: string, w: Walk, n: nat)
    requires ParentsCameFirst(rows) && w.Walking? && n > 0
    requires w.current != MAIN ==> Lookup(rows, stream, w.current).Some? && n >= Position(rows, stream, w.current) + 2
    ensures WalkFor(rows, stream, w, n).Found?
    decreases n
  {
    hide Lookup;
    var next := StepWalk(rows, stream, w);
    if w.current == MAIN {
      OverIsOver(rows, stream, next, n - 1);
    } else {
      var i := Position(rows, stream, w.current);
      if rows[i].parent != MAIN {
        PositionInPrefix(rows, i, stream, rows[i].parent);
      }
      ParentsFirstWalk(rows, stream, next, n - 1);
    }
  }

  /** With parents first every resolution ends: at main, or, exactly for an unknown branch, missing that branch. */
  lemma {:induction false} ParentsFirstResolve(rows: seq<BranchRow>, stream: string, branch: string)
    requires ParentsCameFirst(rows)
    ensures Ends(rows, stream, branch)
    ensures var w := WalkFor(rows, stream, Walking(branch, None, []), |rows| + 1);
      if branch != MAIN && Lookup(rows, stream, branch).None? then w == Missing(branch) else w.Found?
  {
    hide Lookup;
    var w := Walking(branch, None, []);
    if branch != MAIN && Lookup(rows, stream, branch).None? {
      OverIsOver(rows, stream, Missing(branch), |rows|);
    } else {
      ParentsFirstWalk(rows, stream, w, |rows| + 1);
    }
    WalkFollowsParents(rows, stream, w, |rows| + 1);
  }

  /**
   Where resolution ends at all, it returns the chain if the branch has one, and otherwise names the ancestor
   that is missing; with parents first that is the branch itself.
   */
  method ResolveBranchChain(rows: seq<BranchRow>, stream: string, branch: string)
    returns (r: Result<seq<Segment>, BranchError>)
    requires Ends(rows, stream, branch)
    ensures r.Ok? ==> IsChain(rows, stream, branch, r.value)
    ensures r.Ok? <==> exists chain :: IsChain(rows, stream, branch, chain)
    ensures r.Err? ==> r.error.BranchNotFound? && r.error.stream == stream
    ensures r.Err? ==> r.error.branch != MAIN && Lookup(rows, stream, r.error.branch).None?
    ensures ParentsCameFirst(rows)
            ==> (r == Err(BranchNotFound(stream, branch)) <==> branch != MAIN && Lookup(rows, stream, branch).None?)
    ensures ParentsCameFirst(rows) && r.Err? ==> r.error.branch == branch
    ensures r.Ok? ==> LeadsTo(rows, stream, branch, r.value)
    ensures r.Err? ==> Absent(rows, stream, r.error.branch)
  {
    hide Lookup, IsChain, LeadsTo, Absent;
    ghost var start := Walking(branch, None, []);
    ghost var end := WalkFor(rows, stream, start, |rows| + 1);
    WalkFollowsParents(rows, stream, start, |rows| + 1);
    FoundSoonExactlyWithAChain(rows, stream, branch);
    LongWalkStaysOnTheWay(rows, stream, branch, start, |rows| + 1);
    if ParentsCameFirst(rows) {
      ParentsFirstResolve(rows, stream, branch);
    }
    hide Ends, ParentsCameFirst, OnTheWay;
    if branch == MAIN {
      MainIsItself(rows, stream);
      ChainLeadsTo(rows, stream, branch, [Segment(MAIN, None)]);
      return Ok([Segment(MAIN, None)]);
    }
    var chainRev: seq<Segment> := [];
    var current, fork := branch, None;
    ghost var left: nat := |rows| + 1;
    while current != MAIN
      invariant WalkFor(rows, stream, Walking(current, fork, Reverse(chainRev)), left) == end
      decreases left
    {
      assert left > 0;
      var row := Lookup(rows, stream, current);
      if row.None? {
        OverIsOver(rows, stream, Missing(current), left - 1);
        NotFoundIsAbsent(rows, stream, current);
        return Err(BranchNotFound(stream, current));
      }
      ReverseOneMore(chainRev, Segment(current, fork));
      chainRev := chainRev + [Segment(current, fork)];
      fork := Some(row.value.forkVersion);
      current := row.value.parent;
      left := left - 1;
    }
    assert left > 0;
    ReverseOneMore(chainRev, Segment(MAIN, fork));
    OverIsOver(rows, stream, Found([Segment(MAIN, fork)] + Reverse(chainRev)), left - 1);
    chainRev := chainRev + [Segment(MAIN, fork)];
    r := Ok(Reverse(chainRev));
    ChainLeadsTo(rows, stream, branch, r.value);
  }

  lemma {:induction false} MainIsItself(rows: seq<BranchRow>, stream: string)
    ensures IsChain(rows, stream, MAIN, [Segment(MAIN, None)])
  {
  }
}
