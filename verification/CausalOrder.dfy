/**
 Causation on stores that appends can reach: an id contains its cause, so the graph is an acyclic
 forest, and every result about acyclic tables applies.
 */
module CausalOrder {
  import opened Types
  import opened Cce
  import opened Events
  import A = Appends
  import N = AppendRuns
  import W = Walk
  import P = WalkPaging
  import D = WalkDistance

  function Depth(id: A.EventId): nat
  {
    match id
    case Raw(_) => 0
    case Derived(_, _, cause, _) => if cause.Some? then 1 + Depth(cause.value) else 0
  }

  /** The 32-byte value of an id, read as a number; ids never share one. */
  type Digest = A.EventId -> nat

  ghost predicate Injective(digest: Digest)
  {
    forall a, b :: digest(a) == digest(b) ==> a == b
  }

  function DigestOf(digest: Digest, id: Option<A.EventId>): Option<nat>
  {
    if id.Some? then Some(digest(id.value)) else None
  }

  /** The stored row: ids as their 32-byte values. */
  function Stored(digest: Digest, r: A.Row): W.Row
  {
    Event(digest(r.id), r.stream, r.branch, r.version, r.timestamp, DigestOf(digest, r.cause),
          DigestOf(digest, r.correlation), r.eventType, r.typeVersion, r.payload, r.content, r.externalId)
  }

  /** `table` holds exactly the stored rows, in primary-key order. */
  ghost predicate TableOf(digest: Digest, rows: seq<A.Row>, table: seq<W.Row>)
  {
    && ById(table)
    && forall t :: t in table <==> exists r :: r in rows && t == Stored(digest, r)
  }

  lemma {:induction false} CauseIsShallower(nfc: Nfc, r: A.Row)
    requires A.ContentAddressed(nfc, r) && r.cause.Some?
    ensures Depth(r.cause.value) < Depth(r.id)
  {
  }

  ghost function Ranks(digest: Digest, ids: set<A.EventId>): map<nat, nat>
    requires Injective(digest)
  {
    map id | id in ids :: digest(id) := Depth(id)
  }

  lemma {:induction false} RankAt(digest: Digest, ids: set<A.EventId>, id: A.EventId)
    requires Injective(digest) && id in ids
    ensures digest(id) in Ranks(digest, ids) && Ranks(digest, ids)[digest(id)] == Depth(id)
  {
  }

  lemma {:induction false} SoundStoreIsAcyclic(nfc: Nfc, digest: Digest, rows: seq<A.Row>, table: seq<W.Row>)
    requires Injective(digest) && A.Sound(nfc, rows) && TableOf(digest, rows, table)
    ensures P.Acyclic(table)
  {
    hide Depth;
    hide A.Contiguous;
    hide A.UniqueIds;
    hide A.ContentAddressed;
    hide Ranks;
    hide Injective;
    var ids := (set r | r in rows :: r.id) + (set r | r in rows && r.cause.Some? :: r.cause.value);
    var rank := Ranks(digest, ids);
    forall t | t in table && t.cause.Some?
      ensures t.id in rank && (t.cause.value in rank ==> rank[t.cause.value] < rank[t.id])
    {
      var r :| r in rows && t == Stored(digest, r);
      assert A.ContentAddressed(nfc, r);
      CauseIsShallower(nfc, r);
      assert r.id in ids && r.cause.value in ids;
      RankAt(digest, ids, r.id);
      RankAt(digest, ids, r.cause.value);
    }
    P.RankedIsAcyclic(table, rank);
  }

  /**
   On every store that appends can reach, Forward and Backward paging is lossless and the recursive-CTE
   walk returns the events of the exhaustive frontier loop.
   */
  lemma {:induction false} ReachableStoresWalkAlike(nfc: Nfc, ops: seq<N.Op>, digest: Digest, table: seq<W.Row>,
                                                    start: nat, dir: W.Direction, maxDepth: nat, sampling: W.Sampling,
                                                    budgets: nat -> W.Budget, pages: seq<W.Outcome>, cte: set<D.At>)
    requires Injective(digest) && TableOf(digest, N.Run(nfc, N.EMPTY_STORE, ops).rows, table) && dir != W.Both
    requires P.Paged(W.Expander(table, dir, sampling, maxDepth), start, maxDepth, None, budgets, 0, pages)
    requires forall x: nat, d: nat :: D.At(x, d) in cte <==> 1 <= d <= maxDepth && D.CteReach(table, dir, start, x, d)
    ensures P.Acyclic(table)
    ensures var walk := W.FullWalk(table, start, dir, sampling, maxDepth);
            P.LimitHolds(table, start, dir, sampling, maxDepth) && pages[|pages| - 1].Complete? ==>
              P.DataOf(pages) == W.Flatten(walk)
    ensures forall t | t in table ::
              (exists d: nat :: D.At(t.id, d) in cte)
              <==> t in W.Flatten(W.FullWalk(table, start, dir, W.Exhaustive, maxDepth))
  {
    hide P.Paged, P.LimitHolds, D.CteReach;
    N.EmptyStoreIsSound(nfc, ops);
    SoundStoreIsAcyclic(nfc, digest, N.Run(nfc, N.EMPTY_STORE, ops).rows, table);
    var walk := W.FullWalk(table, start, dir, sampling, maxDepth);
    if P.LimitHolds(table, start, dir, sampling, maxDepth) {
      P.PagesConcatenateToWalk(table, start, dir, maxDepth, sampling, budgets, pages);
    }
    D.CteWalkEqualsFrontierLoop(table, dir, start, maxDepth, cte);
  }
}
