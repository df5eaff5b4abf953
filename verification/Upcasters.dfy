/** Upcaster chains: src/upcasters.rs. */
module Upcasters {
  import opened Types
  import opened Orbits

  datatype UpcastError = Failed(code: nat) | ChainGap(eventType: string, from: u32)

  /** `run` is the payload transformation; its error is a code of its own. */
  datatype Upcaster = Upcaster(from: u32, upTo: u32, run: Bytes -> Result<Bytes, nat>)

  // ----- The chain -----

  /** Registered upcasters, each starting where the one before ended, until none continues. */
  ghost predicate IsChain(list: seq<Upcaster>, version: u32, chain: seq<Upcaster>)
    decreases |chain|
  {
    if chain == [] then forall e | e in list :: e.from != version
    else chain[0] in list && chain[0].from == version && IsChain(list, chain[0].upTo, chain[1..])
  }

  function EndOf(chain: seq<Upcaster>, version: u32): u32
  {
    if chain == [] then version else chain[|chain| - 1].upTo
  }

  /** The upcasters one after another, up to the first failure. */
  function Compose(chain: seq<Upcaster>, payload: Bytes): Result<Bytes, nat>
    decreases |chain|
  {
    if chain == [] then Ok(payload)
    else match chain[0].run(payload)
      case Err(e) => Err(e)
      case Ok(p) => Compose(chain[1..], p)
  }

  /** The payloads from one upcaster to the next, each applied once, to the last one or to the first failure. */
  predicate IsCourse(chain: seq<Upcaster>, payload: Bytes, payloads: seq<Bytes>, result: Result<Bytes, nat>)
  {
    && 0 < |payloads| <= |chain| + 1 && payloads[0] == payload
    && (forall i | 0 <= i < |payloads| - 1 :: chain[i].run(payloads[i]) == Ok(payloads[i + 1]))
    && match result
       case Ok(p) => |payloads| == |chain| + 1 && p == payloads[|chain|]
       case Err(_) => |payloads| <= |chain| && chain[|payloads| - 1].run(payloads[|payloads| - 1]) == result
  }

  lemma {:induction false} ComposeCourse(chain: seq<Upcaster>, payload: Bytes) returns (payloads: seq<Bytes>)
    ensures IsCourse(chain, payload, payloads, Compose(chain, payload))
    decreases |chain|
  {
    if chain == [] || chain[0].run(payload).Err? {
      payloads := [payload];
    } else {
      var rest := ComposeCourse(chain[1..], chain[0].run(payload).value);
      payloads := [payload] + rest;
      forall i | 0 <= i < |payloads| - 1 ensures chain[i].run(payloads[i]) == Ok(payloads[i + 1]) {
        if i > 0 {
          assert chain[1..][i - 1].run(rest[i - 1]) == Ok(rest[i - 1 + 1]);
        }
      }
    }
  }

  /** Some registered upcaster starts above the version. */
  ghost predicate StopsShort(list: seq<Upcaster>, version: u32)
  {
    exists e :: e in list && e.from > version
  }

  predicate DistinctFroms(list: seq<Upcaster>)
  {
    forall i, j | 0 <= i < j < |list| :: list[i].from != list[j].from
  }

  predicate Forward(list: seq<Upcaster>)
  {
    forall i | 0 <= i < |list| :: list[i].from < list[i].upTo
  }

  /** What `apply` must give: the first failure, else a gap where the chain stops short, else the composed payload. */
  ghost function Outcome(list: seq<Upcaster>, eventType: string, version: u32, chain: seq<Upcaster>, payload: Bytes)
    : Result<Bytes, UpcastError>
  {
    match Compose(chain, payload)
    case Err(code) => Err(Failed(code))
    case Ok(p) =>
      if StopsShort(list, EndOf(chain, version)) then Err(ChainGap(eventType, EndOf(chain, version))) else Ok(p)
  }

  /** With distinct starting versions there is at most one chain from a version. */
  lemma {:induction false} ChainIsUnique(list: seq<Upcaster>, version: u32, a: seq<Upcaster>, b: seq<Upcaster>)
    requires DistinctFroms(list) && IsChain(list, version, a) && IsChain(list, version, b)
    ensures a == b
    decreases |a|
  {
    if a != [] && b != [] {
      var i :| 0 <= i < |list| && list[i] == a[0];
      var j :| 0 <= j < |list| && list[j] == b[0];
      ChainIsUnique(list, a[0].upTo, a[1..], b[1..]);
      assert a == [a[0]] + a[1..] && b == [b[0]] + b[1..];
    }
  }

  lemma {:induction false} SameMembers(xs: seq<Upcaster>, ys: seq<Upcaster>, e: Upcaster)
    requires multiset(xs) == multiset(ys)
    ensures e in xs <==> e in ys
  {
    assert e in xs <==> e in multiset(xs);
    assert e in ys <==> e in multiset(ys);
  }

  lemma {:induction false} OnlyMembersMatter(xs: seq<Upcaster>, ys: seq<Upcaster>, version: u32, chain: seq<Upcaster>)
    requires multiset(xs) == multiset(ys) && IsChain(xs, version, chain)
    ensures IsChain(ys, version, chain)
    decreases |chain|
  {
    if chain == [] {
      forall e | e in ys ensures e.from != version { SameMembers(xs, ys, e); }
    } else {
      SameMembers(xs, ys, chain[0]);
      OnlyMembersMatter(xs, ys, chain[0].upTo, chain[1..]);
    }
  }

  // ----- Registration -----

  ghost predicate SortedByFrom(list: seq<Upcaster>)
  {
    forall i, j | 0 <= i < j < |list| :: list[i].from <= list[j].from
  }

  /** Where a stable sort puts an entry pushed onto a sorted list: behind everything that starts no later. */
  function StableInsert(list: seq<Upcaster>, e: Upcaster): seq<Upcaster>
  {
    if list == [] then [e]
    else if list[0].from > e.from then [e] + list
    else [list[0]] + StableInsert(list[1..], e)
  }

  lemma {:induction false} StableInsertElements(list: seq<Upcaster>, e: Upcaster)
    ensures multiset(StableInsert(list, e)) == multiset(list) + multiset{e}
    ensures forall x | x in StableInsert(list, e) :: x in list || x == e
  {
    if list != [] && list[0].from <= e.from {
      StableInsertElements(list[1..], e);
      assert list == [list[0]] + list[1..];
    }
  }

  lemma {:induction false} StableInsertKeeps(list: seq<Upcaster>, e: Upcaster)
    requires SortedByFrom(list)
    ensures var r := StableInsert(list, e);
      && multiset(r) == multiset(list) + multiset{e} && SortedByFrom(r)
      && (forall x | x in r :: x in list || x == e)
  {
    StableInsertElements(list, e);
    if list != [] && list[0].from <= e.from {
      var rest := StableInsert(list[1..], e);
      StableInsertKeeps(list[1..], e);
      assert forall x | x in list[1..] :: list[0].from <= x.from;
      forall j | 0 <= j < |rest| ensures list[0].from <= rest[j].from { assert rest[j] in rest; }
    }
  }

  lemma {:induction false} StableInsertKeepsForward(list: seq<Upcaster>, e: Upcaster)
    requires SortedByFrom(list) && Forward(list) && e.from < e.upTo
    ensures Forward(StableInsert(list, e))
  {
    StableInsertKeeps(list, e);
    var r := StableInsert(list, e);
    forall i | 0 <= i < |r| ensures r[i].from < r[i].upTo { assert r[i] in r; }
  }

  /** First-match search, as the loop of `apply` does it on the sorted list. */
  function FindFrom(list: seq<Upcaster>, version: u32): (found: Option<Upcaster>)
    ensures found.Some? ==> found.value in list && found.value.from == version
    ensures found.None? ==> forall e | e in list :: e.from != version
  {
    if list == [] then None
    else if list[0].from == version then Some(list[0])
    else FindFrom(list[1..], version)
  }

  /** What an insertion changes for a search: only a start that had no upcaster finds the new one. */
  lemma {:induction false} InsertAndFind(list: seq<Upcaster>, e: Upcaster, version: u32)
    requires SortedByFrom(list)
    ensures FindFrom(StableInsert(list, e), version)
         == if FindFrom(list, version).None? && version == e.from then Some(e) else FindFrom(list, version)
  {
    if list == [] {
      assert [e][1..] == [];
    } else if list[0].from > e.from {
      assert ([e] + list)[1..] == list;
    } else {
      assert ([list[0]] + StableInsert(list[1..], e))[1..] == StableInsert(list[1..], e);
      InsertAndFind(list[1..], e, version);
    }
  }

  /** `after` finds what `before` found, and `e` at its start if nothing was found there. */
  ghost predicate FoundOnlyIfNew(before: seq<Upcaster>, after: seq<Upcaster>, e: Upcaster)
  {
    && (forall version: u32 | FindFrom(before, version).Some? :: FindFrom(after, version) == FindFrom(before, version))
    && (forall version: u32 | FindFrom(before, version).None? && version != e.from :: FindFrom(after, version).None?)
    && (FindFrom(before, e.from).None? ==> FindFrom(after, e.from) == Some(e))
  }

  // ----- The loop of `apply`, step by step -----

  /** The link from a version to the next one. */
  function Link(list: seq<Upcaster>): u32 -> Option<u32>
  {
    version => match FindFrom(list, version) case None => None case Some(e) => Some(e.upTo)
  }

  /** What a caller can check before the call: the links from the version run out within `|list| + 1` steps. */
  predicate Ends(list: seq<Upcaster>, version: u32)
  {
    After<u32>(Link(list), version, |list| + 1).None?
  }

  /** The loop after some steps: still going, ended at a version, or broken off by a failing upcaster. */
  datatype Stage = Running(version: u32, payload: Bytes) | Ended(version: u32, payload: Bytes) | Broke(code: nat)

  function StageAfter(list: seq<Upcaster>, version: u32, payload: Bytes, n: nat): Stage
    decreases n
  {
    if n == 0 then Running(version, payload)
    else match FindFrom(list, version)
      case None => Ended(version, payload)
      case Some(e) =>
        match e.run(payload)
        case Err(code) => Broke(code)
        case Ok(p) => StageAfter(list, e.upTo, p, n - 1)
  }

  ghost function Starts(list: seq<Upcaster>): set<u32>
  {
    set e | e in list :: e.from
  }

  lemma {:induction false} FewStarts(list: seq<Upcaster>)
    ensures LinksWithin(Link(list), Starts(list)) && |Starts(list)| <= |list|
  {
    if list != [] {
      FewStarts(list[1..]);
      assert Starts(list) == Starts(list[1..]) + {list[0].from} by {
        assert list == [list[0]] + list[1..];
      }
    }
    forall version: u32 | Link(list)(version).Some? ensures version in Starts(list) {
      assert FindFrom(list, version).value in list;
    }
  }

  /**
   The links run out at all exactly when they do within `|list| + 1` steps, which is when they never revisit a version.
   */
  lemma {:induction false} EndsExactly(list: seq<Upcaster>, version: u32)
    ensures (exists n: nat :: After<u32>(Link(list), version, n).None?) <==> Ends(list, version)
    ensures !Ends(list, version) <==>
      exists i: nat, j: nat ::
        i < j && After<u32>(Link(list), version, i).Some?
          && After<u32>(Link(list), version, i) == After<u32>(Link(list), version, j)
  {
    FewStarts(list);
    EndsSoonOrNever(Link(list), Starts(list), version, |list| + 1);
  }

  lemma {:induction false} StagesFollowLinks(list: seq<Upcaster>, version: u32, payload: Bytes, n: nat)
    ensures match StageAfter(list, version, payload, n)
      case Running(v, _) => After<u32>(Link(list), version, n) == Some(v)
      case Ended(_, _) => After<u32>(Link(list), version, n).None?
      case Broke(_) => true
    decreases n
  {
    if n > 0 && FindFrom(list, version).Some? {
      var e := FindFrom(list, version).value;
      if e.run(payload).Ok? {
        StagesFollowLinks(list, e.upTo, e.run(payload).value, n - 1);
      }
    }
  }

  /**
   The loop of `apply` leaves within `|list| + 1` steps when the links end.  When they do not, it never
   ends: at every step it is still running, unless an upcaster failed.
   */
  lemma {:induction false} LoopEndsExactly(list: seq<Upcaster>, version: u32, payload: Bytes)
    ensures Ends(list, version) ==> !StageAfter(list, version, payload, |list| + 1).Running?
    ensures !Ends(list, version) ==> forall n: nat :: !StageAfter(list, version, payload, n).Ended?
    ensures (forall e, p | e in list :: e.run(p).Ok?) ==>
      ((exists n: nat :: !StageAfter(list, version, payload, n).Running?) <==> Ends(list, version))
  {
    StagesFollowLinks(list, version, payload, |list| + 1);
    EndsExactly(list, version);
    forall n: nat | StageAfter(list, version, payload, n).Ended? ensures Ends(list, version) {
      StagesFollowLinks(list, version, payload, n);
    }
    if forall e, p | e in list :: e.run(p).Ok? {
      forall n: nat ensures !StageAfter(list, version, payload, n).Broke? { NothingBreaks(list, version, payload, n); }
    }
  }

  lemma {:induction false} NothingBreaks(list: seq<Upcaster>, version: u32, payload: Bytes, n: nat)
    requires forall e, p | e in list :: e.run(p).Ok?
    ensures !StageAfter(list, version, payload, n).Broke?
    decreases n
  {
    if n > 0 && FindFrom(list, version).Some? {
      var e := FindFrom(list, version).value;
      NothingBreaks(list, e.upTo, e.run(payload).value, n - 1);
    }
  }

  lemma {:induction false} ForwardClimbs(list: seq<Upcaster>, version: u32, n: nat)
    requires Forward(list) && After<u32>(Link(list), version, n).Some?
    ensures After<u32>(Link(list), version, n).value >= version + n
    decreases n
  {
    if n > 0 {
      var e := FindFrom(list, version).value;
      assert e in list && e.from == version;
      ForwardClimbs(list, e.upTo, n - 1);
    }
  }

  lemma {:induction false} BelowTheTop(list: seq<Upcaster>, version: u32)
    requires Forward(list)
    ensures After<u32>(Link(list), version, TWO_32).None?
  {
    if After<u32>(Link(list), version, TWO_32).Some? {
      ForwardClimbs(list, version, TWO_32);
    }
  }

  /** Upcasters that all go up always end. */
  lemma {:induction false} ForwardEnds(list: seq<Upcaster>, version: u32)
    requires Forward(list)
    ensures Ends(list, version)
  {
    EndsExactly(list, version);
    BelowTheTop(list, version);
  }

  /** The upcasters that the first-match search picks one after another. */
  ghost predicate IsFirstChain(list: seq<Upcaster>, version: u32, chain: seq<Upcaster>)
    decreases |chain|
  {
    if chain == [] then FindFrom(list, version).None?
    else FindFrom(list, version) == Some(chain[0]) && IsFirstChain(list, chain[0].upTo, chain[1..])
  }

  lemma {:induction false} FirstChainIsChain(list: seq<Upcaster>, version: u32, chain: seq<Upcaster>)
    requires IsFirstChain(list, version, chain)
    ensures IsChain(list, version, chain)
    decreases |chain|
  {
    if chain != [] {
      FirstChainIsChain(list, chain[0].upTo, chain[1..]);
    }
  }

  lemma {:induction false} FirstChain(list: seq<Upcaster>, version: u32, n: nat) returns (chain: seq<Upcaster>)
    requires After<u32>(Link(list), version, n).None?
    ensures IsFirstChain(list, version, chain)
    decreases n
  {
    match FindFrom(list, version)
    case None => chain := [];
    case Some(e) =>
      var rest := FirstChain(list, e.upTo, n - 1);
      chain := [e] + rest;
      assert chain[1..] == rest;
  }

  class UpcasterRegistry {
    var entries: map<string, seq<Upcaster>>

    /** The registrations of one event type. */
    function Of(eventType: string): seq<Upcaster>
      reads this
    {
      if eventType in entries then entries[eventType] else []
    }

    ghost predicate Valid()
      reads this
    {
      forall t | t in entries :: SortedByFrom(entries[t])
    }

    constructor ()
      ensures Valid() && entries == map[]
    {
      entries := map[];
    }

    /** Adds one upcaster, found only for a start that had none. */
    method Register(eventType: string, e: Upcaster)
      requires Valid()
      modifies this
      ensures Valid() && multiset(Of(eventType)) == multiset(old(Of(eventType))) + multiset{e}
      ensures FoundOnlyIfNew(old(Of(eventType)), Of(eventType), e)
      ensures old(Forward(Of(eventType))) && e.from < e.upTo ==> Forward(Of(eventType))
      ensures forall t | t != eventType :: Of(t) == old(Of(t))
    {
      ghost var list := Of(eventType);
      StableInsertKeeps(list, e);
      if Forward(list) && e.from < e.upTo {
        StableInsertKeepsForward(list, e);
      }
      forall version: u32 { InsertAndFind(list, e, version); }
      entries := entries[eventType := StableInsert(Of(eventType), e)];
    }

    /**
     Wherever the loop leaves after some number of steps, `Apply` reports how: the first failure, a gap exactly
     when it ended below some registered start, or the payload.  Where the links end, that is the composition
     along the chain of first matches.
     */
    method Apply(eventType: string, stored: u32, bytes: Bytes, ghost steps: nat)
      returns (r: Result<Bytes, UpcastError>, ghost chain: seq<Upcaster>, ghost payloads: seq<Bytes>)
      requires Valid() && !StageAfter(Of(eventType), stored, bytes, steps).Running?
      ensures match StageAfter(Of(eventType), stored, bytes, steps)
              case Ended(v, p) => r == if StopsShort(Of(eventType), v) then Err(ChainGap(eventType, v)) else Ok(p)
              case Broke(code) => r == Err(Failed(code))
              case Running(_, _) => false
      ensures Ends(Of(eventType), stored) ==>
                && IsFirstChain(Of(eventType), stored, chain) && IsChain(Of(eventType), stored, chain)
                && r == Outcome(Of(eventType), eventType, stored, chain, bytes)
                && IsCourse(chain, bytes, payloads, Compose(chain, bytes))
      ensures Ends(Of(eventType), stored) ==>
                ((r.Err? && r.error.ChainGap?)
                 <==> Compose(chain, bytes).Ok? && StopsShort(Of(eventType), EndOf(chain, stored)))
      ensures r.Ok? ==> Ends(Of(eventType), stored) && r.value == Compose(chain, bytes).value
    {
      var list := Of(eventType);
      hide IsCourse;
      chain, payloads := [], [];
      LoopEndsExactly(list, stored, bytes);
      if Ends(list, stored) {
        chain := FirstChain(list, stored, |list| + 1);
        FirstChainIsChain(list, stored, chain);
        payloads := ComposeCourse(chain, bytes);
      }
      if list == [] {
        assert Ends(list, stored);
        return Ok(bytes), chain, payloads;
      }
      var payload, current := bytes, stored;
      ghost var rest, left := chain, steps;
      while true
        invariant StageAfter(list, current, payload, left) == StageAfter(list, stored, bytes, steps)
        invariant Ends(list, stored) ==>
                    && IsFirstChain(list, current, rest) && EndOf(rest, current) == EndOf(chain, stored)
                    && Compose(chain, bytes) == Compose(rest, payload)
        decreases left
      {
        var entry := FindFrom(list, current);
        match entry {
          case None =>
            if exists i :: 0 <= i < |list| && list[i].from > current {
              return Err(ChainGap(eventType, current)), chain, payloads;
            }
            return Ok(payload), chain, payloads;
          case Some(e) =>
            var upcast := e.run(payload);
            if upcast.Err? {
              return Err(Failed(upcast.error)), chain, payloads;
            }
            payload := upcast.value;
            current := e.upTo;
            rest, left := if rest == [] then [] else rest[1..], left - 1;
        }
      }
    }
  }

  /**
   With distinct starts, registries holding the same upcasters give the same result, whatever the order of registration.
   */
  lemma {:induction false} ResultIgnoresOrder(xs: seq<Upcaster>, ys: seq<Upcaster>, eventType: string, version: u32,
                                              payload: Bytes, a: seq<Upcaster>, b: seq<Upcaster>)
    requires DistinctFroms(xs) && multiset(xs) == multiset(ys) && IsChain(xs, version, a) && IsChain(ys, version, b)
    ensures a == b && Outcome(xs, eventType, version, a, payload) == Outcome(ys, eventType, version, b, payload)
  {
    OnlyMembersMatter(ys, xs, version, b);
    ChainIsUnique(xs, version, a, b);
    forall e: Upcaster ensures e in xs <==> e in ys { SameMembers(xs, ys, e); }
  }
}
