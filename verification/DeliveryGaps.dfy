/**
 When delivery leaves no gap: exactly when no offered version jumps ahead, which pushes in version order
 and WAL scans that start at every subscriber's cursor guarantee.
 */
module DeliveryGaps {
  import opened Types
  import opened Cursors
  import opened Subscriptions
  import opened Delivery
  import Glob

  /** The versions of `key` compared with the cursor of `id` so far, then those waiting in the channel. */
  ghost function Stream(s: System, id: nat, key: Key): seq<nat>
    requires id in s.past
  {
    Versions(s.past[id].offered, key) + Versions(s.channel, key)
  }

  /** The seed or the highest version pushed since: where the cursor will stand once the channel is drained. */
  ghost function Reached(s: System, id: nat, key: Key): int
    requires id in s.past
  {
    Top(SeedAt(s.past[id], key), Stream(s, id, key))
  }

  /** `id` can still receive, and wants events of `key`. */
  predicate Listens(s: System, id: nat, key: Key)
  {
    id in s.entries && id in s.past && Fit(s.entries[id]) && Wants(s.entries[id].query, key)
  }

  ghost predicate NotAhead(s: System, ev: Ev)
  {
    forall id | Listens(s, id, ev.key) :: ev.version <= 1 + Reached(s, id, ev.key)
  }

  /** What a registration must find: nothing still in the channel jumps ahead of its seed. */
  ghost predicate ChannelFollowsSeed(s: System, who: nat)
  {
    who in s.joining ==> forall key | Wants(s.joining[who].query, key) ::
      NoJump(CursorAt(s.joining[who].query, s.joining[who].progress, key), Versions(s.channel, key))
  }

  /** No push of this step jumps ahead of a subscriber that could receive it. */
  ghost predicate Careful(s: System, step: Step)
  {
    match step
    case Push(ev) => ev in s.owed ==> NotAhead(s, ev)
    case ScanPush => s.scan.fetched != [] ==> NotAhead(s, s.scan.fetched[0])
    case Register(who) => ChannelFollowsSeed(s, who)
    case _ => true
  }

  ghost predicate CarefulRun(s: System, steps: seq<Step>)
    decreases |steps|
  {
    steps != [] ==> Careful(s, steps[0]) && CarefulRun(Do(s, steps[0]), steps[1..])
  }

  // ----- How a step extends what a subscriber is offered -----

  function PushedBy(s: System, step: Step): seq<Ev>
  {
    match step
    case Push(ev) => if ev in s.owed then [ev] else []
    case ScanPush => if s.scan.fetched == [] then [] else [s.scan.fetched[0]]
    case _ => []
  }

  lemma {:induction false} HeadMoves(offered: seq<Ev>, channel: seq<Ev>, key: Key)
    requires channel != []
    ensures Versions(offered + [channel[0]], key) + Versions(channel[1..], key)
            == Versions(offered, key) + Versions(channel, key)
    ensures channel[0].key != key ==> Versions(channel[1..], key) == Versions(channel, key)
  {
    var ev, rest := channel[0], channel[1..];
    assert channel == [ev] + rest;
    VersionsConcat([ev], rest, key);
    VersionsOneMore(offered, ev, key);
    assert [ev] == [] + [ev];
    VersionsOneMore([], ev, key);
    if ev.key == key {
      assert Versions(offered + [ev], key) == Versions(offered, key) + [ev.version];
    }
  }

  ghost predicate Follows(s: System, t: System, id: nat, key: Key, pushed: seq<Ev>)
  {
    && Listens(s, id, key) && Listens(t, id, key) && SeedAt(t.past[id], key) == SeedAt(s.past[id], key)
    && Stream(t, id, key) == Stream(s, id, key) + Versions(pushed, key)
  }

  lemma {:induction false} TakeFollows(s: System, ready: set<nat>, id: nat, key: Key)
    requires Inv(s) && id in s.entries && Listens(DoTake(s, ready), id, key)
    ensures Follows(s, DoTake(s, ready), id, key, [])
  {
    hide Hears, Internal, SoundPast, SoundEntry, SoundEvents, AfterOffer, OutcomeOf, Versions, CursorAt, SentTo;
    NothingPushed(key);
    if s.flight.None? && s.channel != [] {
      var ev := s.channel[0];
      PassesKeepQuery(s.entries[id], ev, id in ready);
      HeadMoves(s.past[id].offered, s.channel, key);
      if !Internal(ev.key) && ev.key == key {
        assert DoTake(s, ready).past[id].offered == s.past[id].offered + [ev];
      }
    }
  }

  lemma {:induction false} PushFollows(s: System, t: System, id: nat, key: Key, ev: Ev)
    requires Listens(s, id, key) && t.entries == s.entries && t.past == s.past && t.channel == s.channel + [ev]
    ensures Follows(s, t, id, key, [ev])
  {
    VersionsConcat(s.channel, [ev], key);
  }

  lemma {:induction false} CommitFollows(s: System, c: Key, dispatch: bool, panics: set<nat>, id: nat, key: Key)
    requires Inv(s) && id in s.entries && Listens(DoCommit(s, c, dispatch, panics), id, key)
    ensures Follows(s, DoCommit(s, c, dispatch, panics), id, key, [])
  {
    hide Hears, Internal, SoundPast, SoundEntry, SoundEvents, Versions, CursorAt, Head;
    NothingPushed(key);
  }

  lemma {:induction false} HandlerFollows(s: System, step: Step, id: nat, key: Key)
    requires step.Consume? || step.HandlerDies?
    requires Inv(s) && id in s.entries && Listens(Do(s, step), id, key)
    ensures Follows(s, Do(s, step), id, key, [])
  {
    hide Hears, Internal, SoundPast, SoundEntry, SoundEvents, Versions, CursorAt;
    NothingPushed(key);
  }

  lemma {:induction false} StepFollows(s: System, step: Step, id: nat, key: Key)
    requires Inv(s) && id in s.entries && Listens(Do(s, step), id, key)
    ensures Follows(s, Do(s, step), id, key, PushedBy(s, step))
  {
    hide Hears, Internal, SoundPast, SoundEntry, SoundEvents, RowsOf, GroupsOf, SeedOf, Versions, CursorAt,
         DoCommit, DoTake, DoAdvance, DoConsume, DoHandlerDies, FetchAfter, Covers;
    var t := Do(s, step);
    NothingPushed(key);
    match step
    case Commit(c, dispatch, panics) => CommitFollows(s, c, dispatch, panics, id, key);
    case Take(ready) => TakeFollows(s, ready, id, key);
    case Push(ev) => if ev in s.owed { PushFollows(s, t, id, key, ev); }
    case ScanPush => if s.scan.fetched != [] { PushFollows(s, t, id, key, s.scan.fetched[0]); }
    case Advance => AdvanceFollows(s, id, key);
    case Consume(_) => HandlerFollows(s, step, id, key);
    case HandlerDies(_) => HandlerFollows(s, step, id, key);
    case Fetch(_, _) =>
    case _ =>
  }

  lemma {:induction false} NothingPushed(key: Key)
    ensures Versions([], key) == []
  {
  }

  lemma {:induction false} AdvanceFollows(s: System, id: nat, key: Key)
    requires Inv(s) && id in s.entries && Listens(DoAdvance(s), id, key)
    ensures Follows(s, DoAdvance(s), id, key, [])
  {
    hide Hears, Internal, SoundPast, SoundEntry, SoundEvents, Advanced;
    if s.flight.Some? {
      PassesKeepQuery(s.entries[id], s.flight.value.ev, false);
    }
    NothingPushed(key);
  }

  lemma {:induction false} PassesKeepQuery(e: Entry, ev: Ev, ready: bool)
    ensures Advanced(e, ev).query == e.query && (Fit(Advanced(e, ev)) <==> Fit(e))
    ensures AfterOffer(e, ev, ready).query == e.query && (Fit(AfterOffer(e, ev, ready)) ==> Fit(e))
    ensures Fit(AfterOffer(e, ev, ready)) && Hears(e.query, ev.key)
            ==> OutcomeOf(e, ev, ready).Sent? || OutcomeOf(e, ev, ready).Passed?
    ensures e.kind.Synchronous? ==> AfterOffer(e, ev, ready) == e
  {
    hide Hears, CursorAt;
  }

  lemma {:induction false} TopGrows(seed: int, a: seq<nat>, b: seq<nat>)
    ensures seed <= Top(seed, a) <= Top(seed, a + b)
    ensures forall v | v in b :: v <= Top(seed, a + b)
  {
    TopIsAbove(seed, a);
    TopIsAbove(seed, a + b);
    if Top(seed, a) != seed {
      assert Top(seed, a) in a + b;
    }
    forall v | v in b ensures v in a + b { }
  }

  // ----- Careful runs leave no gap -----

  ghost predicate OfferedWithoutJump(p: Past)
  {
    forall key :: NoJump(SeedAt(p, key), Versions(p.offered, key))
  }

  ghost predicate NoJumps(s: System)
  {
    && (forall id | id in s.past && !s.past[id].sync :: OfferedWithoutJump(s.past[id]))
    && (forall id, key | Listens(s, id, key) :: NoJump(SeedAt(s.past[id], key), Stream(s, id, key)))
  }

  ghost predicate CarefulPush(s: System, step: Step, key: Key)
  {
    PushedBy(s, step) != [] && PushedBy(s, step)[0].key == key ==> NotAhead(s, PushedBy(s, step)[0])
  }

  lemma {:induction false} CarefulMeansNotAhead(s: System, step: Step, key: Key)
    requires Careful(s, step)
    ensures CarefulPush(s, step, key)
  {
    hide NotAhead;
  }

  lemma {:induction false} PushWithoutJump(seed: int, stream: seq<nat>, pushed: seq<Ev>, key: Key)
    requires NoJump(seed, stream) && |pushed| <= 1
    requires pushed != [] && pushed[0].key == key ==> pushed[0].version <= 1 + Top(seed, stream)
    ensures NoJump(seed, stream + Versions(pushed, key))
  {
    if pushed != [] && pushed[0].key == key {
      assert pushed == [] + [pushed[0]];
      NothingPushed(key);
      VersionsOneMore([], pushed[0], key);
      OneMore(seed, stream, pushed[0].version);
    } else {
      assert stream + [] == stream;
    }
  }

  lemma {:induction false} StreamStaysWithoutJump(s: System, step: Step, id: nat, key: Key)
    requires Inv(s) && NoJumps(s) && Careful(s, step) && id in s.entries && Listens(Do(s, step), id, key)
    ensures NoJump(SeedAt(Do(s, step).past[id], key), Stream(Do(s, step), id, key))
  {
    hide Inv, Do, Fit, Wants, SeedAt, CursorAt, Top, NoJump, Careful, Versions, Stream, OfferedWithoutJump;
    CarefulMeansNotAhead(s, step, key);
    StepFollows(s, step, id, key);
    PushWithoutJump(SeedAt(s.past[id], key), Stream(s, id, key), PushedBy(s, step), key);
  }

  lemma {:induction false} NewcomerWithoutJump(s: System, who: nat, id: nat, key: Key)
    requires Inv(s) && ChannelFollowsSeed(s, who) && id !in s.entries && Listens(DoRegister(s, who), id, key)
    ensures NoJump(SeedAt(DoRegister(s, who).past[id], key), Stream(DoRegister(s, who), id, key))
  {
    hide Hears, Internal, SoundSubscribers, SoundEvents, CursorAt;
    assert [] + Versions(s.channel, key) == Versions(s.channel, key);
  }

  lemma {:induction false} OnlyTakeOffers(s: System, step: Step, id: nat)
    requires Inv(s) && id in s.past && !s.past[id].sync
    ensures var t := Do(s, step);
      && id in t.past && !t.past[id].sync && t.past[id].query == s.past[id].query && t.past[id].seed == s.past[id].seed
      && (t.past[id].offered != s.past[id].offered ==> id in s.entries && id in t.entries && Fit(t.entries[id]))
  {
    hide Hears, Internal, SoundPast, SoundEvents, RowsOf, GroupsOf, SeedOf, CursorAt, CursorsSettle, FetchAfter, Covers,
         SentTo, CallAll, AdvanceAll, LastVersion, Head;
  }

  lemma {:induction false} OfferedStaysWithoutJump(s: System, step: Step, id: nat)
    requires Inv(s) && NoJumps(s) && Careful(s, step) && id in s.past && !s.past[id].sync
    ensures OfferedWithoutJump(Do(s, step).past[id])
  {
    hide Inv, Do, NoJump, CursorAt, PassedTheCursor, Top, CursorsSettle;
    var t := Do(s, step);
    StepKeepsInv(s, step);
    OnlyTakeOffers(s, step, id);
    assert OfferedWithoutJump(s.past[id]);
    if t.past[id].offered != s.past[id].offered {
      var p := t.past[id];
      assert t.entries[id].query == p.query && AllWanted(p.offered, p.query) by { InvParts(t, id); }
      forall key ensures NoJump(SeedAt(p, key), Versions(p.offered, key)) {
        if Wants(p.query, key) {
          StreamStaysWithoutJump(s, step, id, key);
          PrefixDoesNotJump(SeedAt(p, key), Versions(p.offered, key), Versions(t.channel, key));
        } else {
          UnwantedIsEmpty(p, key);
          OldVersionsDoNotJump(SeedAt(p, key), []);
        }
      }
    }
  }

  lemma {:induction false} InvParts(s: System, id: nat)
    requires Inv(s) && id in s.entries
    ensures id in s.past && s.entries[id].query == s.past[id].query
    ensures s.past[id].sync == s.entries[id].kind.Synchronous?
    ensures AllWanted(s.past[id].offered, s.past[id].query) && PassedTheCursor(s.past[id])
    ensures Fit(s.entries[id]) ==> CursorsSettle(s.entries[id], s.past[id], InFlight(s, id))
  {
    assert SoundPast(s.past[id], s.heads);
  }

  lemma {:induction false} UnwantedIsEmpty(p: Past, key: Key)
    requires AllWanted(p.offered, p.query) && !Wants(p.query, key)
    ensures Versions(p.offered, key) == []
  {
    NoVersionsOf(p.offered, key);
  }

  lemma {:induction false} NoVersionsOf(evs: seq<Ev>, key: Key)
    requires forall ev | ev in evs :: ev.key != key
    ensures Versions(evs, key) == []
  {
    if evs != [] {
      var front := evs[..|evs| - 1];
      assert evs[|evs| - 1] in evs;
      forall ev | ev in front ensures ev.key != key { assert ev in evs; }
      NoVersionsOf(front, key);
    }
  }

  lemma {:induction false} CarefulStepKeepsNoJumps(s: System, step: Step)
    requires Inv(s) && NoJumps(s) && Careful(s, step)
    ensures NoJumps(Do(s, step))
  {
    hide Inv, Careful, Do, OfferedWithoutJump, NoJump;
    var t := Do(s, step);
    forall id, key | Listens(t, id, key) ensures NoJump(SeedAt(t.past[id], key), Stream(t, id, key)) {
      if id in s.entries {
        StreamStaysWithoutJump(s, step, id, key);
      } else {
        OnlyRegisterAdds(s, step, id);
        NewcomerWithoutJump(s, step.who, id, key);
      }
    }
    forall id | id in t.past && !t.past[id].sync ensures OfferedWithoutJump(t.past[id]) {
      OnlyRegisterRecords(s, step, id);
      if id in s.past && !s.past[id].sync {
        OfferedStaysWithoutJump(s, step, id);
      } else {
        NothingOffered(t.past[id]);
      }
    }
  }

  lemma {:induction false} OnlyRegisterAdds(s: System, step: Step, id: nat)
    requires id !in s.entries && id in Do(s, step).entries
    ensures step.Register? && Do(s, step) == DoRegister(s, step.who)
    ensures Careful(s, step) ==> ChannelFollowsSeed(s, step.who)
  {
    hide AfterOffer, AfterCall, Advanced, SentTo, PastAfterCall, PastAfterOffer, RowsOf, GroupsOf, SeedOf,
         ChannelFollowsSeed, FetchAfter, Covers;
  }

  lemma {:induction false} OnlyRegisterRecords(s: System, step: Step, id: nat)
    requires id in Do(s, step).past && !Do(s, step).past[id].sync
    ensures (id in s.past && !s.past[id].sync) || Do(s, step).past[id].offered == []
  {
    hide Hears, Internal, OutcomeOf, RowsOf, GroupsOf, SeedOf, FetchAfter, Covers;
  }

  lemma {:induction false} NothingOffered(p: Past)
    requires p.offered == []
    ensures OfferedWithoutJump(p)
  {
  }

  /** Versions `seed + 1 .. ` with nothing missing, and a settled cursor stands at the last of them. */
  ghost predicate GapFree(s: System, id: nat, key: Key)
    requires id in s.past
  {
    var p := s.past[id];
    && Contiguous(SeedAt(p, key), Versions(p.sent, key))
    && (Listens(s, id, key) && InFlight(s, id).None? ==>
          CursorAt(p.query, s.entries[id].kind.progress, key) == SeedAt(p, key) + |Versions(p.sent, key)|)
  }

  /**
   In every run: what a subscriber was sent on a stream is contiguous exactly when nothing it was offered jumped ahead.
   */
  lemma {:induction false} ContiguousExactlyWhenNothingJumped(steps: seq<Step>, id: nat, key: Key)
    requires id in Run(EMPTY, steps).past
    ensures var p := Run(EMPTY, steps).past[id];
      Contiguous(SeedAt(p, key), Versions(p.sent, key)) <==> NoJump(SeedAt(p, key), Versions(p.offered, key))
  {
    hide Run, SeedAt;
    RunKeepsInv(EMPTY, steps);
    var p := Run(EMPTY, steps).past[id];
    assert SoundPast(p, Run(EMPTY, steps).heads);
    ContiguousExactlyWithoutJumps(SeedAt(p, key), Versions(p.offered, key));
  }

  lemma {:induction false} NoJumpsIsGapFree(s: System, id: nat, key: Key)
    requires Inv(s) && NoJumps(s) && id in s.past && !s.past[id].sync
    ensures GapFree(s, id, key)
  {
    hide Listens, SeedAt, Wants, SoundEntry, SoundEvents;
    var p := s.past[id];
    assert SoundPast(p, s.heads) && OfferedWithoutJump(p);
    var seed, offered := SeedAt(p, key), Versions(p.offered, key);
    ContiguousExactlyWithoutJumps(seed, offered);
    AcceptedIncrease(seed, offered);
    if Listens(s, id, key) && InFlight(s, id).None? {
      ListenerSettles(s, id, key);
      var sent := Versions(p.sent, key);
      assert sent != [] ==> sent[|sent| - 1] == seed + 1 + (|sent| - 1);
    }
  }

  lemma {:induction false} ListenerSettles(s: System, id: nat, key: Key)
    requires Inv(s) && Listens(s, id, key)
    ensures s.past[id].query == s.entries[id].query && !s.past[id].sync
    ensures Settled(s.entries[id], InFlight(s, id), key) == TopAt(s.past[id], key)
  {
    hide TopAt, Settled, Hears, SoundPast;
    InvParts(s, id);
  }

  lemma {:induction false} CarefulRunKeepsNoJumps(s: System, steps: seq<Step>)
    requires Inv(s) && NoJumps(s) && CarefulRun(s, steps)
    ensures NoJumps(Run(s, steps))
    decreases |steps|
  {
    hide Inv, NoJumps, Careful;
    if steps != [] {
      StepKeepsInv(s, steps[0]);
      CarefulStepKeepsNoJumps(s, steps[0]);
      CarefulRunKeepsNoJumps(Do(s, steps[0]), steps[1..]);
    }
  }

  /** A run in which no push jumps ahead delivers every subscriber the contiguous run above its seed, until it ends. */
  lemma {:induction false} CarefulRunsLeaveNoGap(steps: seq<Step>)
    requires CarefulRun(EMPTY, steps)
    ensures var s := Run(EMPTY, steps); forall id, key: Key | id in s.past && !s.past[id].sync :: GapFree(s, id, key)
  {
    hide Run, CarefulRun, GapFree;
    RunKeepsInv(EMPTY, steps);
    CarefulRunKeepsNoJumps(EMPTY, steps);
    var s := Run(EMPTY, steps);
    forall id, key: Key | id in s.past && !s.past[id].sync ensures GapFree(s, id, key) {
      NoJumpsIsGapFree(s, id, key);
    }
  }

  // ----- Seeds stay above -1, and a registration right after its seed query is fresh -----

  ghost predicate Floored(q: Query, p: Progress)
  {
    forall key :: CursorAt(q, p, key) >= -1
  }

  ghost predicate SeedsFloored(s: System)
  {
    && (forall who | who in s.joining :: Floored(s.joining[who].query, s.joining[who].progress))
    && (forall id | id in s.past :: Floored(s.past[id].query, s.past[id].seed))
  }

  /** `t` holds the joining calls of `s` and subscribers that `s` had, with their seeds. */
  ghost predicate SameSeeds(s: System, t: System)
  {
    && (forall who | who in t.joining :: who in s.joining && t.joining[who] == s.joining[who])
    && (forall id | id in t.past ::
          id in s.past && t.past[id].query == s.past[id].query && t.past[id].seed == s.past[id].seed)
    && forall key :: Head(s.heads, key) <= Head(t.heads, key)
  }

  lemma {:induction false} CommitKeepsSeeds(s: System, key: Key, dispatch: bool, panics: set<nat>)
    ensures SameSeeds(s, DoCommit(s, key, dispatch, panics))
  {
    hide Called, Internal, CallAll;
  }

  lemma {:induction false} TakeKeepsSeeds(s: System, ready: set<nat>)
    ensures SameSeeds(s, DoTake(s, ready))
  {
    hide OutcomeOf, Hears, Fit, Internal, OfferAll, SentTo;
  }

  lemma {:induction false} ConsumeKeepsSeeds(s: System, id: nat)
    ensures SameSeeds(s, DoConsume(s, id)) && SameSeeds(s, DoHandlerDies(s, id))
  {
  }

  /** Only a seed query and a registration touch what seeds there are. */
  lemma {:induction false} OtherStepsKeepSeeds(s: System, step: Step)
    requires !step.Seed? && !step.Register?
    ensures SameSeeds(s, Do(s, step))
  {
    hide DoCommit, DoTake, DoConsume, DoHandlerDies, RowsOf, GroupsOf, FetchAfter, Covers, AdvanceAll, Head, SeedOf;
    match step
    case Commit(key, dispatch, panics) => CommitKeepsSeeds(s, key, dispatch, panics);
    case Take(ready) => TakeKeepsSeeds(s, ready);
    case Consume(id) => ConsumeKeepsSeeds(s, id);
    case HandlerDies(id) => ConsumeKeepsSeeds(s, id);
    case _ =>
  }

  lemma {:induction false} StepKeepsSeedsFloored(s: System, step: Step)
    requires SeedsFloored(s)
    ensures SeedsFloored(Do(s, step))
  {
    hide DoCommit, DoTake, DoAdvance, DoConsume, DoHandlerDies, DoGather, DoFetch, DoScanPush, Head, Glob.Matches;
    match step
    case Seed(who, q, _, _) => assert Floored(q, SeedOf(s.heads, q));
    case Register(_) =>
    case _ => OtherStepsKeepSeeds(s, step);
  }

  /** On a wanted stream, only committed versions are at or below the seed. */
  ghost predicate Committed(heads: Heads, q: Query, p: Progress)
  {
    forall key | Wants(q, key) :: CursorAt(q, p, key) < Head(heads, key)
  }

  ghost predicate SeedsCommitted(s: System)
  {
    && (forall who | who in s.joining :: Committed(s.heads, s.joining[who].query, s.joining[who].progress))
    && (forall id | id in s.past :: Committed(s.heads, s.past[id].query, s.past[id].seed))
  }

  lemma {:induction false} SeedQueryIsCommitted(heads: Heads, q: Query)
    ensures Committed(heads, q, SeedOf(heads, q)) && Committed(heads, q, Progress(-1, map[]))
  {
    hide Internal;
    if Exact(q.pattern) {
      forall key | Wants(q, key) ensures CursorAt(q, SeedOf(heads, q), key) < Head(heads, key) {
        Glob.ExactPatternMatchesOnlyItself(q.pattern, key.stream);
      }
    }
  }

  lemma {:induction false} CommittedGrows(heads: Heads, more: Heads, q: Query, p: Progress)
    requires Committed(heads, q, p) && forall key :: Head(heads, key) <= Head(more, key)
    ensures Committed(more, q, p)
  {
  }

  lemma {:induction false} StepKeepsSeedsCommitted(s: System, step: Step)
    requires SeedsCommitted(s)
    ensures SeedsCommitted(Do(s, step))
  {
    hide DoCommit, DoTake, DoAdvance, DoConsume, DoHandlerDies, DoGather, DoFetch, DoScanPush, Committed, SeedOf, Head;
    var t := Do(s, step);
    match step
    case Seed(_, q, _, _) => SeedQueryIsCommitted(s.heads, q);
    case Register(who) => if who in s.joining { SeedQueryIsCommitted(s.heads, s.joining[who].query); }
    case _ =>
      OtherStepsKeepSeeds(s, step);
      forall q, p | Committed(s.heads, q, p) ensures Committed(t.heads, q, p) {
        CommittedGrows(s.heads, t.heads, q, p);
      }
  }

  /** Every wanted stream's last committed version is at or below the seed. */
  ghost predicate Fresh(heads: Heads, q: Query, p: Progress)
  {
    forall key | Wants(q, key) :: Head(heads, key) <= 1 + CursorAt(q, p, key)
  }

  lemma {:induction false} SeedQueryIsFresh(heads: Heads, q: Query)
    ensures Fresh(heads, q, SeedOf(heads, q))
  {
    hide Internal;
    if Exact(q.pattern) {
      forall key | Wants(q, key) ensures Head(heads, key) <= 1 + CursorAt(q, SeedOf(heads, q), key) {
        Glob.ExactPatternMatchesOnlyItself(q.pattern, key.stream);
      }
    }
  }

  lemma {:induction false} FreshChannelFollowsSeed(s: System, who: nat)
    requires Inv(s) && (who in s.joining ==> Fresh(s.heads, s.joining[who].query, s.joining[who].progress))
    ensures ChannelFollowsSeed(s, who)
  {
    hide Wants, CursorAt, SoundSubscribers;
    if who in s.joining {
      var q, p := s.joining[who].query, s.joining[who].progress;
      forall key | Wants(q, key) ensures NoJump(CursorAt(q, p, key), Versions(s.channel, key)) {
        VersionsAreOf(s.channel, key);
        OldVersionsDoNotJump(CursorAt(q, p, key), Versions(s.channel, key));
      }
    }
  }

  // ----- A WAL scan does not jump ahead of a subscriber whose cursor it started from -----

  ghost predicate Consecutive(evs: seq<Ev>)
  {
    forall i | 0 <= i < |evs| :: evs[i].key == evs[0].key && evs[i].version == evs[0].version + i
  }

  ghost predicate Covered(s: System, id: nat, key: Key)
    requires id in s.past
  {
    && (key in s.scan.groups ==> s.scan.groups[key] <= Reached(s, id, key))
    && (s.scan.fetched != [] && s.scan.fetched[0].key == key ==> s.scan.fetched[0].version <= 1 + Reached(s, id, key))
  }

  ghost predicate ScanFollows(s: System)
  {
    && Consecutive(s.scan.fetched)
    && (forall c | c in s.scan.covered :: c.id < s.nextId)
    && (forall c | c in s.scan.covered && Listens(s, c.id, c.key) :: Covered(s, c.id, c.key))
  }

  /** The group minimum is at most the cursor of a subscriber that has one for the stream. */
  lemma {:induction false} StartIsBelowCursor(entries: Entries, rows: seq<Row>, allStreams: seq<string>,
                                              groups: map<Key, int>, id: nat, key: Key)
    requires RowsOf(entries, rows) && GroupsOf(rows, allStreams, groups)
    requires id in entries && Covers(entries[id], allStreams, key)
    ensures key in groups && groups[key] <= CursorAt(entries[id].query, entries[id].kind.progress, key)
  {
    hide Glob.Matches;
    var i :| 0 <= i < |rows| && rows[i].id == id;
    assert RowFor(entries, rows[i]);
    assert Reads(rows[i], allStreams, key);
  }

  lemma {:induction false} GatherCovers(s: System, rows: seq<Row>, allStreams: seq<string>, groups: map<Key, int>,
                                        id: nat, key: Key)
    requires Inv(s) && RowsOf(s.entries, rows) && GroupsOf(rows, allStreams, groups)
    requires Listens(s, id, key) && Covers(s.entries[id], allStreams, key)
    ensures key in groups && groups[key] <= Reached(s, id, key)
  {
    hide Inv, RowsOf, GroupsOf, SeedAt, Wants, Covers;
    StartIsBelowCursor(s.entries, rows, allStreams, groups, id, key);
    ListenerSettles(s, id, key);
    TopGrows(SeedAt(s.past[id], key), Versions(s.past[id].offered, key), Versions(s.channel, key));
  }

  lemma {:induction false} ReachedGrows(s: System, step: Step, id: nat, key: Key)
    requires Inv(s) && id in s.entries && Listens(Do(s, step), id, key)
    ensures Listens(s, id, key) && Reached(s, id, key) <= Reached(Do(s, step), id, key)
    ensures PushedBy(s, step) != [] && PushedBy(s, step)[0].key == key
            ==> PushedBy(s, step)[0].version <= Reached(Do(s, step), id, key)
  {
    hide Inv, Do, Fit, Wants, SeedAt, CursorAt, Top, Stream;
    StepFollows(s, step, id, key);
    var pushed := PushedBy(s, step);
    TopGrows(SeedAt(s.past[id], key), Stream(s, id, key), Versions(pushed, key));
    if pushed != [] && pushed[0].key == key {
      assert pushed == [] + [pushed[0]];
      VersionsOneMore([], pushed[0], key);
      assert pushed[0].version in Versions(pushed, key);
    }
  }

  lemma {:induction false} GatherKeepsScanFollows(s: System, rows: seq<Row>, allStreams: seq<string>,
                                                 groups: map<Key, int>)
    requires Inv(s) && ScanFollows(s)
    ensures ScanFollows(DoGather(s, rows, allStreams, groups))
  {
    hide Inv, RowsOf, GroupsOf, Covers, Reached, Fit, Wants;
    var t := DoGather(s, rows, allStreams, groups);
    if t != s {
      assert forall id | id in s.entries :: id < s.nextId by { KnownIds(s); }
      forall c | c in t.scan.covered && Listens(t, c.id, c.key) ensures Covered(t, c.id, c.key) {
        GatherCovers(s, rows, allStreams, groups, c.id, c.key);
        SameReached(s, t, c.id, c.key);
      }
    }
  }

  lemma {:induction false} KnownIds(s: System)
    requires Inv(s)
    ensures forall id | id in s.entries :: id < s.nextId
  {
    hide SoundPast, SoundEntry, SoundEvents;
  }

  lemma {:induction false} SameReached(s: System, t: System, id: nat, key: Key)
    requires id in s.past && t.past == s.past && t.channel == s.channel
    ensures Reached(t, id, key) == Reached(s, id, key)
  {
  }

  lemma {:induction false} ScanStepKeepsCovered(s: System, step: Step, id: nat, key: Key)
    requires Inv(s) && SeedsFloored(s) && ScanFollows(s) && !step.Gather? && Cover(id, key) in s.scan.covered
    requires id in s.entries && Listens(Do(s, step), id, key)
    ensures Covered(Do(s, step), id, key)
  {
    hide Inv, Do, Fit, Wants, Reached, Floored;
    ReachedGrows(s, step, id, key);
    AboveFloor(s, id, key);
    var c := Cover(id, key);
    assert Covered(s, c.id, c.key);
    ScanParts(s, step);
    if step.Fetch? {
      FetchStart(key, Head(s.heads, step.key), if step.key in s.scan.groups then s.scan.groups[step.key] else 0);
    }
  }

  lemma {:induction false} AboveFloor(s: System, id: nat, key: Key)
    requires SeedsFloored(s) && id in s.past
    ensures Reached(s, id, key) >= -1
  {
    hide CursorAt;
    TopGrows(SeedAt(s.past[id], key), Stream(s, id, key), []);
    assert Floored(s.past[id].query, s.past[id].seed);
  }

  lemma {:induction false} FetchStart(key: Key, count: nat, after: int)
    ensures var evs := FetchAfter(key, count, after);
      evs != [] ==> evs[0] == Ev(key, if after < 0 then 0 else after + 1)
  {
  }

  lemma {:induction false} OthersKeepScan(s: System, step: Step)
    requires !step.Gather? && !step.Fetch? && !step.ScanPush?
    ensures Do(s, step).scan == s.scan && s.nextId <= Do(s, step).nextId
  {
    hide OfferAll, CallAll, AdvanceAll, SentTo, SeedOf, Internal, PastAfterCall, PastAfterOffer, NewEntry, Head,
         DoGather, DoFetch, DoScanPush;
  }

  /** What a step does to the scan's groups and fetched events. */
  lemma {:induction false} ScanParts(s: System, step: Step)
    requires !step.Gather?
    ensures var t := Do(s, step);
      && t.scan.covered == s.scan.covered && s.nextId <= t.nextId
      && t.scan.groups == (if step.Fetch? && s.scan.fetched == [] then s.scan.groups - {step.key} else s.scan.groups)
      && t.scan.fetched == (
          if step.ScanPush? && s.scan.fetched != [] then s.scan.fetched[1..]
          else if step.Fetch? && s.scan.fetched == [] && step.key in s.scan.groups && !step.fails
               then FetchAfter(step.key, Head(s.heads, step.key), s.scan.groups[step.key])
          else s.scan.fetched)
  {
    hide DoCommit, DoTake, DoAdvance, DoRegister, DoConsume, DoHandlerDies, DoGather, SeedOf, FetchAfter, Head;
    match step
    case Fetch(_, _) =>
    case ScanPush =>
    case _ => OthersKeepScan(s, step);
  }

  lemma {:induction false} StepKeepsScanFollows(s: System, step: Step)
    requires Inv(s) && SeedsFloored(s) && ScanFollows(s)
    ensures ScanFollows(Do(s, step))
  {
    hide Inv, SeedsFloored, Do, DoGather, Fit, Wants, Covered, FetchAfter;
    if step.Gather? {
      assert Do(s, step) == DoGather(s, step.rows, step.allStreams, step.groups) by { IsGather(s, step); }
      GatherKeepsScanFollows(s, step.rows, step.allStreams, step.groups);
    } else {
      var t := Do(s, step);
      ScanParts(s, step);
      forall c | c in t.scan.covered && Listens(t, c.id, c.key) ensures Covered(t, c.id, c.key) {
        AlreadyThere(s, step, c.id, c.key);
        ScanStepKeepsCovered(s, step, c.id, c.key);
      }
    }
  }

  lemma {:induction false} IsGather(s: System, step: Step)
    requires step.Gather?
    ensures Do(s, step) == DoGather(s, step.rows, step.allStreams, step.groups)
  {
  }

  lemma {:induction false} AlreadyThere(s: System, step: Step, id: nat, key: Key)
    requires id < s.nextId && Listens(Do(s, step), id, key)
    ensures id in s.entries
  {
    hide Do, Fit, Wants;
    if id !in s.entries {
      OnlyRegisterAdds(s, step, id);
    }
  }

  lemma {:induction false} RunKeepsScanFollows(s: System, steps: seq<Step>)
    requires Inv(s) && SeedsFloored(s) && ScanFollows(s)
    ensures Inv(Run(s, steps)) && SeedsFloored(Run(s, steps)) && ScanFollows(Run(s, steps))
    decreases |steps|
  {
    hide Inv, SeedsFloored, ScanFollows, Do;
    if steps != [] {
      StepKeepsInv(s, steps[0]);
      StepKeepsSeedsFloored(s, steps[0]);
      StepKeepsScanFollows(s, steps[0]);
      RunKeepsScanFollows(Do(s, steps[0]), steps[1..]);
    }
  }

  /**
   In every run, careful or not, a scan's next push does not jump ahead of a subscriber that was there when
   the groups were gathered with an exact pattern or an entry for the stream in its cursor map.
   */
  lemma {:induction false} ScansNeverJumpAheadOfCoveredSubscribers(steps: seq<Step>, id: nat)
    requires var s := Run(EMPTY, steps);
      s.scan.fetched != [] && Cover(id, s.scan.fetched[0].key) in s.scan.covered
        && Listens(s, id, s.scan.fetched[0].key)
    ensures var s := Run(EMPTY, steps);
      s.scan.fetched[0].version <= 1 + Reached(s, id, s.scan.fetched[0].key)
  {
    hide Run, Inv, Fit, Wants, Reached;
    EmptyIsSound();
    RunKeepsScanFollows(EMPTY, steps);
    var s := Run(EMPTY, steps);
    var c := Cover(id, s.scan.fetched[0].key);
    assert Covered(s, c.id, c.key);
  }

  lemma {:induction false} EmptyIsSound()
    ensures Inv(EMPTY) && SeedsFloored(EMPTY) && ScanFollows(EMPTY) && NoJumps(EMPTY)
    ensures SeedsCommitted(EMPTY) && NothingSkippedAnywhere(EMPTY)
  {
  }

  // ----- In-process pushes in version order never jump -----

  /** Every version between the seed and the head was pushed or is still owed. */
  ghost predicate NothingSkipped(s: System, id: nat, key: Key)
    requires id in s.past
  {
    && SeedAt(s.past[id], key) >= -1
    && forall v: nat | SeedAt(s.past[id], key) < v < Head(s.heads, key) ::
       Ev(key, v) in s.owed || v <= Reached(s, id, key)
  }

  ghost predicate NothingSkippedAnywhere(s: System)
  {
    forall id, key | Listens(s, id, key) :: NothingSkipped(s, id, key)
  }

  /**
   A commit of a stream that somebody listens to happens in this process with subscribers seen, each stream's
   commits are pushed oldest first, registrations follow their seed query before the next commit they want, and
   scans push only for streams where they started from the cursor of every subscriber that listens.
   */
  ghost predicate InOrder(s: System, step: Step)
  {
    match step
    case Commit(key, dispatch, _) => dispatch || forall id :: !Listens(s, id, key)
    case Push(ev) => ev in s.owed ==> forall o | o in s.owed && o.key == ev.key :: ev.version <= o.version
    case Register(who) => who in s.joining ==> Fresh(s.heads, s.joining[who].query, s.joining[who].progress)
    case ScanPush =>
      s.scan.fetched != [] ==> forall id | Listens(s, id, s.scan.fetched[0].key) ::
        Cover(id, s.scan.fetched[0].key) in s.scan.covered
    case _ => true
  }

  ghost predicate InOrderRun(s: System, steps: seq<Step>)
    decreases |steps|
  {
    steps != [] ==> InOrder(s, steps[0]) && InOrderRun(Do(s, steps[0]), steps[1..])
  }

  lemma {:induction false} OldestIsNotAhead(s: System, ev: Ev)
    requires Inv(s) && NothingSkippedAnywhere(s) && ev in s.owed
    requires forall o | o in s.owed && o.key == ev.key :: ev.version <= o.version
    ensures NotAhead(s, ev)
  {
    hide SoundSubscribers, Fit, Wants, SeedAt, Stream;
    forall id | Listens(s, id, ev.key) ensures ev.version <= 1 + Reached(s, id, ev.key) {
      assert NothingSkipped(s, id, ev.key) && id in s.past by { Listening(s, id, ev.key); }
      TopGrows(SeedAt(s.past[id], ev.key), Stream(s, id, ev.key), []);
      if ev.version - 1 > SeedAt(s.past[id], ev.key) {
        var before: nat := ev.version - 1;
        assert Ev(ev.key, before) in s.owed || before <= Reached(s, id, ev.key);
      }
    }
  }

  lemma {:induction false} Listening(s: System, id: nat, key: Key)
    requires Listens(s, id, key)
    ensures id in s.past && (NothingSkippedAnywhere(s) ==> NothingSkipped(s, id, key))
  {
  }

  lemma {:induction false} InOrderIsCareful(s: System, step: Step)
    requires Inv(s) && ScanFollows(s) && NothingSkippedAnywhere(s) && InOrder(s, step)
    ensures Careful(s, step)
  {
    hide Inv, Fit, Wants, Reached, NothingSkippedAnywhere, Fresh, ChannelFollowsSeed;
    match step
    case Push(ev) => if ev in s.owed { OldestIsNotAhead(s, ev); }
    case Register(who) => FreshChannelFollowsSeed(s, who);
    case ScanPush =>
      if s.scan.fetched != [] {
        var ev := s.scan.fetched[0];
        forall id | Listens(s, id, ev.key) ensures ev.version <= 1 + Reached(s, id, ev.key) {
          var c := Cover(id, ev.key);
          assert Covered(s, c.id, c.key);
        }
      }
    case _ =>
  }

  lemma {:induction false} InOrderStepSkipsNothing(s: System, step: Step)
    requires Inv(s) && NothingSkippedAnywhere(s) && InOrder(s, step)
    ensures NothingSkippedAnywhere(Do(s, step))
  {
    hide Inv, Do, Fit, Wants, InOrder, NothingSkipped;
    var t := Do(s, step);
    forall id, key | Listens(t, id, key) ensures NothingSkipped(t, id, key) {
      Listening(t, id, key);
      if id in s.entries {
        OldListenerSkipsNothing(s, step, id, key);
      } else {
        OnlyRegisterAdds(s, step, id);
        NewcomerSkipsNothing(s, step, id, key);
      }
    }
  }

  lemma {:induction false} NewcomerSkipsNothing(s: System, step: Step, id: nat, key: Key)
    requires step.Register? && InOrder(s, step) && id !in s.entries && Listens(DoRegister(s, step.who), id, key)
    ensures NothingSkipped(DoRegister(s, step.who), id, key)
  {
    hide Hears, Internal, CursorAt, Reached;
  }

  /** What a step does to the commits and the debt of a wanted stream. */
  lemma {:induction false} DebtParts(s: System, step: Step, key: Key)
    requires !Internal(key) && (step.Commit? ==> step.dispatch || step.key != key)
    ensures var t := Do(s, step); forall v: nat | v < Head(t.heads, key) ::
      && (v < Head(s.heads, key) || Ev(key, v) in t.owed)
      && (Ev(key, v) in s.owed ==> Ev(key, v) in t.owed || PushedBy(s, step) == [Ev(key, v)])
  {
    hide OfferAll, CallAll, AdvanceAll, SentTo, SeedOf, FetchAfter, Covers, RowsOf, GroupsOf, Internal;
  }

  lemma {:induction false} OldListenerSkipsNothing(s: System, step: Step, id: nat, key: Key)
    requires Inv(s) && NothingSkippedAnywhere(s) && InOrder(s, step) && id in s.entries && Listens(Do(s, step), id, key)
    ensures NothingSkipped(Do(s, step), id, key)
  {
    hide Inv, Do, Fit, Hears, Internal, SeedAt, Reached, Head;
    var t := Do(s, step);
    ReachedGrows(s, step, id, key);
    assert SeedAt(t.past[id], key) == SeedAt(s.past[id], key) by { StepFollows(s, step, id, key); }
    DebtParts(s, step, key);
    assert NothingSkipped(s, id, key);
  }

  lemma {:induction false} InOrderRunIsCareful(s: System, steps: seq<Step>)
    requires Inv(s) && SeedsFloored(s) && ScanFollows(s) && NothingSkippedAnywhere(s) && InOrderRun(s, steps)
    ensures CarefulRun(s, steps)
    decreases |steps|
  {
    hide Inv, SeedsFloored, ScanFollows, NothingSkippedAnywhere, InOrder, Careful, Do;
    if steps != [] {
      var step := steps[0];
      InOrderIsCareful(s, step);
      StepKeepsInv(s, step);
      StepKeepsSeedsFloored(s, step);
      StepKeepsScanFollows(s, step);
      InOrderStepSkipsNothing(s, step);
      InOrderRunIsCareful(Do(s, step), steps[1..]);
    }
  }

  /** Pushing in version order and scanning from every listener's cursor is enough: no subscriber ever sees a gap. */
  lemma {:induction false} InOrderRunsLeaveNoGap(steps: seq<Step>)
    requires InOrderRun(EMPTY, steps)
    ensures var s := Run(EMPTY, steps); forall id, key: Key | id in s.past && !s.past[id].sync :: GapFree(s, id, key)
  {
    hide Run, CarefulRun, GapFree, Inv, SeedsFloored, ScanFollows;
    EmptyIsSound();
    InOrderRunIsCareful(EMPTY, steps);
    CarefulRunsLeaveNoGap(steps);
  }

  lemma {:induction false} InOrderRunSkipsNothing(s: System, steps: seq<Step>)
    requires Inv(s) && SeedsCommitted(s) && NothingSkippedAnywhere(s) && InOrderRun(s, steps)
    ensures Inv(Run(s, steps)) && SeedsCommitted(Run(s, steps)) && NothingSkippedAnywhere(Run(s, steps))
    decreases |steps|
  {
    hide Inv, SeedsCommitted, NothingSkippedAnywhere, InOrder, Do;
    if steps != [] {
      StepKeepsInv(s, steps[0]);
      StepKeepsSeedsCommitted(s, steps[0]);
      InOrderStepSkipsNothing(s, steps[0]);
      InOrderRunSkipsNothing(Do(s, steps[0]), steps[1..]);
    }
  }

  /**
   Once nothing of a stream is waiting to be pushed or dispatched, every queue subscriber that asked for it, and is
   neither degraded nor without a handler, was sent exactly the versions above its seed that were committed, each
   once and in order.
   */
  lemma {:induction false} InOrderRunsDeliverEverything(steps: seq<Step>, id: nat, key: Key)
    requires InOrderRun(EMPTY, steps)
    requires var s := Run(EMPTY, steps);
             && id in s.entries && s.entries[id].kind.PostCommit? && !s.entries[id].degraded && s.entries[id].kind.alive
             && Asks(s.entries[id].query, key) && !("_fossic/" <= key.stream)
    requires var s := Run(EMPTY, steps); Versions(s.channel, key) == [] && forall v: nat :: Ev(key, v) !in s.owed
    ensures var s := Run(EMPTY, steps);
            && id in s.past
            && var seed, sent := SeedAt(s.past[id], key), Versions(s.past[id].sent, key);
               && (forall i | 0 <= i < |sent| :: sent[i] == seed + 1 + i)
               && seed + 1 + |sent| == if key in s.heads then s.heads[key] else 0
  {
    AskingListens(Run(EMPTY, steps), id, key) by { RunKeepsInv(EMPTY, steps); }
    hide Run, InOrderRun, GapFree, NothingSkippedAnywhere, Wants, Fit, CursorAt, Inv, TopAt, Top;
    EmptyIsSound();
    InOrderRunSkipsNothing(EMPTY, steps);
    InOrderRunsLeaveNoGap(steps);
    var s := Run(EMPTY, steps);
    Listening(s, id, key);
    ListenerSettles(s, id, key);
    SentUpToTop(s, id, key);
    assert Committed(s.heads, s.past[id].query, s.past[id].seed) && Wants(s.past[id].query, key);
    var p := s.past[id];
    ReachedIsTop(s, id, key);
    var last := LastVersion(s.heads, key);
    if last > SeedAt(p, key) {
      assert Ev(key, last) !in s.owed && last <= Reached(s, id, key);
    }
  }

  lemma {:induction false} AskingListens(s: System, id: nat, key: Key)
    requires Inv(s) && id in s.entries && s.entries[id].kind.PostCommit? && !s.entries[id].degraded
    requires s.entries[id].kind.alive && Asks(s.entries[id].query, key) && !("_fossic/" <= key.stream)
    ensures Listens(s, id, key)
  {
    hide Asks, Hears;
    HearsExactly(s.entries[id].query, key);
  }

  lemma {:induction false} ReachedIsTop(s: System, id: nat, key: Key)
    requires id in s.past && Versions(s.channel, key) == []
    ensures Reached(s, id, key) == TopAt(s.past[id], key)
  {
    assert Stream(s, id, key) == Versions(s.past[id].offered, key);
  }

  lemma {:induction false} SentUpToTop(s: System, id: nat, key: Key)
    requires Inv(s) && Listens(s, id, key) && !s.past[id].sync && GapFree(s, id, key)
    ensures var p := s.past[id];
            && Contiguous(SeedAt(p, key), Versions(p.sent, key))
            && TopAt(p, key) == SeedAt(p, key) + |Versions(p.sent, key)|
            && (Versions(p.sent, key) != [] ==> TopAt(p, key) < Head(s.heads, key))
  {
    hide SeedAt, Wants, SoundEvents, Fit, SoundEntry, Accept, Top;
    var p := s.past[id];
    assert SoundPast(p, s.heads);
    var sent := Versions(p.sent, key);
    AcceptedIncrease(SeedAt(p, key), Versions(p.offered, key));
    assert sent != [] ==> sent[|sent| - 1] == SeedAt(p, key) + 1 + (|sent| - 1);
    VersionsAreOf(p.sent, key);
    assert sent != [] ==> sent[|sent| - 1] in sent;
  }
}
