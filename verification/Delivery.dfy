/**
 The delivery protocol as a step system: commits, pushes to the shared dispatch channel in any order,
 overlapping WAL scans, one dispatcher in two passes, subscribers that come and go
 (src/subscriptions.rs, src/wal_watch.rs and the push paths of src/store.rs).

 A step that is not enabled leaves the system as it is, so every sequence of steps is a run.
 */
module Delivery {
  import opened Types
  import opened Cursors
  import opened Subscriptions

  /**
   What happened to a subscriber so far: the seed it registered with, the events the dispatcher compared
   with its cursor while it was fit to receive them, those sent to its queue or callback, and those its
   handler took.  It outlives the registry entry.
   */
  datatype Past = Past(query: Query, sync: bool, seed: Progress, offered: seq<Ev>, sent: seq<Ev>, taken: seq<Ev>)

  /** The dispatcher between its two passes. */
  datatype Flight = Flight(ev: Ev, delivered: set<nat>)

  /** A `subscribe` call between its seed query and the registration. */
  datatype Joining = Joining(query: Query, sync: bool, capacity: nat, progress: Progress)

  /** At the gathering of the scan's groups, subscriber `id` contributed its own cursor for `key`. */
  datatype Cover = Cover(id: nat, key: Key)

  /** The scan thread: groups still to fetch, events fetched and not pushed yet. */
  datatype Scan = Scan(groups: map<Key, int>, fetched: seq<Ev>, covered: set<Cover>)

  type Heads = map<Key, nat>

  /** `heads` counts the committed versions; `owed` are the in-process commits not pushed yet. */
  datatype System = System(
    heads: Heads, owed: set<Ev>, channel: seq<Ev>, flight: Option<Flight>,
    entries: Entries, nextId: nat, joining: map<nat, Joining>, scan: Scan, past: map<nat, Past>)

  const EMPTY: System := System(map[], {}, [], None, map[], 1, map[], Scan(map[], [], {}), map[])

  datatype Step =
    // `dispatch`: in this process, with subscribers seen beforehand
    | Commit(key: Key, dispatch: bool, panics: set<nat>)
    | Push(ev: Ev)
    | Take(ready: set<nat>)                               // the dispatcher receives and runs its first pass
    | Advance                                             // its second pass
    | Seed(who: nat, query: Query, sync: bool, capacity: nat)
    | Register(who: nat)
    | Unsubscribe(id: nat)
    | Consume(id: nat)
    | HandlerDies(id: nat)
    | Gather(rows: seq<Row>, allStreams: seq<string>, groups: map<Key, int>)
    | Fetch(key: Key, fails: bool)
    | ScanPush

  function Head(heads: Heads, key: Key): nat
  {
    if key in heads then heads[key] else 0
  }

  /** Streams the dispatcher never delivers. */
  predicate Internal(key: Key)
  {
    "_fossic/" <= key.stream
  }

  predicate Wants(q: Query, key: Key)
  {
    Hears(q, key) && !Internal(key)
  }

  // ----- The steps -----

  function PastAfterCall(p: Past, e: Entry, ev: Ev): Past
  {
    if Called(e, ev) then p.(offered := p.offered + [ev], sent := p.sent + [ev], taken := p.taken + [ev]) else p
  }

  /** A commit, with the synchronous callbacks that run before its lock is released. */
  function DoCommit(s: System, key: Key, dispatch: bool, panics: set<nat>): System
  {
    var ev := Ev(key, Head(s.heads, key));
    var committed := s.(heads := s.heads[key := ev.version + 1]);
    if !dispatch || Internal(key) then committed
    else
      committed.(
        owed := s.owed + {ev},
        entries := CallAll(s.entries, ev, panics),
        past := map id | id in s.past ::
          if id in s.entries then PastAfterCall(s.past[id], s.entries[id], ev) else s.past[id])
  }

  predicate Fit(e: Entry)
  {
    e.kind.PostCommit? && !e.degraded && e.kind.alive
  }

  function PastAfterOffer(p: Past, e: Entry, ev: Ev, ready: bool): Past
  {
    if !Fit(e) || !Hears(e.query, ev.key) then p
    else match OutcomeOf(e, ev, ready)
      case Sent =>
        p.(offered := p.offered + [ev], sent := p.sent + [ev],
           taken := if e.kind.capacity == 0 then p.taken + [ev] else p.taken)
      case Passed => p.(offered := p.offered + [ev])
      case _ => p
  }

  function DoTake(s: System, ready: set<nat>): System
  {
    if s.flight.Some? || s.channel == [] then s
    else
      var ev := s.channel[0];
      var received := s.(channel := s.channel[1..]);
      if Internal(ev.key) then received
      else
        received.(
          entries := OfferAll(s.entries, ev, ready),
          flight := Some(Flight(ev, SentTo(s.entries, ev, ready))),
          past := map id | id in s.past ::
                    if id in s.entries then PastAfterOffer(s.past[id], s.entries[id], ev, id in ready) else s.past[id])
  }

  function DoAdvance(s: System): System
  {
    if s.flight.None? then s
    else s.(entries := AdvanceAll(s.entries, s.flight.value.ev, s.flight.value.delivered), flight := None)
  }

  /** `COALESCE(MAX(version), -1)`. */
  function LastVersion(heads: Heads, key: Key): int
  {
    Head(heads, key) - 1
  }

  /** The seed query: the last committed version, per matching stream for a glob. */
  function SeedOf(heads: Heads, q: Query): Progress
  {
    if Exact(q.pattern) then Progress(LastVersion(heads, Key(q.pattern, q.branch)), map[])
    else
      Progress(-1, map key | key in heads && key.branch == q.branch && Glob.Matches(q.pattern, key.stream)
                     :: LastVersion(heads, key))
  }

  function DoRegister(s: System, who: nat): System
  {
    if who !in s.joining then s
    else
      var j := s.joining[who];
      var kind := if j.sync then Synchronous else PostCommit(j.capacity, [], true, j.progress);
      var seed := if j.sync then Progress(-1, map[]) else j.progress;
      s.(entries := s.entries[s.nextId := NewEntry(j.query, kind)],
         past := s.past[s.nextId := Past(j.query, j.sync, seed, [], [], [])],
         nextId := s.nextId + 1,
         joining := s.joining - {who})
  }

  function DoConsume(s: System, id: nat): System
  {
    if id !in s.entries || id !in s.past || !s.entries[id].kind.PostCommit? || s.entries[id].kind.queue == [] then s
    else
      var e, p := s.entries[id], s.past[id];
      s.(entries := s.entries[id := e.(kind := e.kind.(queue := e.kind.queue[1..]))],
         past := s.past[id := p.(taken := p.taken + [e.kind.queue[0]])])
  }

  /** A panicking handler ends its thread, which drops the queue. */
  function DoHandlerDies(s: System, id: nat): System
  {
    if id !in s.entries || !s.entries[id].kind.PostCommit? then s
    else
      var e := s.entries[id];
      s.(entries := s.entries[id := e.(kind := e.kind.(queue := [], alive := false))])
  }

  predicate Covers(e: Entry, allStreams: seq<string>, key: Key)
  {
    && Tracked(e) && e.query.branch == key.branch
    && if Exact(e.query.pattern) then key.stream == e.query.pattern
       else key.stream in allStreams && Glob.Matches(e.query.pattern, key.stream) && key in e.kind.progress.streams
  }

  ghost function DoGather(s: System, rows: seq<Row>, allStreams: seq<string>, groups: map<Key, int>): System
  {
    if s.scan.groups != map[] || s.scan.fetched != [] || !RowsOf(s.entries, rows) || !GroupsOf(rows, allStreams, groups)
    then s
    else
      s.(scan := Scan(groups, [], set id, key | id in s.entries && key in groups
        && Covers(s.entries[id], allStreams, key)
                                  :: Cover(id, key)))
  }

  function DoFetch(s: System, key: Key, fails: bool): System
  {
    if s.scan.fetched != [] || key !in s.scan.groups then s
    else
      s.(scan := s.scan.(groups := s.scan.groups - {key},
                         fetched := if fails then [] else FetchAfter(key, Head(s.heads, key), s.scan.groups[key])))
  }

  function DoScanPush(s: System): System
  {
    if s.scan.fetched == [] then s
    else s.(channel := s.channel + [s.scan.fetched[0]], scan := s.scan.(fetched := s.scan.fetched[1..]))
  }

  ghost function Do(s: System, step: Step): System
  {
    match step
    case Commit(key, dispatch, panics) => DoCommit(s, key, dispatch, panics)
    case Push(ev) => if ev in s.owed then s.(owed := s.owed - {ev}, channel := s.channel + [ev]) else s
    case Take(ready) => DoTake(s, ready)
    case Advance => DoAdvance(s)
    case Seed(who, query, sync, capacity) =>
      s.(joining := s.joining[who := Joining(query, sync, capacity, SeedOf(s.heads, query))])
    case Register(who) => DoRegister(s, who)
    case Unsubscribe(id) => s.(entries := s.entries - {id})
    case Consume(id) => DoConsume(s, id)
    case HandlerDies(id) => DoHandlerDies(s, id)
    case Gather(rows, allStreams, groups) => DoGather(s, rows, allStreams, groups)
    case Fetch(key, fails) => DoFetch(s, key, fails)
    case ScanPush => DoScanPush(s)
  }

  ghost function Run(s: System, steps: seq<Step>): System
    decreases |steps|
  {
    if steps == [] then s else Run(Do(s, steps[0]), steps[1..])
  }

  // ----- Versions of one stream -----

  function Versions(evs: seq<Ev>, key: Key): seq<nat>
  {
    if evs == [] then []
    else
      var earlier := Versions(evs[..|evs| - 1], key);
      if evs[|evs| - 1].key == key then earlier + [evs[|evs| - 1].version] else earlier
  }

  lemma {:induction false} VersionsOneMore(evs: seq<Ev>, ev: Ev, key: Key)
    ensures Versions(evs + [ev], key) == if ev.key == key then Versions(evs, key) + [ev.version] else Versions(evs, key)
  {
    assert (evs + [ev])[..|evs|] == evs;
  }

  lemma {:induction false} VersionsConcat(a: seq<Ev>, b: seq<Ev>, key: Key)
    ensures Versions(a + b, key) == Versions(a, key) + Versions(b, key)
  {
    if b == [] {
      assert a + b == a;
    } else {
      var c, ev := b[..|b| - 1], b[|b| - 1];
      VersionsConcat(a, c, key);
      assert a + b == (a + c) + [ev] && b == c + [ev];
      VersionsOneMore(a + c, ev, key);
      VersionsOneMore(c, ev, key);
    }
  }

  lemma {:induction false} VersionsAreOf(evs: seq<Ev>, key: Key)
    ensures forall v | v in Versions(evs, key) :: Ev(key, v) in evs
  {
    if evs != [] {
      var c, ev := evs[..|evs| - 1], evs[|evs| - 1];
      VersionsAreOf(c, key);
      assert ev in evs && forall x | x in c :: x in evs;
    }
  }

  // ----- The invariant behind safety -----

  function SeedAt(p: Past, key: Key): int
  {
    CursorAt(p.query, p.seed, key)
  }

  /** Where the cursor of the subscriber stands at `key` once the second pass is done. */
  function TopAt(p: Past, key: Key): int
  {
    Top(SeedAt(p, key), Versions(p.offered, key))
  }

  ghost predicate AllCommitted(evs: seq<Ev>, heads: Heads)
  {
    forall ev | ev in evs :: ev.version < Head(heads, ev.key)
  }

  ghost predicate AllWanted(evs: seq<Ev>, q: Query)
  {
    forall ev | ev in evs :: Wants(q, ev.key)
  }

  ghost predicate PassedTheCursor(p: Past)
  {
    forall key :: Versions(p.sent, key) == Accept(SeedAt(p, key), Versions(p.offered, key))
  }

  ghost predicate SoundPast(p: Past, heads: Heads)
  {
    && AllCommitted(p.offered, heads) && AllCommitted(p.sent, heads) && AllWanted(p.offered, p.query)
    && AllWanted(p.sent, p.query)
    && PassedTheCursor(p) && p.taken <= p.sent
  }

  function Settled(e: Entry, inFlight: Option<Ev>, key: Key): int
    requires e.kind.PostCommit?
  {
    var cursor := CursorAt(e.query, e.kind.progress, key);
    if inFlight.Some? && inFlight.value.key == key then Max(cursor, inFlight.value.version) else cursor
  }

  ghost predicate CursorsSettle(e: Entry, p: Past, inFlight: Option<Ev>)
    requires e.kind.PostCommit?
  {
    forall key | Wants(e.query, key) :: Settled(e, inFlight, key) == TopAt(p, key)
  }

  ghost predicate BelowHeads(p: Past, heads: Heads)
  {
    forall key :: TopAt(p, key) < Head(heads, key)
  }

  ghost predicate SoundEntry(e: Entry, p: Past, inFlight: Option<Ev>, heads: Heads)
  {
    && e.query == p.query && p.sync == e.kind.Synchronous?
    && if p.sync then p.taken == p.sent && BelowHeads(p, heads)
       else
         && (inFlight.Some? ==> Wants(e.query, inFlight.value.key))
         && (e.kind.alive ==> p.taken + e.kind.queue == p.sent && |e.kind.queue| <= e.kind.capacity)
         && (!e.kind.alive ==> e.kind.queue == [])
         && (Fit(e) ==> CursorsSettle(e, p, inFlight))
  }

  function InFlight(s: System, id: nat): Option<Ev>
  {
    if s.flight.Some? && id in s.flight.value.delivered then Some(s.flight.value.ev) else None
  }

  ghost predicate SoundSubscribers(s: System)
  {
    && (forall id | id in s.past :: id < s.nextId && SoundPast(s.past[id], s.heads))
    && (forall id | id in s.entries :: id in s.past && SoundEntry(s.entries[id], s.past[id], InFlight(s, id), s.heads))
  }

  ghost predicate SoundEvents(s: System)
  {
    && AllCommitted(s.channel, s.heads) && AllCommitted(s.scan.fetched, s.heads)
    && (forall ev | ev in s.owed :: ev.version < Head(s.heads, ev.key))
    && (s.flight.Some? ==> forall id | id in s.flight.value.delivered :: id < s.nextId)
  }

  ghost predicate Inv(s: System)
  {
    SoundSubscribers(s) && SoundEvents(s)
  }

  // ----- Every step keeps it -----

  lemma {:induction false} OfferedOneMore(p: Past, q: Past, ev: Ev)
    requires PassedTheCursor(p) && q.query == p.query && q.seed == p.seed && q.offered == p.offered + [ev]
    requires q.sent == if ev.version > TopAt(p, ev.key) then p.sent + [ev] else p.sent
    ensures PassedTheCursor(q)
    ensures forall key :: TopAt(q, key) == if key == ev.key then Max(TopAt(p, key), ev.version) else TopAt(p, key)
  {
    forall key
      ensures Versions(q.sent, key) == Accept(SeedAt(q, key), Versions(q.offered, key))
      ensures TopAt(q, key) == if key == ev.key then Max(TopAt(p, key), ev.version) else TopAt(p, key)
    {
      VersionsOneMore(p.offered, ev, key);
      VersionsOneMore(p.sent, ev, key);
      OneMore(SeedAt(p, key), Versions(p.offered, key), ev.version);
    }
  }

  lemma {:induction false} OfferKeepsSound(e: Entry, p: Past, ev: Ev, ready: bool, heads: Heads)
    requires SoundEntry(e, p, None, heads) && SoundPast(p, heads)
    requires ev.version < Head(heads, ev.key) && !Internal(ev.key)
    ensures SoundPast(PastAfterOffer(p, e, ev, ready), heads)
    ensures SoundEntry(AfterOffer(e, ev, ready), PastAfterOffer(p, e, ev, ready),
                       if OutcomeOf(e, ev, ready).Sent? then Some(ev) else None, heads)
  {
    hide PassedTheCursor, Hears, Internal, AllCommitted, AllWanted, TopAt;
    var e', p' := AfterOffer(e, ev, ready), PastAfterOffer(p, e, ev, ready);
    if Fit(e) && Hears(e.query, ev.key) {
      assert Settled(e, None, ev.key) == TopAt(p, ev.key);
      OneMoreCommitted(p.offered, ev, heads, p.query);
      OneMoreCommitted(p.sent, ev, heads, p.query);
      if OutcomeOf(e, ev, ready).Sent? {
        OfferedOneMore(p, p', ev);
        assert e'.kind.progress == e.kind.progress;
        forall key | Wants(e'.query, key) ensures Settled(e', Some(ev), key) == TopAt(p', key) {
          assert Settled(e, None, key) == TopAt(p, key);
        }
      } else if OutcomeOf(e, ev, ready).Passed? {
        OfferedOneMore(p, p', ev);
      }
    }
  }

  lemma {:induction false} OneMoreCommitted(evs: seq<Ev>, ev: Ev, heads: Heads, q: Query)
    requires AllCommitted(evs, heads) && AllWanted(evs, q) && ev.version < Head(heads, ev.key) && Wants(q, ev.key)
    ensures AllCommitted(evs + [ev], heads) && AllWanted(evs + [ev], q)
  {
  }

  lemma {:induction false} AdvanceSettles(e: Entry, p: Past, inFlight: Option<Ev>, heads: Heads)
    requires SoundEntry(e, p, inFlight, heads)
    ensures SoundEntry(if inFlight.Some? then Advanced(e, inFlight.value) else e, p, None, heads)
  {
    hide PassedTheCursor, Internal, TopAt;
    if inFlight.Some? && Fit(e) {
      var ev := inFlight.value;
      var e' := Advanced(e, ev);
      forall key | Wants(e.query, key) ensures Settled(e', None, key) == TopAt(p, key) {
        assert Settled(e, inFlight, key) == TopAt(p, key);
        if Exact(e.query.pattern) {
          Glob.ExactPatternMatchesOnlyItself(e.query.pattern, key.stream);
          Glob.ExactPatternMatchesOnlyItself(e.query.pattern, ev.key.stream);
        }
      }
    }
  }

  lemma {:induction false} CallKeepsSound(e: Entry, p: Past, ev: Ev, panics: bool, heads: Heads, inFlight: Option<Ev>)
    requires SoundEntry(e, p, inFlight, heads) && SoundPast(p, heads)
    requires ev.version == Head(heads, ev.key) && !Internal(ev.key)
    requires e.kind.Synchronous?
    ensures var more := heads[ev.key := ev.version + 1];
      SoundPast(PastAfterCall(p, e, ev), more)
        && SoundEntry(AfterCall(e, ev, panics), PastAfterCall(p, e, ev), inFlight, more)
  {
    hide PassedTheCursor, TopAt, Internal, Hears;
    var more := heads[ev.key := ev.version + 1];
    GrowthKeepsPast(p, heads, more);
    if Called(e, ev) {
      assert TopAt(p, ev.key) < ev.version;
      OfferedOneMore(p, PastAfterCall(p, e, ev), ev);
      OneMoreCommitted(p.offered, ev, more, p.query);
      OneMoreCommitted(p.sent, ev, more, p.query);
    }
  }

  ghost predicate Grows(heads: Heads, more: Heads)
  {
    forall key :: Head(heads, key) <= Head(more, key)
  }

  lemma {:induction false} GrowthKeepsPast(p: Past, heads: Heads, more: Heads)
    requires SoundPast(p, heads) && Grows(heads, more)
    ensures SoundPast(p, more)
  {
    hide PassedTheCursor;
  }

  lemma {:induction false} GrowthKeepsEntry(e: Entry, p: Past, inFlight: Option<Ev>, heads: Heads, more: Heads)
    requires SoundEntry(e, p, inFlight, heads) && Grows(heads, more)
    ensures SoundEntry(e, p, inFlight, more)
  {
    hide TopAt, Hears;
  }

  // ----- One lemma per step -----

  lemma {:induction false} CommitKeepsInv(s: System, key: Key, dispatch: bool, panics: set<nat>)
    requires Inv(s)
    ensures Inv(DoCommit(s, key, dispatch, panics))
  {
    hide SoundPast, SoundEntry, AfterCall, PastAfterCall, Internal;
    var t := DoCommit(s, key, dispatch, panics);
    var ev := Ev(key, Head(s.heads, key));
    assert Grows(s.heads, t.heads);
    forall id | id in s.past ensures SoundPast(t.past[id], t.heads) {
      if t.past != s.past && id in s.entries {
        CommitKeepsSubscriber(s, id, ev, id in panics);
      } else {
        GrowthKeepsPast(s.past[id], s.heads, t.heads);
      }
    }
    forall id | id in s.entries ensures SoundEntry(t.entries[id], t.past[id], InFlight(t, id), t.heads) {
      if dispatch && !Internal(key) {
        CommitKeepsSubscriber(s, id, ev, id in panics);
      } else {
        GrowthKeepsEntry(s.entries[id], s.past[id], InFlight(s, id), s.heads, t.heads);
      }
    }
  }

  lemma {:induction false} CommitKeepsSubscriber(s: System, id: nat, ev: Ev, panics: bool)
    requires Inv(s) && id in s.entries && ev.version == Head(s.heads, ev.key) && !Internal(ev.key)
    ensures var e, p, more := s.entries[id], s.past[id], s.heads[ev.key := ev.version + 1];
      && SoundPast(PastAfterCall(p, e, ev), more)
      && SoundEntry(AfterCall(e, ev, panics), PastAfterCall(p, e, ev), InFlight(s, id), more)
  {
    hide SoundPast, SoundEntry, Internal, Hears;
    var e, p, more := s.entries[id], s.past[id], s.heads[ev.key := ev.version + 1];
    if e.kind.Synchronous? {
      CallKeepsSound(e, p, ev, panics, s.heads, InFlight(s, id));
    } else {
      assert Grows(s.heads, more);
      GrowthKeepsPast(p, s.heads, more);
      GrowthKeepsEntry(e, p, InFlight(s, id), s.heads, more);
    }
  }

  lemma {:induction false} TakeKeepsInv(s: System, ready: set<nat>)
    requires Inv(s)
    ensures Inv(DoTake(s, ready))
  {
    hide SoundPast, SoundEntry, AfterOffer, PastAfterOffer, Internal, OutcomeOf, SoundEvents, InFlight;
    var t := DoTake(s, ready);
    if s.flight.None? && s.channel != [] {
      TakeKeepsEvents(s, ready);
      var ev := s.channel[0];
      if Internal(ev.key) {
        assert forall id :: InFlight(t, id) == InFlight(s, id) by { SameFlight(s, t); }
      } else {
        forall id | id in s.entries
          ensures SoundPast(t.past[id], t.heads) && SoundEntry(t.entries[id], t.past[id], InFlight(t, id), t.heads)
        {
          TakeKeepsSubscriber(s, ready, id);
        }
      }
    }
  }

  lemma {:induction false} SameFlight(s: System, t: System)
    requires t.flight == s.flight
    ensures forall id :: InFlight(t, id) == InFlight(s, id)
  {
  }

  lemma {:induction false} TakeKeepsEvents(s: System, ready: set<nat>)
    requires Inv(s) && s.flight.None? && s.channel != []
    ensures SoundEvents(DoTake(s, ready))
  {
    hide SoundPast, SoundEntry, AfterOffer, PastAfterOffer, Internal, OutcomeOf;
    assert forall x | x in s.channel[1..] :: x in s.channel;
  }

  lemma {:induction false} TakeKeepsSubscriber(s: System, ready: set<nat>, id: nat)
    requires Inv(s) && s.flight.None? && s.channel != [] && !Internal(s.channel[0].key) && id in s.entries
    ensures var t := DoTake(s, ready);
            SoundPast(t.past[id], t.heads) && SoundEntry(t.entries[id], t.past[id], InFlight(t, id), t.heads)
  {
    hide SoundPast, SoundEntry, AfterOffer, PastAfterOffer, Internal, OutcomeOf;
    var t, ev := DoTake(s, ready), s.channel[0];
    assert ev in s.channel && InFlight(s, id) == None;
    OfferKeepsSound(s.entries[id], s.past[id], ev, id in ready, s.heads);
    assert InFlight(t, id) == if OutcomeOf(s.entries[id], ev, id in ready).Sent? then Some(ev) else None;
  }

  lemma {:induction false} AdvanceKeepsInv(s: System)
    requires Inv(s)
    ensures Inv(DoAdvance(s))
  {
    hide SoundPast, SoundEntry, Advanced;
    if s.flight.Some? {
      forall id | id in s.entries
        ensures SoundEntry(DoAdvance(s).entries[id], s.past[id], None, s.heads)
      {
        AdvanceSettles(s.entries[id], s.past[id], InFlight(s, id), s.heads);
      }
    }
  }

  lemma {:induction false} RegisterKeepsInv(s: System, who: nat)
    requires Inv(s)
    ensures Inv(DoRegister(s, who))
  {
    hide Hears, Internal;
    var t := DoRegister(s, who);
    if who in s.joining {
      var id := s.nextId;
      assert SoundPast(t.past[id], t.heads);
      assert SoundEntry(t.entries[id], t.past[id], None, t.heads);
    }
  }

  lemma {:induction false} ConsumeKeepsInv(s: System, id: nat)
    requires Inv(s)
    ensures Inv(DoConsume(s, id))
  {
    hide Hears, Internal, CursorAt, AllCommitted, AllWanted, TopAt, PassedTheCursor;
    if id in s.entries && s.entries[id].kind.PostCommit? && s.entries[id].kind.queue != [] {
      var e, p, inFlight := s.entries[id], s.past[id], InFlight(s, id);
      var t := DoConsume(s, id);
      assert p.taken + e.kind.queue == (p.taken + [e.kind.queue[0]]) + e.kind.queue[1..];
      ConsumedIsSound(e, p, t.entries[id], t.past[id], inFlight, s.heads);
    }
  }

  lemma {:induction false} ConsumedIsSound(e: Entry, p: Past, e': Entry, p': Past, inFlight: Option<Ev>, heads: Heads)
    requires SoundEntry(e, p, inFlight, heads) && SoundPast(p, heads) && e.kind.PostCommit? && e.kind.queue != []
    requires e' == e.(kind := e.kind.(queue := e.kind.queue[1..])) && p' == p.(taken := p.taken + [e.kind.queue[0]])
    ensures SoundEntry(e', p', inFlight, heads) && SoundPast(p', heads)
  {
    hide Hears, Internal, AllCommitted, AllWanted;
    assert p.taken + e.kind.queue == p'.taken + e'.kind.queue;
    assert PassedTheCursor(p') by { assert forall key :: SeedAt(p', key) == SeedAt(p, key); }
  }

  lemma {:induction false} DeathKeepsInv(s: System, id: nat)
    requires Inv(s)
    ensures Inv(DoHandlerDies(s, id))
  {
    hide Hears, Internal, CursorAt, AllCommitted, AllWanted, TopAt, PassedTheCursor;
    if id in s.entries && s.entries[id].kind.PostCommit? {
      var u := DoHandlerDies(s, id);
      assert SoundEntry(u.entries[id], s.past[id], InFlight(s, id), s.heads);
    }
  }

  lemma {:induction false} StepKeepsInv(s: System, step: Step)
    requires Inv(s)
    ensures Inv(Do(s, step))
  {
    hide SoundPast, SoundEntry, DoCommit, DoTake, DoAdvance, DoRegister, DoConsume, DoHandlerDies, RowsOf, GroupsOf,
         SeedOf;
    hide FetchAfter, Covers;
    match step
    case Commit(key, dispatch, panics) => CommitKeepsInv(s, key, dispatch, panics);
    case Take(ready) => TakeKeepsInv(s, ready);
    case Advance => AdvanceKeepsInv(s);
    case Register(who) => RegisterKeepsInv(s, who);
    case Consume(id) => ConsumeKeepsInv(s, id);
    case HandlerDies(id) => DeathKeepsInv(s, id);
    case ScanPush =>
      if s.scan.fetched != [] {
        assert forall x | x in s.scan.fetched[1..] :: x in s.scan.fetched;
        assert s.scan.fetched[0] in s.scan.fetched;
      }
    case Fetch(_, _) =>
    case _ =>
  }

  lemma {:induction false} RunKeepsInv(s: System, steps: seq<Step>)
    requires Inv(s)
    ensures Inv(Run(s, steps))
    decreases |steps|
  {
    hide Inv;
    if steps != [] {
      StepKeepsInv(s, steps[0]);
      RunKeepsInv(Do(s, steps[0]), steps[1..]);
    }
  }

  // ----- Safety over every run -----

  /**
   Per stream strictly increasing and above the seed; all committed, matching and on the right branch; taken in order.
   */
  ghost predicate DeliveredSafely(p: Past, heads: Heads)
  {
    && (forall ev | ev in p.sent ::
          && Asks(p.query, ev.key) && !("_fossic/" <= ev.key.stream)
          && ev.key in heads && ev.version < heads[ev.key])
    && (forall key :: IncreasingAbove(SeedAt(p, key), Versions(p.sent, key)))
    && p.taken <= p.sent
  }

  /** In every run, every subscriber that ever registered was served safely, degraded or gone by now or not. */
  lemma {:induction false} EveryRunDeliversSafely(steps: seq<Step>)
    ensures var s := Run(EMPTY, steps); forall id | id in s.past :: DeliveredSafely(s.past[id], s.heads)
  {
    hide Run, SeedAt, Asks, Hears;
    var s := Run(EMPTY, steps);
    RunKeepsInv(EMPTY, steps);
    forall id | id in s.past ensures DeliveredSafely(s.past[id], s.heads) {
      var p := s.past[id];
      assert SoundPast(p, s.heads);
      forall ev | ev in p.sent ensures Asks(p.query, ev.key) { HearsExactly(p.query, ev.key); }
      forall key ensures IncreasingAbove(SeedAt(p, key), Versions(p.sent, key)) {
        AcceptedIncrease(SeedAt(p, key), Versions(p.offered, key));
      }
    }
  }

  /**
   A commit made in this process calls the synchronous subscribers that asked for it, and nobody else is sent it then.
   */
  lemma {:induction false} CommitCalls(s: System, key: Key, panics: set<nat>, id: nat)
    requires id in s.entries && id in s.past && !("_fossic/" <= key.stream)
    ensures var ev := Ev(key, if key in s.heads then s.heads[key] else 0);
            DoCommit(s, key, true, panics).past[id].sent
            == if Summoned(s.entries[id], ev) then s.past[id].sent + [ev] else s.past[id].sent
  {
    hide Hears, Asks;
    CalledExactly(s.entries[id], Ev(key, Head(s.heads, key)), id in panics);
  }

  /** The first pass sends the event to the queue subscribers that await it and have room, and to nobody else. */
  lemma {:induction false} TakeSends(s: System, ready: set<nat>, id: nat)
    requires s.flight.None? && s.channel != [] && !("_fossic/" <= s.channel[0].key.stream)
    requires id in s.entries && id in s.past
    ensures var e, ev := s.entries[id], s.channel[0];
            DoTake(s, ready).past[id].sent
            == if Awaits(e, ev) && HasRoom(e, id in ready) then s.past[id].sent + [ev] else s.past[id].sent
  {
    hide Hears, Asks;
    HearsExactly(s.entries[id].query, s.channel[0].key);
    OfferedExactly(s.entries[id], s.channel[0], id in ready);
  }

  /** Known, and degraded, without a handler, or unsubscribed. */
  predicate Finished(s: System, id: nat)
  {
    && id in s.past && id < s.nextId
    && (id in s.entries ==> s.entries[id].degraded || (s.entries[id].kind.PostCommit? && !s.entries[id].kind.alive))
  }

  lemma {:induction false} FinishedStaysFinished(s: System, step: Step, id: nat)
    requires Finished(s, id)
    ensures Finished(Do(s, step), id) && Do(s, step).past[id].sent == s.past[id].sent
  {
    hide Hears, RowsOf, GroupsOf, SeedOf, FetchAfter, Covers;
  }

  /** Nothing is delivered after degradation, after the handler's death, or after unsubscribing. */
  lemma {:induction false} NothingAfterTheEnd(s: System, steps: seq<Step>, id: nat)
    requires Finished(s, id)
    ensures Finished(Run(s, steps), id) && Run(s, steps).past[id].sent == s.past[id].sent
    decreases |steps|
  {
    hide Finished, Do;
    if steps != [] {
      FinishedStaysFinished(s, steps[0], id);
      NothingAfterTheEnd(Do(s, steps[0]), steps[1..], id);
    }
  }
}
