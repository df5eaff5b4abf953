/**
 The subscription registry (src/subscriptions.rs) and the grouping step of the WAL scan (src/wal_watch.rs).

 The functions on one entry say what each pass does to it; the methods of the class run the loops over
 all entries.  `Delivery` composes the same functions into the whole protocol.
 */
module Subscriptions {
  import opened Types
  import Glob

  /** An event, as far as its delivery is concerned. */
  datatype Ev = Ev(key: Key, version: nat)

  datatype Query = Query(pattern: string, branch: string, includeSystem: bool)

  /** `wal` is the cursor of an exact pattern, `streams` the cursor map of a glob. */
  datatype Progress = Progress(wal: int, streams: map<Key, int>)

  /** `alive` says that the handler thread still holds the receiving end of the queue. */
  datatype Kind =
    | Synchronous
    | PostCommit(capacity: nat, queue: seq<Ev>, alive: bool, progress: Progress)

  datatype Entry = Entry(query: Query, degraded: bool, kind: Kind)

  type Entries = map<nat, Entry>

  predicate Exact(pattern: string)
  {
    '*' !in pattern
  }

  predicate SystemStream(stream: string)
  {
    stream != "" && stream[0] == '_'
  }

  predicate Hears(q: Query, key: Key)
  {
    q.branch == key.branch && (SystemStream(key.stream) ==> q.includeSystem) && Glob.Matches(q.pattern, key.stream)
  }

  function CursorAt(q: Query, p: Progress, key: Key): int
  {
    if Exact(q.pattern) then p.wal else if key in p.streams then p.streams[key] else -1
  }

  // ----- One entry -----

  /** What offering an event does: nothing, a delivery, a permanent degradation, or a silent skip. */
  datatype Outcome = Passed | Sent | Overflowed | Disconnected

  /** `ready` says that the handler thread is waiting, which matters only for a queue of capacity zero. */
  function OutcomeOf(e: Entry, ev: Ev, ready: bool): Outcome
  {
    if e.kind.Synchronous? || !Hears(e.query, ev.key) || e.degraded then Passed
    else if ev.version <= CursorAt(e.query, e.kind.progress, ev.key) then Passed
    else if !e.kind.alive then Disconnected
    else if |e.kind.queue| < e.kind.capacity || (e.kind.capacity == 0 && ready) then Sent
    else Overflowed
  }

  /** The entry after the first pass; a zero-capacity queue hands the event over without holding it. */
  function AfterOffer(e: Entry, ev: Ev, ready: bool): Entry
  {
    match OutcomeOf(e, ev, ready)
    case Sent => if e.kind.capacity == 0 then e else e.(kind := e.kind.(queue := e.kind.queue + [ev]))
    case Overflowed => e.(degraded := true)
    case _ => e
  }

  /** The entry after the second pass moved its cursor past `ev`. */
  function Advanced(e: Entry, ev: Ev): Entry
  {
    if e.kind.Synchronous? || ev.version <= CursorAt(e.query, e.kind.progress, ev.key) then e
    else
      var p := e.kind.progress;
      e.(kind := e.kind.(progress := if Exact(e.query.pattern)
                                     then p.(wal := ev.version)
                                     else p.(streams := p.streams[ev.key := ev.version])))
  }

  /** A synchronous callback runs for this entry. */
  predicate Called(e: Entry, ev: Ev)
  {
    e.kind.Synchronous? && Hears(e.query, ev.key) && !e.degraded
  }

  function AfterCall(e: Entry, ev: Ev, panics: bool): Entry
  {
    if Called(e, ev) && panics then e.(degraded := true) else e
  }

  /** The four cases that the first pass tells apart for an entry that hears the event ahead of its cursor. */
  lemma {:induction false} OfferCases(e: Entry, ev: Ev, ready: bool)
    ensures var news := e.kind.PostCommit? && Hears(e.query, ev.key) && !e.degraded && e.kind.alive
                        && ev.version > CursorAt(e.query, e.kind.progress, ev.key);
            var outcome, after := OutcomeOf(e, ev, ready), AfterOffer(e, ev, ready);
            if !news then !outcome.Sent? && !outcome.Overflowed? && after == e
            else if |e.kind.queue| < e.kind.capacity then
              outcome.Sent? && after == e.(kind := e.kind.(queue := e.kind.queue + [ev]))
            else if e.kind.capacity == 0 && ready then outcome.Sent? && after == e
            else outcome.Overflowed? && after == e.(degraded := true)
  {
    hide Hears, CursorAt;
  }

  // ----- What a subscriber is promised, without the matcher -----

  /**
   The event is on the branch of the subscription; the parts of its pattern stand, one after another, for the
   segments of the stream; and a stream that starts with an underscore was asked for.
   */
  ghost predicate Asks(q: Query, key: Key)
  {
    && key.branch == q.branch
    && (exists blocks :: Glob.Blocks(Glob.Split(q.pattern), Glob.Split(key.stream), blocks))
    && (|key.stream| > 0 && key.stream[0] == '_' ==> q.includeSystem)
  }

  lemma {:induction false} HearsExactly(q: Query, key: Key)
    ensures Hears(q, key) <==> Asks(q, key)
  {
    Glob.MatchesExactlyByBlocks(Glob.Split(q.pattern), Glob.Split(key.stream));
  }

  /** The event is news to a queue subscriber that can still receive. */
  ghost predicate Awaits(e: Entry, ev: Ev)
  {
    && e.kind.PostCommit? && !e.degraded && e.kind.alive && Asks(e.query, ev.key)
    && ('*' !in e.query.pattern ==> ev.version > e.kind.progress.wal)
    && ('*' in e.query.pattern && ev.key in e.kind.progress.streams ==> ev.version > e.kind.progress.streams[ev.key])
  }

  predicate HasRoom(e: Entry, ready: bool)
  {
    e.kind.PostCommit? && (|e.kind.queue| < e.kind.capacity || (e.kind.capacity == 0 && ready))
  }

  /** The first pass queues or hands over the event, degrades for lack of room, or leaves the entry alone. */
  ghost predicate IsOffered(e: Entry, ev: Ev, ready: bool, after: Entry)
  {
    if !Awaits(e, ev) then after == e
    else if !HasRoom(e, ready) then after == e.(degraded := true)
    else if e.kind.capacity == 0 then after == e
    else after == e.(kind := e.kind.(queue := e.kind.queue + [ev]))
  }

  /** After both passes the cursor of a subscriber that was served stands at the event. */
  ghost predicate IsDispatched(e: Entry, ev: Ev, ready: bool, after: Entry)
  {
    if !Awaits(e, ev) then after == e
    else if !HasRoom(e, ready) then after == e.(degraded := true)
    else
      var p := e.kind.progress;
      && after.query == e.query && !after.degraded && after.kind.PostCommit?
      && after.kind.queue == (if e.kind.capacity == 0 then e.kind.queue else e.kind.queue + [ev])
      && after.kind.capacity == e.kind.capacity && after.kind.alive
      && after.kind.progress == if '*' in e.query.pattern then p.(streams := p.streams[ev.key := ev.version])
                                else p.(wal := ev.version)
  }

  lemma {:induction false} OfferedExactly(e: Entry, ev: Ev, ready: bool)
    ensures IsOffered(e, ev, ready, AfterOffer(e, ev, ready))
    ensures OutcomeOf(e, ev, ready).Sent? <==> Awaits(e, ev) && HasRoom(e, ready)
    ensures OutcomeOf(e, ev, ready).Overflowed? <==> Awaits(e, ev) && !HasRoom(e, ready)
  {
    hide Hears, Asks;
    HearsExactly(e.query, ev.key);
  }

  lemma {:induction false} DispatchedExactly(e: Entry, ev: Ev, ready: bool)
    ensures var offered := AfterOffer(e, ev, ready);
            IsDispatched(e, ev, ready, if OutcomeOf(e, ev, ready).Sent? then Advanced(offered, ev) else offered)
  {
    hide Hears, Asks;
    HearsExactly(e.query, ev.key);
  }

  /** A live synchronous subscriber that asked for the event is called. */
  ghost predicate Summoned(e: Entry, ev: Ev)
  {
    e.kind.Synchronous? && !e.degraded && Asks(e.query, ev.key)
  }

  lemma {:induction false} CalledExactly(e: Entry, ev: Ev, panics: bool)
    ensures Called(e, ev) <==> Summoned(e, ev)
    ensures AfterCall(e, ev, panics) == if Summoned(e, ev) && panics then e.(degraded := true) else e
  {
    hide Hears, Asks;
    HearsExactly(e.query, ev.key);
  }

  // ----- All entries -----

  function OfferAll(entries: Entries, ev: Ev, ready: set<nat>): Entries
  {
    map id | id in entries :: AfterOffer(entries[id], ev, id in ready)
  }

  function SentTo(entries: Entries, ev: Ev, ready: set<nat>): set<nat>
  {
    set id | id in entries && OutcomeOf(entries[id], ev, id in ready).Sent?
  }

  function AdvanceAll(entries: Entries, ev: Ev, delivered: set<nat>): Entries
  {
    map id | id in entries :: if id in delivered then Advanced(entries[id], ev) else entries[id]
  }

  function CallAll(entries: Entries, ev: Ev, panics: set<nat>): Entries
  {
    map id | id in entries :: AfterCall(entries[id], ev, id in panics)
  }

  // ----- The WAL scan's view -----

  datatype Row = Row(id: nat, pattern: string, branch: string, cursor: int)

  predicate Tracked(e: Entry)
  {
    !e.degraded && e.kind.PostCommit?
  }

  ghost predicate IsLeast(streams: map<Key, int>, m: int)
  {
    && (exists key :: key in streams && streams[key] == m)
    && forall key | key in streams :: m <= streams[key]
  }

  /** The scan start of one subscriber: its cursor, or for a glob the least of its stream cursors, -1 without any. */
  ghost predicate ScanStart(e: Entry, cursor: int)
    requires e.kind.PostCommit?
  {
    var p := e.kind.progress;
    if Exact(e.query.pattern) then cursor == p.wal
    else if p.streams == map[] then cursor == -1
    else IsLeast(p.streams, cursor)
  }

  /** The pattern, the branch, and the cursor or, for a glob, the least of its stream cursors, -1 without any. */
  ghost predicate IsScanRow(e: Entry, row: Row)
    requires e.kind.PostCommit?
  {
    && row.pattern == e.query.pattern && row.branch == e.query.branch
    && var streams := e.kind.progress.streams;
       if '*' !in e.query.pattern then row.cursor == e.kind.progress.wal
       else if streams == map[] then row.cursor == -1
       else (exists key :: key in streams && streams[key] == row.cursor) && forall key | key in streams ::
         row.cursor <= streams[key]
  }

  ghost predicate RowFor(entries: Entries, row: Row)
  {
    && row.id in entries && Tracked(entries[row.id])
    && row.pattern == entries[row.id].query.pattern && row.branch == entries[row.id].query.branch
    && ScanStart(entries[row.id], row.cursor)
  }

  /** `rows` holds one row for each tracked subscriber. */
  ghost predicate RowsOf(entries: Entries, rows: seq<Row>)
  {
    && (forall i | 0 <= i < |rows| :: RowFor(entries, rows[i]))
    && (forall id | id in entries && Tracked(entries[id]) :: exists i | 0 <= i < |rows| :: rows[i].id == id)
    && forall i, j | 0 <= i < j < |rows| :: rows[i].id != rows[j].id
  }

  /** Row `row` makes the scan read `key`. */
  predicate Reads(row: Row, allStreams: seq<string>, key: Key)
  {
    && row.branch == key.branch
    && if Exact(row.pattern) then key.stream == row.pattern
       else key.stream in allStreams && Glob.Matches(row.pattern, key.stream)
  }

  /** `groups` maps every stream that some row reads to the least cursor of the rows that read it. */
  ghost predicate GroupsOf(rows: seq<Row>, allStreams: seq<string>, groups: map<Key, int>)
  {
    && (forall i, key | 0 <= i < |rows| && Reads(rows[i], allStreams, key) ::
       key in groups && groups[key] <= rows[i].cursor)
    && (forall key | key in groups :: exists i | 0 <= i < |rows| ::
       Reads(rows[i], allStreams, key) && groups[key] == rows[i].cursor)
  }

  /** `if cursor < *entry`: the insertion both branches of the scan perform. */
  function Lower(groups: map<Key, int>, key: Key, cursor: int): map<Key, int>
  {
    if key in groups && groups[key] <= cursor then groups else groups[key := cursor]
  }

  /** Row number `row` reads `key`. */
  datatype Hit = Hit(row: nat, key: Key)

  ghost predicate LeastOver(rows: seq<Row>, hits: iset<Hit>, groups: map<Key, int>)
  {
    && (forall h | h in hits :: h.row < |rows| && h.key in groups && groups[h.key] <= rows[h.row].cursor)
    && forall key | key in groups :: exists i: nat :: i < |rows| && Hit(i, key) in hits && groups[key] == rows[i].cursor
  }

  ghost function HitsBefore(rows: seq<Row>, allStreams: seq<string>, n: nat): iset<Hit>
  {
    iset h: Hit | h.row < n && h.row < |rows| && Reads(rows[h.row], allStreams, h.key)
  }

  lemma {:induction false} LowerKeepsLeast(rows: seq<Row>, hits: iset<Hit>, groups: map<Key, int>, n: nat, key: Key)
    requires LeastOver(rows, hits, groups) && n < |rows|
    ensures LeastOver(rows, hits + iset{Hit(n, key)}, Lower(groups, key, rows[n].cursor))
  {
    var lower, more := Lower(groups, key, rows[n].cursor), hits + iset{Hit(n, key)};
    forall k | k in lower
      ensures exists i: nat :: i < |rows| && Hit(i, k) in more && lower[k] == rows[i].cursor
    {
      if k == key && lower != groups {
        assert Hit(n, key) in more;
      } else {
        var i: nat :| i < |rows| && Hit(i, k) in hits && groups[k] == rows[i].cursor;
        assert Hit(i, k) in more;
      }
    }
  }

  lemma {:induction false} LeastOverAllIsGroups(rows: seq<Row>, allStreams: seq<string>, groups: map<Key, int>)
    requires LeastOver(rows, HitsBefore(rows, allStreams, |rows|), groups)
    ensures GroupsOf(rows, allStreams, groups)
  {
    hide Reads;
    forall i, key | 0 <= i < |rows| && Reads(rows[i], allStreams, key)
      ensures key in groups && groups[key] <= rows[i].cursor
    {
      assert Hit(i, key) in HitsBefore(rows, allStreams, |rows|);
    }
    forall key | key in groups
      ensures exists i | 0 <= i < |rows| :: Reads(rows[i], allStreams, key) && groups[key] == rows[i].cursor
    {
      var i: nat :| i < |rows| && Hit(i, key) in HitsBefore(rows, allStreams, |rows|) && groups[key] == rows[i].cursor;
      assert Reads(rows[i], allStreams, key);
    }
  }

  /** The inner loop: a glob row lowers the start of every stream id it matches. */
  method GroupGlobRow(rows: seq<Row>, allStreams: seq<string>, n: nat, groups: map<Key, int>)
    returns (lower: map<Key, int>)
    requires n < |rows| && !Exact(rows[n].pattern) && LeastOver(rows, HitsBefore(rows, allStreams, n), groups)
    ensures LeastOver(rows, HitsBefore(rows, allStreams, n + 1), lower)
  {
    hide Glob.Matches, LeastOver, Exact;
    lower := groups;
    ghost var hits := HitsBefore(rows, allStreams, n);
    var row := rows[n];
    var m := 0;
    while m < |allStreams|
      invariant m <= |allStreams|
      invariant LeastOver(rows, hits, lower)
      invariant forall h :: h in hits <==>
        h in HitsBefore(rows, allStreams, n) || (h.row == n && Reads(row, allStreams[..m], h.key))
    {
      assert allStreams[..m + 1] == allStreams[..m] + [allStreams[m]];
      if Glob.Matches(row.pattern, allStreams[m]) {
        var key := Key(allStreams[m], row.branch);
        LowerKeepsLeast(rows, hits, lower, n, key);
        lower := Lower(lower, key, row.cursor);
        hits := hits + iset{Hit(n, key)};
      }
      m := m + 1;
    }
    assert allStreams[..|allStreams|] == allStreams;
    assert hits == HitsBefore(rows, allStreams, n + 1);
  }

  lemma {:induction false} NoHitsYet(rows: seq<Row>, allStreams: seq<string>)
    ensures LeastOver(rows, HitsBefore(rows, allStreams, 0), map[])
  {
  }

  lemma {:induction false} ExactRowHits(rows: seq<Row>, allStreams: seq<string>, n: nat)
    requires n < |rows| && Exact(rows[n].pattern)
    ensures HitsBefore(rows, allStreams, n + 1)
         == HitsBefore(rows, allStreams, n) + iset{Hit(n, Key(rows[n].pattern, rows[n].branch))}
  {
    hide Exact, Glob.Matches;
  }

  /** A pattern without a star reads its own stream, another one every known stream that its parts can stand for. */
  ghost predicate IsRead(row: Row, allStreams: seq<string>, key: Key)
  {
    && row.branch == key.branch
    && if '*' !in row.pattern then key.stream == row.pattern
       else key.stream in allStreams
            && exists blocks :: Glob.Blocks(Glob.Split(row.pattern), Glob.Split(key.stream), blocks)
  }

  lemma {:induction false} ReadsExactly(row: Row, allStreams: seq<string>, key: Key)
    ensures Reads(row, allStreams, key) <==> IsRead(row, allStreams, key)
  {
    Glob.MatchesExactlyByBlocks(Glob.Split(row.pattern), Glob.Split(key.stream));
  }

  method GroupCursors(rows: seq<Row>, allStreams: seq<string>) returns (groups: map<Key, int>)
    ensures GroupsOf(rows, allStreams, groups)
    ensures forall i, key | 0 <= i < |rows| && IsRead(rows[i], allStreams, key) ::
      key in groups && groups[key] <= rows[i].cursor
    ensures forall key | key in groups ::
      exists i | 0 <= i < |rows| :: IsRead(rows[i], allStreams, key) && groups[key] == rows[i].cursor
  {
    forall row: Row, key: Key { ReadsExactly(row, allStreams, key); }
    hide IsRead;
    hide Glob.Matches, HitsBefore, LeastOver;
    groups := map[];
    NoHitsYet(rows, allStreams);
    var n := 0;
    while n < |rows|
      invariant n <= |rows| && LeastOver(rows, HitsBefore(rows, allStreams, n), groups)
    {
      var row := rows[n];
      if !Exact(row.pattern) {
        groups := GroupGlobRow(rows, allStreams, n, groups);
      } else {
        var key := Key(row.pattern, row.branch);
        LowerKeepsLeast(rows, HitsBefore(rows, allStreams, n), groups, n, key);
        groups := Lower(groups, key, row.cursor);
        ExactRowHits(rows, allStreams, n);
      }
      n := n + 1;
    }
    LeastOverAllIsGroups(rows, allStreams, groups);
  }

  /** `SELECT ... WHERE version > after ORDER BY version` on a stream holding versions `0 .. count - 1`. */
  function FetchAfter(key: Key, count: nat, after: int): (evs: seq<Ev>)
    ensures forall i | 0 <= i < |evs| :: evs[i].key == key && evs[i].version == evs[0].version + i
    ensures forall ev | ev in evs :: ev.key == key && after < ev.version < count
    ensures |evs| == if after < 0 then count else if after < count then count - after - 1 else 0
  {
    var first: nat := if after < 0 then 0 else after + 1;
    if first >= count then [] else seq(count - first, i requires 0 <= i < count - first => Ev(key, first + i))
  }

  // ----- The registry -----

  function NewEntry(query: Query, kind: Kind): Entry
  {
    Entry(query, false, kind)
  }

  class SubscriptionRegistry {
    var entries: Entries
    var nextId: nat

    ghost predicate Valid()
      reads this
    {
      forall id | id in entries :: id < nextId
    }

    constructor ()
      ensures Valid() && entries == map[] && nextId == 1
    {
      entries := map[];
      nextId := 1;
    }

    method Subscribe(query: Query, kind: Kind) returns (id: nat)
      requires Valid()
      modifies this
      ensures Valid() && id == old(nextId) && nextId == id + 1
      ensures id !in old(entries) && entries == old(entries)[id := Entry(query, false, kind)]
    {
      id := nextId;
      nextId := nextId + 1;
      entries := entries[id := NewEntry(query, kind)];
    }

    method Unsubscribe(id: nat)
      requires Valid()
      modifies this
      ensures Valid() && nextId == old(nextId) && entries == old(entries) - {id}
    {
      entries := entries - {id};
    }

    /** `panics` are the subscribers whose callback panics on this event. */
    method DispatchSync(ev: Ev, panics: set<nat>) returns (newlyDegraded: seq<nat>)
      requires Valid()
      modifies `entries
      ensures Valid() && entries == CallAll(old(entries), ev, panics)
      ensures forall id :: id in newlyDegraded <==> id in old(entries) && id in panics && Summoned(old(entries)[id], ev)
      ensures entries.Keys == old(entries).Keys
      ensures forall id | id in entries ::
        entries[id] == if id in newlyDegraded then old(entries)[id].(degraded := true) else old(entries)[id]
    {
      forall id | id in entries { CalledExactly(entries[id], ev, id in panics); }
      hide Asks, Hears;
      newlyDegraded := [];
      var rest := entries.Keys;
      while rest != {}
        invariant rest <= old(entries).Keys && entries.Keys == old(entries).Keys
        invariant forall id | id in entries ::
          entries[id] == if id in rest then old(entries)[id] else AfterCall(old(entries)[id], ev, id in panics)
        invariant forall id :: id in newlyDegraded <==>
          id in old(entries) && id !in rest && id in panics && Called(old(entries)[id], ev)
      {
        var id :| id in rest;
        rest := rest - {id};
        var e := entries[id];
        if Hears(e.query, ev.key) && !e.degraded && e.kind.Synchronous? && id in panics {
          entries := entries[id := e.(degraded := true)];
          newlyDegraded := newlyDegraded + [id];
        }
      }
    }

    /** The first pass, under the read lock. */
    method SendToAll(ev: Ev, ready: set<nat>) returns (delivered: seq<nat>, newlyDegraded: seq<nat>)
      requires Valid()
      modifies `entries
      ensures Valid() && entries == OfferAll(old(entries), ev, ready)
      ensures forall id :: id in delivered <==> id in SentTo(old(entries), ev, ready)
      ensures forall id :: id in newlyDegraded <==>
        id in old(entries) && OutcomeOf(old(entries)[id], ev, id in ready).Overflowed?
      ensures forall id :: id in delivered <==>
        id in old(entries) && Awaits(old(entries)[id], ev) && HasRoom(old(entries)[id], id in ready)
      ensures forall id :: id in newlyDegraded <==>
        id in old(entries) && Awaits(old(entries)[id], ev) && !HasRoom(old(entries)[id], id in ready)
      ensures entries.Keys == old(entries).Keys
      ensures forall id | id in entries :: IsOffered(old(entries)[id], ev, id in ready, entries[id])
    {
      hide AfterOffer, OutcomeOf, Hears, CursorAt, Awaits, HasRoom, IsOffered;
      delivered, newlyDegraded := [], [];
      var rest := entries.Keys;
      while rest != {}
        invariant rest <= old(entries).Keys && entries.Keys == old(entries).Keys
        invariant forall id | id in entries ::
          entries[id] == if id in rest then old(entries)[id] else AfterOffer(old(entries)[id], ev, id in ready)
        invariant forall id :: id in delivered <==>
          id in old(entries) && id !in rest && OutcomeOf(old(entries)[id], ev, id in ready).Sent?
        invariant forall id :: id in newlyDegraded <==>
          id in old(entries) && id !in rest && OutcomeOf(old(entries)[id], ev, id in ready).Overflowed?
      {
        var id :| id in rest;
        rest := rest - {id};
        var e := entries[id];
        OfferCases(e, ev, id in ready);
        if Hears(e.query, ev.key) && !e.degraded && e.kind.PostCommit? {
          if ev.version > CursorAt(e.query, e.kind.progress, ev.key) && e.kind.alive {
            if |e.kind.queue| < e.kind.capacity {
              entries := entries[id := e.(kind := e.kind.(queue := e.kind.queue + [ev]))];
              delivered := delivered + [id];
            } else if e.kind.capacity == 0 && id in ready {
              delivered := delivered + [id];
            } else {
              entries := entries[id := e.(degraded := true)];
              newlyDegraded := newlyDegraded + [id];
            }
          }
        }
      }
      forall id | id in old(entries)
        ensures IsOffered(old(entries)[id], ev, id in ready, AfterOffer(old(entries)[id], ev, id in ready))
        ensures OutcomeOf(old(entries)[id], ev, id in ready).Sent?
                <==> Awaits(old(entries)[id], ev) && HasRoom(old(entries)[id], id in ready)
        ensures OutcomeOf(old(entries)[id], ev, id in ready).Overflowed?
                <==> Awaits(old(entries)[id], ev) && !HasRoom(old(entries)[id], id in ready)
      {
        OfferedExactly(old(entries)[id], ev, id in ready);
      }
    }

    /** The second pass, under the write lock: subscribers that left in between are skipped. */
    method AdvanceCursors(ev: Ev, delivered: seq<nat>)
      requires Valid()
      modifies `entries
      ensures Valid() && entries == AdvanceAll(old(entries), ev, set id | id in delivered)
    {
      var i := 0;
      while i < |delivered|
        invariant i <= |delivered| && entries.Keys == old(entries).Keys
        invariant forall id | id in entries ::
          entries[id] == if id in delivered[..i] then Advanced(old(entries)[id], ev) else old(entries)[id]
      {
        var id := delivered[i];
        if id in entries {
          var e := entries[id];
          if e.kind.PostCommit? {
            var p := e.kind.progress;
            if Exact(e.query.pattern) {
              if ev.version > p.wal {
                entries := entries[id := e.(kind := e.kind.(progress := p.(wal := ev.version)))];
              }
            } else {
              var cursor := if ev.key in p.streams then p.streams[ev.key] else -1;
              if ev.version > cursor {
                var moved := p.(streams := p.streams[ev.key := ev.version]);
                entries := entries[id := e.(kind := e.kind.(progress := moved))];
              }
            }
          }
        }
        assert delivered[..i + 1] == delivered[..i] + [id];
        i := i + 1;
      }
    }

    method DispatchPostCommit(ev: Ev, ready: set<nat>) returns (newlyDegraded: seq<nat>)
      requires Valid()
      modifies `entries
      ensures Valid()
      ensures entries == AdvanceAll(OfferAll(old(entries), ev, ready), ev, SentTo(old(entries), ev, ready))
      ensures forall id :: id in newlyDegraded <==>
        id in old(entries) && Awaits(old(entries)[id], ev) && !HasRoom(old(entries)[id], id in ready)
      ensures entries.Keys == old(entries).Keys
      ensures forall id | id in entries :: IsDispatched(old(entries)[id], ev, id in ready, entries[id])
    {
      forall id | id in entries { DispatchedExactly(entries[id], ev, id in ready); }
      hide AfterOffer, OutcomeOf, Advanced, Awaits, HasRoom, IsOffered, IsDispatched;
      var delivered;
      delivered, newlyDegraded := SendToAll(ev, ready);
      assert (set id | id in delivered) == SentTo(old(entries), ev, ready);
      AdvanceCursors(ev, delivered);
    }

    method MinCursor(streams: map<Key, int>) returns (m: int)
      requires streams != map[]
      ensures IsLeast(streams, m)
    {
      var key :| key in streams;
      m := streams[key];
      var rest := streams.Keys;
      while rest != {}
        invariant rest <= streams.Keys
        invariant exists k :: k in streams && streams[k] == m
        invariant forall k | k in streams && k !in rest :: m <= streams[k]
      {
        var k :| k in rest;
        rest := rest - {k};
        if streams[k] < m {
          m := streams[k];
        }
      }
    }

    method PostCommitCursors() returns (rows: seq<Row>)
      ensures RowsOf(entries, rows)
      ensures forall id | id in entries && entries[id].kind.PostCommit? && !entries[id].degraded ::
        exists i | 0 <= i < |rows| :: rows[i].id == id
      ensures forall i | 0 <= i < |rows| ::
        && rows[i].id in entries && entries[rows[i].id].kind.PostCommit? && !entries[rows[i].id].degraded
        && IsScanRow(entries[rows[i].id], rows[i])
    {
      rows := [];
      var rest := entries.Keys;
      while rest != {}
        invariant rest <= entries.Keys
        invariant forall i | 0 <= i < |rows| :: RowFor(entries, rows[i]) && rows[i].id !in rest
        invariant forall id | id in entries && id !in rest && Tracked(entries[id]) ::
          exists i | 0 <= i < |rows| :: rows[i].id == id
        invariant forall i, j | 0 <= i < j < |rows| :: rows[i].id != rows[j].id
      {
        var id :| id in rest;
        rest := rest - {id};
        var e := entries[id];
        if Tracked(e) {
          var cursor := -1;
          if Exact(e.query.pattern) {
            cursor := e.kind.progress.wal;
          } else if e.kind.progress.streams != map[] {
            cursor := MinCursor(e.kind.progress.streams);
          }
          ghost var before := rows;
          rows := rows + [Row(id, e.query.pattern, e.query.branch, cursor)];
          assert rows[|before|].id == id && forall i | 0 <= i < |before| :: rows[i] == before[i];
        }
      }
    }
  }
}
