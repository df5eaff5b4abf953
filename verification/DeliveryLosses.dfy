/**
 Where a clause of `DeliveryGaps.InOrder` fails, events are lost: for each of the four, a reachable state in which a
 subscriber missed one.
 */
module DeliveryLosses {
  import opened Types
  import opened Subscriptions
  import opened Delivery
  import opened DeliveryGaps
  import Glob

  ghost predicate Reachable(s: System)
  {
    exists steps :: Run(EMPTY, steps) == s
  }

  lemma {:induction false} RunOneMore(s: System, steps: seq<Step>, step: Step)
    ensures Run(s, steps + [step]) == Do(Run(s, steps), step)
    decreases |steps|
  {
    hide Do;
    if steps == [] {
      assert [] + [step] == [step] && [step][1..] == [];
      assert Run(s, [step]) == Run(Do(s, step), []);
    } else {
      assert (steps + [step])[1..] == steps[1..] + [step];
      RunOneMore(Do(s, steps[0]), steps[1..], step);
    }
  }

  lemma {:induction false} Then(s: System, step: Step)
    requires Reachable(s)
    ensures Reachable(Do(s, step))
  {
    hide Do, Run;
    var steps :| Run(EMPTY, steps) == s;
    RunOneMore(EMPTY, steps, step);
    assert Run(EMPTY, steps + [step]) == Do(s, step);
  }

  lemma {:induction false} ThenTwo(s: System, first: Step, second: Step)
    requires Reachable(s)
    ensures Reachable(Do(Do(s, first), second))
  {
    hide Do, Reachable;
    Then(s, first);
    Then(Do(s, first), second);
  }

  lemma {:induction false} EmptyIsReachable()
    ensures Reachable(EMPTY)
  {
    assert Run(EMPTY, []) == EMPTY;
  }

  /** Nothing is under way any more, and `id`, still fit, never got an event it wants, though it got a later one. */
  ghost predicate Missed(s: System, id: nat, ev: Ev)
  {
    && Listens(s, id, ev.key) && SeedAt(s.past[id], ev.key) < ev.version < Head(s.heads, ev.key)
    && ev !in s.past[id].sent
    && (exists later | later in s.past[id].sent :: later.key == ev.key && later.version > ev.version)
    && s.channel == [] && s.owed == {} && s.flight == None && s.scan.groups == map[] && s.scan.fetched == []
  }

  const A := Key("a", "main")
  const B := Key("b", "main")

  // ----- A push overtakes an earlier one -----

  const EXACT := Query("a", "main", false)

  ghost function WithExact(heads: Heads, owed: set<Ev>, channel: seq<Ev>, flight: Option<Flight>, queue: seq<Ev>,
                           wal: int, offered: seq<Ev>): System
  {
    System(heads, owed, channel, flight,
           map[1 := Entry(EXACT, false, PostCommit(8, queue, true, Progress(wal, map[])))], 2,
           map[], Scan(map[], [], {}), map[1 := Past(EXACT, false, Progress(-1, map[]), offered, queue, [])])
  }

  lemma {:induction false} ExactHearsA()
    ensures Hears(EXACT, A) && Exact(EXACT.pattern) && !Internal(A)
  {
    Glob.ExactPatternMatchesOnlyItself("a", "a");
    assert A.stream[0] == 'a';
  }

  lemma {:induction false} SubscribeToA()
    ensures Do(Do(EMPTY, Seed(0, EXACT, false, 8)), Register(0)) == WithExact(map[], {}, [], None, [], -1, [])
  {
    ExactHearsA();
    assert Do(EMPTY, Seed(0, EXACT, false, 8)).joining - {0} == map[];
  }

  lemma {:induction false} CommitTwice()
    ensures Do(Do(WithExact(map[], {}, [], None, [], -1, []), Commit(A, true, {})), Commit(A, true, {}))
         == WithExact(map[A := 2], {Ev(A, 0), Ev(A, 1)}, [], None, [], -1, [])
  {
    ExactHearsA();
    assert Do(WithExact(map[], {}, [], None, [], -1, []), Commit(A, true, {}))
           == WithExact(map[A := 1], {Ev(A, 0)}, [], None, [], -1, []);
  }

  lemma {:induction false} PushBackwards()
    ensures Do(Do(WithExact(map[A := 2], {Ev(A, 0), Ev(A, 1)}, [], None, [], -1, []), Push(Ev(A, 1))), Push(Ev(A, 0)))
         == WithExact(map[A := 2], {}, [Ev(A, 1), Ev(A, 0)], None, [], -1, [])
  {
    assert {Ev(A, 0), Ev(A, 1)} - {Ev(A, 1)} == {Ev(A, 0)};
    assert [] + [Ev(A, 1)] == [Ev(A, 1)];
  }

  lemma {:induction false} TakeNewer(rest: seq<Ev>)
    ensures Do(WithExact(map[A := 2], {}, [Ev(A, 1)] + rest, None, [], -1, []), Take({}))
         == WithExact(map[A := 2], {}, rest, Some(Flight(Ev(A, 1), {1})), [Ev(A, 1)], -1, [Ev(A, 1)])
  {
    hide Hears, Internal, Exact, DoCommit, DoRegister, DoConsume, DoHandlerDies, DoGather, DoFetch, DoScanPush, SeedOf;
    ExactHearsA();
    var s, ev := WithExact(map[A := 2], {}, [Ev(A, 1)] + rest, None, [], -1, []), Ev(A, 1);
    var t := Do(s, Take({}));
    assert OutcomeOf(s.entries[1], ev, false) == Sent && s.entries[1].kind.queue + [ev] == [ev]
           && s.past[1].sent + [ev] == [ev];
    assert SentTo(s.entries, ev, {}) == {1};
    assert s.channel[0] == ev && s.channel[1..] == rest;
    assert t.entries[1] == Entry(EXACT, false, PostCommit(8, [ev], true, Progress(-1, map[])));
    assert t.past[1] == Past(EXACT, false, Progress(-1, map[]), [ev], [ev], []);
  }

  lemma {:induction false} DispatchNewer(rest: seq<Ev>)
    ensures Do(Do(WithExact(map[A := 2], {}, [Ev(A, 1)] + rest, None, [], -1, []), Take({})), Advance)
         == WithExact(map[A := 2], {}, rest, None, [Ev(A, 1)], 1, [Ev(A, 1)])
  {
    hide Hears, Internal, DoCommit, DoTake, DoRegister, DoConsume, DoHandlerDies, DoGather, DoFetch, DoScanPush, SeedOf;
    ExactHearsA();
    TakeNewer(rest);
    var t := WithExact(map[A := 2], {}, rest, Some(Flight(Ev(A, 1), {1})), [Ev(A, 1)], -1, [Ev(A, 1)]);
    assert Do(t, Advance).entries[1] == Entry(EXACT, false, PostCommit(8, [Ev(A, 1)], true, Progress(1, map[])));
  }

  lemma {:induction false} SkipOlder()
    ensures Do(Do(WithExact(map[A := 2], {}, [Ev(A, 0)], None, [Ev(A, 1)], 1, [Ev(A, 1)]), Take({})), Advance)
         == WithExact(map[A := 2], {}, [], None, [Ev(A, 1)], 1, [Ev(A, 1), Ev(A, 0)])
  {
    hide Hears, Internal, Exact;
    ExactHearsA();
    var s, ev := WithExact(map[A := 2], {}, [Ev(A, 0)], None, [Ev(A, 1)], 1, [Ev(A, 1)]), Ev(A, 0);
    var t := Do(s, Take({}));
    assert OutcomeOf(s.entries[1], ev, false) == Passed;
    assert SentTo(s.entries, ev, {}) == {};
    assert s.channel[0] == ev && s.channel[1..] == [];
    assert t.entries[1] == s.entries[1];
    assert t.past[1] == Past(EXACT, false, Progress(-1, map[]), [Ev(A, 1), ev], [Ev(A, 1)], []);
    assert t == WithExact(map[A := 2], {}, [], Some(Flight(ev, {})), [Ev(A, 1)], 1, [Ev(A, 1), ev]);
  }

  /** Two in-process commits pushed in the wrong order: version 1 overtakes version 0, which is then never delivered. */
  lemma {:induction false} OvertakingLosesAnEvent() returns (s: System)
    ensures Reachable(s) && Missed(s, 1, Ev(A, 0))
  {
    hide Do, Reachable, Hears, Internal;
    EmptyIsReachable();
    SubscribeToA();
    ThenTwo(EMPTY, Seed(0, EXACT, false, 8), Register(0));
    CommitTwice();
    ThenTwo(WithExact(map[], {}, [], None, [], -1, []), Commit(A, true, {}), Commit(A, true, {}));
    PushBackwards();
    ThenTwo(WithExact(map[A := 2], {Ev(A, 0), Ev(A, 1)}, [], None, [], -1, []), Push(Ev(A, 1)), Push(Ev(A, 0)));
    DispatchNewer([Ev(A, 0)]);
    assert [Ev(A, 1)] + [Ev(A, 0)] == [Ev(A, 1), Ev(A, 0)];
    ThenTwo(WithExact(map[A := 2], {}, [Ev(A, 1), Ev(A, 0)], None, [], -1, []), Take({}), Advance);
    SkipOlder();
    ThenTwo(WithExact(map[A := 2], {}, [Ev(A, 0)], None, [Ev(A, 1)], 1, [Ev(A, 1)]), Take({}), Advance);
    s := WithExact(map[A := 2], {}, [], None, [Ev(A, 1)], 1, [Ev(A, 1), Ev(A, 0)]);
    ExactHearsA();
    assert Ev(A, 1) in s.past[1].sent;
  }

  // ----- A commit that was not pushed because nobody seemed to listen -----

  lemma {:induction false} CommitBeforeRegistration()
    ensures Do(Do(Do(EMPTY, Seed(0, EXACT, false, 8)), Commit(A, false, {})), Register(0))
         == WithExact(map[A := 1], {}, [], None, [], -1, [])
  {
    ExactHearsA();
    assert Do(Do(EMPTY, Seed(0, EXACT, false, 8)), Commit(A, false, {})).joining - {0} == map[];
  }

  lemma {:induction false} PushSecond()
    ensures Do(Do(WithExact(map[A := 1], {}, [], None, [], -1, []), Commit(A, true, {})), Push(Ev(A, 1)))
         == WithExact(map[A := 2], {}, [Ev(A, 1)], None, [], -1, [])
  {
    ExactHearsA();
    assert Do(WithExact(map[A := 1], {}, [], None, [], -1, []), Commit(A, true, {}))
           == WithExact(map[A := 2], {Ev(A, 1)}, [], None, [], -1, []);
    assert {Ev(A, 1)} - {Ev(A, 1)} == {} && [] + [Ev(A, 1)] == [Ev(A, 1)];
  }

  /** With one version committed and not pushed, pushing the next one makes it lost. */
  lemma {:induction false} UnpushedIsLost() returns (s: System)
    requires Reachable(WithExact(map[A := 1], {}, [], None, [], -1, []))
    ensures Reachable(s) && Missed(s, 1, Ev(A, 0))
  {
    hide Do, Reachable, Hears, Internal;
    PushSecond();
    ThenTwo(WithExact(map[A := 1], {}, [], None, [], -1, []), Commit(A, true, {}), Push(Ev(A, 1)));
    DispatchNewer([]);
    assert [Ev(A, 1)] + [] == [Ev(A, 1)];
    ThenTwo(WithExact(map[A := 2], {}, [Ev(A, 1)], None, [], -1, []), Take({}), Advance);
    s := WithExact(map[A := 2], {}, [], None, [Ev(A, 1)], 1, [Ev(A, 1)]);
    ExactHearsA();
    assert Ev(A, 1) in s.past[1].sent;
  }

  /** A commit between the seed query and the registration is not pushed, and the seed does not cover it. */
  lemma {:induction false} CommitDuringSubscribeIsLost() returns (s: System)
    ensures Reachable(s) && Missed(s, 1, Ev(A, 0))
  {
    hide Do, Reachable, Missed;
    EmptyIsReachable();
    CommitBeforeRegistration();
    ThenTwo(EMPTY, Seed(0, EXACT, false, 8), Commit(A, false, {}));
    Then(Do(Do(EMPTY, Seed(0, EXACT, false, 8)), Commit(A, false, {})), Register(0));
    s := UnpushedIsLost();
  }

  /** So is a commit after the registration that looked for subscribers before it. */
  lemma {:induction false} CommitThatLookedTooEarlyIsLost() returns (s: System)
    ensures Reachable(s) && Missed(s, 1, Ev(A, 0))
  {
    hide Do, Reachable, Missed;
    EmptyIsReachable();
    SubscribeToA();
    ThenTwo(EMPTY, Seed(0, EXACT, false, 8), Register(0));
    UnpushedCommit();
    Then(WithExact(map[], {}, [], None, [], -1, []), Commit(A, false, {}));
    s := UnpushedIsLost();
  }

  lemma {:induction false} UnpushedCommit()
    ensures Do(WithExact(map[], {}, [], None, [], -1, []), Commit(A, false, {}))
         == WithExact(map[A := 1], {}, [], None, [], -1, [])
  {
  }

  // ----- A scan starts beyond a stream the subscriber has no cursor for -----

  const GLOB := Query("*", "main", false)

  ghost function WithGlob(heads: Heads, channel: seq<Ev>, flight: Option<Flight>, scan: Scan, queue: seq<Ev>,
                          streams: map<Key, int>): System
  {
    System(heads, {}, channel, flight,
           map[1 := Entry(GLOB, false, PostCommit(8, queue, true, Progress(-1, streams)))], 2,
           map[], scan, map[1 := Past(GLOB, false, Progress(-1, map[A := 0]), queue, queue, [])])
  }

  lemma {:induction false} GlobHears(stream: string)
    requires stream == "a" || stream == "b"
    ensures Hears(GLOB, Key(stream, "main")) && Glob.Matches("*", stream)
    ensures !Exact("*") && !Internal(Key(stream, "main"))
  {
    assert '/' !in stream && '/' !in "*" && "*"[0] == '*';
    Glob.SplitSegment("*", "");
    Glob.SplitSegment(stream, "");
    assert ["*"][1..] == [] && [stream][1..] == [] && Glob.MatchParts([], []);
    assert Glob.Split("*") == ["*"] && Glob.Split(stream) == [stream];
    assert Glob.MatchParts(["*"], [stream]);
    assert stream[0] == 'a' || stream[0] == 'b';
  }

  lemma {:induction false} SubscribeWithCursorForA()
    ensures Do(Do(Do(EMPTY, Commit(A, false, {})), Seed(0, GLOB, false, 8)), Register(0))
         == WithGlob(map[A := 1], [], None, Scan(map[], [], {}), [], map[A := 0])
  {
    hide Glob.Matches;
    GlobHears("a");
    var s := Do(EMPTY, Commit(A, false, {}));
    assert s.heads == map[A := 1];
    assert SeedOf(s.heads, GLOB) == Progress(-1, map[A := 0]);
    var t := Do(s, Seed(0, GLOB, false, 8));
    assert t.joining == map[0 := Joining(GLOB, false, 8, Progress(-1, map[A := 0]))];
    assert t.joining - {0} == map[];
    assert Do(t, Register(0)).entries
           == map[1 := Entry(GLOB, false, PostCommit(8, [], true, Progress(-1, map[A := 0])))];
    var u := Do(t, Register(0));
    assert u.past == map[1 := Past(GLOB, false, Progress(-1, map[A := 0]), [], [], [])];
    assert u.joining == map[];
    assert u.heads == map[A := 1] && u.owed == {} && u.channel == [] && u.flight == None && u.nextId == 2;
    assert u.scan == Scan(map[], [], {});
    assert u == WithGlob(map[A := 1], [], None, Scan(map[], [], {}), [], map[A := 0]);
  }

  lemma {:induction false} OthersWriteB()
    ensures Do(Do(WithGlob(map[A := 1], [], None, Scan(map[], [], {}), [], map[A := 0]), Commit(B, false, {})),
            Commit(B, false, {}))
         == WithGlob(map[A := 1, B := 2], [], None, Scan(map[], [], {}), [], map[A := 0])
  {
    assert A != B by { assert "a"[0] != "b"[0]; }
  }

  lemma {:induction false} RowForGlob(entries: Entries)
    requires entries == map[1 := Entry(GLOB, false, PostCommit(8, [], true, Progress(-1, map[A := 0])))]
    ensures RowsOf(entries, [Row(1, "*", "main", 0)])
  {
    hide Exact;
    GlobHears("a");
    var rows := [Row(1, "*", "main", 0)];
    assert A in entries[1].kind.progress.streams && IsLeast(entries[1].kind.progress.streams, 0);
    assert RowFor(entries, rows[0]) && rows[0].id == 1;
  }

  lemma {:induction false} GroupsForGlob()
    ensures GroupsOf([Row(1, "*", "main", 0)], ["a", "b"], map[A := 0, B := 0])
  {
    hide Glob.Matches, Exact;
    GlobHears("a");
    GlobHears("b");
    var rows, allStreams := [Row(1, "*", "main", 0)], ["a", "b"];
    assert allStreams[0] == "a" && allStreams[1] == "b";
    assert Reads(rows[0], allStreams, A) && Reads(rows[0], allStreams, B);
    assert forall key | Reads(rows[0], allStreams, key) :: key == A || key == B;
  }

  lemma {:induction false} GatherBoth()
    ensures Do(WithGlob(map[A := 1, B := 2], [], None, Scan(map[], [], {}), [], map[A := 0]),
               Gather([Row(1, "*", "main", 0)], ["a", "b"], map[A := 0, B := 0]))
         == WithGlob(map[A := 1, B := 2], [], None, Scan(map[A := 0, B := 0], [], {Cover(1, A)}), [], map[A := 0])
  {
    hide Glob.Matches, Exact, RowsOf, GroupsOf;
    hide DoCommit, DoTake, DoAdvance, DoRegister, DoConsume, DoHandlerDies, DoFetch, DoScanPush, SeedOf;
    GlobHears("a");
    var s := WithGlob(map[A := 1, B := 2], [], None, Scan(map[], [], {}), [], map[A := 0]);
    RowForGlob(s.entries);
    GroupsForGlob();
    assert A != B by { assert "a"[0] != "b"[0]; }
    assert ["a", "b"][0] == "a";
    assert Covers(s.entries[1], ["a", "b"], A) && !Covers(s.entries[1], ["a", "b"], B);
  }

  lemma {:induction false} FetchB()
    ensures Do(WithGlob(map[A := 1, B := 2], [], None, Scan(map[A := 0, B := 0], [], {Cover(1, A)}), [], map[A := 0]),
               Fetch(B, false))
         == WithGlob(map[A := 1, B := 2], [], None, Scan(map[A := 0], [Ev(B, 1)], {Cover(1, A)}), [], map[A := 0])
  {
    hide DoCommit, DoTake, DoAdvance, DoRegister, DoConsume, DoHandlerDies, DoGather, DoScanPush, SeedOf;
    assert A != B by { assert "a"[0] != "b"[0]; }
    assert FetchAfter(B, 2, 0) == [Ev(B, 1)];
    assert map[A := 0, B := 0] - {B} == map[A := 0];
  }

  lemma {:induction false} ScanB()
    ensures Do(Do(WithGlob(map[A := 1, B := 2], [], None, Scan(map[A := 0, B := 0], [], {Cover(1, A)}), [],
            map[A := 0]), Fetch(B, false)), ScanPush)
         == WithGlob(map[A := 1, B := 2], [Ev(B, 1)], None, Scan(map[A := 0], [], {Cover(1, A)}), [], map[A := 0])
  {
    hide DoCommit, DoTake, DoAdvance, DoRegister, DoConsume, DoHandlerDies, DoGather, DoFetch, SeedOf;
    FetchB();
    assert [] + [Ev(B, 1)] == [Ev(B, 1)];
  }

  lemma {:induction false} ScanA()
    ensures Do(WithGlob(map[A := 1, B := 2], [Ev(B, 1)], None, Scan(map[A := 0], [], {Cover(1, A)}), [], map[A := 0]),
            Fetch(A, false))
         == WithGlob(map[A := 1, B := 2], [Ev(B, 1)], None, Scan(map[], [], {Cover(1, A)}), [], map[A := 0])
  {
    assert FetchAfter(A, 1, 0) == [];
    assert map[A := 0] - {A} == map[];
  }

  lemma {:induction false} TakeB()
    ensures Do(WithGlob(map[A := 1, B := 2], [Ev(B, 1)], None, Scan(map[], [], {Cover(1, A)}), [], map[A := 0]),
            Take({}))
         == WithGlob(map[A := 1, B := 2], [], Some(Flight(Ev(B, 1), {1})), Scan(map[], [], {Cover(1, A)}), [Ev(B, 1)],
           map[A := 0])
  {
    hide Hears, Internal, Exact, DoCommit, DoRegister, DoConsume, DoHandlerDies, DoGather, DoFetch, DoScanPush, SeedOf;
    GlobHears("b");
    var s, ev := WithGlob(map[A := 1, B := 2], [Ev(B, 1)], None, Scan(map[], [], {Cover(1, A)}), [], map[A := 0]),
      Ev(B, 1);
    assert A != B by { assert "a"[0] != "b"[0]; }
    assert OutcomeOf(s.entries[1], ev, false) == Sent && s.entries[1].kind.queue + [ev] == [ev]
           && s.past[1].sent + [ev] == [ev];
    assert SentTo(s.entries, ev, {}) == {1};
    assert s.channel[0] == ev && s.channel[1..] == [];
    var t := Do(s, Take({}));
    assert t.entries[1] == Entry(GLOB, false, PostCommit(8, [ev], true, Progress(-1, map[A := 0])));
    assert t.past[1] == Past(GLOB, false, Progress(-1, map[A := 0]), [ev], [ev], []);
  }

  lemma {:induction false} AdvanceB()
    ensures Do(WithGlob(map[A := 1, B := 2], [], Some(Flight(Ev(B, 1), {1})), Scan(map[], [], {Cover(1, A)}),
            [Ev(B, 1)], map[A := 0]), Advance)
         == WithGlob(map[A := 1, B := 2], [], None, Scan(map[], [], {Cover(1, A)}), [Ev(B, 1)], map[A := 0, B := 1])
  {
    hide Hears, Exact, DoCommit, DoTake, DoRegister, DoConsume, DoHandlerDies, DoGather, DoFetch, DoScanPush, SeedOf;
    assert A != B by { assert "a"[0] != "b"[0]; }
    GlobHears("b");
    assert map[A := 0][B := 1] == map[A := 0, B := 1];
  }

  /**
   A glob subscriber with a cursor for one stream: the scan starts there on a second stream too, and skips its first
   event for good.
   */
  lemma {:induction false} ScanSkipsANewStream() returns (s: System)
    ensures Reachable(s) && Missed(s, 1, Ev(B, 0))
  {
    hide Do, Reachable, Hears, Internal;
    var quiet := Scan(map[], [], {});
    EmptyIsReachable();
    SubscribeWithCursorForA();
    Then(EMPTY, Commit(A, false, {}));
    ThenTwo(Do(EMPTY, Commit(A, false, {})), Seed(0, GLOB, false, 8), Register(0));
    OthersWriteB();
    ThenTwo(WithGlob(map[A := 1], [], None, quiet, [], map[A := 0]), Commit(B, false, {}), Commit(B, false, {}));
    GatherBoth();
    Then(WithGlob(map[A := 1, B := 2], [], None, quiet, [], map[A := 0]),
      Gather([Row(1, "*", "main", 0)], ["a", "b"], map[A := 0, B := 0]));
    ScanB();
    ThenTwo(WithGlob(map[A := 1, B := 2], [], None, Scan(map[A := 0, B := 0], [], {Cover(1, A)}), [], map[A := 0]),
      Fetch(B, false), ScanPush);
    ScanA();
    Then(WithGlob(map[A := 1, B := 2], [Ev(B, 1)], None, Scan(map[A := 0], [], {Cover(1, A)}), [], map[A := 0]),
      Fetch(A, false));
    TakeB();
    AdvanceB();
    ThenTwo(WithGlob(map[A := 1, B := 2], [Ev(B, 1)], None, Scan(map[], [], {Cover(1, A)}), [], map[A := 0]), Take({}),
      Advance);
    s := WithGlob(map[A := 1, B := 2], [], None, Scan(map[], [], {Cover(1, A)}), [Ev(B, 1)], map[A := 0, B := 1]);
    GlobHears("b");
    assert A != B by { assert "a"[0] != "b"[0]; }
    assert Ev(B, 1) in s.past[1].sent;
  }
}
