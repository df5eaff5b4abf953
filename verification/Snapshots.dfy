/**
 Snapshots as a cache of a fold (src/snapshots.rs and the state methods of src/store.rs).

 Row `i` of a log is the payload of the event with version `i`; `AppendRuns.EveryRunIsSound` shows that
 versions are contiguous.  A reducer is a pure pair of an initial state and a step, each of which may
 fail; a caught panic is one of its failures.  `reducers` gives the one reducer registered for a
 name and a state-schema version.
 */
module Snapshots {
  import opened Types

  datatype StateError = ReducerFailed(code: nat) | NoEventsToSnapshot

  datatype Reducer = Reducer(init: Result<Bytes, StateError>, apply: (Bytes, Bytes) -> Result<Bytes, StateError>)

  type Reducers = (string, nat) -> Reducer

  /** The primary key of the `snapshots` table. */
  datatype SnapKey = SnapKey(key: Key, reducer: string, schema: nat, version: nat)

  datatype Found = Found(version: nat, state: Bytes)

  type Logs = map<Key, seq<Bytes>>

  type Snaps = map<SnapKey, Bytes>

  function LogOf(logs: Logs, key: Key): seq<Bytes>
  {
    if key in logs then logs[key] else []
  }

  // ----- Replay -----

  function Fold(r: Reducer, state: Bytes, events: seq<Bytes>): Result<Bytes, StateError>
    decreases |events|
  {
    if events == [] then Ok(state)
    else match r.apply(state, events[0])
      case Err(e) => Err(e)
      case Ok(next) => Fold(r, next, events[1..])
  }

  /** The state after replaying `events` from zero, or the first error. */
  function Replay(r: Reducer, events: seq<Bytes>): Result<Bytes, StateError>
  {
    match r.init
    case Err(e) => Err(e)
    case Ok(state) => Fold(r, state, events)
  }

  /**
   The states a replay goes through, one application of the reducer to each payload: from the initial state to
   the answer, or up to the first application that fails.
   */
  predicate IsTrace(r: Reducer, log: seq<Bytes>, states: seq<Bytes>, answer: Result<Bytes, StateError>)
  {
    if r.init.Err? then states == [] && answer == r.init
    else
      && 0 < |states| <= |log| + 1 && states[0] == r.init.value
      && (forall i | 0 <= i < |states| - 1 :: r.apply(states[i], log[i]) == Ok(states[i + 1]))
      && match answer
         case Ok(state) => |states| == |log| + 1 && state == states[|log|]
         case Err(_) => |states| <= |log| && r.apply(states[|states| - 1], log[|states| - 1]) == answer
  }

  ghost predicate Replayed(r: Reducer, log: seq<Bytes>, answer: Result<Bytes, StateError>)
  {
    exists states :: IsTrace(r, log, states, answer)
  }

  lemma {:induction false} FoldOne(r: Reducer, state: Bytes, payload: Bytes)
    ensures Fold(r, state, [payload]) == r.apply(state, payload)
  {
    assert [payload][1..] == [];
  }

  /** The replay has a trace. */
  lemma {:induction false} ReplayTraces(r: Reducer, log: seq<Bytes>) returns (states: seq<Bytes>)
    ensures IsTrace(r, log, states, Replay(r, log))
    decreases |log|
  {
    if r.init.Err? {
      states := [];
    } else if log == [] {
      states := [r.init.value];
    } else {
      var front, last := log[..|log| - 1], log[|log| - 1];
      states := ReplayTraces(r, front);
      assert log == front + [last];
      FoldSplits(r, r.init.value, front, [last]);
      if Replay(r, front).Ok? {
        FoldOne(r, Replay(r, front).value, last);
        if Replay(r, log).Ok? {
          states := states + [Replay(r, log).value];
        }
      }
    }
  }

  /** From each state of a trace, one application decides whether there is a next one, or what the answer is. */
  lemma {:induction false} TraceStep(r: Reducer, log: seq<Bytes>, states: seq<Bytes>, answer: Result<Bytes, StateError>,
                                     k: nat)
    requires IsTrace(r, log, states, answer) && r.init.Ok? && k < |states|
    ensures k < |log| ==> (k + 1 < |states| <==> r.apply(states[k], log[k]).Ok?)
    ensures k == |log| ==> k + 1 == |states|
    ensures k + 1 == |states| ==> answer == if k < |log| then r.apply(states[k], log[k]) else Ok(states[k])
  {
    if k + 1 < |states| {
      assert r.apply(states[k], log[k]) == Ok(states[k + 1]);
    }
  }

  /** Traces of one log lead to the same answer. */
  lemma {:induction false} TracesAgree(r: Reducer, log: seq<Bytes>, one: seq<Bytes>, a: Result<Bytes, StateError>,
                                       two: seq<Bytes>, b: Result<Bytes, StateError>)
    requires IsTrace(r, log, one, a) && IsTrace(r, log, two, b)
    ensures a == b
  {
    if r.init.Ok? {
      var k := (if |one| < |two| then |one| else |two|) - 1;
      SameStates(r, log, one, a, two, b, k);
      TraceStep(r, log, one, a, k);
      TraceStep(r, log, two, b, k);
    }
  }

  lemma {:induction false} SameStates(r: Reducer, log: seq<Bytes>, one: seq<Bytes>, a: Result<Bytes, StateError>,
                                      two: seq<Bytes>, b: Result<Bytes, StateError>, i: nat)
    requires IsTrace(r, log, one, a) && IsTrace(r, log, two, b) && i < |one| && i < |two|
    ensures one[i] == two[i]
  {
    if i > 0 {
      SameStates(r, log, one, a, two, b, i - 1);
      assert r.apply(one[i - 1], log[i - 1]) == Ok(one[i - 1 + 1]);
      assert r.apply(two[i - 1], log[i - 1]) == Ok(two[i - 1 + 1]);
    }
  }

  /** The fold answers exactly what applying the reducer once to each payload, in order, leads to. */
  lemma {:induction false} ReplayedExactly(r: Reducer, log: seq<Bytes>, answer: Result<Bytes, StateError>)
    ensures Replayed(r, log, answer) <==> answer == Replay(r, log)
  {
    hide IsTrace, Replay;
    var states := ReplayTraces(r, log);
    if Replayed(r, log, answer) {
      var others :| IsTrace(r, log, others, answer);
      TracesAgree(r, log, states, Replay(r, log), others, answer);
    }
  }

  lemma {:induction false} FoldSplits(r: Reducer, state: Bytes, a: seq<Bytes>, b: seq<Bytes>)
    ensures Fold(r, state, a + b)
         == match Fold(r, state, a) case Err(e) => Err(e) case Ok(mid) => Fold(r, mid, b)
    decreases |a|
  {
    if a == [] {
      assert a + b == b;
    } else {
      assert (a + b)[1..] == a[1..] + b;
      if r.apply(state, a[0]).Ok? {
        FoldSplits(r, r.apply(state, a[0]).value, a[1..], b);
      }
    }
  }

  // ----- The two reads behind every state -----

  predicate Matches(k: SnapKey, key: Key, reducer: string, schema: nat, bound: Option<int>)
  {
    k.key == key && k.reducer == reducer && k.schema == schema && (bound.Some? ==> k.version <= bound.value)
  }

  /** `SELECT ... [AND version <= bound] ORDER BY version DESC LIMIT 1` answers `found`. */
  ghost predicate IsLatest(snaps: Snaps, key: Key, reducer: string, schema: nat, bound: Option<int>,
                           found: Option<Found>)
  {
    match found
    case None => forall k | k in snaps :: !Matches(k, key, reducer, schema, bound)
    case Some(f) =>
      var top := SnapKey(key, reducer, schema, f.version);
      && top in snaps && snaps[top] == f.state && Matches(top, key, reducer, schema, bound)
      && forall k | k in snaps && Matches(k, key, reducer, schema, bound) :: k.version <= f.version
  }

  /** The payloads with `first <= version <= last`; `last` is unbounded when absent. */
  function Slice(log: seq<Bytes>, first: nat, last: Option<int>): seq<Bytes>
  {
    var end := if last.None? || last.value >= |log| then |log| else if last.value < 0 then 0 else last.value + 1;
    if first >= end then [] else log[first..end]
  }

  function StartOf(found: Option<Found>): nat
  {
    if found.Some? then found.value.version + 1 else 0
  }

  /** What `read_state*` computes from the snapshot it found and the events it read after it. */
  function StateFrom(r: Reducer, found: Option<Found>, events: seq<Bytes>): Result<Bytes, StateError>
  {
    match found
    case Some(f) => Fold(r, f.state, events)
    case None => Replay(r, events)
  }

  /** A snapshot at version `v` is the fold of all rows up to `v`. */
  ghost predicate ValidSnapshot(r: Reducer, log: seq<Bytes>, version: nat, state: Bytes)
  {
    version < |log| && Replay(r, log[..version + 1]) == Ok(state)
  }

  lemma {:induction false} ValidStaysValid(r: Reducer, log: seq<Bytes>, more: seq<Bytes>, version: nat, state: Bytes)
    requires ValidSnapshot(r, log, version, state) && log <= more
    ensures ValidSnapshot(r, more, version, state)
  {
    assert more[..version + 1] == log[..version + 1];
  }

  lemma {:induction false} SliceSplits(log: seq<Bytes>, v: nat, last: Option<int>)
    requires v < |log| && (last.Some? ==> v <= last.value)
    ensures log[..v + 1] + Slice(log, v + 1, last) == Slice(log, 0, last)
  {
    var end := if last.None? || last.value >= |log| then |log| else last.value + 1;
    assert v + 1 <= end <= |log|;
    assert Slice(log, 0, last) == log[0..end];
    assert Slice(log, v + 1, last) == log[v + 1..end];
    assert log[..v + 1] + log[v + 1..end] == log[0..end];
  }

  /** From a valid snapshot or from nothing, folding the slice up to `last` is replaying from zero up to `last`. */
  lemma {:induction false} StateFromIsReplay(r: Reducer, found: Option<Found>, log: seq<Bytes>, last: Option<int>)
    requires found.Some? ==> ValidSnapshot(r, log, found.value.version, found.value.state)
    requires found.Some? && last.Some? ==> found.value.version <= last.value
    ensures StateFrom(r, found, Slice(log, StartOf(found), last)) == Replay(r, Slice(log, 0, last))
  {
    if found.Some? {
      var v := found.value.version;
      var tail := Slice(log, v + 1, last);
      SliceSplits(log, v, last);
      FoldSplits(r, r.init.value, log[..v + 1], tail);
    }
  }

  // ----- Interleaved snapshot writers -----

  /** A `take_snapshot` or `bg_take_snapshot` between two of its lock acquisitions. */
  datatype Writer =
    | Looked(key: Key, reducer: string, schema: nat, found: Option<Found>)
    | Loaded(key: Key, reducer: string, schema: nat, found: Option<Found>, events: seq<Bytes>, version: nat)

  datatype System = System(logs: Logs, snaps: Snaps, writers: map<nat, Writer>)

  /**
   Atomic steps; `who` names a snapshot writer.  GC deletes one (reducer, schema) pair per statement, or everything.
   */
  datatype Step =
    | Commit(key: Key, payload: Bytes)
    | Look(who: nat, key: Key, reducer: string, schema: nat, found: Option<Found>)
    | Load(who: nat)
    | Write(who: nat)
    | GcPair(reducer: string, schema: nat)
    | GcAll

  /** A step that is not enabled leaves the system as it is. */
  ghost function Do(rs: Reducers, s: System, step: Step): System
  {
    match step
    case Commit(key, payload) => s.(logs := s.logs[key := LogOf(s.logs, key) + [payload]])
    case Look(who, key, reducer, schema, found) =>
      if IsLatest(s.snaps, key, reducer, schema, None, found)
      then s.(writers := s.writers[who := Looked(key, reducer, schema, found)])
      else s
    case Load(who) =>
      if who in s.writers && s.writers[who].Looked? then
        var w := s.writers[who];
        var log := LogOf(s.logs, w.key);
        var events := Slice(log, StartOf(w.found), None);
        if events == [] then s.(writers := s.writers - {who})
        else s.(writers := s.writers[who := Loaded(w.key, w.reducer, w.schema, w.found, events, |log| - 1)])
      else s
    case Write(who) =>
      if who in s.writers && s.writers[who].Loaded? then
        var w := s.writers[who];
        var state := StateFrom(rs(w.reducer, w.schema), w.found, w.events);
        var s' := s.(writers := s.writers - {who});
        if state.Err? then s'
        else s'.(snaps := s.snaps[SnapKey(w.key, w.reducer, w.schema, w.version) := state.value])
      else s
    case GcPair(reducer, schema) => s.(snaps := Without(s.snaps, reducer, schema))
    case GcAll => s.(snaps := map[])
  }

  function Without(snaps: Snaps, reducer: string, schema: nat): Snaps
  {
    map k | k in snaps && !(k.reducer == reducer && k.schema == schema) :: snaps[k]
  }

  ghost function Run(rs: Reducers, s: System, steps: seq<Step>): System
    decreases |steps|
  {
    if steps == [] then s else Run(rs, Do(rs, s, steps[0]), steps[1..])
  }

  ghost predicate ValidSnaps(rs: Reducers, logs: Logs, snaps: Snaps)
  {
    forall k | k in snaps :: ValidSnapshot(rs(k.reducer, k.schema), LogOf(logs, k.key), k.version, snaps[k])
  }

  ghost predicate ValidWriter(rs: Reducers, logs: Logs, w: Writer)
  {
    var r, log := rs(w.reducer, w.schema), LogOf(logs, w.key);
    && (w.found.Some? ==> ValidSnapshot(r, log, w.found.value.version, w.found.value.state))
    && (w.Loaded? ==> StartOf(w.found) <= w.version < |log| && w.events == log[StartOf(w.found)..w.version + 1])
  }

  ghost predicate Consistent(rs: Reducers, s: System)
  {
    && ValidSnaps(rs, s.logs, s.snaps)
    && forall who | who in s.writers :: ValidWriter(rs, s.logs, s.writers[who])
  }

  /** Logs are only appended to. */
  ghost predicate Extends(logs: Logs, logs': Logs)
  {
    forall key: Key :: LogOf(logs, key) <= LogOf(logs', key)
  }

  lemma {:induction false} GrowthKeepsConsistent(rs: Reducers, s: System, s': System)
    requires Consistent(rs, s) && Extends(s.logs, s'.logs) && s'.snaps == s.snaps && s'.writers == s.writers
    ensures Consistent(rs, s')
  {
    forall k | k in s.snaps
      ensures ValidSnapshot(rs(k.reducer, k.schema), LogOf(s'.logs, k.key), k.version, s.snaps[k])
    {
      ValidStaysValid(rs(k.reducer, k.schema), LogOf(s.logs, k.key), LogOf(s'.logs, k.key), k.version, s.snaps[k]);
    }
    forall who | who in s.writers
      ensures ValidWriter(rs, s'.logs, s.writers[who])
    {
      var w := s.writers[who];
      assert LogOf(s.logs, w.key) <= LogOf(s'.logs, w.key);
      if w.found.Some? {
        ValidStaysValid(rs(w.reducer, w.schema), LogOf(s.logs, w.key), LogOf(s'.logs, w.key),
                        w.found.value.version, w.found.value.state);
      }
    }
  }

  lemma {:induction false} WriteIsValid(rs: Reducers, logs: Logs, w: Writer)
    requires w.Loaded? && ValidWriter(rs, logs, w)
    ensures var state := StateFrom(rs(w.reducer, w.schema), w.found, w.events);
            && state == Replay(rs(w.reducer, w.schema), LogOf(logs, w.key)[..w.version + 1])
            && (state.Ok? ==> ValidSnapshot(rs(w.reducer, w.schema), LogOf(logs, w.key), w.version, state.value))
            && Replayed(rs(w.reducer, w.schema), LogOf(logs, w.key)[..w.version + 1], state)
  {
    hide Replayed;
    var log := LogOf(logs, w.key);
    var r := rs(w.reducer, w.schema);
    StateFromIsReplay(r, w.found, log, Some(w.version));
    assert Slice(log, StartOf(w.found), Some(w.version)) == w.events;
    assert Slice(log, 0, Some(w.version)) == log[..w.version + 1];
    ReplayedExactly(r, log[..w.version + 1], StateFrom(r, w.found, w.events));
  }

  lemma {:induction false} LoadKeepsConsistent(rs: Reducers, s: System, who: nat)
    requires Consistent(rs, s)
    ensures Consistent(rs, Do(rs, s, Load(who)))
  {
    hide ValidSnapshot;
    var s' := Do(rs, s, Load(who));
    if who in s'.writers && s'.writers[who].Loaded? && s.writers[who].Looked? {
      assert ValidWriter(rs, s.logs, s.writers[who]);
      assert ValidWriter(rs, s.logs, s'.writers[who]);
    }
  }

  lemma {:induction false} WriteKeepsConsistent(rs: Reducers, s: System, who: nat)
    requires Consistent(rs, s)
    ensures Consistent(rs, Do(rs, s, Write(who)))
  {
    hide ValidSnapshot, StateFrom, Fold, Replay, ValidWriter;
    if who in s.writers && s.writers[who].Loaded? {
      WriteIsValid(rs, s.logs, s.writers[who]);
    }
  }

  lemma {:induction false} StepKeepsConsistent(rs: Reducers, s: System, step: Step)
    requires Consistent(rs, s)
    ensures Consistent(rs, Do(rs, s, step))
    ensures Extends(s.logs, Do(rs, s, step).logs)
  {
    hide ValidSnapshot, StateFrom, Fold, Replay;
    match step
    case Commit(_, _) => GrowthKeepsConsistent(rs, s, Do(rs, s, step));
    case Look(_, _, _, _, _) =>
    case Load(who) => LoadKeepsConsistent(rs, s, who);
    case Write(who) => WriteKeepsConsistent(rs, s, who);
    case GcPair(_, _) =>
    case GcAll =>
  }

  /**
   Over every run of commits, GC and interleaved snapshot writers, each stored snapshot at version `v`
   is the fold of all rows up to `v`.
   */
  lemma {:induction false} SnapshotsStayConsistent(rs: Reducers, s: System, steps: seq<Step>)
    requires Consistent(rs, s)
    ensures Consistent(rs, Run(rs, s, steps)) && SnapshotsAreReplays(rs, Run(rs, s, steps))
    ensures Extends(s.logs, Run(rs, s, steps).logs)
    decreases |steps|
  {
    hide Consistent;
    hide Do, SnapshotsAreReplays;
    if steps != [] {
      StepKeepsConsistent(rs, s, steps[0]);
      SnapshotsStayConsistent(rs, Do(rs, s, steps[0]), steps[1..]);
    }
    ConsistentAreReplays(rs, Run(rs, s, steps));
  }

  /** The rows of a log up to a version, and there is one. */
  ghost predicate SnapshotsAreReplays(rs: Reducers, s: System)
  {
    forall k | k in s.snaps ::
      && k.key in s.logs && k.version < |s.logs[k.key]|
      && Replayed(rs(k.reducer, k.schema), s.logs[k.key][..k.version + 1], Ok(s.snaps[k]))
  }

  lemma {:induction false} ConsistentAreReplays(rs: Reducers, s: System)
    requires Consistent(rs, s)
    ensures SnapshotsAreReplays(rs, s)
  {
    hide Replay, Replayed;
    forall k | k in s.snaps
      ensures k.key in s.logs && k.version < |s.logs[k.key]|
      ensures Replayed(rs(k.reducer, k.schema), s.logs[k.key][..k.version + 1], Ok(s.snaps[k]))
    {
      assert ValidSnapshot(rs(k.reducer, k.schema), LogOf(s.logs, k.key), k.version, s.snaps[k]);
      ReplayedExactly(rs(k.reducer, k.schema), s.logs[k.key][..k.version + 1], Ok(s.snaps[k]));
    }
  }

  const EMPTY := System(map[], map[], map[])

  /**
   `read_state` looks up a snapshot at one point of a run and reads events at a later one; its answer,
   errors included, is the replay from zero of the log at the later point.
   */
  lemma {:induction false} ReadStateIsReplay(rs: Reducers, before: seq<Step>, between: seq<Step>,
                                             key: Key, reducer: string, schema: nat, found: Option<Found>)
    requires IsLatest(Run(rs, EMPTY, before).snaps, key, reducer, schema, None, found)
    ensures var log := LogOf(Run(rs, Run(rs, EMPTY, before), between).logs, key);
            var answer := StateFrom(rs(reducer, schema), found, Slice(log, StartOf(found), None));
            answer == Replay(rs(reducer, schema), log) && Replayed(rs(reducer, schema), log, answer)
  {
    hide Replayed;
    var s := Run(rs, EMPTY, before);
    SnapshotsStayConsistent(rs, EMPTY, before);
    SnapshotsStayConsistent(rs, s, between);
    var log := LogOf(Run(rs, s, between).logs, key);
    FoundIsValid(rs, s, key, reducer, schema, None, found, log);
    StateFromIsReplay(rs(reducer, schema), found, log, None);
    assert Slice(log, 0, None) == log;
    ReplayedExactly(rs(reducer, schema), log, Replay(rs(reducer, schema), log));
  }

  lemma {:induction false} FoundIsValid(rs: Reducers, s: System, key: Key, reducer: string, schema: nat,
                                        bound: Option<int>, found: Option<Found>, log: seq<Bytes>)
    requires Consistent(rs, s) && IsLatest(s.snaps, key, reducer, schema, bound, found)
    requires LogOf(s.logs, key) <= log
    ensures found.Some? ==> ValidSnapshot(rs(reducer, schema), log, found.value.version, found.value.state)
  {
    if found.Some? {
      var top := SnapKey(key, reducer, schema, found.value.version);
      assert top in s.snaps;
      ValidStaysValid(rs(reducer, schema), LogOf(s.logs, key), log, found.value.version, found.value.state);
    }
  }

  /**
   `read_state_at_version` answers the replay of the rows up to `version` exactly as documented for
   versions below 2^63; from 2^63 on the cast to i64 is negative and it answers the initial state.
   */
  lemma {:induction false} ReadStateAtVersionIsReplay(rs: Reducers, before: seq<Step>, between: seq<Step>, key: Key,
                                                      reducer: string, schema: nat, version: u64, found: Option<Found>)
    requires IsLatest(Run(rs, EMPTY, before).snaps, key, reducer, schema, Some(AsI64(version)), found)
    ensures var log := LogOf(Run(rs, Run(rs, EMPTY, before), between).logs, key);
            var answer := StateFrom(rs(reducer, schema), found, Slice(log, StartOf(found), Some(AsI64(version))));
            var upTo := if version >= TWO_63 then [] else if version < |log| then log[..version + 1] else log;
            answer == Replay(rs(reducer, schema), upTo) && Replayed(rs(reducer, schema), upTo, answer)
  {
    hide Replayed;
    var s := Run(rs, EMPTY, before);
    SnapshotsStayConsistent(rs, EMPTY, before);
    SnapshotsStayConsistent(rs, s, between);
    var log := LogOf(Run(rs, s, between).logs, key);
    FoundIsValid(rs, s, key, reducer, schema, Some(AsI64(version)), found, log);
    StateFromIsReplay(rs(reducer, schema), found, log, Some(AsI64(version)));
    if version >= |log| && version < TWO_63 {
      assert Slice(log, 0, Some(AsI64(version))) == log;
    }
    var upTo := if version >= TWO_63 then [] else if version < |log| then log[..version + 1] else log;
    ReplayedExactly(rs(reducer, schema), upTo, Replay(rs(reducer, schema), upTo));
  }

  /**
   The documented promise fails from 2^63 on: with any reducer whose state moves, a huge version reads the initial
   state.
   */
  lemma {:induction false} HugeVersionReadsInitialState(rs: Reducers, key: Key, payload: Bytes, reducer: string,
                                                        schema: nat)
    requires var r := rs(reducer, schema); Replay(r, [payload]) != Replay(r, [])
    ensures var s := Run(rs, EMPTY, [Commit(key, payload)]);
            var log := LogOf(s.logs, key);
            && IsLatest(s.snaps, key, reducer, schema, Some(AsI64(TWO_63)), None)
            && StateFrom(rs(reducer, schema), None, Slice(log, 0, Some(AsI64(TWO_63))))
               != Replay(rs(reducer, schema), log)
  {
    var s := Do(rs, EMPTY, Commit(key, payload));
    assert Run(rs, EMPTY, [Commit(key, payload)]) == Run(rs, s, [Commit(key, payload)][1..]) == s;
    assert LogOf(s.logs, key) == [payload];
  }

  /**
   The JavaScript `readStateAtVersion`: the newest snapshot without a bound, used only when it is older than
   `version`, and then, in a second call, the events up to `version`.
   */
  function JsAnswer(r: Reducer, found: Option<Found>, log: seq<Bytes>, version: u64): Result<Bytes, StateError>
  {
    var used := if found.Some? && found.value.version < version then found else None;
    StateFrom(r, used, Slice(log, StartOf(used), Some(AsI64(version))))
  }

  /**
   Below 2^63 it answers the same replay, of the log as of its second call.  From 2^63 on it reads no
   events: it answers whatever the snapshot it used holds, or the initial state.
   */
  lemma {:induction false} JsReadStateAtVersionIsReplay(rs: Reducers, before: seq<Step>, between: seq<Step>, key: Key,
                                                        reducer: string, schema: nat, version: u64,
                                                        found: Option<Found>)
    requires IsLatest(Run(rs, EMPTY, before).snaps, key, reducer, schema, None, found)
    ensures var log := LogOf(Run(rs, Run(rs, EMPTY, before), between).logs, key);
            var r := rs(reducer, schema);
            JsAnswer(r, found, log, version)
            == if version < TWO_63 then Replay(r, if version < |log| then log[..version + 1] else log)
               else if found.Some? && found.value.version < version then Ok(found.value.state)
               else r.init
    ensures var log := LogOf(Run(rs, Run(rs, EMPTY, before), between).logs, key);
            version < TWO_63 ==>
              Replayed(rs(reducer, schema), if version < |log| then log[..version + 1] else log,
                       JsAnswer(rs(reducer, schema), found, log, version))
  {
    hide Replayed;
    var s := Run(rs, EMPTY, before);
    SnapshotsStayConsistent(rs, EMPTY, before);
    SnapshotsStayConsistent(rs, s, between);
    var log := LogOf(Run(rs, s, between).logs, key);
    var used := if found.Some? && found.value.version < version then found else None;
    FoundIsValid(rs, s, key, reducer, schema, None, found, log);
    if version < TWO_63 {
      StateFromIsReplay(rs(reducer, schema), used, log, Some(version));
      if version >= |log| {
        assert Slice(log, 0, Some(version)) == log;
      }
      var upTo := if version < |log| then log[..version + 1] else log;
      ReplayedExactly(rs(reducer, schema), upTo, Replay(rs(reducer, schema), upTo));
    }
  }

  /**
   An input for that: one event, a snapshot of it, a second event.  At version 2^63 the answer is the state
   after the first event, which is neither the replay nor the initial state that the Rust call answers.
   */
  lemma {:induction false} JsHugeVersionReadsSnapshot(rs: Reducers, key: Key, a: Bytes, b: Bytes, reducer: string,
                                                      schema: nat)
    requires var r := rs(reducer, schema);
      Replay(r, [a]).Ok? && Replay(r, [a, b]) != Replay(r, [a]) && Replay(r, []) != Replay(r, [a])
    ensures var r, version := rs(reducer, schema), TWO_63;
      var s := Run(rs, EMPTY, SnapshotBetween(key, a, b, reducer, schema));
      var found, log := Some(Found(0, Replay(r, [a]).value)), LogOf(s.logs, key);
      && IsLatest(s.snaps, key, reducer, schema, None, found) && log == [a, b]
      && JsAnswer(r, found, log, version) == Replay(r, [a])
      && JsAnswer(r, found, log, version) != Replay(r, log)
      && JsAnswer(r, found, log, version) != StateFrom(r, None, Slice(log, 0, Some(AsI64(version))))
  {
    var r := rs(reducer, schema);
    SnapshotTaken(rs, key, a, b, reducer, schema);
    var found := Some(Found(0, Replay(r, [a]).value));
    assert Slice([a, b], StartOf(found), Some(AsI64(TWO_63))) == [];
    assert Slice([a, b], 0, Some(AsI64(TWO_63))) == [];
    assert Fold(r, found.value.state, []) == Ok(found.value.state);
  }

  /** One event, a snapshot of it, a second event. */
  function SnapshotBetween(key: Key, a: Bytes, b: Bytes, reducer: string, schema: nat): seq<Step>
  {
    [Commit(key, a), Look(0, key, reducer, schema, None), Load(0), Write(0), Commit(key, b)]
  }

  lemma {:induction false} SnapshotTaken(rs: Reducers, key: Key, a: Bytes, b: Bytes, reducer: string, schema: nat)
    requires Replay(rs(reducer, schema), [a]).Ok?
    ensures var snap := map[SnapKey(key, reducer, schema, 0) := Replay(rs(reducer, schema), [a]).value];
            Run(rs, EMPTY, SnapshotBetween(key, a, b, reducer, schema)) == System(map[key := [a, b]], snap, map[])
  {
    hide Replay;
    var steps := SnapshotBetween(key, a, b, reducer, schema);
    var s1 := System(map[key := [a]], map[], map[]);
    assert Do(rs, EMPTY, steps[0]) == s1 by { assert [] + [a] == [a]; }
    var s2 := s1.(writers := map[0 := Looked(key, reducer, schema, None)]);
    assert Do(rs, s1, steps[1]) == s2 by { assert IsLatest(s1.snaps, key, reducer, schema, None, None); }
    var s3 := s1.(writers := map[0 := Loaded(key, reducer, schema, None, [a], 0)]);
    assert Do(rs, s2, steps[2]) == s3 by { assert LogOf(s2.logs, key) == [a] && Slice([a], 0, None) == [a]; }
    var s4 := System(map[key := [a]], map[SnapKey(key, reducer, schema, 0) := Replay(rs(reducer, schema), [a]).value],
      map[]);
    assert Do(rs, s3, steps[3]) == s4 by {
      assert StateFrom(rs(reducer, schema), None, [a]) == Replay(rs(reducer, schema), [a]);
    }
    var s5 := s4.(logs := map[key := [a, b]]);
    assert Do(rs, s4, steps[4]) == s5 by { assert [a] + [b] == [a, b]; }
    assert Run(rs, s5, []) == s5;
    assert Run(rs, EMPTY, steps) == s5 by {
      hide Do, Run;
      RunFrom(rs, EMPTY, steps, 0);
      RunFrom(rs, s1, steps, 1);
      RunFrom(rs, s2, steps, 2);
      RunFrom(rs, s3, steps, 3);
      RunFrom(rs, s4, steps, 4);
      assert steps[0..] == steps && steps[5..] == [];
    }
  }

  lemma {:induction false} RunFrom(rs: Reducers, s: System, steps: seq<Step>, k: nat)
    requires k < |steps|
    ensures Run(rs, s, steps[k..]) == Run(rs, Do(rs, s, steps[k]), steps[k + 1..])
  {
    assert steps[k..][1..] == steps[k + 1..];
  }

  // ----- The store's methods -----

  lemma {:induction false} NewestIsValid(rs: Reducers, logs: Logs, snaps: Snaps, key: Key, reducer: string, schema: nat,
                                         state: Bytes)
    requires ValidSnaps(rs, logs, snaps) && LogOf(logs, key) != []
    requires Replay(rs(reducer, schema), LogOf(logs, key)) == Ok(state)
    ensures ValidSnaps(rs, logs, snaps[SnapKey(key, reducer, schema, |LogOf(logs, key)| - 1) := state])
  {
    hide Replay;
    assert LogOf(logs, key)[..|LogOf(logs, key)|] == LogOf(logs, key);
  }

  class StateStore {
    var logs: Logs
    var snaps: Snaps

    constructor ()
      ensures logs == map[] && snaps == map[]
    {
      logs, snaps := map[], map[];
    }

    method FindLatestSnapshot(key: Key, reducer: string, schema: nat, maxVersion: Option<int>)
      returns (found: Option<Found>)
      ensures IsLatest(snaps, key, reducer, schema, maxVersion, found)
      ensures found.Some? ==> SnapKey(key, reducer, schema, found.value.version) in snaps
      ensures found.Some? ==> snaps[SnapKey(key, reducer, schema, found.value.version)] == found.value.state
      ensures found.Some? && maxVersion.Some? ==> found.value.version <= maxVersion.value
      ensures forall v: nat | SnapKey(key, reducer, schema, v) in snaps
              && (maxVersion.Some? ==> v <= maxVersion.value) ::
                found.Some? && v <= found.value.version
    {
      found := None;
      var rest := snaps.Keys;
      while rest != {}
        invariant rest <= snaps.Keys
        invariant found.None? ==> forall k | k in snaps.Keys - rest :: !Matches(k, key, reducer, schema, maxVersion)
        invariant found.Some? ==>
                    var top := SnapKey(key, reducer, schema, found.value.version);
                    && top in snaps && snaps[top] == found.value.state && Matches(top, key, reducer, schema, maxVersion)
                    && forall k | k in snaps.Keys - rest && Matches(k, key, reducer, schema, maxVersion) ::
                         k.version <= found.value.version
      {
        var k :| k in rest;
        if Matches(k, key, reducer, schema, maxVersion) && (found.None? || k.version > found.value.version) {
          found := Some(Found(k.version, snaps[k]));
        }
        rest := rest - {k};
      }
    }

    /** `snapshot_info_impl`: the newest version stored under the reducer's name, whatever its schema. */
    method SnapshotInfo(key: Key, reducer: string) returns (version: Option<nat>)
      ensures version.None? ==> forall k | k in snaps :: !(k.key == key && k.reducer == reducer)
      ensures version.Some? ==>
                && (exists k :: k in snaps && k.key == key && k.reducer == reducer && k.version == version.value)
                && forall k | k in snaps && k.key == key && k.reducer == reducer :: k.version <= version.value
    {
      version := None;
      var rest := snaps.Keys;
      while rest != {}
        invariant rest <= snaps.Keys
        invariant version.None? ==> forall k | k in snaps.Keys - rest :: !(k.key == key && k.reducer == reducer)
        invariant version.Some? ==>
                    && (exists k :: k in snaps && k.key == key && k.reducer == reducer && k.version == version.value)
                    && forall k | k in snaps.Keys - rest && k.key == key && k.reducer == reducer ::
                         k.version <= version.value
      {
        var k :| k in rest;
        if k.key == key && k.reducer == reducer && (version.None? || k.version > version.value) {
          version := Some(k.version);
        }
        rest := rest - {k};
      }
    }

    /** The loop that folds events into the state bytes and stops at the first error. */
    static method ApplyAll(r: Reducer, start: Bytes, events: seq<Bytes>) returns (state: Result<Bytes, StateError>)
      ensures state == Fold(r, start, events)
    {
      var bytes := start;
      assert events[0..] == events;
      for i := 0 to |events|
        invariant Fold(r, start, events) == Fold(r, bytes, events[i..])
      {
        assert events[i..][1..] == events[i + 1..];
        var next := r.apply(bytes, events[i]);
        if next.Err? {
          return next;
        }
        bytes := next.value;
      }
      return Ok(bytes);
    }

    /** `compute_state_bytes` and the fold after it, for `read_state` (no bound) and `read_state_at_version`. */
    method ReadState(rs: Reducers, key: Key, reducer: string, schema: nat, maxVersion: Option<u64>)
      returns (state: Result<Bytes, StateError>, ghost states: seq<Bytes>)
      requires ValidSnaps(rs, logs, snaps)
      ensures var log := if key in logs then logs[key] else [];
              var upTo := if maxVersion.None? then log
                          else if maxVersion.value >= TWO_63 then []
                          else if maxVersion.value < |log| then log[..maxVersion.value + 1] else log;
              state == Replay(rs(reducer, schema), upTo) && IsTrace(rs(reducer, schema), upTo, states, state)
    {
      hide IsTrace;
      var r := rs(reducer, schema);
      var bound := if maxVersion.Some? then Some(AsI64(maxVersion.value)) else None;
      var found := FindLatestSnapshot(key, reducer, schema, bound);
      ghost var log := LogOf(logs, key);
      StateFromIsReplay(r, found, log, bound);
      assert maxVersion.None? || |log| <= maxVersion.value < TWO_63 ==> Slice(log, 0, bound) == log;
      states := ReplayTraces(r, Slice(log, 0, bound));
      if found.None? && r.init.Err? {
        return r.init, states;
      }
      var start := if found.Some? then found.value.state else r.init.value;
      var events := Slice(LogOf(logs, key), StartOf(found), bound);
      state := ApplyAll(r, start, events);
    }

    /** `take_snapshot` without interference: the newest state is stored under the newest version. */
    method TakeSnapshot(rs: Reducers, key: Key, reducer: string, schema: nat)
      returns (version: Result<nat, StateError>, ghost states: seq<Bytes>)
      requires ValidSnaps(rs, logs, snaps)
      modifies this`snaps
      ensures ValidSnaps(rs, logs, snaps)
      ensures var log, r := if key in logs then logs[key] else [], rs(reducer, schema);
              match version
              case Ok(v) => && log != [] && v == |log| - 1 && Replay(r, log).Ok?
                            && snaps == old(snaps)[SnapKey(key, reducer, schema, v) := Replay(r, log).value]
              case Err(e) => snaps == old(snaps) && (log == [] || Replay(r, log) == Err(e))
      ensures var log, r := if key in logs then logs[key] else [], rs(reducer, schema);
              IsTrace(r, log, states, Replay(r, log))
    {
      hide IsTrace;
      var r := rs(reducer, schema);
      var found := FindLatestSnapshot(key, reducer, schema, None);
      var log := LogOf(logs, key);
      StateFromIsReplay(r, found, log, None);
      assert Slice(log, 0, None) == log;
      states := ReplayTraces(r, log);
      if found.None? && r.init.Err? {
        return Err(r.init.error), states;
      }
      var start := if found.Some? then found.value.state else r.init.value;
      var events := Slice(log, StartOf(found), None);
      if events == [] {
        if found.Some? {
          var top := SnapKey(key, reducer, schema, found.value.version);
          assert log[..found.value.version + 1] == log;
          assert snaps == snaps[top := found.value.state];
          var info := SnapshotInfo(key, reducer);
          if info.None? {
            return Err(NoEventsToSnapshot), states;
          }
          assert info.value == |log| - 1;
          return Ok(info.value), states;
        }
        return Err(NoEventsToSnapshot), states;
      }
      var state := ApplyAll(r, start, events);
      if state.Err? {
        return Err(state.error), states;
      }
      NewestIsValid(rs, logs, snaps, key, reducer, schema, state.value);
      snaps := snaps[SnapKey(key, reducer, schema, |log| - 1) := state.value];
      return Ok(|log| - 1), states;
    }

    /** Deletes exactly the snapshots of unregistered (reducer, schema) pairs and counts them. */
    method GcOrphanedSnapshots(active: set<(string, nat)>) returns (total: nat)
      modifies this`snaps
      ensures snaps == map k | k in old(snaps) && (k.reducer, k.schema) in active :: old(snaps)[k]
      ensures total == |old(snaps)| - |snaps|
    {
      if active == {} {
        total := |snaps|;
        snaps := map[];
        return;
      }
      var existing := set k | k in snaps :: (k.reducer, k.schema);
      total := 0;
      while existing != {}
        invariant forall k | k in old(snaps) && k !in snaps :: (k.reducer, k.schema) !in active
        invariant forall k | k in snaps :: k in old(snaps) && snaps[k] == old(snaps)[k]
        invariant forall k | k in snaps && (k.reducer, k.schema) !in active :: (k.reducer, k.schema) in existing
        invariant total == |old(snaps)| - |snaps|
      {
        var pair :| pair in existing;
        if pair !in active {
          var kept := Without(snaps, pair.0, pair.1);
          SubmapSmaller(kept, snaps);
          total := total + (|snaps| - |kept|);
          snaps := kept;
        }
        existing := existing - {pair};
      }
    }
  }

  lemma {:induction false} SubmapSmaller(a: Snaps, b: Snaps)
    requires a.Keys <= b.Keys
    ensures |a| <= |b|
  {
    KeysSmaller(a.Keys, b.Keys);
    assert |a| == |a.Keys| && |b| == |b.Keys|;
  }

  lemma {:induction false} KeysSmaller(a: set<SnapKey>, b: set<SnapKey>)
    requires a <= b
    ensures |a| <= |b|
  {
    if a != {} {
      var k :| k in a;
      KeysSmaller(a - {k}, b - {k});
    }
  }
}
