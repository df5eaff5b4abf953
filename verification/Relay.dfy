/**
 Relaying a local store's events to a shared hub (fossic-py/python/fossic/relay.py), on the append path of
 `Appends`.  Because ids are derived from content and cause, a relayed event keeps its id.

 `hex` is the hexadecimal form of an id, under which the hub files a relayed event; the payload the relay
 passes on is the value the local event was appended with.
 */
module Relay {
  import opened Types
  import opened Cce
  import opened Events
  import opened Appends

  type Hex = EventId -> string

  ghost predicate Injective(hex: Hex)
  {
    forall a, b :: hex(a) == hex(b) ==> a == b
  }

  // ----- Stream names -----

  /** The prefix is added unless the stream already carries it. */
  function HubStream(prefix: string, stream: string): (hub: string)
    ensures prefix + "/" <= hub
    ensures prefix + "/" <= stream ==> hub == stream
  {
    if prefix + "/" <= stream then stream else prefix + "/" + stream
  }

  /**
   Naming twice changes nothing, and two streams share a hub stream exactly when one is the other with the prefix put
   on.
   */
  lemma {:induction false} HubStreamsCollideExactly(prefix: string, a: string, b: string)
    ensures HubStream(prefix, HubStream(prefix, a)) == HubStream(prefix, a)
    ensures HubStream(prefix, a) == HubStream(prefix, b) <==>
      || a == b
      || (a == prefix + "/" + b && !(prefix + "/" <= b))
      || (b == prefix + "/" + a && !(prefix + "/" <= a))
  {
    var p := prefix + "/";
    assert (p + a)[|p|..] == a && (p + b)[|p|..] == b;
  }

  // ----- Lookups -----

  /** `read_by_external_id`. */
  function ByExternalId(rows: seq<Row>, stream: string, externalId: string): Option<Row>
  {
    if rows == [] then None
    else if rows[0].stream == stream && rows[0].externalId == Some(externalId) then Some(rows[0])
    else ByExternalId(rows[1..], stream, externalId)
  }

  /** `read_one`. */
  function ReadOne(rows: seq<Row>, id: EventId): Option<Row>
  {
    if rows == [] then None else if rows[0].id == id then Some(rows[0]) else ReadOne(rows[1..], id)
  }

  lemma {:induction false} ExternalIdFound(rows: seq<Row>, stream: string, externalId: string)
    ensures match ByExternalId(rows, stream, externalId)
      case Some(r) => r in rows && r.stream == stream && r.externalId == Some(externalId)
      case None => forall r | r in rows :: !(r.stream == stream && r.externalId == Some(externalId))
  {
    if rows != [] {
      ExternalIdFound(rows[1..], stream, externalId);
      assert rows == [rows[0]] + rows[1..];
    }
  }

  // ----- The relay -----

  function Translate(hex: Hex, local: seq<Row>, hub: seq<Row>, prefix: string, cause: Option<EventId>): Option<EventId>
  {
    if cause.None? then None
    else match ReadOne(local, cause.value)
      case None => cause
      case Some(localCause) =>
        match ByExternalId(hub, HubStream(prefix, localCause.stream), hex(cause.value))
        case Some(hubCause) => Some(hubCause.id)
        case None => cause
  }

  /** What `relay_append` sends to the hub. */
  function Relayed(hex: Hex, local: seq<Row>, hub: seq<Row>, prefix: string, event: Row, now: int): Append
  {
    Append(HubStream(prefix, event.stream), event.branch, event.eventType, event.typeVersion, event.payload,
           event.content,
           Translate(hex, local, hub, prefix, event.cause), None, Some(hex(event.id)), true, now)
  }

  datatype Agent = Agent(prefix: string, filter: set<Bytes>)

  predicate ShouldRelay(agent: Agent, event: Row)
  {
    agent.filter == {} || event.eventType in agent.filter
  }

  /** `relay_event`: true when the append went through, false when filtered out or already present. */
  function RelayEvent(nfc: Nfc, hex: Hex, agent: Agent, local: seq<Row>, hub: Db, event: Row, now: int)
    : (Db, Result<bool, AppendError>)
  {
    if !ShouldRelay(agent, event) then (hub, Ok(false))
    else if ByExternalId(hub.rows, HubStream(agent.prefix, event.stream), hex(event.id)).Some? then (hub, Ok(false))
    else match AppendOne(nfc, hub, Relayed(hex, local, hub.rows, agent.prefix, event, now))
      case (after, Ok(_)) => (after, Ok(true))
      case (after, Err(e)) => (after, Err(e))
  }

  // ----- Identity -----

  /** Hub rows filed under the hexadecimal form of an id have that id. */
  ghost predicate Faithful(hex: Hex, hub: seq<Row>)
  {
    forall r, id | r in hub && r.externalId == Some(hex(id)) :: r.id == id
  }

  /** On a faithful hub, translating a cause returns the very id it was given. */
  lemma {:induction false} TranslationIsIdentity(hex: Hex, local: seq<Row>, hub: seq<Row>, prefix: string,
                                                 cause: Option<EventId>)
    requires Faithful(hex, hub)
    ensures Translate(hex, local, hub, prefix, cause) == cause
  {
    if cause.Some? && ReadOne(local, cause.value).Some? {
      ExternalIdFound(hub, HubStream(prefix, ReadOne(local, cause.value).value.stream), hex(cause.value));
    }
  }

  ghost predicate FromSoundStore(nfc: Nfc, local: seq<Row>, event: Row)
  {
    Sound(nfc, local) && event in local
  }

  lemma {:induction false} RelayedIdIsLocalId(nfc: Nfc, hex: Hex, agent: Agent, local: seq<Row>, hub: seq<Row>,
                                              event: Row, now: int)
    requires Faithful(hex, hub) && FromSoundStore(nfc, local, event)
    ensures Prepare(nfc, Relayed(hex, local, hub, agent.prefix, event, now)) == Ok(event.id)
  {
    hide Faithful, DeriveId;
    TranslationIsIdentity(hex, local, hub, agent.prefix, event.cause);
    assert ContentAddressed(nfc, event);
  }

  ghost function Ids(rows: seq<Row>): iset<EventId>
  {
    iset r | r in rows :: r.id
  }

  /**
   One relay: the hub stays faithful, grows, gains exactly the event's id, and fails exactly on an undeclared stream.
   */
  lemma {:induction false} RelayKeepsIdentity(nfc: Nfc, hex: Hex, agent: Agent, local: seq<Row>, hub: Db, event: Row,
                                              now: int)
    requires Injective(hex) && Faithful(hex, hub.rows) && FromSoundStore(nfc, local, event)
    ensures var (after, r) := RelayEvent(nfc, hex, agent, local, hub, event, now);
      && Faithful(hex, after.rows) && hub.rows <= after.rows && after.streams == hub.streams
      && (r.Err? ==> after == hub && HubStream(agent.prefix, event.stream) !in hub.streams)
      && (r.Ok? && ShouldRelay(agent, event) ==> Ids(after.rows) == Ids(hub.rows) + iset{event.id})
      && (!ShouldRelay(agent, event) ==> after == hub)
  {
    hide Sound, Prepare, DeriveId, Translate, HubStream;
    var a := Relayed(hex, local, hub.rows, agent.prefix, event, now);
    ExternalIdFound(hub.rows, HubStream(agent.prefix, event.stream), hex(event.id));
    RelayedIdIsLocalId(nfc, hex, agent, local, hub.rows, event, now);
    if ByExternalId(hub.rows, HubStream(agent.prefix, event.stream), hex(event.id)).Some? {
      var r := ByExternalId(hub.rows, HubStream(agent.prefix, event.stream), hex(event.id)).value;
      assert r.id == event.id && r in hub.rows;
    } else if a.stream in hub.streams {
      WriteAddsId(hub.rows, a, event.id);
      WriteKeepsFaithful(hex, hub.rows, a, event.id);
    }
  }

  lemma {:induction false} WriteAddsId(rows: seq<Row>, a: Append, id: EventId)
    ensures rows <= Write(rows, a, id).0 && Ids(Write(rows, a, id).0) == Ids(rows) + iset{id}
  {
    ConflictIsDuplicateId(rows, a, id);
    var row := RowOf(a, id, NextVersion(rows, a.stream, a.branch));
    if Write(rows, a, id).1.isNew {
      assert row in rows + [row] && row.id == id;
      forall r | r in rows ensures r in rows + [row] { }
    } else {
      var r :| r in rows && r.id == id;
    }
  }

  lemma {:induction false} WriteKeepsFaithful(hex: Hex, rows: seq<Row>, a: Append, id: EventId)
    requires Injective(hex) && Faithful(hex, rows) && (a.externalId.None? || a.externalId == Some(hex(id)))
    ensures Faithful(hex, Write(rows, a, id).0)
  {
  }

  // ----- Whole runs -----

  /**
   A relay by any agent from any sound local store, in any order and any number of times, or someone else's
   hub append or declaration of a hub stream.
   */
  datatype Step =
    | Relay(agent: Agent, local: seq<Row>, event: Row, now: int)
    | HubAppend(a: Append)
    | Declare(stream: string)

  /** The only assumption on others: they leave external ids to the relays. */
  ghost predicate Allowed(nfc: Nfc, step: Step)
  {
    match step
    case Relay(_, local, event, _) => FromSoundStore(nfc, local, event)
    case HubAppend(a) => a.externalId.None?
    case Declare(_) => true
  }

  function Do(nfc: Nfc, hex: Hex, hub: Db, step: Step): Db
  {
    match step
    case Relay(agent, local, event, now) => RelayEvent(nfc, hex, agent, local, hub, event, now).0
    case HubAppend(a) => AppendOne(nfc, hub, a).0
    case Declare(stream) => hub.(streams := hub.streams + {stream})
  }

  function Run(nfc: Nfc, hex: Hex, hub: Db, steps: seq<Step>): Db
    decreases |steps|
  {
    if steps == [] then hub else Run(nfc, hex, Do(nfc, hex, hub, steps[0]), steps[1..])
  }

  lemma {:induction false} StepKeepsFaithful(nfc: Nfc, hex: Hex, hub: Db, step: Step)
    requires Injective(hex) && Faithful(hex, hub.rows) && Allowed(nfc, step)
    ensures var after := Do(nfc, hex, hub, step);
      Faithful(hex, after.rows) && hub.rows <= after.rows && hub.streams <= after.streams
  {
    hide Prepare, Write, Faithful, FromSoundStore, RelayEvent;
    match step
    case Relay(agent, local, event, now) => RelayKeepsIdentity(nfc, hex, agent, local, hub, event, now);
    case HubAppend(a) =>
      if Prepare(nfc, a).Ok? {
        WriteAddsId(hub.rows, a, Prepare(nfc, a).value);
        WriteKeepsFaithful(hex, hub.rows, a, Prepare(nfc, a).value);
      }
    case Declare(_) =>
  }

  lemma {:induction false} RunKeepsFaithful(nfc: Nfc, hex: Hex, hub: Db, steps: seq<Step>)
    requires Injective(hex) && Faithful(hex, hub.rows) && forall step | step in steps :: Allowed(nfc, step)
    ensures var after := Run(nfc, hex, hub, steps);
      Faithful(hex, after.rows) && hub.rows <= after.rows && hub.streams <= after.streams
    decreases |steps|
  {
    hide Faithful, Do, Allowed;
    if steps != [] {
      assert steps[0] in steps && forall step | step in steps[1..] :: step in steps;
      StepKeepsFaithful(nfc, hex, hub, steps[0]);
      RunKeepsFaithful(nfc, hex, Do(nfc, hex, hub, steps[0]), steps[1..]);
    }
  }

  /** In every reachable hub, every cause translates to itself, and a row filed under a local event has its id. */
  lemma {:induction false} EveryRunKeepsIdentity(nfc: Nfc, hex: Hex, hub: Db, steps: seq<Step>, local: seq<Row>,
                                                 event: Row, prefix: string)
    requires Injective(hex) && hub.rows == [] && forall step | step in steps :: Allowed(nfc, step)
    ensures var after := Run(nfc, hex, hub, steps);
      && Translate(hex, local, after.rows, prefix, event.cause) == event.cause
      && forall r | r in after.rows && r.externalId == Some(hex(event.id)) :: r.id == event.id
  {
    hide Run, Translate, Allowed;
    RunKeepsFaithful(nfc, hex, hub, steps);
    TranslationIsIdentity(hex, local, Run(nfc, hex, hub, steps).rows, prefix, event.cause);
  }

  lemma {:induction false} KnownIdRelaysToNothing(nfc: Nfc, hex: Hex, agent: Agent, local: seq<Row>, hub: Db,
                                                  event: Row, now: int)
    requires Faithful(hex, hub.rows) && FromSoundStore(nfc, local, event) && event.id in Ids(hub.rows)
    ensures RelayEvent(nfc, hex, agent, local, hub, event, now).0 == hub
  {
    hide Sound, Prepare, DeriveId, Translate, HubStream;
    RelayedIdIsLocalId(nfc, hex, agent, local, hub.rows, event, now);
    ConflictIsDuplicateId(hub.rows, Relayed(hex, local, hub.rows, agent.prefix, event, now), event.id);
  }

  /** Once an event was relayed, relaying it again leaves the hub unchanged, whatever happened in between. */
  lemma {:induction false} RelayingAgainChangesNothing(nfc: Nfc, hex: Hex, agent: Agent, local: seq<Row>, hub: Db,
                                                       event: Row, now: int,
                                                       steps: seq<Step>, later: seq<Row>, again: int)
    requires Injective(hex) && Faithful(hex, hub.rows)
    requires FromSoundStore(nfc, local, event) && FromSoundStore(nfc, later, event)
    requires RelayEvent(nfc, hex, agent, local, hub, event, now).1.Ok?
    requires forall step | step in steps :: Allowed(nfc, step)
    ensures var after := Run(nfc, hex, RelayEvent(nfc, hex, agent, local, hub, event, now).0, steps);
      RelayEvent(nfc, hex, agent, later, after, event, again).0 == after
  {
    hide Run, Allowed, FromSoundStore, Faithful, RelayEvent, ShouldRelay;
    var relayed := RelayEvent(nfc, hex, agent, local, hub, event, now).0;
    RelayKeepsIdentity(nfc, hex, agent, local, hub, event, now);
    RunKeepsFaithful(nfc, hex, relayed, steps);
    var after := Run(nfc, hex, relayed, steps);
    if ShouldRelay(agent, event) {
      assert event.id in Ids(relayed.rows);
      IdsGrow(relayed.rows, after.rows);
      KnownIdRelaysToNothing(nfc, hex, agent, later, after, event, again);
    } else {
      RelayKeepsIdentity(nfc, hex, agent, later, after, event, again);
    }
  }

  lemma {:induction false} IdsGrow(rows: seq<Row>, more: seq<Row>)
    requires rows <= more
    ensures Ids(rows) <= Ids(more)
  {
    forall r | r in rows ensures r in more { var i :| 0 <= i < |rows| && rows[i] == r; assert more[i] == r; }
  }

  /** The events of the steps that are relays through an open filter. */
  ghost function RelayedIds(steps: seq<Step>): iset<EventId>
  {
    iset step | step in steps && step.Relay? && ShouldRelay(step.agent, step.event) :: step.event.id
  }

  /** Each relay finds its hub stream declared, at first or by an earlier step. */
  ghost predicate DeclaredInTime(streams: set<string>, steps: seq<Step>)
    decreases |steps|
  {
    steps != [] ==>
      && (steps[0].Relay? ==> HubStream(steps[0].agent.prefix, steps[0].event.stream) in streams)
      && DeclaredInTime(if steps[0].Declare? then streams + {steps[0].stream} else streams, steps[1..])
  }

  /**
   Relays and declarations alone, each hub stream declared in time: the hub ends with its former ids and those
   of the relayed events, so order, repetition and retries make no difference to it.
   */
  lemma {:induction false} RelaysConverge(nfc: Nfc, hex: Hex, hub: Db, steps: seq<Step>)
    requires Injective(hex) && Faithful(hex, hub.rows) && DeclaredInTime(hub.streams, steps)
    requires forall step | step in steps :: !step.HubAppend? && Allowed(nfc, step)
    ensures Ids(Run(nfc, hex, hub, steps).rows) == Ids(hub.rows) + RelayedIds(steps)
    decreases |steps|
  {
    hide Faithful, FromSoundStore, RelayEvent, ShouldRelay, Ids, HubStream;
    if steps != [] {
      var first, rest := steps[0], steps[1..];
      assert first in steps && steps == [first] + rest && forall step | step in rest :: step in steps;
      if first.Relay? {
        RelayKeepsIdentity(nfc, hex, first.agent, first.local, hub, first.event, first.now);
      }
      RelaysConverge(nfc, hex, Do(nfc, hex, hub, first), rest);
      RelayedIdsSplit(first, rest);
    }
  }

  lemma {:induction false} RelayedIdsSplit(first: Step, rest: seq<Step>)
    ensures RelayedIds([first] + rest)
         == (if first.Relay? && ShouldRelay(first.agent, first.event) then iset{first.event.id} else iset{})
           + RelayedIds(rest)
  {
    hide ShouldRelay;
    assert forall step :: step in [first] + rest <==> step == first || step in rest;
  }

  // ----- The agent -----

  /**
   What one relay means: the hub stays faithful and holds exactly one id more, the event's own, unless filtered or
   refused.
   */
  ghost predicate Carried(hex: Hex, agent: Agent, hub: Db, after: Db, event: Row, r: Result<bool, AppendError>)
  {
    && Faithful(hex, after.rows) && hub.rows <= after.rows && after.streams == hub.streams
    && (r.Err? ==> HubStream(agent.prefix, event.stream) !in hub.streams)
    && Ids(after.rows) == Ids(hub.rows) + (
         if r.Ok? && (agent.filter == {} || event.eventType in agent.filter) then iset{event.id} else iset{})
  }

  /** The hub's row of an event: its own content and id under the hub's name for its stream, filed under its id. */
  predicate IsCopy(hex: Hex, agent: Agent, event: Row, row: Row, now: int)
  {
    && row.stream == (if agent.prefix + "/" <= event.stream then event.stream else agent.prefix + "/" + event.stream)
    && row.branch == event.branch && row.eventType == event.eventType && row.typeVersion == event.typeVersion
    && row.payload == event.payload && row.content == event.content && row.cause == event.cause && row.id == event.id
    && row.externalId == Some(hex(event.id)) && row.correlation == None && row.timestamp == now
  }

  /** One relay adds nothing or the copy of the event. */
  lemma {:induction false} RelayCopies(nfc: Nfc, hex: Hex, agent: Agent, local: seq<Row>, hub: Db, event: Row, now: int)
    requires Faithful(hex, hub.rows) && FromSoundStore(nfc, local, event)
    ensures var after := RelayEvent(nfc, hex, agent, local, hub, event, now).0.rows;
            after == hub.rows || exists row :: after == hub.rows + [row] && IsCopy(hex, agent, event, row, now)
  {
    hide Faithful, FromSoundStore, Prepare, NextVersion, Translate;
    var a := Relayed(hex, local, hub.rows, agent.prefix, event, now);
    RelayedIdIsLocalId(nfc, hex, agent, local, hub.rows, event, now);
    TranslationIsIdentity(hex, local, hub.rows, agent.prefix, event.cause);
    var row := RowOf(a, event.id, NextVersion(hub.rows, a.stream, a.branch));
    assert IsCopy(hex, agent, event, row, now);
  }

  /** The translation of a cause on any hub: its copy's id where there is one, else the cause itself. */
  lemma {:induction false} TranslationExactly(hex: Hex, local: seq<Row>, hub: seq<Row>, prefix: string,
                                              cause: EventId)
    requires UniqueIds(local)
    ensures var t := Translate(hex, local, hub, prefix, Some(cause));
            || (t == Some(cause)
                && forall l, h | l in local && l.id == cause && h in hub && h.stream == HubStream(prefix, l.stream) ::
                     h.externalId != Some(hex(cause)))
            || exists l, h :: l in local && l.id == cause && h in hub && h.stream == HubStream(prefix, l.stream)
                              && h.externalId == Some(hex(cause)) && t == Some(h.id)
  {
    hide HubStream;
    ReadOneExactly(local, cause);
    if ReadOne(local, cause).Some? {
      var l := ReadOne(local, cause).value;
      ExternalIdFound(hub, HubStream(prefix, l.stream), hex(cause));
      assert forall other | other in local && other.id == cause :: other == l;
    }
  }

  lemma {:induction false} ReadOneExactly(rows: seq<Row>, id: EventId)
    ensures match ReadOne(rows, id)
      case Some(r) => r in rows && r.id == id
      case None => forall r | r in rows :: r.id != id
  {
    if rows != [] {
      ReadOneExactly(rows[1..], id);
      assert rows == [rows[0]] + rows[1..];
    }
  }

  lemma {:induction false} CarriedAlways(nfc: Nfc, hex: Hex, agent: Agent, local: seq<Row>, hub: Db, event: Row,
                                         now: int)
    ensures Injective(hex) && Faithful(hex, hub.rows) && FromSoundStore(nfc, local, event) ==>
              var (after, r) := RelayEvent(nfc, hex, agent, local, hub, event, now);
              Carried(hex, agent, hub, after, event, r)
  {
    hide Injective, Faithful, FromSoundStore, RelayEvent, HubStream;
    if Injective(hex) && Faithful(hex, hub.rows) && FromSoundStore(nfc, local, event) {
      RelayKeepsIdentity(nfc, hex, agent, local, hub, event, now);
      var (after, r) := RelayEvent(nfc, hex, agent, local, hub, event, now);
      assert Ids(hub.rows) + iset{} == Ids(hub.rows);
      assert r.Err? || !ShouldRelay(agent, event) ==> after == hub;
    }
  }

  /** What goes wrong around one attempt: nothing, a failure before the hub commits, or one reported after it did. */
  datatype Fault = NoFault | FailsBefore | FailsAfter

  datatype RelayError = Refused(error: AppendError) | Lost

  /** What the caller of one attempt sees; only an append can fail after the hub committed. */
  function Seen(r: Result<bool, AppendError>, fault: Fault): Result<bool, RelayError>
  {
    match r
    case Err(e) => Err(Refused(e))
    case Ok(appended) => if appended && fault.FailsAfter? then Err(Lost) else Ok(appended)
  }

  class RelayAgent {
    const agent: Agent
    const maxAttempts: nat
    var local: Db
    var hub: Db
    var lastEventVersion: int

    constructor (agent: Agent, maxAttempts: nat, local: Db, hub: Db)
      ensures this.agent == agent && this.maxAttempts == maxAttempts
      ensures this.local == local && this.hub == hub && lastEventVersion == -1
    {
      this.agent, this.maxAttempts, this.local, this.hub, lastEventVersion := agent, maxAttempts, local, hub, -1;
    }

    /** The last version advances only when the append returned. */
    method RelayOne(nfc: Nfc, hex: Hex, event: Row, now: int, fault: Fault) returns (r: Result<bool, RelayError>)
      modifies `hub, `lastEventVersion
      ensures lastEventVersion == if r == Ok(true) then event.version else old(lastEventVersion)
      ensures fault.FailsBefore? ==> hub == old(hub) && r == if ShouldRelay(agent, event) then Err(Lost) else Ok(false)
      ensures !fault.FailsBefore? ==>
                var (after, done) := RelayEvent(nfc, hex, agent, local.rows, old(hub), event, now);
                && hub == after && r == Seen(done, fault)
                && (Injective(hex) && Faithful(hex, old(hub).rows) && FromSoundStore(nfc, local.rows, event)
                    ==> Carried(hex, agent, old(hub), hub, event, done))
      ensures Faithful(hex, old(hub).rows) && FromSoundStore(nfc, local.rows, event) ==>
                || hub.rows == old(hub).rows
                || exists row :: hub.rows == old(hub).rows + [row] && IsCopy(hex, agent, event, row, now)
    {
      hide Injective, Faithful, FromSoundStore, Carried, IsCopy;
      CarriedAlways(nfc, hex, agent, local.rows, hub, event, now);
      if Faithful(hex, hub.rows) && FromSoundStore(nfc, local.rows, event) {
        RelayCopies(nfc, hex, agent, local.rows, hub, event, now);
      }
      if !ShouldRelay(agent, event) {
        return Ok(false);
      }
      if fault.FailsBefore? {
        return Err(Lost);
      }
      var hubStream := HubStream(agent.prefix, event.stream);
      if ByExternalId(hub.rows, hubStream, hex(event.id)).Some? {
        return Ok(false);
      }
      var a := Relayed(hex, local.rows, hub.rows, agent.prefix, event, now);
      var (after, appended) := AppendOne(nfc, hub, a);
      hub := after;
      if appended.Err? {
        return Err(Refused(appended.error));
      }
      if fault.FailsAfter? {
        return Err(Lost);
      }
      lastEventVersion := event.version;
      r := Ok(true);
    }

    /**
     However the attempts fail, the hub ends as after one relay, at the first attempt that reached it, or unchanged if
     none did.  The last version advances exactly if that attempt appended and returned, and never if none returned.
     */
    method RelayWithRetry(nfc: Nfc, hex: Hex, event: Row, now: nat -> int, faults: seq<Fault>)
      requires Injective(hex) && Faithful(hex, hub.rows)
      requires FromSoundStore(nfc, local.rows, event) && |faults| == maxAttempts
      modifies `hub, `lastEventVersion
      ensures Faithful(hex, hub.rows)
      ensures (forall i | 0 <= i < maxAttempts :: faults[i] == FailsBefore) ==> hub == old(hub)
      ensures forall k: nat | FirstReaching(faults, k) ::
              hub == RelayEvent(nfc, hex, agent, local.rows, old(hub), event, now(k)).0
      ensures lastEventVersion == old(lastEventVersion) || lastEventVersion == event.version
      ensures (forall i | 0 <= i < maxAttempts :: faults[i] != NoFault) ==> lastEventVersion == old(lastEventVersion)
      ensures forall k: nat | FirstReaching(faults, k) && faults[k] == NoFault ::
              lastEventVersion == if RelayEvent(nfc, hex, agent, local.rows, old(hub), event, now(k)).1 == Ok(true)
                                  then event.version else old(lastEventVersion)
    {
      hide RelayEvent, Faithful, FromSoundStore, ShouldRelay;
      if !ShouldRelay(agent, event) {
        forall k: nat ensures RelayEvent(nfc, hex, agent, local.rows, hub, event, now(k)) == (hub, Ok(false)) {
          FilteredOut(nfc, hex, agent, local.rows, hub, event, now(k));
        }
      }
      var attempt := 0;
      while attempt < maxAttempts
        invariant attempt <= maxAttempts && local == old(local) && Faithful(hex, hub.rows)
        invariant (forall i | 0 <= i < attempt :: faults[i] == FailsBefore) ==> hub == old(hub)
        invariant !ShouldRelay(agent, event) ==> hub == old(hub)
        invariant forall k: nat | FirstReaching(faults, k) && k < attempt ::
          hub == RelayEvent(nfc, hex, agent, local.rows, old(hub), event, now(k)).0
        invariant lastEventVersion == old(lastEventVersion)
        invariant forall k: nat | FirstReaching(faults, k) && k < attempt && faults[k] == NoFault ::
          RelayEvent(nfc, hex, agent, local.rows, old(hub), event, now(k)).1.Err?
      {
        ghost var before := hub;
        RelayKeepsIdentity(nfc, hex, agent, local.rows, hub, event, now(attempt));
        forall k: nat | FirstReaching(faults, k) && k < attempt
          ensures RelayEvent(nfc, hex, agent, local.rows, before, event, now(attempt)).0 == before
          ensures RelayEvent(nfc, hex, agent, local.rows, old(hub), event, now(k)).1.Err? ==>
            RelayEvent(nfc, hex, agent, local.rows, before, event, now(attempt)).1 != Ok(true)
        {
          RetryChangesNothing(nfc, hex, agent, local.rows, old(hub), event, now(k), now(attempt));
        }
        var r := RelayOne(nfc, hex, event, now(attempt), faults[attempt]);
        if r.Ok? {
          if faults[attempt] != FailsBefore {
            LaterOnesNotFirst(faults, attempt);
          }
          return;
        }
        attempt := attempt + 1;
      }
    }
  }

  lemma {:induction false} FilteredOut(nfc: Nfc, hex: Hex, agent: Agent, local: seq<Row>, hub: Db, event: Row, now: int)
    requires !ShouldRelay(agent, event)
    ensures RelayEvent(nfc, hex, agent, local, hub, event, now) == (hub, Ok(false))
  {
  }

  predicate FirstReaching(faults: seq<Fault>, k: nat)
  {
    k < |faults| && faults[k] != FailsBefore && forall i | 0 <= i < k :: faults[i] == FailsBefore
  }

  lemma {:induction false} LaterOnesNotFirst(faults: seq<Fault>, attempt: nat)
    requires attempt < |faults| && faults[attempt] != FailsBefore
    ensures forall k: nat | FirstReaching(faults, k) :: k <= attempt
  {
  }

  lemma {:induction false} RetryChangesNothing(nfc: Nfc, hex: Hex, agent: Agent, local: seq<Row>, hub: Db, event: Row,
                                               now: int, again: int)
    requires Injective(hex) && Faithful(hex, hub.rows) && FromSoundStore(nfc, local, event)
    ensures var after := RelayEvent(nfc, hex, agent, local, hub, event, now).0;
      && RelayEvent(nfc, hex, agent, local, after, event, again).0 == after
      && (RelayEvent(nfc, hex, agent, local, hub, event, now).1.Err? ==>
            RelayEvent(nfc, hex, agent, local, after, event, again).1 != Ok(true))
  {
    hide RelayEvent, FromSoundStore, Faithful;
    if RelayEvent(nfc, hex, agent, local, hub, event, now).1.Ok? {
      RelayingAgainChangesNothing(nfc, hex, agent, local, hub, event, now, [], local, again);
    } else {
      RelayKeepsIdentity(nfc, hex, agent, local, hub, event, now);
      RelayKeepsIdentity(nfc, hex, agent, local, hub, event, again);
      FailureRepeats(nfc, hex, agent, local, hub, event, again);
    }
  }

  lemma {:induction false} FailureRepeats(nfc: Nfc, hex: Hex, agent: Agent, local: seq<Row>, hub: Db, event: Row,
                                          again: int)
    requires HubStream(agent.prefix, event.stream) !in hub.streams
    ensures RelayEvent(nfc, hex, agent, local, hub, event, again).0 == hub
    ensures RelayEvent(nfc, hex, agent, local, hub, event, again).1 != Ok(true)
  {
    hide Prepare;
  }
}
