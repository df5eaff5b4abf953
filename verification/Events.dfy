/**
 One row of the `events` table (src/schema.rs), which is also the `StoredEvent` a read returns, and the pages of bounded
 reads.
 */
module Events {
  import opened Types
  import opened Cce

  /**
   `payload` is the stored msgpack blob and `content` the JSON value it decodes to.  `Id` is the type
   of 32-byte event ids: a number where only their byte order matters (big-endian, so byte order is
   number order), a free datatype where their derivation matters.
   */
  datatype Event<Id> = Event(
    id: Id,
    stream: string,
    branch: string,
    version: nat,
    timestamp: int,
    cause: Option<Id>,
    correlation: Option<Id>,
    eventType: Bytes,
    typeVersion: u32,
    payload: Bytes,
    content: Value,
    externalId: Option<string>)

  /** What cut a page short. */
  datatype Reason = ResultCount | ByteSize

  /** One page of a bounded read: everything asked for, or a front of it and a cursor to continue from. */
  datatype ReadOutcome<+Cursor> =
    | Complete(data: seq<Event<nat>>)
    | Truncated(data: seq<Event<nat>>, cursor: Cursor, reason: Reason)

  /** Ids are unique and the rows stand in primary-key order. */
  ghost predicate ById(rows: seq<Event<nat>>)
  {
    forall i, j | 0 <= i < j < |rows| :: rows[i].id < rows[j].id
  }
}
