/** The asynchronous subscription wrapper of fossic-node/index.js: callbacks on one side, promises on the other. */
module Pump {
  import opened Types

  /** What a promise of `next()` resolves to. */
  datatype Item<T> = Value(value: T) | Done

  /** `next()` rejects, resolves at once, or stays pending. */
  datatype Next<T> = Rejected | Resolved(item: Item<T>) | Pending

  function Values<T>(items: seq<Item<T>>): seq<T>
  {
    if items == [] then []
    else
      var front := Values(items[..|items| - 1]);
      if items[|items| - 1].Value? then front + [items[|items| - 1].value] else front
  }

  lemma {:induction false} OneMoreItem<T>(items: seq<Item<T>>, item: Item<T>)
    ensures Values(items + [item]) == if item.Value? then Values(items) + [item.value] else Values(items)
  {
    assert (items + [item])[..|items|] == items;
  }

  ghost predicate DoneIsFinal<T>(items: seq<Item<T>>)
  {
    forall i, j | 0 <= i < j < |items| && items[i].Done? :: items[j].Done?
  }

  /**
   `answers[k]` is the answer to the k-th accepted call of `next()`; a pending call is the one after them.
   `requested` says that a `rawNext` is outstanding: the native side calls back exactly once for each.
   */
  class FossicSubscription<T> {
    var buffer: seq<T>
    var pending: bool
    var closed: bool
    ghost var requested: bool
    ghost var arrived: seq<T>
    ghost var answers: seq<Item<T>>

    /**
     Nothing is lost, doubled or reordered: the values handed out, then the buffer, are the events that
     arrived.  Only an open subscription with an empty buffer keeps a caller waiting, and only a closed one
     with an empty buffer ever answered that it is done.
     */
    ghost predicate Valid()
      reads this
    {
      && Values(answers) + buffer == arrived
      && (pending ==> buffer == [] && !closed)
      && (!closed ==> requested)
      && DoneIsFinal(answers)
      && ((exists i | 0 <= i < |answers| :: answers[i].Done?) ==> closed && buffer == [])
    }

    constructor ()
      ensures Valid() && arrived == [] && answers == [] && !pending && !closed && requested
    {
      buffer, pending, closed := [], false, false;
      requested, arrived, answers := true, [], [];
    }

    /** The callback of the outstanding `rawNext`: an event, or the end. */
    method Callback(event: Option<T>)
      requires Valid() && requested
      modifies this
      ensures Valid() && !pending
      ensures old(closed) ==> arrived == old(arrived) && answers == old(answers) && buffer == old(buffer)
      ensures old(closed) ==> closed && !requested
      ensures !old(closed) && event.Some? ==> requested && !closed && arrived == old(arrived) + [event.value]
      ensures !old(closed) && event.Some?
              ==> answers == old(answers) + (if old(pending) then [Value(event.value)] else [])
      ensures !old(closed) && event.None? ==> closed && !requested && arrived == old(arrived)
      ensures !old(closed) && event.None? ==> answers == old(answers) + (if old(pending) then [Done] else [])
    {
      hide Values, DoneIsFinal;
      ghost var given := Values(answers);
      requested := false;
      if closed {
        return;
      }
      if event.None? {
        closed := true;
        if pending {
          pending := false;
          Answer(Done);
        }
        return;
      }
      arrived := arrived + [event.value];
      if pending {
        assert given + [] == given && given + [event.value] + [] == given + [event.value];
        pending := false;
        Answer(Value(event.value));
      } else {
        assert given + (buffer + [event.value]) == (given + buffer) + [event.value];
        buffer := buffer + [event.value];
      }
      requested := true;
    }

    ghost method Answer(item: Item<T>)
      requires item.Done? || forall i | 0 <= i < |answers| :: answers[i].Value?
      requires DoneIsFinal(answers)
      modifies `answers
      ensures answers == old(answers) + [item] && DoneIsFinal(answers)
      ensures Values(answers) == if item.Value? then Values(old(answers)) + [item.value] else Values(old(answers))
    {
      OneMoreItem(answers, item);
      answers := answers + [item];
    }

    /** One caller at a time; buffered events first, even after closing; then the end, or a promise. */
    method Next() returns (r: Next<T>)
      requires Valid()
      modifies this
      ensures Valid() && arrived == old(arrived) && closed == old(closed)
      ensures r.Rejected? <==> old(pending)
      ensures r.Pending? <==> !old(pending) && old(buffer) == [] && !closed
      ensures r.Resolved? && r.item.Done? <==> !old(pending) && old(buffer) == [] && closed
      ensures r.Resolved? && r.item.Value? ==> old(buffer) != [] && r.item.value == old(buffer)[0]
      ensures answers == old(answers) + (if r.Resolved? then [r.item] else []) && pending == (r.Rejected? || r.Pending?)
    {
      hide Values, DoneIsFinal;
      if pending {
        return Rejected;
      }
      if |buffer| > 0 {
        var event := buffer[0];
        ghost var given := Values(answers);
        assert given + buffer == (given + [event]) + buffer[1..];
        Answer(Value(event));
        buffer := buffer[1..];
        return Resolved(Value(event));
      }
      if closed {
        Answer(Done);
        return Resolved(Done);
      }
      pending := true;
      r := Pending;
    }

    /** Closing answers a waiting caller; what is buffered can still be read. */
    method Unsubscribe()
      requires Valid()
      modifies this
      ensures Valid() && closed && !pending && buffer == old(buffer)
      ensures arrived == old(arrived) && requested == old(requested)
      ensures answers == old(answers) + (if old(pending) then [Done] else [])
    {
      if closed {
        return;
      }
      closed := true;
      if pending {
        pending := false;
        Answer(Done);
      }
    }
  }
}
