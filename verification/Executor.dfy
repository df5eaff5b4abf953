/**
 The background task loop: src/executor.rs.  The heap is a list in no particular order, from which a maximal
 task is popped; sleeping, the clock and the state of the store are parameters.
 */
module Executor {
  import opened Types

  datatype Kind = GcOrphanSnapshots | TakeSnapshot(stream: string, branch: string) | Custom(closure: nat)

  datatype Priority = Low | Normal | High

  datatype Task = Task(priority: Priority, deadline: i64, persistOnDrop: bool, kind: Kind, interval: Option<nat>)

  function Rank(p: Priority): nat
  {
    match p case Low => 0 case Normal => 1 case High => 2
  }

  /** `a` is popped no later than `b`: higher priority first, then the earlier deadline. */
  predicate NoLater(a: Task, b: Task)
  {
    Rank(a.priority) > Rank(b.priority) || (a.priority == b.priority && a.deadline <= b.deadline)
  }

  /** High before Normal before Low, and the earlier deadline among equals. */
  predicate Precedes(a: Task, b: Task)
  {
    && (b.priority == High ==> a.priority == High) && (b.priority == Normal ==> a.priority != Low)
    && (a.priority == b.priority ==> a.deadline <= b.deadline)
  }

  lemma {:induction false} NoLaterExactly()
    ensures forall a, b :: NoLater(a, b) <==> Precedes(a, b)
  {
  }

  lemma {:induction false} OrderIsTotal(a: Task, b: Task)
    ensures NoLater(a, b) || NoLater(b, a)
    ensures NoLater(a, a)
  {
  }

  lemma {:induction false} OrderIsTransitive(a: Task, b: Task, c: Task)
    requires NoLater(a, b) && NoLater(b, c)
    ensures NoLater(a, c)
  {
  }

  ghost predicate IsTop(tasks: seq<Task>, t: Task)
  {
    t in tasks && forall u | u in tasks :: NoLater(t, u)
  }

  /** A task taken off the heap, whether the store was still there to run it, and when. */
  datatype Popped = Popped(task: Task, ran: bool, now: int)

  /** Two's-complement arithmetic on i64, as a release build performs it. */
  function Wrap(n: int): i64
  {
    (n + TWO_63) % TWO_64 - TWO_63
  }

  /** The same task with its deadline one interval from now, counted modulo 2^64. */
  predicate IsNext(task: Task, now: int, next: Task)
    requires task.interval.Some?
  {
    && next.priority == task.priority && next.kind == task.kind && next.persistOnDrop == task.persistOnDrop
    && next.interval == task.interval
    && (next.deadline - (now + task.interval.value)) % 0x1_0000_0000_0000_0000 == 0
  }

  /** The one re-entry that a recurring task owes. */
  function Again(p: Popped): multiset<Task>
  {
    if p.task.interval.Some? then multiset{p.task.(deadline := Wrap(p.now + p.task.interval.value))} else multiset{}
  }

  function Tasks(popped: seq<Popped>): multiset<Task>
  {
    if popped == [] then multiset{} else Tasks(popped[..|popped| - 1]) + multiset{popped[|popped| - 1].task}
  }

  /** The re-entries of all popped tasks: exactly one for each recurring one. */
  function Requeues(popped: seq<Popped>): multiset<Task>
  {
    if popped == [] then multiset{} else Requeues(popped[..|popped| - 1]) + Again(popped[|popped| - 1])
  }

  lemma {:induction false} OneMorePopped(popped: seq<Popped>, p: Popped)
    ensures Tasks(popped + [p]) == Tasks(popped) + multiset{p.task}
    ensures Requeues(popped + [p]) == Requeues(popped) + Again(p)
  {
    assert (popped + [p])[..|popped|] == popped;
  }

  function Persistent(tasks: seq<Task>): seq<Task>
  {
    if tasks == [] then []
    else
      var front := Persistent(tasks[..|tasks| - 1]);
      if tasks[|tasks| - 1].persistOnDrop then front + [tasks[|tasks| - 1]] else front
  }

  lemma {:induction false} OneMoreDisposed(tasks: seq<Task>, task: Task, opens: nat -> bool)
    ensures Persistent(tasks + [task]) == if task.persistOnDrop then Persistent(tasks) + [task] else Persistent(tasks)
    ensures task.persistOnDrop ==>
      Reported(Persistent(tasks + [task]), opens)
      == (var before := Reported(Persistent(tasks), opens);
          if before != [] || opens(|Persistent(tasks)|) then before + [task] else before)
  {
    assert (tasks + [task])[..|tasks|] == tasks;
    assert (Persistent(tasks) + [task])[..|Persistent(tasks)|] == Persistent(tasks);
  }

  /**
   The tasks reported when opening the writer is tried once per task until it works; `opens(k)` is the result of try
   `k`.
   */
  function Reported(tasks: seq<Task>, opens: nat -> bool): seq<Task>
  {
    if tasks == [] then []
    else
      var front := Reported(tasks[..|tasks| - 1], opens);
      if front != [] || opens(|tasks| - 1) then front + [tasks[|tasks| - 1]] else front
  }

  /** Nothing is reported until the writer opens for the task number `k`, and everything from there on. */
  predicate FromFirstOpening(tasks: seq<Task>, opens: nat -> bool, reports: seq<Task>, k: nat)
  {
    && k <= |tasks| && reports == tasks[k..] && (forall i: nat | i < k :: !opens(i)) && (k < |tasks| ==> opens(k))
  }

  lemma {:induction false} ReportedExactly(tasks: seq<Task>, opens: nat -> bool) returns (k: nat)
    ensures FromFirstOpening(tasks, opens, Reported(tasks, opens), k)
  {
    k := 0;
    if tasks != [] {
      var front := tasks[..|tasks| - 1];
      k := ReportedExactly(front, opens);
      assert tasks[k..] == front[k..] + [tasks[|tasks| - 1]];
      if k == |front| && !opens(k) {
        k := |tasks|;
      }
    }
  }

  /** The persistent tasks, as often as they occur. */
  lemma {:induction false} PersistentCounts(tasks: seq<Task>)
    ensures forall t :: multiset(Persistent(tasks))[t] == if t.persistOnDrop then multiset(tasks)[t] else 0
  {
    if tasks != [] {
      var front, last := tasks[..|tasks| - 1], tasks[|tasks| - 1];
      PersistentCounts(front);
      assert tasks == front + [last];
    }
  }

  /** Picking the persistent tasks keeps them in order. */
  lemma {:induction false} PersistentOrdered(tasks: seq<Task>)
    requires forall i, j | 0 <= i < j < |tasks| :: Precedes(tasks[i], tasks[j])
    ensures forall i, j | 0 <= i < j < |Persistent(tasks)| :: Precedes(Persistent(tasks)[i], Persistent(tasks)[j])
    ensures forall t | t in Persistent(tasks) :: t in tasks
  {
    hide Precedes;
    if tasks != [] {
      var front, last := tasks[..|tasks| - 1], tasks[|tasks| - 1];
      PersistentOrdered(front);
      forall t | t in front ensures Precedes(t, last) {
        var i :| 0 <= i < |front| && front[i] == t;
        assert tasks[i] == t;
      }
      var kept := Persistent(front);
      assert forall i | 0 <= i < |kept| :: kept[i] in kept;
    }
  }

  /** What entered, by scheduling or re-entry, is what was popped, waits or was disposed of. */
  ghost predicate Balanced(scheduled: multiset<Task>, requeued: multiset<Task>, popped: multiset<Task>,
                           waiting: multiset<Task>, disposed: multiset<Task>)
  {
    scheduled + requeued == popped + waiting + disposed
  }

  lemma {:induction false} BalanceSchedule(s: multiset<Task>, r: multiset<Task>, p: multiset<Task>, w: multiset<Task>,
                                           d: multiset<Task>, x: Task)
    requires Balanced(s, r, p, w, d)
    ensures Balanced(s + multiset{x}, r, p, w + multiset{x}, d)
  {
    assert (s + multiset{x}) + r == (s + r) + multiset{x};
  }

  lemma {:induction false} BalancePop(s: multiset<Task>, r: multiset<Task>, p: multiset<Task>, w: multiset<Task>,
                                      d: multiset<Task>,
                                      x: Task, again: multiset<Task>)
    requires Balanced(s, r, p, w, d) && x in w
    ensures Balanced(s, r + again, p + multiset{x}, (w - multiset{x}) + again, d)
  {
    var rest := w - multiset{x};
    assert w == rest + multiset{x};
    assert s + (r + again) == (s + r) + again;
    assert (p + multiset{x}) + (rest + again) + d == (p + w + d) + again;
  }

  lemma {:induction false} BalanceDispose(s: multiset<Task>, r: multiset<Task>, p: multiset<Task>, w: multiset<Task>,
                                          d: multiset<Task>)
    requires Balanced(s, r, p, w, d)
    ensures Balanced(s, r, p, multiset{}, d + w)
  {
  }

  /** `p` took a maximal waiting task off the heap and, if it recurs, put it back once with its new deadline. */
  ghost predicate Ran(waiting: seq<Task>, p: Popped, heap: seq<Task>)
  {
    IsTop(waiting, p.task) && multiset(heap) == multiset(waiting) - multiset{p.task} + Again(p)
  }

  class BackgroundLoop {
    var heap: seq<Task>
    var channel: seq<Task>
    ghost var scheduled: multiset<Task>
    ghost var popped: seq<Popped>
    ghost var disposed: multiset<Task>

    /** Every task that ever entered was popped, waits in the heap or the channel, or was disposed of. */
    ghost predicate Valid()
      reads this
    {
      Balanced(scheduled, Requeues(popped), Tasks(popped), multiset(heap + channel), disposed)
    }

    constructor ()
      ensures Valid() && heap == [] && channel == [] && scheduled == multiset{}
      ensures popped == [] && disposed == multiset{}
    {
      heap, channel := [], [];
      scheduled, popped, disposed := multiset{}, [], multiset{};
    }

    method Schedule(task: Task)
      requires Valid()
      modifies this
      ensures Valid() && channel == old(channel) + [task] && scheduled == old(scheduled) + multiset{task}
      ensures heap == old(heap) && popped == old(popped) && disposed == old(disposed)
    {
      hide Requeues, Tasks, Balanced;
      BalanceSchedule(scheduled, Requeues(popped), Tasks(popped), multiset(heap + channel), disposed, task);
      assert heap + (channel + [task]) == (heap + channel) + [task];
      channel := channel + [task];
      scheduled := scheduled + multiset{task};
    }

    method DrainChannel()
      modifies `heap, `channel
      ensures channel == [] && heap == old(heap + channel)
    {
      while channel != []
        invariant heap + channel == old(heap + channel)
        decreases |channel|
      {
        assert heap + channel == (heap + [channel[0]]) + channel[1..];
        heap := heap + [channel[0]];
        channel := channel[1..];
      }
    }

    method Pop() returns (top: Task)
      requires heap != []
      modifies `heap
      ensures IsTop(old(heap), top) && multiset(heap) == multiset(old(heap)) - multiset{top}
      ensures |heap| == |old(heap)| - 1
      ensures forall u | u in heap :: u in old(heap)
      ensures top in old(heap) && forall u | u in old(heap) :: Precedes(top, u)
    {
      NoLaterExactly();
      var at := 0;
      OrderIsTotal(heap[0], heap[0]);
      var i := 1;
      while i < |heap|
        invariant at < i <= |heap| && heap == old(heap)
        invariant forall k | 0 <= k < i :: NoLater(heap[at], heap[k])
      {
        OrderIsTotal(heap[at], heap[i]);
        if !NoLater(heap[at], heap[i]) {
          forall k | 0 <= k < i ensures NoLater(heap[i], heap[k]) { OrderIsTransitive(heap[i], heap[at], heap[k]); }
          OrderIsTotal(heap[i], heap[i]);
          at := i;
        }
        i := i + 1;
      }
      top := heap[at];
      RemoveAt(heap, at);
      heap := heap[..at] + heap[at + 1..];
    }

    /**
     One turn of the loop without the stop flag: it runs a task only when quiescent, and then one that is
     maximal among all that wait; a recurring one re-enters exactly once, with a new deadline.
     */
    method Turn(quiescent: bool, storeAlive: bool, now: int) returns (turn: Option<Popped>)
      requires Valid()
      modifies this
      ensures Valid() && channel == [] && scheduled == old(scheduled) && disposed == old(disposed)
      ensures var waiting := old(heap + channel);
        if !quiescent || waiting == [] then popped == old(popped) && turn == None && heap == waiting
        else
          && turn.Some? && turn.value.ran == storeAlive && turn.value.now == now
          && Ran(waiting, turn.value, heap) && popped == old(popped) + [turn.value]
          && IsTurn(waiting, turn.value.task, now, heap)
    {
      hide Balanced, Requeues, Tasks, Ran, IsTurn;
      DrainChannel();
      assert heap + channel == heap;
      turn := None;
      if heap == [] || !quiescent {
        return;
      }
      ghost var waiting := heap;
      var p := RunTop(storeAlive, now);
      RanIsTurn(waiting, p, heap);
      turn := Some(p);
      assert heap + channel == heap;
    }

    /** Pop a maximal task, run it if the store is still there, and queue it again if it recurs. */
    method RunTop(storeAlive: bool, now: int) returns (p: Popped)
      requires heap != [] && Balanced(scheduled, Requeues(popped), Tasks(popped), multiset(heap), disposed)
      modifies `heap, `popped
      ensures Balanced(scheduled, Requeues(popped), Tasks(popped), multiset(heap), disposed)
      ensures Ran(old(heap), p, heap) && popped == old(popped) + [p] && p.now == now && p.ran == storeAlive
    {
      hide Balanced, IsTop, Requeues, Tasks, NoLater, Again;
      var task := Pop();
      p := Popped(task, storeAlive, now);
      TopIsIn(old(heap), task);
      BalancePop(scheduled, Requeues(popped), Tasks(popped), multiset(old(heap)), disposed, task, Again(p));
      OneMorePopped(popped, p);
      popped := popped + [p];
      ghost var left := heap;
      if task.interval.Some? {
        heap := heap + [task.(deadline := Wrap(now + task.interval.value))];
      }
      Requeued(left, p, heap);
    }

    /**
     The stop flag is set: everything still waiting is disposed of in order, and the persistent tasks are
     reported from the first successful try at opening a writer on.
     */
    method Shutdown(opens: nat -> bool) returns (order: seq<Task>, reports: seq<Task>)
      requires Valid()
      modifies this
      ensures Valid() && heap == [] && channel == [] && popped == old(popped) && scheduled == old(scheduled)
      ensures multiset(order) == multiset(old(heap + channel)) && disposed == old(disposed) + multiset(order)
      ensures forall i, j | 0 <= i < j < |order| :: NoLater(order[i], order[j])
      ensures reports == Reported(Persistent(order), opens)
      ensures IsDisposal(order, Persistent(order), opens, reports)
    {
      hide Requeues, Tasks, Balanced, IsTop, NoLater, Precedes, Persistent, Reported, IsDisposal;
      assert Persistent([]) == [] && Reported([], opens) == [] by { NothingDisposed(opens); }
      BalanceDispose(scheduled, Requeues(popped), Tasks(popped), multiset(heap + channel), disposed);
      DrainChannel();
      order, reports := [], [];
      var writerOpen := false;
      var tries := 0;
      while heap != []
        invariant multiset(order) + multiset(heap) == multiset(old(heap + channel))
        invariant channel == [] && popped == old(popped) && scheduled == old(scheduled) && disposed == old(disposed)
        invariant forall i, j | 0 <= i < j < |order| :: NoLater(order[i], order[j])
        invariant forall i, u | 0 <= i < |order| && u in heap :: NoLater(order[i], u)
        invariant reports == Reported(Persistent(order), opens)
        invariant writerOpen == (reports != []) && (!writerOpen ==> tries == |Persistent(order)|)
        decreases |heap|
      {
        ghost var waiting := heap;
        var task := Pop();
        TopIsIn(waiting, task);
        MoveOne(order, waiting, heap, task);
        OneMoreDisposed(order, task, opens);
        if task.persistOnDrop {
          if !writerOpen {
            writerOpen := opens(tries);
            tries := tries + 1;
          }
          if writerOpen {
            reports := reports + [task];
          }
        }
        order := order + [task];
      }
      assert multiset(order) == multiset(old(heap + channel));
      disposed := disposed + multiset(order);
      assert heap + channel == [] && multiset(heap + channel) == multiset{};
      DisposalIs(order, opens);
    }
  }

  /**
   The tasks in order, the persistent ones among them as often as they occur and in order, and of these the reports,
   from the first that found a writer on.
   */
  ghost predicate IsDisposal(order: seq<Task>, persistent: seq<Task>, opens: nat -> bool, reports: seq<Task>)
  {
    && (forall i, j | 0 <= i < j < |order| :: Precedes(order[i], order[j]))
    && (forall t :: multiset(persistent)[t] == if t.persistOnDrop then multiset(order)[t] else 0)
    && (forall i, j | 0 <= i < j < |persistent| :: Precedes(persistent[i], persistent[j]))
    && exists k :: FromFirstOpening(persistent, opens, reports, k)
  }

  lemma {:induction false} DisposalIs(order: seq<Task>, opens: nat -> bool)
    requires forall i, j | 0 <= i < j < |order| :: NoLater(order[i], order[j])
    ensures IsDisposal(order, Persistent(order), opens, Reported(Persistent(order), opens))
  {
    NoLaterExactly();
    hide NoLater, Precedes;
    PersistentCounts(order);
    PersistentOrdered(order);
    var k := ReportedExactly(Persistent(order), opens);
  }

  /** The task was first among those waiting and is gone from them, and a recurring one is there once more. */
  ghost predicate IsTurn(waiting: seq<Task>, task: Task, now: int, heap: seq<Task>)
  {
    && task in waiting && (forall u | u in waiting :: Precedes(task, u))
    && if task.interval.None? then multiset(heap) + multiset{task} == multiset(waiting)
       else exists next ::
              IsNext(task, now, next) && multiset(heap) + multiset{task} == multiset(waiting) + multiset{next}
  }

  lemma {:induction false} RanIsTurn(waiting: seq<Task>, p: Popped, heap: seq<Task>)
    requires Ran(waiting, p, heap)
    ensures IsTurn(waiting, p.task, p.now, heap)
  {
    NoLaterExactly();
    assert p.task in multiset(waiting);
    if p.task.interval.Some? {
      var next := p.task.(deadline := Wrap(p.now + p.task.interval.value));
      assert IsNext(p.task, p.now, next);
    }
  }

  lemma {:induction false} TopIsIn(tasks: seq<Task>, t: Task)
    requires IsTop(tasks, t)
    ensures t in tasks && t in multiset(tasks) && forall u | u in tasks :: NoLater(t, u)
  {
  }

  lemma {:induction false} MoveOne(order: seq<Task>, waiting: seq<Task>, heap: seq<Task>, t: Task)
    requires t in waiting && multiset(heap) == multiset(waiting) - multiset{t}
    ensures multiset(order + [t]) + multiset(heap) == multiset(order) + multiset(waiting)
  {
    assert t in multiset(waiting);
  }

  lemma {:induction false} NothingDisposed(opens: nat -> bool)
    ensures Persistent([]) == [] && Reported([], opens) == []
  {
  }

  lemma {:induction false} RemoveAt(tasks: seq<Task>, at: nat)
    requires at < |tasks|
    ensures multiset(tasks[..at] + tasks[at + 1..]) == multiset(tasks) - multiset{tasks[at]}
  {
    assert tasks == tasks[..at] + [tasks[at]] + tasks[at + 1..];
  }

  lemma {:induction false} Requeued(left: seq<Task>, p: Popped, heap: seq<Task>)
    requires heap == if p.task.interval.Some? then left + [p.task.(deadline := Wrap(p.now + p.task.interval.value))]
             else left
    ensures multiset(heap) == multiset(left) + Again(p)
  {
  }

  /** A writer that opens at once reports every persistent task, in order of disposal. */
  lemma {:induction false} OpenWriterReportsAll(tasks: seq<Task>, opens: nat -> bool)
    requires opens(0)
    ensures Reported(tasks, opens) == tasks
  {
    if tasks != [] {
      OpenWriterReportsAll(tasks[..|tasks| - 1], opens);
      assert tasks == tasks[..|tasks| - 1] + [tasks[|tasks| - 1]];
    }
  }
}
