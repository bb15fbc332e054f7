/**
  The queue object itself. Each method is one atomic section of the class; its contract says
  which event of `QueueModel` it performs, so everything proved there over runs holds here.
 */
module OperationQueueClass {
  import opened Options
  import opened QueueModel
  import QueueProofs

  class OperationQueue {
    var highQueue: seq<Item>
    var normalQueue: seq<Item>
    var running: Option<Item>
    var immediateRunning: bool
    var immediateWaiting: int
    var draining: bool
    var idCounter: nat
    var highPrioritySeq: nat

    // The event loop: setImmediate callbacks that have been scheduled and have not run yet.
    var drains: nat

    // Who is waiting in or running through executeNow, and what has happened so far.
    ghost var callers: set<Caller>
    ghost var holder: Caller
    ghost var log: seq<Entry>

    ghost function View(): State
      reads this
    {
      State(highQueue, normalQueue, running, immediateRunning, immediateWaiting, draining,
            idCounter, highPrioritySeq, drains, callers, holder, log)
    }

    ghost predicate Valid()
      reads this
    {
      QueueProofs.Inv(View())
    }

    /** Every method below performs one step, so it keeps the object valid. */
    twostate lemma StepKeepsValid(e: Event)
      requires old(Valid()) && Enabled(old(View()), e) && View() == Step(old(View()), e)
      ensures Valid()
    {
      QueueProofs.StepKeepsInv(old(View()), e);
    }

    constructor ()
      ensures Valid() && View() == INITIAL
    {
      highQueue, normalQueue, running := [], [], None;
      immediateRunning, immediateWaiting, draining := false, 0, false;
      idCounter, highPrioritySeq, drains := 0, 0, 0;
      callers, holder, log := {}, 0, [];
    }

    method ScheduleDrain()
      modifies this`drains
      ensures View() == QueueModel.ScheduleDrain(old(View()))
      ensures drains == old(drains) + if draining then 0 else 1
    {
      if draining { return; }
      drains := drains + 1;
    }

    method Enqueue(name: string, priority: Priority) returns (id: nat)
      requires Valid()
      modifies this
      ensures Valid()
      ensures View() == Step(old(View()), Event.Enqueue(name, priority))
      ensures id == idCounter == old(idCounter) + 1
    {
      id := Push(name, priority);
      ScheduleDrain();
      StepKeepsValid(Event.Enqueue(name, priority));
    }

    /** Numbers the item and appends it to the queue of its priority. */
    method Push(name: string, priority: Priority) returns (id: nat)
      modifies this`idCounter, this`highPrioritySeq, this`highQueue, this`normalQueue, this`log
      ensures id == idCounter == old(idCounter) + 1 && log == old(log) + [Enqueued(Item(id, name, priority))]
      ensures highPrioritySeq == old(highPrioritySeq) + if priority == High then 1 else 0
      ensures highQueue == if priority == High then old(highQueue) + [Item(id, name, priority)] else old(highQueue)
      ensures normalQueue == if priority == Normal then old(normalQueue) + [Item(id, name, priority)] else old(normalQueue)
    {
      idCounter := idCounter + 1;
      id := idCounter;
      var item := Item(id, name, priority);
      log := log + [Enqueued(item)];
      if priority == High {
        highPrioritySeq := highPrioritySeq + 1;
        highQueue := highQueue + [item];
      } else {
        normalQueue := normalQueue + [item];
      }
    }

    /** The drain loop up to its next await: it either starts an item or leaves the loop. */
    method DrainLoop()
      modifies this
      ensures View() == QueueModel.DrainLoop(old(View()))
    {
      if |highQueue| > 0 || |normalQueue| > 0 {
        if !(immediateRunning || immediateWaiting > 0) {
          var item;
          if |highQueue| > 0 {
            item, highQueue := highQueue[0], highQueue[1..];
          } else {
            item, normalQueue := normalQueue[0], normalQueue[1..];
          }
          running := Some(item);
          log := log + [Started(item)];
          return;
        }
      }
      draining := false;
      if (|highQueue| > 0 || |normalQueue| > 0) && !immediateRunning && immediateWaiting == 0 {
        assert false; // the recheck after the loop can never schedule another drain
      }
    }

    /** A scheduled `setImmediate` callback runs `drain()`. */
    method Drain()
      requires drains > 0
      requires Valid()
      modifies this
      ensures Valid()
      ensures View() == Step(old(View()), DrainFires)
    {
      drains := drains - 1;
      if !draining {
        draining := true;
        DrainLoop();
      }
      StepKeepsValid(DrainFires);
    }

    /** The running item's promise settles and `drain()` resumes after its await. */
    method ItemSettled()
      requires running.Some?
      requires Valid()
      modifies this
      ensures Valid()
      ensures View() == Step(old(View()), ItemEnds)
    {
      log := log + [Finished(running.value)];
      running := None;
      DrainLoop();
      StepKeepsValid(ItemEnds);
    }

    /** One evaluation of the wait condition of `executeNow`, and the flag if it is false. */
    method TryRun(ghost caller: Caller) returns (started: bool)
      modifies this
      ensures View() == DoPoll(old(View()), caller)
      ensures started <==> old(running.None? && !immediateRunning)
    {
      if running.Some? || immediateRunning { return false; }
      immediateRunning := true;
      holder := caller;
      log := log + [StartedNow(caller)];
      callers := callers - {caller};
      immediateWaiting := immediateWaiting - 1;
      return true;
    }

    method ExecuteNow(ghost caller: Caller) returns (started: bool)
      requires caller !in callers
      requires Valid()
      modifies this
      ensures Valid()
      ensures View() == Step(old(View()), Event.ExecuteNow(caller))
      ensures started ==> immediateRunning && holder == caller && caller !in callers
      ensures !started ==> caller in callers && immediateWaiting == old(immediateWaiting) + 1
      ensures started <==> old(running.None? && !immediateRunning)
    {
      immediateWaiting := immediateWaiting + 1;
      callers := callers + {caller};
      log := log + [Reserved(caller)];
      started := TryRun(caller);
      StepKeepsValid(Event.ExecuteNow(caller));
    }

    /** The 200 ms timer of a waiting caller fires. */
    method Poll(ghost caller: Caller) returns (started: bool)
      requires caller in callers
      requires Valid()
      modifies this
      ensures Valid()
      ensures View() == Step(old(View()), Event.Poll(caller))
      ensures started <==> old(running.None? && !immediateRunning)
    {
      started := TryRun(caller);
      StepKeepsValid(Event.Poll(caller));
    }

    method ImmediateSettled()
      requires immediateRunning
      requires Valid()
      modifies this
      ensures Valid()
      ensures View() == Step(old(View()), ImmediateEnds)
    {
      log := log + [FinishedNow(holder)];
      immediateRunning := false;
      ScheduleDrain();
      StepKeepsValid(ImmediateEnds);
    }

    /** True iff some HIGH item ever enqueued is unfinished, or more than `snapshot` were. */
    method HasHighPriorityActivityAfter(snapshot: int) returns (active: bool)
      requires Valid()
      ensures !active <==>
        && Items(log, Finishing, High) == Items(log, Enqueueing, High)
        && |Items(log, Enqueueing, High)| <= snapshot
    {
      active := highPrioritySeq > snapshot
                || (running.Some? && running.value.priority == High) || |highQueue| > 0;
      assert QueueProofs.Conserved(View(), High);
    }
  }

  /** The object driven by any interleaving: it ends in the state that the model's run ends in, so
      what is proved of reachable states holds of it. */
  method RunQueue(events: seq<Event>, ghost last: State) returns (queue: OperationQueue)
    requires Reaches(INITIAL, events, last)
    ensures fresh(queue) && queue.Valid() && queue.View() == last
  {
    queue := new OperationQueue();
    for i := 0 to |events|
      invariant fresh(queue) && queue.Valid()
      invariant Reaches(queue.View(), events[i..], last)
    {
      assert events[i..][0] == events[i] && events[i..][1..] == events[i + 1..];
      match events[i] {
        case Enqueue(name, priority) => var id := queue.Enqueue(name, priority);
        case DrainFires => queue.Drain();
        case ItemEnds => queue.ItemSettled();
        case ExecuteNow(c) => var started := queue.ExecuteNow(c);
        case Poll(c) => var started := queue.Poll(c);
        case ImmediateEnds => queue.ImmediateSettled();
      }
    }
  }
}
