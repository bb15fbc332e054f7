/** Safety and progress of the operation queue over every interleaving. */
module QueueProofs {
  import opened Options
  import opened QueueModel

  // ---------- inductive invariant ----------

  /** `draining` is exact, operations exclude each other, and pending work has a wake-up. */
  ghost predicate Control(s: State) {
    && (s.draining <==> s.running.Some?)
    && !(s.running.Some? && s.immediateRunning)
    && s.immediateWaiting == |s.callers|
    && (HasPending(s) ==> s.running.Some? || s.drains > 0 || s.immediateRunning || s.callers != {})
  }

  function QueueOf(s: State, p: Priority): seq<Item> {
    if p == High then s.highQueue else s.normalQueue
  }

  function RunningOf(s: State, p: Priority): seq<Item> {
    if s.running.Some? && s.running.value.priority == p then [s.running.value] else []
  }

  /** Per priority nothing is lost, duplicated or reordered. */
  ghost predicate Conserved(s: State, p: Priority) {
    && Items(s.log, Enqueueing, p) == Items(s.log, Starting, p) + QueueOf(s, p)
    && Items(s.log, Starting, p) == Items(s.log, Finishing, p) + RunningOf(s, p)
    && forall i :: 0 <= i < |QueueOf(s, p)| ==> QueueOf(s, p)[i].priority == p
  }

  ghost predicate Ordered(s: State) {
    && Conserved(s, High)
    && Conserved(s, Normal)
    && s.highPrioritySeq == |Items(s.log, Enqueueing, High)|
    && HighFirst(s.log)
  }

  predicate Current(s: State, e: Entry) {
    || (e.Started? && s.running == Some(e.item))
    || (e.StartedNow? && s.immediateRunning && s.holder == e.caller)
  }

  ghost predicate Serial(s: State) {
    && OneAtATime(s.log)
    && forall i :: 0 <= i < |s.log| && IsStart(s.log[i]) ==>
         Current(s, s.log[i]) || OccursAfter(s.log, i, EndOf(s.log[i]), |s.log|)
  }

  ghost predicate Reserving(s: State) {
    && ReservationsHonoured(s.log)
    && forall i :: 0 <= i < |s.log| && s.log[i].Reserved? ==>
         s.log[i].caller in s.callers || OccursAfter(s.log, i, StartedNow(s.log[i].caller), |s.log|)
  }

  ghost predicate Inv(s: State) {
    Control(s) && Ordered(s) && Serial(s) && Reserving(s)
  }

  // ---------- one entry appended ----------

  lemma ItemsAppend(log: seq<Entry>, e: Entry, phase: Phase, p: Priority)
    ensures Items(log + [e], phase, p) == Items(log, phase, p) + if Matches(e, phase, p) then [e.item] else []
  {
    assert (log + [e])[..|log|] == log;
  }

  lemma HighFirstAppend(log: seq<Entry>, e: Entry)
    requires HighFirst(log)
    requires e.Started? && e.item.priority == Normal ==> Items(log, Starting, High) == Items(log, Enqueueing, High)
    ensures HighFirst(log + [e])
  {
    forall j | 0 <= j <= |log| ensures (log + [e])[..j] == log[..j] {}
    assert log[..|log|] == log;
  }

  lemma OccursAppend(log: seq<Entry>, e: Entry)
    ensures forall i, x, end :: 0 <= end <= |log| ==> (OccursAfter(log + [e], i, x, end) <==> OccursAfter(log, i, x, end))
    ensures forall i, x, end :: 0 <= i < |log| && end == |log| + 1 && (x == e || OccursAfter(log, i, x, |log|)) ==>
      OccursAfter(log + [e], i, x, end)
  {
    var longer := log + [e];
    forall i, x, end | 0 <= end <= |log|
      ensures OccursAfter(longer, i, x, end) <==> OccursAfter(log, i, x, end)
    {
      if OccursAfter(log, i, x, end) {
        var k :| 0 <= k && i < k < end && log[k] == x;
        assert longer[k] == x;
      }
    }
    forall i, x, end | 0 <= i < |log| && end == |log| + 1 && (x == e || OccursAfter(log, i, x, |log|))
      ensures OccursAfter(longer, i, x, end)
    {
      var k := if x == e then |log| else var k :| 0 <= k && i < k < |log| && log[k] == x; k;
      assert longer[k] == x;
    }
  }

  // ---------- every step keeps the invariant ----------

  /** `[e.item]` if `e` takes an item of priority `p` through `phase`. */
  function Moved(e: Entry, phase: Phase, p: Priority): seq<Item> {
    if Matches(e, phase, p) then [e.item] else []
  }

  /** The queue and the running slot of priority `p` change exactly as entry `e` says. */
  ghost predicate Moves(s: State, t: State, e: Entry, p: Priority) {
    && QueueOf(s, p) + Moved(e, Enqueueing, p) == Moved(e, Starting, p) + QueueOf(t, p)
    && RunningOf(s, p) + Moved(e, Starting, p) == Moved(e, Finishing, p) + RunningOf(t, p)
  }

  lemma ConservedAppend(s: State, t: State, e: Entry, p: Priority)
    requires Conserved(s, p) && t.log == s.log + [e] && Moves(s, t, e, p)
    ensures Conserved(t, p)
  {
    ItemsAppend(s.log, e, Enqueueing, p);
    ItemsAppend(s.log, e, Starting, p);
    ItemsAppend(s.log, e, Finishing, p);
    var sta, q := Moved(e, Starting, p), QueueOf(t, p);
    calc {
      Items(t.log, Enqueueing, p);
      Items(s.log, Starting, p) + QueueOf(s, p) + Moved(e, Enqueueing, p);
      Items(s.log, Starting, p) + (QueueOf(s, p) + Moved(e, Enqueueing, p));
      Items(s.log, Starting, p) + (sta + q);
      Items(t.log, Starting, p) + q;
    }
    calc {
      Items(t.log, Starting, p);
      Items(s.log, Finishing, p) + (RunningOf(s, p) + sta);
      Items(s.log, Finishing, p) + (Moved(e, Finishing, p) + RunningOf(t, p));
      Items(t.log, Finishing, p) + RunningOf(t, p);
    }
    forall i | 0 <= i < |q| ensures q[i].priority == p {
      assert q[i] == (sta + q)[|sta| + i] == (QueueOf(s, p) + Moved(e, Enqueueing, p))[|sta| + i];
    }
  }

  lemma OrderedAppend(s: State, t: State, e: Entry)
    requires Ordered(s)
    requires t.log == s.log + [e]
    requires e.Started? && e.item.priority == Normal ==> s.highQueue == []
    requires t.highPrioritySeq == s.highPrioritySeq + |Moved(e, Enqueueing, High)|
    requires Moves(s, t, e, High) && Moves(s, t, e, Normal)
    ensures Ordered(t)
  {
    ConservedAppend(s, t, e, High);
    ConservedAppend(s, t, e, Normal);
    ItemsAppend(s.log, e, Enqueueing, High);
    HighFirstAppend(s.log, e);
  }

  lemma SerialAppend(s: State, t: State, e: Entry)
    requires Serial(s)
    requires t.log == s.log + [e]
    requires IsStart(e) ==> s.running.None? && !s.immediateRunning && Current(t, e)
    requires forall x :: IsStart(x) && Current(s, x) ==> Current(t, x) || EndOf(x) == e
    ensures Serial(t)
  {
    OccursAppend(s.log, e);
  }

  lemma ReservingAppend(s: State, t: State, e: Entry)
    requires Reserving(s)
    requires t.log == s.log + [e]
    requires e.Started? ==> s.callers == {}
    requires e.Reserved? ==> e.caller in t.callers
    requires forall c :: c in s.callers ==> c in t.callers || e == StartedNow(c)
    ensures Reserving(t)
  {
    OccursAppend(s.log, e);
  }

  /** The part of the invariant that also holds in the middle of an atomic section. */
  ghost predicate Logged(s: State) {
    Ordered(s) && Serial(s) && Reserving(s) && s.immediateWaiting == |s.callers|
  }

  lemma LoggedIgnoresScheduling(s: State, drains: nat, draining: bool)
    requires Logged(s)
    ensures Logged(s.(drains := drains, draining := draining))
  {
    var t := s.(drains := drains, draining := draining);
    assert Conserved(t, High) && Conserved(t, Normal);
  }

  lemma EnqueueMoves(s: State, name: string, priority: Priority, p: Priority)
    ensures Moves(s, DoEnqueue(s, name, priority), Enqueued(Item(s.idCounter + 1, name, priority)), p)
  {
    var t := DoEnqueue(s, name, priority);
    assert [] + QueueOf(t, p) == QueueOf(t, p);
    assert RunningOf(t, p) == RunningOf(s, p);
  }

  lemma EnqueueKeeps(s: State, name: string, p: Priority)
    requires Inv(s)
    ensures Inv(DoEnqueue(s, name, p))
  {
    var t := DoEnqueue(s, name, p);
    var e := Enqueued(Item(s.idCounter + 1, name, p));
    EnqueueMoves(s, name, p, High);
    EnqueueMoves(s, name, p, Normal);
    assert Ordered(t) by { OrderedAppend(s, t, e); }
    assert Serial(t) by { SerialAppend(s, t, e); }
    assert Reserving(t) by { ReservingAppend(s, t, e); }
  }

  lemma StartNextKeeps(s: State)
    requires Logged(s) && HasPending(s) && s.running.None? && !Blocked(s)
    ensures Logged(StartNext(s))
  {
    var t := StartNext(s);
    var item := if |s.highQueue| > 0 then s.highQueue[0] else s.normalQueue[0];
    assert |s.highQueue| > 0 ==> s.highQueue == [s.highQueue[0]] + s.highQueue[1..];
    assert |s.normalQueue| > 0 ==> s.normalQueue == [s.normalQueue[0]] + s.normalQueue[1..];
    assert s.callers == {};
    OrderedAppend(s, t, Started(item));
    SerialAppend(s, t, Started(item));
    ReservingAppend(s, t, Started(item));
  }

  lemma DrainLoopKeeps(s: State)
    requires Logged(s) && s.draining && s.running.None?
    ensures Inv(DrainLoop(s))
  {
    if HasPending(s) && !Blocked(s) {
      StartNextKeeps(s);
    } else {
      LoggedIgnoresScheduling(s, s.drains, false);
      if s.immediateWaiting > 0 { assert s.callers != {}; }
    }
  }

  lemma FinishItemKeeps(s: State)
    requires Logged(s) && s.running.Some?
    ensures Logged(FinishItem(s))
  {
    var t := FinishItem(s);
    var e := Finished(s.running.value);
    OrderedAppend(s, t, e);
    SerialAppend(s, t, e);
    ReservingAppend(s, t, e);
  }

  lemma PollKeeps(s: State, c: Caller)
    requires Logged(s) && c in s.callers
    requires (s.draining <==> s.running.Some?) && !(s.running.Some? && s.immediateRunning)
    ensures Inv(DoPoll(s, c))
  {
    var t := DoPoll(s, c);
    if s.running.None? && !s.immediateRunning {
      var e := StartedNow(c);
      OrderedAppend(s, t, e);
      SerialAppend(s, t, e);
      ReservingAppend(s, t, e);
    }
  }

  lemma ReserveKeeps(s: State, c: Caller)
    requires Logged(s) && c !in s.callers
    ensures Logged(Reserve(s, c))
  {
    var t := Reserve(s, c);
    OrderedAppend(s, t, Reserved(c));
    SerialAppend(s, t, Reserved(c));
    ReservingAppend(s, t, Reserved(c));
  }

  lemma ImmediateEndsKeeps(s: State)
    requires Inv(s) && s.immediateRunning
    ensures Inv(DoImmediateEnds(s))
  {
    var t := DoImmediateEnds(s);
    var e := FinishedNow(s.holder);
    OrderedAppend(s, t, e);
    SerialAppend(s, t, e);
    ReservingAppend(s, t, e);
  }

  lemma DrainFiresKeeps(s: State)
    requires Inv(s) && s.drains > 0
    ensures Inv(DoDrainFires(s))
  {
    var t := s.(drains := s.drains - 1, draining := true);
    assert Logged(t) by { LoggedIgnoresScheduling(s, s.drains - 1, true); }
    if s.draining {
      assert DoDrainFires(s) == t;
      assert Control(t);
    } else {
      assert DoDrainFires(s) == DrainLoop(t);
      DrainLoopKeeps(t);
    }
  }

  lemma ItemEndsKeeps(s: State)
    requires Inv(s) && s.running.Some?
    ensures Inv(DoItemEnds(s))
  {
    FinishItemKeeps(s);
    DrainLoopKeeps(FinishItem(s));
  }

  lemma ExecuteNowKeeps(s: State, c: Caller)
    requires Inv(s) && c !in s.callers
    ensures Inv(DoExecuteNow(s, c))
  {
    ReserveKeeps(s, c);
    PollKeeps(Reserve(s, c), c);
  }

  lemma StepKeepsInv(s: State, e: Event)
    requires Inv(s) && Enabled(s, e)
    ensures Inv(Step(s, e))
  {
    match e {
      case Enqueue(name, p) => EnqueueKeeps(s, name, p);
      case DrainFires => DrainFiresKeeps(s);
      case ItemEnds => ItemEndsKeeps(s);
      case ExecuteNow(c) => ExecuteNowKeeps(s, c);
      case Poll(c) => PollKeeps(s, c);
      case ImmediateEnds => ImmediateEndsKeeps(s);
    }
  }

  lemma {:induction false} RunKeepsInv(s: State, events: seq<Event>, t: State)
    requires Inv(s) && Reaches(s, events, t)
    ensures Inv(t)
    decreases |events|
  {
    if events != [] {
      StepKeepsInv(s, events[0]);
      RunKeepsInv(Step(s, events[0]), events[1..], t);
    }
  }

  // ---------- what every interleaving guarantees ----------

  lemma ReachableInv(events: seq<Event>, s: State)
    requires Reaches(INITIAL, events, s)
    ensures Inv(s)
  {
    RunKeepsInv(INITIAL, events, s);
  }

  lemma ConservedEach(s: State, p: Priority)
    requires Inv(s)
    ensures Conserved(s, p)
  {
  }

  /** At most one operation runs, queued or immediate, and `draining` says exactly whether a
      queued one does, in every reachable state. */
  lemma OneOperationAtATime(events: seq<Event>, s: State)
    requires Reaches(INITIAL, events, s)
    ensures OneAtATime(s.log)
    ensures !(s.running.Some? && s.immediateRunning)
    ensures s.draining <==> s.running.Some?
  {
    ReachableInv(events, s);
  }

  lemma NoLostWakeUp(events: seq<Event>, s: State)
    requires Reaches(INITIAL, events, s)
    ensures HasPending(s) ==> s.running.Some? || s.drains > 0 || s.immediateRunning || s.callers != {}
    ensures s.immediateWaiting == |s.callers|
  {
    ReachableInv(events, s);
  }

  /** Once a caller has reserved, only other immediate operations can start before it. */
  lemma ReservationBeatsQueue(events: seq<Event>, s: State)
    requires Reaches(INITIAL, events, s)
    ensures ReservationsHonoured(s.log)
    ensures forall i :: 0 <= i < |s.log| && s.log[i].Reserved? ==>
      s.log[i].caller in s.callers || OccursAfter(s.log, i, StartedNow(s.log[i].caller), |s.log|)
  {
    ReachableInv(events, s);
  }

  /** Per priority, what started followed by what waits is what was enqueued, in that order;
      what finished followed by what runs is what started; HIGH goes first. */
  lemma ConservationAndOrder(events: seq<Event>, s: State, p: Priority)
    requires Reaches(INITIAL, events, s)
    ensures Items(s.log, Enqueueing, p) == Items(s.log, Starting, p) + QueueOf(s, p)
    ensures Items(s.log, Starting, p) == Items(s.log, Finishing, p) + RunningOf(s, p)
    ensures HighFirst(s.log)
  {
    ReachableInv(events, s);
    ConservedEach(s, p);
  }

  ghost predicate Numbered(items: seq<Item>, last: nat) {
    && (forall i, j :: 0 <= i < j < |items| ==> items[i].id < items[j].id)
    && (forall i :: 0 <= i < |items| ==> items[i].id <= last)
  }

  /** Of priority `p`, exactly `items` were enqueued between `s` and `t`. */
  ghost predicate Adds(s: State, t: State, p: Priority, items: seq<Item>) {
    Items(t.log, Enqueueing, p) == Items(s.log, Enqueueing, p) + items
  }

  lemma DrainLoopAddsNothing(s: State, p: Priority)
    ensures DrainLoop(s).idCounter == s.idCounter && Adds(s, DrainLoop(s), p, [])
  {
    if HasPending(s) && !Blocked(s) {
      ItemsAppend(s.log, Started(if |s.highQueue| > 0 then s.highQueue[0] else s.normalQueue[0]), Enqueueing, p);
    }
  }

  lemma ItemEndsAddsNothing(s: State, p: Priority)
    requires s.running.Some?
    ensures DoItemEnds(s).idCounter == s.idCounter && Adds(s, DoItemEnds(s), p, [])
  {
    ItemsAppend(s.log, Finished(s.running.value), Enqueueing, p);
    DrainLoopAddsNothing(FinishItem(s), p);
  }

  lemma ExecuteNowAddsNothing(s: State, c: Caller, p: Priority)
    ensures DoExecuteNow(s, c).idCounter == s.idCounter && Adds(s, DoExecuteNow(s, c), p, [])
  {
    ItemsAppend(s.log, Reserved(c), Enqueueing, p);
    ItemsAppend(Reserve(s, c).log, StartedNow(c), Enqueueing, p);
  }

  lemma EnqueueAdds(s: State, name: string, priority: Priority, p: Priority)
    ensures
      var t := DoEnqueue(s, name, priority);
      && t.idCounter == s.idCounter + 1
      && Adds(s, t, p, if priority == p then [Item(t.idCounter, name, p)] else [])
  {
    ItemsAppend(s.log, Enqueued(Item(s.idCounter + 1, name, priority)), Enqueueing, p);
  }

  lemma DrainFiresAddsNothing(s: State, p: Priority)
    requires s.drains > 0
    ensures DoDrainFires(s).idCounter == s.idCounter && Adds(s, DoDrainFires(s), p, [])
  {
    DrainLoopAddsNothing(s.(drains := s.drains - 1, draining := true), p);
  }

  lemma PollAddsNothing(s: State, c: Caller, p: Priority)
    ensures DoPoll(s, c).idCounter == s.idCounter && Adds(s, DoPoll(s, c), p, [])
  {
    ItemsAppend(s.log, StartedNow(c), Enqueueing, p);
  }

  lemma ImmediateEndsAddsNothing(s: State, p: Priority)
    ensures DoImmediateEnds(s).idCounter == s.idCounter && Adds(s, DoImmediateEnds(s), p, [])
  {
    ItemsAppend(s.log, FinishedNow(s.holder), Enqueueing, p);
  }

  /** A step enqueues at most one item, under a fresh number. */
  lemma StepAdds(s: State, e: Event, p: Priority) returns (items: seq<Item>)
    requires Enabled(s, e)
    ensures Adds(s, Step(s, e), p, items) && s.idCounter <= Step(s, e).idCounter
    ensures items == [] || (|items| == 1 && items[0].id == Step(s, e).idCounter == s.idCounter + 1)
  {
    items := [];
    match e {
      case Enqueue(name, priority) =>
        EnqueueAdds(s, name, priority, p);
        if priority == p { items := [Item(s.idCounter + 1, name, p)]; }
      case DrainFires => DrainFiresAddsNothing(s, p);
      case ItemEnds => ItemEndsAddsNothing(s, p);
      case ExecuteNow(c) => ExecuteNowAddsNothing(s, c, p);
      case Poll(c) => PollAddsNothing(s, c, p);
      case ImmediateEnds => ImmediateEndsAddsNothing(s, p);
    }
  }

  ghost predicate EnqueuedNumbered(s: State, p: Priority) {
    Numbered(Items(s.log, Enqueueing, p), s.idCounter)
  }

  lemma NumberedAppend(items: seq<Item>, more: seq<Item>, last: nat, next: nat)
    requires Numbered(items, last) && last <= next
    requires more == [] || (|more| == 1 && more[0].id == next == last + 1)
    ensures Numbered(items + more, next)
  {
  }

  lemma StepKeepsNumbers(s: State, e: Event, p: Priority)
    requires Enabled(s, e) && EnqueuedNumbered(s, p)
    ensures EnqueuedNumbered(Step(s, e), p)
  {
    var items := StepAdds(s, e, p);
    NumberedAppend(Items(s.log, Enqueueing, p), items, s.idCounter, Step(s, e).idCounter);
  }

  lemma {:induction false} RunNumbers(s: State, events: seq<Event>, t: State, p: Priority)
    requires Reaches(s, events, t) && EnqueuedNumbered(s, p)
    ensures EnqueuedNumbered(t, p)
    decreases |events|
  {
    if events != [] {
      StepKeepsNumbers(s, events[0], p);
      RunNumbers(Step(s, events[0]), events[1..], t, p);
    }
  }

  /** No item is started twice, and items of one priority start in the order of their numbers. */
  lemma NoItemRunsTwice(events: seq<Event>, s: State, p: Priority)
    requires Reaches(INITIAL, events, s)
    ensures var started := Items(s.log, Starting, p);
      forall i, j :: 0 <= i < j < |started| ==> started[i].id < started[j].id
  {
    ReachableInv(events, s);
    RunNumbers(INITIAL, events, s, p);
    ConservedEach(s, p);
    var started := Items(s.log, Starting, p);
    assert forall i :: 0 <= i < |started| ==> started[i] == Items(s.log, Enqueueing, p)[i];
  }

  predicate HasHighPriorityActivityAfter(s: State, snapshot: int) {
    || s.highPrioritySeq > snapshot
    || (s.running.Some? && s.running.value.priority == High)
    || |s.highQueue| > 0
  }

  /** The activity query is silent exactly when every HIGH item ever enqueued has finished and
      none was enqueued since the caller's snapshot. */
  lemma ActivityQueryIsExact(events: seq<Event>, s: State, snapshot: int)
    requires Reaches(INITIAL, events, s)
    ensures !HasHighPriorityActivityAfter(s, snapshot) <==>
      && Items(s.log, Finishing, High) == Items(s.log, Enqueueing, High)
      && |Items(s.log, Enqueueing, High)| <= snapshot
  {
    ReachableInv(events, s);
    assert Conserved(s, High);
  }

  // ---------- the log is the history of the run ----------

  /** The arrivals and endings that a log tells of, as the events they were. */
  function EventsOf(log: seq<Entry>): seq<Event>
    decreases |log|
  {
    if log == [] then []
    else
      var before := EventsOf(log[..|log| - 1]);
      match log[|log| - 1]
      case Enqueued(item) => before + [Enqueue(item.name, item.priority)]
      case Reserved(c) => before + [ExecuteNow(c)]
      case Finished(_) => before + [ItemEnds]
      case FinishedNow(_) => before + [ImmediateEnds]
      case _ => before
  }

  /** The same of the events themselves: all but the timers, which may do nothing. */
  function Happenings(events: seq<Event>): seq<Event> {
    if events == [] then []
    else if events[0].DrainFires? || events[0].Poll? then Happenings(events[1..])
    else [events[0]] + Happenings(events[1..])
  }

  /** Of the happenings, exactly `more` took place between `s` and `t`. */
  ghost predicate Logs(s: State, t: State, more: seq<Event>) {
    EventsOf(t.log) == EventsOf(s.log) + more
  }

  lemma EventsAppend(log: seq<Entry>, e: Entry)
    ensures EventsOf(log + [e]) == EventsOf(log) + EventsOf([e])
  {
    assert (log + [e])[..|log|] == log && [e][..0] == [];
  }

  lemma DrainLoopLogs(s: State)
    ensures Logs(s, DrainLoop(s), [])
  {
    if HasPending(s) && !Blocked(s) {
      EventsAppend(s.log, Started(if |s.highQueue| > 0 then s.highQueue[0] else s.normalQueue[0]));
    }
  }

  lemma DrainFiresLogs(s: State)
    requires s.drains > 0
    ensures Logs(s, DoDrainFires(s), [])
  {
    DrainLoopLogs(s.(drains := s.drains - 1, draining := true));
  }

  lemma EnqueueLogs(s: State, name: string, p: Priority)
    ensures Logs(s, DoEnqueue(s, name, p), [Enqueue(name, p)])
  {
    EventsAppend(s.log, Enqueued(Item(s.idCounter + 1, name, p)));
  }

  lemma ItemEndsLogs(s: State)
    requires s.running.Some?
    ensures Logs(s, DoItemEnds(s), [ItemEnds])
  {
    EventsAppend(s.log, Finished(s.running.value));
    DrainLoopLogs(FinishItem(s));
  }

  lemma PollLogs(s: State, c: Caller)
    ensures Logs(s, DoPoll(s, c), [])
  {
    EventsAppend(s.log, StartedNow(c));
  }

  lemma ExecuteNowLogs(s: State, c: Caller)
    ensures Logs(s, DoExecuteNow(s, c), [ExecuteNow(c)])
  {
    EventsAppend(s.log, Reserved(c));
    PollLogs(Reserve(s, c), c);
  }

  lemma ImmediateEndsLogs(s: State)
    ensures Logs(s, DoImmediateEnds(s), [ImmediateEnds])
  {
    EventsAppend(s.log, FinishedNow(s.holder));
  }

  lemma StepLogs(s: State, e: Event)
    requires Enabled(s, e)
    ensures Logs(s, Step(s, e), if e.DrainFires? || e.Poll? then [] else [e])
  {
    match e {
      case Enqueue(name, p) => EnqueueLogs(s, name, p);
      case DrainFires => DrainFiresLogs(s);
      case ItemEnds => ItemEndsLogs(s);
      case ExecuteNow(c) => ExecuteNowLogs(s, c);
      case Poll(c) => PollLogs(s, c);
      case ImmediateEnds => ImmediateEndsLogs(s);
    }
  }

  lemma {:induction false} RunIsLogged(s: State, events: seq<Event>, t: State)
    requires Reaches(s, events, t)
    ensures EventsOf(t.log) == EventsOf(s.log) + Happenings(events)
    decreases |events|
  {
    if events != [] {
      StepLogs(s, events[0]);
      RunIsLogged(Step(s, events[0]), events[1..], t);
    }
  }

  /** The log that all of the above speaks about holds exactly what happened, in order: every enqueued
      item with its name and priority, every reservation, every end of an operation. */
  lemma LogIsHistory(events: seq<Event>, s: State)
    requires Reaches(INITIAL, events, s)
    ensures EventsOf(s.log) == Happenings(events)
  {
    RunIsLogged(INITIAL, events, s);
  }

  /** A caller that finds nothing running starts at once, whatever is pending; any other one waits. */
  lemma IdleQueueStartsAtOnce(s: State, c: Caller)
    requires c !in s.callers
    ensures var t := Step(s, ExecuteNow(c));
      if s.running.None? && !s.immediateRunning
      then t.immediateRunning && t.holder == c && t.callers == s.callers && t.immediateWaiting == s.immediateWaiting
      else t.callers == s.callers + {c} && t.immediateWaiting == s.immediateWaiting + 1
           && t.running == s.running && t.immediateRunning == s.immediateRunning && t.holder == s.holder
  {
    assert s.callers + {c} - {c} == s.callers;
  }

  // ---------- progress without new arrivals ----------

  predicate IsArrival(e: Event) {
    e.Enqueue? || e.ExecuteNow?
  }

  /** Upper bound on the state-changing steps left. */
  function Work(s: State): nat {
    2 * (|s.highQueue| + |s.normalQueue|) + (if s.running.Some? then 1 else 0) +
    3 * |s.callers| + (if s.immediateRunning then 2 else 0) + s.drains
  }

  predicate Idle(s: State) {
    !HasPending(s) && s.running.None? && !s.immediateRunning && s.callers == {}
  }

  /** An event that is not an arrival, can happen, and changes something. */
  predicate Effective(s: State, e: Event) {
    !IsArrival(e) && Enabled(s, e) && Step(s, e) != s
  }

  lemma EffectiveStepsLowerWork(s: State, e: Event)
    requires Inv(s) && Effective(s, e)
    ensures Work(Step(s, e)) < Work(s)
  {
    if e.Poll? {
      assert |s.callers - {e.caller}| == |s.callers| - 1;
    }
  }

  lemma WorkLeftCanBeDone(s: State) returns (e: Event)
    requires Inv(s) && !Idle(s)
    ensures Effective(s, e)
  {
    if s.running.Some? {
      e := ItemEnds;
      assert |Step(s, e).log| > |s.log|;
    } else if s.immediateRunning {
      e := ImmediateEnds;
    } else if s.callers != {} {
      var c :| c in s.callers;
      e := Poll(c);
    } else {
      e := DrainFires;
    }
  }

  /** `events` is a run from `s` to `t` in which every event is effective. */
  ghost predicate QuietRun(s: State, events: seq<Event>, t: State)
    decreases |events|
  {
    if events == [] then s == t
    else Effective(s, events[0]) && QuietRun(Step(s, events[0]), events[1..], t)
  }

  lemma {:induction false} QuietRunsAreBounded(s: State, events: seq<Event>, t: State)
    requires Inv(s) && QuietRun(s, events, t)
    ensures Inv(t) && |events| + Work(t) <= Work(s)
    decreases |events|
  {
    if events != [] {
      StepKeepsInv(s, events[0]);
      EffectiveStepsLowerWork(s, events[0]);
      QuietRunsAreBounded(Step(s, events[0]), events[1..], t);
    }
  }

  ghost predicate Stuck(s: State) {
    forall e :: !Effective(s, e)
  }

  ghost predicate AllDone(s: State) {
    && Items(s.log, Finishing, High) == Items(s.log, Enqueueing, High)
    && Items(s.log, Finishing, Normal) == Items(s.log, Enqueueing, Normal)
    && forall i :: 0 <= i < |s.log| && s.log[i].Reserved? ==>
         OccursAfter(s.log, i, StartedNow(s.log[i].caller), |s.log|)
  }

  lemma StuckIsDone(s: State)
    requires Inv(s) && Stuck(s)
    ensures AllDone(s)
  {
    if !Idle(s) {
      var e := WorkLeftCanBeDone(s);
      assert false;
    }
    assert Conserved(s, High) && Conserved(s, Normal);
    assert s.highQueue == [] && s.normalQueue == [] && Reserving(s);
  }

  /** From every reachable state: a run without arrivals takes at most `Work` effective steps,
      and when it cannot be continued, every item ever enqueued has finished and every
      reservation has been served. */
  lemma EverythingRuns(past: seq<Event>, s: State, events: seq<Event>, t: State)
    requires Reaches(INITIAL, past, s) && QuietRun(s, events, t)
    ensures |events| <= Work(s)
    ensures Stuck(t) ==> AllDone(t)
  {
    ReachableInv(past, s);
    QuietRunsAreBounded(s, events, t);
    if Stuck(t) { StuckIsDone(t); }
  }

  /** Such a completing run exists from every state that satisfies the invariant. */
  lemma {:induction false} CanAlwaysFinish(s: State) returns (events: seq<Event>, t: State)
    requires Inv(s)
    ensures QuietRun(s, events, t) && Idle(t)
    decreases Work(s)
  {
    if Idle(s) {
      events, t := [], s;
    } else {
      var e := WorkLeftCanBeDone(s);
      StepKeepsInv(s, e);
      EffectiveStepsLowerWork(s, e);
      var rest, last := CanAlwaysFinish(Step(s, e));
      events, t := [e] + rest, last;
      assert events[1..] == rest;
    }
  }
}
