/**
  The operation queue as an interleaving state machine.

  JavaScript runs one callback at a time, so the queue is only ever observed between the atomic
  sections that `await`, `setImmediate` and `setTimeout` separate. Each event below is one such
  section. The state holds the class fields, the environment (outstanding `setImmediate`
  callbacks, the identities of the callers waiting in `executeNow`) and a log of what happened.
 */
module QueueModel {
  import opened Options

  datatype Priority = High | Normal

  datatype Item = Item(id: nat, name: string, priority: Priority)

  /** One pending or running call of `executeNow`. */
  type Caller = nat

  datatype Entry =
    | Enqueued(item: Item)
    | Started(item: Item)
    | Finished(item: Item)
    | Reserved(caller: Caller)
    | StartedNow(caller: Caller)
    | FinishedNow(caller: Caller)

  datatype State = State(
    highQueue: seq<Item>,
    normalQueue: seq<Item>,
    running: Option<Item>,
    immediateRunning: bool,
    immediateWaiting: int,
    draining: bool,
    idCounter: nat,
    highPrioritySeq: nat,
    drains: nat,          // setImmediate callbacks scheduled and not yet run
    callers: set<Caller>, // executeNow calls that are waiting
    holder: Caller,       // the executeNow call in progress, if immediateRunning
    log: seq<Entry>)

  const INITIAL := State([], [], None, false, 0, false, 0, 0, 0, {}, 0, [])

  datatype Event =
    | Enqueue(name: string, priority: Priority)
    | DrainFires
    | ItemEnds
    | ExecuteNow(caller: Caller)
    | Poll(caller: Caller)
    | ImmediateEnds

  // ---------- atomic sections ----------

  predicate HasPending(s: State) {
    |s.highQueue| > 0 || |s.normalQueue| > 0
  }

  /** An immediate operation runs or waits, so the drain loop holds the door. */
  predicate Blocked(s: State) {
    s.immediateRunning || s.immediateWaiting > 0
  }

  function ScheduleDrain(s: State): State {
    if s.draining then s else s.(drains := s.drains + 1)
  }

  function DoEnqueue(s: State, name: string, priority: Priority): State {
    var item := Item(s.idCounter + 1, name, priority);
    var t := s.(idCounter := s.idCounter + 1, log := s.log + [Enqueued(item)]);
    ScheduleDrain(
      if priority == High
      then t.(highPrioritySeq := t.highPrioritySeq + 1, highQueue := t.highQueue + [item])
      else t.(normalQueue := t.normalQueue + [item]))
  }

  function StartItem(s: State, item: Item): State {
    s.(running := Some(item), log := s.log + [Started(item)])
  }

  function StartNext(s: State): State
    requires HasPending(s)
  {
    if |s.highQueue| > 0
    then StartItem(s.(highQueue := s.highQueue[1..]), s.highQueue[0])
    else StartItem(s.(normalQueue := s.normalQueue[1..]), s.normalQueue[0])
  }

  /** The drain loop from its condition to the next await, or through its exit and recheck.
      The recheck after the loop never schedules anything: nothing can have changed since the
      loop condition or the door check failed. */
  function DrainLoop(s: State): (t: State)
    ensures t.drains == s.drains
  {
    if HasPending(s) && !Blocked(s) then StartNext(s)
    else
      var t := s.(draining := false);
      if HasPending(t) && !Blocked(t) then ScheduleDrain(t) else t
  }

  function DoDrainFires(s: State): State
    requires s.drains > 0
  {
    var t := s.(drains := s.drains - 1);
    if t.draining then t else DrainLoop(t.(draining := true))
  }

  function FinishItem(s: State): State
    requires s.running.Some?
  {
    s.(running := None, log := s.log + [Finished(s.running.value)])
  }

  function DoItemEnds(s: State): State
    requires s.running.Some?
  {
    DrainLoop(FinishItem(s))
  }

  function DoPoll(s: State, caller: Caller): State {
    if s.running.Some? || s.immediateRunning then s
    else s.(immediateRunning := true, holder := caller, callers := s.callers - {caller},
            immediateWaiting := s.immediateWaiting - 1, log := s.log + [StartedNow(caller)])
  }

  function Reserve(s: State, caller: Caller): State {
    s.(immediateWaiting := s.immediateWaiting + 1, callers := s.callers + {caller},
       log := s.log + [Reserved(caller)])
  }

  function DoExecuteNow(s: State, caller: Caller): State {
    DoPoll(Reserve(s, caller), caller)
  }

  function DoImmediateEnds(s: State): State {
    ScheduleDrain(s.(immediateRunning := false, log := s.log + [FinishedNow(s.holder)]))
  }

  predicate Enabled(s: State, e: Event) {
    match e
    case Enqueue(_, _) => true
    case DrainFires => s.drains > 0
    case ItemEnds => s.running.Some?
    case ExecuteNow(c) => c !in s.callers
    case Poll(c) => c in s.callers
    case ImmediateEnds => s.immediateRunning
  }

  function Step(s: State, e: Event): State
    requires Enabled(s, e)
  {
    match e
    case Enqueue(name, priority) => DoEnqueue(s, name, priority)
    case DrainFires => DoDrainFires(s)
    case ItemEnds => DoItemEnds(s)
    case ExecuteNow(c) => DoExecuteNow(s, c)
    case Poll(c) => DoPoll(s, c)
    case ImmediateEnds => DoImmediateEnds(s)
  }

  /** Some interleaving `events` leads from `s` to `t`. */
  ghost predicate Reaches(s: State, events: seq<Event>, t: State)
    decreases |events|
  {
    if events == [] then s == t
    else Enabled(s, events[0]) && Reaches(Step(s, events[0]), events[1..], t)
  }

  // ---------- what the log says, independently of the fields ----------

  datatype Phase = Enqueueing | Starting | Finishing

  predicate Matches(e: Entry, phase: Phase, p: Priority) {
    match e
    case Enqueued(item) => phase == Enqueueing && item.priority == p
    case Started(item) => phase == Starting && item.priority == p
    case Finished(item) => phase == Finishing && item.priority == p
    case _ => false
  }

  /** The items of priority `p` that went through `phase`, in the order they did. */
  function Items(log: seq<Entry>, phase: Phase, p: Priority): seq<Item>
    decreases |log|
  {
    if log == [] then []
    else
      var last := log[|log| - 1];
      Items(log[..|log| - 1], phase, p) + if Matches(last, phase, p) then [last.item] else []
  }

  predicate IsStart(e: Entry) {
    e.Started? || e.StartedNow?
  }

  function EndOf(e: Entry): Entry
    requires IsStart(e)
  {
    match e
    case Started(item) => Finished(item)
    case StartedNow(c) => FinishedNow(c)
  }

  ghost predicate OccursAfter(log: seq<Entry>, i: int, e: Entry, end: int)
    requires end <= |log|
  {
    exists k :: 0 <= k && i < k < end && log[k] == e
  }

  /** Whenever an operation starts, every operation started earlier has already ended. */
  ghost predicate OneAtATime(log: seq<Entry>) {
    forall i, j :: 0 <= i < j < |log| && IsStart(log[i]) && IsStart(log[j]) ==>
      OccursAfter(log, i, EndOf(log[i]), j)
  }

  /** No queued item starts between a reservation and the run of the caller that made it. */
  ghost predicate ReservationsHonoured(log: seq<Entry>) {
    forall i, j :: 0 <= i < j < |log| && log[i].Reserved? && log[j].Started? ==>
      OccursAfter(log, i, StartedNow(log[i].caller), j)
  }

  /** A NORMAL item starts only when every HIGH item enqueued so far has started. */
  ghost predicate HighFirst(log: seq<Entry>) {
    forall j :: 0 <= j < |log| && log[j].Started? && log[j].item.priority == Normal ==>
      Items(log[..j], Starting, High) == Items(log[..j], Enqueueing, High)
  }
}
