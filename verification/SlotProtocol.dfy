/**
 * The shared-slot protocol between client calls, the client's sender thread, the POSIX message queue,
 * the server's workers and the waiters, one atomic step at a time, for a table of fixed size.
 */
module SlotProtocol {
  import opened Bytes
  import opened RequestQueue

  datatype Arg = Arg(source: string, compressed: string)

  /** One entry of the shared table. `owner` is an auxiliary field that no step reads. */
  datatype Slot = Slot(used: bool, done: bool, arg: Arg, owner: Option<nat>)

  /**
   * How far a call has come since it got its slot. Stages beyond Waiting record, for the proof, what
   * the server has done to the slot.
   */
  datatype Stage =
    | Claimed
    | Waiting
    | Copying
    | Written(out: Arg)
    | Done(out: Arg)
    | Collected(out: Arg)

  /** One call of tinyfile_sync or tinyfile_async; calls are numbered by their request id. */
  datatype Call =
    | Preparing(arg: Arg, priority: nat)
    | Searching(arg: Arg, priority: nat, at: nat)
    | Placed(arg: Arg, priority: nat, idx: nat, stage: Stage)

  datatype Worker =
    | Idle
    | Received(r: Request)
    | Copied(r: Request)
    | Served(r: Request)

  /**
   * A waiter polls the slots of some calls in turn, as tinyfile_async_join does; a synchronous call
   * and tinyfile_async_wait poll a single one. `fills` counts the writes to each output.
   */
  datatype Waiter = Waiter(ids: seq<nat>, flags: seq<bool>, outs: seq<Option<Arg>>, fills: seq<nat>, i: nat, done: nat)

  /**
   * All shared and local state. `waiterOf`, `arrivals`, `received` (what the workers have taken from
   * the message queue, in order) and `served` (how often each request was marked done) are auxiliary.
   */
  datatype State = State(
    slots: seq<Slot>,
    calls: seq<Call>,
    holder: Option<nat>,
    queue: seq<Request>,
    hand: Option<Request>,
    mq: seq<Request>,
    workers: seq<Worker>,
    waiters: seq<Waiter>,
    waiterOf: map<nat, (nat, nat)>,
    arrivals: nat,
    received: seq<Request>,
    served: multiset<nat>)

  const MQ_MAX := 10
  const SUFFIX := ".compressed"

  // ---------- steps ----------

  datatype Step =
    | NewCall(arg: Arg, priority: nat)
    | StartSearch(id: nat)
    | Look(id: nat)
    | Submit(id: nat)
    | TakeHead
    | Send
    | Receive(w: nat)
    | CopyPath(w: nat)
    | AppendSuffix(w: nat)
    | GiveUp(w: nat)
    | MarkDone(w: nat)
    | NewWait(ids: seq<nat>)
    | Poll(v: nat)

  ghost predicate Init(s: State) {
    && |s.slots| > 0
    && (forall k :: 0 <= k < |s.slots| ==> !s.slots[k].used && !s.slots[k].done && s.slots[k].owner.None?)
    && s.calls == [] && s.holder.None? && s.queue == [] && s.hand.None? && s.mq == []
    && (forall w :: 0 <= w < |s.workers| ==> s.workers[w].Idle?)
    && s.waiters == [] && s.waiterOf == map[] && s.arrivals == 0 && s.received == [] && s.served == multiset{}
  }

  function SetStage(s: State, id: nat, stage: Stage): State
    requires id < |s.calls| && s.calls[id].Placed?
  {
    s.(calls := s.calls[id := s.calls[id].(stage := stage)])
  }

  function SetSlot(s: State, k: nat, slot: Slot): State
    requires k < |s.slots|
  {
    s.(slots := s.slots[k := slot])
  }

  /** What the worker's request points at; the server looks at nothing else. */
  predicate Addressed(s: State, r: Request) {
    r.idx < |s.slots| && r.id < |s.calls| && s.calls[r.id].Placed?
  }

  predicate WorkerIn(s: State, w: nat) {
    w < |s.workers| && !s.workers[w].Idle? && Addressed(s, s.workers[w].r)
  }

  predicate Enabled(s: State, step: Step) {
    match step
    case NewCall(arg, priority) => priority <= 31
    case StartSearch(id) => id < |s.calls| && s.calls[id].Preparing? && s.holder.None?
    case Look(id) => id < |s.calls| && s.calls[id].Searching? && s.holder == Some(id) && s.calls[id].at < |s.slots|
    case Submit(id) => id < |s.calls| && s.calls[id].Placed? && s.calls[id].stage.Claimed?
    case TakeHead => s.hand.None? && |s.queue| > 0
    case Send => s.hand.Some? && |s.mq| < MQ_MAX
    case Receive(w) => w < |s.workers| && s.workers[w].Idle? && |s.mq| > 0
    case CopyPath(w) => WorkerIn(s, w) && s.workers[w].Received?
    case AppendSuffix(w) => WorkerIn(s, w) && s.workers[w].Copied?
    case GiveUp(w) => WorkerIn(s, w) && s.workers[w].Received?
    case MarkDone(w) => WorkerIn(s, w) && s.workers[w].Served?
    case NewWait(ids) =>
      && |ids| > 0 && (forall i, j :: 0 <= i < j < |ids| ==> ids[i] != ids[j])
      && (forall i :: 0 <= i < |ids| ==> Awaitable(s, ids[i]))
    case Poll(v) =>
      && v < |s.waiters| && s.waiters[v].done < |s.waiters[v].ids|
      && |s.waiters[v].flags| == |s.waiters[v].outs| == |s.waiters[v].fills| == |s.waiters[v].ids|
      && s.waiters[v].i < |s.waiters[v].ids|
      && Handle(s, s.waiters[v].ids[s.waiters[v].i])
  }

  /** The call has returned its entry index. */
  predicate Handle(s: State, id: nat) {
    id < |s.calls| && s.calls[id].Placed? && !s.calls[id].stage.Claimed? && s.calls[id].idx < |s.slots|
  }

  /** The call has returned its entry index and nobody waits for it yet. */
  predicate Awaitable(s: State, id: nat) {
    Handle(s, id) && id !in s.waiterOf
  }

  function Result(s: State, step: Step): State
    requires Enabled(s, step)
  {
    match step
    case NewCall(arg, priority) => s.(calls := s.calls + [Preparing(arg, priority)])
    case StartSearch(id) =>
      var c := s.calls[id];
      s.(holder := Some(id), calls := s.calls[id := Searching(c.arg, c.priority, 0)])
    case Look(id) =>
      var c := s.calls[id];
      if s.slots[c.at].used then
        s.(calls := s.calls[id := c.(at := (c.at + 1) % |s.slots|)])
      else
        s.(holder := None,
           slots := s.slots[c.at := Slot(true, false, c.arg, Some(id))],
           calls := s.calls[id := Placed(c.arg, c.priority, c.at, Claimed)])
    case Submit(id) =>
      var c := s.calls[id];
      SetStage(s, id, Waiting).(queue := Insert(s.queue, Request(id, c.idx, c.priority, s.arrivals)),
                                arrivals := s.arrivals + 1)
    case TakeHead => s.(hand := Some(s.queue[0]), queue := s.queue[1..])
    case Send => s.(hand := None, mq := Insert(s.mq, s.hand.value))
    case Receive(w) =>
      s.(workers := s.workers[w := Received(s.mq[0])], mq := s.mq[1..], received := s.received + [s.mq[0]])
    case CopyPath(w) =>
      var r := s.workers[w].r;
      var slot := s.slots[r.idx];
      SetStage(SetSlot(s, r.idx, slot.(arg := slot.arg.(compressed := slot.arg.source))), r.id, Copying)
        .(workers := s.workers[w := Copied(r)])
    case AppendSuffix(w) =>
      var r := s.workers[w].r;
      var slot := s.slots[r.idx];
      var arg := slot.arg.(compressed := slot.arg.compressed + SUFFIX);
      SetStage(SetSlot(s, r.idx, slot.(arg := arg)), r.id, Written(arg)).(workers := s.workers[w := Served(r)])
    case GiveUp(w) =>
      var r := s.workers[w].r;
      SetStage(s, r.id, Written(s.slots[r.idx].arg)).(workers := s.workers[w := Served(r)])
    case MarkDone(w) =>
      var r := s.workers[w].r;
      var slot := s.slots[r.idx];
      SetStage(SetSlot(s, r.idx, slot.(done := true)), r.id, Done(slot.arg))
        .(workers := s.workers[w := Idle], served := s.served + multiset{r.id})
    case NewWait(ids) =>
      var n := |ids|;
      s.(waiters := s.waiters + [Waiter(ids, seq(n, _ => false), seq(n, _ => None), seq(n, _ => 0), 0, 0)],
         waiterOf := s.waiterOf + map id | id in ids :: (|s.waiters|, IndexOf(ids, id)))
    case Poll(v) => PollResult(s, v)
  }

  function IndexOf(ids: seq<nat>, id: nat): (k: nat)
    requires id in ids
    ensures k < |ids| && ids[k] == id
  {
    if ids[0] == id then 0 else 1 + IndexOf(ids[1..], id)
  }

  /** One turn of the polling loop: look at the slot unless this output has been filled already. */
  function PollResult(s: State, v: nat): State
    requires Enabled(s, Poll(v))
  {
    var x := s.waiters[v];
    var next := (x.i + 1) % |x.ids|;
    var id := x.ids[x.i];
    var slot := s.slots[s.calls[id].idx];
    if x.flags[x.i] || !slot.done then
      s.(waiters := s.waiters[v := x.(i := next)])
    else
      SetStage(SetSlot(s, s.calls[id].idx, Slot(false, false, slot.arg, None)), id, Collected(slot.arg))
        .(waiters := s.waiters[v := Waiter(x.ids, x.flags[x.i := true], x.outs[x.i := Some(slot.arg)],
                                           x.fills[x.i := x.fills[x.i] + 1], next, x.done + 1)])
  }

  // ---------- runs ----------

  /** The state after a sequence of steps, or None if one of them cannot be taken. */
  function RunFrom(s: State, steps: seq<Step>): Option<State>
    decreases |steps|
  {
    if |steps| == 0 then Some(s)
    else if Enabled(s, steps[0]) then RunFrom(Result(s, steps[0]), steps[1..])
    else None
  }

  ghost predicate Reachable(s: State) {
    exists s0: State, steps: seq<Step> :: Init(s0) && RunFrom(s0, steps) == Some(s)
  }
}
