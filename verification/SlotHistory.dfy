/**
 * What the states of the slot protocol owe to the steps that were taken. The lists here are read off
 * the steps of a run, not off the states, so that arguments, priorities, waits and the order of
 * submission are those which the callers gave.
 */
module SlotHistory {
  import opened Bytes
  import opened RequestQueue
  import opened SlotProtocol
  import opened SlotInvariant
  import opened SlotTheorems
  import opened SlotOrder

  // ---------- reading a run ----------

  /** The argument and the priority of every call, in the order in which they were made. */
  function Submitted(steps: seq<Step>): seq<(Arg, nat)> {
    if |steps| == 0 then []
    else (if steps[0].NewCall? then [(steps[0].arg, steps[0].priority)] else []) + Submitted(steps[1..])
  }

  /** The calls that every wait or join was asked for. */
  function Waits(steps: seq<Step>): seq<seq<nat>> {
    if |steps| == 0 then []
    else (if steps[0].NewWait? then [steps[0].ids] else []) + Waits(steps[1..])
  }

  /** The calls that were handed to the queue, in that order. */
  function Submissions(steps: seq<Step>): seq<nat> {
    if |steps| == 0 then []
    else (if steps[0].Submit? then [steps[0].id] else []) + Submissions(steps[1..])
  }

  /** The calls whose file the server could not compress. */
  function GivenUp(s: State, steps: seq<Step>): set<nat>
    requires RunFrom(s, steps).Some?
    decreases |steps|
  {
    if |steps| == 0 then {} else GivenUpBy(s, steps[0]) + GivenUp(Result(s, steps[0]), steps[1..])
  }

  function GivenUpBy(s: State, step: Step): set<nat>
    requires Enabled(s, step)
  {
    if step.GiveUp? then {s.workers[step.w].r.id} else {}
  }

  /** The calls that the server has marked done, as often as it did. */
  function Marked(s: State, steps: seq<Step>): multiset<nat>
    requires RunFrom(s, steps).Some?
    decreases |steps|
  {
    if |steps| == 0 then multiset{} else MarkedBy(s, steps[0]) + Marked(Result(s, steps[0]), steps[1..])
  }

  function MarkedBy(s: State, step: Step): multiset<nat>
    requires Enabled(s, step)
  {
    if step.MarkDone? then multiset{s.workers[step.w].r.id} else multiset{}
  }

  /** What the caller must get back: the path with the suffix, or its own argument on a failure. */
  function Delivered(arg: Arg, gaveUp: bool): Arg {
    if gaveUp then arg else Arg(arg.source, arg.source + SUFFIX)
  }

  // ---------- calls and waits ----------

  function Given(calls: seq<Call>): seq<(Arg, nat)> {
    seq(|calls|, i requires 0 <= i < |calls| => (calls[i].arg, calls[i].priority))
  }

  function Awaited(waiters: seq<Waiter>): seq<seq<nat>> {
    seq(|waiters|, v requires 0 <= v < |waiters| => waiters[v].ids)
  }

  lemma StepGives(s: State, step: Step)
    requires Enabled(s, step)
    ensures Given(Result(s, step).calls)
         == Given(s.calls) + if step.NewCall? then [(step.arg, step.priority)] else []
    ensures Awaited(Result(s, step).waiters) == Awaited(s.waiters) + if step.NewWait? then [step.ids] else []
  {
    hide Insert, IndexOf;
  }

  /** Every call keeps the argument and the priority it was made with. */
  lemma {:induction false} RunGives(s: State, steps: seq<Step>)
    requires RunFrom(s, steps).Some?
    ensures Given(RunFrom(s, steps).value.calls) == Given(s.calls) + Submitted(steps)
    decreases |steps|
  {
    hide Enabled, Result, Given, Awaited;
    if |steps| > 0 {
      var more := if steps[0].NewCall? then [(steps[0].arg, steps[0].priority)] else [];
      StepGives(s, steps[0]);
      RunGives(Result(s, steps[0]), steps[1..]);
      assert Given(s.calls) + more + Submitted(steps[1..]) == Given(s.calls) + (more + Submitted(steps[1..]));
    }
  }

  /** Every wait keeps the calls it was asked for. */
  lemma {:induction false} RunWaits(s: State, steps: seq<Step>)
    requires RunFrom(s, steps).Some?
    ensures Awaited(RunFrom(s, steps).value.waiters) == Awaited(s.waiters) + Waits(steps)
    decreases |steps|
  {
    hide Enabled, Result, Given, Awaited;
    if |steps| > 0 {
      var more := if steps[0].NewWait? then [steps[0].ids] else [];
      StepGives(s, steps[0]);
      RunWaits(Result(s, steps[0]), steps[1..]);
      assert Awaited(s.waiters) + more + Waits(steps[1..]) == Awaited(s.waiters) + (more + Waits(steps[1..]));
    }
  }

  // ---------- submission, reception and service ----------

  /** Every request in the list carries the number of its submission. */
  ghost predicate NumberedIn(q: seq<Request>, subs: seq<nat>) {
    forall i :: 0 <= i < |q| ==> q[i].arrival < |subs| && subs[q[i].arrival] == q[i].id
  }

  /** Everything submitted is waiting, in hand, in the message queue, or has been received. */
  ghost predicate Accounted(s: State, subs: seq<nat>) {
    && s.arrivals == |subs|
    && multiset(subs) == IdBag(s.queue) + HandBag(s.hand) + IdBag(s.mq) + IdBag(s.received)
    && NumberedIn(s.queue, subs) && NumberedIn(Hand(s), subs) && NumberedIn(s.mq, subs)
    && NumberedIn(s.received, subs)
  }

  lemma NumberedMore(q: seq<Request>, subs: seq<nat>, id: nat)
    requires NumberedIn(q, subs)
    ensures NumberedIn(q, subs + [id])
  {
  }

  lemma NumberedHead(q: seq<Request>, subs: seq<nat>)
    requires NumberedIn(q, subs) && |q| > 0
    ensures NumberedIn([q[0]], subs) && NumberedIn(q[1..], subs)
  {
  }

  lemma NumberedSnoc(q: seq<Request>, r: Request, subs: seq<nat>)
    requires NumberedIn(q, subs) && NumberedIn([r], subs)
    ensures NumberedIn(q + [r], subs)
  {
    assert [r][0] == r;
  }

  lemma NumberedInsert(q: seq<Request>, r: Request, subs: seq<nat>)
    requires NumberedIn(q, subs) && r.arrival < |subs| && subs[r.arrival] == r.id
    ensures NumberedIn(Insert(q, r), subs)
  {
    var n := Insert(q, r);
    InsertOnly(q, r, n);
    forall i | 0 <= i < |n| ensures n[i].arrival < |subs| && subs[n[i].arrival] == n[i].id {
      assert n[i] == r || n[i] in q;
    }
  }

  lemma {:induction false} BagSnoc(q: seq<Request>, r: Request)
    ensures IdBag(q + [r]) == IdBag(q) + multiset{r.id}
  {
    if |q| == 0 {
      assert q + [r] == [r] && [r][1..] == [];
    } else {
      BagSnoc(q[1..], r);
      assert (q + [r])[1..] == q[1..] + [r];
    }
  }

  lemma SubmitAccounted(s: State, id: nat, subs: seq<nat>)
    requires Accounted(s, subs) && Enabled(s, Submit(id))
    ensures Accounted(Result(s, Submit(id)), subs + [id])
  {
    hide Insert, IdBag;
    var r := Request(id, s.calls[id].idx, s.calls[id].priority, s.arrivals);
    InsertBag(s.queue, r);
    NumberedMore(s.queue, subs, id);
    NumberedMore(Hand(s), subs, id);
    NumberedMore(s.mq, subs, id);
    NumberedMore(s.received, subs, id);
    NumberedInsert(s.queue, r, subs + [id]);
  }

  lemma SendAccounted(s: State, subs: seq<nat>)
    requires Accounted(s, subs) && Enabled(s, Send)
    ensures Accounted(Result(s, Send), subs)
  {
    hide Insert, IdBag;
    var r := s.hand.value;
    assert Hand(s)[0] == r;
    InsertBag(s.mq, r);
    NumberedInsert(s.mq, r, subs);
  }

  lemma {:induction false} BagHead(q: seq<Request>)
    requires |q| > 0
    ensures IdBag(q) == multiset{q[0].id} + IdBag(q[1..])
  {
  }

  lemma ReceiveAccounted(s: State, w: nat, subs: seq<nat>)
    requires Accounted(s, subs) && Enabled(s, Receive(w))
    ensures Accounted(Result(s, Receive(w)), subs)
  {
    hide IdBag, NumberedIn;
    BagSnoc(s.received, s.mq[0]);
    BagHead(s.mq);
    NumberedHead(s.mq, subs);
    NumberedSnoc(s.received, s.mq[0], subs);
  }

  lemma TakeHeadAccounted(s: State, subs: seq<nat>)
    requires Accounted(s, subs) && Enabled(s, TakeHead)
    ensures Accounted(Result(s, TakeHead), subs)
  {
    hide IdBag, NumberedIn;
    BagHead(s.queue);
    NumberedHead(s.queue, subs);
  }

  /** The other steps leave the way of the requests alone. */
  lemma ElsewhereAccounted(s: State, step: Step, subs: seq<nat>)
    requires Accounted(s, subs) && Enabled(s, step)
    requires !step.Submit? && !step.Send? && !step.TakeHead? && !step.Receive?
    ensures Accounted(Result(s, step), subs)
  {
    hide Insert, IndexOf, NumberedIn, IdBag;
    var s' := Result(s, step);
    assert s'.queue == s.queue && s'.mq == s.mq && s'.hand == s.hand && s'.received == s.received;
    assert s'.arrivals == s.arrivals;
  }

  lemma StepAccounted(s: State, step: Step, subs: seq<nat>)
    requires Accounted(s, subs) && Enabled(s, step)
    ensures Accounted(Result(s, step), subs + if step.Submit? then [step.id] else [])
  {
    hide Accounted, Enabled, Result;
    assert subs + [] == subs;
    match step {
      case Submit(id) => SubmitAccounted(s, id, subs);
      case Send => SendAccounted(s, subs);
      case TakeHead => TakeHeadAccounted(s, subs);
      case Receive(w) => ReceiveAccounted(s, w, subs);
      case _ => ElsewhereAccounted(s, step, subs);
    }
  }

  lemma {:induction false} RunAccounted(s: State, steps: seq<Step>, subs: seq<nat>)
    requires Accounted(s, subs) && RunFrom(s, steps).Some?
    ensures Accounted(RunFrom(s, steps).value, subs + Submissions(steps))
    decreases |steps|
  {
    hide Enabled, Result, Accounted;
    if |steps| == 0 {
      assert subs + [] == subs;
    } else {
      var more := if steps[0].Submit? then [steps[0].id] else [];
      StepAccounted(s, steps[0], subs);
      RunAccounted(Result(s, steps[0]), steps[1..], subs + more);
      assert Submissions(steps) == more + Submissions(steps[1..]);
      hide Submissions;
      assert subs + more + Submissions(steps[1..]) == subs + (more + Submissions(steps[1..]));
    }
  }

  /** A call that is through has the outcome that fits what the server did with it. */
  predicate ToldOne(c: Call, gaveUp: bool) {
    if c.Placed? && (c.stage.Written? || c.stage.Done? || c.stage.Collected?)
    then c.stage.out == Delivered(c.arg, gaveUp)
    else !gaveUp
  }

  ghost predicate Told(calls: seq<Call>, gaveUp: set<nat>) {
    && (forall id :: 0 <= id < |calls| ==> ToldOne(calls[id], id in gaveUp))
    && (forall id :: id in gaveUp ==> id < |calls|)
  }

  lemma ToldUpdate(calls: seq<Call>, gaveUp: set<nat>, id: nat, c: Call, more: set<nat>)
    requires Told(calls, gaveUp) && id < |calls| && more <= {id} && ToldOne(c, id in gaveUp + more)
    ensures Told(calls[id := c], gaveUp + more)
  {
  }

  lemma ToldOf(calls: seq<Call>, gaveUp: set<nat>, id: nat)
    requires Told(calls, gaveUp) && id < |calls|
    ensures ToldOne(calls[id], id in gaveUp)
  {
  }

  lemma ToldNew(calls: seq<Call>, gaveUp: set<nat>, c: Call)
    requires Told(calls, gaveUp) && c.Preparing?
    ensures Told(calls + [c], gaveUp)
  {
  }

  /** The call that a step changes, if it changes one. */
  function Changes(s: State, step: Step): (r: Option<nat>)
    requires Enabled(s, step)
  {
    match step
    case StartSearch(id) => Some(id)
    case Look(id) => Some(id)
    case Submit(id) => Some(id)
    case CopyPath(w) => Some(s.workers[w].r.id)
    case AppendSuffix(w) => Some(s.workers[w].r.id)
    case GiveUp(w) => Some(s.workers[w].r.id)
    case MarkDone(w) => Some(s.workers[w].r.id)
    case Poll(v) => Some(s.waiters[v].ids[s.waiters[v].i])
    case _ => None
  }

  /** The changed call is told of correctly, and no other call changes. */
  lemma StepTellsOne(s: State, step: Step, gaveUp: set<nat>)
    requires Inv(s) && Enabled(s, step) && Changes(s, step).Some?
    requires Changes(s, step).value < |s.calls| ==>
               ToldOne(s.calls[Changes(s, step).value], Changes(s, step).value in gaveUp)
    ensures var id := Changes(s, step).value;
            && id < |s.calls| && |Result(s, step).calls| == |s.calls|
            && Result(s, step).calls == s.calls[id := Result(s, step).calls[id]]
            && GivenUpBy(s, step) <= {id}
            && ToldOne(Result(s, step).calls[id], id in gaveUp + GivenUpBy(s, step))
  {
    hide Inv, Insert, IndexOf;
    if step.CopyPath? || step.AppendSuffix? || step.GiveUp? || step.MarkDone? {
      WorkerStage(s, step.w);
    } else if step.Poll? {
      PollingOwner(s, step.v);
    }
  }

  lemma StepTold(s: State, step: Step, gaveUp: set<nat>)
    requires Inv(s) && Told(s.calls, gaveUp) && Enabled(s, step)
    ensures Told(Result(s, step).calls, gaveUp + GivenUpBy(s, step))
  {
    hide Inv, Told, ToldOne;
    if Changes(s, step).Some? {
      hide Result, Enabled;
      var id := Changes(s, step).value;
      if id < |s.calls| { ToldOf(s.calls, gaveUp, id); }
      StepTellsOne(s, step, gaveUp);
      ToldUpdate(s.calls, gaveUp, id, Result(s, step).calls[id], GivenUpBy(s, step));
    } else {
      hide Insert, IndexOf;
      assert gaveUp + GivenUpBy(s, step) == gaveUp;
      if step.NewCall? { ToldNew(s.calls, gaveUp, Preparing(step.arg, step.priority)); }
    }
  }

  lemma StepMarks(s: State, step: Step)
    requires Enabled(s, step)
    ensures Result(s, step).served == s.served + MarkedBy(s, step)
  {
    hide Insert, IndexOf;
  }

  lemma {:induction false} RunTold(s: State, steps: seq<Step>, gaveUp: set<nat>)
    requires Inv(s) && Told(s.calls, gaveUp) && RunFrom(s, steps).Some?
    ensures Told(RunFrom(s, steps).value.calls, gaveUp + GivenUp(s, steps))
    ensures RunFrom(s, steps).value.served == s.served + Marked(s, steps)
    decreases |steps|
  {
    hide Inv, Enabled, Result, Told, GivenUpBy, MarkedBy;
    if |steps| == 0 {
      assert gaveUp + {} == gaveUp;
    } else {
      StepTold(s, steps[0], gaveUp);
      StepMarks(s, steps[0]);
      StepKeeps(s, steps[0]);
      var more := GivenUpBy(s, steps[0]);
      RunTold(Result(s, steps[0]), steps[1..], gaveUp + more);
      assert gaveUp + more + GivenUp(Result(s, steps[0]), steps[1..]) == gaveUp + GivenUp(s, steps);
    }
  }

  // ---------- the theorems ----------

  /** A run from the initial table. */
  ghost predicate From(s0: State, steps: seq<Step>, s: State) {
    Init(s0) && RunFrom(s0, steps) == Some(s)
  }

  lemma FromReachable(s0: State, steps: seq<Step>, s: State)
    requires From(s0, steps, s)
    ensures Reachable(s)
  {
  }

  /** All calls and waits of a state are those that the steps of the run made. */
  lemma CallsAndWaits(s0: State, steps: seq<Step>, s: State)
    requires From(s0, steps, s)
    ensures Given(s.calls) == Submitted(steps) && Awaited(s.waiters) == Waits(steps)
  {
    RunGives(s0, steps);
    RunWaits(s0, steps);
  }

  /** What is known of all calls of a run. */
  lemma CallsTold(s0: State, steps: seq<Step>, s: State)
    requires From(s0, steps, s)
    ensures Told(s.calls, GivenUp(s0, steps)) && s.served == Marked(s0, steps)
  {
    InitHolds(s0);
    RunTold(s0, steps, {});
    assert {} + GivenUp(s0, steps) == GivenUp(s0, steps);
  }

  /**
   * Exactly-once delivery. When the loop of a wait or join ends, every output that it was asked for has
   * been filled exactly once: with the argument of that very call, untouched if the server gave up, and
   * with its path followed by the suffix otherwise. The server has marked each of these calls once.
   */
  lemma JoinReturns(s0: State, steps: seq<Step>, s: State, v: nat)
    requires From(s0, steps, s) && v < |Waits(steps)| && v < |s.waiters| && s.waiters[v].done >= |Waits(steps)[v]|
    ensures |s.waiters| == |Waits(steps)| && |s.waiters[v].outs| == |s.waiters[v].fills| == |Waits(steps)[v]|
    ensures forall k :: 0 <= k < |Waits(steps)[v]| ==>
              Delivery(s.waiters[v], k, Waits(steps)[v][k], Submitted(steps), GivenUp(s0, steps), Marked(s0, steps))
  {
    hide Reachable, RunFrom, Init, Inv, Told;
    FromReachable(s0, steps, s);
    CallsAndWaits(s0, steps, s);
    CallsTold(s0, steps, s);
    assert Awaited(s.waiters)[v] == s.waiters[v].ids;
    AllFilled(s, v);
    OutputsFilled(s, v);
    forall k | 0 <= k < |Waits(steps)[v]|
      ensures Delivery(s.waiters[v], k, Waits(steps)[v][k], Submitted(steps), GivenUp(s0, steps), Marked(s0, steps))
    {
      var id := Waits(steps)[v][k];
      assert Given(s.calls)[id] == (s.calls[id].arg, s.calls[id].priority);
      CollectedTold(s.calls, GivenUp(s0, steps), id);
    }
  }

  /** Output k is filled once, with what call id must get back, and the call was marked once. */
  ghost predicate Delivery(x: Waiter, k: nat, id: nat, submitted: seq<(Arg, nat)>, gaveUp: set<nat>,
                           marked: multiset<nat>)
  {
    && k < |x.outs| && k < |x.fills| && id < |submitted|
    && x.fills[k] == 1 && marked[id] == 1
    && x.outs[k] == Some(Delivered(submitted[id].0, id in gaveUp))
  }

  lemma AllFilled(s: State, v: nat)
    requires Reachable(s) && v < |s.waiters| && s.waiters[v].done >= |s.waiters[v].ids|
    ensures s.waiters[v].done == |s.waiters[v].ids|
  {
    ReachableInv(s);
    ShapeOf(s, v);
    CountTrueFull(s.waiters[v].flags);
  }

  lemma CollectedTold(calls: seq<Call>, gaveUp: set<nat>, id: nat)
    requires Told(calls, gaveUp) && HasStage(calls, id) && calls[id].stage.Collected?
    ensures calls[id].stage.out == Delivered(calls[id].arg, id in gaveUp)
  {
  }

  /** A wait or join can always return: sender, workers and its own loop suffice. */
  lemma JoinCanReturn(s0: State, steps: seq<Step>, s: State, v: nat) returns (more: seq<Step>)
    requires From(s0, steps, s) && |s.workers| > 0 && v < |Waits(steps)|
    ensures forall i :: 0 <= i < |more| ==> Forwards(more[i]) || more[i] == Poll(v)
    ensures RunFrom(s, more).Some? && v < |RunFrom(s, more).value.waiters|
    ensures RunFrom(s, more).value.waiters[v].done >= |Waits(steps)[v]|
  {
    hide Reachable, RunFrom, Init;
    FromReachable(s0, steps, s);
    CallsAndWaits(s0, steps, s);
    assert Awaited(s.waiters)[v] == s.waiters[v].ids;
    more := WaiterCanReturn(s, v);
  }

  /**
   * Nothing that was submitted is lost or duplicated on its way to the workers, and among equal
   * priorities the workers receive in the order of submission.
   */
  lemma ReceivedAsSubmitted(s0: State, steps: seq<Step>, s: State)
    requires From(s0, steps, s)
    ensures multiset(Submissions(steps)) == IdBag(s.queue) + HandBag(s.hand) + IdBag(s.mq) + IdBag(s.received)
    ensures NumberedIn(s.received, Submissions(steps)) && Fifo(s.received)
  {
    FromReachable(s0, steps, s);
    hide Reachable, RunFrom, Fifo;
    ReceivedInOrder(s);
    assert Accounted(s0, []);
    hide Init, IdBag, NumberedIn;
    RunAccounted(s0, steps, []);
    assert [] + Submissions(steps) == Submissions(steps);
  }

  /** Every request under way carries the priority that its caller gave. */
  lemma PriorityCarried(s0: State, steps: seq<Step>, s: State, r: Request)
    requires From(s0, steps, s) && UnderWay(s, r)
    ensures CarriesPriority(r, Submitted(steps))
  {
    FromReachable(s0, steps, s);
    hide Reachable, RunFrom, Init;
    CallsAndWaits(s0, steps, s);
    ReachableInv(s);
    UnderWayOk(s, r);
    assert Given(s.calls)[r.id] == (s.calls[r.id].arg, s.calls[r.id].priority);
  }

  ghost predicate UnderWay(s: State, r: Request) {
    r in s.queue || s.hand == Some(r) || r in s.mq
    || exists w :: 0 <= w < |s.workers| && !s.workers[w].Idle? && s.workers[w].r == r
  }

  lemma UnderWayOk(s: State, r: Request)
    requires Inv(s) && UnderWay(s, r)
    ensures RequestOk(r, s.calls)
  {
    hide SlotsOk, WaitersOk, TokensOk, SearchOk;
  }

  predicate CarriesPriority(r: Request, submitted: seq<(Arg, nat)>) {
    r.id < |submitted| && r.priority == submitted[r.id].1
  }

  lemma {:induction false} SubmittedInRange(s: State, steps: seq<Step>)
    requires RunFrom(s, steps).Some?
    ensures forall i :: 0 <= i < |Submitted(steps)| ==> Submitted(steps)[i].1 <= 31
    decreases |steps|
  {
    hide Result;
    if |steps| > 0 { SubmittedInRange(Result(s, steps[0]), steps[1..]); }
  }

  /** No priority outside 0..31 is ever under way. */
  lemma PrioritiesInRange(s0: State, steps: seq<Step>, s: State, r: Request)
    requires From(s0, steps, s) && UnderWay(s, r)
    ensures r.priority <= 31
  {
    hide RunFrom, Init;
    PriorityCarried(s0, steps, s, r);
    SubmittedInRange(s0, steps);
  }

  /** A server that gives up leaves every slot as it was. */
  lemma GiveUpChangesNoSlot(s: State, w: nat)
    requires Enabled(s, GiveUp(w))
    ensures Result(s, GiveUp(w)).slots == s.slots
  {
  }
}
