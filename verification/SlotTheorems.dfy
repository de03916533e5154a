/** What the invariant of the slot protocol means for clients and server: safety, delivery, progress. */
module SlotTheorems {
  import opened Bytes
  import opened RequestQueue
  import opened SlotProtocol
  import opened SlotInvariant

  /** The request of a call is still with its caller, or somewhere between the queue and a worker. */
  ghost predicate Outstanding(s: State, id: nat) {
    (HasStage(s.calls, id) && s.calls[id].stage.Claimed?) || InFlight(s)[id] > 0
  }

  /** An outstanding request whose slot is k. */
  ghost predicate OutstandingAt(s: State, id: nat, k: nat) {
    Outstanding(s, id) && HasStage(s.calls, id) && s.calls[id].idx == k
  }

  /**
   * Slot safety. A free slot is not done and no outstanding request points at it; a used slot that
   * is not done has exactly one outstanding request, which is under way at most once; a done slot is
   * used and has none.
   */
  lemma SlotSafety(s: State, k: nat)
    requires Reachable(s) && k < |s.slots|
    ensures !s.slots[k].used ==> !s.slots[k].done && forall id: nat :: !OutstandingAt(s, id, k)
    ensures s.slots[k].used && !s.slots[k].done ==>
              exists id: nat ::
                && OutstandingAt(s, id, k) && InFlight(s)[id] <= 1
                && forall j: nat :: OutstandingAt(s, j, k) ==> j == id
    ensures s.slots[k].done ==> s.slots[k].used && forall id: nat :: !OutstandingAt(s, id, k)
  {
    ReachableInv(s);
    SlotView(s, k);
    forall id: nat | OutstandingAt(s, id, k) ensures s.slots[k].owner == Some(id) && !s.slots[k].done {
      OutstandingOwns(s, id);
    }
  }

  lemma OutstandingOwns(s: State, id: nat)
    requires Inv(s) && Outstanding(s, id)
    ensures Owns(s.calls, id) && s.calls[id].idx < |s.slots|
    ensures s.slots[s.calls[id].idx].owner == Some(id) && !s.slots[s.calls[id].idx].done
    ensures InFlight(s)[id] <= 1
  {
    hide SlotsOk, WaitersOk, TokensOk, AddressesOk, WorkerBag, Untouched;
    TokenStage(Untouched(s), WorkerBag(s.workers, 1), WorkerBag(s.workers, 2), s.served, s.calls, id);
    OwnerSlot(s.slots, s.calls, id);
  }

  /** What the invariant says about one slot, in terms of outstanding requests. */
  lemma SlotView(s: State, k: nat)
    requires Inv(s) && k < |s.slots|
    ensures s.slots[k].done ==> s.slots[k].used
    ensures s.slots[k].used <==> s.slots[k].owner.Some?
    ensures s.slots[k].used && !s.slots[k].done ==>
              var id := s.slots[k].owner.value;
              OutstandingAt(s, id, k) && InFlight(s)[id] <= 1
  {
    assert SlotOk(s.slots[k], k, s.calls);
    hide SlotsOk, WaitersOk, TokensOk, AddressesOk, WorkerBag, Untouched;
    if s.slots[k].used {
      var id := s.slots[k].owner.value;
      TokenStage(Untouched(s), WorkerBag(s.workers, 1), WorkerBag(s.workers, 2), s.served, s.calls, id);
    }
  }

  /** Which worker takes the step, if any. */
  predicate TakenBy(step: Step, w: nat) {
    match step
    case CopyPath(x) => x == w
    case AppendSuffix(x) => x == w
    case GiveUp(x) => x == w
    case MarkDone(x) => x == w
    case _ => false
  }

  /** Two busy workers never work on the same slot. */
  lemma WorkersApart(s: State, w: nat, x: nat)
    requires Inv(s) && w < |s.workers| && x < |s.workers| && w != x
    requires !s.workers[w].Idle? && !s.workers[x].Idle?
    ensures s.workers[w].r.idx != s.workers[x].r.idx
  {
    WorkerStage(s, w);
    WorkerStage(s, x);
    var r, q := s.workers[w].r, s.workers[x].r;
    if r.idx == q.idx {
      assert r.id == q.id;
      hide SlotsOk, WaitersOk, TokensOk, AddressesOk, WorkerBag, IdBag, HandBag;
      TokenStage(Untouched(s), WorkerBag(s.workers, 1), WorkerBag(s.workers, 2), s.served, s.calls, r.id);
      var kind := KindOf(s.workers[w]);
      BagMove(s.workers, w, Idle, kind);
      BagMove(s.workers[w := Idle], x, Idle, kind);
      assert false;
    }
  }

  lemma PollElsewhere(s: State, w: nat, v: nat)
    requires Inv(s) && WorkerIn(s, w) && Enabled(s, Poll(v))
    ensures |PollResult(s, v).slots| == |s.slots|
    ensures PollResult(s, v).slots[s.workers[w].r.idx] == s.slots[s.workers[w].r.idx]
    ensures PollResult(s, v).workers == s.workers
  {
    hide Inv;
    WorkerStage(s, w);
    PollingOwner(s, v);
  }

  /**
   * The server writes the argument without holding the slot's lock. That is safe: while a worker is
   * busy with a request, no step of any other thread touches its slot.
   */
  lemma ServerOwnsSlot(s: State, w: nat, step: Step)
    requires Reachable(s) && w < |s.workers| && !s.workers[w].Idle?
    requires Enabled(s, step) && !TakenBy(step, w)
    ensures s.workers[w].r.idx < |s.slots|
    ensures Result(s, step).slots[s.workers[w].r.idx] == s.slots[s.workers[w].r.idx]
    ensures Result(s, step).workers[w] == s.workers[w]
  {
    hide Inv, Reachable, Insert, IndexOf;
    ReachableInv(s);
    WorkerStage(s, w);
    if step.CopyPath? || step.AppendSuffix? || step.GiveUp? || step.MarkDone? {
      WorkersApart(s, w, step.w);
    } else if step.Poll? {
      PollElsewhere(s, w, step.v);
    }
  }

  /** What a collecting poll hands out is what the server left when it marked the slot done. */
  lemma DeliveryUnchanged(s: State, v: nat)
    requires Reachable(s) && Enabled(s, Poll(v)) && Result(s, Poll(v)).slots != s.slots
    ensures var x := s.waiters[v];
            var id := x.ids[x.i];
            && !x.flags[x.i] && s.calls[id].stage.Done?
            && Result(s, Poll(v)).waiters[v].outs[x.i] == Some(s.calls[id].stage.out)
            && Result(s, Poll(v)).calls[id].stage == Collected(s.calls[id].stage.out)
  {
    hide Inv, Reachable;
    ReachableInv(s);
    PollingOwner(s, v);
  }

  /** Every request is served at most once, and only calls whose slot was marked done count as served. */
  lemma ServedOnce(s: State, id: nat)
    requires Reachable(s)
    ensures s.served[id] <= 1
    ensures s.served[id] == 1 ==> InFlight(s)[id] == 0
    ensures s.served[id] == 1 <==> HasStage(s.calls, id) && (s.calls[id].stage.Done? || s.calls[id].stage.Collected?)
  {
    ReachableInv(s);
    hide SlotsOk, WaitersOk, AddressesOk, TokensOk, Untouched, WorkerBag;
    TokenStage(Untouched(s), WorkerBag(s.workers, 1), WorkerBag(s.workers, 2), s.served, s.calls, id);
  }

  /** When a waiter's loop ends, every output has been filled exactly once with its own call's outcome. */
  lemma OutputsFilled(s: State, v: nat)
    requires Reachable(s) && v < |s.waiters| && s.waiters[v].done == |s.waiters[v].ids|
    ensures var x := s.waiters[v];
            && |x.outs| == |x.fills| == |x.ids|
            && forall k :: 0 <= k < |x.ids| ==>
                 && x.fills[k] == 1 && HasStage(s.calls, x.ids[k]) && s.calls[x.ids[k]].stage.Collected?
                 && x.outs[k] == Some(s.calls[x.ids[k]].stage.out) && s.served[x.ids[k]] == 1
  {
    ReachableInv(s);
    var x := s.waiters[v];
    assert WaiterShape(x);
    CountTrueFull(x.flags);
    forall k | 0 <= k < |x.ids|
      ensures && x.fills[k] == 1 && HasStage(s.calls, x.ids[k]) && s.calls[x.ids[k]].stage.Collected?
              && x.outs[k] == Some(s.calls[x.ids[k]].stage.out) && s.served[x.ids[k]] == 1
    {
      assert OutputOk(x, k, s.calls);
      ServedOnce(s, x.ids[k]);
    }
  }

  lemma SearchReady(s: State)
    requires Inv(s)
    ensures forall id :: 0 <= id < |s.calls| && s.calls[id].Searching? ==> Enabled(s, Look(id))
  {
    hide SlotsOk, WaitersOk, TokensOk, AddressesOk;
  }

  /** No thread ever addresses memory outside the table: the guards on indices are always met. */
  lemma NeverOutOfRange(s: State)
    requires Reachable(s)
    ensures forall w :: 0 <= w < |s.workers| && !s.workers[w].Idle? ==> WorkerIn(s, w)
    ensures forall id :: 0 <= id < |s.calls| && s.calls[id].Searching? ==> Enabled(s, Look(id))
    ensures forall v :: 0 <= v < |s.waiters| && s.waiters[v].done < |s.waiters[v].ids| ==> Enabled(s, Poll(v))
  {
    ReachableInv(s);
    SearchReady(s);
    hide Inv, Reachable, Enabled;
    forall w | 0 <= w < |s.workers| && !s.workers[w].Idle? ensures WorkerIn(s, w) { WorkerStage(s, w); }
    forall v | 0 <= v < |s.waiters| && s.waiters[v].done < |s.waiters[v].ids| ensures Enabled(s, Poll(v)) {
      PollingOwner(s, v);
    }
  }

  /** No request is lost or duplicated on its way from the caller to the mark in the slot. */
  lemma UnderWayOnce(s: State, id: nat)
    requires Reachable(s)
    ensures InFlight(s)[id] ==
            Bit(Owns(s.calls, id) && !s.calls[id].stage.Claimed? && !s.calls[id].stage.Done?)
  {
    ReachableInv(s);
    hide SlotsOk, WaitersOk, AddressesOk, TokensOk, Untouched, WorkerBag;
    TokenStage(Untouched(s), WorkerBag(s.workers, 1), WorkerBag(s.workers, 2), s.served, s.calls, id);
  }

  // ---------- progress ----------

  /** Steps of the sender thread and of the server's workers. */
  predicate Forwards(step: Step) {
    || step.TakeHead? || step.Send? || step.Receive?
    || step.CopyPath? || step.AppendSuffix? || step.GiveUp? || step.MarkDone?
  }

  ghost function WorkerRank(w: Worker): nat {
    match w case Idle => 0 case Received(_) => 3 case Copied(_) => 2 case Served(_) => 1
  }

  ghost function WorkersRank(ws: seq<Worker>): nat {
    if |ws| == 0 then 0 else WorkerRank(ws[0]) + WorkersRank(ws[1..])
  }

  /** How many forwarding steps the requests under way can still take. */
  ghost function Rank(s: State): nat {
    6 * |s.queue| + 5 * Bit(s.hand.Some?) + 4 * |s.mq| + WorkersRank(s.workers)
  }

  lemma {:induction false} RankUpdate(ws: seq<Worker>, w: nat, x: Worker)
    requires w < |ws|
    ensures WorkersRank(ws[w := x]) == WorkersRank(ws) - WorkerRank(ws[w]) + WorkerRank(x)
  {
    if w == 0 {
      assert ws[w := x][1..] == ws[1..];
    } else {
      RankUpdate(ws[1..], w - 1, x);
      assert ws[w := x][1..] == ws[1..][w - 1 := x];
    }
  }

  /** Forwarding always brings requests closer to their end, so it cannot go on for ever. */
  lemma ForwardingEnds(s: State, step: Step)
    requires Enabled(s, step) && Forwards(step)
    ensures Rank(Result(s, step)) < Rank(s)
  {
    hide Insert, WorkersRank;
    if step.Send? {
      InsertMembers(s.mq, s.hand.value);
      assert |multiset(Insert(s.mq, s.hand.value))| == |s.mq| + 1;
    } else if !step.TakeHead? {
      RankUpdate(s.workers, step.w, Result(s, step).workers[step.w]);
    }
  }

  /** While a request is under way some thread can forward it: there is no deadlock. */
  lemma NoDeadlock(s: State) returns (step: Step)
    requires Inv(s) && |s.workers| > 0 && Rank(s) > 0
    ensures Enabled(s, step) && Forwards(step)
  {
    if w :| 0 <= w < |s.workers| && !s.workers[w].Idle? {
      WorkerStage(s, w);
      if s.workers[w].Copied? { return AppendSuffix(w); }
      if s.workers[w].Served? { return MarkDone(w); }
      return CopyPath(w);
    }
    IdleRank(s.workers);
    if |s.mq| > 0 { return Receive(0); }
    if s.hand.Some? { return Send; }
    return TakeHead;
  }

  lemma {:induction false} IdleRank(ws: seq<Worker>)
    requires forall w :: 0 <= w < |ws| ==> ws[w].Idle?
    ensures WorkersRank(ws) == 0
  {
    if |ws| > 0 { IdleRank(ws[1..]); }
  }

  /** From every reachable state the sender and the workers alone can finish everything submitted. */
  lemma {:induction false} EverythingGetsDone(s: State) returns (steps: seq<Step>)
    requires Inv(s) && |s.workers| > 0
    ensures |steps| <= Rank(s) && (forall i :: 0 <= i < |steps| ==> Forwards(steps[i]))
    ensures RunFrom(s, steps).Some? && Inv(RunFrom(s, steps).value) && Rank(RunFrom(s, steps).value) == 0
    decreases Rank(s)
  {
    hide Inv, Enabled, Result, Rank;
    if Rank(s) == 0 {
      return [];
    }
    var step := NoDeadlock(s);
    ForwardingEnds(s, step);
    StepKeeps(s, step);
    SameWorkerCount(s, step);
    var rest := EverythingGetsDone(Result(s, step));
    steps := [step] + rest;
    assert steps[1..] == rest;
  }

  lemma SameWorkerCount(s: State, step: Step)
    requires Enabled(s, step)
    ensures |Result(s, step).workers| == |s.workers|
  {
  }

  /** With nothing left to forward, every submitted call has its result waiting or collected. */
  lemma RankZeroMeansDone(s: State, id: nat)
    requires Inv(s) && Rank(s) == 0 && HasStage(s.calls, id)
    ensures s.calls[id].stage.Claimed? || s.calls[id].stage.Done? || s.calls[id].stage.Collected?
  {
    NoBusyWorker(s.workers);
    IdleBag(s.workers, 0);
    IdleBag(s.workers, 1);
    IdleBag(s.workers, 2);
    assert Untouched(s) == multiset{};
    TokenStage(Untouched(s), WorkerBag(s.workers, 1), WorkerBag(s.workers, 2), s.served, s.calls, id);
  }

  lemma {:induction false} NoBusyWorker(ws: seq<Worker>)
    requires WorkersRank(ws) == 0
    ensures forall w :: 0 <= w < |ws| ==> ws[w].Idle?
  {
    if |ws| > 0 {
      NoBusyWorker(ws[1..]);
      forall w | 0 <= w < |ws| ensures ws[w].Idle? {
        if w > 0 { assert ws[1..][w - 1].Idle?; }
      }
    }
  }

  /**
   * Progress. In every reachable state with at least one worker, the sender and the workers alone can
   * bring every submitted call to the point where its result is waiting or has been collected.
   */
  lemma SubmittedCallsFinish(s: State) returns (steps: seq<Step>)
    requires Reachable(s) && |s.workers| > 0
    ensures (forall i :: 0 <= i < |steps| ==> Forwards(steps[i])) && RunFrom(s, steps).Some?
    ensures forall id: nat :: HasStage(RunFrom(s, steps).value.calls, id) ==>
              var stage := RunFrom(s, steps).value.calls[id].stage;
              stage.Claimed? || stage.Done? || stage.Collected?
  {
    hide Inv, Reachable, RunFrom, Rank;
    ReachableInv(s);
    steps := EverythingGetsDone(s);
    var t := RunFrom(s, steps).value;
    forall id: nat | HasStage(t.calls, id)
      ensures t.calls[id].stage.Claimed? || t.calls[id].stage.Done? || t.calls[id].stage.Collected?
    {
      RankZeroMeansDone(t, id);
    }
  }

  /** Every run of the sender and the workers is bounded by the rank it starts with. */
  lemma {:induction false} ForwardingBounded(s: State, steps: seq<Step>)
    requires RunFrom(s, steps).Some? && forall i :: 0 <= i < |steps| ==> Forwards(steps[i])
    ensures |steps| + Rank(RunFrom(s, steps).value) <= Rank(s)
    ensures Inv(s) ==> Inv(RunFrom(s, steps).value)
    ensures |RunFrom(s, steps).value.workers| == |s.workers|
    decreases |steps|
  {
    hide Inv, Enabled, Result, Rank, Forwards;
    if |steps| > 0 {
      ForwardingEnds(s, steps[0]);
      SameWorkerCount(s, steps[0]);
      if Inv(s) { StepKeeps(s, steps[0]); }
      ForwardingBounded(Result(s, steps[0]), steps[1..]);
    }
  }

  /** No step of the sender or a worker can be taken. */
  ghost predicate NothingForwards(s: State) {
    forall step: Step :: Forwards(step) ==> !Enabled(s, step)
  }

  /**
   * Progress under every schedule. Whatever the sender and the workers do, they stop after at most
   * Rank(s) steps, and when they stop every submitted call has its result waiting or collected.
   */
  lemma EveryScheduleFinishes(s: State, steps: seq<Step>, id: nat)
    requires Reachable(s) && |s.workers| > 0
    requires RunFrom(s, steps).Some? && forall i :: 0 <= i < |steps| ==> Forwards(steps[i])
    ensures |steps| <= Rank(s)
    ensures var t := RunFrom(s, steps).value;
            NothingForwards(t) && HasStage(t.calls, id) ==>
              t.calls[id].stage.Claimed? || t.calls[id].stage.Done? || t.calls[id].stage.Collected?
  {
    hide Inv, Reachable, RunFrom, Rank, Enabled, Forwards;
    ReachableInv(s);
    ForwardingBounded(s, steps);
    var t := RunFrom(s, steps).value;
    if NothingForwards(t) && HasStage(t.calls, id) {
      if Rank(t) > 0 {
        var step := NoDeadlock(t);
        assert false;
      }
      RankZeroMeansDone(t, id);
    }
  }

  /** All results a waiter is polling for are there. */
  ghost predicate Ready(s: State, v: nat) {
    && v < |s.waiters|
    && forall k :: 0 <= k < |s.waiters[v].ids| ==>
         && HasStage(s.calls, s.waiters[v].ids[k])
         && (s.calls[s.waiters[v].ids[k]].stage.Done? || s.calls[s.waiters[v].ids[k]].stage.Collected?)
  }

  /** How far the polling index is from position k. */
  ghost function Gap(x: Waiter, k: nat): int {
    if x.i <= k then k - x.i else k + |x.ids| - x.i
  }

  lemma {:induction false} SomeUnfilled(flags: seq<bool>) returns (k: nat)
    requires CountTrue(flags) < |flags|
    ensures k < |flags| && !flags[k]
  {
    if !flags[0] { return 0; }
    k := SomeUnfilled(flags[1..]);
    k := k + 1;
  }

  lemma NextIndex(i: nat, n: nat)
    requires i < n
    ensures (i + 1) % n == if i + 1 < n then i + 1 else 0
  {
  }

  /** The result is there, so the poll either passes a filled output or fills this one. */
  lemma PollEffect(s: State, v: nat)
    requires Inv(s) && Ready(s, v) && s.waiters[v].done < |s.waiters[v].ids|
    ensures Enabled(s, Poll(v)) && Ready(Result(s, Poll(v)), v) && WaiterShape(s.waiters[v])
    ensures v < |Result(s, Poll(v)).waiters|
    ensures var x, x' := s.waiters[v], Result(s, Poll(v)).waiters[v];
            && x'.ids == x.ids && x'.i == (x.i + 1) % |x.ids|
            && (if x.flags[x.i] then x'.done == x.done && x'.flags == x.flags else x'.done == x.done + 1)
  {
    hide Inv, CountTrue;
    PollingOwner(s, v);
    var x := s.waiters[v];
    var id := x.ids[x.i];
    assert HasStage(s.calls, id);
  }

  /** One poll of a ready waiter fills an output or comes closer to an unfilled one. */
  lemma ReadyPoll(s: State, v: nat, k: nat)
    requires Inv(s) && v < |s.waiters| && Ready(s, v) && s.waiters[v].done < |s.waiters[v].ids|
    requires WaiterShape(s.waiters[v]) && k < |s.waiters[v].ids| && !s.waiters[v].flags[k]
    ensures Enabled(s, Poll(v)) && Inv(Result(s, Poll(v))) && Ready(Result(s, Poll(v)), v)
    ensures v < |Result(s, Poll(v)).waiters|
    ensures var x, x' := s.waiters[v], Result(s, Poll(v)).waiters[v];
            && x'.ids == x.ids
            && (x'.done == x.done + 1 || (x'.done == x.done && x'.flags == x.flags && Gap(x', k) < Gap(x, k)))
  {
    hide Inv, Ready, CountTrue, Enabled, Result;
    PollEffect(s, v);
    PollKeeps(s, v);
    NextIndex(s.waiters[v].i, |s.waiters[v].ids|);
  }

  lemma ShapeOf(s: State, v: nat)
    requires Inv(s) && v < |s.waiters|
    ensures WaiterShape(s.waiters[v])
  {
  }

  /** Polling a ready waiter ends its loop. */
  lemma {:induction false} PollsFinish(s: State, v: nat, k: nat) returns (steps: seq<Step>)
    requires Inv(s) && v < |s.waiters| && Ready(s, v)
    requires WaiterShape(s.waiters[v]) && s.waiters[v].done <= |s.waiters[v].ids|
    requires s.waiters[v].done < |s.waiters[v].ids| ==> k < |s.waiters[v].ids| && !s.waiters[v].flags[k]
    ensures forall i :: 0 <= i < |steps| ==> steps[i] == Poll(v)
    ensures RunFrom(s, steps).Some? && v < |RunFrom(s, steps).value.waiters|
    ensures var x := RunFrom(s, steps).value.waiters[v]; x.ids == s.waiters[v].ids && x.done == |x.ids|
    decreases |s.waiters[v].ids| - s.waiters[v].done, Gap(s.waiters[v], k)
  {
    hide Inv, Ready, Enabled, Result, CountTrue;
    if s.waiters[v].done == |s.waiters[v].ids| {
      return [];
    }
    ReadyPoll(s, v, k);
    var s' := Result(s, Poll(v));
    var next := NextTarget(s', v, k, s.waiters[v]);
    var rest := PollsFinish(s', v, next);
    steps := [Poll(v)] + rest;
    assert steps[1..] == rest;
  }

  /** Keeps aiming at k until an output has been filled, then picks another unfilled one. */
  lemma NextTarget(s: State, v: nat, k: nat, before: Waiter) returns (next: nat)
    requires Inv(s) && Ready(s, v) && v < |s.waiters| && WaiterShape(before) && k < |before.ids| && !before.flags[k]
    requires s.waiters[v].ids == before.ids
    requires s.waiters[v].done == before.done + 1 || s.waiters[v].flags == before.flags
    ensures WaiterShape(s.waiters[v]) && s.waiters[v].done <= |s.waiters[v].ids|
    ensures s.waiters[v].done < |s.waiters[v].ids| ==> next < |s.waiters[v].ids| && !s.waiters[v].flags[next]
    ensures s.waiters[v].done != before.done + 1 ==> next == k
  {
    hide Inv, Ready, CountTrue;
    ReadyBound(s, v);
    next := k;
    if s.waiters[v].done == before.done + 1 && s.waiters[v].done < |s.waiters[v].ids| {
      next := SomeUnfilled(s.waiters[v].flags);
    }
  }

  lemma ReadyBound(s: State, v: nat)
    requires Inv(s) && Ready(s, v)
    ensures v < |s.waiters| && WaiterShape(s.waiters[v]) && s.waiters[v].done <= |s.waiters[v].ids|
  {
    ShapeOf(s, v);
    CountTrueFull(s.waiters[v].flags);
  }

  lemma {:induction false} RunConcat(s: State, a: seq<Step>, b: seq<Step>)
    requires RunFrom(s, a).Some?
    ensures RunFrom(s, a + b) == RunFrom(RunFrom(s, a).value, b)
    decreases |a|
  {
    hide Enabled, Result;
    if |a| == 0 {
      assert a + b == b;
    } else {
      assert (a + b)[1..] == a[1..] + b;
      RunConcat(Result(s, a[0]), a[1..], b);
    }
  }

  lemma ForwardKeepsWaiters(s: State, step: Step)
    requires Enabled(s, step) && Forwards(step)
    ensures Result(s, step).waiters == s.waiters
  {
  }

  lemma {:induction false} RunKeepsWaiters(s: State, steps: seq<Step>)
    requires RunFrom(s, steps).Some? && forall i :: 0 <= i < |steps| ==> Forwards(steps[i])
    ensures RunFrom(s, steps).value.waiters == s.waiters
    decreases |steps|
  {
    hide Enabled, Result, Forwards;
    if |steps| > 0 {
      ForwardKeepsWaiters(s, steps[0]);
      RunKeepsWaiters(Result(s, steps[0]), steps[1..]);
    }
  }

  /** When nothing is left to forward, every waiter has all its results. */
  lemma AllReady(s: State, v: nat)
    requires Inv(s) && Rank(s) == 0 && v < |s.waiters|
    ensures Ready(s, v)
  {
    forall k | 0 <= k < |s.waiters[v].ids|
      ensures && HasStage(s.calls, s.waiters[v].ids[k])
              && (s.calls[s.waiters[v].ids[k]].stage.Done? || s.calls[s.waiters[v].ids[k]].stage.Collected?)
    {
      assert OutputOk(s.waiters[v], k, s.calls);
      RankZeroMeansDone(s, s.waiters[v].ids[k]);
    }
  }

  /**
   * A waiter is never stuck: from every reachable state with at least one worker, finitely many steps
   * of the sender, the workers and its own polling loop make it return.
   */
  lemma WaiterCanReturn(s: State, v: nat) returns (steps: seq<Step>)
    requires Reachable(s) && |s.workers| > 0 && v < |s.waiters|
    ensures forall i :: 0 <= i < |steps| ==> Forwards(steps[i]) || steps[i] == Poll(v)
    ensures RunFrom(s, steps).Some? && v < |RunFrom(s, steps).value.waiters|
    ensures var x := RunFrom(s, steps).value.waiters[v]; x.ids == s.waiters[v].ids && x.done == |x.ids|
  {
    hide Inv, Reachable, Ready, Rank, RunFrom, CountTrue, Forwards;
    ReachableInv(s);
    var first := EverythingGetsDone(s);
    RunKeepsWaiters(s, first);
    var t := RunFrom(s, first).value;
    AllReady(t, v);
    ReadyBound(t, v);
    var k := 0;
    if t.waiters[v].done < |t.waiters[v].ids| {
      k := SomeUnfilled(t.waiters[v].flags);
    }
    var second := PollsFinish(t, v, k);
    RunConcat(s, first, second);
    steps := first + second;
  }
}
