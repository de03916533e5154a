/**
 * When a call that looks for a slot can find one. The search goes round the table for ever while it
 * holds the client's lock, so it depends on slots being given back.
 */
module SlotSearch {
  import opened Bytes
  import opened RequestQueue
  import opened SlotProtocol
  import opened SlotInvariant
  import opened SlotTheorems

  /** Waiter v polls for call id, or has collected its result. */
  predicate WaitsFor(s: State, v: nat, id: nat) {
    v < |s.waiters| && id in s.waiters[v].ids
  }

  ghost predicate HasWaiter(s: State, id: nat) {
    exists v: nat :: WaitsFor(s, v, id)
  }

  /** The slot is free, or somebody waits for the call that owns it. */
  ghost predicate WayOut(s: State, k: nat) {
    k < |s.slots| && (s.slots[k].owner.None? || HasWaiter(s, s.slots[k].owner.value))
  }

  ghost predicate SomeWayOut(s: State) {
    exists k: nat :: WayOut(s, k)
  }

  predicate Seeking(s: State, id: nat) {
    id < |s.calls| && s.calls[id].Searching?
  }

  predicate NoNewWait(steps: seq<Step>) {
    forall i :: 0 <= i < |steps| ==> !steps[i].NewWait?
  }

  // ---------- a table without a way out stays that way ----------

  lemma UsedHasOwner(s: State, k: nat)
    requires Inv(s) && k < |s.slots|
    ensures s.slots[k].used <==> s.slots[k].owner.Some?
  {
    assert SlotOk(s.slots[k], k, s.calls);
  }

  /** The output that the waiter looks at next is filled. */
  predicate Filled(x: Waiter) {
    x.i < |x.flags| && x.flags[x.i]
  }

  /** Without a way out, all that waiters still look at has been filled. */
  lemma PollFreesNothing(s: State, v: nat)
    requires Inv(s) && !SomeWayOut(s) && Enabled(s, Poll(v))
    ensures Filled(s.waiters[v])
  {
    hide Inv, SomeWayOut;
    PollingOwner(s, v);
    var x := s.waiters[v];
    var id := x.ids[x.i];
    if !x.flags[x.i] {
      assert WaitsFor(s, v, id);
      assert WayOut(s, s.calls[id].idx);
      NotWayOut(s, s.calls[id].idx);
    }
  }

  lemma NotWayOut(s: State, k: nat)
    requires !SomeWayOut(s)
    ensures !WayOut(s, k)
  {
  }

  /** What a step may change without opening a way out. */
  ghost predicate Unrelieved(s: State, s': State, id: nat) {
    && |s'.slots| == |s.slots| && (forall k :: 0 <= k < |s.slots| ==> s'.slots[k].owner == s.slots[k].owner)
    && |s'.waiters| == |s.waiters| && (forall v :: 0 <= v < |s.waiters| ==> s'.waiters[v].ids == s.waiters[v].ids)
    && Seeking(s', id)
  }

  lemma StepWithoutRelief(s: State, step: Step, id: nat)
    requires Inv(s) && !SomeWayOut(s) && Seeking(s, id) && Enabled(s, step) && !step.NewWait?
    ensures Unrelieved(s, Result(s, step), id)
  {
    hide Inv, SomeWayOut, Insert, IndexOf;
    if step.Look? {
      SearchSlot(s, step.id);
      NotWayOut(s, s.calls[step.id].at);
    } else if step.Poll? {
      PollFreesNothing(s, step.v);
    }
  }

  lemma SearchSlot(s: State, id: nat)
    requires Inv(s) && Seeking(s, id)
    ensures Enabled(s, Look(id)) && s.holder == Some(id)
    ensures s.slots[s.calls[id].at].used <==> s.slots[s.calls[id].at].owner.Some?
  {
    SearchReady(s);
    UsedHasOwner(s, s.calls[id].at);
  }

  lemma NoReliefStays(s: State, s': State, id: nat)
    requires !SomeWayOut(s) && Unrelieved(s, s', id)
    ensures !SomeWayOut(s')
  {
    forall k: nat ensures !WayOut(s', k) {
      NotWayOut(s, k);
      if k < |s.slots| && s.slots[k].owner.Some? {
        var o := s.slots[k].owner.value;
        forall v: nat ensures !WaitsFor(s', v, o) {
          assert !WaitsFor(s, v, o);
        }
      }
    }
  }

  /** Unless somebody starts to wait, the search then never ends. */
  lemma {:induction false} SearchStarves(s: State, steps: seq<Step>, id: nat)
    requires Inv(s) && !SomeWayOut(s) && Seeking(s, id) && RunFrom(s, steps).Some? && NoNewWait(steps)
    ensures Seeking(RunFrom(s, steps).value, id)
    decreases |steps|
  {
    hide Inv, SomeWayOut, Enabled, Result, Unrelieved;
    if |steps| > 0 {
      var s' := Result(s, steps[0]);
      StepWithoutRelief(s, steps[0], id);
      StepKeeps(s, steps[0]);
      NoReliefStays(s, s', id);
      StillSeeking(s, s', id);
      assert forall i :: 0 <= i < |steps| - 1 ==> steps[1..][i] == steps[i + 1];
      SearchStarves(s', steps[1..], id);
    }
  }

  lemma StillSeeking(s: State, s': State, id: nat)
    requires Unrelieved(s, s', id)
    ensures Seeking(s', id)
  {
  }

  // ---------- a way out can be used ----------

  /** How many slots the search looks at before slot k. */
  ghost function Ahead(s: State, id: nat, k: nat): int
    requires Seeking(s, id)
  {
    if s.calls[id].at <= k then k - s.calls[id].at else k + |s.slots| - s.calls[id].at
  }

  /** One look finds a free slot or comes closer to k. */
  lemma LookCloser(s: State, id: nat, k: nat)
    requires Inv(s) && Seeking(s, id) && k < |s.slots| && s.slots[k].owner.None?
    ensures Enabled(s, Look(id)) && 0 <= Ahead(s, id, k) < |s.slots|
    ensures var s' := Result(s, Look(id));
            || HasStage(s'.calls, id)
            || (Seeking(s', id) && s'.slots == s.slots && Ahead(s', id, k) < Ahead(s, id, k))
  {
    hide Inv;
    SearchSlot(s, id);
    UsedHasOwner(s, k);
    NextIndex(s.calls[id].at, |s.slots|);
  }

  /** With a free slot in the table the search ends within one round. */
  lemma {:induction false} LooksFind(s: State, id: nat, k: nat) returns (steps: seq<Step>)
    requires Inv(s) && Seeking(s, id) && k < |s.slots| && s.slots[k].owner.None?
    ensures |steps| <= Ahead(s, id, k) + 1 <= |s.slots| && (forall i :: 0 <= i < |steps| ==> steps[i] == Look(id))
    ensures RunFrom(s, steps).Some? && HasStage(RunFrom(s, steps).value.calls, id)
    decreases Ahead(s, id, k)
  {
    hide Inv, Enabled, Result, Ahead;
    LookCloser(s, id, k);
    var s' := Result(s, Look(id));
    var rest: seq<Step> := [];
    if !HasStage(s'.calls, id) {
      StepKeeps(s, Look(id));
      rest := LooksFind(s', id, k);
    }
    steps := [Look(id)] + rest;
    assert steps[1..] == rest;
  }

  /** Forwarding and polling keep a search going and hand no slot to anybody. */
  ghost predicate OnlyFreed(s: State, s': State, id: nat) {
    && |s'.slots| == |s.slots| && Seeking(s', id)
    && forall k :: 0 <= k < |s.slots| ==> s'.slots[k].owner == s.slots[k].owner || s'.slots[k].owner.None?
  }

  lemma QuietStep(s: State, step: Step, id: nat)
    requires Seeking(s, id) && Enabled(s, step) && (Forwards(step) || step.Poll?)
    ensures OnlyFreed(s, Result(s, step), id)
  {
    hide Insert, IndexOf;
  }

  lemma {:induction false} QuietRun(s: State, steps: seq<Step>, id: nat)
    requires Inv(s) && Seeking(s, id) && RunFrom(s, steps).Some?
    requires forall i :: 0 <= i < |steps| ==> Forwards(steps[i]) || steps[i].Poll?
    ensures OnlyFreed(s, RunFrom(s, steps).value, id) && Inv(RunFrom(s, steps).value)
    decreases |steps|
  {
    hide Inv, Enabled, Result, Forwards;
    if |steps| > 0 {
      QuietStep(s, steps[0], id);
      StepKeeps(s, steps[0]);
      assert forall i :: 0 <= i < |steps| - 1 ==> steps[1..][i] == steps[i + 1];
      QuietRun(Result(s, steps[0]), steps[1..], id);
    }
  }

  /** The calls of a waiter that has returned own nothing any more. */
  lemma CollectedOwnsNothing(s: State, v: nat, o: nat, k: nat)
    requires Inv(s) && WaitsFor(s, v, o) && s.waiters[v].done == |s.waiters[v].ids| && k < |s.slots|
    ensures s.slots[k].owner != Some(o)
  {
    var x := s.waiters[v];
    var j :| 0 <= j < |x.ids| && x.ids[j] == o;
    assert WaiterShape(x);
    CountTrueFull(x.flags);
    assert OutputOk(x, j, s.calls);
    assert SlotOk(s.slots[k], k, s.calls);
  }

  /** A waiter that can return gives the slot back, and the search then finds it. */
  lemma SearchSucceeds(s: State, id: nat, k: nat) returns (steps: seq<Step>)
    requires Reachable(s) && |s.workers| > 0 && Seeking(s, id) && WayOut(s, k)
    ensures NoNewWait(steps) && RunFrom(s, steps).Some? && HasStage(RunFrom(s, steps).value.calls, id)
  {
    hide Inv, Reachable, RunFrom;
    ReachableInv(s);
    if s.slots[k].owner.None? {
      steps := LooksFind(s, id, k);
      return;
    }
    var o := s.slots[k].owner.value;
    var v: nat :| WaitsFor(s, v, o);
    var first := WaiterCanReturn(s, v);
    QuietRun(s, first, id);
    var t := RunFrom(s, first).value;
    CollectedOwnsNothing(t, v, o, k);
    var second := LooksFind(t, id, k);
    RunConcat(s, first, second);
    steps := first + second;
  }

  /** Some schedule in which nobody starts to wait gives the call a slot. */
  ghost predicate CanBePlaced(s: State, id: nat) {
    exists steps: seq<Step> ::
      NoNewWait(steps) && RunFrom(s, steps).Some? && HasStage(RunFrom(s, steps).value.calls, id)
  }

  /**
   * A searching call can get a slot if and only if some slot is free or belongs to a call that
   * somebody waits for; otherwise it stays in its loop until a thread starts to wait.
   */
  lemma SearchEndsIff(s: State, id: nat)
    requires Reachable(s) && |s.workers| > 0 && Seeking(s, id)
    ensures CanBePlaced(s, id) <==> SomeWayOut(s)
  {
    hide Inv, Reachable, RunFrom, NoNewWait;
    if SomeWayOut(s) {
      var k: nat :| WayOut(s, k);
      var steps := SearchSucceeds(s, id, k);
      assert CanBePlaced(s, id);
    }
    if CanBePlaced(s, id) && !SomeWayOut(s) {
      var steps: seq<Step> :|
        NoNewWait(steps) && RunFrom(s, steps).Some? && HasStage(RunFrom(s, steps).value.calls, id);
      ReachableInv(s);
      SearchStarves(s, steps, id);
      assert false;
    }
  }

  // ---------- such a state is reached ----------

  /** One slot, one idle worker, nothing going on. */
  function OneSlotTable(): State {
    var arg := Arg("", "");
    State([Slot(false, false, arg, None)], [], None, [], None, [], [Idle], [], map[], 0, [], multiset{})
  }

  /** A call takes the only slot and is submitted; nobody waits for it when the next call searches. */
  lemma StarvingReached() returns (s: State)
    ensures Reachable(s) && |s.workers| > 0 && Seeking(s, 1) && !SomeWayOut(s) && !CanBePlaced(s, 1)
  {
    var arg := Arg("", "");
    var s0 := OneSlotTable();
    var steps := [NewCall(arg, 0), StartSearch(0), Look(0), Submit(0), NewCall(arg, 0), StartSearch(1)];
    var s1 := Result(s0, steps[0]);
    var s2 := Result(s1, steps[1]);
    var s3 := Result(s2, steps[2]);
    var s4 := Result(s3, steps[3]);
    var s5 := Result(s4, steps[4]);
    s := Result(s5, steps[5]);
    assert RunFrom(s0, steps) == Some(s) by {
      hide Result, Enabled;
      RunOfSix(s0, steps, s1, s2, s3, s4, s5, s);
    }
    assert Init(s0);
    forall k: nat ensures !WayOut(s, k) {
    }
    SearchEndsIff(s, 1);
  }

  lemma RunOfSix(s0: State, steps: seq<Step>, s1: State, s2: State, s3: State, s4: State, s5: State, s6: State)
    requires |steps| == 6
    requires Enabled(s0, steps[0]) && s1 == Result(s0, steps[0])
    requires Enabled(s1, steps[1]) && s2 == Result(s1, steps[1])
    requires Enabled(s2, steps[2]) && s3 == Result(s2, steps[2])
    requires Enabled(s3, steps[3]) && s4 == Result(s3, steps[3])
    requires Enabled(s4, steps[4]) && s5 == Result(s4, steps[4])
    requires Enabled(s5, steps[5]) && s6 == Result(s5, steps[5])
    ensures RunFrom(s0, steps) == Some(s6)
  {
    hide Result, Enabled;
    RunStep(s5, steps[5..], s6);
    RunStep(s4, steps[4..], s5);
    RunStep(s3, steps[3..], s4);
    RunStep(s2, steps[2..], s3);
    RunStep(s1, steps[1..], s2);
    RunStep(s0, steps[0..], s1);
    assert steps[0..] == steps && steps[6..] == [];
    assert steps[0..][1..] == steps[1..] && steps[1..][1..] == steps[2..] && steps[2..][1..] == steps[3..];
    assert steps[3..][1..] == steps[4..] && steps[4..][1..] == steps[5..] && steps[5..][1..] == steps[6..];
  }

  lemma RunStep(s: State, steps: seq<Step>, s': State)
    requires |steps| > 0 && Enabled(s, steps[0]) && s' == Result(s, steps[0])
    ensures RunFrom(s, steps) == RunFrom(s', steps[1..])
  {
  }
}
