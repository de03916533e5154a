/** The invariant of the slot protocol, and the proof that every step of every thread keeps it. */
module SlotInvariant {
  import opened Bytes
  import opened RequestQueue
  import opened SlotProtocol

  predicate HasStage(calls: seq<Call>, id: nat) {
    id < |calls| && calls[id].Placed?
  }

  /** The call owns its slot: it has claimed it and its result has not been collected. */
  predicate Owns(calls: seq<Call>, id: nat) {
    HasStage(calls, id) && !calls[id].stage.Collected?
  }

  /** What the argument in the slot must be while the call owns it. */
  function ArgOf(c: Call): Arg
    requires c.Placed? && !c.stage.Collected?
  {
    match c.stage
    case Claimed => c.arg
    case Waiting => c.arg
    case Copying => c.arg.(compressed := c.arg.source)
    case Written(out) => out
    case Done(out) => out
  }

  /** The two ways in which the server can leave an argument. */
  predicate Outcome(arg: Arg, out: Arg) {
    out == arg || out == Arg(arg.source, arg.source + SUFFIX)
  }

  predicate OutcomeOk(c: Call) {
    c.Placed? && (c.stage.Written? || c.stage.Done? || c.stage.Collected?) ==> Outcome(c.arg, c.stage.out)
  }

  /** A slot in use mirrors the call that owns it; a free slot is neither used nor done. */
  ghost predicate SlotOk(slot: Slot, k: nat, calls: seq<Call>) {
    match slot.owner
    case None => !slot.used && !slot.done
    case Some(id) =>
      && slot.used && Owns(calls, id) && calls[id].idx == k
      && slot.arg == ArgOf(calls[id]) && (slot.done <==> calls[id].stage.Done?)
  }

  ghost predicate SlotsOk(slots: seq<Slot>, calls: seq<Call>) {
    && |slots| > 0
    && (forall k :: 0 <= k < |slots| ==> SlotOk(slots[k], k, calls))
    && (forall id: nat :: HasStage(calls, id) ==> calls[id].idx < |slots| && OutcomeOk(calls[id]))
    && (forall id: nat :: Owns(calls, id) ==> slots[calls[id].idx].owner == Some(id))
  }

  /** At most one call searches, and it holds the lock. */
  ghost predicate SearchOk(slots: seq<Slot>, calls: seq<Call>, holder: Option<nat>) {
    forall id :: 0 <= id < |calls| && calls[id].Searching? ==> holder == Some(id) && calls[id].at < |slots|
  }

  // The requests under way, by what has been done to their slots.

  ghost function IdBag(q: seq<Request>): multiset<nat> {
    if |q| == 0 then multiset{} else multiset{q[0].id} + IdBag(q[1..])
  }

  ghost function HandBag(hand: Option<Request>): multiset<nat> {
    match hand
    case None => multiset{}
    case Some(r) => multiset{r.id}
  }

  /** Kind 0 has not touched the slot, kind 1 has copied the path, kind 2 has finished with it. */
  ghost function WorkerTag(w: Worker, kind: nat): multiset<nat> {
    match w
    case Idle => multiset{}
    case Received(r) => if kind == 0 then multiset{r.id} else multiset{}
    case Copied(r) => if kind == 1 then multiset{r.id} else multiset{}
    case Served(r) => if kind == 2 then multiset{r.id} else multiset{}
  }

  ghost function WorkerBag(ws: seq<Worker>, kind: nat): multiset<nat> {
    if |ws| == 0 then multiset{} else WorkerTag(ws[0], kind) + WorkerBag(ws[1..], kind)
  }

  /** Requests whose slot the server has not touched yet. */
  ghost function Untouched(s: State): multiset<nat> {
    IdBag(s.queue) + HandBag(s.hand) + IdBag(s.mq) + WorkerBag(s.workers, 0)
  }

  /** All requests under way between the call that submitted them and the mark in the slot. */
  ghost function InFlight(s: State): multiset<nat> {
    Untouched(s) + WorkerBag(s.workers, 1) + WorkerBag(s.workers, 2)
  }

  ghost function Bit(b: bool): nat { if b then 1 else 0 }

  /** Every request under way belongs to exactly one call at the matching stage, and vice versa. */
  ghost predicate TokensOk(untouched: multiset<nat>, copied: multiset<nat>, written: multiset<nat>,
                           served: multiset<nat>, calls: seq<Call>) {
    forall id: nat ::
      && untouched[id] == Bit(HasStage(calls, id) && calls[id].stage.Waiting?)
      && copied[id] == Bit(HasStage(calls, id) && calls[id].stage.Copying?)
      && written[id] == Bit(HasStage(calls, id) && calls[id].stage.Written?)
      && served[id] == Bit(HasStage(calls, id) && (calls[id].stage.Done? || calls[id].stage.Collected?))
  }

  /** The request carries the index and the priority of its call. */
  predicate RequestOk(r: Request, calls: seq<Call>) {
    HasStage(calls, r.id) && calls[r.id].idx == r.idx && calls[r.id].priority == r.priority
  }

  ghost predicate AddressesOk(s: State) {
    && (forall i :: 0 <= i < |s.queue| ==> RequestOk(s.queue[i], s.calls))
    && (s.hand.Some? ==> RequestOk(s.hand.value, s.calls))
    && (forall i :: 0 <= i < |s.mq| ==> RequestOk(s.mq[i], s.calls))
    && (forall w :: 0 <= w < |s.workers| && !s.workers[w].Idle? ==> RequestOk(s.workers[w].r, s.calls))
  }

  ghost function CountTrue(flags: seq<bool>): nat {
    if |flags| == 0 then 0 else Bit(flags[0]) + CountTrue(flags[1..])
  }

  ghost predicate WaiterShape(x: Waiter) {
    && |x.flags| == |x.outs| == |x.fills| == |x.ids| && x.i < |x.ids|
    && x.done == CountTrue(x.flags)
  }

  /** Output k is filled once, with the result of its own call, exactly when that call is collected. */
  ghost predicate OutputOk(x: Waiter, k: nat, calls: seq<Call>)
    requires WaiterShape(x) && k < |x.ids|
  {
    && HasStage(calls, x.ids[k]) && !calls[x.ids[k]].stage.Claimed?
    && (x.flags[k] <==> calls[x.ids[k]].stage.Collected?)
    && (x.flags[k] ==> x.outs[k] == Some(calls[x.ids[k]].stage.out))
    && x.fills[k] == Bit(x.flags[k])
  }

  ghost predicate WaitersOk(waiters: seq<Waiter>, waiterOf: map<nat, (nat, nat)>, calls: seq<Call>) {
    && (forall v :: 0 <= v < |waiters| ==> WaiterShape(waiters[v]))
    && (forall v, k :: 0 <= v < |waiters| && 0 <= k < |waiters[v].ids| ==>
          && OutputOk(waiters[v], k, calls)
          && waiters[v].ids[k] in waiterOf && waiterOf[waiters[v].ids[k]] == (v, k))
    && (forall id: nat :: HasStage(calls, id) && calls[id].stage.Collected? ==> id in waiterOf)
  }

  ghost predicate Inv(s: State) {
    && SlotsOk(s.slots, s.calls) && SearchOk(s.slots, s.calls, s.holder)
    && TokensOk(Untouched(s), WorkerBag(s.workers, 1), WorkerBag(s.workers, 2), s.served, s.calls)
    && AddressesOk(s)
    && WaitersOk(s.waiters, s.waiterOf, s.calls)
  }

  // ---------- bags ----------

  lemma {:induction false} InsertBag(q: seq<Request>, r: Request)
    ensures IdBag(Insert(q, r)) == IdBag(q) + multiset{r.id}
  {
    if |q| == 0 || q[0].priority < r.priority {
      assert ([r] + q)[1..] == q;
    } else {
      InsertBag(q[1..], r);
      assert ([q[0]] + Insert(q[1..], r))[1..] == Insert(q[1..], r);
    }
  }

  lemma InsertAddresses(q: seq<Request>, r: Request, calls: seq<Call>)
    requires RequestOk(r, calls) && forall i :: 0 <= i < |q| ==> RequestOk(q[i], calls)
    ensures var n := Insert(q, r); forall i :: 0 <= i < |n| ==> RequestOk(n[i], calls)
  {
    var n := Insert(q, r);
    InsertMembers(q, r);
    forall i | 0 <= i < |n| ensures RequestOk(n[i], calls) {
      assert n[i] in multiset(n);
    }
  }

  lemma {:induction false} WorkerUpdate(ws: seq<Worker>, w: nat, x: Worker, kind: nat)
    requires w < |ws|
    ensures WorkerTag(ws[w], kind) <= WorkerBag(ws, kind)
    ensures WorkerBag(ws[w := x], kind) == WorkerBag(ws, kind) - WorkerTag(ws[w], kind) + WorkerTag(x, kind)
  {
    hide WorkerTag;
    if w == 0 {
      assert ws[w := x][1..] == ws[1..];
    } else {
      WorkerUpdate(ws[1..], w - 1, x, kind);
      assert ws[w := x][1..] == ws[1..][w - 1 := x];
    }
  }

  lemma {:induction false} CountTrueUpdate(flags: seq<bool>, k: nat)
    requires k < |flags| && !flags[k]
    ensures CountTrue(flags[k := true]) == CountTrue(flags) + 1
  {
    if k == 0 {
      assert flags[k := true][1..] == flags[1..];
    } else {
      CountTrueUpdate(flags[1..], k - 1);
      assert flags[k := true][1..] == flags[1..][k - 1 := true];
    }
  }

  lemma {:induction false} CountTrueFull(flags: seq<bool>)
    ensures CountTrue(flags) <= |flags|
    ensures CountTrue(flags) == |flags| ==> forall k :: 0 <= k < |flags| ==> flags[k]
  {
    if |flags| > 0 {
      CountTrueFull(flags[1..]);
      if CountTrue(flags) == |flags| {
        forall k | 0 <= k < |flags| ensures flags[k] {
          if k > 0 { assert flags[1..][k - 1]; }
        }
      }
    }
  }

  // ---------- what each part of the invariant needs from a step ----------

  /** Calls that already have a slot keep it. */
  ghost predicate Extends(calls: seq<Call>, calls': seq<Call>) {
    forall id: nat :: HasStage(calls, id) ==>
      HasStage(calls', id) && calls'[id].idx == calls[id].idx && calls'[id].priority == calls[id].priority
  }

  /** Nothing has happened to calls that have a slot. */
  ghost predicate SamePlaced(calls: seq<Call>, calls': seq<Call>) {
    forall id: nat {:trigger HasStage(calls, id)} {:trigger HasStage(calls', id)} ::
      && (HasStage(calls, id) <==> HasStage(calls', id))
      && (HasStage(calls, id) ==> calls'[id] == calls[id])
  }

  lemma SlotsSame(slots: seq<Slot>, calls: seq<Call>, calls': seq<Call>)
    requires SlotsOk(slots, calls) && SamePlaced(calls, calls')
    ensures SlotsOk(slots, calls')
  {
    forall k | 0 <= k < |slots| ensures SlotOk(slots[k], k, calls') {
      assert SlotOk(slots[k], k, calls);
      if slots[k].owner.Some? { assert HasStage(calls, slots[k].owner.value); }
    }
  }

  lemma WaitersSame(waiters: seq<Waiter>, waiterOf: map<nat, (nat, nat)>, calls: seq<Call>, calls': seq<Call>)
    requires WaitersOk(waiters, waiterOf, calls) && SamePlaced(calls, calls')
    ensures WaitersOk(waiters, waiterOf, calls')
  {
    forall v, k | 0 <= v < |waiters| && 0 <= k < |waiters[v].ids| ensures OutputOk(waiters[v], k, calls') {
      assert OutputOk(waiters[v], k, calls);
    }
  }

  lemma TokensSame(u: multiset<nat>, c: multiset<nat>, w: multiset<nat>, d: multiset<nat>, calls: seq<Call>,
                   calls': seq<Call>)
    requires TokensOk(u, c, w, d, calls) && SamePlaced(calls, calls')
    ensures TokensOk(u, c, w, d, calls')
  {
  }

  lemma UnplacedChange(s: State, s': State)
    requires Inv(s) && SamePlaced(s.calls, s'.calls)
    requires s' == s.(calls := s'.calls, holder := s'.holder) && SearchOk(s.slots, s'.calls, s'.holder)
    ensures Inv(s')
  {
    SlotsSame(s.slots, s.calls, s'.calls);
    WaitersSame(s.waiters, s.waiterOf, s.calls, s'.calls);
    TokensSame(Untouched(s), WorkerBag(s.workers, 1), WorkerBag(s.workers, 2), s.served, s.calls, s'.calls);
    hide SlotsOk, WaitersOk, TokensOk, AddressesOk, WorkerBag, IdBag, HandBag;
    assert Extends(s.calls, s'.calls);
    AddressesKept(s, s');
    assert Untouched(s') == Untouched(s);
  }

  /** An owned slot and its call change together. */
  lemma OwnedChange(slots: seq<Slot>, calls: seq<Call>, id: nat, slot: Slot, c: Call)
    requires SlotsOk(slots, calls) && Owns(calls, id)
    requires c.Placed? && c.idx == calls[id].idx && !c.stage.Collected? && OutcomeOk(c)
    requires slot == Slot(true, c.stage.Done?, ArgOf(c), Some(id))
    ensures SlotsOk(slots[c.idx := slot], calls[id := c])
  {
    var slots', calls' := slots[c.idx := slot], calls[id := c];
    forall k | 0 <= k < |slots'| ensures SlotOk(slots'[k], k, calls') {
      if k != c.idx { assert SlotOk(slots[k], k, calls); }
    }
    forall j: nat | Owns(calls', j) ensures slots'[calls'[j].idx].owner == Some(j) {
      if j != id { assert Owns(calls, j); }
    }
  }

  /** The result has been taken out and the slot is free again. */
  lemma OwnedRelease(slots: seq<Slot>, calls: seq<Call>, id: nat, slot: Slot, c: Call)
    requires SlotsOk(slots, calls) && Owns(calls, id)
    requires c.Placed? && c.idx == calls[id].idx && c.stage.Collected? && OutcomeOk(c)
    requires !slot.used && !slot.done && slot.owner.None?
    ensures SlotsOk(slots[c.idx := slot], calls[id := c])
  {
    var slots', calls' := slots[c.idx := slot], calls[id := c];
    forall k | 0 <= k < |slots'| ensures SlotOk(slots'[k], k, calls') {
      if k != c.idx { assert SlotOk(slots[k], k, calls); }
    }
    forall j: nat | Owns(calls', j) ensures slots'[calls'[j].idx].owner == Some(j) {
      assert Owns(calls, j);
    }
  }

  /** A free slot is claimed by a call that had none. */
  lemma FreeClaimed(slots: seq<Slot>, calls: seq<Call>, id: nat, k: nat, c: Call)
    requires SlotsOk(slots, calls) && id < |calls| && !calls[id].Placed?
    requires k < |slots| && !slots[k].used && c.Placed? && c.idx == k && c.stage == Claimed
    ensures SlotsOk(slots[k := Slot(true, false, c.arg, Some(id))], calls[id := c])
  {
    var slots', calls' := slots[k := Slot(true, false, c.arg, Some(id))], calls[id := c];
    assert SlotOk(slots[k], k, calls);
    forall j | 0 <= j < |slots'| ensures SlotOk(slots'[j], j, calls') {
      if j != k { assert SlotOk(slots[j], j, calls); }
    }
    forall j: nat | Owns(calls', j) ensures slots'[calls'[j].idx].owner == Some(j) {
      if j != id { assert Owns(calls, j); }
    }
    forall j: nat | HasStage(calls', j) ensures calls'[j].idx < |slots'| && OutcomeOk(calls'[j]) {
      if j != id { assert HasStage(calls, j); }
    }
  }

  lemma AddressesKept(s: State, s': State)
    requires AddressesOk(s) && Extends(s.calls, s'.calls)
    requires s'.queue == s.queue && s'.hand == s.hand && s'.mq == s.mq && s'.workers == s.workers
    ensures AddressesOk(s')
  {
  }

  /** Only the stage of one call changes, and neither end of the change is visible to waiters. */
  lemma WaitersKept(waiters: seq<Waiter>, waiterOf: map<nat, (nat, nat)>, calls: seq<Call>, id: nat, c: Call)
    requires WaitersOk(waiters, waiterOf, calls) && id < |calls|
    requires c.Placed? && !c.stage.Collected? && (HasStage(calls, id) ==> !calls[id].stage.Collected?)
    requires HasStage(calls, id) && !calls[id].stage.Claimed? ==> !c.stage.Claimed?
    ensures WaitersOk(waiters, waiterOf, calls[id := c])
  {
    var calls' := calls[id := c];
    forall v, k | 0 <= v < |waiters| && 0 <= k < |waiters[v].ids| ensures OutputOk(waiters[v], k, calls') {
      assert OutputOk(waiters[v], k, calls);
    }
    forall j: nat | HasStage(calls', j) && calls'[j].stage.Collected? ensures j in waiterOf {
      assert HasStage(calls, j);
    }
  }

  /** The bags change for one call only, in step with its stage. */
  lemma TokensMove(u: multiset<nat>, c: multiset<nat>, w: multiset<nat>, d: multiset<nat>, calls: seq<Call>,
                   u': multiset<nat>, c': multiset<nat>, w': multiset<nat>, d': multiset<nat>, id: nat, call: Call)
    requires TokensOk(u, c, w, d, calls) && id < |calls| && call.Placed?
    requires forall j: nat :: j != id ==> u'[j] == u[j] && c'[j] == c[j] && w'[j] == w[j] && d'[j] == d[j]
    requires u'[id] == Bit(call.stage.Waiting?) && c'[id] == Bit(call.stage.Copying?)
    requires w'[id] == Bit(call.stage.Written?) && d'[id] == Bit(call.stage.Done? || call.stage.Collected?)
    ensures TokensOk(u', c', w', d', calls[id := call])
  {
    var calls' := calls[id := call];
    forall j: nat | j != id
      ensures HasStage(calls', j) == HasStage(calls, j) && (HasStage(calls, j) ==> calls'[j] == calls[j])
    {
    }
  }

  lemma TokenStage(u: multiset<nat>, c: multiset<nat>, w: multiset<nat>, d: multiset<nat>, calls: seq<Call>, id: nat)
    requires TokensOk(u, c, w, d, calls)
    ensures u[id] == Bit(HasStage(calls, id) && calls[id].stage.Waiting?)
    ensures c[id] == Bit(HasStage(calls, id) && calls[id].stage.Copying?)
    ensures w[id] == Bit(HasStage(calls, id) && calls[id].stage.Written?)
    ensures d[id] == Bit(HasStage(calls, id) && (calls[id].stage.Done? || calls[id].stage.Collected?))
  {
  }

  lemma OwnerSlot(slots: seq<Slot>, calls: seq<Call>, id: nat)
    requires SlotsOk(slots, calls) && Owns(calls, id)
    ensures calls[id].idx < |slots| && OutcomeOk(calls[id])
    ensures slots[calls[id].idx] == Slot(true, calls[id].stage.Done?, ArgOf(calls[id]), Some(id))
  {
    assert SlotOk(slots[calls[id].idx], calls[id].idx, calls);
  }

  // ---------- every step keeps the invariant ----------

  lemma NewCallKeeps(s: State, arg: Arg, priority: nat)
    requires Inv(s) && Enabled(s, NewCall(arg, priority))
    ensures Inv(Result(s, NewCall(arg, priority)))
  {
    NewCallPlaced(s.slots, s.calls, s.holder, Preparing(arg, priority));
    hide SlotsOk, WaitersOk, TokensOk, AddressesOk, SearchOk, SamePlaced, Untouched, WorkerBag;
    UnplacedChange(s, Result(s, NewCall(arg, priority)));
  }

  lemma NewCallPlaced(slots: seq<Slot>, calls: seq<Call>, holder: Option<nat>, c: Call)
    requires c.Preparing? && SearchOk(slots, calls, holder)
    ensures SamePlaced(calls, calls + [c]) && SearchOk(slots, calls + [c], holder)
  {
  }

  lemma SomeSlots(slots: seq<Slot>, calls: seq<Call>)
    requires SlotsOk(slots, calls)
    ensures |slots| > 0
  {
  }

  lemma StartSearchKeeps(s: State, id: nat)
    requires Inv(s) && Enabled(s, StartSearch(id))
    ensures Inv(Result(s, StartSearch(id)))
  {
    hide SlotsOk, WaitersOk, TokensOk, AddressesOk;
    SomeSlots(s.slots, s.calls);
    UnplacedChange(s, Result(s, StartSearch(id)));
  }

  lemma LookOnKeeps(s: State, id: nat)
    requires Inv(s) && Enabled(s, Look(id)) && s.slots[s.calls[id].at].used
    ensures Inv(Result(s, Look(id)))
  {
    hide SlotsOk, WaitersOk, TokensOk, AddressesOk;
    UnplacedChange(s, Result(s, Look(id)));
  }

  lemma ClaimKeeps(s: State, id: nat)
    requires Inv(s) && Enabled(s, Look(id)) && !s.slots[s.calls[id].at].used
    ensures Inv(Result(s, Look(id)))
  {
    hide SlotsOk, WaitersOk, TokensOk, AddressesOk, WorkerBag, IdBag, HandBag;
    var s', c := Result(s, Look(id)), s.calls[id];
    var placed := Placed(c.arg, c.priority, c.at, Claimed);
    FreeClaimed(s.slots, s.calls, id, c.at, placed);
    WaitersKept(s.waiters, s.waiterOf, s.calls, id, placed);
    TokenStage(Untouched(s), WorkerBag(s.workers, 1), WorkerBag(s.workers, 2), s.served, s.calls, id);
    TokensMove(Untouched(s), WorkerBag(s.workers, 1), WorkerBag(s.workers, 2), s.served, s.calls,
               Untouched(s), WorkerBag(s.workers, 1), WorkerBag(s.workers, 2), s.served, id, placed);
    AddressesKept(s, s');
  }

  lemma SubmitKeeps(s: State, id: nat)
    requires Inv(s) && Enabled(s, Submit(id))
    ensures Inv(Result(s, Submit(id)))
  {
    hide SlotsOk, WaitersOk, TokensOk, AddressesOk, WorkerBag, IdBag, HandBag, Insert;
    var s', c := Result(s, Submit(id)), s.calls[id];
    var c' := c.(stage := Waiting);
    var r := Request(id, c.idx, c.priority, s.arrivals);
    OwnerSlot(s.slots, s.calls, id);
    OwnedChange(s.slots, s.calls, id, s.slots[c.idx], c');
    assert s.slots[c.idx := s.slots[c.idx]] == s.slots;
    WaitersKept(s.waiters, s.waiterOf, s.calls, id, c');
    InsertBag(s.queue, r);
    assert Untouched(s') == Untouched(s) + multiset{id};
    TokenStage(Untouched(s), WorkerBag(s.workers, 1), WorkerBag(s.workers, 2), s.served, s.calls, id);
    TokensMove(Untouched(s), WorkerBag(s.workers, 1), WorkerBag(s.workers, 2), s.served, s.calls,
               Untouched(s'), WorkerBag(s.workers, 1), WorkerBag(s.workers, 2), s.served, id, c');
    SubmitAddresses(s, s', r);
  }

  lemma SubmitAddresses(s: State, s': State, r: Request)
    requires AddressesOk(s) && Extends(s.calls, s'.calls) && RequestOk(r, s'.calls)
    requires s'.queue == Insert(s.queue, r) && s'.hand == s.hand && s'.mq == s.mq && s'.workers == s.workers
    ensures AddressesOk(s')
  {
    AddressesKept(s, s.(calls := s'.calls));
    InsertAddresses(s.queue, r, s'.calls);
  }

  lemma TakeHeadAddresses(s: State)
    requires AddressesOk(s) && |s.queue| > 0
    ensures AddressesOk(s.(hand := Some(s.queue[0]), queue := s.queue[1..]))
  {
  }

  lemma TakeHeadKeeps(s: State)
    requires Inv(s) && Enabled(s, TakeHead)
    ensures Inv(Result(s, TakeHead))
  {
    hide SlotsOk, WaitersOk, TokensOk, AddressesOk, WorkerBag;
    TakeHeadAddresses(s);
    assert Untouched(Result(s, TakeHead)) == Untouched(s);
  }

  lemma SendKeeps(s: State)
    requires Inv(s) && Enabled(s, Send)
    ensures Inv(Result(s, Send))
  {
    hide SlotsOk, WaitersOk, TokensOk, WorkerBag, Insert, IdBag;
    InsertBag(s.mq, s.hand.value);
    InsertAddresses(s.mq, s.hand.value, s.calls);
    assert Untouched(Result(s, Send)) == Untouched(s);
  }

  /** A request passes from the message queue to an idle worker. */
  lemma ReceiveBags(mq: seq<Request>, ws: seq<Worker>, w: nat)
    requires |mq| > 0 && w < |ws| && ws[w].Idle?
    ensures var ws' := ws[w := Received(mq[0])];
            && IdBag(mq[1..]) + WorkerBag(ws', 0) == IdBag(mq) + WorkerBag(ws, 0)
            && WorkerBag(ws', 1) == WorkerBag(ws, 1) && WorkerBag(ws', 2) == WorkerBag(ws, 2)
  {
    hide WorkerBag;
    WorkerUpdate(ws, w, Received(mq[0]), 0);
    WorkerUpdate(ws, w, Received(mq[0]), 1);
    WorkerUpdate(ws, w, Received(mq[0]), 2);
  }

  lemma ReceiveKeeps(s: State, w: nat)
    requires Inv(s) && Enabled(s, Receive(w))
    ensures Inv(Result(s, Receive(w)))
  {
    hide SlotsOk, WaitersOk, TokensOk, WorkerBag, IdBag, HandBag;
    ReceiveBags(s.mq, s.workers, w);
    var s', a := Result(s, Receive(w)), IdBag(s.queue) + HandBag(s.hand);
    assert Untouched(s') == a + (IdBag(s'.mq) + WorkerBag(s'.workers, 0));
    assert Untouched(s) == a + (IdBag(s.mq) + WorkerBag(s.workers, 0));
  }

  /** Which of the three bags a worker's request is in. */
  ghost function KindOf(w: Worker): nat {
    match w case Idle => 3 case Received(_) => 0 case Copied(_) => 1 case Served(_) => 2
  }

  /** Only the count of the worker's own request changes. */
  lemma BagMove(ws: seq<Worker>, w: nat, next: Worker, kind: nat)
    requires w < |ws| && !ws[w].Idle? && (next.Idle? || next.r == ws[w].r) && kind < 3
    ensures var id := ws[w].r.id;
            && (forall j: nat :: j != id ==> WorkerBag(ws[w := next], kind)[j] == WorkerBag(ws, kind)[j])
            && WorkerBag(ws, kind)[id] >= Bit(KindOf(ws[w]) == kind)
            && WorkerBag(ws[w := next], kind)[id]
            == WorkerBag(ws, kind)[id] - Bit(KindOf(ws[w]) == kind) + Bit(KindOf(next) == kind)
  {
    hide WorkerBag;
    WorkerUpdate(ws, w, next, kind);
  }

  /** The call of a busy worker is at the stage that the worker has brought it to. */
  lemma WorkerStage(s: State, w: nat)
    requires Inv(s) && w < |s.workers| && !s.workers[w].Idle?
    ensures var r := s.workers[w].r;
            && WorkerIn(s, w) && Owns(s.calls, r.id) && s.calls[r.id].idx == r.idx && OutcomeOk(s.calls[r.id])
            && s.slots[r.idx] == Slot(true, s.calls[r.id].stage.Done?, ArgOf(s.calls[r.id]), Some(r.id))
            && (s.workers[w].Received? ==> s.calls[r.id].stage.Waiting?)
            && (s.workers[w].Copied? ==> s.calls[r.id].stage.Copying?)
            && (s.workers[w].Served? ==> s.calls[r.id].stage.Written?)
  {
    var r := s.workers[w].r;
    assert RequestOk(r, s.calls);
    hide SlotsOk, WaitersOk, TokensOk, AddressesOk, WorkerBag, IdBag, HandBag;
    BagMove(s.workers, w, Idle, KindOf(s.workers[w]));
    TokenStage(Untouched(s), WorkerBag(s.workers, 1), WorkerBag(s.workers, 2), s.served, s.calls, r.id);
    OwnerSlot(s.slots, s.calls, r.id);
  }

  lemma WorkerAddresses(s: State, s': State, w: nat, next: Worker)
    requires AddressesOk(s) && Extends(s.calls, s'.calls) && w < |s.workers| && !s.workers[w].Idle?
    requires next.Idle? || next.r == s.workers[w].r
    requires s'.queue == s.queue && s'.hand == s.hand && s'.mq == s.mq && s'.workers == s.workers[w := next]
    ensures AddressesOk(s')
  {
    AddressesKept(s, s.(calls := s'.calls));
  }

  /** A worker moves on with its request: the slot, the call's stage and the bags change together. */
  lemma WorkerMoves(s: State, s': State, w: nat, next: Worker, slot: Slot, stage: Stage)
    requires Inv(s) && WorkerIn(s, w)
    requires stage.Copying? || stage.Written? || stage.Done?
    requires KindOf(next) == if stage.Copying? then 1 else if stage.Written? then 2 else 3
    requires var r := s.workers[w].r;
             && s' == SetStage(SetSlot(s, r.idx, slot), r.id, stage)
                        .(workers := s.workers[w := next],
                          served := s.served + if stage.Done? then multiset{r.id} else multiset{})
             && OutcomeOk(s.calls[r.id].(stage := stage))
             && slot == Slot(true, stage.Done?, ArgOf(s.calls[r.id].(stage := stage)), Some(r.id))
             && (next.Idle? || next.r == r)
    ensures Inv(s')
  {
    hide SlotsOk, WaitersOk, TokensOk, AddressesOk, WorkerBag, IdBag, HandBag;
    var r, ws := s.workers[w].r, s.workers;
    WorkerStage(s, w);
    var c := s.calls[r.id].(stage := stage);
    BagMove(ws, w, next, 0);
    BagMove(ws, w, next, 1);
    BagMove(ws, w, next, 2);
    OwnedChange(s.slots, s.calls, r.id, slot, c);
    WaitersKept(s.waiters, s.waiterOf, s.calls, r.id, c);
    TokenStage(Untouched(s), WorkerBag(ws, 1), WorkerBag(ws, 2), s.served, s.calls, r.id);
    TokensMove(Untouched(s), WorkerBag(ws, 1), WorkerBag(ws, 2), s.served, s.calls,
               Untouched(s'), WorkerBag(s'.workers, 1), WorkerBag(s'.workers, 2), s'.served, r.id, c);
    WorkerAddresses(s, s', w, next);
  }

  lemma CopyPathKeeps(s: State, w: nat)
    requires Inv(s) && Enabled(s, CopyPath(w))
    ensures Inv(Result(s, CopyPath(w)))
  {
    hide Inv;
    WorkerStage(s, w);
    var r := s.workers[w].r;
    var slot := s.slots[r.idx];
    var copied := slot.(arg := slot.arg.(compressed := slot.arg.source));
    WorkerMoves(s, Result(s, CopyPath(w)), w, Copied(r), copied, Copying);
  }

  lemma AppendSuffixKeeps(s: State, w: nat)
    requires Inv(s) && Enabled(s, AppendSuffix(w))
    ensures Inv(Result(s, AppendSuffix(w)))
  {
    hide Inv;
    WorkerStage(s, w);
    var r := s.workers[w].r;
    var slot := s.slots[r.idx];
    var arg := slot.arg.(compressed := slot.arg.compressed + SUFFIX);
    WorkerMoves(s, Result(s, AppendSuffix(w)), w, Served(r), slot.(arg := arg), Written(arg));
  }

  lemma GiveUpKeeps(s: State, w: nat)
    requires Inv(s) && Enabled(s, GiveUp(w))
    ensures Inv(Result(s, GiveUp(w)))
  {
    hide Inv;
    WorkerStage(s, w);
    var r := s.workers[w].r;
    var slot := s.slots[r.idx];
    assert SetSlot(s, r.idx, slot) == s;
    WorkerMoves(s, Result(s, GiveUp(w)), w, Served(r), slot, Written(slot.arg));
  }

  lemma MarkDoneKeeps(s: State, w: nat)
    requires Inv(s) && Enabled(s, MarkDone(w))
    ensures Inv(Result(s, MarkDone(w)))
  {
    hide Inv;
    WorkerStage(s, w);
    var r := s.workers[w].r;
    var slot := s.slots[r.idx];
    WorkerMoves(s, Result(s, MarkDone(w)), w, Idle, slot.(done := true), Done(slot.arg));
  }

  lemma {:induction false} IndexOfUnique(ids: seq<nat>, k: nat)
    requires k < |ids| && forall i, j :: 0 <= i < j < |ids| ==> ids[i] != ids[j]
    ensures IndexOf(ids, ids[k]) == k
  {
    if k > 0 { IndexOfUnique(ids[1..], k - 1); }
  }

  lemma {:induction false} CountNone(n: nat)
    ensures CountTrue(seq(n, _ => false)) == 0
  {
    if n > 0 {
      CountNone(n - 1);
      assert seq(n, _ => false)[1..] == seq(n - 1, _ => false);
    }
  }

  /** A new waiter for calls that nobody waits for yet. */
  lemma WaiterAdded(waiters: seq<Waiter>, waiterOf: map<nat, (nat, nat)>, calls: seq<Call>, x: Waiter,
                    waiterOf': map<nat, (nat, nat)>)
    requires WaitersOk(waiters, waiterOf, calls) && WaiterShape(x)
    requires forall k :: 0 <= k < |x.ids| ==> OutputOk(x, k, calls) && x.ids[k] !in waiterOf
    requires forall k :: 0 <= k < |x.ids| ==> x.ids[k] in waiterOf' && waiterOf'[x.ids[k]] == (|waiters|, k)
    requires forall id :: id in waiterOf ==> id in waiterOf' && waiterOf'[id] == waiterOf[id]
    ensures WaitersOk(waiters + [x], waiterOf', calls)
  {
    hide OutputOk, WaiterShape;
    var all := waiters + [x];
    forall v, k | 0 <= v < |all| && 0 <= k < |all[v].ids|
      ensures OutputOk(all[v], k, calls) && all[v].ids[k] in waiterOf' && waiterOf'[all[v].ids[k]] == (v, k)
    {
      if v < |waiters| { assert OutputOk(waiters[v], k, calls); }
    }
  }

  lemma NewWaitKeeps(s: State, ids: seq<nat>)
    requires Inv(s) && Enabled(s, NewWait(ids))
    ensures Inv(Result(s, NewWait(ids)))
  {
    hide SlotsOk, TokensOk, WorkerBag, IdBag, HandBag, CountTrue, IndexOf;
    var s' := Result(s, NewWait(ids));
    CountNone(|ids|);
    forall k | 0 <= k < |ids| ensures IndexOf(ids, ids[k]) == k { IndexOfUnique(ids, k); }
    NothingCollected(s, ids);
    WaiterAdded(s.waiters, s.waiterOf, s.calls, s'.waiters[|s.waiters|], s'.waiterOf);
    AddressesKept(s, s');
    assert Untouched(s') == Untouched(s);
  }

  lemma NothingCollected(s: State, ids: seq<nat>)
    requires Inv(s) && forall i :: 0 <= i < |ids| ==> Awaitable(s, ids[i])
    ensures forall i :: 0 <= i < |ids| ==> HasStage(s.calls, ids[i]) && !s.calls[ids[i]].stage.Collected?
  {
    hide SlotsOk, TokensOk, AddressesOk;
    forall i | 0 <= i < |ids| ensures HasStage(s.calls, ids[i]) && !s.calls[ids[i]].stage.Collected? {
      assert Awaitable(s, ids[i]);
    }
  }

  lemma WaiterTurns(waiters: seq<Waiter>, waiterOf: map<nat, (nat, nat)>, calls: seq<Call>, v: nat, i: nat)
    requires WaitersOk(waiters, waiterOf, calls) && v < |waiters| && i < |waiters[v].ids|
    ensures WaitersOk(waiters[v := waiters[v].(i := i)], waiterOf, calls)
  {
    var all := waiters[v := waiters[v].(i := i)];
    forall u, k | 0 <= u < |all| && 0 <= k < |all[u].ids|
      ensures OutputOk(all[u], k, calls) && all[u].ids[k] in waiterOf && waiterOf[all[u].ids[k]] == (u, k)
    {
      assert OutputOk(waiters[u], k, calls);
    }
  }

  /** The waiter fills the output of its own call; no other waiter polls that call. */
  lemma WaiterCollects(waiters: seq<Waiter>, waiterOf: map<nat, (nat, nat)>, calls: seq<Call>,
                       v: nat, x': Waiter, out: Arg)
    requires WaitersOk(waiters, waiterOf, calls) && v < |waiters|
    requires var x := waiters[v];
             && x' == Waiter(x.ids, x.flags[x.i := true], x.outs[x.i := Some(out)], x.fills[x.i := x.fills[x.i] + 1],
                             x'.i, x.done + 1)
             && !x.flags[x.i] && x'.i < |x.ids|
    ensures HasStage(calls, waiters[v].ids[waiters[v].i])
    ensures var id := waiters[v].ids[waiters[v].i];
            WaitersOk(waiters[v := x'], waiterOf, calls[id := calls[id].(stage := Collected(out))])
  {
    var x, i := waiters[v], waiters[v].i;
    var id := x.ids[i];
    assert OutputOk(x, i, calls);
    CountTrueUpdate(x.flags, i);
    hide CountTrue;
    var all, calls' := waiters[v := x'], calls[id := calls[id].(stage := Collected(out))];
    forall u, k | 0 <= u < |all| && 0 <= k < |all[u].ids|
      ensures OutputOk(all[u], k, calls') && all[u].ids[k] in waiterOf && waiterOf[all[u].ids[k]] == (u, k)
    {
      assert OutputOk(waiters[u], k, calls);
      assert all[u].ids[k] == id ==> waiterOf[id] == (u, k) && waiterOf[id] == (v, i);
    }
    forall j: nat | HasStage(calls', j) && calls'[j].stage.Collected? ensures j in waiterOf {
      if j != id { assert HasStage(calls, j); }
    }
  }

  /** What a waiter about to look at a slot knows: it is the slot of its own call. */
  lemma PollingOwner(s: State, v: nat)
    requires Inv(s) && v < |s.waiters| && s.waiters[v].done < |s.waiters[v].ids|
    ensures WaiterShape(s.waiters[v]) && Enabled(s, Poll(v))
    ensures var x := s.waiters[v];
            var id := x.ids[x.i];
            !x.flags[x.i] ==>
              && Owns(s.calls, id) && !s.calls[id].stage.Claimed? && OutcomeOk(s.calls[id])
              && s.slots[s.calls[id].idx] == Slot(true, s.calls[id].stage.Done?, ArgOf(s.calls[id]), Some(id))
  {
    var x := s.waiters[v];
    assert WaiterShape(x);
    assert OutputOk(x, x.i, s.calls);
    var id := x.ids[x.i];
    assert s.calls[id].idx < |s.slots|;
    hide SlotsOk, TokensOk, AddressesOk, WaitersOk, CountTrue;
    if !x.flags[x.i] { OwnerSlot(s.slots, s.calls, id); }
  }

  lemma PollKeeps(s: State, v: nat)
    requires Inv(s) && Enabled(s, Poll(v))
    ensures Inv(Result(s, Poll(v)))
  {
    hide SlotsOk, WaitersOk, TokensOk, AddressesOk, WorkerBag, IdBag, HandBag, CountTrue, WaiterShape;
    var s', x := Result(s, Poll(v)), s.waiters[v];
    var id := x.ids[x.i];
    PollingOwner(s, v);
    if x.flags[x.i] || !s.slots[s.calls[id].idx].done {
      WaiterTurns(s.waiters, s.waiterOf, s.calls, v, (x.i + 1) % |x.ids|);
      AddressesKept(s, s');
    } else {
      var slot, k := s.slots[s.calls[id].idx], s.calls[id].idx;
      var c := s.calls[id].(stage := Collected(slot.arg));
      OwnedRelease(s.slots, s.calls, id, Slot(false, false, slot.arg, None), c);
      WaiterCollects(s.waiters, s.waiterOf, s.calls, v, s'.waiters[v], slot.arg);
      TokenStage(Untouched(s), WorkerBag(s.workers, 1), WorkerBag(s.workers, 2), s.served, s.calls, id);
      TokensMove(Untouched(s), WorkerBag(s.workers, 1), WorkerBag(s.workers, 2), s.served, s.calls,
                 Untouched(s), WorkerBag(s.workers, 1), WorkerBag(s.workers, 2), s.served, id, c);
      AddressesKept(s, s');
    }
    assert Untouched(s') == Untouched(s);
  }

  lemma InitHolds(s: State)
    requires Init(s)
    ensures Inv(s)
  {
    IdleBag(s.workers, 0);
    IdleBag(s.workers, 1);
    IdleBag(s.workers, 2);
  }

  lemma {:induction false} IdleBag(ws: seq<Worker>, kind: nat)
    requires forall w :: 0 <= w < |ws| ==> ws[w].Idle?
    ensures WorkerBag(ws, kind) == multiset{}
  {
    if |ws| > 0 { IdleBag(ws[1..], kind); }
  }

  /** No step of any thread breaks the invariant. */
  lemma StepKeeps(s: State, step: Step)
    requires Inv(s) && Enabled(s, step)
    ensures Inv(Result(s, step))
  {
    hide Inv, Result;
    match step {
      case NewCall(arg, priority) => NewCallKeeps(s, arg, priority);
      case StartSearch(id) => StartSearchKeeps(s, id);
      case Look(id) => if s.slots[s.calls[id].at].used { LookOnKeeps(s, id); } else { ClaimKeeps(s, id); }
      case Submit(id) => SubmitKeeps(s, id);
      case TakeHead => TakeHeadKeeps(s);
      case Send => SendKeeps(s);
      case Receive(w) => ReceiveKeeps(s, w);
      case CopyPath(w) => CopyPathKeeps(s, w);
      case AppendSuffix(w) => AppendSuffixKeeps(s, w);
      case GiveUp(w) => GiveUpKeeps(s, w);
      case MarkDone(w) => MarkDoneKeeps(s, w);
      case NewWait(ids) => NewWaitKeeps(s, ids);
      case Poll(v) => PollKeeps(s, v);
    }
  }

  lemma {:induction false} RunKeeps(s: State, steps: seq<Step>)
    requires Inv(s) && RunFrom(s, steps).Some?
    ensures Inv(RunFrom(s, steps).value)
    decreases |steps|
  {
    hide Inv, Enabled, Result;
    if |steps| > 0 {
      StepKeeps(s, steps[0]);
      RunKeeps(Result(s, steps[0]), steps[1..]);
    }
  }

  /** The invariant holds in every reachable state, whatever the interleaving. */
  lemma ReachableInv(s: State)
    requires Reachable(s)
    ensures Inv(s)
  {
    hide Inv, Init, RunFrom;
    var s0: State, steps: seq<Step> :| Init(s0) && RunFrom(s0, steps) == Some(s);
    InitHolds(s0);
    RunKeeps(s0, steps);
  }
}
