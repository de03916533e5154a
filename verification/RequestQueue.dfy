/** The client's request queue: a linked list kept in priority order, oldest first among equals. */
module RequestQueue {
  import opened Bytes

  /**
   * The fields of a request that the queue and the slot protocol use. `arrival` numbers the requests
   * in the order in which they are enqueued; it is an auxiliary field that no step reads.
   */
  datatype Request = Request(id: nat, idx: nat, priority: nat, arrival: nat)

  /** Behind every request of at least the same priority. */
  function Insert(q: seq<Request>, r: Request): seq<Request> {
    if |q| == 0 || q[0].priority < r.priority then [r] + q
    else [q[0]] + Insert(q[1..], r)
  }

  /** a leaves the queue before b: higher priority first, then arrival order. */
  predicate Precedes(a: Request, b: Request) {
    a.priority > b.priority || (a.priority == b.priority && a.arrival < b.arrival)
  }

  predicate Ordered(q: seq<Request>) {
    forall i, j :: 0 <= i < j < |q| ==> Precedes(q[i], q[j])
  }

  predicate OlderThan(q: seq<Request>, arrival: nat) {
    forall i :: 0 <= i < |q| ==> q[i].arrival < arrival
  }

  lemma {:induction false} InsertMembers(q: seq<Request>, r: Request)
    ensures multiset(Insert(q, r)) == multiset(q) + multiset{r}
  {
    if |q| == 0 || q[0].priority < r.priority {
    } else {
      InsertMembers(q[1..], r);
      assert q == [q[0]] + q[1..];
    }
  }

  /** The place that the list walk finds: everything before it ranks at least as high as r. */
  lemma {:induction false} InsertAt(q: seq<Request>, r: Request, k: nat)
    requires k <= |q|
    requires forall i :: 0 <= i < k ==> q[i].priority >= r.priority
    requires k < |q| ==> q[k].priority < r.priority
    ensures Insert(q, r) == q[..k] + [r] + q[k..]
    decreases k
  {
    if k > 0 {
      hide Insert;
      InsertStep(q, r);
      InsertAt(q[1..], r, k - 1);
      assert q[..k] + [r] + q[k..] == [q[0]] + (q[1..][..k - 1] + [r] + q[1..][k - 1..]);
    }
  }

  lemma InsertStep(q: seq<Request>, r: Request)
    requires |q| > 0 && q[0].priority >= r.priority
    ensures Insert(q, r) == [q[0]] + Insert(q[1..], r)
  {
  }

  /** A request younger than those of its own priority keeps the queue ordered. */
  lemma {:induction false} InsertKeepsOrder(q: seq<Request>, r: Request)
    requires Ordered(q) && forall i :: 0 <= i < |q| && q[i].priority == r.priority ==> q[i].arrival < r.arrival
    ensures Ordered(Insert(q, r))
  {
    if |q| > 0 && q[0].priority >= r.priority {
      InsertKeepsOrder(q[1..], r);
      var m := Insert(q[1..], r);
      InsertMembers(q[1..], r);
      forall j | 0 <= j < |m| ensures Precedes(q[0], m[j]) {
        assert m[j] in multiset(m);
      }
    }
  }

  /** Nothing else enters with the newcomer. */
  lemma InsertOnly(q: seq<Request>, r: Request, n: seq<Request>)
    requires n == Insert(q, r)
    ensures forall i :: 0 <= i < |n| ==> n[i] == r || n[i] in q
  {
    InsertMembers(q, r);
    forall i | 0 <= i < |n| ensures n[i] == r || n[i] in q {
      assert n[i] in multiset(n);
    }
  }

  /** A newcomer keeps the queue ordered. */
  lemma InsertOrdered(q: seq<Request>, r: Request)
    requires Ordered(q) && OlderThan(q, r.arrival)
    ensures Ordered(Insert(q, r)) && OlderThan(Insert(q, r), r.arrival + 1)
  {
    InsertKeepsOrder(q, r);
    InsertOnly(q, r, Insert(q, r));
  }

  // ---------- runs ----------

  datatype Op = Enqueue(request: Request) | Dequeue

  /** The queue, everything that went in, everything that came out, and the next arrival number. */
  datatype History = History(queue: seq<Request>, entered: seq<Request>, left: seq<Request>, arrivals: nat)

  function Step(h: History, op: Op): History {
    match op
    case Enqueue(request) =>
      var r := request.(arrival := h.arrivals);
      History(Insert(h.queue, r), h.entered + [r], h.left, h.arrivals + 1)
    case Dequeue =>
      if |h.queue| == 0 then h
      else h.(queue := h.queue[1..], left := h.left + [h.queue[0]])
  }

  function Run(ops: seq<Op>): History {
    if |ops| == 0 then History([], [], [], 0) else Step(Run(ops[..|ops| - 1]), ops[|ops| - 1])
  }

  /** The requests that a run enqueues, numbered in their order. */
  function Requests(ops: seq<Op>): seq<Request> {
    if |ops| == 0 then []
    else
      var before := Requests(ops[..|ops| - 1]);
      match ops[|ops| - 1]
      case Enqueue(request) => before + [request.(arrival := |before|)]
      case Dequeue => before
  }

  /** Equal priorities have left in arrival order, and ahead of those still waiting. */
  ghost predicate Fair(h: History) {
    && (forall i, j :: 0 <= i < j < |h.left| && h.left[i].priority == h.left[j].priority
          ==> h.left[i].arrival < h.left[j].arrival)
    && (forall i, j :: 0 <= i < |h.left| && 0 <= j < |h.queue| && h.left[i].priority == h.queue[j].priority
          ==> h.left[i].arrival < h.queue[j].arrival)
  }

  ghost predicate HistoryOk(h: History) {
    && Ordered(h.queue) && OlderThan(h.queue, h.arrivals) && OlderThan(h.left, h.arrivals)
    && multiset(h.entered) == multiset(h.left) + multiset(h.queue)
    && Fair(h)
  }

  lemma EnqueueOk(h: History, request: Request)
    requires HistoryOk(h)
    ensures HistoryOk(Step(h, Enqueue(request)))
  {
    var r := request.(arrival := h.arrivals);
    var n := Insert(h.queue, r);
    InsertOrdered(h.queue, r);
    InsertMembers(h.queue, r);
    InsertOnly(h.queue, r, n);
    hide Insert, Precedes;
    assert multiset(h.entered + [r]) == multiset(h.left) + multiset(n);
  }

  lemma TailOk(q: seq<Request>, n: nat)
    requires Ordered(q) && OlderThan(q, n) && |q| > 0
    ensures Ordered(q[1..]) && OlderThan(q[1..], n) && q[0].arrival < n
    ensures multiset(q) == multiset{q[0]} + multiset(q[1..])
  {
    hide Precedes;
    assert q == [q[0]] + q[1..];
  }

  /** The head has arrived before all others of its priority. */
  lemma DequeueFair(h: History)
    requires Fair(h) && Ordered(h.queue) && |h.queue| > 0
    ensures Fair(h.(queue := h.queue[1..], left := h.left + [h.queue[0]]))
  {
  }

  lemma DequeueOk(h: History)
    requires HistoryOk(h)
    ensures HistoryOk(Step(h, Dequeue))
  {
    hide Fair, Ordered, Insert;
    if |h.queue| > 0 {
      TailOk(h.queue, h.arrivals);
      DequeueFair(h);
      assert multiset(h.left + [h.queue[0]]) == multiset(h.left) + multiset{h.queue[0]};
    }
  }

  lemma StepOk(h: History, op: Op)
    requires HistoryOk(h)
    ensures HistoryOk(Step(h, op))
  {
    match op {
      case Enqueue(request) => EnqueueOk(h, request);
      case Dequeue => DequeueOk(h);
    }
  }

  /**
   * Over every run of enqueues and dequeues the queue is ordered, every request that the run enqueues
   * has either left once or waits once, and requests of equal priority leave in arrival order.
   */
  lemma {:induction false} RunOk(ops: seq<Op>)
    ensures HistoryOk(Run(ops))
    ensures Run(ops).entered == Requests(ops) && Run(ops).arrivals == |Requests(ops)|
    ensures multiset(Requests(ops)) == multiset(Run(ops).left) + multiset(Run(ops).queue)
    decreases |ops|
  {
    hide HistoryOk, Step;
    if |ops| > 0 {
      var before, op := ops[..|ops| - 1], ops[|ops| - 1];
      RunOk(before);
      StepOk(Run(before), op);
      StepEnters(Run(before), op);
    } else {
      NothingYet();
    }
    Conserved(Run(ops));
  }

  lemma StepEnters(h: History, op: Op)
    requires h.arrivals == |h.entered|
    ensures Step(h, op).arrivals == |Step(h, op).entered|
    ensures Step(h, op).entered == h.entered + (if op.Enqueue? then [op.request.(arrival := |h.entered|)] else [])
  {
  }

  lemma NothingYet()
    ensures HistoryOk(History([], [], [], 0))
  {
  }

  lemma Conserved(h: History)
    requires HistoryOk(h)
    ensures multiset(h.entered) == multiset(h.left) + multiset(h.queue)
  {
  }

  /** Whatever happened before, a dequeue hands out the oldest request of the highest priority present. */
  lemma DequeueTakesBest(ops: seq<Op>)
    requires |Run(ops).queue| > 0
    ensures var h := Run(ops);
            var h' := Run(ops + [Dequeue]);
            && h'.left == h.left + [h.queue[0]] && h'.queue == h.queue[1..]
            && forall i :: 1 <= i < |h.queue| ==> Precedes(h.queue[0], h.queue[i])
  {
    RunOk(ops);
    assert (ops + [Dequeue])[..|ops|] == ops;
  }

  // ---------- the linked list ----------

  class Node {
    const request: Request
    var next: Node?

    constructor (r: Request)
      ensures request == r && next == null
    {
      request := r;
      next := null;
    }
  }

  ghost predicate Distinct(ns: seq<Node>) {
    forall i, j :: 0 <= i < j < |ns| ==> ns[i] != ns[j]
  }

  /** The requests of the nodes, up to their arrival numbers. */
  ghost predicate Tickets(ns: seq<Node>, cs: seq<Request>) {
    |cs| == |ns| && forall i :: 0 <= i < |ns| ==> cs[i] == ns[i].request.(arrival := cs[i].arrival)
  }

  lemma TicketsInsert(ns: seq<Node>, cs: seq<Request>, n: Node, c: Request, k: nat)
    requires Tickets(ns, cs) && c == n.request.(arrival := c.arrival) && k <= |ns|
    ensures Tickets(ns[..k] + [n] + ns[k..], cs[..k] + [c] + cs[k..])
  {
  }

  lemma DistinctFrom(ns: seq<Node>, k: nat)
    requires Distinct(ns) && k < |ns|
    ensures forall i :: 0 <= i < |ns| && i != k ==> ns[i] != ns[k]
  {
  }

  lemma DistinctInsert(ns: seq<Node>, n: Node, k: nat)
    requires Distinct(ns) && n !in ns && k <= |ns|
    ensures Distinct(ns[..k] + [n] + ns[k..])
  {
  }

  class PriorityQueue {
    var queue: Node?
    /** The nodes of the list, and their requests with arrival numbers filled in. */
    ghost var nodes: seq<Node>
    ghost var Contents: seq<Request>
    ghost var arrivals: nat

    ghost function NodeAt(i: nat): Node?
      reads this`nodes
    {
      if i < |nodes| then nodes[i] else null
    }

    /** The list reached from the head is finite, unshared and consists of exactly `nodes`. */
    ghost predicate Linked()
      reads this, nodes
    {
      && queue == NodeAt(0) && Tickets(nodes, Contents)
      && (forall i {:trigger nodes[i].next} :: 0 <= i < |nodes| ==> nodes[i].next == NodeAt(i + 1))
      && Distinct(nodes)
    }

    ghost predicate Valid()
      reads this, nodes
    {
      Linked() && Ordered(Contents) && OlderThan(Contents, arrivals)
    }

    constructor ()
      ensures Valid() && Contents == [] && arrivals == 0 && nodes == []
    {
      queue, nodes, Contents, arrivals := null, [], [], 0;
    }

    /** Walks past every node of at least the same priority and links the new node in there. */
    method Enqueue(request: Request)
      requires Valid()
      modifies this, nodes
      ensures Valid() && arrivals == old(arrivals) + 1
      ensures Contents == Insert(old(Contents), request.(arrival := old(arrivals)))
      ensures forall n :: n in nodes ==> n in old(nodes) || fresh(n)
    {
      ghost var ticket := request.(arrival := arrivals);
      var entry := new Node(request);
      var curr, prev := queue, null;
      ghost var k: nat := 0;
      while curr != null && curr.request.priority >= request.priority
        invariant k <= |nodes| && curr == NodeAt(k)
        invariant prev == if k == 0 then null else nodes[k - 1]
        invariant forall i :: 0 <= i < k ==> Contents[i].priority >= request.priority
        decreases |nodes| - k
      {
        prev := curr;
        curr := curr.next;
        k := k + 1;
      }
      InsertAt(Contents, ticket, k);
      InsertOrdered(Contents, ticket);
      hide Insert, Precedes, Ordered, OlderThan;
      Link(entry, prev, curr, k, ticket);
    }

    /** Hangs a new node between two neighbours of the list. */
    method Link(entry: Node, prev: Node?, curr: Node?, ghost k: nat, ghost ticket: Request)
      requires Linked() && k <= |nodes| && entry !in nodes
      requires curr == NodeAt(k) && prev == if k == 0 then null else nodes[k - 1]
      requires ticket == entry.request.(arrival := ticket.arrival)
      modifies this, nodes, entry
      ensures Linked() && nodes == old(nodes[..k] + [entry] + nodes[k..])
      ensures Contents == old(Contents[..k] + [ticket] + Contents[k..]) && arrivals == old(arrivals) + 1
    {
      ghost var ns, cs := nodes, Contents;
      assert |cs| == |ns|;
      hide Distinct, Tickets;
      TicketsInsert(ns, cs, entry, ticket, k);
      DistinctInsert(ns, entry, k);
      if k > 0 { DistinctFrom(ns, k - 1); }
      entry.next := curr;
      if prev == null {
        queue := entry;
      } else {
        prev.next := entry;
      }
      nodes := ns[..k] + [entry] + ns[k..];
      Contents := cs[..k] + [ticket] + cs[k..];
      arrivals := arrivals + 1;
      forall i | 0 <= i < |nodes| ensures nodes[i].next == NodeAt(i + 1) {
        if i < k {
          assert nodes[i] == ns[i] && nodes[i + 1] == (if i + 1 < k then ns[i + 1] else entry);
        } else if i > k {
          assert nodes[i] == ns[i - 1];
        }
      }
    }

    /** Unlinks the head; None stands for the -1 of an empty queue. */
    method Dequeue() returns (r: Option<Request>)
      requires Valid()
      modifies this
      ensures Valid() && arrivals == old(arrivals)
      ensures forall n :: n in nodes ==> n in old(nodes)
      ensures r.None? <==> old(Contents) == []
      ensures r.None? ==> Contents == []
      ensures r.Some? ==>
                && Contents == old(Contents)[1..]
                && r.value.(arrival := old(Contents)[0].arrival) == old(Contents)[0]
                && (forall i :: 1 <= i < |old(Contents)| ==> Precedes(old(Contents)[0], old(Contents)[i]))
    {
      var head := queue;
      if head == null {
        return None;
      }
      r := Some(head.request);
      queue := head.next;
      nodes := nodes[1..];
      Contents := Contents[1..];
    }
  }

  /** The same requests, up to their arrival numbers. */
  ghost predicate SameRequests(a: seq<Request>, b: seq<Request>) {
    |a| == |b| && forall i :: 0 <= i < |a| ==> a[i] == b[i].(arrival := a[i].arrival)
  }

  /** A run of the list: it holds and hands out what the run of the specification does. */
  method RunList(ops: seq<Op>) returns (q: PriorityQueue, taken: seq<Request>)
    ensures fresh(q) && q.Valid() && q.Contents == Run(ops).queue && q.arrivals == |Requests(ops)|
    ensures SameRequests(taken, Run(ops).left)
  {
    hide Run, Insert, Requests, PriorityQueue.Valid;
    q := new PriorityQueue();
    taken := [];
    RunStart(ops);
    for i := 0 to |ops|
      invariant fresh(q) && (forall n :: n in q.nodes ==> fresh(n)) && q.Valid()
      invariant q.Contents == Run(ops[..i]).queue && q.arrivals == Run(ops[..i]).arrivals
      invariant SameRequests(taken, Run(ops[..i]).left)
    {
      RunTurn(ops, i);
      assert forall k :: 0 <= k < |q.nodes| ==> q.nodes[k] in q.nodes;
      match ops[i] {
        case Enqueue(request) => q.Enqueue(request);
        case Dequeue =>
          var r := q.Dequeue();
          if r.Some? { taken := taken + [r.value]; }
      }
    }
    assert ops[..|ops|] == ops;
    RunOk(ops);
  }

  lemma RunStart(ops: seq<Op>)
    ensures Run(ops[..0]) == History([], [], [], 0)
  {
  }

  lemma RunTurn(ops: seq<Op>, i: nat)
    requires i < |ops|
    ensures Run(ops[..i + 1]) == Step(Run(ops[..i]), ops[i])
  {
    assert ops[..i + 1][..i] == ops[..i];
  }
}
