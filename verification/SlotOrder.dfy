/** Quality of service across the whole pipeline: the order in which requests reach the workers. */
module SlotOrder {
  import opened Bytes
  import opened RequestQueue
  import opened SlotProtocol

  /** Within each priority, everything in a arrived before everything in b. */
  ghost predicate Ahead(a: seq<Request>, b: seq<Request>) {
    forall i, j :: 0 <= i < |a| && 0 <= j < |b| && a[i].priority == b[j].priority ==> a[i].arrival < b[j].arrival
  }

  /** Within each priority the list is in arrival order. */
  ghost predicate Fifo(a: seq<Request>) {
    forall i, j :: 0 <= i < j < |a| && a[i].priority == a[j].priority ==> a[i].arrival < a[j].arrival
  }

  ghost function Hand(s: State): seq<Request> {
    match s.hand case None => [] case Some(r) => [r]
  }

  /** The stations of the pipeline are ordered, and each is ahead of those behind it. */
  ghost predicate OrderOk(s: State) {
    && Fifo(s.received) && Ordered(s.mq) && Ordered(s.queue)
    && Ahead(s.received, s.mq) && Ahead(s.received, Hand(s)) && Ahead(s.received, s.queue)
    && Ahead(s.mq, Hand(s)) && Ahead(s.mq, s.queue) && Ahead(Hand(s), s.queue)
    && OlderThan(s.received, s.arrivals) && OlderThan(s.mq, s.arrivals) && OlderThan(Hand(s), s.arrivals)
    && OlderThan(s.queue, s.arrivals)
  }

  lemma AheadOfInsert(a: seq<Request>, q: seq<Request>, r: Request)
    requires Ahead(a, q) && Ahead(a, [r])
    ensures Ahead(a, Insert(q, r))
  {
    var n := Insert(q, r);
    InsertOnly(q, r, n);
    forall i, j | 0 <= i < |a| && 0 <= j < |n| && a[i].priority == n[j].priority ensures a[i].arrival < n[j].arrival {
      assert n[j] == r || n[j] in q;
      if n[j] == r {
        assert [r][0] == r;
      } else {
        var k :| 0 <= k < |q| && q[k] == n[j];
      }
    }
  }

  lemma InsertAhead(q: seq<Request>, r: Request, b: seq<Request>)
    requires Ahead(q, b) && Ahead([r], b)
    ensures Ahead(Insert(q, r), b)
  {
    var n := Insert(q, r);
    InsertOnly(q, r, n);
    forall i, j | 0 <= i < |n| && 0 <= j < |b| && n[i].priority == b[j].priority ensures n[i].arrival < b[j].arrival {
      assert n[i] == r || n[i] in q;
      if n[i] == r {
        assert [r][0] == r;
      } else {
        var k :| 0 <= k < |q| && q[k] == n[i];
      }
    }
  }

  lemma SubmitOrder(s: State, id: nat)
    requires OrderOk(s) && Enabled(s, Submit(id))
    ensures OrderOk(Result(s, Submit(id)))
  {
    hide Insert;
    var c := s.calls[id];
    var r := Request(id, c.idx, c.priority, s.arrivals);
    InsertOrdered(s.queue, r);
    AheadOfInsert(s.received, s.queue, r);
    AheadOfInsert(s.mq, s.queue, r);
    AheadOfInsert(Hand(s), s.queue, r);
  }

  lemma SendOrder(s: State)
    requires OrderOk(s) && Enabled(s, Send)
    ensures OrderOk(Result(s, Send))
  {
    hide Insert;
    var r := s.hand.value;
    assert Hand(s) == [r];
    assert Hand(s)[0] == r;
    InsertKeepsOrder(s.mq, r);
    AheadOfInsert(s.received, s.mq, r);
    InsertAhead(s.mq, r, s.queue);
    var s' := Result(s, Send);
    assert Hand(s') == [];
    InsertOnly(s.mq, r, s'.mq);
    forall i | 0 <= i < |s'.mq| ensures s'.mq[i].arrival < s'.arrivals {
      assert s'.mq[i] == r || s'.mq[i] in s.mq;
    }
  }

  /** Every step keeps the pipeline in order. */
  lemma StepOrder(s: State, step: Step)
    requires OrderOk(s) && Enabled(s, step)
    ensures OrderOk(Result(s, step))
  {
    match step {
      case Submit(id) => SubmitOrder(s, id);
      case Send => SendOrder(s);
      case TakeHead => TakeHeadOrder(s);
      case Receive(w) => ReceiveOrder(s, w);
      case _ => UntouchedOrder(s, step);
    }
  }

  lemma TakeHeadOrder(s: State)
    requires OrderOk(s) && Enabled(s, TakeHead)
    ensures OrderOk(Result(s, TakeHead))
  {
  }

  lemma ReceiveOrder(s: State, w: nat)
    requires OrderOk(s) && Enabled(s, Receive(w))
    ensures OrderOk(Result(s, Receive(w)))
  {
  }

  lemma UntouchedOrder(s: State, step: Step)
    requires OrderOk(s) && Enabled(s, step)
    requires !step.Submit? && !step.Send? && !step.TakeHead? && !step.Receive?
    ensures OrderOk(Result(s, step))
  {
    hide Ahead, Fifo, Ordered, OlderThan, Insert;
    var s' := Result(s, step);
    assert s'.queue == s.queue && s'.mq == s.mq && s'.hand == s.hand && s'.received == s.received;
  }

  lemma {:induction false} RunOrder(s: State, steps: seq<Step>)
    requires OrderOk(s) && RunFrom(s, steps).Some?
    ensures OrderOk(RunFrom(s, steps).value)
    decreases |steps|
  {
    hide OrderOk, Enabled, Result;
    if |steps| > 0 {
      StepOrder(s, steps[0]);
      RunOrder(Result(s, steps[0]), steps[1..]);
    }
  }

  /**
   * In every reachable state the workers have received requests of equal priority in the order in
   * which they were submitted, and the next one to be received is the best of the message queue.
   */
  lemma ReceivedInOrder(s: State)
    requires Reachable(s)
    ensures Fifo(s.received) && Ordered(s.queue) && Ordered(s.mq)
    ensures forall i :: 1 <= i < |s.mq| ==> Precedes(s.mq[0], s.mq[i])
  {
    hide RunFrom;
    var s0: State, steps: seq<Step> :| Init(s0) && RunFrom(s0, steps) == Some(s);
    RunOrder(s0, steps);
  }

  /**
   * Whatever happened before, a worker receives the oldest message of the highest priority present,
   * and nothing else leaves the message queue.
   */
  lemma ReceiveTakesBest(s: State, w: nat)
    requires Reachable(s) && Enabled(s, Receive(w))
    ensures var s' := Result(s, Receive(w));
            && |s'.received| == |s.received| + 1 && s'.received[..|s.received|] == s.received
            && var r := s'.received[|s.received|];
            && s'.workers[w] == Received(r) && multiset(s.mq) == multiset(s'.mq) + multiset{r}
            && forall i :: 0 <= i < |s'.mq| ==> Precedes(r, s'.mq[i])
  {
    hide Reachable, Precedes;
    ReceivedInOrder(s);
    assert s.mq == [s.mq[0]] + s.mq[1..];
  }

  /** The sender takes the oldest request of the highest priority that the client has queued. */
  lemma TakeHeadTakesBest(s: State)
    requires Reachable(s) && Enabled(s, TakeHead)
    ensures var s' := Result(s, TakeHead);
            && s'.hand.Some? && multiset(s.queue) == multiset(s'.queue) + multiset{s'.hand.value}
            && forall i :: 0 <= i < |s'.queue| ==> Precedes(s'.hand.value, s'.queue[i])
  {
    hide Reachable, Precedes;
    ReceivedInOrder(s);
    assert s.queue == [s.queue[0]] + s.queue[1..];
  }

  lemma {:induction false} RunBounded(s: State, steps: seq<Step>)
    requires |s.mq| <= MQ_MAX && RunFrom(s, steps).Some?
    ensures |RunFrom(s, steps).value.mq| <= MQ_MAX
    decreases |steps|
  {
    hide Enabled, Result;
    if |steps| > 0 {
      StepBounded(s, steps[0]);
      RunBounded(Result(s, steps[0]), steps[1..]);
    }
  }

  lemma StepBounded(s: State, step: Step)
    requires |s.mq| <= MQ_MAX && Enabled(s, step)
    ensures |Result(s, step).mq| <= MQ_MAX
  {
    hide Insert, IndexOf;
    if step.Send? {
      InsertMembers(s.mq, s.hand.value);
      assert |multiset(Insert(s.mq, s.hand.value))| == |s.mq| + 1;
    }
  }

  /** The message queue never holds more than its ten messages. */
  lemma MessagesBounded(s: State)
    requires Reachable(s)
    ensures |s.mq| <= 10
  {
    hide RunFrom;
    var s0: State, steps: seq<Step> :| Init(s0) && RunFrom(s0, steps) == Some(s);
    RunBounded(s0, steps);
  }
}
