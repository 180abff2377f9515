/**
The exchange-based queue: any number of enqueuers and one dequeuer, as atomic steps under
sequential consistency. Every shared load, store, exchange and compare-and-swap of the C code is
one step, and steps of different threads interleave freely.
*/
module Queue {
  datatype Node = Sentinel | Cell(id: nat)

  /** An enqueuer between its exchange of the tail and its store of the link. */
  datatype Pending = Pending(prior: Node, node: Node)

  /** Where the dequeuer is, with its local variables. */
  datatype Pc =
    | Idle
    | CheckNext                            // queue_empty: load of q->node.next
    | CheckTail                            // queue_empty: load of q->p
    | AwaitFirst                           // queue_node_next(&q->node)
    | LoadNext(node: Node)                 // load of node->next
    | ResetHead(node: Node)                // queue_node_init(&q->node)
    | SwapTail(node: Node)                 // compare-and-swap of q->p
    | AwaitNext(node: Node)                // queue_node_next(node)
    | StoreHead(node: Node, second: Node)  // q->node.next = next, then return

  /**
  The shared memory (a node without an entry in next has a NULL link), the threads, and two
  histories: the nodes in the order of their tail exchanges, and the nodes returned.
  */
  datatype State = State(
    next: map<Node, Node>, tail: Node, pending: set<Pending>, pc: Pc,
    log: seq<Node>, returned: seq<Node>)

  /** What a step shows: an exchange, the return of queue_enqueue or of queue_dequeue, or nothing. */
  datatype Event =
    | Enqueued(node: Node)
    | Completed(node: Node, nonEmpty: bool)
    | Internal
    | Dequeued(node: Node)
    | FoundEmpty

  /** Exchanged but not yet returned: the logical contents. */
  function Live(s: State): seq<Node>
    requires |s.returned| <= |s.log|
  {
    s.log[|s.returned|..]
  }

  ghost predicate Init(s: State) {
    s == State(map[], Sentinel, {}, Idle, [], [])
  }

  // ----- steps ------------------------------------------------------------------

  /** uatomic_xchg of the tail, of a node that is not in the queue and has a NULL link. */
  ghost predicate Exchange(s: State, s': State, node: Node) {
    && node.Cell? && |s.returned| <= |s.log| && node !in Live(s)
    && s' == s.(next := s.next - {node}, tail := node,
                pending := s.pending + {Pending(s.tail, node)}, log := s.log + [node])
  }

  /** The store of the link by an enqueuer, which then returns whether the old tail was not the head. */
  ghost predicate Link(s: State, s': State, p: Pending) {
    p in s.pending && s' == s.(next := s.next[p.prior := p.node], pending := s.pending - {p})
  }

  /** What the queue_empty and queue_dequeue code does in its next step. */
  function Advance(s: State): (State, Event) {
    match s.pc
    case Idle => (s.(pc := CheckNext), Internal)
    case CheckNext =>
      (s.(pc := if Sentinel in s.next then AwaitFirst else CheckTail), Internal)
    case CheckTail =>
      if s.tail == Sentinel then (s.(pc := Idle), FoundEmpty) else (s.(pc := AwaitFirst), Internal)
    case AwaitFirst =>
      if Sentinel in s.next then (s.(pc := LoadNext(s.next[Sentinel])), Internal) else (s, Internal)
    case LoadNext(node) =>
      (s.(pc := if node in s.next then StoreHead(node, s.next[node]) else ResetHead(node)), Internal)
    case ResetHead(node) =>
      (s.(next := s.next - {Sentinel}, pc := SwapTail(node)), Internal)
    case SwapTail(node) =>
      if s.tail == node then
        (s.(tail := Sentinel, pc := Idle, returned := s.returned + [node]), Dequeued(node))
      else (s.(pc := AwaitNext(node)), Internal)
    case AwaitNext(node) =>
      if node in s.next then (s.(pc := StoreHead(node, s.next[node])), Internal) else (s, Internal)
    case StoreHead(node, second) =>
      (s.(next := s.next[Sentinel := second], pc := Idle, returned := s.returned + [node]), Dequeued(node))
  }

  ghost predicate Next(s: State, e: Event, s': State) {
    || (exists node :: e == Enqueued(node) && Exchange(s, s', node))
    || (exists p: Pending :: e == Completed(p.node, p.prior != Sentinel) && Link(s, s', p))
    || (s', e) == Advance(s)
  }

  // ----- invariant --------------------------------------------------------------

  /** The node whose link leads to the i-th exchanged node. */
  function Before(s: State, i: nat): Node
    requires |s.returned| <= i < |s.log|
  {
    if i == |s.returned| then Sentinel else s.log[i - 1]
  }

  /** The link from a to b is stored, or its enqueuer is about to store it. */
  predicate Linked(s: State, a: Node, b: Node) {
    if a in s.next then s.next[a] == b else Pending(a, b) in s.pending
  }

  predicate Histories(s: State) {
    && |s.returned| <= |s.log| && s.returned == s.log[..|s.returned|]
    && (forall i :: |s.returned| <= i < |s.log| ==> s.log[i].Cell?)
    && (forall i, j :: |s.returned| <= i < j < |s.log| ==> s.log[i] != s.log[j])
  }

  predicate Tail(s: State)
    requires Histories(s)
  {
    && s.tail == (if |s.returned| == |s.log| then Sentinel else s.log[|s.log| - 1])
    && (|s.returned| < |s.log| ==> s.log[|s.log| - 1] !in s.next)
  }

  predicate Chain(s: State)
    requires Histories(s)
  {
    forall i :: |s.returned| < i < |s.log| ==> Linked(s, s.log[i - 1], s.log[i])
  }

  /** p is the enqueuer of the i-th exchanged node. */
  predicate Enqueues(s: State, p: Pending, i: nat)
    requires |s.returned| <= i < |s.log|
  {
    p == Pending(Before(s, i), s.log[i])
  }

  predicate PendingOk(s: State)
    requires Histories(s)
  {
    forall p :: p in s.pending ==>
      p.prior !in s.next && exists i: nat :: |s.returned| <= i < |s.log| && Enqueues(s, p, i)
  }

  /** No enqueuer is about to store into the head. */
  predicate HeadQuiet(s: State) {
    forall p :: p in s.pending ==> p.prior != Sentinel
  }

  /** What the dequeuer may rely on at each point. */
  predicate Dequeuer(s: State)
    requires Histories(s)
  {
    var r, n := |s.returned|, |s.log|;
    match s.pc
    case Idle => if r < n then Linked(s, Sentinel, s.log[r]) else Sentinel !in s.next
    case CheckNext => if r < n then Linked(s, Sentinel, s.log[r]) else Sentinel !in s.next
    case CheckTail => if r < n then Linked(s, Sentinel, s.log[r]) else Sentinel !in s.next
    case AwaitFirst => r < n && Linked(s, Sentinel, s.log[r])
    case LoadNext(node) => r < n && node == s.log[r] && Sentinel in s.next
    case ResetHead(node) => r < n && node == s.log[r] && Sentinel in s.next
    case SwapTail(node) => r < n && node == s.log[r] && Sentinel !in s.next && HeadQuiet(s)
    case AwaitNext(node) => r + 1 < n && node == s.log[r] && Sentinel !in s.next && HeadQuiet(s)
    case StoreHead(node, second) =>
      && r + 1 < n && node == s.log[r] && second == s.log[r + 1]
      && node in s.next && s.next[node] == second && HeadQuiet(s)
  }

  predicate Inv(s: State) {
    Histories(s) && Tail(s) && Chain(s) && PendingOk(s) && Dequeuer(s)
  }

  // ----- every step keeps it ------------------------------------------------------

  lemma BeforeInjective(s: State, i: nat, j: nat)
    requires Histories(s) && |s.returned| <= i < |s.log| && |s.returned| <= j < |s.log|
    requires Before(s, i) == Before(s, j)
    ensures i == j
  {
  }

  lemma LiveNodes(s: State, i: nat)
    requires Histories(s) && |s.returned| <= i < |s.log|
    ensures s.log[i] in Live(s)
  {
    assert Live(s)[i - |s.returned|] == s.log[i];
  }

  lemma ExchangeHistories(s: State, s': State, node: Node)
    requires Histories(s) && Tail(s) && Exchange(s, s', node)
    ensures Histories(s') && Tail(s')
  {
    forall i | |s.returned| <= i < |s.log| ensures s.log[i] != node {
      LiveNodes(s, i);
    }
  }

  lemma ExchangeChain(s: State, s': State, node: Node)
    requires Inv(s) && Exchange(s, s', node) && Histories(s')
    ensures Chain(s')
  {
    forall i | |s'.returned| < i < |s'.log| ensures Linked(s', s'.log[i - 1], s'.log[i]) {
      LiveNodes(s, i - 1);
      if i < |s.log| {
        assert Linked(s, s.log[i - 1], s.log[i]);
      }
    }
  }

  lemma ExchangePending(s: State, s': State, node: Node)
    requires Inv(s) && Exchange(s, s', node) && Histories(s')
    ensures PendingOk(s')
  {
    hide Chain;
    NewEnqueuer(s, s', node);
    forall p | p in s'.pending
      ensures p.prior !in s'.next && exists i: nat :: |s'.returned| <= i < |s'.log| && Enqueues(s', p, i)
    {
      if p != Pending(s.tail, node) {
        ExchangeKeepsPending(s, s', node, p);
      }
    }
  }

  lemma NewEnqueuer(s: State, s': State, node: Node)
    requires Inv(s) && Exchange(s, s', node) && Histories(s')
    ensures s.tail !in s'.next && Enqueues(s', Pending(s.tail, node), |s.log|)
  {
    hide Chain, PendingOk;
  }

  lemma ExchangeKeepsPending(s: State, s': State, node: Node, p: Pending)
    requires Inv(s) && Exchange(s, s', node) && Histories(s') && p in s.pending
    ensures p.prior !in s'.next && exists i: nat :: |s'.returned| <= i < |s'.log| && Enqueues(s', p, i)
  {
    hide Chain, Dequeuer, Tail;
    var i: nat :| |s.returned| <= i < |s.log| && Enqueues(s, p, i);
    SameEnqueuer(s, s', p, i);
  }

  /** The enqueuer of a node stays its enqueuer as long as the histories before it stand. */
  lemma SameEnqueuer(s: State, s': State, p: Pending, i: nat)
    requires |s.returned| <= i < |s.log| && Enqueues(s, p, i)
    requires s'.returned == s.returned && s.log <= s'.log
    ensures i < |s'.log| && Enqueues(s', p, i)
  {
  }

  lemma ExchangeDequeuer(s: State, s': State, node: Node)
    requires Inv(s) && Exchange(s, s', node) && Histories(s')
    ensures Dequeuer(s')
  {
    if |s.returned| < |s.log| {
      LiveNodes(s, |s.returned|);
    }
  }

  lemma ExchangeKeepsInv(s: State, s': State, node: Node)
    requires Inv(s) && Exchange(s, s', node)
    ensures Inv(s')
  {
    ExchangeHistories(s, s', node);
    ExchangeChain(s, s', node);
    ExchangePending(s, s', node);
    ExchangeDequeuer(s, s', node);
  }

  lemma LinkPending(s: State, s': State, p: Pending, k: nat)
    requires Inv(s) && Link(s, s', p) && |s.returned| <= k < |s.log| && Enqueues(s, p, k)
    ensures PendingOk(s')
  {
    forall q | q in s'.pending
      ensures q.prior !in s'.next && exists i: nat :: |s'.returned| <= i < |s'.log| && Enqueues(s', q, i)
    {
      var i: nat :| |s.returned| <= i < |s.log| && Enqueues(s, q, i);
      assert Enqueues(s', q, i);
      if q.prior == p.prior {
        BeforeInjective(s, i, k);
      }
    }
  }

  lemma LinkChain(s: State, s': State, p: Pending, k: nat)
    requires Inv(s) && Link(s, s', p) && |s.returned| <= k < |s.log| && Enqueues(s, p, k)
    ensures Tail(s') && Chain(s')
  {
    forall i | |s.returned| < i < |s.log| ensures Linked(s', s.log[i - 1], s.log[i]) {
      assert Linked(s, s.log[i - 1], s.log[i]);
      if s.log[i - 1] == p.prior {
        BeforeInjective(s, i, k);
      }
    }
  }

  lemma LinkDequeuer(s: State, s': State, p: Pending, k: nat)
    requires Inv(s) && Link(s, s', p) && |s.returned| <= k < |s.log| && Enqueues(s, p, k)
    ensures Dequeuer(s')
  {
    if p.prior == Sentinel {
      BeforeInjective(s, |s.returned|, k);
    }
  }

  lemma LinkKeepsInv(s: State, s': State, p: Pending)
    requires Inv(s) && Link(s, s', p)
    ensures Inv(s')
  {
    var k: nat :| |s.returned| <= k < |s.log| && Enqueues(s, p, k);
    LinkPending(s, s', p, k);
    LinkChain(s, s', p, k);
    LinkDequeuer(s, s', p, k);
  }

  /** Steps that change only where the dequeuer is. */
  lemma MoveKeepsInv(s: State, pc: Pc)
    requires Inv(s) && Dequeuer(s.(pc := pc))
    ensures Inv(s.(pc := pc))
  {
    hide Dequeuer;
    var s' := s.(pc := pc);
    assert forall i :: |s.returned| < i < |s.log| && Linked(s, s.log[i - 1], s.log[i]) ==>
        Linked(s', s.log[i - 1], s.log[i]);
    forall p | p in s'.pending
      ensures p.prior !in s'.next && exists i: nat :: |s'.returned| <= i < |s'.log| && Enqueues(s', p, i)
    {
      var i: nat :| |s.returned| <= i < |s.log| && Enqueues(s, p, i);
      assert Enqueues(s', p, i);
    }
  }

  /** A stored link out of a live node leads to the node exchanged after it. */
  lemma StoredLink(s: State, i: nat)
    requires Inv(s) && |s.returned| <= i < |s.log| && s.log[i] in s.next
    ensures i + 1 < |s.log| && s.next[s.log[i]] == s.log[i + 1]
  {
    if i + 1 < |s.log| {
      assert Linked(s, s.log[i + 1 - 1], s.log[i + 1]);
    }
  }

  lemma ResetChain(s: State, s': State)
    requires Inv(s) && s.pc.ResetHead? && s' == Advance(s).0
    ensures Histories(s') && Tail(s') && Chain(s')
  {
    forall i | |s.returned| < i < |s.log| ensures Linked(s', s.log[i - 1], s.log[i]) {
      assert Linked(s, s.log[i - 1], s.log[i]);
    }
  }

  lemma ResetPending(s: State, s': State, p: Pending)
    requires Inv(s) && s.pc.ResetHead? && s' == Advance(s).0 && Histories(s') && p in s.pending
    ensures p.prior !in s'.next && exists i: nat :: |s'.returned| <= i < |s'.log| && Enqueues(s', p, i)
  {
    var i: nat :| |s.returned| <= i < |s.log| && Enqueues(s, p, i);
    SameEnqueuer(s, s', p, i);
  }

  /** An enqueuer about to store into the head would have found it empty. */
  lemma ResetDequeuer(s: State, s': State)
    requires Inv(s) && s.pc.ResetHead? && s' == Advance(s).0 && Histories(s')
    ensures Dequeuer(s')
  {
    assert HeadQuiet(s');
  }

  lemma ResetKeepsInv(s: State)
    requires Inv(s) && s.pc.ResetHead?
    ensures Inv(Advance(s).0)
  {
    var s' := Advance(s).0;
    ResetChain(s, s');
    forall p | p in s'.pending
      ensures p.prior !in s'.next && exists i: nat :: |s'.returned| <= i < |s'.log| && Enqueues(s', p, i)
    {
      ResetPending(s, s', p);
    }
    ResetDequeuer(s, s');
  }

  /** The compare-and-swap succeeds only on the last node, with no enqueuer in between. */
  lemma SwapKeepsInv(s: State)
    requires Inv(s) && s.pc.SwapTail? && s.tail == s.pc.node
    ensures Inv(Advance(s).0)
  {
    assert |s.returned| + 1 == |s.log|;
  }

  lemma StorePending(s: State, p: Pending, s': State)
    requires Inv(s) && s.pc.StoreHead? && p in s.pending && s' == Advance(s).0 && Histories(s')
    ensures p.prior !in s'.next && exists i: nat :: |s'.returned| <= i < |s'.log| && Enqueues(s', p, i)
  {
    hide Chain, Tail;
    var i: nat :| |s.returned| <= i < |s.log| && Enqueues(s, p, i);
    LaterEnqueuer(s, p, i);
    assert Enqueues(s', p, i);
  }

  /** While the head is being stored, the first two live nodes have no enqueuer left. */
  lemma LaterEnqueuer(s: State, p: Pending, i: nat)
    requires Inv(s) && s.pc.StoreHead? && p in s.pending
    requires |s.returned| <= i < |s.log| && Enqueues(s, p, i)
    ensures i > |s.returned| + 1
  {
    hide Chain, Tail;
  }

  lemma StoreKeepsInv(s: State)
    requires Inv(s) && s.pc.StoreHead?
    ensures Inv(Advance(s).0)
  {
    var s' := Advance(s).0;
    assert s.log[..|s'.returned|] == s.log[..|s.returned|] + [s.log[|s.returned|]];
    assert Histories(s');
    forall i | |s'.returned| < i < |s.log| ensures Linked(s', s.log[i - 1], s.log[i]) {
      assert Linked(s, s.log[i - 1], s.log[i]);
    }
    forall p | p in s'.pending
      ensures p.prior !in s'.next && exists i: nat :: |s'.returned| <= i < |s'.log| && Enqueues(s', p, i)
    {
      StorePending(s, p, s');
    }
  }

  /** The steps up to the first load of a link. */
  lemma LookKeepsInv(s: State)
    requires Inv(s) && (s.pc.Idle? || s.pc.CheckNext? || s.pc.CheckTail? || s.pc.AwaitFirst?)
    ensures Inv(Advance(s).0)
  {
    MoveKeepsInv(s, Advance(s).0.pc);
  }

  lemma LoadKeepsInv(s: State, node: Node)
    requires Inv(s) && (s.pc == LoadNext(node) || s.pc == AwaitNext(node))
    ensures Inv(Advance(s).0)
  {
    if node in s.next {
      StoredLink(s, |s.returned|);
      MoveKeepsInv(s, StoreHead(node, s.next[node]));
    } else if s.pc.LoadNext? {
      MoveKeepsInv(s, ResetHead(node));
    }
  }

  lemma AdvanceKeepsInv(s: State)
    requires Inv(s)
    ensures Inv(Advance(s).0)
  {
    match s.pc
    case LoadNext(node) => LoadKeepsInv(s, node);
    case ResetHead(_) => ResetKeepsInv(s);
    case SwapTail(node) => SwapStepKeepsInv(s, node);
    case AwaitNext(node) => LoadKeepsInv(s, node);
    case StoreHead(_, _) => StoreKeepsInv(s);
    case _ => LookKeepsInv(s);
  }

  lemma SwapStepKeepsInv(s: State, node: Node)
    requires Inv(s) && s.pc == SwapTail(node)
    ensures Inv(Advance(s).0)
  {
    if s.tail == node {
      SwapKeepsInv(s);
    } else {
      MoveKeepsInv(s, AwaitNext(node));
    }
  }

  lemma NextKeepsInv(s: State, e: Event, s': State)
    requires Inv(s) && Next(s, e, s')
    ensures Inv(s')
  {
    if (s', e) == Advance(s) {
      AdvanceKeepsInv(s);
    } else if e.Completed? {
      var p :| Link(s, s', p);
      LinkKeepsInv(s, s', p);
    } else {
      ExchangeKeepsInv(s, s', e.node);
    }
  }

  // ----- runs -------------------------------------------------------------------

  /** A run: states and the events between them, in any interleaving. */
  ghost predicate Run(states: seq<State>, events: seq<Event>) {
    && |states| == |events| + 1 && Init(states[0])
    && forall i :: 0 <= i < |events| ==> Next(states[i], events[i], states[i + 1])
  }

  lemma {:induction false} RunInv(states: seq<State>, events: seq<Event>, k: nat)
    requires Run(states, events) && k < |states|
    ensures Inv(states[k])
  {
    if k != 0 {
      RunInv(states, events, k - 1);
      NextKeepsInv(states[k - 1], events[k - 1], states[k - 1 + 1]);
    }
  }

  /** One step, seen from outside, is a step of a first-in first-out queue. */
  lemma StepIsFifo(s: State, e: Event, s': State)
    requires Inv(s) && Next(s, e, s')
    ensures Inv(s')
    ensures match e
            case Enqueued(node) => Live(s') == Live(s) + [node]
            case Completed(_, _) => Live(s') == Live(s)
            case Internal => Live(s') == Live(s)
            case Dequeued(node) => Live(s) == [node] + Live(s')
            case FoundEmpty => Live(s) == [] == Live(s')
  {
    NextKeepsInv(s, e, s');
    if (s', e) == Advance(s) {
      AdvanceIsFifo(s);
    } else if e.Enqueued? {
      LiveAppend(s, s', e.node);
    }
  }

  lemma LiveAppend(s: State, s': State, node: Node)
    requires |s.returned| <= |s.log| && s'.log == s.log + [node] && s'.returned == s.returned
    ensures Live(s') == Live(s) + [node]
  {
  }

  lemma LiveRemove(s: State, s': State, node: Node)
    requires |s.returned| < |s.log| && s'.log == s.log && s'.returned == s.returned + [node]
    requires s.log[|s.returned|] == node
    ensures Live(s) == [node] + Live(s')
  {
  }

  /** A returned node was the oldest one; an empty answer is given only when nothing is live. */
  lemma AdvanceIsFifo(s: State)
    requires Inv(s)
    ensures var (s', e) := Advance(s);
            && |s'.returned| <= |s'.log| && !e.Enqueued?
            && (e.Internal? ==> Live(s') == Live(s))
            && (e.Dequeued? ==> Live(s) == [e.node] + Live(s'))
            && (e.FoundEmpty? ==> Live(s) == [] == Live(s'))
  {
    var (s', e) := Advance(s);
    if e.Dequeued? {
      LiveRemove(s, s', e.node);
    }
  }

  /** The nodes enqueued in a stretch of events, in the order of their exchanges. */
  function Enqs(events: seq<Event>): seq<Node> {
    if events == [] then []
    else var e := events[|events| - 1];
      Enqs(events[..|events| - 1]) + (if e.Enqueued? then [e.node] else [])
  }

  /** The nodes that queue_dequeue returned, in order. */
  function Deqs(events: seq<Event>): seq<Node> {
    if events == [] then []
    else var e := events[|events| - 1];
      Deqs(events[..|events| - 1]) + (if e.Dequeued? then [e.node] else [])
  }

  lemma StepHistories(s: State, e: Event, s': State)
    requires Inv(s) && Next(s, e, s')
    ensures s'.log == s.log + (if e.Enqueued? then [e.node] else [])
    ensures s'.returned == s.returned + (if e.Dequeued? then [e.node] else [])
  {
    hide Inv;
  }

  lemma {:induction false} RunHistories(states: seq<State>, events: seq<Event>, k: nat)
    requires Run(states, events) && k < |states|
    ensures states[k].log == Enqs(events[..k]) && states[k].returned == Deqs(events[..k])
  {
    if k != 0 {
      RunHistories(states, events, k - 1);
      RunInv(states, events, k - 1);
      StepHistories(states[k - 1], events[k - 1], states[k - 1 + 1]);
      assert events[..k][..k - 1] == events[..k - 1];
    }
  }

  /**
  In every interleaving the nodes returned so far are a prefix of the nodes in the order of
  their exchanges: first in first out, nothing lost, nothing twice.
  */
  lemma Fifo(states: seq<State>, events: seq<Event>, k: nat)
    requires Run(states, events) && k < |states|
    ensures Deqs(events[..k]) <= Enqs(events[..k])
  {
    RunInv(states, events, k);
    RunHistories(states, events, k);
  }

  /** NULL is returned only at an instant at which everything exchanged has been returned. */
  lemma NullMeansEmpty(states: seq<State>, events: seq<Event>, k: nat)
    requires Run(states, events) && k < |events| && events[k] == FoundEmpty
    ensures Deqs(events[..k]) == Enqs(events[..k])
  {
    RunInv(states, events, k);
    RunHistories(states, events, k);
    StepIsFifo(states[k], events[k], states[k + 1]);
  }

  /** An enqueuer only ever writes into the head or into a node that has not been returned. */
  lemma EnqueuerWritesLive(s: State, p: Pending)
    requires Inv(s) && p in s.pending
    ensures p.prior == Sentinel || p.prior in Live(s)
    ensures p.node in Live(s) && p.prior !in s.next
  {
    var i: nat :| |s.returned| <= i < |s.log| && Enqueues(s, p, i);
    LiveNodes(s, i);
    if i > |s.returned| {
      LiveNodes(s, i - 1);
    }
  }

  /** The live nodes are distinct, so the first one does not occur again. */
  lemma NotAgain(s: State, node: Node, rest: seq<Node>)
    requires Inv(s) && Live(s) == [node] + rest
    ensures node !in rest && node.Cell?
  {
    var r := |s.returned|;
    assert node == Live(s)[0] == s.log[r];
    forall i | 0 <= i < |rest| ensures rest[i] != node {
      assert rest[i] == Live(s)[i + 1] == s.log[r + i + 1];
    }
  }

  lemma TailIsLive(s: State)
    requires Inv(s)
    ensures s.tail == Sentinel || s.tail in Live(s)
  {
    if |s.returned| < |s.log| {
      LiveNodes(s, |s.log| - 1);
    }
  }

  /** The two spin loops wait only for an enqueuer between its exchange and its store. */
  lemma SpinHasCause(s: State)
    requires Inv(s) && Advance(s).0 == s
    ensures s.pc.AwaitFirst? || s.pc.AwaitNext?
    ensures exists p :: p in s.pending && p.prior == (if s.pc.AwaitFirst? then Sentinel else s.pc.node)
  {
    var r := |s.returned|;
    if s.pc.AwaitFirst? {
      assert Pending(Sentinel, s.log[r]) in s.pending;
    } else {
      assert Linked(s, s.log[r + 1 - 1], s.log[r + 1]);
      assert Pending(s.log[r], s.log[r + 1]) in s.pending;
    }
  }

  // ----- after the return -------------------------------------------------------------

  /** The dequeuer has the node in a local variable. */
  predicate Holds(pc: Pc, node: Node) {
    match pc
    case LoadNext(n) => n == node
    case ResetHead(n) => n == node
    case SwapTail(n) => n == node
    case AwaitNext(n) => n == node
    case StoreHead(n, second) => n == node || second == node
    case _ => false
  }

  /** No thread will ever touch the node: it is not in the queue and nobody has its address. */
  ghost predicate Free(s: State, node: Node)
    requires |s.returned| <= |s.log|
  {
    && node !in Live(s) && s.tail != node && !Holds(s.pc, node)
    && forall p :: p in s.pending ==> p.prior != node && p.node != node
  }

  lemma HeldIsLive(s: State, node: Node)
    requires Inv(s) && Holds(s.pc, node)
    ensures node in Live(s)
  {
    LiveNodes(s, |s.returned|);
    if s.pc.StoreHead? && node == s.pc.second {
      LiveNodes(s, |s.returned| + 1);
    }
  }

  /** Outside the live nodes there is nothing that a thread could write or read. */
  lemma NotLiveIsFree(s: State, node: Node)
    requires Inv(s) && node.Cell? && node !in Live(s)
    ensures Free(s, node)
  {
    TailIsLive(s);
    if Holds(s.pc, node) {
      HeldIsLive(s, node);
    }
    forall p | p in s.pending ensures p.prior != node && p.node != node {
      EnqueuerWritesLive(s, p);
    }
  }

  lemma {:induction false} ReturnedIsNotLive(states: seq<State>, events: seq<Event>, node: Node, k: nat, l: nat)
    requires Run(states, events) && k < l < |states| && events[k] == Dequeued(node)
    requires forall i :: k < i < l ==> events[i] != Enqueued(node)
    ensures Inv(states[l]) && |states[l].returned| <= |states[l].log| && node.Cell? && node !in Live(states[l])
    decreases l
  {
    hide Inv, Next, Init;
    RunInv(states, events, l);
    InvSizes(states[l]);
    var s, e, s' := states[l - 1], events[l - 1], states[l - 1 + 1];
    if l == k + 1 {
      RunInv(states, events, k);
      JustReturned(s, node, s');
    } else {
      ReturnedIsNotLive(states, events, node, k, l - 1);
      StillNotLive(s, e, s', node);
    }
  }

  lemma JustReturned(s: State, node: Node, s': State)
    requires Inv(s) && Next(s, Dequeued(node), s')
    ensures |s'.returned| <= |s'.log| && node.Cell? && node !in Live(s')
  {
    StepIsFifo(s, Dequeued(node), s');
    NotAgain(s, node, Live(s'));
  }

  lemma StillNotLive(s: State, e: Event, s': State, node: Node)
    requires Inv(s) && |s.returned| <= |s.log| && Next(s, e, s') && e != Enqueued(node) && node !in Live(s)
    ensures |s'.returned| <= |s'.log| && node !in Live(s')
  {
    hide Inv, Next;
    StepIsFifo(s, e, s');
    InvSizes(s');
    assert e.Dequeued? ==> Live(s)[1..] == Live(s');
  }

  lemma InvSizes(s: State)
    requires Inv(s)
    ensures |s.returned| <= |s.log|
  {
  }

  /**
  From its return on, in every interleaving and until it is enqueued again, no enqueuer writes a
  node and nobody has its address: freeing it is safe.
  */
  lemma ReturnedStaysFree(states: seq<State>, events: seq<Event>, node: Node, k: nat, l: nat)
    requires Run(states, events) && k < l < |states| && events[k] == Dequeued(node)
    requires forall i :: k < i < l ==> events[i] != Enqueued(node)
    ensures |states[l].returned| <= |states[l].log| && Free(states[l], node)
  {
    ReturnedIsNotLive(states, events, node, k, l);
    NotLiveIsFree(states[l], node);
  }

  // ----- what queue_enqueue answers -----------------------------------------------------

  /** Every enqueuer that is still to store its link has exchanged the tail it found. */
  lemma {:induction false} PendingOrigin(states: seq<State>, events: seq<Event>, l: nat, p: Pending) returns (k: nat)
    requires Run(states, events) && l < |states| && p in states[l].pending
    ensures k < l && events[k] == Enqueued(p.node) && p.prior == states[k].tail
    decreases l
  {
    var s, e, s' := states[l - 1], events[l - 1], states[l - 1 + 1];
    if p in s.pending {
      k := PendingOrigin(states, events, l - 1, p);
    } else {
      k := l - 1;
      NewPending(s, e, s', p);
    }
  }

  lemma NewPending(s: State, e: Event, s': State, p: Pending)
    requires Next(s, e, s') && p in s'.pending && p !in s.pending
    ensures e == Enqueued(p.node) && p.prior == s.tail
  {
  }

  /** The answer of queue_enqueue is whether the queue was non-empty at the instant of its exchange. */
  lemma EnqueueResult(states: seq<State>, events: seq<Event>, l: nat) returns (k: nat)
    requires Run(states, events) && l < |events| && events[l].Completed?
    ensures k < l && events[k] == Enqueued(events[l].node)
    ensures events[l].nonEmpty <==> Deqs(events[..k]) != Enqs(events[..k])
  {
    var p := CompletedBy(states[l], events[l], states[l + 1]);
    k := PendingOrigin(states, events, l, p);
    RunInv(states, events, k);
    RunHistories(states, events, k);
    TailTells(states[k]);
  }

  lemma CompletedBy(s: State, e: Event, s': State) returns (p: Pending)
    requires Next(s, e, s') && e.Completed?
    ensures p in s.pending && p.node == e.node && e.nonEmpty == (p.prior != Sentinel)
  {
    p :| e == Completed(p.node, p.prior != Sentinel) && Link(s, s', p);
  }

  lemma TailTells(s: State)
    requires Inv(s)
    ensures s.tail != Sentinel <==> s.returned != s.log
  {
  }

  // ----- a dequeue that is left alone ----------------------------------------------

  function Rank(pc: Pc): nat {
    match pc
    case Idle => 0
    case StoreHead(_, _) => 1
    case AwaitNext(_) => 2
    case SwapTail(_) => 3
    case ResetHead(_) => 4
    case LoadNext(_) => 5
    case AwaitFirst => 6
    case CheckTail => 7
    case CheckNext => 8
  }

  /** With no enqueuer in between, every step of the dequeuer makes progress. */
  lemma AloneProgresses(s: State)
    requires Inv(s) && s.pending == {} && !s.pc.Idle?
    ensures Rank(Advance(s).0.pc) < Rank(s.pc)
    ensures Inv(Advance(s).0) && Advance(s).0.pending == {}
  {
    AdvanceKeepsInv(s);
    hide Inv;
    if Advance(s).0 == s {
      SpinHasCause(s);
    }
  }

  /** The state after a call that has started runs to its return undisturbed. */
  function Finish(s: State): State
    requires Inv(s) && s.pending == {}
    decreases Rank(s.pc)
  {
    if s.pc.Idle? then s else AloneProgresses(s); Finish(Advance(s).0)
  }

  /** Left alone, a call returns the oldest node, or NULL exactly if there is none. */
  lemma {:induction false} AloneDequeues(s: State)
    requires Inv(s) && s.pending == {} && !s.pc.Idle?
    ensures Finish(s).returned == s.returned + (if Live(s) == [] then [] else [Live(s)[0]])
    decreases Rank(s.pc)
  {
    hide Inv, Next, Advance;
    AloneProgresses(s);
    var (s', e) := Advance(s);
    AloneStep(s, s', e);
    if !s'.pc.Idle? {
      AloneDequeues(s');
    }
  }

  /** What a step of the dequeuer contributes to its answer. */
  lemma AloneStep(s: State, s': State, e: Event)
    requires Inv(s) && (s', e) == Advance(s) && !s.pc.Idle?
    ensures |s.returned| <= |s.log| && |s'.returned| <= |s'.log|
    ensures s'.returned == s.returned + (if e.Dequeued? then [e.node] else [])
    ensures s'.pc.Idle? <==> e.Dequeued? || e.FoundEmpty?
    ensures e.Dequeued? ==> Live(s) == [e.node] + Live(s')
    ensures e.FoundEmpty? ==> Live(s) == []
    ensures !s'.pc.Idle? ==> Live(s') == Live(s)
  {
    AdvanceIsFifo(s);
  }
}
