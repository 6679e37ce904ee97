/** The FIFO queue of sources/Queue.java: a singly-linked chain from `first` to `last`.

    As for the deque, the heap is an arena of nodes indexed by identity, `new Node()`
    takes the identity `nextFree`, and unlinked nodes stay in the arena as garbage.
    There is no size counter; the contents are read off the chain from `first`.
 */
module Queues {
  import opened Wrappers
  import opened Links

  datatype Node<T> = Node(item: T, next: Option<NodeId>)

  /** A node's `next` link and its item, as the shared chain definitions read them. */
  function NextOf<T>(n: Node<T>): Option<NodeId> { n.next }
  function ItemOf<T>(n: Node<T>): T { n.item }

  datatype Queue<T> = Queue(
    first: Option<NodeId>,
    last: Option<NodeId>,
    nodes: map<NodeId, Node<T>>,
    nextFree: NodeId)

  // ---------------------------------------------------------------------------
  // Representation invariant and abstraction
  // ---------------------------------------------------------------------------

  /** The chain of nodes reachable from `first`. */
  function Chain<T>(q: Queue<T>): seq<NodeId> {
    Walk(q.nodes, NextOf, q.first, q.nodes.Keys)
  }

  /** Every node was allocated before `nextFree`, and every link points into the arena. */
  predicate Closed<T>(q: Queue<T>) {
    && (forall id | id in q.nodes :: id < q.nextFree)
    && (forall id {:trigger q.nodes[id]} | id in q.nodes ::
          q.nodes[id].next.Some? ==> q.nodes[id].next.value in q.nodes)
  }

  /** `ids` is an acyclic chain from `first` to `last` whose last node's `next` is null;
      `first` and `last` are both null exactly when it is empty. */
  predicate IsChain<T>(q: Queue<T>, ids: seq<NodeId>) {
    && (forall i | 0 <= i < |ids| :: ids[i] in q.nodes)
    && Distinct(ids)
    && q.first == At(ids, 0)
    && q.last == Last(ids)
    && (forall i {:trigger q.nodes[ids[i]]} | 0 <= i < |ids| :: q.nodes[ids[i]].next == At(ids, i + 1))
  }

  predicate Valid<T>(q: Queue<T>) {
    Closed(q) && IsChain(q, Chain(q))
  }

  /** The abstract contents, first (oldest) to last (newest). */
  function Contents<T>(q: Queue<T>): seq<T>
    requires Valid(q)
  {
    Items(q.nodes, ItemOf, Chain(q))
  }

  /** A chain that satisfies the invariant is the one the walk from `first` finds. */
  lemma ChainIs<T>(q: Queue<T>, ids: seq<NodeId>)
    requires Closed(q) && IsChain(q, ids)
    ensures Chain(q) == ids && Valid(q)
  {
    WalkFollowsLinks(q.nodes, NextOf, ids, q.nodes.Keys);
  }

  // ---------------------------------------------------------------------------
  // Operations
  // ---------------------------------------------------------------------------

  /** A new queue: `first` and `last` null, no nodes. */
  function Empty<T>(): (q: Queue<T>)
    ensures Valid(q) && Contents(q) == []
  {
    var q := Queue(None, None, map[], 0);
    ChainIs(q, []);
    q
  }

  /** `isEmpty()` tests `first` only. */
  function IsEmpty<T>(q: Queue<T>): (b: bool)
    requires Valid(q)
    ensures b <==> Contents(q) == []
    ensures b <==> q.first.None? && q.last.None?
  {
    q.first.None?
  }

  /** `enqueue(item)`: a fresh node becomes `last`; it is also `first` when the queue was
      empty, and is otherwise linked after the old last node. */
  function Enqueue<T>(q: Queue<T>, item: T): (q': Queue<T>)
    requires Valid(q)
    ensures Valid(q')
    ensures Contents(q') == Contents(q) + [item]
    ensures Contents(q) == [] ==> q'.first.Some? && q'.first == q'.last
  {
    var id := q.nextFree;
    var nodes := q.nodes[id := Node(item, None)];
    var q' :=
      if IsEmpty(q) then
        Queue(Some(id), Some(id), nodes, q.nextFree + 1)
      else
        var oldLast := q.last.value;
        Queue(q.first, Some(id), nodes[oldLast := nodes[oldLast].(next := Some(id))], q.nextFree + 1);
    EnqueueSpec(q, item, q');
    q'
  }

  lemma EnqueueSpec<T>(q: Queue<T>, item: T, q': Queue<T>)
    requires Valid(q)
    requires var id := q.nextFree;
      var nodes := q.nodes[id := Node(item, None)];
      q' == if q.first.None? then Queue(Some(id), Some(id), nodes, q.nextFree + 1)
            else Queue(q.first, Some(id), nodes[q.last.value := nodes[q.last.value].(next := Some(id))], q.nextFree + 1)
    ensures Valid(q') && Contents(q') == Contents(q) + [item]
  {
    var ids := Chain(q);
    var id := q.nextFree;
    assert id !in q.nodes;
    DistinctSnoc(ids, id);
    if |ids| > 0 {
      EnqueueLinks(q.nodes, q'.nodes, ids, id, item);
    }
    forall k | k in q'.nodes
      ensures q'.nodes[k].next.Some? ==> q'.nodes[k].next.value in q'.nodes
    {
      if k != id && (|ids| == 0 || k != ids[|ids| - 1]) {
        var o := q.nodes[k];
        assert o.next.Some? ==> o.next.value in q.nodes;
      }
    }
    ChainIs(q', ids + [id]);
  }

  /** Linking a fresh node `id` after the last node keeps the chain well-linked. */
  lemma EnqueueLinks<T>(nodes: map<NodeId, Node<T>>, nodes': map<NodeId, Node<T>>, ids: seq<NodeId>, id: NodeId, x: T)
    requires |ids| > 0 && Distinct(ids) && id !in nodes
    requires forall i | 0 <= i < |ids| :: ids[i] in nodes
    requires forall i {:trigger nodes[ids[i]]} | 0 <= i < |ids| :: nodes[ids[i]].next == At(ids, i + 1)
    requires var t := ids[|ids| - 1];
      nodes' == nodes[id := Node(x, None)][t := nodes[t].(next := Some(id))]
    ensures var ids' := ids + [id];
      && (forall i | 0 <= i < |ids'| :: ids'[i] in nodes')
      && (forall i {:trigger nodes'[ids'[i]]} | 0 <= i < |ids'| :: nodes'[ids'[i]].next == At(ids', i + 1))
      && Items(nodes', ItemOf, ids') == Items(nodes, ItemOf, ids) + [x]
  {
    var n := |ids|;
    var ids' := ids + [id];
    forall i | 0 <= i < |ids'|
      ensures ids'[i] in nodes'
      ensures nodes'[ids'[i]].next == At(ids', i + 1)
      ensures nodes'[ids'[i]].item == (Items(nodes, ItemOf, ids) + [x])[i]
    {
      if i < n {
        var o := nodes[ids[i]];
        assert ids'[i] == ids[i] != id;
        assert o.next == At(ids, i + 1);
      }
    }
  }

  /** `dequeue()`: there is no emptiness check — `first` is dereferenced at once — so the
      queue must be non-empty. Returns the oldest item and advances `first`; when that
      empties the queue, `last` is cleared too. */
  function Dequeue<T>(q: Queue<T>): (r: (Queue<T>, T))
    requires Valid(q) && q.first.Some?
    ensures Valid(r.0)
    ensures Contents(q) != []
    ensures r.1 == Contents(q)[0]
    ensures Contents(r.0) == Contents(q)[1..]
    ensures r.0.first.None? <==> r.0.last.None?
  {
    var node := q.nodes[q.first.value];
    var first := node.next;
    var q' := Queue(first, if first.None? then None else q.last, q.nodes, q.nextFree);
    DequeueSpec(q, q');
    (q', node.item)
  }

  lemma DequeueSpec<T>(q: Queue<T>, q': Queue<T>)
    requires Valid(q) && q.first.Some?
    requires var first := q.nodes[q.first.value].next;
      q' == Queue(first, if first.None? then None else q.last, q.nodes, q.nextFree)
    ensures Valid(q') && Contents(q') == Contents(q)[1..]
  {
    var ids := Chain(q);
    DequeueChain(q, ids, q');
    ChainIs(q', ids[1..]);
    ItemsDrop(q.nodes, ItemOf, ids, 1);
  }

  /** Advancing `first` past the head of a well-formed chain leaves the rest of it. */
  lemma DequeueChain<T>(q: Queue<T>, ids: seq<NodeId>, q': Queue<T>)
    requires Closed(q) && IsChain(q, ids) && |ids| > 0
    requires var first := q.nodes[ids[0]].next;
      q' == Queue(first, if first.None? then None else q.last, q.nodes, q.nextFree)
    ensures Closed(q') && IsChain(q', ids[1..])
  {
    var ids' := ids[1..];
    DistinctSlice(ids, 1, |ids|);
    assert q.nodes[ids[0]].next == At(ids, 1);
    forall i | 0 <= i < |ids'|
      ensures q'.nodes[ids'[i]].next == At(ids', i + 1)
    {
      assert ids'[i] == ids[i + 1];
      assert q.nodes[ids[i + 1]].next == At(ids, i + 2);
    }
    if |ids| > 1 {
      assert q'.first == At(ids', 0) && q'.last == Last(ids');
    } else {
      assert ids' == [] && q'.first.None? && q'.last.None?;
    }
  }

  // ---------------------------------------------------------------------------
  // FIFO order over any interleaving of calls
  // ---------------------------------------------------------------------------

  datatype Call<T> = EnqueueCall(item: T) | DequeueCall

  /** The items the calls enqueue, in call order. */
  function Enqueued<T>(calls: seq<Call<T>>): seq<T> {
    if calls == [] then
      []
    else match calls[0]
      case EnqueueCall(x) => [x] + Enqueued(calls[1..])
      case DequeueCall => Enqueued(calls[1..])
  }

  /** The number of `dequeue()` calls. */
  function Dequeues<T>(calls: seq<Call<T>>): nat {
    if calls == [] then 0
    else (if calls[0].DequeueCall? then 1 else 0) + Dequeues(calls[1..])
  }

  /** Starting from `n` items, no `dequeue()` in `calls` meets an empty queue. */
  predicate NeverEmptyOnDequeue<T>(n: nat, calls: seq<Call<T>>)
    decreases |calls|
  {
    if calls == [] then true
    else if calls[0].EnqueueCall? then NeverEmptyOnDequeue(n + 1, calls[1..])
    else n > 0 && NeverEmptyOnDequeue(n - 1, calls[1..])
  }

  /** Performs `calls` in order, collecting what each `dequeue()` returns; `None` when a
      `dequeue()` meets an empty queue (where the Java code dereferences null).
      FIFO: whatever comes out, followed by what is left, is what was there followed by
      what was enqueued. */
  function Run<T>(q: Queue<T>, calls: seq<Call<T>>): (r: Option<(Queue<T>, seq<T>)>)
    requires Valid(q)
    ensures r.Some? ==> Valid(r.value.0)
    ensures r.Some? <==> NeverEmptyOnDequeue(|Contents(q)|, calls)
    ensures r.Some? ==> r.value.1 + Contents(r.value.0) == Contents(q) + Enqueued(calls)
    ensures r.Some? ==> |r.value.1| == Dequeues(calls)
    decreases |calls|
  {
    if calls == [] then
      Some((q, []))
    else if calls[0].EnqueueCall? then
      var q1 := Enqueue(q, calls[0].item);
      EnqueueCounts(calls, |Contents(q)|, |Contents(q1)|);
      var rest := Run(q1, calls[1..]);
      if rest.None? then
        None
      else
        EnqueueStep(calls, Contents(q), Contents(q1), rest.value.1, Contents(rest.value.0));
        rest
    else if IsEmpty(q) then
      None
    else
      var step := Dequeue(q);
      DequeueCounts(calls, |Contents(q)|, |Contents(step.0)|);
      var rest := Run(step.0, calls[1..]);
      if rest.None? then
        None
      else
        DequeueStep(calls, Contents(q), Contents(step.0), step.1, rest.value.1, Contents(rest.value.0));
        Some((rest.value.0, [step.1] + rest.value.1))
  }

  lemma EnqueueCounts<T>(calls: seq<Call<T>>, n: nat, n1: nat)
    requires calls != [] && calls[0].EnqueueCall? && n1 == n + 1
    ensures NeverEmptyOnDequeue(n, calls) == NeverEmptyOnDequeue(n1, calls[1..])
    ensures Dequeues(calls) == Dequeues(calls[1..])
  {
  }

  lemma DequeueCounts<T>(calls: seq<Call<T>>, n: nat, n1: nat)
    requires calls != [] && calls[0].DequeueCall? && n > 0 && n1 == n - 1
    ensures NeverEmptyOnDequeue(n, calls) == NeverEmptyOnDequeue(n1, calls[1..])
    ensures Dequeues(calls) == 1 + Dequeues(calls[1..])
  {
  }

  lemma EnqueueStep<T>(calls: seq<Call<T>>, c: seq<T>, c1: seq<T>, outs: seq<T>, left: seq<T>)
    requires calls != [] && calls[0].EnqueueCall?
    requires c1 == c + [calls[0].item] && outs + left == c1 + Enqueued(calls[1..])
    ensures outs + left == c + Enqueued(calls)
  {
    assert Enqueued(calls) == [calls[0].item] + Enqueued(calls[1..]);
  }

  lemma DequeueStep<T>(calls: seq<Call<T>>, c: seq<T>, c1: seq<T>, x: T, outs: seq<T>, left: seq<T>)
    requires calls != [] && calls[0].DequeueCall?
    requires c != [] && x == c[0] && c1 == c[1..] && outs + left == c1 + Enqueued(calls[1..])
    ensures ([x] + outs) + left == c + Enqueued(calls)
  {
    assert Enqueued(calls) == Enqueued(calls[1..]);
    ConsFront(c, c1, x, outs, left, Enqueued(calls[1..]));
  }

  lemma ConsFront<T>(c: seq<T>, c1: seq<T>, x: T, outs: seq<T>, left: seq<T>, e: seq<T>)
    requires c != [] && x == c[0] && c1 == c[1..] && outs + left == c1 + e
    ensures ([x] + outs) + left == c + e
  {
    assert c == [x] + c1;
    assert ([x] + outs) + left == [x] + (outs + left);
  }

  /** The two-call example: `enqueue(1); enqueue(2); dequeue(); dequeue()` returns 1 then 2. */
  lemma FifoExample()
    ensures var r := Run(Empty<int>(), [EnqueueCall(1), EnqueueCall(2), DequeueCall, DequeueCall]);
      r.Some? && r.value.1 == [1, 2]
  {
    var calls := [EnqueueCall(1), EnqueueCall(2), DequeueCall, DequeueCall];
    var c1 := calls[1..];
    var c2 := c1[1..];
    var c3 := c2[1..];
    var c4 := c3[1..];
    assert c3 == [DequeueCall] && c4 == [];
    assert NeverEmptyOnDequeue(0, c4) && Enqueued(c4) == [] && Dequeues(c4) == 0;
    assert NeverEmptyOnDequeue(1, c3) && Enqueued(c3) == [] && Dequeues(c3) == 1;
    assert NeverEmptyOnDequeue(2, c2) && Enqueued(c2) == [] && Dequeues(c2) == 2;
    assert NeverEmptyOnDequeue(1, c1) && Enqueued(c1) == [2] && Dequeues(c1) == 2;
    assert NeverEmptyOnDequeue(0, calls) && Enqueued(calls) == [1, 2] && Dequeues(calls) == 2;
    var q := Empty<int>();
    assert Contents(q) == [];
    var r := Run(q, calls);
    assert r.Some?;
    var outs := r.value.1;
    var whole := outs + Contents(r.value.0);
    assert whole == [1, 2] && |outs| == 2;
    assert outs == whole[..2];
  }
}
