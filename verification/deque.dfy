/** The double-ended queue of sources/Deque.java: a doubly-linked chain of nodes
    with `head`, `tail` and a `size` counter.

    The heap is an arena `nodes` from node identities to node records. A `new Node()`
    takes the identity `nextFree`. Nodes are never taken out of the arena: a node
    that a removal unlinks is garbage, but an iterator may still hold it, exactly as
    in the Java heap. The abstract contents are read off the chain reachable from
    `head` through `next` links.
 */
module Deques {
  import opened Wrappers
  import opened Links

  /** A chain node: `item` is never null, since addFirst and addLast reject null. */
  datatype Node<T> = Node(item: T, previous: Option<NodeId>, next: Option<NodeId>)

  /** A node's `next` link and its item, as the shared chain definitions read them. */
  function NextOf<T>(n: Node<T>): Option<NodeId> { n.next }
  function ItemOf<T>(n: Node<T>): T { n.item }

  datatype Deque<T> = Deque(
    size: int,
    head: Option<NodeId>,
    tail: Option<NodeId>,
    nodes: map<NodeId, Node<T>>,
    nextFree: NodeId)

  /** The deque iterator: the node it will return next, `null` once past the tail. */
  datatype DequeIterator = DequeIterator(current: Option<NodeId>)

  // ---------------------------------------------------------------------------
  // Representation invariant and abstraction
  // ---------------------------------------------------------------------------

  /** The chain of nodes reachable from `head`. */
  function Chain<T>(d: Deque<T>): seq<NodeId> {
    Walk(d.nodes, NextOf, d.head, d.nodes.Keys)
  }

  predicate LinkIn<T>(nodes: map<NodeId, Node<T>>, link: Option<NodeId>) {
    link.Some? ==> link.value in nodes
  }

  /** Every node was allocated before `nextFree`, and every link points into the arena. */
  predicate Closed<T>(d: Deque<T>) {
    && (forall id | id in d.nodes :: id < d.nextFree)
    && (forall id {:trigger d.nodes[id]} | id in d.nodes ::
          LinkIn(d.nodes, d.nodes[id].previous) && LinkIn(d.nodes, d.nodes[id].next))
  }

  /** `ids` is a well-formed doubly-linked chain from `head` to `tail` of `size` nodes:
      no cycles, `head.previous` and `tail.next` are null, and the links agree. */
  predicate IsChain<T>(d: Deque<T>, ids: seq<NodeId>) {
    && |ids| == d.size
    && (forall i | 0 <= i < |ids| :: ids[i] in d.nodes)
    && Distinct(ids)
    && d.head == At(ids, 0)
    && d.tail == Last(ids)
    && (forall i {:trigger d.nodes[ids[i]]} | 0 <= i < |ids| ::
          && d.nodes[ids[i]].next == At(ids, i + 1)
          && d.nodes[ids[i]].previous == Before(ids, i))
  }

  predicate Valid<T>(d: Deque<T>) {
    Closed(d) && IsChain(d, Chain(d))
  }

  /** The abstract contents, front to back. */
  function Contents<T>(d: Deque<T>): seq<T>
    requires Valid(d)
  {
    Items(d.nodes, ItemOf, Chain(d))
  }

  /** A chain that satisfies the invariant is the one the walk from `head` finds. */
  lemma ChainIs<T>(d: Deque<T>, ids: seq<NodeId>)
    requires Closed(d) && IsChain(d, ids)
    ensures Chain(d) == ids && Valid(d)
  {
    WalkFollowsLinks(d.nodes, NextOf, ids, d.nodes.Keys);
  }

  // ---------------------------------------------------------------------------
  // Construction and queries
  // ---------------------------------------------------------------------------

  /** `new Deque()`: no nodes, size 0, head and tail null. */
  function Empty<T>(): (d: Deque<T>)
    ensures Valid(d) && Contents(d) == []
  {
    var d := Deque(0, None, None, map[], 0);
    ChainIs(d, []);
    d
  }

  /** `isEmpty()` tests the size counter. */
  function IsEmpty<T>(d: Deque<T>): (b: bool)
    requires Valid(d)
    ensures b <==> Contents(d) == []
    ensures b <==> d.head.None? && d.tail.None?
  {
    d.size == 0
  }

  /** `size()` returns the counter, which is the number of chained items. */
  function Size<T>(d: Deque<T>): (n: int)
    requires Valid(d)
    ensures n == |Contents(d)|
  {
    d.size
  }

  // ---------------------------------------------------------------------------
  // Linking and unlinking at the ends
  // ---------------------------------------------------------------------------

  /** The state after a non-null `addFirst(x)`. */
  function LinkFirst<T>(d: Deque<T>, x: T): Deque<T>
    requires LinkIn(d.nodes, d.head)
  {
    var id := d.nextFree;
    if d.head.None? then
      Deque(d.size + 1, Some(id), Some(id), d.nodes[id := Node(x, None, None)], d.nextFree + 1)
    else
      var h := d.head.value;
      var nodes := d.nodes[h := d.nodes[h].(previous := Some(id))];
      Deque(d.size + 1, Some(id), d.tail, nodes[id := Node(x, None, Some(h))], d.nextFree + 1)
  }

  lemma LinkFirstChain<T>(d: Deque<T>, ids: seq<NodeId>, x: T)
    requires Closed(d) && IsChain(d, ids)
    ensures var d' := LinkFirst(d, x);
      && IsChain(d', [d.nextFree] + ids)
      && Items(d'.nodes, ItemOf, [d.nextFree] + ids) == [x] + Items(d.nodes, ItemOf, ids)
  {
    var d' := LinkFirst(d, x);
    var id := d.nextFree;
    assert id !in d.nodes;
    DistinctCons(id, ids);
    if |ids| == 0 {
      assert d'.nodes == d.nodes[id := Node(x, None, None)];
    } else {
      LinkFirstLinks(d.nodes, d'.nodes, ids, id, x);
    }
  }

  /** Linking a fresh node `id` in front of the first node keeps the chain well-linked. */
  lemma LinkFirstLinks<T>(nodes: map<NodeId, Node<T>>, nodes': map<NodeId, Node<T>>, ids: seq<NodeId>, id: NodeId, x: T)
    requires |ids| > 0 && Distinct(ids) && id !in nodes
    requires forall i | 0 <= i < |ids| :: ids[i] in nodes
    requires forall i {:trigger nodes[ids[i]]} | 0 <= i < |ids| ::
      nodes[ids[i]].next == At(ids, i + 1) && nodes[ids[i]].previous == Before(ids, i)
    requires nodes' == nodes[ids[0] := nodes[ids[0]].(previous := Some(id))][id := Node(x, None, Some(ids[0]))]
    ensures var ids' := [id] + ids;
      && (forall i | 0 <= i < |ids'| :: ids'[i] in nodes')
      && (forall i {:trigger nodes'[ids'[i]]} | 0 <= i < |ids'| ::
            && nodes'[ids'[i]].next == At(ids', i + 1)
            && nodes'[ids'[i]].previous == Before(ids', i))
      && Items(nodes', ItemOf, ids') == [x] + Items(nodes, ItemOf, ids)
  {
    var ids' := [id] + ids;
    forall i | 0 <= i < |ids'|
      ensures ids'[i] in nodes'
      ensures nodes'[ids'[i]].next == At(ids', i + 1)
      ensures nodes'[ids'[i]].previous == Before(ids', i)
      ensures nodes'[ids'[i]].item == ([x] + Items(nodes, ItemOf, ids))[i]
    {
      if i > 0 {
        var o := nodes[ids[i - 1]];
        assert ids'[i] == ids[i - 1] != id;
        assert o.next == At(ids, i) && o.previous == Before(ids, i - 1);
        if i > 1 {
          assert ids[i - 1] != ids[0];
        }
      }
    }
  }

  lemma LinkFirstClosed<T>(d: Deque<T>, x: T)
    requires Closed(d) && LinkIn(d.nodes, d.head)
    ensures Closed(LinkFirst(d, x))
  {
    var d' := LinkFirst(d, x);
    forall id | id in d'.nodes
      ensures LinkIn(d'.nodes, d'.nodes[id].previous) && LinkIn(d'.nodes, d'.nodes[id].next)
    {
      if id != d.nextFree {
        var o := d.nodes[id];
        assert LinkIn(d.nodes, o.previous) && LinkIn(d.nodes, o.next);
      }
    }
  }

  lemma LinkFirstSpec<T>(d: Deque<T>, x: T)
    requires Valid(d)
    ensures var d' := LinkFirst(d, x);
      && Valid(d')
      && Contents(d') == [x] + Contents(d)
      && d'.size == d.size + 1
  {
    var ids := Chain(d);
    LinkFirstChain(d, ids, x);
    LinkFirstClosed(d, x);
    ChainIs(LinkFirst(d, x), [d.nextFree] + ids);
  }

  /** The state after a non-null `addLast(x)`. */
  function LinkLast<T>(d: Deque<T>, x: T): Deque<T>
    requires d.head.Some? ==> d.tail.Some? && d.tail.value in d.nodes
  {
    var id := d.nextFree;
    if d.head.None? then
      Deque(d.size + 1, Some(id), Some(id), d.nodes[id := Node(x, None, None)], d.nextFree + 1)
    else
      var t := d.tail.value;
      var nodes := d.nodes[t := d.nodes[t].(next := Some(id))];
      Deque(d.size + 1, d.head, Some(id), nodes[id := Node(x, Some(t), None)], d.nextFree + 1)
  }

  lemma LinkLastChain<T>(d: Deque<T>, ids: seq<NodeId>, x: T)
    requires Closed(d) && IsChain(d, ids)
    ensures var d' := LinkLast(d, x);
      && IsChain(d', ids + [d.nextFree])
      && Items(d'.nodes, ItemOf, ids + [d.nextFree]) == Items(d.nodes, ItemOf, ids) + [x]
  {
    var d' := LinkLast(d, x);
    var id := d.nextFree;
    assert id !in d.nodes;
    DistinctSnoc(ids, id);
    if |ids| == 0 {
      assert d'.nodes == d.nodes[id := Node(x, None, None)];
    } else {
      LinkLastLinks(d.nodes, d'.nodes, ids, id, x);
    }
  }

  /** Linking a fresh node `id` after the last node keeps the chain well-linked. */
  lemma LinkLastLinks<T>(nodes: map<NodeId, Node<T>>, nodes': map<NodeId, Node<T>>, ids: seq<NodeId>, id: NodeId, x: T)
    requires |ids| > 0 && Distinct(ids) && id !in nodes
    requires forall i | 0 <= i < |ids| :: ids[i] in nodes
    requires forall i {:trigger nodes[ids[i]]} | 0 <= i < |ids| ::
      nodes[ids[i]].next == At(ids, i + 1) && nodes[ids[i]].previous == Before(ids, i)
    requires var t := ids[|ids| - 1];
      nodes' == nodes[t := nodes[t].(next := Some(id))][id := Node(x, Some(t), None)]
    ensures var ids' := ids + [id];
      && (forall i | 0 <= i < |ids'| :: ids'[i] in nodes')
      && (forall i {:trigger nodes'[ids'[i]]} | 0 <= i < |ids'| ::
            && nodes'[ids'[i]].next == At(ids', i + 1)
            && nodes'[ids'[i]].previous == Before(ids', i))
      && Items(nodes', ItemOf, ids') == Items(nodes, ItemOf, ids) + [x]
  {
    var n := |ids|;
    var ids' := ids + [id];
    forall i | 0 <= i < |ids'|
      ensures ids'[i] in nodes'
      ensures nodes'[ids'[i]].next == At(ids', i + 1)
      ensures nodes'[ids'[i]].previous == Before(ids', i)
      ensures nodes'[ids'[i]].item == (Items(nodes, ItemOf, ids) + [x])[i]
    {
      if i < n {
        var o := nodes[ids[i]];
        assert ids'[i] == ids[i] != id;
        assert o.next == At(ids, i + 1) && o.previous == Before(ids, i);
        if i < n - 1 {
          assert ids[i] != ids[n - 1];
        }
      }
    }
  }

  lemma LinkLastClosed<T>(d: Deque<T>, x: T)
    requires Closed(d) && (d.head.Some? ==> d.tail.Some? && d.tail.value in d.nodes)
    ensures Closed(LinkLast(d, x))
  {
    var d' := LinkLast(d, x);
    forall id | id in d'.nodes
      ensures LinkIn(d'.nodes, d'.nodes[id].previous) && LinkIn(d'.nodes, d'.nodes[id].next)
    {
      if id != d.nextFree {
        var o := d.nodes[id];
        assert LinkIn(d.nodes, o.previous) && LinkIn(d.nodes, o.next);
      }
    }
  }

  lemma LinkLastSpec<T>(d: Deque<T>, x: T)
    requires Valid(d)
    ensures var d' := LinkLast(d, x);
      && Valid(d')
      && Contents(d') == Contents(d) + [x]
      && d'.size == d.size + 1
  {
    var ids := Chain(d);
    LinkLastChain(d, ids, x);
    LinkLastClosed(d, x);
    ChainIs(LinkLast(d, x), ids + [d.nextFree]);
  }

  /** The state after `removeFirst()` on a non-empty deque. */
  function UnlinkFirst<T>(d: Deque<T>): Deque<T>
    requires Closed(d) && d.head.Some? && d.head.value in d.nodes
  {
    var newHead := d.nodes[d.head.value].next;
    if newHead.None? then
      Deque(d.size - 1, None, None, d.nodes, d.nextFree)
    else
      var h := newHead.value;
      Deque(d.size - 1, newHead, d.tail, d.nodes[h := d.nodes[h].(previous := None)], d.nextFree)
  }

  lemma UnlinkFirstChain<T>(d: Deque<T>, ids: seq<NodeId>)
    requires Closed(d) && IsChain(d, ids) && |ids| > 0
    ensures var d' := UnlinkFirst(d);
      && IsChain(d', ids[1..])
      && Items(d'.nodes, ItemOf, ids[1..]) == Items(d.nodes, ItemOf, ids)[1..]
  {
    var d' := UnlinkFirst(d);
    var ids' := ids[1..];
    DistinctSlice(ids, 1, |ids|);
    var first := d.nodes[ids[0]];
    assert first.next == At(ids, 1);
    if |ids| > 1 {
      assert d'.nodes == d.nodes[ids[1] := d.nodes[ids[1]].(previous := None)];
      UnlinkFirstLinks(d.nodes, d'.nodes, ids, ids');
      assert d'.head == At(ids', 0) && d'.tail == Last(ids');
    } else {
      assert ids' == [] && d'.head.None? && d'.tail.None?;
    }
  }

  /** Clearing the second node's `previous` makes the chain from it well-linked. */
  lemma UnlinkFirstLinks<T>(nodes: map<NodeId, Node<T>>, nodes': map<NodeId, Node<T>>, ids: seq<NodeId>, ids': seq<NodeId>)
    requires |ids| > 1 && Distinct(ids) && ids' == ids[1..]
    requires forall i | 0 <= i < |ids| :: ids[i] in nodes
    requires forall i {:trigger nodes[ids[i]]} | 0 <= i < |ids| ::
      nodes[ids[i]].next == At(ids, i + 1) && nodes[ids[i]].previous == Before(ids, i)
    requires nodes' == nodes[ids[1] := nodes[ids[1]].(previous := None)]
    ensures forall i | 0 <= i < |ids'| :: ids'[i] in nodes'
    ensures forall i {:trigger nodes'[ids'[i]]} | 0 <= i < |ids'| ::
      && nodes'[ids'[i]].next == At(ids', i + 1)
      && nodes'[ids'[i]].previous == Before(ids', i)
    ensures Items(nodes', ItemOf, ids') == Items(nodes, ItemOf, ids)[1..]
  {
    forall i | 0 <= i < |ids'|
      ensures nodes'[ids'[i]].next == At(ids', i + 1)
      ensures nodes'[ids'[i]].previous == Before(ids', i)
      ensures nodes'[ids'[i]].item == nodes[ids[i + 1]].item
    {
      var o := nodes[ids[i + 1]];
      assert ids'[i] == ids[i + 1];
      assert o.next == At(ids, i + 2) && o.previous == Before(ids, i + 1);
      if i > 0 {
        assert ids[i + 1] != ids[1];
      }
    }
  }

  lemma UnlinkFirstClosed<T>(d: Deque<T>)
    requires Closed(d) && d.head.Some? && d.head.value in d.nodes
    ensures Closed(UnlinkFirst(d))
  {
    var d' := UnlinkFirst(d);
    assert d'.nodes.Keys == d.nodes.Keys;
    forall id | id in d'.nodes
      ensures LinkIn(d'.nodes, d'.nodes[id].previous) && LinkIn(d'.nodes, d'.nodes[id].next)
    {
      var o := d.nodes[id];
      assert LinkIn(d.nodes, o.previous) && LinkIn(d.nodes, o.next);
    }
  }

  lemma UnlinkFirstSpec<T>(d: Deque<T>)
    requires Valid(d) && d.size > 0
    ensures var d' := UnlinkFirst(d);
      && Valid(d')
      && Contents(d') == Contents(d)[1..]
      && d'.size == d.size - 1
  {
    var ids := Chain(d);
    UnlinkFirstChain(d, ids);
    UnlinkFirstClosed(d);
    ChainIs(UnlinkFirst(d), ids[1..]);
  }

  /** The state after `removeLast()` on a non-empty deque. */
  function UnlinkLast<T>(d: Deque<T>): Deque<T>
    requires Closed(d) && d.tail.Some? && d.tail.value in d.nodes
  {
    var newTail := d.nodes[d.tail.value].previous;
    if newTail.None? then
      Deque(d.size - 1, None, None, d.nodes, d.nextFree)
    else
      var t := newTail.value;
      Deque(d.size - 1, d.head, newTail, d.nodes[t := d.nodes[t].(next := None)], d.nextFree)
  }

  lemma UnlinkLastChain<T>(d: Deque<T>, ids: seq<NodeId>)
    requires Closed(d) && IsChain(d, ids) && |ids| > 0
    ensures var d' := UnlinkLast(d);
      && IsChain(d', ids[..|ids| - 1])
      && Items(d'.nodes, ItemOf, ids[..|ids| - 1]) == Items(d.nodes, ItemOf, ids)[..|ids| - 1]
  {
    var n := |ids|;
    var d' := UnlinkLast(d);
    DistinctSlice(ids, 0, n - 1);
    var last := d.nodes[ids[n - 1]];
    assert last.previous == Before(ids, n - 1);
    if n > 1 {
      UnlinkLastLinks(d.nodes, d'.nodes, ids, ids[..n - 1]);
    }
  }

  /** Clearing the next-to-last node's `next` makes the chain up to it well-linked. */
  lemma UnlinkLastLinks<T>(nodes: map<NodeId, Node<T>>, nodes': map<NodeId, Node<T>>, ids: seq<NodeId>, ids': seq<NodeId>)
    requires |ids| > 1 && Distinct(ids) && ids' == ids[..|ids| - 1]
    requires forall i | 0 <= i < |ids| :: ids[i] in nodes
    requires forall i {:trigger nodes[ids[i]]} | 0 <= i < |ids| ::
      nodes[ids[i]].next == At(ids, i + 1) && nodes[ids[i]].previous == Before(ids, i)
    requires var t := ids[|ids| - 2]; nodes' == nodes[t := nodes[t].(next := None)]
    ensures forall i | 0 <= i < |ids'| :: ids'[i] in nodes'
    ensures forall i {:trigger nodes'[ids'[i]]} | 0 <= i < |ids'| ::
      && nodes'[ids'[i]].next == At(ids', i + 1)
      && nodes'[ids'[i]].previous == Before(ids', i)
    ensures Items(nodes', ItemOf, ids') == Items(nodes, ItemOf, ids)[..|ids| - 1]
  {
    var n := |ids|;
    forall i | 0 <= i < |ids'|
      ensures nodes'[ids'[i]].next == At(ids', i + 1)
      ensures nodes'[ids'[i]].previous == Before(ids', i)
      ensures nodes'[ids'[i]].item == nodes[ids[i]].item
    {
      var o := nodes[ids[i]];
      assert ids'[i] == ids[i];
      assert o.next == At(ids, i + 1) && o.previous == Before(ids, i);
      if i < n - 2 {
        assert ids[i] != ids[n - 2];
      }
    }
  }

  lemma UnlinkLastClosed<T>(d: Deque<T>)
    requires Closed(d) && d.tail.Some? && d.tail.value in d.nodes
    ensures Closed(UnlinkLast(d))
  {
    var d' := UnlinkLast(d);
    assert d'.nodes.Keys == d.nodes.Keys;
    forall id | id in d'.nodes
      ensures LinkIn(d'.nodes, d'.nodes[id].previous) && LinkIn(d'.nodes, d'.nodes[id].next)
    {
      var o := d.nodes[id];
      assert LinkIn(d.nodes, o.previous) && LinkIn(d.nodes, o.next);
    }
  }

  lemma UnlinkLastSpec<T>(d: Deque<T>)
    requires Valid(d) && d.size > 0
    ensures var d' := UnlinkLast(d);
      && Valid(d')
      && Contents(d') == Contents(d)[..d.size - 1]
      && d'.size == d.size - 1
  {
    var ids := Chain(d);
    UnlinkLastChain(d, ids);
    UnlinkLastClosed(d);
    ChainIs(UnlinkLast(d), ids[..|ids| - 1]);
  }

  // ---------------------------------------------------------------------------
  // The public operations
  // ---------------------------------------------------------------------------

  /** `addFirst(item)`: a null item throws and leaves the deque as it was; otherwise
      the item becomes the new front. */
  function AddFirst<T>(d: Deque<T>, item: Option<T>): (r: (Deque<T>, Result<()>))
    requires Valid(d)
    ensures Valid(r.0)
    ensures item.None? ==> r == (d, Err(IllegalArgument))
    ensures item.Some? ==> r.1 == Ok(())
    ensures item.Some? ==> Contents(r.0) == [item.value] + Contents(d) && r.0.size == d.size + 1
    ensures item.Some? && d.size == 0 ==> r.0.head.Some? && r.0.head == r.0.tail
  {
    if item.None? then
      (d, Err(IllegalArgument))
    else
      LinkFirstSpec(d, item.value);
      (LinkFirst(d, item.value), Ok(()))
  }

  /** `addLast(item)`: a null item throws and leaves the deque as it was; otherwise
      the item becomes the new back. */
  function AddLast<T>(d: Deque<T>, item: Option<T>): (r: (Deque<T>, Result<()>))
    requires Valid(d)
    ensures Valid(r.0)
    ensures item.None? ==> r == (d, Err(IllegalArgument))
    ensures item.Some? ==> r.1 == Ok(())
    ensures item.Some? ==> Contents(r.0) == Contents(d) + [item.value] && r.0.size == d.size + 1
    ensures item.Some? && d.size == 0 ==> r.0.head.Some? && r.0.head == r.0.tail
  {
    if item.None? then
      (d, Err(IllegalArgument))
    else
      LinkLastSpec(d, item.value);
      (LinkLast(d, item.value), Ok(()))
  }

  /** `removeFirst()`: throws on an empty deque; otherwise returns the front item and
      drops it. Removing the only item leaves both ends null. */
  function RemoveFirst<T>(d: Deque<T>): (r: (Deque<T>, Result<T>))
    requires Valid(d)
    ensures Valid(r.0)
    ensures Contents(d) == [] ==> r == (d, Err(NoSuchElement))
    ensures Contents(d) != [] ==>
      && r.1 == Ok(Contents(d)[0])
      && Contents(r.0) == Contents(d)[1..]
      && r.0.size == d.size - 1
    ensures |Contents(d)| == 1 ==> r.0.head.None? && r.0.tail.None?
    ensures |Contents(d)| > 1 ==>
      && r.0.head.Some? && r.0.head.value in r.0.nodes
      && r.0.nodes[r.0.head.value].previous.None?
  {
    if IsEmpty(d) then
      (d, Err(NoSuchElement))
    else
      UnlinkFirstSpec(d);
      (UnlinkFirst(d), Ok(d.nodes[d.head.value].item))
  }

  /** `removeLast()`: throws on an empty deque; otherwise returns the back item and
      drops it. Removing the only item leaves both ends null. */
  function RemoveLast<T>(d: Deque<T>): (r: (Deque<T>, Result<T>))
    requires Valid(d)
    ensures Valid(r.0)
    ensures Contents(d) == [] ==> r == (d, Err(NoSuchElement))
    ensures Contents(d) != [] ==>
      && r.1 == Ok(Contents(d)[|Contents(d)| - 1])
      && Contents(r.0) == Contents(d)[..|Contents(d)| - 1]
      && r.0.size == d.size - 1
    ensures |Contents(d)| == 1 ==> r.0.head.None? && r.0.tail.None?
    ensures |Contents(d)| > 1 ==>
      && r.0.tail.Some? && r.0.tail.value in r.0.nodes
      && r.0.nodes[r.0.tail.value].next.None?
  {
    if IsEmpty(d) then
      (d, Err(NoSuchElement))
    else
      UnlinkLastSpec(d);
      (UnlinkLast(d), Ok(d.nodes[d.tail.value].item))
  }

  // ---------------------------------------------------------------------------
  // The iterator
  // ---------------------------------------------------------------------------

  /** `hasNext()`: the cursor has not run past the tail. */
  predicate HasNext(it: DequeIterator) {
    it.current.Some?
  }

  /** The cursor refers to a node of the arena (or is past the end). */
  predicate Points<T>(d: Deque<T>, it: DequeIterator) {
    LinkIn(d.nodes, it.current)
  }

  /** `iterator()`: a cursor that starts at the current head, so it has a next item
      exactly when the deque is non-empty, and that item is the front one. */
  function Iterator<T>(d: Deque<T>): (it: DequeIterator)
    requires Valid(d)
    ensures Points(d, it)
    ensures HasNext(it) <==> Contents(d) != []
    ensures Contents(d) != [] ==> Next(d, it).1 == Ok(Contents(d)[0])
  {
    DequeIterator(d.head)
  }

  /** With the cursor at position `k` of the chain, `hasNext()` is true exactly while
      `k` is before the end, and then `next()` returns the item at `k` and moves to `k + 1`. */
  lemma HasNextAt<T>(d: Deque<T>, ids: seq<NodeId>, k: nat)
    requires Closed(d) && IsChain(d, ids) && k <= |ids|
    ensures Points(d, DequeIterator(At(ids, k)))
    ensures HasNext(DequeIterator(At(ids, k))) <==> k < |ids|
    ensures k < |ids| ==>
      Next(d, DequeIterator(At(ids, k))) == (DequeIterator(At(ids, k + 1)), Ok(Items(d.nodes, ItemOf, ids)[k]))
  {
    if k < |ids| {
      assert d.nodes[ids[k]].next == At(ids, k + 1);
    }
  }

  /** `next()`: throws when exhausted; otherwise returns the current node's item and
      moves to its successor. */
  function Next<T>(d: Deque<T>, it: DequeIterator): (r: (DequeIterator, Result<T>))
    requires Closed(d) && Points(d, it)
    ensures Points(d, r.0)
    ensures r.1.Err? <==> !HasNext(it)
    ensures !HasNext(it) ==> r == (it, Err(NoSuchElement))
  {
    if !HasNext(it) then
      (it, Err(NoSuchElement))
    else
      var node := d.nodes[it.current.value];
      (DequeIterator(node.next), Ok(node.item))
  }

  /** Up to `n` calls of `next()`, stopping at the first that throws: the items returned
      and the final cursor. */
  function Collect<T>(d: Deque<T>, it: DequeIterator, n: nat): (seq<T>, DequeIterator)
    requires Closed(d) && Points(d, it)
    decreases n
  {
    if n == 0 then
      ([], it)
    else
      var step := Next(d, it);
      if step.1.Err? then
        ([], it)
      else
        var rest := Collect(d, step.0, n - 1);
        ([step.1.value] + rest.0, rest.1)
  }

  /** From position `k` of the chain, `|ids| - k` calls of `next()` return the items
      from `k` on and leave the cursor past the end. */
  lemma {:induction false} CollectFrom<T>(d: Deque<T>, ids: seq<NodeId>, k: nat)
    requires Closed(d) && IsChain(d, ids) && k <= |ids|
    ensures Points(d, DequeIterator(At(ids, k)))
    ensures Collect(d, DequeIterator(At(ids, k)), |ids| - k)
         == (Items(d.nodes, ItemOf, ids)[k..], DequeIterator(None))
    decreases |ids| - k
  {
    if k < |ids| {
      var items := Items(d.nodes, ItemOf, ids);
      var it := DequeIterator(At(ids, k));
      HasNextAt(d, ids, k);
      assert Next(d, it) == (DequeIterator(At(ids, k + 1)), Ok(items[k]));
      CollectFrom(d, ids, k + 1);
      var rest := Collect(d, DequeIterator(At(ids, k + 1)), |ids| - (k + 1));
      assert rest == (items[k + 1..], DequeIterator(None));
      assert Collect(d, it, |ids| - k) == ([items[k]] + rest.0, rest.1);
      SliceCons(items, k);
    } else {
      assert At(ids, k) == None;
      assert Items(d.nodes, ItemOf, ids)[k..] == [];
    }
  }

  lemma SliceCons<T>(s: seq<T>, k: nat)
    requires k < |s|
    ensures s[k..] == [s[k]] + s[k + 1..]
  {
  }

  /** A fresh iterator yields exactly the contents, front to back, and then `next()` throws. */
  lemma IteratorYieldsContents<T>(d: Deque<T>)
    requires Valid(d)
    ensures Points(d, Iterator(d))
    ensures var (items, it) := Collect(d, Iterator(d), d.size);
      && items == Contents(d)
      && !HasNext(it)
      && Next(d, it).1 == Err(NoSuchElement)
  {
    var ids := Chain(d);
    CollectFrom(d, ids, 0);
    assert Items(d.nodes, ItemOf, ids)[0..] == Contents(d);
  }

  // ---------------------------------------------------------------------------
  // Sequences of operations
  // ---------------------------------------------------------------------------

  /** `s` back to front. */
  function Reverse<T>(s: seq<T>): (r: seq<T>)
    ensures |r| == |s|
    decreases |s|
  {
    if s == [] then [] else Reverse(s[1..]) + [s[0]]
  }

  lemma ReverseAppend<T>(xs: seq<T>, c: seq<T>)
    requires xs != []
    ensures Reverse(xs[1..]) + ([xs[0]] + c) == Reverse(xs) + c
  {
    var r := Reverse(xs[1..]);
    assert Reverse(xs) == r + [xs[0]];
    SeqAssoc(r, [xs[0]], c);
  }

  lemma SeqAssoc<T>(a: seq<T>, b: seq<T>, c: seq<T>)
    ensures a + (b + c) == (a + b) + c
  {
  }

  /** Reversing a concatenation reverses and swaps its parts. */
  lemma {:induction false} ReverseConcat<T>(a: seq<T>, b: seq<T>)
    ensures Reverse(a + b) == Reverse(b) + Reverse(a)
    decreases |a|
  {
    if a == [] {
      assert a + b == b;
    } else {
      assert (a + b)[1..] == a[1..] + b && (a + b)[0] == a[0];
      ReverseConcat(a[1..], b);
    }
  }

  lemma {:induction false} ReverseReverse<T>(s: seq<T>)
    ensures Reverse(Reverse(s)) == s
    decreases |s|
  {
    if s != [] {
      ReverseConcat(Reverse(s[1..]), [s[0]]);
      assert Reverse([s[0]]) == [s[0]];
      ReverseReverse(s[1..]);
      assert [s[0]] + s[1..] == s;
    }
  }

  /** `addFirst(x)` for each `x` of `xs` in turn: the items end up in reverse order. */
  function AddEachFirst<T>(d: Deque<T>, xs: seq<T>): (d': Deque<T>)
    requires Valid(d)
    ensures Valid(d')
    ensures Contents(d') == Reverse(xs) + Contents(d)
    decreases |xs|
  {
    if xs == [] then
      d
    else
      var d1 := AddFirst(d, Some(xs[0])).0;
      var d' := AddEachFirst(d1, xs[1..]);
      ReverseAppend(xs, Contents(d));
      d'
  }

  lemma AppendCons<T>(c: seq<T>, xs: seq<T>)
    requires xs != []
    ensures (c + [xs[0]]) + xs[1..] == c + xs
  {
    assert xs == [xs[0]] + xs[1..];
  }

  /** `addLast(x)` for each `x` of `xs` in turn: the items end up in order. */
  function AddEachLast<T>(d: Deque<T>, xs: seq<T>): (d': Deque<T>)
    requires Valid(d)
    ensures Valid(d')
    ensures Contents(d') == Contents(d) + xs
    decreases |xs|
  {
    if xs == [] then
      d
    else
      var d1 := AddLast(d, Some(xs[0])).0;
      var d' := AddEachLast(d1, xs[1..]);
      AppendCons(Contents(d), xs);
      d'
  }

  lemma RemoveFirstTimesStep<T>(c: seq<T>, x: T, c1: seq<T>, outs: seq<T>, left: seq<T>)
    requires c != [] && x == c[0] && c1 == c[1..] && c1 == outs + left
    ensures c == ([x] + outs) + left
  {
    assert c == [x] + c1;
  }

  /** `removeFirst()` called `n` times: the items come out front to back, so what comes
      out followed by what is left is the old contents. */
  function RemoveFirstTimes<T>(d: Deque<T>, n: nat): (r: (Deque<T>, seq<T>))
    requires Valid(d) && n <= d.size
    ensures Valid(r.0)
    ensures |r.1| == n && Contents(d) == r.1 + Contents(r.0)
    decreases n
  {
    if n == 0 then
      (d, [])
    else
      var first := RemoveFirst(d);
      var rest := RemoveFirstTimes(first.0, n - 1);
      RemoveFirstTimesStep(Contents(d), first.1.value, Contents(first.0), rest.1, Contents(rest.0));
      (rest.0, [first.1.value] + rest.1)
  }

  lemma RemoveLastTimesStep<T>(c: seq<T>, x: T, c1: seq<T>, outs: seq<T>, left: seq<T>)
    requires c != [] && x == c[|c| - 1] && c1 == c[..|c| - 1] && c1 == left + Reverse(outs)
    ensures c == left + Reverse([x] + outs)
  {
    assert c == c1 + [x];
    assert Reverse([x] + outs) == Reverse(outs) + [x];
  }

  /** `removeLast()` called `n` times: the items come out back to front, so what is left
      followed by the reverse of what comes out is the old contents. */
  function RemoveLastTimes<T>(d: Deque<T>, n: nat): (r: (Deque<T>, seq<T>))
    requires Valid(d) && n <= d.size
    ensures Valid(r.0)
    ensures |r.1| == n && Contents(d) == Contents(r.0) + Reverse(r.1)
    decreases n
  {
    if n == 0 then
      (d, [])
    else
      var last := RemoveLast(d);
      var rest := RemoveLastTimes(last.0, n - 1);
      RemoveLastTimesStep(Contents(d), last.1.value, Contents(last.0), rest.1, Contents(rest.0));
      (rest.0, [last.1.value] + rest.1)
  }

  /** The item at position `i` of the reverse is the one `i` places from the back. */
  lemma {:induction false} ReverseAt<T>(s: seq<T>, i: nat)
    requires i < |s|
    ensures Reverse(s)[i] == s[|s| - 1 - i]
    decreases |s|
  {
    if i < |s| - 1 {
      ReverseAt(s[1..], i);
    }
  }

  /** The console demo, first step: `addFirst` of 0..9 iterates as 9..0. */
  lemma DemoAddFirstIterates()
    ensures var d := AddEachFirst(Empty<int>(), [0, 1, 2, 3, 4, 5, 6, 7, 8, 9]);
      Collect(d, Iterator(d), d.size).0 == [9, 8, 7, 6, 5, 4, 3, 2, 1, 0]
  {
    var xs := [0, 1, 2, 3, 4, 5, 6, 7, 8, 9];
    var ys := [9, 8, 7, 6, 5, 4, 3, 2, 1, 0];
    ReverseMirror(xs, ys);
    IteratorYieldsContents(AddEachFirst(Empty<int>(), xs));
  }

  /** A sequence that holds the items of `xs` in mirrored positions is its reverse. */
  lemma ReverseMirror<T>(xs: seq<T>, ys: seq<T>)
    requires |ys| == |xs| && forall i | 0 <= i < |xs| :: ys[i] == xs[|xs| - 1 - i]
    ensures Reverse(xs) == ys
  {
    forall i | 0 <= i < |xs|
      ensures Reverse(xs)[i] == ys[i]
    {
      ReverseAt(xs, i);
    }
  }

  /** If `Reverse(xs)` splits as `left + Reverse(outs)` with `outs` as long as `xs`,
      then `left` is empty and `outs` is `xs`. */
  lemma ReverseCancel<T>(c: seq<T>, xs: seq<T>, left: seq<T>, outs: seq<T>)
    requires c == Reverse(xs) + [] && c == left + Reverse(outs) && |outs| == |xs|
    ensures left == [] && outs == xs
  {
    assert |left| == 0;
    assert c == Reverse(outs) && c == Reverse(xs);
    ReverseReverse(outs);
    ReverseReverse(xs);
  }

  /** The console demo, second step, for any items: after `addFirst` of each item onto an
      empty deque, removing from the back returns the items in insertion order and
      drains the deque. */
  lemma DemoRemoveLast<T>(d0: Deque<T>, xs: seq<T>)
    requires Valid(d0) && Contents(d0) == []
    ensures var r := RemoveLastTimes(AddEachFirst(d0, xs), |xs|);
      r.1 == xs && Contents(r.0) == []
  {
    var d := AddEachFirst(d0, xs);
    var r := RemoveLastTimes(d, |xs|);
    ReverseCancel(Contents(d), xs, Contents(r.0), r.1);
  }

  /** The console demo, third step, for any items: after `addLast` of each item onto an
      empty deque, iteration yields the items in insertion order. */
  lemma DemoAddLastIterates<T>(d0: Deque<T>, xs: seq<T>)
    requires Valid(d0) && Contents(d0) == []
    ensures var d := AddEachLast(d0, xs);
      Collect(d, Iterator(d), d.size).0 == xs
  {
    IteratorYieldsContents(AddEachLast(d0, xs));
  }

  /** The console demo, fourth step, for any items: removing from the front of that deque
      returns the items in insertion order and drains it. */
  lemma DemoRemoveFirst<T>(d0: Deque<T>, xs: seq<T>)
    requires Valid(d0) && Contents(d0) == []
    ensures var r := RemoveFirstTimes(AddEachLast(d0, xs), |xs|);
      r.1 == xs && Contents(r.0) == []
  {
    var d := AddEachLast(d0, xs);
    var r := RemoveFirstTimes(d, |xs|);
    assert r.1 + Contents(r.0) == xs;
    assert r.1 == xs[..|xs|];
  }
}
