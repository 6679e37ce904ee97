# Deque, Queue and RandomizedQueue in Dafny

A model of three generic Java containers, with proofs about them:

- `Deque<Item>` (`sources/Deque.java`) is a double-ended queue. It is a doubly-linked list with `head`, `tail` and a `size` counter. Null items are rejected with `IllegalArgumentException`, and removing from an empty deque throws `NoSuchElementException`. It also has a front-to-back iterator.
- `Queue<Item>` (`sources/Queue.java`) is a singly-linked FIFO queue with `first` and `last`. It has no emptiness check in `dequeue()`.
- `RandomizedQueue<Item>` (`sources/RandomizedQueue.java`) is a resizing array.
  - `enqueue` writes into slot `size` and doubles the array when it fills.
  - `dequeue` and `sample` pick a random slot. `dequeue` fills the hole with the last item and halves the array when at most a quarter of it is used.
  - The iterator drains an independent copy of the queue.

Files:

- `wrappers.dfy`, module `Wrappers`: `Option` stands for a nullable reference and `Result` for a value-or-exception. `Error` has the cases `IllegalArgument` and `NoSuchElement`.
- `links.dfy`, module `Links`: what the two linked containers share.
  - Node identities, and the positional view of a chain (`At`, `Before`, `Last`, `Distinct`).
  - `Walk` follows a node's `next` link, and `Items` reads the items of a list of nodes. Each container passes in how to read `next` and `item` from its own node type.
  - Each node is visited at most once, so the walk terminates even on a corrupt heap.
- `deque.dfy`, module `Deques`. The heap is an arena `map<NodeId, Node>` with an allocation counter `nextFree`.
  - `Chain` is the walk of `next` links from `head`.
  - `Valid` says the walk is a well-formed doubly-linked chain of `size` distinct nodes.
  - `Contents` is the sequence of its items.
  - Every operation is a pure function from the old state to the new state and the outcome.
- `queue.dfy`, module `Queues`: the same approach for the singly-linked queue.
- `randomized_queue.dfy`, module `RandomizedQueues`.
  - The object is the value `RandomizedQueue(capacity, size, elements)`, where a `None` slot holds `null`.
  - `Valid` says exactly the first `size` slots are occupied, `size < capacity == |elements|`, and `capacity` is a power of two.
  - `Live` is the sequence of occupied slots.
  - The operations with loops, and those that call them, are methods.
  - The index `StdRandom.uniformInt(size)` would draw is a parameter `r` with `0 <= r < size`.

## Model

| member | source | states |
|---|---|---|
| Deques.Empty | sources/Deque.java:5-17 | a new deque is well-formed and holds nothing |
| Deques.IsEmpty | sources/Deque.java:21-23 | the size test is true exactly when the deque holds no items, and exactly when head and tail are both null |
| Deques.Size | sources/Deque.java:27-29 | the counter equals the number of items reachable from head |
| Deques.LinkFirstSpec | sources/Deque.java:37-47 | linking a fresh node before head keeps a well-formed chain, puts the item in front of the old contents and adds one to the size |
| Deques.LinkLastSpec | sources/Deque.java:56-66 | linking a fresh node after tail keeps a well-formed chain, puts the item after the old contents and adds one to the size |
| Deques.UnlinkFirstSpec | sources/Deque.java:75-81 | advancing head, then nulling tail or the new head's previous link, keeps a well-formed chain holding all but the first item, one shorter |
| Deques.UnlinkLastSpec | sources/Deque.java:91-97 | moving tail back, then nulling head or the new tail's next link, keeps a well-formed chain holding all but the last item, one shorter |
| Deques.AddFirst | sources/Deque.java:33-48 | a null item throws IllegalArgument and leaves the deque unchanged; otherwise the item is prepended, the size grows by one, and on an empty deque the new node is both head and tail |
| Deques.AddLast | sources/Deque.java:52-67 | a null item throws IllegalArgument and leaves the deque unchanged; otherwise the item is appended, the size grows by one, and on an empty deque the new node is both head and tail |
| Deques.RemoveFirst | sources/Deque.java:71-83 | an empty deque throws NoSuchElement and is unchanged; otherwise the first item is returned and the rest remain in order; removing the only item nulls both ends, and otherwise the new head has no previous link |
| Deques.RemoveLast | sources/Deque.java:87-99 | an empty deque throws NoSuchElement and is unchanged; otherwise the last item is returned and the rest remain in order; removing the only item nulls both ends, and otherwise the new tail has no next link |
| Deques.Iterator | sources/Deque.java:103-108 | a new iterator points into the heap, hasNext() is true exactly when the deque is non-empty, and the first next() then returns the front item |
| Deques.HasNextAt | sources/Deque.java:111-113 | with the cursor at position k of the chain, hasNext() is true exactly while k is before the end, and next() then returns the item at k and moves to k + 1 |
| Deques.Next | sources/Deque.java:111-123 | next() throws NoSuchElement exactly when hasNext() is false, and leaves the cursor on a node of the heap or past the end |
| Deques.CollectFrom | sources/Deque.java:107-123 | from any position of the chain, calling next() once per remaining node returns the remaining items in order and leaves the cursor past the end |
| Deques.IteratorYieldsContents | sources/Deque.java:103-123 | a fresh iterator returns exactly the contents front to back; after that hasNext() is false and next() throws NoSuchElement |
| Deques.AddEachFirst | sources/Deque.java:137-141 | addFirst of each item in turn leaves the items in reverse order in front of the old contents |
| Deques.AddEachLast | sources/Deque.java:160-164 | addLast of each item in turn leaves the items in order after the old contents |
| Deques.RemoveFirstTimes | sources/Deque.java:175-179 | n calls of removeFirst() return n items, and these followed by what is left are the old contents: the first n items come out front to back |
| Deques.RemoveLastTimes | sources/Deque.java:152-156 | n calls of removeLast() return n items, and what is left followed by these in reverse is the old contents: the last n items come out back to front |
| Deques.DemoAddFirstIterates | sources/Deque.java:137-150 | after addFirst of 0 to 9, iteration yields 9 down to 0 |
| Deques.DemoRemoveLast | sources/Deque.java:152-158 | after addFirst of any items onto an empty deque, removeLast() as many times returns them in insertion order and empties the deque |
| Deques.DemoAddLastIterates | sources/Deque.java:160-173 | after addLast of any items onto an empty deque, iteration yields them in insertion order |
| Deques.DemoRemoveFirst | sources/Deque.java:175-181 | after addLast of any items onto an empty deque, removeFirst() as many times returns them in insertion order and empties the deque |
| Queues.Empty | sources/Queue.java:1-2 | a new queue, with both ends null, is well-formed and holds nothing |
| Queues.IsEmpty | sources/Queue.java:9-11 | first is null exactly when the queue holds no items, and then last is null too |
| Queues.EnqueueSpec | sources/Queue.java:14-21 | the new node becomes last, and either also first (on an empty queue) or the old last node's successor; the chain stays well-formed and gains the item at its end |
| Queues.Enqueue | sources/Queue.java:13-22 | enqueue appends the item to the contents; on an empty queue the new node is both first and last |
| Queues.DequeueSpec | sources/Queue.java:25-27 | advancing first, and nulling last when first becomes null, keeps a well-formed chain holding all but the first item |
| Queues.Dequeue | sources/Queue.java:24-29 | on a non-empty queue, dequeue returns the oldest item, the rest stay in order, and first and last become null together |
| Queues.Run | sources/Queue.java:13-29 | for any sequence of enqueue/dequeue calls, no dequeue meets an empty queue exactly when the counting condition holds; then the returned items followed by what is left equal the old contents followed by the enqueued items (FIFO), with one output per dequeue |
| Queues.FifoExample | sources/Queue.java:13-29 | enqueue 1, enqueue 2, dequeue, dequeue returns 1 then 2 |
| RandomizedQueues.Empty | sources/RandomizedQueue.java:11-15 | a new queue has capacity 1, holds nothing and satisfies the invariant |
| RandomizedQueues.IsEmpty | sources/RandomizedQueue.java:18-20 | the size test is true exactly when no slot holds an item |
| RandomizedQueues.Size | sources/RandomizedQueue.java:23-25 | size() is the number of items held |
| RandomizedQueues.Resize | sources/RandomizedQueue.java:36-46 | on an empty queue nothing changes; otherwise the capacity becomes the requested one and the occupied prefix, hence the items held, is carried over unchanged |
| RandomizedQueues.Enqueue | sources/RandomizedQueue.java:28-34 | the item is added after the existing ones, the invariant (a free slot, a power-of-two capacity) is kept, and the capacity doubles exactly when the item filled the last slot |
| RandomizedQueues.SwapRemove | sources/RandomizedQueue.java:56-58 | moving the last item into slot i removes exactly the item at i: one fewer item, the same multiset less that item, and every other slot unchanged |
| RandomizedQueues.Sample | sources/RandomizedQueue.java:67-73 | sample() throws NoSuchElement exactly when the queue is empty; otherwise it returns the item in the chosen slot, which is one of the items held |
| RandomizedQueues.Dequeue | sources/RandomizedQueue.java:49-64 | an empty queue throws NoSuchElement and is unchanged; otherwise it returns what sample() would return for the same index, the items left are the old ones less the returned item, the capacity halves exactly when the new size is positive and at most a quarter of the capacity, and it never drops below 2 |
| RandomizedQueues.EnqueueAll | sources/RandomizedQueue.java:28-34 | enqueue of each item appends them in order; starting from a new queue the capacity is the least power of two above the size |
| RandomizedQueues.Drain | sources/RandomizedQueue.java:49-64 | dequeue once per item returns every item exactly once (as a multiset) and leaves an empty queue whose capacity is still at least 2 |
| RandomizedQueues.NewIterator | sources/RandomizedQueue.java:83-89 | the iterator's copy satisfies the invariant and holds the same items as the queue, in slot order |
| RandomizedQueues.HasNext | sources/RandomizedQueue.java:92-94 | hasNext() as written is true exactly when the outer queue holds items, whatever the copy holds |
| RandomizedQueues.HasNextIntended | sources/RandomizedQueue.java:92-94 | the corrected hasNext(), the copy's own size test, is true exactly while the copy holds items |
| RandomizedQueues.Next | sources/RandomizedQueue.java:96-100 | next() succeeds exactly when the outer queue is non-empty and the copy still holds items; it then removes the returned item from the copy, and otherwise throws NoSuchElement |
| RandomizedQueues.IterateAsWritten | sources/RandomizedQueue.java:80-100 | one next() per item returns every item once; afterwards the copy is empty but hasNext() is still true on a non-empty queue, and one more next() throws |
| RandomizedQueues.ForEachIntended | sources/RandomizedQueue.java:91-100 | a loop guarded by a hasNext() that tests the copy stops after exactly one successful next() per item and returns every item once |

## Left out

- The `main` methods only print. The Deque demo's sequence of calls is stated as the `Demo*` lemmas. The RandomizedQueue demo is covered by `EnqueueAll` and `IterateAsWritten`.
- StdRandom is not modelled. Each random index is a parameter that lies in `[0, size)`. Nothing is said about uniformity or the resulting order.
- The O(1) and amortised time bounds are not modelled.
- `Iterator.remove()` is not modelled. In every class it only throws `UnsupportedOperationException`.
- Java's 32-bit `int` is not modelled. `size` and `capacity` are unbounded, so the overflow of `capacity * 2` beyond 2^30 slots is not modelled.
- Garbage collection is not modelled. Unlinked nodes stay in the arena, where nothing reachable refers to them.
- Queues.Dequeue: requires a non-empty queue. The Java code dereferences `first` without a check and fails with a `NullPointerException`, which the model does not represent.
- Null items in `Queue` and `RandomizedQueue` are ordinary values of the item type. The Java array's use of `null` for both a free slot and a null item is not modelled.
- The iterators do not detect concurrent modification, and neither does the Java code. The randomized iterator reads only the outer queue's size, which `Next` takes as a parameter.
- One could expect the randomized queue's capacity to return to 1 after all items are dequeued. The code never does this: `resize` returns at once on an empty queue, so the capacity stays at least 2 (`Drain`, `Dequeue`). The model follows the code.

## Findings

| source | as written | input that shows it | evidently intended | confidence | as-written member | corrected member |
|---|---|---|---|---|---|---|
| sources/RandomizedQueue.java:92-94 | `hasNext()` tests the size of the queue the iterator came from, not the iterator's copy | any non-empty queue once every item has been returned: `hasNext()` is still true and the next `next()` throws `NoSuchElementException`, so the for-each loop of `main` (line 122) throws after the tenth item | `hasNext()` is true exactly while the copy still holds items | high; not executed | RandomizedQueues.IterateAsWritten | RandomizedQueues.ForEachIntended |
