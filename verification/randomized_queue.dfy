/** The randomized queue of sources/RandomizedQueue.java: a resizing array whose first
    `size` slots hold the items. `dequeue` and `sample` pick a slot at random; here the
    index StdRandom would draw is a parameter `r` with `0 <= r < size`.

    The Java object is a value `RandomizedQueue(capacity, size, elements)`, where
    `elements` is the backing array and `None` marks a slot that holds `null`. The
    mutating operations are methods that return the new value. */
module RandomizedQueues {
  import opened Wrappers

  datatype RandomizedQueue<T> = RandomizedQueue(capacity: int, size: int, elements: seq<Option<T>>)

  /** The iterator owns an independent copy of the queue it was created from. */
  datatype RandomizedQueueIterator<T> = RandomizedQueueIterator(copy: RandomizedQueue<T>)

  // ---------------------------------------------------------------------------
  // Representation
  // ---------------------------------------------------------------------------

  predicate IsPowerOfTwo(n: int)
    decreases n
  {
    n == 1 || (n >= 2 && n % 2 == 0 && IsPowerOfTwo(n / 2))
  }

  /** The array is `capacity` long and exactly its first `size` slots are occupied. */
  predicate Packed<T>(q: RandomizedQueue<T>) {
    && q.capacity == |q.elements|
    && 0 <= q.size <= q.capacity
    && forall i | 0 <= i < |q.elements| :: q.elements[i].Some? <==> i < q.size
  }

  /** What every public operation keeps: a spare slot for the next `enqueue`, and a
      capacity that only ever doubles or halves from 1. */
  predicate Valid<T>(q: RandomizedQueue<T>) {
    Packed(q) && q.size < q.capacity && IsPowerOfTwo(q.capacity)
  }

  /** The items held, in slot order. */
  function Live<T>(q: RandomizedQueue<T>): (s: seq<T>)
    requires Packed(q)
    ensures |s| == q.size
    ensures forall i | 0 <= i < q.size :: q.elements[i] == Some(s[i])
  {
    seq(q.size, i requires 0 <= i < q.size && Packed(q) => q.elements[i].value)
  }

  /** `s` with its item at `i` removed by moving the last item into its place. */
  function SwapRemove<T>(s: seq<T>, i: nat): (t: seq<T>)
    requires i < |s|
    ensures |t| == |s| - 1
    ensures multiset(t) + multiset{s[i]} == multiset(s)
    ensures forall j | 0 <= j < |t| && j != i :: t[j] == s[j]
    ensures i < |t| ==> t[i] == s[|s| - 1]
  {
    var init := s[..|s| - 1];
    assert s == init + [s[|s| - 1]];
    if i == |s| - 1 then
      init
    else
      var t := init[i := s[|s| - 1]];
      assert init == init[..i] + [s[i]] + init[i + 1..];
      assert t == init[..i] + [s[|s| - 1]] + init[i + 1..];
      t
  }

  // ---------------------------------------------------------------------------
  // Construction and queries
  // ---------------------------------------------------------------------------

  /** `new RandomizedQueue()`: one slot, no items. */
  function Empty<T>(): (q: RandomizedQueue<T>)
    ensures Valid(q) && Live(q) == [] && q.capacity == 1
  {
    RandomizedQueue(1, 0, [None])
  }

  function IsEmpty<T>(q: RandomizedQueue<T>): (b: bool)
    requires Packed(q)
    ensures b <==> Live(q) == []
  {
    q.size == 0
  }

  function Size<T>(q: RandomizedQueue<T>): (n: int)
    requires Packed(q)
    ensures n == |Live(q)|
  {
    q.size
  }

  /** `sample()`: the item in slot `r`, or `NoSuchElement` on an empty queue. */
  function Sample<T>(q: RandomizedQueue<T>, r: nat): (res: Result<T>)
    requires Valid(q) && (q.size > 0 ==> r < q.size)
    ensures res.Err? <==> Live(q) == []
    ensures res.Err? ==> res.error == NoSuchElement
    ensures res.Ok? ==> res.value == Live(q)[r] && res.value in multiset(Live(q))
  {
    if IsEmpty(q) then Err(NoSuchElement) else Ok(q.elements[r].value)
  }

  // ---------------------------------------------------------------------------
  // Resizing
  // ---------------------------------------------------------------------------

  /** `resize(newCapacity)`: nothing happens on an empty queue; otherwise the occupied
      prefix moves to a fresh array of `newCapacity` slots. */
  method Resize<T>(q: RandomizedQueue<T>, newCapacity: int) returns (q': RandomizedQueue<T>)
    requires Packed(q)
    requires q.size > 0 ==> q.size <= newCapacity
    ensures q.size == 0 ==> q' == q
    ensures q.size > 0 ==> q'.capacity == newCapacity
    ensures Packed(q') && q'.size == q.size && Live(q') == Live(q)
  {
    if q.size == 0 {
      return q;
    }
    var storage: seq<Option<T>> := seq(newCapacity, _ => None);
    var i := 0;
    while i != q.size
      invariant 0 <= i <= q.size
      invariant |storage| == newCapacity
      invariant forall k | 0 <= k < newCapacity :: storage[k] == if k < i then q.elements[k] else None
    {
      storage := storage[i := q.elements[i]];
      i := i + 1;
    }
    q' := RandomizedQueue(newCapacity, q.size, storage);
    assert forall k | 0 <= k < q.size :: q'.elements[k] == q.elements[k];
  }

  // ---------------------------------------------------------------------------
  // enqueue / dequeue
  // ---------------------------------------------------------------------------

  /** `enqueue(item)`: the item goes into slot `size`; the array doubles when that fills it. */
  method Enqueue<T>(q: RandomizedQueue<T>, item: T) returns (q': RandomizedQueue<T>)
    requires Valid(q)
    ensures Valid(q')
    ensures Live(q') == Live(q) + [item]
    ensures q'.capacity == if q.size + 1 == q.capacity then 2 * q.capacity else q.capacity
  {
    var grown := RandomizedQueue(q.capacity, q.size + 1, q.elements[q.size := Some(item)]);
    assert Packed(grown);
    assert Live(grown) == Live(q) + [item];
    if grown.size == grown.capacity {
      q' := Resize(grown, grown.capacity * 2);
    } else {
      q' := grown;
    }
  }

  /** The array after slot `r` is emptied by moving the last item into it. */
  lemma SwapRemoveLive<T>(q: RandomizedQueue<T>, r: nat, shrunk: RandomizedQueue<T>)
    requires Valid(q) && r < q.size
    requires shrunk == RandomizedQueue(q.capacity, q.size - 1,
                                       q.elements[r := q.elements[q.size - 1]][q.size - 1 := None])
    ensures Packed(shrunk)
    ensures Live(shrunk) == SwapRemove(Live(q), r)
  {
    var s, t := Live(q), SwapRemove(Live(q), r);
    assert Packed(shrunk);
    forall j | 0 <= j < shrunk.size
      ensures Live(shrunk)[j] == t[j]
    {
      if j == r {
        assert shrunk.elements[j] == q.elements[q.size - 1];
      } else {
        assert shrunk.elements[j] == q.elements[j];
      }
    }
  }

  /** `dequeue()`: throws on an empty queue; otherwise removes and returns the item in slot
      `r`, and halves the array when at most a quarter of it is in use, unless the queue
      has just become empty. */
  method Dequeue<T>(q: RandomizedQueue<T>, r: nat) returns (q': RandomizedQueue<T>, res: Result<T>)
    requires Valid(q)
    requires q.size > 0 ==> r < q.size
    ensures Valid(q')
    ensures res == Sample(q, r)
    ensures res.Err? ==> q' == q
    ensures res.Ok? ==> Live(q') == SwapRemove(Live(q), r)
    ensures res.Ok? ==> multiset(Live(q')) + multiset{res.value} == multiset(Live(q))
    ensures res.Ok? ==> q'.capacity == if 0 < q'.size <= q.capacity / 4 then q.capacity / 2 else q.capacity
    ensures res.Ok? ==> q'.capacity >= 2
  {
    if IsEmpty(q) {
      return q, Err(NoSuchElement);
    }
    var element := q.elements[r].value;
    var size := q.size - 1;
    var shrunk := RandomizedQueue(q.capacity, size, q.elements[r := q.elements[size]][size := None]);
    SwapRemoveLive(q, r, shrunk);
    if size <= q.capacity / 4 {
      q' := Resize(shrunk, q.capacity / 2);
    } else {
      q' := shrunk;
    }
    res := Ok(element);
  }

  // ---------------------------------------------------------------------------
  // Sequences of calls
  // ---------------------------------------------------------------------------

  /** `enqueue` each of `xs` in turn. Starting from a new queue, the array ends up with
      the least power of two that exceeds the number of items. */
  method EnqueueAll<T>(q: RandomizedQueue<T>, xs: seq<T>) returns (q': RandomizedQueue<T>)
    requires Valid(q)
    ensures Valid(q')
    ensures Live(q') == Live(q) + xs
    ensures q == Empty() && xs != [] ==> q'.capacity <= 2 * q'.size
  {
    q' := q;
    var k := 0;
    while k < |xs|
      invariant 0 <= k <= |xs|
      invariant Valid(q')
      invariant Live(q') == Live(q) + xs[..k]
      invariant q == Empty() ==> q'.capacity == 1 || q'.capacity <= 2 * q'.size
      invariant q == Empty() ==> q'.size == k
    {
      assert xs[..k + 1] == xs[..k] + [xs[k]];
      q' := Enqueue(q', xs[k]);
      k := k + 1;
    }
    assert xs[..k] == xs;
  }

  /** `dequeue` until empty, with `choices[k]` the slot the `k`-th call picks. Every item
      comes out exactly once, and the emptied array keeps at least two slots: it is never
      shrunk back to its initial size. */
  method Drain<T>(q: RandomizedQueue<T>, choices: seq<nat>) returns (q': RandomizedQueue<T>, items: seq<T>)
    requires Valid(q)
    requires |choices| == q.size && forall k | 0 <= k < |choices| :: choices[k] < q.size - k
    ensures Valid(q') && Live(q') == []
    ensures multiset(items) == multiset(Live(q))
    ensures q.size > 0 ==> q'.capacity >= 2
  {
    q' := q;
    items := [];
    var k := 0;
    while k < |choices|
      invariant 0 <= k <= |choices|
      invariant Valid(q') && q'.size == q.size - k
      invariant multiset(items) + multiset(Live(q')) == multiset(Live(q))
      invariant k > 0 ==> q'.capacity >= 2
    {
      var res;
      q', res := Dequeue(q', choices[k]);
      items := items + [res.value];
      k := k + 1;
    }
  }

  // ---------------------------------------------------------------------------
  // Iterator
  // ---------------------------------------------------------------------------

  /** `iterator()`: a fresh queue into which the live items are enqueued in slot order. */
  method NewIterator<T>(q: RandomizedQueue<T>) returns (it: RandomizedQueueIterator<T>)
    requires Valid(q)
    ensures Valid(it.copy) && Live(it.copy) == Live(q)
  {
    var copy := Empty();
    var i := 0;
    while i != q.size
      invariant 0 <= i <= q.size
      invariant Valid(copy) && Live(copy) == Live(q)[..i]
    {
      assert Live(q)[..i + 1] == Live(q)[..i] + [Live(q)[i]];
      copy := Enqueue(copy, q.elements[i].value);
      i := i + 1;
    }
    assert Live(q)[..i] == Live(q);
    it := RandomizedQueueIterator(copy);
  }

  /** `hasNext()` as written: it asks whether the queue the iterator came from is empty,
      not whether the copy has items left. */
  function HasNext<T>(outer: RandomizedQueue<T>, it: RandomizedQueueIterator<T>): (b: bool)
    requires Packed(outer)
    ensures b <==> Live(outer) != []
  {
    outer.size != 0
  }

  /** `hasNext()` as evidently intended: the copy's own size test, true exactly while
      the copy still holds items. */
  function HasNextIntended<T>(it: RandomizedQueueIterator<T>): (b: bool)
    requires Packed(it.copy)
    ensures b <==> Live(it.copy) != []
  {
    it.copy.size != 0
  }

  /** `next()`: throws when `hasNext()` is false, otherwise dequeues slot `r` of the copy,
      which throws in turn once the copy is drained. */
  method Next<T>(outer: RandomizedQueue<T>, it: RandomizedQueueIterator<T>, r: nat)
    returns (it': RandomizedQueueIterator<T>, res: Result<T>)
    requires Packed(outer) && Valid(it.copy)
    requires it.copy.size > 0 ==> r < it.copy.size
    ensures Valid(it'.copy)
    ensures res.Ok? <==> Live(outer) != [] && Live(it.copy) != []
    ensures res.Err? ==> res.error == NoSuchElement && it' == it
    ensures res.Ok? ==> multiset(Live(it'.copy)) + multiset{res.value} == multiset(Live(it.copy))
  {
    if !HasNext(outer, it) {
      return it, Err(NoSuchElement);
    }
    var copy;
    copy, res := Dequeue(it.copy, r);
    it' := RandomizedQueueIterator(copy);
  }

  /** Iterating a queue as written: `next()` is called once per item and yields every item
      exactly once; after that `hasNext()` still answers true on a non-empty queue, while
      one more `next()` throws. */
  method IterateAsWritten<T>(q: RandomizedQueue<T>, choices: seq<nat>)
    returns (items: seq<T>, it: RandomizedQueueIterator<T>, extra: Result<T>)
    requires Valid(q)
    requires |choices| == q.size && forall k | 0 <= k < |choices| :: choices[k] < q.size - k
    ensures multiset(items) == multiset(Live(q))
    ensures Valid(it.copy) && !HasNextIntended(it)
    ensures HasNext(q, it) <==> Live(q) != []
    ensures extra == Err(NoSuchElement)
  {
    it := NewIterator(q);
    items := [];
    var k := 0;
    while k < |choices|
      invariant 0 <= k <= |choices|
      invariant Valid(it.copy) && it.copy.size == q.size - k
      invariant multiset(items) + multiset(Live(it.copy)) == multiset(Live(q))
    {
      var res;
      it, res := Next(q, it, choices[k]);
      items := items + [res.value];
      k := k + 1;
    }
    var _, last := Next(q, it, 0);
    extra := last;
  }

  /** A for-each loop driven by the intended `hasNext()`: it stops after exactly one
      `next()` per item, each of which succeeds, and yields every item once. */
  method ForEachIntended<T>(q: RandomizedQueue<T>, choices: seq<nat>) returns (items: seq<T>)
    requires Valid(q)
    requires |choices| == q.size && forall k | 0 <= k < |choices| :: choices[k] < q.size - k
    ensures multiset(items) == multiset(Live(q))
    ensures |items| == |Live(q)|
  {
    var it := NewIterator(q);
    items := [];
    var k := 0;
    while HasNextIntended(it)
      invariant 0 <= k <= |choices|
      invariant Valid(it.copy) && it.copy.size == q.size - k
      invariant |items| == k
      invariant multiset(items) + multiset(Live(it.copy)) == multiset(Live(q))
      decreases it.copy.size
    {
      var res;
      it, res := Next(q, it, choices[k]);
      items := items + [res.value];
      k := k + 1;
    }
  }
}
