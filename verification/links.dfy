/** Node identities and linked chains, shared by the doubly-linked deque and the
    singly-linked queue.

    A container's heap is an arena `map<NodeId, N>` of node records. Each container
    passes in how to read a node's item and its `next` link, so the walk along `next`
    and the items it visits are defined once for both node shapes. */
module Links {
  import opened Wrappers

  /** The identity of a heap node: an index into the container's node arena. */
  type NodeId = nat

  /** The reference that sits at position `k` of a chain, or `null` past its end. */
  function At(ids: seq<NodeId>, k: nat): Option<NodeId> {
    if k < |ids| then Some(ids[k]) else None
  }

  /** The reference just before position `k` of a chain, or `null` at its front. */
  function Before(ids: seq<NodeId>, k: nat): Option<NodeId>
    requires k <= |ids|
  {
    if k == 0 then None else Some(ids[k - 1])
  }

  /** The last reference of a chain, or `null` when it is empty. */
  function Last(ids: seq<NodeId>): Option<NodeId> {
    if |ids| == 0 then None else Some(ids[|ids| - 1])
  }

  /** No node occurs twice: the chain has no cycle. */
  predicate Distinct(ids: seq<NodeId>) {
    forall i, j | 0 <= i < j < |ids| :: ids[i] != ids[j]
  }

  lemma DistinctSlice(ids: seq<NodeId>, lo: nat, hi: nat)
    requires Distinct(ids) && lo <= hi <= |ids|
    ensures Distinct(ids[lo..hi])
  {
    var s := ids[lo..hi];
    forall i, j | 0 <= i < j < |s|
      ensures s[i] != s[j]
    {
      assert s[i] == ids[lo + i] && s[j] == ids[lo + j];
    }
  }

  lemma DistinctCons(id: NodeId, ids: seq<NodeId>)
    requires Distinct(ids) && id !in ids
    ensures Distinct([id] + ids)
  {
    var s := [id] + ids;
    forall i, j | 0 <= i < j < |s|
      ensures s[i] != s[j]
    {
      assert s[j] == ids[j - 1];
      if i > 0 {
        assert s[i] == ids[i - 1];
      }
    }
  }

  lemma DistinctSnoc(ids: seq<NodeId>, id: NodeId)
    requires Distinct(ids) && id !in ids
    ensures Distinct(ids + [id])
  {
    var s := ids + [id];
    forall i, j | 0 <= i < j < |s|
      ensures s[i] != s[j]
    {
      assert s[i] == ids[i];
      if j < |ids| {
        assert s[j] == ids[j];
      }
    }
  }

  /** The nodes reached from `cur` by following `next`, each visited at most once, so
      the walk ends even on a heap whose links form a cycle. */
  function Walk<N>(nodes: map<NodeId, N>, next: N -> Option<NodeId>, cur: Option<NodeId>, unvisited: set<NodeId>): seq<NodeId>
    decreases unvisited
  {
    if cur.Some? && cur.value in nodes && cur.value in unvisited then
      [cur.value] + Walk(nodes, next, next(nodes[cur.value]), unvisited - {cur.value})
    else
      []
  }

  /** The items held by the nodes `ids`, in order. */
  function Items<N, T>(nodes: map<NodeId, N>, item: N -> T, ids: seq<NodeId>): (s: seq<T>)
    requires forall i | 0 <= i < |ids| :: ids[i] in nodes
    ensures |s| == |ids|
    ensures forall i {:trigger s[i]} | 0 <= i < |ids| :: s[i] == item(nodes[ids[i]])
  {
    seq(|ids|, i requires 0 <= i < |ids| => item(nodes[ids[i]]))
  }

  /** Following `next` from the first node of a well-linked, acyclic chain visits exactly that chain. */
  lemma {:induction false} WalkFollowsLinks<N>(nodes: map<NodeId, N>, next: N -> Option<NodeId>, ids: seq<NodeId>, unvisited: set<NodeId>)
    requires forall i | 0 <= i < |ids| :: ids[i] in nodes && ids[i] in unvisited
    requires Distinct(ids)
    requires forall i | 0 <= i < |ids| :: next(nodes[ids[i]]) == At(ids, i + 1)
    ensures Walk(nodes, next, At(ids, 0), unvisited) == ids
    decreases |ids|
  {
    if |ids| > 0 {
      var rest := ids[1..];
      forall i | 0 <= i < |rest|
        ensures rest[i] in nodes && rest[i] in unvisited - {ids[0]}
      {
        assert rest[i] == ids[i + 1] != ids[0];
      }
      forall i | 0 <= i < |rest|
        ensures next(nodes[rest[i]]) == At(rest, i + 1)
      {
        assert next(nodes[ids[i + 1]]) == At(ids, i + 2);
      }
      WalkFollowsLinks(nodes, next, rest, unvisited - {ids[0]});
      assert next(nodes[ids[0]]) == At(rest, 0);
    }
  }

  /** Dropping the first `k` nodes drops their items. */
  lemma ItemsDrop<N, T>(nodes: map<NodeId, N>, item: N -> T, ids: seq<NodeId>, k: nat)
    requires forall i | 0 <= i < |ids| :: ids[i] in nodes
    requires k <= |ids|
    ensures Items(nodes, item, ids[k..]) == Items(nodes, item, ids)[k..]
  {
    var s := Items(nodes, item, ids);
    var t := Items(nodes, item, ids[k..]);
    forall i | 0 <= i < |t|
      ensures t[i] == s[k..][i]
    {
      assert ids[k..][i] == ids[k + i];
    }
  }
}
