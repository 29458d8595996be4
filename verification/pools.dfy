/** The two fixed-capacity pools of list.c: node slots and list-header slots.

    The source threads the unused slots of the static arrays `nodes` and `lists`
    into singly-linked free chains headed by `nextNodePtr` and `nextListPtr`, and
    keeps two live counters, `nodeCounter` and `listCounter`.  The model keeps the
    counters and the LENGTH of each free chain; which slot sits where on a chain is
    not observable through the list operations and is not modelled.  The
    capacities LIST_MAX_NUM_NODES and LIST_MAX_NUM_HEADS are fixed at build time
    in list.h, which is not part of this model, so they are carried as fields. */
module Pools {

  /** The process-wide pool state.
      maxNodes, maxHeads:      LIST_MAX_NUM_NODES, LIST_MAX_NUM_HEADS
      nodeCounter, listCounter: the live counters of list.c
      freeNodes, freeHeads:     how many slots the chains at nextNodePtr / nextListPtr hold */
  datatype Pool = Pool(
    maxNodes: nat,
    maxHeads: nat,
    nodeCounter: nat,
    listCounter: nat,
    freeNodes: nat,
    freeHeads: nat)

  /** Every slot is either counted live or sits on its free chain, and the
      capacity checks (`== MAX - 1`) keep the live counters below capacity. */
  predicate PoolValid(p: Pool) {
    && 1 <= p.maxNodes
    && 1 <= p.maxHeads
    && p.nodeCounter + p.freeNodes == p.maxNodes
    && p.listCounter + p.freeHeads == p.maxHeads
    && p.nodeCounter < p.maxNodes
    && p.listCounter < p.maxHeads
  }

  /** The capacities are fixed at build time: no operation changes them. */
  predicate SameCapacity(p: Pool, q: Pool) {
    p.maxNodes == q.maxNodes && p.maxHeads == q.maxHeads
  }

  /** The capacity test of List_insert_after: no node may be handed out once
      nodeCounter reaches LIST_MAX_NUM_NODES-1. */
  predicate NodesFull(p: Pool) {
    p.nodeCounter == p.maxNodes - 1
  }

  /** The capacity test of List_create. */
  predicate HeadsFull(p: Pool) {
    p.listCounter == p.maxHeads - 1
  }

  /** initNodes: every node slot is threaded onto the node free chain. */
  function InitNodes(p: Pool): (r: Pool)
    ensures r.freeNodes == p.maxNodes
    ensures r.nodeCounter == p.nodeCounter && r.listCounter == p.listCounter
  {
    p.(freeNodes := p.maxNodes)
  }

  /** initLists: every header slot is reset and threaded onto the header free chain. */
  function InitLists(p: Pool): (r: Pool)
    ensures r.freeHeads == p.maxHeads
    ensures r.nodeCounter == p.nodeCounter && r.listCounter == p.listCounter
  {
    p.(freeHeads := p.maxHeads)
  }

  /** The pool state right after the one-time initialisation that the first
      List_create triggers: both counters zero, every slot free. */
  function InitialPool(maxNodes: nat, maxHeads: nat): (r: Pool)
    requires 1 <= maxNodes && 1 <= maxHeads
    ensures PoolValid(r)
    ensures r.nodeCounter == 0 && r.listCounter == 0
    ensures r.maxNodes == maxNodes && r.maxHeads == maxHeads
  {
    InitLists(InitNodes(Pool(maxNodes, maxHeads, 0, 0, 0, 0)))
  }

  /** nextFreeNode in NORMAL_NODE_CASE: pop the head of the node free chain.
      On an empty chain the source dereferences NULL, hence the requires.
      The live counters are the callers' business. */
  function AcquireNode(p: Pool): (r: Pool)
    requires 0 < p.freeNodes
    ensures r.freeNodes + 1 == p.freeNodes
    ensures r.nodeCounter == p.nodeCounter && r.listCounter == p.listCounter
    ensures r.freeHeads == p.freeHeads && r.maxNodes == p.maxNodes && r.maxHeads == p.maxHeads
  {
    p.(freeNodes := p.freeNodes - 1)
  }

  /** nextFreeNode in a DELETE case: push the vacated slot onto the node free chain. */
  function ReleaseNode(p: Pool): (r: Pool)
    ensures r.freeNodes == p.freeNodes + 1
    ensures r.nodeCounter == p.nodeCounter && r.listCounter == p.listCounter
    ensures r.freeHeads == p.freeHeads && r.maxNodes == p.maxNodes && r.maxHeads == p.maxHeads
  {
    p.(freeNodes := p.freeNodes + 1)
  }

  /** nextFreeList in NORMAL_LIST_CASE: pop the head of the header free chain. */
  function AcquireHead(p: Pool): (r: Pool)
    requires 0 < p.freeHeads
    ensures r.freeHeads + 1 == p.freeHeads
    ensures r.nodeCounter == p.nodeCounter && r.listCounter == p.listCounter
    ensures r.freeNodes == p.freeNodes && r.maxNodes == p.maxNodes && r.maxHeads == p.maxHeads
  {
    p.(freeHeads := p.freeHeads - 1)
  }

  /** nextFreeList in the delete case: reset the header and push it onto the
      header free chain. */
  function ReleaseHead(p: Pool): (r: Pool)
    ensures r.freeHeads == p.freeHeads + 1
    ensures r.nodeCounter == p.nodeCounter && r.listCounter == p.listCounter
    ensures r.freeNodes == p.freeNodes && r.maxNodes == p.maxNodes && r.maxHeads == p.maxHeads
  {
    p.(freeHeads := p.freeHeads + 1)
  }

  /** The pool after k nodes have gone from live back to the node free chain,
      one ReleaseNode at a time. */
  function ReturnNodes(p: Pool, k: nat): (r: Pool)
    requires k <= p.nodeCounter
    ensures r.nodeCounter + k == p.nodeCounter && r.freeNodes == p.freeNodes + k
    ensures r.listCounter == p.listCounter && r.freeHeads == p.freeHeads
    ensures r.maxNodes == p.maxNodes && r.maxHeads == p.maxHeads
    ensures PoolValid(p) ==> PoolValid(r)
    decreases k
  {
    if k == 0 then p
    else ReturnNodes(ReleaseNode(p).(nodeCounter := p.nodeCounter - 1), k - 1)
  }

  /** Returning j nodes and then k more is returning j + k. */
  lemma ReturnNodesTwice(p: Pool, j: nat, k: nat)
    requires j + k <= p.nodeCounter
    ensures ReturnNodes(ReturnNodes(p, j), k) == ReturnNodes(p, j + k)
  {
  }

  /** The pool after one header has gone from live back to the header free chain. */
  function ReturnHead(p: Pool): (r: Pool)
    requires 1 <= p.listCounter
    ensures r.listCounter + 1 == p.listCounter && r.freeHeads == p.freeHeads + 1
    ensures r.nodeCounter == p.nodeCounter && r.freeNodes == p.freeNodes
    ensures PoolValid(p) ==> PoolValid(r)
    ensures r.maxNodes == p.maxNodes && r.maxHeads == p.maxHeads
  {
    ReleaseHead(p).(listCounter := p.listCounter - 1)
  }

  /** The pool after one node has gone from the node free chain to a list. */
  function TakeNode(p: Pool): (r: Pool)
    requires 0 < p.freeNodes
    ensures r.nodeCounter == p.nodeCounter + 1 && r.freeNodes + 1 == p.freeNodes
    ensures r.listCounter == p.listCounter && r.freeHeads == p.freeHeads
    ensures r.maxNodes == p.maxNodes && r.maxHeads == p.maxHeads
  {
    AcquireNode(p).(nodeCounter := p.nodeCounter + 1)
  }

  /** The pool after one header has gone from the header free chain to a new list. */
  function TakeHead(p: Pool): (r: Pool)
    requires 0 < p.freeHeads
    ensures r.listCounter == p.listCounter + 1 && r.freeHeads + 1 == p.freeHeads
    ensures r.nodeCounter == p.nodeCounter && r.freeNodes == p.freeNodes
    ensures r.maxNodes == p.maxNodes && r.maxHeads == p.maxHeads
  {
    AcquireHead(p).(listCounter := p.listCounter + 1)
  }
}
