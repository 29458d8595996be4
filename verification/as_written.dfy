/** The list operations of list.c as the code is written, where that differs
    from the header comments modelled in module Lists.

    The code keeps `bound_status` and `current` as two separate header fields,
    and several operations update one without the other; so a header here
    carries both. The lemmas at the end exhibit each difference from the
    behaviour the header comments describe. */
module AsWritten {
  import opened Pools
  import opened Seqs
  import Lists

  type Option<T> = Lists.Option<T>
  type Status = Lists.Status

  /** LIST_EMPTY, LIST_BOUNDED, LIST_OOB_START, LIST_OOB_END. */
  datatype BoundStatus = ListEmpty | ListBounded | ListOobStart | ListOobEnd

  /** A list header as the code keeps it. current is the index of the node it
      points to, or None for NULL. */
  datatype Header<T> = Header(items: seq<T>, counter: nat, status: BoundStatus, current: Option<nat>)

  /** What the code relies on: the counter is the length, EMPTY means no
      items, BOUNDED has a current node, and a current node is on the list. */
  predicate HeaderValid<T>(h: Header<T>) {
    && h.counter == |h.items|
    && (h.status == ListEmpty <==> |h.items| == 0)
    && (h.status == ListBounded ==> h.current.Some?)
    && (h.current.Some? ==> h.current.value < |h.items|)
  }

  /** The header that stands for a list of module Lists. */
  function Raw<T>(l: Lists.ListState<T>): (h: Header<T>)
    requires Lists.Valid(l)
    ensures HeaderValid(h) && h.items == l.items
    ensures l.cursor.Bounded? <==> h.status == ListBounded
    ensures l.cursor.Bounded? ==> h.current == Lists.Some(l.cursor.i)
  {
    match l.cursor
    case Empty => Header(l.items, l.counter, ListEmpty, Lists.None)
    case Bounded(i) => Header(l.items, l.counter, ListBounded, Lists.Some(i))
    case OOBStart => Header(l.items, l.counter, ListOobStart, Lists.None)
    case OOBEnd => Header(l.items, l.counter, ListOobEnd, Lists.None)
  }

  datatype Moved<T> = Moved(header: Header<T>, item: Option<T>)
  datatype Inserted<T> = Inserted(pool: Pool, header: Header<T>, status: Status)
  /** The result of List_insert_before, List_append and List_prepend, which
      fall off their end without a return statement: no status. */
  datatype Updated<T> = Updated(pool: Pool, header: Header<T>)
  datatype Removed<T> = Removed(pool: Pool, header: Header<T>, item: Option<T>)
  datatype Freed<T> = Freed(pool: Pool, destroyed: seq<T>)

  /** List_first: current moves to the first node, bound_status is left alone. */
  function First<T>(h: Header<T>): (r: Moved<T>)
    requires HeaderValid(h)
    ensures HeaderValid(r.header) && r.header.items == h.items
    ensures r.header.status == h.status
    ensures 0 < |h.items| ==> r.header.current == Lists.Some(0)
  {
    if h.status == ListEmpty then Moved(h, Lists.None)
    else Moved(h.(current := Lists.Some(0)), Lists.Some(h.items[0]))
  }

  /** List_last: current moves to the last node, bound_status is left alone. */
  function Last<T>(h: Header<T>): (r: Moved<T>)
    requires HeaderValid(h)
    ensures HeaderValid(r.header) && r.header.items == h.items
    ensures r.header.status == h.status
    ensures 0 < |h.items| ==> r.header.current == Lists.Some(|h.items| - 1)
  {
    if h.status == ListEmpty then Moved(h, Lists.None)
    else Moved(h.(current := Lists.Some(h.counter - 1)), Lists.Some(h.items[h.counter - 1]))
  }

  /** List_prev: follows node_prev from current; only running off the start
      touches bound_status. */
  function Prev<T>(h: Header<T>): (r: Moved<T>)
    requires HeaderValid(h) && h.current.Some?
    ensures HeaderValid(r.header) && r.header.items == h.items
    ensures h.current.value == 0 ==> r.header.status == ListOobStart && r.item.None?
    ensures 0 < h.current.value ==>
      r.header.status == h.status && r.header.current == Lists.Some(h.current.value - 1)
  {
    var i := h.current.value;
    if i == 0 then Moved(h.(current := Lists.None, status := ListOobStart), Lists.None)
    else Moved(h.(current := Lists.Some(i - 1)), Lists.Some(h.items[i - 1]))
  }

  /** List_insert_after: placement is chosen by bound_status alone. On an
      empty free chain the code dereferences NULL, hence the requires. */
  function InsertAfter<T>(p: Pool, h: Header<T>, x: T): (r: Inserted<T>)
    requires HeaderValid(h) && (!NodesFull(p) ==> 0 < p.freeNodes)
    ensures HeaderValid(r.header)
    ensures NodesFull(p) <==> r.status == Lists.Fail
    ensures r.status == Lists.Fail ==> r.pool == p && r.header == h
    ensures r.status == Lists.Success ==>
      && r.header.status == ListBounded
      && r.header.current.Some? && r.header.current.value <= |h.items|
      && r.header.items == InsertAt(h.items, r.header.current.value, x)
      && (h.status == ListOobStart ==> r.header.current == Lists.Some(0))
      && (h.status == ListOobEnd ==> r.header.current == Lists.Some(|h.items|))
      && (h.status == ListBounded ==> r.header.current == Lists.Some(h.current.value + 1))
  {
    if NodesFull(p) then Inserted(p, h, Lists.Fail)
    else
      var k := match h.status
        case ListEmpty => 0
        case ListOobStart => 0
        case ListOobEnd => |h.items|
        case ListBounded => h.current.value + 1;
      Inserted(TakeNode(p), Header(InsertAt(h.items, k, x), h.counter + 1, ListBounded, Lists.Some(k)), Lists.Success)
  }

  /** List_insert_before: List_prev when bounded, then List_insert_after,
      whose status is dropped. */
  function InsertBefore<T>(p: Pool, h: Header<T>, x: T): (r: Updated<T>)
    requires HeaderValid(h) && (!NodesFull(p) ==> 0 < p.freeNodes)
    ensures HeaderValid(r.header)
    ensures NodesFull(p) ==> r.pool == p && r.header.items == h.items
  {
    var h' := if h.status == ListBounded then Prev(h).header else h;
    var r := InsertAfter(p, h', x);
    Updated(r.pool, r.header)
  }

  /** List_append: List_last only when bounded, then List_insert_after. */
  function Append<T>(p: Pool, h: Header<T>, x: T): (r: Updated<T>)
    requires HeaderValid(h) && (!NodesFull(p) ==> 0 < p.freeNodes)
    ensures HeaderValid(r.header)
    ensures NodesFull(p) ==> r.pool == p && r.header.items == h.items
    ensures !NodesFull(p) ==>
      r.header.items == (if h.status == ListOobStart then [x] + h.items else h.items + [x])
    ensures NodesFull(p) && h.status == ListBounded ==>
      r.header.current == Lists.Some(|h.items| - 1)
  {
    var h' := if h.status == ListBounded then Last(h).header else h;
    var r := InsertAfter(p, h', x);
    Updated(r.pool, r.header)
  }

  /** List_prepend: List_first, then List_insert_before. */
  function Prepend<T>(p: Pool, h: Header<T>, x: T): (r: Updated<T>)
    requires HeaderValid(h) && (!NodesFull(p) ==> 0 < p.freeNodes)
    ensures HeaderValid(r.header)
    ensures NodesFull(p) ==> r.pool == p && r.header.items == h.items
    ensures !NodesFull(p) ==>
      r.header.items == (if h.status == ListOobEnd then h.items + [x] else [x] + h.items)
    ensures NodesFull(p) && h.status == ListBounded ==>
      r.header.status == ListOobStart && r.header.current.None?
  {
    InsertBefore(p, First(h).header, x)
  }

  /** The relinking common to List_remove and List_remove_exclude_item. */
  function Unlink<T>(h: Header<T>): (r: Header<T>)
    requires HeaderValid(h) && h.status == ListBounded
    ensures HeaderValid(r)
    ensures r.items == DeleteAt(h.items, h.current.value)
  {
    var i, n := h.current.value, h.counter;
    var items := DeleteAt(h.items, i);
    if i == 0 then
      Header(items, n - 1, if n == 1 then ListEmpty else ListBounded,
             if n == 1 then Lists.None else Lists.Some(0))
    else if i == n - 1 then
      Header(items, n - 1, ListBounded, Lists.Some(i - 1))
    else
      Header(items, n - 1, ListBounded, Lists.Some(i))
  }

  /** List_remove: the node is unlinked but not released, and the free-chain
      head is advanced past one more slot, which is lost as well. */
  function Remove<T>(p: Pool, h: Header<T>): (r: Removed<T>)
    requires HeaderValid(h) && |h.items| <= p.nodeCounter
    requires h.status == ListBounded ==> 0 < p.freeNodes
    ensures HeaderValid(r.header)
    ensures h.status != ListBounded ==> r == Removed(p, h, Lists.None)
    ensures h.status == ListBounded ==>
      && r.item == Lists.Some(h.items[h.current.value])
      && r.pool.nodeCounter + 1 == p.nodeCounter
      && r.pool.freeNodes + 1 == p.freeNodes
  {
    if h.status != ListBounded then Removed(p, h, Lists.None)
    else
      var pool := AcquireNode(p).(nodeCounter := p.nodeCounter - 1);
      Removed(pool, Unlink(h), Lists.Some(h.items[h.current.value]))
  }

  /** List_trim: List_last, then List_remove. */
  function Trim<T>(p: Pool, h: Header<T>): (r: Removed<T>)
    requires HeaderValid(h) && |h.items| <= p.nodeCounter
    requires h.status == ListBounded ==> 0 < p.freeNodes
    ensures HeaderValid(r.header)
    ensures h.status != ListBounded ==> r.pool == p && r.item.None? && r.header.items == h.items
  {
    if h.status == ListEmpty then Removed(p, h, Lists.None)
    else Remove(p, Last(h).header)
  }

  /** List_free: destroy and unlink while bound_status is BOUNDED, then put the
      header back on the free chain; listCounter is never decremented. */
  function Free<T>(p: Pool, h: Header<T>): (r: Freed<T>)
    requires HeaderValid(h) && |h.items| <= p.nodeCounter
    ensures r.pool.listCounter == p.listCounter
    ensures r.pool.freeHeads == p.freeHeads + 1
    ensures h.status != ListBounded ==> r.destroyed == [] && r.pool.nodeCounter == p.nodeCounter
    decreases |h.items|
  {
    if h.status != ListBounded then Freed(ReleaseHead(p), [])
    else
      var item := h.items[h.current.value];
      var rest := Free(ReturnNodes(p, 1), Unlink(h));
      Freed(rest.pool, [item] + rest.destroyed)
  }

  /** List_concat: the header of the second list returns to the free chain
      but listCounter is never decremented. */
  function ConcatPool(p: Pool): (r: Pool)
    ensures r.listCounter == p.listCounter && r.freeHeads == p.freeHeads + 1
  {
    ReleaseHead(p)
  }

  // ---------------------------------------------------------------------
  // The differences, each against the corrected operation of module Lists.

  /** Once the cursor is out of bounds, List_trim returns NULL and keeps the
      last item, because List_last does not set BOUNDED; the header comment
      promises the last item. */
  lemma TrimOutOfBoundsKeepsLast<T>(p: Pool, l: Lists.ListState<T>)
    requires Lists.Live(p, l) && (l.cursor.OOBStart? || l.cursor.OOBEnd?)
    ensures Trim(p, Raw(l)).item.None?
    ensures Trim(p, Raw(l)).header.items == l.items
    ensures Lists.Trim(p, l).item == Lists.Some(l.items[|l.items| - 1])
    ensures |Lists.Trim(p, l).list.items| + 1 == |l.items|
  {
  }

  /** Beyond the end, List_prepend adds at the end: List_first moves current
      but leaves OOB_END, so the insert appends. */
  lemma PrependBeyondEndAppends<T>(p: Pool, l: Lists.ListState<T>, x: T)
    requires Lists.Live(p, l) && l.cursor.OOBEnd? && !NodesFull(p)
    ensures Prepend(p, Raw(l), x).header.items == l.items + [x]
    ensures Lists.Prepend(p, l, x).list.items == [x] + l.items
  {
  }

  /** A concrete case: [1] beyond its end, prepending 2. */
  lemma PrependBeyondEndExample(p: Pool)
    requires PoolValid(p) && !NodesFull(p) && 1 <= p.nodeCounter && 1 <= p.listCounter
    ensures Prepend(p, Raw(Lists.ListState([1], 1, Lists.OOBEnd)), 2).header.items == [1, 2]
    ensures Lists.Prepend(p, Lists.ListState([1], 1, Lists.OOBEnd), 2).list.items == [2, 1]
  {
    var l := Lists.ListState([1], 1, Lists.OOBEnd);
    assert Lists.Live(p, l);
    PrependBeyondEndAppends(p, l, 2);
    assert [2] + l.items == [2, 1] && l.items + [2] == [1, 2];
  }

  /** Before the start, List_append adds at the front: it moves to the last
      item only when the cursor is bounded. */
  lemma AppendBeforeStartPrepends<T>(p: Pool, l: Lists.ListState<T>, x: T)
    requires Lists.Live(p, l) && l.cursor.OOBStart? && !NodesFull(p)
    ensures Append(p, Raw(l), x).header.items == [x] + l.items
    ensures Lists.Append(p, l, x).list.items == l.items + [x]
  {
  }

  /** A concrete case: [1] before its start, appending 2. */
  lemma AppendBeforeStartExample(p: Pool)
    requires PoolValid(p) && !NodesFull(p) && 1 <= p.nodeCounter && 1 <= p.listCounter
    ensures Append(p, Raw(Lists.ListState([1], 1, Lists.OOBStart)), 2).header.items == [2, 1]
    ensures Lists.Append(p, Lists.ListState([1], 1, Lists.OOBStart), 2).list.items == [1, 2]
  {
    var l := Lists.ListState([1], 1, Lists.OOBStart);
    assert Lists.Live(p, l);
    AppendBeforeStartPrepends(p, l, 2);
    assert [2] + l.items == [2, 1] && l.items + [2] == [1, 2];
  }

  /** With the node pool full, List_insert_before reports nothing and still
      moves the cursor back one node; the header comment promises -1, and
      nothing should change on failure. */
  lemma InsertBeforeFailureMovesCursor<T>(p: Pool, l: Lists.ListState<T>, x: T)
    requires Lists.Live(p, l) && l.cursor.Bounded? && NodesFull(p)
    ensures InsertBefore(p, Raw(l), x).header != Raw(l)
    ensures InsertBefore(p, Raw(l), x).header.current
            == (if l.cursor.i == 0 then Lists.None else Lists.Some(l.cursor.i - 1))
    ensures Lists.InsertBefore(p, l, x) == Lists.Inserted(p, l, Lists.Fail)
  {
  }

  /** With the node pool full, List_append reports nothing and still moves
      the cursor to the last node; the header comment promises -1. */
  lemma AppendFailureMovesCursor<T>(p: Pool, l: Lists.ListState<T>, x: T)
    requires Lists.Live(p, l) && l.cursor.Bounded? && l.cursor.i + 1 < |l.items| && NodesFull(p)
    ensures Append(p, Raw(l), x).header.current == Lists.Some(|l.items| - 1)
    ensures Append(p, Raw(l), x).header != Raw(l)
    ensures Lists.Append(p, l, x) == Lists.Inserted(p, l, Lists.Fail)
  {
  }

  /** With the node pool full, List_prepend reports nothing and leaves a
      bounded list before its start with no current node: List_first moves
      to the first node and List_insert_before's List_prev walks off it. */
  lemma PrependFailureLeavesOobStart<T>(p: Pool, l: Lists.ListState<T>, x: T)
    requires Lists.Live(p, l) && l.cursor.Bounded? && NodesFull(p)
    ensures Prepend(p, Raw(l), x).header.status == ListOobStart
    ensures Prepend(p, Raw(l), x).header.current.None?
    ensures Lists.Prepend(p, l, x) == Lists.Inserted(p, l, Lists.Fail)
  {
  }

  /** List_remove loses two node slots: the removed node never returns to the
      free chain and the chain head skips one more. */
  lemma RemoveLeaksNodes<T>(p: Pool, l: Lists.ListState<T>)
    requires Lists.Live(p, l) && l.cursor.Bounded?
    ensures Remove(p, Raw(l)).pool.nodeCounter + Remove(p, Raw(l)).pool.freeNodes + 2 == p.maxNodes
    ensures !PoolValid(Remove(p, Raw(l)).pool)
    ensures PoolValid(Lists.Remove(p, l).pool)
  {
  }

  /** The pool List_create leaves behind when it makes the first list. */
  lemma FirstCreate(maxNodes: nat, maxHeads: nat)
    requires 1 <= maxNodes && 2 <= maxHeads
    ensures Lists.Create<int>(InitialPool(maxNodes, maxHeads)).pool
            == Pool(maxNodes, maxHeads, 0, 1, maxNodes, maxHeads - 1)
    ensures Lists.Create<int>(InitialPool(maxNodes, maxHeads)).list
            == Lists.Some(Lists.ListState([], 0, Lists.Empty))
  {
  }

  /** A concrete case with LIST_MAX_NUM_NODES = 2, starting from the first
      list just created: one append and one remove leave no live node and an
      empty free chain, so the next insert passes the capacity check and
      dereferences the NULL chain head. */
  lemma AppendRemoveEmptiesChain(p: Pool, l: Lists.ListState<int>)
    requires p == Pool(2, 2, 0, 1, 2, 1) && l == Lists.ListState([], 0, Lists.Empty)
    ensures Remove(Append(p, Raw(l), 7).pool, Append(p, Raw(l), 7).header).item == Lists.Some(7)
    ensures Remove(Append(p, Raw(l), 7).pool, Append(p, Raw(l), 7).header).pool.nodeCounter == 0
    ensures Remove(Append(p, Raw(l), 7).pool, Append(p, Raw(l), 7).header).pool.freeNodes == 0
    ensures !NodesFull(Remove(Append(p, Raw(l), 7).pool, Append(p, Raw(l), 7).header).pool)
    ensures Lists.Remove(Lists.Append(p, l, 7).pool, Lists.Append(p, l, 7).list).pool == p
  {
    var a := Append(p, Raw(l), 7);
    assert a.pool == Pool(2, 2, 1, 1, 1, 1);
    assert a.header == Header([7], 1, ListBounded, Lists.Some(0));
  }

  /** List_free never decrements listCounter, so header slots are used up for
      good: with LIST_MAX_NUM_HEADS = 2, once the first list is freed every
      header slot is on the free chain, yet List_create's capacity test
      refuses every further list. */
  lemma FreedHeaderNeverReused(p: Pool, l: Lists.ListState<int>)
    requires p == Pool(2, 2, 0, 1, 2, 1) && l == Lists.ListState([], 0, Lists.Empty)
    ensures Free(p, Raw(l)).pool.freeHeads == 2
    ensures HeadsFull(Free(p, Raw(l)).pool)
    ensures !HeadsFull(Lists.Free(p, l).pool)
  {
  }

  /** List_concat never decrements listCounter either: with
      LIST_MAX_NUM_HEADS = 3 and two live lists, after a concat only one list
      is live, yet List_create's capacity test refuses every further list. */
  lemma ConcatHeaderNeverReused<T>(p: Pool, l1: Lists.ListState<T>, l2: Lists.ListState<T>)
    requires PoolValid(p) && p.maxHeads == 3 && p.listCounter == 2
    requires Lists.Valid(l1) && Lists.Valid(l2) && 0 < |l1.items| && 0 < |l2.items|
    requires |l1.items| + |l2.items| <= p.nodeCounter
    ensures ConcatPool(p).freeHeads == 2
    ensures HeadsFull(ConcatPool(p))
    ensures !HeadsFull(Lists.Concat(p, l1, l2).pool)
  {
  }

  /** List_free on a list whose cursor is out of bounds never enters its
      loop: no item reaches the destructor and no node is returned. */
  lemma FreeOutOfBoundsDestroysNothing<T>(p: Pool, l: Lists.ListState<T>)
    requires Lists.Live(p, l) && (l.cursor.OOBStart? || l.cursor.OOBEnd?)
    ensures Free(p, Raw(l)).destroyed == []
    ensures Free(p, Raw(l)).pool.nodeCounter == p.nodeCounter
    ensures Lists.Free(p, l).destroyed == l.items && 0 < |l.items|
  {
  }
}
