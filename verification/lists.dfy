/** The list ADT of list.c, stated at the level of its header comments.

    A list is its items first-to-last, the header's `counter`, and a cursor
    that folds the source's `bound_status` and `current` into one value.
    Each operation is a pure function from the pool state and the list(s) it
    touches to the new pool state, the new list and the operation's result.
    Where the code departs from its header comment, this module follows the
    comment; module AsWritten models the code as written. */
module Lists {
  import opened Pools
  import opened Seqs

  /** An item pointer, or the NULL the source returns for "no item". */
  datatype Option<T> = None | Some(value: T)

  /** LIST_SUCCESS (0) and LIST_FAIL (-1) of the insert family. */
  datatype Status = Success | Fail

  /** LIST_EMPTY, LIST_BOUNDED with `current` at index i, LIST_OOB_START, LIST_OOB_END. */
  datatype Cursor = Empty | Bounded(i: nat) | OOBStart | OOBEnd

  /** One live list header. */
  datatype ListState<T> = ListState(items: seq<T>, counter: nat, cursor: Cursor)

  /** The representation invariant: the counter is the length, the status is
      EMPTY exactly when there are no items, and a bounded cursor is on an item. */
  predicate Valid<T>(l: ListState<T>) {
    && l.counter == |l.items|
    && (l.cursor.Empty? <==> |l.items| == 0)
    && (l.cursor.Bounded? ==> l.cursor.i < |l.items|)
  }

  /** l is a live list of a well-formed pool: its header and its nodes are
      among those the pool counts as in use. */
  predicate Live<T>(p: Pool, l: ListState<T>) {
    && PoolValid(p)
    && Valid(l)
    && |l.items| <= p.nodeCounter
    && 1 <= p.listCounter
  }

  datatype Created<T> = Created(pool: Pool, list: Option<ListState<T>>)
  datatype Moved<T> = Moved(list: ListState<T>, item: Option<T>)
  datatype Inserted<T> = Inserted(pool: Pool, list: ListState<T>, status: Status)
  datatype Removed<T> = Removed(pool: Pool, list: ListState<T>, item: Option<T>)
  datatype Joined<T> = Joined(pool: Pool, list: ListState<T>)
  datatype Freed<T> = Freed(pool: Pool, destroyed: seq<T>)

  /** List_create: no list once listCounter has reached LIST_MAX_NUM_HEADS-1;
      otherwise a fresh empty header taken from the header free chain. */
  function Create<T>(p: Pool): (r: Created<T>)
    requires PoolValid(p)
    ensures PoolValid(r.pool)
    ensures HeadsFull(p) <==> r.list.None?
    ensures r.list.None? ==> r.pool == p
    ensures r.list.Some? ==>
      && Live(r.pool, r.list.value)
      && r.list.value.items == []
      && r.list.value.counter == 0
      && r.list.value.cursor == Empty
      && r.pool == TakeHead(p)
  {
    if HeadsFull(p) then Created(p, None)
    else Created(TakeHead(p), Some(ListState([], 0, Empty)))
  }

  /** List_count. */
  function Count<T>(l: ListState<T>): (r: nat)
    requires Valid(l)
    ensures r == |l.items|
  {
    l.counter
  }

  /** List_first: nothing on an empty list; otherwise the cursor goes to the
      first item, which is returned. */
  function First<T>(l: ListState<T>): (r: Moved<T>)
    requires Valid(l)
    ensures Valid(r.list) && r.list.items == l.items && r.list.counter == l.counter
    ensures |l.items| == 0 ==> r == Moved(l, None)
    ensures |l.items| > 0 ==> r.list.cursor == Bounded(0) && r.item == Some(l.items[0])
  {
    if l.cursor.Empty? then Moved(l, None)
    else Moved(l.(cursor := Bounded(0)), Some(l.items[0]))
  }

  /** List_last: nothing on an empty list; otherwise the cursor goes to the
      last item, which is returned. */
  function Last<T>(l: ListState<T>): (r: Moved<T>)
    requires Valid(l)
    ensures Valid(r.list) && r.list.items == l.items && r.list.counter == l.counter
    ensures |l.items| == 0 ==> r == Moved(l, None)
    ensures |l.items| > 0 ==>
      r.list.cursor == Bounded(|l.items| - 1) && r.item == Some(l.items[|l.items| - 1])
  {
    if l.cursor.Empty? then Moved(l, None)
    else
      var last := l.counter - 1;
      Moved(l.(cursor := Bounded(last)), Some(l.items[last]))
  }

  /** List_next: one step towards the end; stepping off the last item leaves
      the cursor beyond the end and returns nothing. The source dereferences the
      cursor, so it must be on an item. */
  function Next<T>(l: ListState<T>): (r: Moved<T>)
    requires Valid(l) && l.cursor.Bounded?
    ensures Valid(r.list) && r.list.items == l.items && r.list.counter == l.counter
    ensures l.cursor.i + 1 < |l.items| ==>
      r.list.cursor == Bounded(l.cursor.i + 1) && r.item == Some(l.items[l.cursor.i + 1])
    ensures l.cursor.i + 1 == |l.items| ==> r.list.cursor == OOBEnd && r.item == None
  {
    var j := l.cursor.i + 1;
    if j == |l.items| then Moved(l.(cursor := OOBEnd), None)
    else Moved(l.(cursor := Bounded(j)), Some(l.items[j]))
  }

  /** List_prev: one step towards the start; stepping off the first item
      leaves the cursor before the start and returns nothing. */
  function Prev<T>(l: ListState<T>): (r: Moved<T>)
    requires Valid(l) && l.cursor.Bounded?
    ensures Valid(r.list) && r.list.items == l.items && r.list.counter == l.counter
    ensures 0 < l.cursor.i ==>
      r.list.cursor == Bounded(l.cursor.i - 1) && r.item == Some(l.items[l.cursor.i - 1])
    ensures l.cursor.i == 0 ==> r.list.cursor == OOBStart && r.item == None
  {
    if l.cursor.i == 0 then Moved(l.(cursor := OOBStart), None)
    else Moved(l.(cursor := Bounded(l.cursor.i - 1)), Some(l.items[l.cursor.i - 1]))
  }

  /** List_curr: the item under a bounded cursor. */
  function Curr<T>(l: ListState<T>): (r: T)
    requires Valid(l) && l.cursor.Bounded?
    ensures r in l.items
  {
    l.items[l.cursor.i]
  }

  /** The index at which an insert after the cursor places its item. */
  function AfterIndex(c: Cursor, n: nat): nat {
    match c
    case Empty => 0
    case OOBStart => 0
    case OOBEnd => n
    case Bounded(i) => i + 1
  }

  /** List_insert_after: fails and changes nothing once nodeCounter has
      reached LIST_MAX_NUM_NODES-1. Otherwise x goes after the cursor (at the
      start when before the start, at the end when beyond the end), becomes
      current, and one node moves from the free chain to the list. */
  function InsertAfter<T>(p: Pool, l: ListState<T>, x: T): (r: Inserted<T>)
    requires Live(p, l)
    ensures Live(r.pool, r.list)
    ensures NodesFull(p) <==> r.status == Fail
    ensures r.status == Fail ==> r.pool == p && r.list == l
    ensures r.status == Success ==>
      && r.pool == TakeNode(p)
      && r.list.counter == l.counter + 1
      && (l.cursor.Empty? ==> r.list.items == [x] && r.list.cursor == Bounded(0))
      && (l.cursor.OOBStart? ==> r.list.items == [x] + l.items && r.list.cursor == Bounded(0))
      && (l.cursor.OOBEnd? ==>
            r.list.items == l.items + [x] && r.list.cursor == Bounded(|l.items|))
      && (l.cursor.Bounded? ==>
            && r.list.items == l.items[..l.cursor.i + 1] + [x] + l.items[l.cursor.i + 1..]
            && r.list.cursor == Bounded(l.cursor.i + 1))
  {
    if NodesFull(p) then Inserted(p, l, Fail)
    else
      var k := AfterIndex(l.cursor, |l.items|);
      Inserted(TakeNode(p), ListState(InsertAt(l.items, k, x), l.counter + 1, Bounded(k)), Success)
  }

  /** List_insert_before: step the bounded cursor back, then insert after it,
      so x lands immediately before the old current item; out of bounds it
      goes to the matching end. Failure is reported and changes nothing. */
  function InsertBefore<T>(p: Pool, l: ListState<T>, x: T): (r: Inserted<T>)
    requires Live(p, l)
    ensures Live(r.pool, r.list)
    ensures NodesFull(p) <==> r.status == Fail
    ensures r.status == Fail ==> r.pool == p && r.list == l
    ensures r.status == Success ==>
      && r.pool == TakeNode(p)
      && r.list.counter == l.counter + 1
      && (l.cursor.Empty? ==> r.list.items == [x] && r.list.cursor == Bounded(0))
      && (l.cursor.OOBStart? ==> r.list.items == [x] + l.items && r.list.cursor == Bounded(0))
      && (l.cursor.OOBEnd? ==>
            r.list.items == l.items + [x] && r.list.cursor == Bounded(|l.items|))
      && (l.cursor.Bounded? ==>
            && r.list.items == l.items[..l.cursor.i] + [x] + l.items[l.cursor.i..]
            && r.list.cursor == Bounded(l.cursor.i))
  {
    if NodesFull(p) then Inserted(p, l, Fail)
    else if l.cursor.Bounded? then InsertAfter(p, Prev(l).list, x)
    else InsertAfter(p, l, x)
  }

  /** List_append: x becomes the last item and the current one. */
  function Append<T>(p: Pool, l: ListState<T>, x: T): (r: Inserted<T>)
    requires Live(p, l)
    ensures Live(r.pool, r.list)
    ensures NodesFull(p) <==> r.status == Fail
    ensures r.status == Fail ==> r.pool == p && r.list == l
    ensures r.status == Success ==>
      && r.pool == TakeNode(p)
      && r.list.items == l.items + [x]
      && r.list.counter == l.counter + 1
      && r.list.cursor == Bounded(|l.items|)
  {
    if NodesFull(p) then Inserted(p, l, Fail)
    else InsertAfter(p, Last(l).list, x)
  }

  /** List_prepend: x becomes the first item and the current one. */
  function Prepend<T>(p: Pool, l: ListState<T>, x: T): (r: Inserted<T>)
    requires Live(p, l)
    ensures Live(r.pool, r.list)
    ensures NodesFull(p) <==> r.status == Fail
    ensures r.status == Fail ==> r.pool == p && r.list == l
    ensures r.status == Success ==>
      && r.pool == TakeNode(p)
      && r.list.items == [x] + l.items
      && r.list.counter == l.counter + 1
      && r.list.cursor == Bounded(0)
  {
    if NodesFull(p) then Inserted(p, l, Fail)
    else InsertBefore(p, First(l).list, x)
  }

  /** List_remove with the release of the commented-out call at list.c:364, and
      List_remove_exclude_item, which differs from that only in not clearing
      the vacated slot's item field: nothing unless the cursor is on an
      item; otherwise that item is returned and taken out, the cursor moves to
      its successor, or to the new last item when the last was removed, and the
      node goes back to the free chain. */
  function Remove<T>(p: Pool, l: ListState<T>): (r: Removed<T>)
    requires Live(p, l)
    ensures Live(r.pool, r.list)
    ensures !l.cursor.Bounded? ==> r == Removed(p, l, None)
    ensures r.list.cursor.OOBStart? ==> l.cursor.OOBStart?
    ensures r.list.cursor.OOBEnd? ==> l.cursor.OOBEnd?
    ensures l.cursor.Bounded? ==>
      && r.item == Some(l.items[l.cursor.i])
      && r.list.items == l.items[..l.cursor.i] + l.items[l.cursor.i + 1..]
      && r.list.counter + 1 == l.counter
      && (l.cursor.i + 1 < |l.items| ==> r.list.cursor == Bounded(l.cursor.i))
      && (0 < l.cursor.i == |l.items| - 1 ==> r.list.cursor == Bounded(l.cursor.i - 1))
      && (|l.items| == 1 ==> r.list.cursor == Empty)
      && r.pool == ReturnNodes(p, 1)
  {
    if !l.cursor.Bounded? then Removed(p, l, None)
    else
      var i := l.cursor.i;
      var n := l.counter;
      var cursor :=
        if n == 1 then Empty
        else if i == 0 then Bounded(0)       // the old second node becomes first and current
        else if i == n - 1 then Bounded(i - 1)  // List_prev onto the new last node
        else Bounded(i);                     // List_next onto the successor
      Removed(ReturnNodes(p, 1), ListState(DeleteAt(l.items, i), n - 1, cursor), Some(l.items[i]))
  }

  /** List_trim: nothing on an empty list; otherwise the last item is taken
      out and returned, and the new last item becomes current. */
  function Trim<T>(p: Pool, l: ListState<T>): (r: Removed<T>)
    requires Live(p, l)
    ensures Live(r.pool, r.list)
    ensures |l.items| == 0 ==> r == Removed(p, l, None)
    ensures |l.items| > 0 ==>
      && r.item == Some(l.items[|l.items| - 1])
      && r.list.items == l.items[..|l.items| - 1]
      && r.list.counter + 1 == l.counter
      && (|l.items| > 1 ==> r.list.cursor == Bounded(|l.items| - 2))
      && r.pool == ReturnNodes(p, 1)
  {
    if l.cursor.Empty? then Removed(p, l, None)
    else Remove(p, Last(l).list)
  }

  /** List_concat: l2's items follow l1's, the counters add up, l1's cursor
      stays where it was, and l2's header goes back to the header free chain.
      The source dereferences l1's last and l2's first node, so neither may be
      empty; l1 and l2 must be two distinct live lists. */
  function Concat<T>(p: Pool, l1: ListState<T>, l2: ListState<T>): (r: Joined<T>)
    requires PoolValid(p) && Valid(l1) && Valid(l2)
    requires 0 < |l1.items| && 0 < |l2.items|
    requires |l1.items| + |l2.items| <= p.nodeCounter && 2 <= p.listCounter
    ensures Live(r.pool, r.list)
    ensures r.list.items == l1.items + l2.items
    ensures Count(r.list) == Count(l1) + Count(l2)
    ensures r.list.cursor == l1.cursor
    ensures r.pool == ReturnHead(p)
  {
    Joined(ReturnHead(p), ListState(l1.items + l2.items, l1.counter + l2.counter, l1.cursor))
  }

  /** The order in which List_free hands items to the destructor. Removing the
      current item moves the cursor to its successor until the last item has
      gone, then to the new last item; so from index i the items from i on
      come first, then the ones before i, last first. */
  function DestroyOrder<T>(l: ListState<T>): seq<T>
    requires Valid(l)
  {
    match l.cursor
    case Bounded(i) => l.items[i..] + Reverse(l.items[..i])
    case _ => l.items
  }

  /** Removing from the middle: the items after i now start at i. */
  lemma DestroyOrderMiddle<T>(s: seq<T>, i: nat)
    requires i + 1 < |s|
    ensures s[i..] + Reverse(s[..i]) == [s[i]] + (DeleteAt(s, i)[i..] + Reverse(DeleteAt(s, i)[..i]))
  {
    var t := DeleteAt(s, i);
    assert s[i..] == [s[i]] + s[i + 1..];
  }

  /** Removing the last item: the cursor moves back onto the new last one. */
  lemma DestroyOrderLast<T>(s: seq<T>, i: nat)
    requires 0 < i && i + 1 == |s|
    ensures s[i..] + Reverse(s[..i]) == [s[i]] + (DeleteAt(s, i)[i - 1..] + Reverse(DeleteAt(s, i)[..i - 1]))
  {
    var t := DeleteAt(s, i);
    assert t == s[..i];
    assert s[i..] == [s[i]];
    assert Reverse(t) == [t[i - 1]] + Reverse(t[..i - 1]);
    assert t[i - 1..] == [t[i - 1]];
  }

  /** One turn of the List_free loop peels the current item off DestroyOrder. */
  lemma DestroyOrderStep<T>(p: Pool, l: ListState<T>)
    requires Live(p, l) && l.cursor.Bounded?
    ensures DestroyOrder(l) == [l.items[l.cursor.i]] + DestroyOrder(Remove(p, l).list)
  {
    var i, s := l.cursor.i, l.items;
    var l' := Remove(p, l).list;
    assert l'.items == DeleteAt(s, i);
    if |s| == 1 {
      assert s[..i] == [];
    } else if i + 1 < |s| {
      DestroyOrderMiddle(s, i);
    } else {
      DestroyOrderLast(s, i);
    }
  }

  /** The loop of List_free: while the cursor is on an item, hand that item
      to the destructor and unlink it, returning its node to the free chain. */
  function DestroyLoop<T>(p: Pool, l: ListState<T>): (r: Freed<T>)
    requires Live(p, l) && !l.cursor.OOBStart? && !l.cursor.OOBEnd?
    ensures r.destroyed == DestroyOrder(l)
    ensures r.pool == ReturnNodes(p, |l.items|)
    decreases |l.items|
  {
    if !l.cursor.Bounded? then Freed(p, [])
    else
      var item := Curr(l);
      var rm := Remove(p, l);
      DestroyOrderStep(p, l);
      ReturnNodesTwice(p, 1, |rm.list.items|);
      var rest := DestroyLoop(rm.pool, rm.list);
      Freed(rest.pool, [item] + rest.destroyed)
  }

  /** DestroyOrder hands every item over exactly once. */
  lemma DestroyOrderPermutation<T>(l: ListState<T>)
    requires Valid(l)
    ensures multiset(DestroyOrder(l)) == multiset(l.items)
  {
    if l.cursor.Bounded? {
      var i := l.cursor.i;
      ReverseMultiset(l.items[..i]);
      assert l.items == l.items[..i] + l.items[i..];
    }
  }

  /** List_free: the destructor is applied exactly once to every item, every
      node returns to the node free chain and the header to the header free
      chain. A cursor that is out of bounds is first put back on the first item. */
  function Free<T>(p: Pool, l: ListState<T>): (r: Freed<T>)
    requires Live(p, l)
    ensures PoolValid(r.pool)
    ensures multiset(r.destroyed) == multiset(l.items)
    ensures l.cursor.Bounded? ==>
      r.destroyed == l.items[l.cursor.i..] + Reverse(l.items[..l.cursor.i])
    ensures !l.cursor.Bounded? ==> r.destroyed == l.items
    ensures r.pool == ReturnHead(ReturnNodes(p, |l.items|))
  {
    var start := if l.cursor.OOBStart? || l.cursor.OOBEnd? then l.(cursor := Bounded(0)) else l;
    var d := DestroyLoop(p, start);
    DestroyOrderPermutation(start);
    assert !l.cursor.Bounded? ==> d.destroyed == l.items by {
      if !l.cursor.Bounded? && start.cursor.Bounded? {
        assert l.items[..0] == [] && l.items[0..] == l.items;
      }
    }
    Freed(ReturnHead(d.pool), d.destroyed)
  }

  /** Where List_search starts: the cursor's index, or the end when the
      cursor is already beyond it. */
  function SearchStart<T>(l: ListState<T>): nat
    requires Valid(l)
  {
    if l.cursor.Bounded? then l.cursor.i else |l.items|
  }

  /** List_search: from the cursor towards the end, stop at the first item
      the comparator accepts and return it; with no such item the cursor ends
      beyond the end and nothing is returned. The source dereferences the
      cursor on entry unless it is already beyond the end. */
  method Search<T, A>(l: ListState<T>, matches: (T, A) -> bool, arg: A) returns (r: Moved<T>)
    requires Valid(l) && (l.cursor.Bounded? || l.cursor.OOBEnd?)
    ensures Valid(r.list) && r.list.items == l.items && r.list.counter == l.counter
    ensures r.item.Some? <==> r.list.cursor.Bounded?
    ensures r.item.Some? ==>
      && SearchStart(l) <= r.list.cursor.i
      && r.item.value == l.items[r.list.cursor.i]
      && matches(r.item.value, arg)
      && forall j :: SearchStart(l) <= j < r.list.cursor.i ==> !matches(l.items[j], arg)
    ensures r.item.None? ==>
      && r.list.cursor == OOBEnd
      && forall j :: SearchStart(l) <= j < |l.items| ==> !matches(l.items[j], arg)
  {
    var cur := l;
    while !cur.cursor.OOBEnd?
      invariant Valid(cur) && cur.items == l.items && cur.counter == l.counter
      invariant cur.cursor.Bounded? || cur.cursor.OOBEnd?
      invariant cur.cursor.Bounded? ==>
        && SearchStart(l) <= cur.cursor.i
        && forall j :: SearchStart(l) <= j < cur.cursor.i ==> !matches(l.items[j], arg)
      invariant cur.cursor.OOBEnd? ==>
        forall j :: SearchStart(l) <= j < |l.items| ==> !matches(l.items[j], arg)
      decreases |l.items| - SearchStart(cur)
    {
      var item := Curr(cur);
      if matches(item, arg) {
        return Moved(cur, Some(item));
      }
      cur := Next(cur).list;
    }
    r := Moved(cur, None);
  }
}
