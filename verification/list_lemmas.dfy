/** Properties that relate several list operations: walking the list with the
    cursor, stepping back and forth, and undoing an insertion. */
module ListLemmas {
  import opened Pools
  import opened Seqs
  import opened Lists

  /** The items List_next visits from a bounded cursor until it runs off the end. */
  ghost function WalkForward<T>(l: ListState<T>): seq<T>
    requires Valid(l) && l.cursor.Bounded?
    decreases |l.items| - l.cursor.i
  {
    var m := Next(l);
    [Curr(l)] + (if m.item.Some? then WalkForward(m.list) else [])
  }

  /** The items List_prev visits from a bounded cursor until it runs off the start. */
  ghost function WalkBackward<T>(l: ListState<T>): seq<T>
    requires Valid(l) && l.cursor.Bounded?
    decreases l.cursor.i
  {
    var m := Prev(l);
    [Curr(l)] + (if m.item.Some? then WalkBackward(m.list) else [])
  }

  /** Walking forward from index i visits exactly the items from i on. */
  lemma {:induction false} WalkForwardFromCursor<T>(l: ListState<T>)
    requires Valid(l) && l.cursor.Bounded?
    ensures WalkForward(l) == l.items[l.cursor.i..]
    decreases |l.items| - l.cursor.i
  {
    var m := Next(l);
    if m.item.Some? {
      WalkForwardFromCursor(m.list);
      assert l.items[l.cursor.i..] == [l.items[l.cursor.i]] + l.items[l.cursor.i + 1..];
    }
  }

  /** Walking backward from index i visits the items up to i, last first. */
  lemma {:induction false} WalkBackwardFromCursor<T>(l: ListState<T>)
    requires Valid(l) && l.cursor.Bounded?
    ensures WalkBackward(l) == Reverse(l.items[..l.cursor.i + 1])
    decreases l.cursor.i
  {
    var i := l.cursor.i;
    var m := Prev(l);
    var s := l.items[..i + 1];
    assert Reverse(s) == [s[i]] + Reverse(s[..i]);
    assert s[..i] == l.items[..i];
    if m.item.Some? {
      WalkBackwardFromCursor(m.list);
    } else {
      assert Reverse(s[..i]) == [];
    }
  }

  /** The chain from the first node reaches every item, in order, and as many
      of them as the header's counter says. */
  lemma ForwardWalkCoversList<T>(l: ListState<T>)
    requires Valid(l) && 0 < |l.items|
    ensures WalkForward(First(l).list) == l.items
    ensures |WalkForward(First(l).list)| == Count(l)
  {
    WalkForwardFromCursor(First(l).list);
  }

  /** The chain from the last node back to the first reaches every item, last first. */
  lemma BackwardWalkCoversList<T>(l: ListState<T>)
    requires Valid(l) && 0 < |l.items|
    ensures WalkBackward(Last(l).list) == Reverse(l.items)
    ensures |WalkBackward(Last(l).list)| == Count(l)
  {
    WalkBackwardFromCursor(Last(l).list);
    assert l.items[..|l.items|] == l.items;
  }

  /** List_prev undoes a List_next that stayed on the list. */
  lemma PrevUndoesNext<T>(l: ListState<T>)
    requires Valid(l) && l.cursor.Bounded? && l.cursor.i + 1 < |l.items|
    ensures Prev(Next(l).list) == Moved(l, Some(Curr(l)))
  {
  }

  /** List_next undoes a List_prev that stayed on the list. */
  lemma NextUndoesPrev<T>(l: ListState<T>)
    requires Valid(l) && l.cursor.Bounded? && 0 < l.cursor.i
    ensures Next(Prev(l).list) == Moved(l, Some(Curr(l)))
  {
  }

  /** List_next from the last item goes beyond the end and returns nothing,
      and an insert from there appends. */
  lemma NextOffTheEndThenInsertAppends<T>(p: Pool, l: ListState<T>, x: T)
    requires Live(p, l) && 0 < |l.items| && !NodesFull(p)
    ensures Next(Last(l).list).list.cursor == OOBEnd
    ensures Next(Last(l).list).item == None
    ensures InsertAfter(p, Next(Last(l).list).list, x).list.items == l.items + [x]
  {
  }

  /** Inserting after the cursor and removing the new current item gives the
      items, the counter and the pool back, and returns the inserted item. */
  lemma InsertAfterThenRemove<T>(p: Pool, l: ListState<T>, x: T)
    requires Live(p, l) && !NodesFull(p)
    ensures Curr(InsertAfter(p, l, x).list) == x
    ensures Remove(InsertAfter(p, l, x).pool, InsertAfter(p, l, x).list).item == Some(x)
    ensures Remove(InsertAfter(p, l, x).pool, InsertAfter(p, l, x).list).list.items == l.items
    ensures Remove(InsertAfter(p, l, x).pool, InsertAfter(p, l, x).list).list.counter == l.counter
    ensures Remove(InsertAfter(p, l, x).pool, InsertAfter(p, l, x).list).pool == p
  {
    var a := InsertAfter(p, l, x);
    var k := a.list.cursor.i;
    assert a.list.items == InsertAt(l.items, k, x);
    DeleteInsert(l.items, k, x);
  }

  /** Inserting before a bounded cursor and removing the new item restores the
      list exactly, cursor included: the removal moves the cursor to the
      successor, which is the old current item. */
  lemma InsertBeforeThenRemove<T>(p: Pool, l: ListState<T>, x: T)
    requires Live(p, l) && !NodesFull(p) && l.cursor.Bounded?
    ensures Remove(InsertBefore(p, l, x).pool, InsertBefore(p, l, x).list)
            == Removed(p, l, Some(x))
  {
    var a := InsertBefore(p, l, x);
    var i := l.cursor.i;
    assert a.list.items == InsertAt(l.items, i, x);
    DeleteInsert(l.items, i, x);
  }

  /** Appending and then taking the current item out hands back the appended
      item and restores the counter, the items and the pool. */
  lemma AppendThenRemove<T>(p: Pool, l: ListState<T>, x: T)
    requires Live(p, l) && !NodesFull(p)
    ensures Curr(Append(p, l, x).list) == x
    ensures Remove(Append(p, l, x).pool, Append(p, l, x).list).item == Some(x)
    ensures Remove(Append(p, l, x).pool, Append(p, l, x).list).list.items == l.items
    ensures Count(Remove(Append(p, l, x).pool, Append(p, l, x).list).list) == Count(l)
    ensures Remove(Append(p, l, x).pool, Append(p, l, x).list).pool == p
  {
    var a := Append(p, l, x);
    assert a.list.items[..|l.items|] == l.items;
  }

  /** Trimming right after an append takes the appended item off again. */
  lemma AppendThenTrim<T>(p: Pool, l: ListState<T>, x: T)
    requires Live(p, l) && !NodesFull(p)
    ensures Trim(Append(p, l, x).pool, Append(p, l, x).list).item == Some(x)
    ensures Trim(Append(p, l, x).pool, Append(p, l, x).list).list.items == l.items
    ensures Trim(Append(p, l, x).pool, Append(p, l, x).list).pool == p
  {
    var a := Append(p, l, x);
    assert a.list.items[..|l.items|] == l.items;
  }

  /** Removing right after a prepend takes the prepended item off again and
      leaves the cursor on the old first item. */
  lemma PrependThenRemove<T>(p: Pool, l: ListState<T>, x: T)
    requires Live(p, l) && !NodesFull(p)
    ensures Remove(Prepend(p, l, x).pool, Prepend(p, l, x).list).item == Some(x)
    ensures Remove(Prepend(p, l, x).pool, Prepend(p, l, x).list).list.items == l.items
    ensures Remove(Prepend(p, l, x).pool, Prepend(p, l, x).list).pool == p
    ensures 0 < |l.items| ==>
      Remove(Prepend(p, l, x).pool, Prepend(p, l, x).list).list.cursor == Bounded(0)
  {
    var a := Prepend(p, l, x);
    assert a.list.items[1..] == l.items;
  }

  /** Creating a list and freeing it at once destroys nothing and leaves the
      pools as they were. */
  lemma CreateThenFree<T>(p: Pool)
    requires PoolValid(p) && !HeadsFull(p)
    ensures Create<T>(p).list.Some?
    ensures Free(Create<T>(p).pool, Create<T>(p).list.value).destroyed == []
    ensures Free(Create<T>(p).pool, Create<T>(p).list.value).pool == p
  {
  }

  /** Concatenation keeps every item of both lists, first those of l1, and a
      walk from the first node of the result sees all of them. */
  lemma ConcatWalk<T>(p: Pool, l1: ListState<T>, l2: ListState<T>)
    requires PoolValid(p) && Valid(l1) && Valid(l2)
    requires 0 < |l1.items| && 0 < |l2.items|
    requires |l1.items| + |l2.items| <= p.nodeCounter && 2 <= p.listCounter
    ensures WalkForward(First(Concat(p, l1, l2).list).list) == l1.items + l2.items
  {
    ForwardWalkCoversList(Concat(p, l1, l2).list);
  }
}
