/** The whole process state: the two shared pools and every live list.

    list.c keeps one pool of nodes and one of headers for all lists. The
    accounting invariant says that listCounter is the number of live lists
    and nodeCounter the number of items they hold between them; together with
    PoolValid this puts every slot either on its free chain or in exactly one
    live list. The operations below apply a list operation to one live list and
    leave every other list as it was. */
module Accounting {
  import opened Pools
  import opened Lists

  datatype World<T> = World(pool: Pool, lists: seq<ListState<T>>)

  /** Which insert of list.c to apply. */
  datatype InsertKind = After | Before | AtEnd | AtStart

  datatype InsertedIn<T> = InsertedIn(world: World<T>, status: Status)
  datatype RemovedIn<T> = RemovedIn(world: World<T>, item: Option<T>)
  datatype FreedIn<T> = FreedIn(world: World<T>, destroyed: seq<T>)

  /** The number of items held by all the lists together. */
  function TotalItems<T>(ls: seq<ListState<T>>): nat {
    if |ls| == 0 then 0 else TotalItems(ls[..|ls| - 1]) + |ls[|ls| - 1].items|
  }

  predicate Consistent<T>(w: World<T>) {
    && PoolValid(w.pool)
    && w.pool.listCounter == |w.lists|
    && w.pool.nodeCounter == TotalItems(w.lists)
    && forall k :: 0 <= k < |w.lists| ==> Valid(w.lists[k])
  }

  lemma {:induction false} TotalItemsConcat<T>(a: seq<ListState<T>>, b: seq<ListState<T>>)
    ensures TotalItems(a + b) == TotalItems(a) + TotalItems(b)
    decreases |b|
  {
    if |b| > 0 {
      assert (a + b)[..|a + b| - 1] == a + b[..|b| - 1];
      TotalItemsConcat(a, b[..|b| - 1]);
    } else {
      assert a + b == a;
    }
  }

  /** Splitting the lists around index k. */
  lemma TotalItemsSplit<T>(ls: seq<ListState<T>>, k: nat)
    requires k < |ls|
    ensures TotalItems(ls) == TotalItems(ls[..k]) + |ls[k].items| + TotalItems(ls[k + 1..])
  {
    assert ls == ls[..k] + [ls[k]] + ls[k + 1..];
    TotalItemsConcat(ls[..k] + [ls[k]], ls[k + 1..]);
    TotalItemsConcat(ls[..k], [ls[k]]);
    assert TotalItems([ls[k]]) == |ls[k].items| by {
      assert [ls[k]][..0] == [];
    }
  }

  /** Replacing list k changes the total by the difference in its length. */
  lemma TotalItemsUpdate<T>(ls: seq<ListState<T>>, k: nat, l: ListState<T>)
    requires k < |ls|
    ensures TotalItems(ls[k := l]) + |ls[k].items| == TotalItems(ls) + |l.items|
  {
    TotalItemsSplit(ls, k);
    TotalItemsSplit(ls[k := l], k);
    assert ls[k := l][..k] == ls[..k];
    assert ls[k := l][k + 1..] == ls[k + 1..];
  }

  /** Dropping list k takes its items out of the total. */
  lemma TotalItemsDelete<T>(ls: seq<ListState<T>>, k: nat)
    requires k < |ls|
    ensures TotalItems(ls[..k] + ls[k + 1..]) + |ls[k].items| == TotalItems(ls)
  {
    TotalItemsSplit(ls, k);
    TotalItemsConcat(ls[..k], ls[k + 1..]);
  }

  /** Dropping one list keeps the others well formed. */
  lemma AllValidDelete<T>(ls: seq<ListState<T>>, k: nat, rest: seq<ListState<T>>)
    requires k < |ls| && rest == ls[..k] + ls[k + 1..]
    requires forall i :: 0 <= i < |ls| ==> Valid(ls[i])
    ensures forall i :: 0 <= i < |rest| ==> Valid(rest[i])
  {
    forall i | 0 <= i < |rest|
      ensures Valid(rest[i])
    {
      if i < k { assert rest[i] == ls[i]; } else { assert rest[i] == ls[i + 1]; }
    }
  }

  /** Dropping list k moves every later list down one place. */
  lemma DeleteShifts<T>(ls: seq<ListState<T>>, k: nat, rest: seq<ListState<T>>)
    requires k < |ls| && rest == ls[..k] + ls[k + 1..]
    ensures forall m :: 0 <= m < |ls| && m != k ==> rest[if m < k then m else m - 1] == ls[m]
  {
  }

  /** In a consistent world every list is live with respect to the shared pool. */
  lemma ConsistentLive<T>(w: World<T>, k: nat)
    requires Consistent(w) && k < |w.lists|
    ensures Live(w.pool, w.lists[k])
  {
    TotalItemsSplit(w.lists, k);
  }

  /** Two distinct lists of a consistent world hold no more items than the pool counts. */
  lemma ConsistentPair<T>(w: World<T>, j: nat, k: nat)
    requires Consistent(w) && j < |w.lists| && k < |w.lists| && j != k
    ensures |w.lists[j].items| + |w.lists[k].items| <= w.pool.nodeCounter
  {
    var ls := w.lists;
    var lo, hi := if j < k then j else k, if j < k then k else j;
    TotalItemsSplit(ls, hi);
    TotalItemsSplit(ls[..hi], lo);
  }

  /** The process before any list exists. */
  function InitialWorld<T>(maxNodes: nat, maxHeads: nat): (w: World<T>)
    requires 1 <= maxNodes && 1 <= maxHeads
    ensures Consistent(w) && w.lists == []
  {
    World(InitialPool(maxNodes, maxHeads), [])
  }

  /** List_create on the whole process: a new list joins the live ones unless
      the header pool is at its limit. */
  function CreateIn<T>(w: World<T>): (r: World<T>)
    requires Consistent(w)
    ensures Consistent(r)
    ensures HeadsFull(w.pool) ==> r == w
    ensures !HeadsFull(w.pool) ==> r.lists == w.lists + [ListState([], 0, Empty)]
    ensures SameCapacity(r.pool, w.pool)
  {
    var c := Create<T>(w.pool);
    if c.list.None? then w
    else
      var ls := w.lists + [c.list.value];
      assert ls[..|ls| - 1] == w.lists;
      World(c.pool, ls)
  }

  function ApplyInsert<T>(kind: InsertKind, p: Pool, l: ListState<T>, x: T): (r: Inserted<T>)
    requires Live(p, l)
    ensures Live(r.pool, r.list)
    ensures NodesFull(p) <==> r.status == Fail
    ensures r.status == Fail ==> r.pool == p && r.list == l
    ensures r.status == Success ==>
      r.pool.nodeCounter == p.nodeCounter + 1 && |r.list.items| == |l.items| + 1
      && r.pool.listCounter == p.listCounter
  {
    match kind
    case After => InsertAfter(p, l, x)
    case Before => InsertBefore(p, l, x)
    case AtEnd => Append(p, l, x)
    case AtStart => Prepend(p, l, x)
  }

  /** An insert into list k: list k changes as the insert says, every other
      list stays as it was, and the accounting still holds. */
  function InsertIn<T>(w: World<T>, k: nat, kind: InsertKind, x: T): (r: InsertedIn<T>)
    requires Consistent(w) && k < |w.lists|
    ensures Consistent(r.world)
    ensures |r.world.lists| == |w.lists|
    ensures forall j :: 0 <= j < |w.lists| && j != k ==> r.world.lists[j] == w.lists[j]
    ensures r.status == Fail ==> r.world == w
    ensures Live(w.pool, w.lists[k])
      && r.world.lists[k] == ApplyInsert(kind, w.pool, w.lists[k], x).list
    ensures SameCapacity(r.world.pool, w.pool)
    ensures r.status == Fail <==> NodesFull(w.pool)
  {
    ConsistentLive(w, k);
    var a := ApplyInsert(kind, w.pool, w.lists[k], x);
    TotalItemsUpdate(w.lists, k, a.list);
    if a.status == Fail then
      assert w.lists[k := a.list] == w.lists;
      InsertedIn(w, Fail)
    else
      InsertedIn(World(a.pool, w.lists[k := a.list]), Success)
  }

  /** List_remove, or List_trim when trim is set. */
  function ApplyTake<T>(trim: bool, p: Pool, l: ListState<T>): (r: Removed<T>)
    requires Live(p, l)
    ensures Live(r.pool, r.list)
    ensures r.item.None? ==> r.pool == p && r.list == l
    ensures r.item.Some? ==>
      r.pool.nodeCounter + 1 == p.nodeCounter && |r.list.items| + 1 == |l.items|
      && r.pool.listCounter == p.listCounter
  {
    if trim then Trim(p, l) else Remove(p, l)
  }

  /** List_remove (or List_trim, when trim is set) on list k. */
  function RemoveIn<T>(w: World<T>, k: nat, trim: bool): (r: RemovedIn<T>)
    requires Consistent(w) && k < |w.lists|
    ensures Consistent(r.world)
    ensures |r.world.lists| == |w.lists|
    ensures forall j :: 0 <= j < |w.lists| && j != k ==> r.world.lists[j] == w.lists[j]
    ensures r.item.None? ==> r.world == w
    ensures r.item.Some? ==> r.world.pool.nodeCounter + 1 == w.pool.nodeCounter
    ensures Live(w.pool, w.lists[k])
    ensures r.world.lists[k] == ApplyTake(trim, w.pool, w.lists[k]).list
    ensures r.item == ApplyTake(trim, w.pool, w.lists[k]).item
    ensures SameCapacity(r.world.pool, w.pool)
  {
    ConsistentLive(w, k);
    var d := ApplyTake(trim, w.pool, w.lists[k]);
    TotalItemsUpdate(w.lists, k, d.list);
    if d.item.None? then
      assert w.lists[k := d.list] == w.lists;
      RemovedIn(w, None)
    else
      RemovedIn(World(d.pool, w.lists[k := d.list]), d.item)
  }

  /** The lists after list j is replaced by the joined list and list k is
      dropped. */
  function Absorb<T>(ls: seq<ListState<T>>, j: nat, k: nat, joined: ListState<T>): (r: seq<ListState<T>>)
    requires j < |ls| && k < |ls| && j != k
    ensures |r| + 1 == |ls|
  {
    ls[j := joined][..k] + ls[j := joined][k + 1..]
  }

  /** After Absorb the joined list replaces j and every list but j and k is
      where it was, moved down one place when it came after k. */
  lemma AbsorbFrame<T>(ls: seq<ListState<T>>, j: nat, k: nat, joined: ListState<T>)
    requires j < |ls| && k < |ls| && j != k
    ensures Absorb(ls, j, k, joined)[if j < k then j else j - 1] == joined
    ensures forall m :: 0 <= m < |ls| && m != j && m != k ==>
      Absorb(ls, j, k, joined)[if m < k then m else m - 1] == ls[m]
  {
    DeleteShifts(ls[j := joined], k, Absorb(ls, j, k, joined));
  }

  /** Absorb swaps lists j and k for the joined list in the total. */
  lemma AbsorbTotal<T>(ls: seq<ListState<T>>, j: nat, k: nat, joined: ListState<T>)
    requires j < |ls| && k < |ls| && j != k
    ensures TotalItems(Absorb(ls, j, k, joined)) + |ls[j].items| + |ls[k].items|
            == TotalItems(ls) + |joined.items|
  {
    TotalItemsUpdate(ls, j, joined);
    TotalItemsDelete(ls[j := joined], k);
  }

  /** Absorb keeps every list well formed when the joined one is. */
  lemma AbsorbValid<T>(ls: seq<ListState<T>>, j: nat, k: nat, joined: ListState<T>)
    requires j < |ls| && k < |ls| && j != k
    requires (forall i :: 0 <= i < |ls| ==> Valid(ls[i])) && Valid(joined)
    ensures forall i :: 0 <= i < |Absorb(ls, j, k, joined)| ==> Valid(Absorb(ls, j, k, joined)[i])
  {
    var ls' := ls[j := joined];
    assert forall i :: 0 <= i < |ls'| ==> Valid(ls'[i]);
    AllValidDelete(ls', k, Absorb(ls, j, k, joined));
  }

  /** List_concat of lists j and k: list j receives k's items and list k is
      no longer live. */
  function ConcatIn<T>(w: World<T>, j: nat, k: nat): (r: World<T>)
    requires Consistent(w) && j < |w.lists| && k < |w.lists| && j != k
    requires 0 < |w.lists[j].items| && 0 < |w.lists[k].items|
    ensures Consistent(r)
    ensures |r.lists| + 1 == |w.lists|
    ensures TotalItems(r.lists) == TotalItems(w.lists)
    ensures r.lists[if j < k then j else j - 1].items == w.lists[j].items + w.lists[k].items
    ensures r.lists[if j < k then j else j - 1].cursor == w.lists[j].cursor
    ensures forall m :: 0 <= m < |w.lists| && m != j && m != k ==>
      r.lists[if m < k then m else m - 1] == w.lists[m]
    ensures SameCapacity(r.pool, w.pool)
  {
    ConsistentPair(w, j, k);
    var c := Concat(w.pool, w.lists[j], w.lists[k]);
    AbsorbFrame(w.lists, j, k, c.list);
    AbsorbTotal(w.lists, j, k, c.list);
    AbsorbValid(w.lists, j, k, c.list);
    World(c.pool, Absorb(w.lists, j, k, c.list))
  }

  /** List_free of list k: its items go to the destructor and it is no longer live. */
  function FreeIn<T>(w: World<T>, k: nat): (r: FreedIn<T>)
    requires Consistent(w) && k < |w.lists|
    ensures Consistent(r.world)
    ensures r.world.lists == w.lists[..k] + w.lists[k + 1..]
    ensures multiset(r.destroyed) == multiset(w.lists[k].items)
    ensures r.world.pool.nodeCounter + |w.lists[k].items| == w.pool.nodeCounter
    ensures SameCapacity(r.world.pool, w.pool)
  {
    ConsistentLive(w, k);
    var f := Free(w.pool, w.lists[k]);
    TotalItemsDelete(w.lists, k);
    var rest := w.lists[..k] + w.lists[k + 1..];
    AllValidDelete(w.lists, k, rest);
    FreedIn(World(f.pool, rest), f.destroyed)
  }

  /** Node-pool exhaustion is global: once the lists together hold
      LIST_MAX_NUM_NODES-1 items, an insert into any list fails and changes
      nothing anywhere. */
  lemma ExhaustionIsGlobal<T>(w: World<T>, k: nat, kind: InsertKind, x: T)
    requires Consistent(w) && k < |w.lists|
    requires TotalItems(w.lists) == w.pool.maxNodes - 1
    ensures InsertIn(w, k, kind, x) == InsertedIn(w, Fail)
  {
    ConsistentLive(w, k);
  }

  /** Removing an item from any list frees a slot: an insert into any list
      then succeeds. */
  lemma RemoveMakesRoom<T>(w: World<T>, j: nat, k: nat, kind: InsertKind, x: T)
    requires Consistent(w) && j < |w.lists| && k < |w.lists|
    requires w.lists[j].cursor.Bounded?
    ensures RemoveIn(w, j, false).item.Some?
    ensures InsertIn(RemoveIn(w, j, false).world, k, kind, x).status == Success
  {
    ConsistentLive(w, j);
    var w' := RemoveIn(w, j, false).world;
    ConsistentLive(w', k);
  }

  /** Freeing a list gives its header back: another list can then be created. */
  lemma FreeMakesRoomForCreate<T>(w: World<T>, k: nat)
    requires Consistent(w) && k < |w.lists|
    ensures |CreateIn(FreeIn(w, k).world).lists| == |w.lists|
  {
  }
}
