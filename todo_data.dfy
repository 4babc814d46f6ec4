/**
  The task table and the database context that owns it.

  The ORM's task set is modelled as a map from primary key to row.  The pure
  functions below give the table that each controller action leaves behind,
  and the lemmas state what a following full read (the Index action) then
  shows.  The class TodoContext holds the table that the actions update in
  place, together with the counter that stands for the ORM's key generator.
 */
module TodoData {
  import opened Wrappers
  import opened TodoModels

  /** The task table: every row under its primary key. */
  type Table = map<int, TodoItem>

  /** Every row is stored under its own primary key. */
  ghost predicate WellKeyed(t: Table) {
    forall k :: k in t ==> t[k].id == k
  }

  /** The store's invariant: rows sit under their own keys, and the key
      generator's next key lies above every key in use, so the keys it
      hands out are fresh. */
  ghost predicate StoreInvariant(t: Table, nextId: int) {
    && WellKeyed(t)
    && (forall k :: k in t ==> k < nextId)
  }

  /** No stored task has an empty text. */
  ghost predicate AllTasksNonEmpty(t: Table) {
    forall k :: k in t ==> t[k].task != ""
  }

  /** Some listed item has exactly this text: what a page that renders the
      list shows when it contains that text. */
  ghost predicate Shows(todos: set<TodoItem>, task: string) {
    exists it :: it in todos && it.task == task
  }

  /** What the rows keep from one table to the next: a row that survives
      keeps its key and its text, and a completed row stays completed. */
  ghost predicate KeepsLifecycle(before: Table, after: Table) {
    forall k :: k in before && k in after ==>
      && after[k].id == before[k].id
      && after[k].task == before[k].task
      && (before[k].isCompleted ==> after[k].isCompleted)
  }

  /** Looking a row up by primary key: absent when no row has that key. */
  function Find(t: Table, id: int): (r: Option<TodoItem>)
    ensures r.Some? <==> id in t
    ensures r.Some? ==> r.value == t[id]
  {
    if id in t then Some(t[id]) else None
  }

  /** A full read of the table: every stored row, in no particular order. */
  function Listing(t: Table): (r: set<TodoItem>)
    requires WellKeyed(t)
    ensures forall it :: it in r <==> it.id in t && t[it.id] == it
  {
    var r := set k | k in t :: t[k];
    assert forall k :: k in t ==> t[k] in r;
    r
  }

  /** The table after a new, not yet completed task is stored under the
      fresh key `id`. */
  function Insert(t: Table, id: int, task: string): (r: Table)
    requires id !in t
    ensures r.Keys == t.Keys + {id}
    ensures r[id].id == id && r[id].task == task && !r[id].isCompleted
    ensures forall k :: k in t ==> r[k] == t[k]
    ensures |r| == |t| + 1
    ensures WellKeyed(t) ==> WellKeyed(r)
  {
    t[id := TodoItem(id, task, false)]
  }

  /** The table after the row with key `id`, if there is one, is marked
      completed; without such a row the table is left as it is. */
  function MarkCompleted(t: Table, id: int): (r: Table)
    ensures r.Keys == t.Keys
    ensures id in t ==> r[id].isCompleted && r[id].id == t[id].id && r[id].task == t[id].task
    ensures forall k :: k in t && k != id ==> r[k] == t[k]
    ensures id !in t ==> r == t
    ensures |r| == |t|
    ensures WellKeyed(t) ==> WellKeyed(r)
  {
    if id in t then t[id := t[id].(isCompleted := true)] else t
  }

  /** The table after the row with key `id`, if there is one, is removed;
      without such a row the table is left as it is. */
  function Remove(t: Table, id: int): (r: Table)
    ensures r.Keys == t.Keys - {id}
    ensures forall k :: k in r ==> r[k] == t[k]
    ensures id !in t ==> r == t
    ensures id in t ==> |r| == |t| - 1
    ensures WellKeyed(t) ==> WellKeyed(r)
  {
    t - {id}
  }

  // ---------------------------------------------------------------------
  // Properties of the table operations
  // ---------------------------------------------------------------------

  /** Completing a task twice leaves the same table as completing it once. */
  lemma MarkCompletedIdempotent(t: Table, id: int)
    ensures MarkCompleted(MarkCompleted(t, id), id) == MarkCompleted(t, id)
  {
  }

  /** Deleting a task twice leaves the same table as deleting it once. */
  lemma RemoveIdempotent(t: Table, id: int)
    ensures Remove(Remove(t, id), id) == Remove(t, id)
  {
  }

  /** Deleting a task just added under a fresh key gives back the table as
      it was before the add. */
  lemma RemoveUndoesInsert(t: Table, id: int, task: string)
    requires id !in t
    ensures Remove(Insert(t, id, task), id) == t
  {
  }

  /** No operation changes a surviving row's key or text, or un-completes it. */
  lemma OperationsKeepLifecycle(t: Table, id: int, fresh_id: int, task: string)
    requires fresh_id !in t
    ensures KeepsLifecycle(t, Insert(t, fresh_id, task))
    ensures KeepsLifecycle(t, MarkCompleted(t, id))
    ensures KeepsLifecycle(t, Remove(t, id))
  {
  }

  /** The store's invariant survives every operation; an insert uses the
      generator's next key and moves the generator past it. */
  lemma OperationsKeepStoreInvariant(t: Table, nextId: int, id: int, task: string)
    requires StoreInvariant(t, nextId)
    ensures nextId !in t && StoreInvariant(Insert(t, nextId, task), nextId + 1)
    ensures StoreInvariant(MarkCompleted(t, id), nextId)
    ensures StoreInvariant(Remove(t, id), nextId)
  {
  }

  /** Adding only non-empty texts keeps every stored text non-empty, and
      completing or deleting never makes a text empty. */
  lemma OperationsKeepTasksNonEmpty(t: Table, id: int, fresh_id: int, task: string)
    requires AllTasksNonEmpty(t) && fresh_id !in t
    ensures task != "" ==> AllTasksNonEmpty(Insert(t, fresh_id, task))
    ensures AllTasksNonEmpty(MarkCompleted(t, id))
    ensures AllTasksNonEmpty(Remove(t, id))
  {
  }

  // ---------------------------------------------------------------------
  // What a following Index shows
  // ---------------------------------------------------------------------

  /** A non-empty table has a key. */
  lemma SomeKey(t: Table) returns (k: int)
    requires |t| != 0
    ensures k in t
  {
    if forall j :: j !in t {
      assert false;
    }
    k :| k in t;
  }

  /** A full read returns one item per row: no two rows collapse into one
      listed item. */
  lemma {:induction false} ListingSize(t: Table)
    requires WellKeyed(t)
    ensures |Listing(t)| == |t|
    decreases |t|
  {
    if |t| != 0 {
      var k := SomeKey(t);
      var rest := t - {k};
      ListingSize(rest);
      assert Listing(t) == Listing(rest) + {t[k]};
      assert t[k] !in Listing(rest);
    }
  }

  /** After a task is added, the listing shows its text, and it shows any
      other text exactly when it did before. */
  lemma InsertShows(t: Table, id: int, task: string, s: string)
    requires WellKeyed(t) && id !in t
    ensures Shows(Listing(Insert(t, id, task)), task)
    ensures Shows(Listing(Insert(t, id, task)), s) <==> s == task || Shows(Listing(t), s)
  {
  }

  /** After a task is added the listing holds one more item than before. */
  lemma InsertGrowsListing(t: Table, id: int, task: string)
    requires WellKeyed(t) && id !in t
    ensures |Listing(Insert(t, id, task))| == |Listing(t)| + 1
  {
    ListingSize(t);
    ListingSize(Insert(t, id, task));
  }

  /** After a task is completed it is still listed, now completed and with
      its text unchanged, and the listing shows the same texts as before. */
  lemma MarkCompletedShows(t: Table, id: int, s: string)
    requires WellKeyed(t)
    ensures id in t ==> TodoItem(id, t[id].task, true) in Listing(MarkCompleted(t, id))
    ensures Shows(Listing(MarkCompleted(t, id)), s) <==> Shows(Listing(t), s)
  {
  }

  /** After a task is deleted, the listing shows a text exactly when some
      other row holds it: the deleted task's text is gone unless another
      task has the same text. */
  lemma RemoveShows(t: Table, id: int, s: string)
    requires WellKeyed(t)
    ensures Shows(Listing(Remove(t, id)), s) <==> exists k :: k in t && k != id && t[k].task == s
  {
  }

  /** A table whose texts are all non-empty never shows the empty text. */
  lemma NoEmptyTaskShown(t: Table)
    requires WellKeyed(t) && AllTasksNonEmpty(t)
    ensures !Shows(Listing(t), "")
  {
  }

  // ---------------------------------------------------------------------
  // The database context
  // ---------------------------------------------------------------------

  /** The database context: the task table that the controller's actions
      update in place, and the counter behind the ORM's key generator. */
  class TodoContext {
    var todoItems: Table
    var nextId: int

    ghost predicate Valid()
      reads this
    {
      StoreInvariant(todoItems, nextId)
    }

    /** A context over an existing table whose key generator will hand out
        `nextId` next. */
    constructor (seed: Table, nextId: int)
      requires StoreInvariant(seed, nextId)
      ensures Valid() && todoItems == seed && this.nextId == nextId
    {
      todoItems := seed;
      this.nextId := nextId;
    }

    /** The key generator: a key no stored row holds, never handed out
        before. */
    method NewKey() returns (id: int)
      requires Valid()
      modifies this`nextId
      ensures Valid()
      ensures id !in todoItems && id == old(nextId) && nextId == id + 1
    {
      id := nextId;
      nextId := nextId + 1;
    }
  }
}
