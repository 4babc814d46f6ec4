/**
  The task list controller: four actions over the database context's task
  table.  Index renders every stored task; Add, Complete and Delete each
  perform one read-modify-write of the table and then redirect to Index,
  whether or not anything changed.
 */
module TodoControllers {
  import opened Wrappers
  import opened TodoModels
  import opened TodoData

  /** What an action answers: the list view over the given tasks, or a
      redirect to the Index action. */
  datatype ActionResult = View(todos: set<TodoItem>) | RedirectToIndex

  /** A missing (null) or empty form text. */
  predicate IsNullOrEmpty(s: Option<string>) {
    s.None? || s.value == ""
  }

  class TodoController {
    const context: TodoContext

    constructor (context: TodoContext)
      ensures this.context == context
    {
      this.context := context;
    }

    /** Lists every stored task; changes nothing. */
    method Index() returns (r: ActionResult)
      requires context.Valid()
      ensures r.View?
      ensures forall it :: it in r.todos <==> it.id in context.todoItems && context.todoItems[it.id] == it
      ensures |r.todos| == |context.todoItems|
    {
      var todos := Listing(context.todoItems);
      ListingSize(context.todoItems);
      r := View(todos);
    }

    /** Stores a new, not yet completed task under a fresh key when the text
        is present and non-empty; otherwise changes nothing. */
    method Add(task: Option<string>) returns (r: ActionResult)
      requires context.Valid()
      modifies context
      ensures context.Valid() && r == RedirectToIndex
      ensures IsNullOrEmpty(task) ==> unchanged(context)
      ensures !IsNullOrEmpty(task) ==>
        && old(context.nextId) !in old(context.todoItems)
        && context.todoItems == Insert(old(context.todoItems), old(context.nextId), task.value)
      ensures AllTasksNonEmpty(old(context.todoItems)) ==> AllTasksNonEmpty(context.todoItems)
    {
      if !IsNullOrEmpty(task) {
        var id := context.NewKey();
        context.todoItems := context.todoItems[id := TodoItem(id, task.value, false)];
      }
      r := RedirectToIndex;
    }

    /** Marks the task with key `id` completed when there is one; otherwise
        changes nothing. */
    method Complete(id: int) returns (r: ActionResult)
      requires context.Valid()
      modifies context
      ensures context.Valid() && r == RedirectToIndex
      ensures context.todoItems == MarkCompleted(old(context.todoItems), id)
      ensures context.nextId == old(context.nextId)
      ensures id !in old(context.todoItems) ==> unchanged(context)
    {
      var todo := Find(context.todoItems, id);
      if todo.Some? {
        context.todoItems := context.todoItems[todo.value.id := todo.value.(isCompleted := true)];
      }
      r := RedirectToIndex;
    }

    /** Removes the task with key `id` when there is one; otherwise changes
        nothing. */
    method Delete(id: int) returns (r: ActionResult)
      requires context.Valid()
      modifies context
      ensures context.Valid() && r == RedirectToIndex
      ensures context.todoItems == Remove(old(context.todoItems), id)
      ensures context.nextId == old(context.nextId)
      ensures id !in old(context.todoItems) ==> unchanged(context)
    {
      var todo := Find(context.todoItems, id);
      if todo.Some? {
        context.todoItems := context.todoItems - {todo.value.id};
      }
      r := RedirectToIndex;
    }
  }
}
