/**
  The integration tests' scenarios.  Each test starts from the two seeded
  rows (the test class is built anew for every test and reseeds the table),
  issues one request, follows the redirect to Index and checks which texts
  the listing shows.
 */
module TodoIntegrationTests {
  import opened Wrappers
  import opened TodoModels
  import opened TodoData
  import opened TodoControllers

  /** The seeded table: "Task 1" open under key 1, "Task 2" completed under
      key 2. */
  function SeedTestData(): (t: Table)
    ensures StoreInvariant(t, 3) && AllTasksNonEmpty(t)
    ensures |t| == 2
  {
    map[1 := TodoItem(1, "Task 1", false), 2 := TodoItem(2, "Task 2", true)]
  }

  /** A controller over a freshly seeded context. */
  method SeededController() returns (c: TodoController)
    ensures fresh(c) && fresh(c.context)
    ensures c.context.Valid() && c.context.todoItems == SeedTestData() && c.context.nextId == 3
  {
    var db := new TodoContext(SeedTestData(), 3);
    c := new TodoController(db);
  }

  /** Index lists both seeded tasks. */
  method GetTodosReturnsSeededTasks() returns (page: ActionResult)
    ensures page.View? && Shows(page.todos, "Task 1") && Shows(page.todos, "Task 2")
  {
    var c := SeededController();
    page := c.Index();
    assert TodoItem(1, "Task 1", false) in page.todos;
    assert TodoItem(2, "Task 2", true) in page.todos;
  }

  /** Adding "New Task" redirects, and the next Index shows it beside the
      seeded tasks. */
  method AddTodoCreatesNewTodo() returns (response: ActionResult, page: ActionResult)
    ensures response == RedirectToIndex
    ensures page.View? && Shows(page.todos, "New Task") && |page.todos| == 3
  {
    var c := SeededController();
    response := c.Add(Some("New Task"));
    page := c.Index();
    assert TodoItem(3, "New Task", false) in page.todos;
  }

  /** Completing task 1 redirects, and the next Index still lists it, now
      completed. */
  method CompleteTodoMarksTodoAsCompleted() returns (response: ActionResult, page: ActionResult)
    ensures response == RedirectToIndex
    ensures page.View? && Shows(page.todos, "Task 1")
    ensures TodoItem(1, "Task 1", true) in page.todos
  {
    var c := SeededController();
    response := c.Complete(1);
    page := c.Index();
  }

  /** Deleting task 1 redirects, and the next Index no longer shows its text. */
  method DeleteTodoRemovesTodoSuccessfully() returns (response: ActionResult, page: ActionResult)
    ensures response == RedirectToIndex
    ensures page.View? && !Shows(page.todos, "Task 1")
  {
    var c := SeededController();
    response := c.Delete(1);
    page := c.Index();
    RemoveShows(SeedTestData(), 1, "Task 1");
  }
}
