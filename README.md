# Task list controller, modelled in Dafny

The application is a small task list web app. It keeps one table of tasks. Each task has an integer key, a text and a completion flag. The controller `TodoController` has four actions:

- **Index** reads every task and renders the list.
- **Add** stores a new, open task, but only when the form text is present and non-empty.
- **Complete** marks the task with the given key as completed, if such a task exists.
- **Delete** removes the task with the given key, if such a task exists.

Each of Add, Complete and Delete then redirects to Index, whether it changed anything or not.

The model follows the source's form:

- `TodoModels.TodoItem` is the row value.
- `TodoData.TodoContext` is a class whose `todoItems` field is a `map<int, TodoItem>` (key to row). It stands for the ORM's task set. A `nextId` counter stands for the ORM's key generator; `Valid()` says every key in use lies below it.
- `TodoControllers.TodoController` holds the context. Its four action methods change only the context, and each `ensures` gives the new table as a function of the old one.
- The pure functions `Insert`, `MarkCompleted` and `Remove` in `TodoData` are those specifications. The lemmas beside them state what a later Index shows: the new text after an add, the same texts after a complete, and after a delete the texts of the remaining rows only. They also state idempotence, add-then-delete round trips, listing size and the row lifecycle (keys and texts never change, and a completion flag never goes back to false).
- `TodoIntegrationTests` replays the four integration tests against the controller's contracts, each starting from the two seeded rows.

The nullable form text of Add is `Option<string>`: `None` stands for null, and `IsNullOrEmpty` mirrors `string.IsNullOrEmpty`. Index's result is a `set<TodoItem>`. The read has no ordering clause, so the model promises no order, insertion order included.

## Model

| member | source | states |
|---|---|---|
| TodoData.Find | todo/Controllers/TodoController.cs:36 | a lookup by key finds a row exactly when the key is stored, and then it is that key's row |
| TodoData.Listing | todo/Controllers/TodoController.cs:19 | a full read returns an item exactly when it is the row stored under its own key |
| TodoData.ListingSize | todo/Controllers/TodoController.cs:19 | a full read returns exactly one item per stored row |
| TodoData.Insert | todo/Controllers/TodoController.cs:28-29 | an add puts one new row under the fresh key, with the given text and not completed; it keeps every existing row, and the table grows by one |
| TodoData.MarkCompleted | todo/Controllers/TodoController.cs:36-41 | a complete on a stored key sets only that row's flag; its key, its text and every other row stay; a missing key leaves the table as it is |
| TodoData.Remove | todo/Controllers/TodoController.cs:47-52 | a delete on a stored key removes exactly that key, keeps every other row and shrinks the table by one; a missing key leaves the table as it is |
| TodoData.MarkCompletedIdempotent | todo/Controllers/TodoController.cs:39 | completing the same key twice leaves the same table as completing it once |
| TodoData.RemoveIdempotent | todo/Controllers/TodoController.cs:47-52 | deleting the same key twice leaves the same table as deleting it once |
| TodoData.RemoveUndoesInsert | todo/Controllers/TodoController.cs:28-50 | deleting a task just added under a fresh key restores the table from before the add |
| TodoData.OperationsKeepLifecycle | todo/Controllers/TodoController.cs:28-50 | no operation changes a surviving row's key or text, and none turns a completed row back into an open one |
| TodoData.OperationsKeepStoreInvariant | todo/Controllers/TodoController.cs:28-50 | every operation keeps rows under their own keys and every key below the generator's next key; an add uses that next key, which is fresh |
| TodoData.OperationsKeepTasksNonEmpty | todo/Controllers/TodoController.cs:26-28 | because Add stores only non-empty texts, and Complete and Delete never write a text, a table with no empty text keeps having none |
| TodoData.InsertShows | todo/Controllers/TodoController.cs:26-29 | after an add, the next listing shows the new text, and shows any other text exactly when it did before |
| TodoData.InsertGrowsListing | todo/Controllers/TodoController.cs:26-29 | after an add, the next listing has one more item |
| TodoData.MarkCompletedShows | todo/Controllers/TodoController.cs:36-40 | after a complete, the task is still listed, now completed and with its text unchanged, and the listing shows the same texts as before |
| TodoData.RemoveShows | todo/Controllers/TodoController.cs:47-51 | after a delete, the listing shows a text exactly when another remaining row holds it, so the deleted task's text is gone unless another task shares it |
| TodoData.NoEmptyTaskShown | todo/Controllers/TodoController.cs:26 | a table with no empty text never lists an empty text, so a rejected empty add never appears |
| TodoData.TodoContext.constructor | Tests/TodoIntegrationTests.cs:57-62 | a context starts over a given table of rows stored under their own keys, with a key generator above every stored key |
| TodoData.TodoContext.NewKey | todo/Controllers/TodoController.cs:28-29 | the key generator hands out a key that no row holds and moves past it |
| TodoControllers.TodoController.constructor | todo/Controllers/TodoController.cs:12-15 | the controller works on the context it is given |
| TodoControllers.TodoController.Index | todo/Controllers/TodoController.cs:17-21 | Index changes nothing and renders the list view over exactly the stored rows, one item per row |
| TodoControllers.TodoController.Add | todo/Controllers/TodoController.cs:23-32 | a null or empty text leaves the whole context unchanged; otherwise the table becomes the old one plus one open row with that text under a fresh key; either way the answer is a redirect to Index and the store invariant holds |
| TodoControllers.TodoController.Complete | todo/Controllers/TodoController.cs:34-43 | the table becomes the old one with that key's row completed; a missing key leaves the context unchanged; either way the answer is a redirect to Index |
| TodoControllers.TodoController.Delete | todo/Controllers/TodoController.cs:45-54 | the table becomes the old one without that key; a missing key leaves the context unchanged; either way the answer is a redirect to Index |
| TodoIntegrationTests.SeedTestData | Tests/TodoIntegrationTests.cs:49-63 | the seeded table holds two rows under their own keys, both texts non-empty, and keys below 3 |
| TodoIntegrationTests.SeededController | Tests/TodoIntegrationTests.cs:16-47 | every test starts with a new controller over a context holding exactly the seeded rows |
| TodoIntegrationTests.GetTodosReturnsSeededTasks | Tests/TodoIntegrationTests.cs:65-74 | Index over the seeded table shows "Task 1" and "Task 2" |
| TodoIntegrationTests.AddTodoCreatesNewTodo | Tests/TodoIntegrationTests.cs:76-92 | adding "New Task" redirects, and the next Index shows "New Task" among three items |
| TodoIntegrationTests.CompleteTodoMarksTodoAsCompleted | Tests/TodoIntegrationTests.cs:94-104 | completing key 1 redirects, and the next Index still shows "Task 1", now completed |
| TodoIntegrationTests.DeleteTodoRemovesTodoSuccessfully | Tests/TodoIntegrationTests.cs:106-116 | deleting key 1 redirects, and the next Index no longer shows "Task 1" |

## Left out

- The ORM and the database: reading the list, finding by key, adding, removing and saving changes are foreign library calls. They are modelled as reads and updates of the key-to-row map, and every change is visible at once.
- Key generation happens inside the ORM at save time, and that code is not shown. The model assumes a counter that hands out a key above every key in use. Keys are never reused, even after a delete. This is an assumption, not something the code shows.
- TodoData.TodoContext.NewKey: keys are unbounded integers, so the model does not capture running out of 32-bit keys.
- TodoControllers.TodoController.Complete: the source sets the flag on the tracked entity object the lookup returns. The model replaces the row value in the map instead, so object identity and aliasing of tracked entities are not modelled.
- `async`/`await`: each action is modelled as one sequential read-modify-write. Concurrent requests and their interleavings are not modelled.
- Storage failures raise exceptions that the controller does not handle. They are not modelled.
- Routing, form binding, the HTTP verbs that reach each action, following the redirect, and rendering the views. The views are not part of this model, so "the page contains the text" is modelled as "a listed item has exactly that text". Substring matches inside other HTML are not modelled.
- Listing order: the read has no ordering clause, so Index is modelled as a set with no order.
- The test fixture's wiring: service replacement, the in-memory database, creating the database, and the HTTP client. Only its effect is modelled: every test starts from the two seeded rows.
