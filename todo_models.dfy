/** The single entity of the task list application. */
module TodoModels {

  /** One row of the task table: its primary key, the task's text and
      whether it has been completed. */
  datatype TodoItem = TodoItem(id: int, task: string, isCompleted: bool)
}
