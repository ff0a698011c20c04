/** The `Task` record: one to-do entry. */
module Tasks {
  import opened Wrappers

  /** A task's `UUID`. Only equality is ever used, so the number inside is opaque. */
  datatype TaskId = TaskId(uuid: nat)

  /** A calendar `Date`, as a point on a time line; only `<` is used. */
  type Date = int

  /** `id` is a `let` in the record, so no operation of the store replaces it;
      `dueDate` is the optional field the store reads and writes. */
  datatype Task = Task(id: TaskId, title: string, isCompleted: bool, dueDate: Option<Date>)

  /** `Task(id:title:isCompleted:)`: stores every argument as given, with no
      trimming or validation of the title; `isCompleted` defaults to false and
      the record starts without a due date. */
  function NewTask(id: TaskId, title: string, isCompleted: bool := false): (t: Task)
    ensures t.id == id
    ensures t.title == title
    ensures t.isCompleted == isCompleted
    ensures t.dueDate.None?
  {
    Task(id, title, isCompleted, None)
  }

  /** `Task(title:)` builds an open (not completed) task. */
  lemma NewTaskDefaultsToOpen(id: TaskId, title: string)
    ensures !NewTask(id, title).isCompleted
  {
  }

  /** The ids of a list of tasks, in order. */
  function Ids(tasks: seq<Task>): (ids: seq<TaskId>)
    ensures |ids| == |tasks|
    ensures forall i :: 0 <= i < |tasks| ==> ids[i] == tasks[i].id
  {
    seq(|tasks|, i requires 0 <= i < |tasks| => tasks[i].id)
  }

  /** No two stored tasks share an id. */
  predicate UniqueIds(tasks: seq<Task>) {
    forall i, j :: 0 <= i < j < |tasks| ==> tasks[i].id != tasks[j].id
  }
}
