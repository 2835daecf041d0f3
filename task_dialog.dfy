/** src/components/TaskDialog.tsx: the form the dialog starts from and the
    record its submit handler builds and dispatches. */
module TaskDialog {
  import opened Wrappers
  import opened TaskTypes
  import TaskSlice

  /** The dialog's `formData`: the four fields a user edits. */
  datatype FormData = FormData(title: string, description: string, status: Status, priority: Priority)

  /** The four editable fields of a task. */
  function Editable(task: Task): FormData
  {
    FormData(task.title, task.description, task.status, task.priority)
  }

  /** The form for a new task: empty title and description, to do, medium. */
  const DefaultForm: FormData := FormData("", "", Todo, Medium)

  /** The form once the dialog has opened: prefilled from the task being
      edited, or the defaults when there is none. */
  function FormFor(task: Option<Task>): (form: FormData)
    ensures task.Some? ==> form == Editable(task.value)
    ensures task.None? ==> form.title == "" && form.description == ""
    ensures task.None? ==> form.status == Todo && form.priority == Medium
  {
    match task
    case Some(t) => Editable(t)
    case None => DefaultForm
  }

  /** The store actions a submit can dispatch, with their payloads. */
  datatype Action = AddTask(task: Task) | UpdateTask(task: Task)

  /** `handleSubmit`: an edit spreads the form over the task and stamps
      `updatedAt`; an add builds a task from the fresh id, the form and the
      time stamped into both timestamps. */
  function Submit(task: Option<Task>, form: FormData, freshId: string, now: Timestamp): (action: Action)
    ensures action.UpdateTask? <==> task.Some?
    ensures Editable(action.task) == form
    ensures action.task.updatedAt == now
    ensures task.Some? ==> action.task.id == task.value.id && action.task.createdAt == task.value.createdAt
    ensures task.None? ==> action.task.id == freshId && action.task.createdAt == now
  {
    match task
    case Some(t) =>
      UpdateTask(t.(title := form.title, description := form.description,
                    status := form.status, priority := form.priority, updatedAt := now))
    case None =>
      AddTask(Task(freshId, form.title, form.description, form.status, form.priority, now, now))
  }

  /** Submitting the prefilled form untouched gives back the task with only
      `updatedAt` changed. */
  lemma UnchangedEdit(task: Task, freshId: string, now: Timestamp)
    ensures Submit(Some(task), FormFor(Some(task)), freshId, now) == UpdateTask(task.(updatedAt := now))
  {
  }

  /** With unique ids in the store, an edit's payload finds the edited task's
      own position, and the list after the update still has unique ids. */
  lemma EditReplacesEditedTask(tasks: seq<Task>, i: nat, form: FormData, freshId: string, now: Timestamp)
    requires TaskSlice.UniqueIds(tasks)
    requires i < |tasks|
    ensures var edited := Submit(Some(tasks[i]), form, freshId, now).task;
      TaskSlice.IndexOfId(tasks, edited.id) == i &&
      TaskSlice.UniqueIds(tasks[i := edited])
  {
    var edited := Submit(Some(tasks[i]), form, freshId, now).task;
    TaskSlice.IndexOfOwnId(tasks, i);
    TaskSlice.UpdateKeepsIdsUnique(tasks, edited);
  }

  /** With a fresh id, an add keeps the store's ids unique. */
  lemma AddWithFreshIdKeepsIdsUnique(tasks: seq<Task>, form: FormData, freshId: string, now: Timestamp)
    requires TaskSlice.UniqueIds(tasks)
    requires !TaskSlice.HasId(tasks, freshId)
    ensures TaskSlice.UniqueIds(tasks + [Submit(None, form, freshId, now).task])
  {
    TaskSlice.AddFreshKeepsIdsUnique(tasks, Submit(None, form, freshId, now).task);
  }

  /** The submit handler dispatches exactly one action to the store: an update
      when a task was given, an add otherwise. */
  method HandleSubmit(store: TaskSlice.TaskStore, task: Option<Task>, form: FormData, freshId: string, now: Timestamp)
    modifies store
    ensures var action := Submit(task, form, freshId, now);
      match action
      case AddTask(added) =>
        store.tasks == old(store.tasks) + [added] && store.stored == Some(store.tasks)
      case UpdateTask(updated) =>
        var index := TaskSlice.IndexOfId(old(store.tasks), updated.id);
        if index == -1 then
          store.tasks == old(store.tasks) && store.stored == old(store.stored)
        else
          store.tasks == old(store.tasks)[index := updated] && store.stored == Some(store.tasks)
    ensures store.filter == old(store.filter)
  {
    var action := Submit(task, form, freshId, now);
    match action
    case AddTask(added) =>
      store.AddTask(added);
    case UpdateTask(updated) =>
      store.UpdateTask(updated);
  }
}
