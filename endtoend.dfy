/** What the store makes of the bodies the view controller sends: the
    client's payloads (ViewController) fed to the Flask handlers (TaskStore). */
module EndToEnd {
  import opened Tasks
  import opened JsText
  import S = TaskStore
  import C = ViewController

  /** A toggle PUT, applied by update_task to the task it was built from,
      flips `completed` and changes nothing else. */
  lemma ToggleUpdatesOnlyCompleted(tasks: seq<Task>, id: nat)
    requires HasId(tasks, id)
    ensures var t := tasks[FirstIndex(tasks, id)];
            var r := C.ToggleRequest(tasks, id).value;
            r.id == t.id && S.ApplyUpdate(t, r.body) == t.(completed := !t.completed)
  {
  }

  /** An edit PUT, applied to the cached task it was built from, takes the
      trimmed title and description, the due date and the priority from the
      form, and keeps the task's id, completion state and creation time. */
  lemma EditUpdatesFormFields(tasks: seq<Task>, id: nat, form: C.Form)
    requires id != 0 && HasId(tasks, id)
    requires Trim(form.title) != []
    ensures var t := tasks[FirstIndex(tasks, id)];
            var r := C.SubmitRequest(tasks, Some(id), form).value;
            S.ApplyUpdate(t, r.body) ==
              t.(title := Trim(form.title), description := Trim(form.description),
                 dueDate := form.dueDate, priority := form.priority)
  {
  }

  /** An edit PUT for a task that is no longer cached still carries every
      form field, so the stored task takes them all and keeps its completion state. */
  lemma EditOfUncachedTask(tasks: seq<Task>, id: nat, form: C.Form, stored: Task)
    requires id != 0 && !HasId(tasks, id)
    requires Trim(form.title) != []
    ensures S.ApplyUpdate(stored, C.SubmitRequest(tasks, Some(id), form).value.body) ==
              stored.(title := Trim(form.title), description := Trim(form.description),
                      dueDate := form.dueDate, priority := form.priority)
  {
  }

  /** A create POST yields a stored task with the form's trimmed fields, a
      fresh id, not completed, appended at the end of the list. */
  lemma CreateStoresFormFields(file: Option<seq<Task>>, tasks: seq<Task>, form: C.Form, now: string)
    requires Trim(form.title) != []
    ensures var h := S.CreateTask(file, C.SubmitRequest(tasks, None, form).value.body, now);
            var t := h.reply.payload.task;
            && t == Task(S.NextId(S.LoadTasks(file)), Trim(form.title), Trim(form.description),
                         form.dueDate, form.priority, false, now)
            && h.saved == Some(S.LoadTasks(file) + [t])
            && t.title != []
  {
  }

  /** Two updates in a row are one update with the spread of the two bodies. */
  lemma UpdateThenUpdate(t: Task, a: Body, b: Body)
    ensures S.ApplyUpdate(S.ApplyUpdate(t, a), b) == S.ApplyUpdate(t, C.Spread(a, b))
  {
  }

  /** Opening a cached task for editing and saving the form unchanged
      stores the task as it was, when its title and description carry no
      surrounding white space. */
  lemma ResubmitUnchanged(tasks: seq<Task>, id: nat)
    requires id != 0 && HasId(tasks, id)
    requires var t := tasks[FirstIndex(tasks, id)];
             t.title != [] && Trim(t.title) == t.title && Trim(t.description) == t.description
    ensures var t := tasks[FirstIndex(tasks, id)];
            var r := C.SubmitRequest(tasks, Some(id), C.FormOf(t));
            r.Some? && S.ApplyUpdate(t, r.value.body) == t
  {
  }
}
