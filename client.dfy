/** The view controller of static/script.js without the DOM and without
    `fetch`: the cached task list, the modal/edit state, the rules that turn a
    user action into a request, and the render step. Requests are appended to
    an outbox; whether `fetch` resolved, whether the user confirmed, and what
    the reload returned are parameters of the actions. */
module ViewController {
  import opened Tasks
  import opened SortEngine
  import opened JsText

  /** The values of the modal form's inputs; an empty date input is `None`. */
  datatype Form = Form(title: string, description: string, dueDate: Option<int>, priority: Priority)

  /** What `taskForm.reset()` restores. */
  const BlankForm := Form("", "", None, Normal)

  /** A request to the REST API. */
  datatype Request =
    | GetAll                    // GET /api/tasks
    | Post(body: Body)          // POST /api/tasks
    | Put(id: nat, body: Body)  // PUT /api/tasks/<id>
    | Delete(id: nat)           // DELETE /api/tasks/<id>

  /** What the task list element shows. */
  datatype View = Initial | NoTasks | LoadError | Cards(shown: seq<Task>)

  /** The text of the modal's heading. */
  datatype Heading = AddNewTaskTitle | EditTaskTitle

  /** The modal/edit state machine: closed, open in create mode, open in edit mode for an id. */
  datatype ModalState = Closed | OpenCreate | OpenEdit(id: nat)

  const TitleRequired := "Title is required!"
  const SaveFailed := "Error saving task. Please try again."
  const UpdateFailed := "Error updating task. Please try again."
  const DeleteFailed := "Error deleting task. Please try again."

  /** JavaScript truthiness of `taskId` and `editingTaskId`: null and 0 are false. */
  predicate Truthy(id: Option<nat>) {
    id.Some? && id.value != 0
  }

  /** Object spread `{...base, ...over}`: a key present in `over` takes its
      value from `over`, every other key from `base`. */
  function Spread(base: Body, over: Body): (r: Body)
    ensures over == EmptyBody ==> r == base
    ensures base == EmptyBody ==> r == over
  {
    Body(if over.id.Some? then over.id else base.id,
         if over.title.Some? then over.title else base.title,
         if over.description.Some? then over.description else base.description,
         if over.dueDate.Some? then over.dueDate else base.dueDate,
         if over.priority.Some? then over.priority else base.priority,
         if over.completed.Some? then over.completed else base.completed,
         if over.createdAt.Some? then over.createdAt else base.createdAt)
  }

  /** `tasks.find(t => t.id === id)`: the first cached task with that id. */
  function Find(tasks: seq<Task>, id: nat): (r: Option<Task>)
    ensures r.None? <==> !HasId(tasks, id)
    ensures r.Some? ==> HasId(tasks, id) && r.value == tasks[FirstIndex(tasks, id)]
  {
    if tasks == [] then None
    else if tasks[0].id == id then Some(tasks[0])
    else
      var r := Find(tasks[1..], id);
      assert r.Some? ==> tasks[1..][FirstIndex(tasks[1..], id)] == tasks[1 + FirstIndex(tasks[1..], id)];
      assert HasId(tasks[1..], id) ==> HasId(tasks, id) by {
        if HasId(tasks[1..], id) {
          var i :| 0 <= i < |tasks[1..]| && tasks[1..][i].id == id;
          assert tasks[i + 1].id == id;
        }
      }
      assert HasId(tasks, id) ==> HasId(tasks[1..], id) by {
        if HasId(tasks, id) {
          var i :| 0 <= i < |tasks| && tasks[i].id == id;
          assert tasks[1..][i - 1].id == id;
        }
      }
      r
  }

  /** `formData` of handleSubmit: the trimmed title and description, the due
      date (null when the input is empty) and the priority. */
  function FormBody(form: Form): (b: Body)
    ensures b.id.None? && b.completed.None? && b.createdAt.None?
    ensures b.title == Some(Trim(form.title))
  {
    Body(None, Some(Trim(form.title)), Some(Trim(form.description)), Some(form.dueDate),
         Some(form.priority), None, None)
  }

  /** The form fields openModal fills in from a cached task. */
  function FormOf(t: Task): Form {
    Form(t.title, t.description, t.dueDate, t.priority)
  }

  /** The request handleSubmit sends: none for a blank title; in edit mode a
      PUT of the cached task with the form's fields laid over it; otherwise a
      POST of the form's fields. */
  function SubmitRequest(tasks: seq<Task>, editing: Option<nat>, form: Form): (r: Option<Request>)
    ensures r.None? <==> forall i :: 0 <= i < |form.title| ==> IsJsSpace(form.title[i])
    ensures r.Some? && !Truthy(editing) ==> r.value == Post(FormBody(form))
    ensures r.Some? && Truthy(editing) ==> r.value.Put? && r.value.id == editing.value
    ensures r.Some? && Truthy(editing) && HasId(tasks, editing.value) ==>
              var t := tasks[FirstIndex(tasks, editing.value)];
              r.value.body == FullBody(t.(title := Trim(form.title), description := Trim(form.description),
                                          dueDate := form.dueDate, priority := form.priority))
    ensures r.Some? && Truthy(editing) && !HasId(tasks, editing.value) ==> r.value.body == FormBody(form)
  {
    var formData := FormBody(form);
    if Trim(form.title) == [] then None
    else if Truthy(editing) then
      var base := match Find(tasks, editing.value)
                  case Some(t) => FullBody(t)
                  case None => EmptyBody;
      Some(Put(editing.value, Spread(base, formData)))
    else Some(Post(formData))
  }

  /** The request toggleComplete sends: nothing for an id that is not
      cached; otherwise a PUT of the cached task with `completed` negated and
      every other field as it was. */
  function ToggleRequest(tasks: seq<Task>, id: nat): (r: Option<Request>)
    ensures r.None? <==> !HasId(tasks, id)
    ensures r.Some? ==>
              var t := tasks[FirstIndex(tasks, id)];
              r.value == Put(id, FullBody(t.(completed := !t.completed)))
  {
    match Find(tasks, id)
    case None => None
    case Some(t) => Some(Put(id, Spread(FullBody(t), EmptyBody.(completed := Some(!t.completed)))))
  }

  /** What renderTasks shows: the "No tasks yet" placeholder for an empty
      list, otherwise one card per task of the sorted copy. */
  function Render(tasks: seq<Task>, sortValue: string): (v: View)
    ensures v.NoTasks? <==> tasks == []
    ensures v.Cards? <==> tasks != []
    ensures v.Cards? ==> |v.shown| == |tasks|
  {
    if |tasks| == 0 then NoTasks else Cards(StableSort(ParseSortMode(sortValue), tasks))
  }

  /** The placeholder shows exactly when there are no tasks; otherwise the
      cards show every cached task once, completed ones after the others. */
  lemma RenderShowsEveryTask(tasks: seq<Task>, sortValue: string)
    ensures Render(tasks, sortValue) == NoTasks <==> tasks == []
    ensures Render(tasks, sortValue).Cards? ==>
              var shown := Render(tasks, sortValue).shown;
              && multiset(shown) == multiset(tasks)
              && forall i, j :: 0 <= i < j < |shown| && shown[i].completed ==> shown[j].completed
  {
    var mode := ParseSortMode(sortValue);
    StableSortPermutes(mode, tasks);
    CompletedLast(mode, tasks);
  }

  /** The browser-side state of static/script.js: the module-level `tasks`
      and `editingTaskId`, the modal's visibility, heading and inputs, the
      sort select, the task list's content, and the requests and alerts
      issued so far. */
  class Controller {
    var tasks: seq<Task>
    var editingTaskId: Option<nat>
    var modalOpen: bool
    var heading: Heading
    var form: Form
    var sortValue: string
    var view: View
    var outbox: seq<Request>
    var alerts: seq<string>

    /** A closed modal never leaves an edit target behind. */
    ghost predicate Valid()
      reads this
    {
      modalOpen || editingTaskId.None?
    }

    /** The state of the modal state machine. */
    ghost function State(): ModalState
      reads this
    {
      if !modalOpen then Closed
      else if Truthy(editingTaskId) then OpenEdit(editingTaskId.value)
      else OpenCreate
    }

    /** With the modal closed there is no edit target, so a submit with a
        non-blank title creates a task rather than updating one. */
    lemma ClosedSubmitCreates()
      requires Valid() && State() == Closed && Trim(form.title) != []
      ensures SubmitRequest(tasks, editingTaskId, form) == Some(Post(FormBody(form)))
    {
    }

    constructor ()
      ensures Valid() && State() == Closed
      ensures tasks == [] && editingTaskId.None? && form == BlankForm && heading == AddNewTaskTitle
      ensures sortValue == "default" && view == Initial && outbox == [] && alerts == []
    {
      tasks := [];
      editingTaskId := None;
      modalOpen := false;
      heading := AddNewTaskTitle;
      form := BlankForm;
      sortValue := "default";
      view := Initial;
      outbox := [];
      alerts := [];
    }

    /** renderTasks: sort a copy of `tasks` in place and show it; `tasks` itself is untouched. */
    method RenderTasks()
      modifies this`view
      ensures view == Render(tasks, sortValue)
    {
      if |tasks| == 0 {
        view := NoTasks;
        return;
      }
      var mode := ParseSortMode(sortValue);
      var cached := tasks;
      var sortedTasks := new Task[|cached|](k requires 0 <= k < |cached| => cached[k]);
      assert sortedTasks[..] == cached;
      SortInPlace(mode, sortedTasks);
      view := Cards(sortedTasks[..]);
    }

    /** The sort select's change listener: take the new value and render again. */
    method ChangeSort(value: string)
      modifies this`sortValue, this`view
      ensures sortValue == value && view == Render(tasks, value)
    {
      sortValue := value;
      RenderTasks();
    }

    /** loadTasks: send a GET; on a parsed reply replace the cache wholesale
        and render, otherwise show the error placeholder and keep the cache. */
    method LoadTasks(response: Option<seq<Task>>)
      requires Valid()
      modifies this
      ensures Valid()
      ensures outbox == old(outbox) + [GetAll]
      ensures response.Some? ==> tasks == response.value && view == Render(response.value, sortValue)
      ensures response.None? ==> tasks == old(tasks) && view == LoadError
      ensures editingTaskId == old(editingTaskId) && modalOpen == old(modalOpen)
      ensures heading == old(heading) && form == old(form)
      ensures sortValue == old(sortValue) && alerts == old(alerts)
    {
      outbox := outbox + [GetAll];
      match response
      case Some(fetched) =>
        tasks := fetched;
        RenderTasks();
      case None =>
        view := LoadError;
    }

    /** openModal(taskId): remember `taskId` as the edit target and show the
        modal; a truthy id found in the cache fills the form from that task,
        a truthy id not found leaves heading and form as they were, and a
        falsy id (null or 0) resets the form for a new task. */
    method OpenModal(taskId: Option<nat>)
      requires Valid()
      modifies this
      ensures Valid() && modalOpen && editingTaskId == taskId
      ensures !Truthy(taskId) ==> State() == OpenCreate && heading == AddNewTaskTitle && form == BlankForm
      ensures Truthy(taskId) ==> State() == OpenEdit(taskId.value)
      ensures Truthy(taskId) && HasId(tasks, taskId.value) ==>
                heading == EditTaskTitle && form == FormOf(tasks[FirstIndex(tasks, taskId.value)])
      ensures Truthy(taskId) && !HasId(tasks, taskId.value) ==>
                heading == old(heading) && form == old(form)
      ensures tasks == old(tasks) && view == old(view) && sortValue == old(sortValue)
      ensures outbox == old(outbox) && alerts == old(alerts)
    {
      editingTaskId := taskId;
      if Truthy(taskId) {
        var task := Find(tasks, taskId.value);
        if task.Some? {
          heading := EditTaskTitle;
          form := FormOf(task.value);
        }
      } else {
        heading := AddNewTaskTitle;
        form := BlankForm;
      }
      modalOpen := true;
    }

    /** editTask: open the modal on a card's task. */
    method EditTask(taskId: nat)
      requires Valid()
      modifies this
      ensures Valid() && modalOpen && editingTaskId == Some(taskId)
      ensures taskId == 0 ==> State() == OpenCreate && heading == AddNewTaskTitle && form == BlankForm
      ensures taskId != 0 ==> State() == OpenEdit(taskId)
      ensures taskId != 0 && HasId(tasks, taskId) ==>
                heading == EditTaskTitle && form == FormOf(tasks[FirstIndex(tasks, taskId)])
      ensures taskId != 0 && !HasId(tasks, taskId) ==> heading == old(heading) && form == old(form)
      ensures tasks == old(tasks) && view == old(view) && sortValue == old(sortValue)
      ensures outbox == old(outbox) && alerts == old(alerts)
    {
      OpenModal(Some(taskId));
    }

    /** closeModal: hide the modal, reset the form, forget the edit target. */
    method CloseModal()
      requires Valid()
      modifies this
      ensures Valid() && State() == Closed && editingTaskId.None? && form == BlankForm
      ensures heading == old(heading) && tasks == old(tasks) && view == old(view)
      ensures sortValue == old(sortValue) && outbox == old(outbox) && alerts == old(alerts)
    {
      modalOpen := false;
      form := BlankForm;
      editingTaskId := None;
    }

    /** handleSubmit: a blank title only raises an alert; otherwise the
        request is sent, and once `fetch` resolves the modal closes and the
        list is reloaded, while a rejected `fetch` raises an alert and keeps
        the modal as it was. */
    method HandleSubmit(delivered: bool, reload: Option<seq<Task>>)
      requires Valid()
      modifies this
      ensures Valid() && sortValue == old(sortValue) && heading == old(heading)
      ensures var request := SubmitRequest(old(tasks), old(editingTaskId), old(form));
              request.None? ==>
                && tasks == old(tasks) && editingTaskId == old(editingTaskId)
                && modalOpen == old(modalOpen) && form == old(form) && view == old(view)
                && outbox == old(outbox) && alerts == old(alerts) + [TitleRequired]
      ensures var request := SubmitRequest(old(tasks), old(editingTaskId), old(form));
              request.Some? ==> outbox == old(outbox) + [request.value] + (if delivered then [GetAll] else [])
      ensures SubmitRequest(old(tasks), old(editingTaskId), old(form)).Some? && delivered ==>
                && !modalOpen && editingTaskId.None? && form == BlankForm && alerts == old(alerts)
                && (reload.Some? ==> tasks == reload.value && view == Render(reload.value, sortValue))
                && (reload.None? ==> tasks == old(tasks) && view == LoadError)
      ensures SubmitRequest(old(tasks), old(editingTaskId), old(form)).Some? && !delivered ==>
                && tasks == old(tasks) && editingTaskId == old(editingTaskId)
                && modalOpen == old(modalOpen) && form == old(form) && view == old(view)
                && alerts == old(alerts) + [SaveFailed]
    {
      var request := SubmitRequest(tasks, editingTaskId, form);
      if request.None? {
        alerts := alerts + [TitleRequired];
        return;
      }
      SendAndClose(request.value, delivered, reload);
    }

    /** The `try` block of handleSubmit once the request is known. */
    method SendAndClose(request: Request, delivered: bool, reload: Option<seq<Task>>)
      requires Valid()
      modifies this
      ensures Valid() && sortValue == old(sortValue) && heading == old(heading)
      ensures outbox == old(outbox) + [request] + (if delivered then [GetAll] else [])
      ensures delivered ==>
                && !modalOpen && editingTaskId.None? && form == BlankForm && alerts == old(alerts)
                && (reload.Some? ==> tasks == reload.value && view == Render(reload.value, sortValue))
                && (reload.None? ==> tasks == old(tasks) && view == LoadError)
      ensures !delivered ==>
                && tasks == old(tasks) && editingTaskId == old(editingTaskId)
                && modalOpen == old(modalOpen) && form == old(form) && view == old(view)
                && alerts == old(alerts) + [SaveFailed]
    {
      outbox := outbox + [request];
      if delivered {
        CloseModal();
        LoadTasks(reload);
      } else {
        alerts := alerts + [SaveFailed];
      }
    }

    /** toggleComplete: for a cached task send it back with `completed`
        negated, then reload; for an id not in the cache do nothing. */
    method ToggleComplete(taskId: nat, delivered: bool, reload: Option<seq<Task>>)
      requires Valid()
      modifies this
      ensures Valid()
      ensures !HasId(old(tasks), taskId) ==>
                tasks == old(tasks) && outbox == old(outbox) && view == old(view) && alerts == old(alerts)
      ensures HasId(old(tasks), taskId) ==>
                var request := ToggleRequest(old(tasks), taskId).value;
                outbox == old(outbox) + [request] + (if delivered then [GetAll] else [])
      ensures HasId(old(tasks), taskId) && delivered ==> alerts == old(alerts)
      ensures HasId(old(tasks), taskId) && delivered && reload.Some? ==>
                tasks == reload.value && view == Render(reload.value, sortValue)
      ensures HasId(old(tasks), taskId) && delivered && reload.None? ==>
                tasks == old(tasks) && view == LoadError
      ensures HasId(old(tasks), taskId) && !delivered ==>
                tasks == old(tasks) && view == old(view) && alerts == old(alerts) + [UpdateFailed]
      ensures editingTaskId == old(editingTaskId) && modalOpen == old(modalOpen) && form == old(form)
      ensures heading == old(heading) && sortValue == old(sortValue)
    {
      var request := ToggleRequest(tasks, taskId);
      if request.None? {
        return;
      }
      outbox := outbox + [request.value];
      if delivered {
        LoadTasks(reload);
      } else {
        alerts := alerts + [UpdateFailed];
      }
    }

    /** deleteTask: declining the confirmation sends nothing and changes
        nothing; confirming sends a DELETE and then reloads. */
    method DeleteTask(taskId: nat, confirmed: bool, delivered: bool, reload: Option<seq<Task>>)
      requires Valid()
      modifies this
      ensures Valid()
      ensures !confirmed ==>
                tasks == old(tasks) && outbox == old(outbox) && view == old(view) && alerts == old(alerts)
      ensures confirmed ==> outbox == old(outbox) + [Delete(taskId)] + (if delivered then [GetAll] else [])
      ensures confirmed && delivered ==> alerts == old(alerts)
      ensures confirmed && delivered && reload.Some? ==>
                tasks == reload.value && view == Render(reload.value, sortValue)
      ensures confirmed && delivered && reload.None? ==>
                tasks == old(tasks) && view == LoadError
      ensures confirmed && !delivered ==>
                tasks == old(tasks) && view == old(view) && alerts == old(alerts) + [DeleteFailed]
      ensures editingTaskId == old(editingTaskId) && modalOpen == old(modalOpen) && form == old(form)
      ensures heading == old(heading) && sortValue == old(sortValue)
    {
      if !confirmed {
        return;
      }
      outbox := outbox + [Delete(taskId)];
      if delivered {
        LoadTasks(reload);
      } else {
        alerts := alerts + [DeleteFailed];
      }
    }
  }
}
