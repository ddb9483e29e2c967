/** The Flask task store of app.py with the JSON data file cut away: each
    handler receives the file's contents (`None` when the file does not exist)
    and reports the list it writes back (`None` when it writes nothing) together
    with its HTTP reply. */
module TaskStore {
  import opened Tasks

  const Ok := 200
  const CreatedStatus := 201
  const NotFound := 404

  datatype Payload =
    | TaskJson(task: Task)
    | TaskList(tasks: seq<Task>)
    | ErrorJson(error: string)
    | MessageJson(message: string)

  datatype Reply = Reply(status: int, payload: Payload)

  /** The outcome of one request: the list saved to the data file, if any, and the reply. */
  datatype Handled = Handled(saved: Option<seq<Task>>, reply: Reply)

  /** load_tasks: the stored list, or the empty list when there is no data file. */
  function LoadTasks(file: Option<seq<Task>>): (s: seq<Task>)
    ensures file.None? ==> s == []
    ensures file.Some? ==> s == file.value
  {
    match file
    case None => []
    case Some(contents) => contents
  }

  /** The largest id in a non-empty list (Python's `max` over the ids). */
  function MaxId(s: seq<Task>): (m: nat)
    requires |s| > 0
    ensures forall i :: 0 <= i < |s| ==> s[i].id <= m
    ensures exists i :: 0 <= i < |s| && s[i].id == m
  {
    if |s| == 1 then s[0].id
    else
      var rest := MaxId(s[1..]);
      if s[0].id >= rest then s[0].id else rest
  }

  /** get_next_id: 1 for an empty list, otherwise one more than the largest id. */
  function NextId(s: seq<Task>): (n: nat)
    ensures n >= 1
    ensures s == [] ==> n == 1
    ensures forall i :: 0 <= i < |s| ==> s[i].id < n
    ensures s != [] ==> exists i :: 0 <= i < |s| && s[i].id == n - 1
  {
    if s == [] then 1 else MaxId(s) + 1
  }

  /** The record create_task builds from a request body: a fresh id, the
      defaults '' / null / 'normal' for missing keys, never completed. */
  function NewTask(stored: seq<Task>, data: Body, now: string): Task {
    Task(NextId(stored),
         data.title.GetOr(""),
         data.description.GetOr(""),
         data.dueDate.GetOr(None),
         data.priority.GetOr(Normal),
         false,
         now)
  }

  /** POST /api/tasks: append the new task at the end of the list, save, reply 201 with it. */
  function CreateTask(file: Option<seq<Task>>, data: Body, now: string): (h: Handled)
    ensures h.reply.status == CreatedStatus && h.reply.payload.TaskJson?
    ensures h.saved.Some?
    ensures h.saved.value == LoadTasks(file) + [h.reply.payload.task]
    ensures h.reply.payload.task.id == NextId(LoadTasks(file))
    ensures !HasId(LoadTasks(file), h.reply.payload.task.id) && h.reply.payload.task.id >= 1
    ensures !h.reply.payload.task.completed && h.reply.payload.task.createdAt == now
    ensures h.reply.payload.task.title == (if data.title.Some? then data.title.value else "")
    ensures h.reply.payload.task.description == (if data.description.Some? then data.description.value else "")
    ensures h.reply.payload.task.dueDate == (if data.dueDate.Some? then data.dueDate.value else None)
    ensures h.reply.payload.task.priority == (if data.priority.Some? then data.priority.value else Normal)
  {
    var stored := LoadTasks(file);
    var task := NewTask(stored, data, now);
    Handled(Some(stored + [task]), Reply(CreatedStatus, TaskJson(task)))
  }

  /** The in-place field update of update_task: each of title, description,
      due_date, priority and completed takes the body's value when the key is
      present and keeps its own otherwise; id and created_at are never touched. */
  function ApplyUpdate(t: Task, data: Body): (r: Task)
    ensures r.id == t.id && r.createdAt == t.createdAt
  {
    t.(title := data.title.GetOr(t.title),
       description := data.description.GetOr(t.description),
       dueDate := data.dueDate.GetOr(t.dueDate),
       priority := data.priority.GetOr(t.priority),
       completed := data.completed.GetOr(t.completed))
  }

  /** PUT /api/tasks/<id>: walk the list, update the first task whose id
      matches, save and reply with it; when none matches, reply 404 and save nothing. */
  method UpdateTask(file: Option<seq<Task>>, taskId: nat, data: Body) returns (h: Handled)
    ensures !HasId(LoadTasks(file), taskId) ==>
              h == Handled(None, Reply(NotFound, ErrorJson("Task not found")))
    ensures HasId(LoadTasks(file), taskId) ==>
              var stored := LoadTasks(file);
              var k := FirstIndex(stored, taskId);
              && h.saved == Some(stored[k := ApplyUpdate(stored[k], data)])
              && h.reply == Reply(Ok, TaskJson(ApplyUpdate(stored[k], data)))
  {
    var tasks := LoadTasks(file);
    var i := 0;
    while i < |tasks|
      invariant 0 <= i <= |tasks|
      invariant forall j :: 0 <= j < i ==> tasks[j].id != taskId
    {
      if tasks[i].id == taskId {
        var task := ApplyUpdate(tasks[i], data);
        tasks := tasks[i := task];
        return Handled(Some(tasks), Reply(Ok, TaskJson(task)));
      }
      i := i + 1;
    }
    return Handled(None, Reply(NotFound, ErrorJson("Task not found")));
  }

  /** The list comprehension of delete_task: keep, in order, every task whose id differs. */
  function Without(s: seq<Task>, id: nat): (r: seq<Task>)
    ensures forall t :: t in r <==> t in s && t.id != id
    ensures |r| <= |s|
  {
    if s == [] then []
    else (if s[0].id != id then [s[0]] else []) + Without(s[1..], id)
  }

  /** DELETE /api/tasks/<id>: save the list without that id; the reply is 200 whether or not it was there. */
  function DeleteTask(file: Option<seq<Task>>, taskId: nat): (h: Handled)
    ensures h.reply == Reply(Ok, MessageJson("Task deleted"))
    ensures h.saved.Some? && !HasId(h.saved.value, taskId)
    ensures forall t :: t in h.saved.value <==> t in LoadTasks(file) && t.id != taskId
    ensures h.saved == Some(Without(LoadTasks(file), taskId))
  {
    Handled(Some(Without(LoadTasks(file), taskId)), Reply(Ok, MessageJson("Task deleted")))
  }

  /** GET /api/tasks: reply with the stored list, write nothing. */
  function GetTasks(file: Option<seq<Task>>): (h: Handled)
    ensures h.saved.None? && h.reply.status == Ok
    ensures h.reply.payload == TaskList(LoadTasks(file))
    ensures file.None? ==> h.reply.payload == TaskList([])
    ensures file.Some? ==> h.reply.payload == TaskList(file.value)
  {
    Handled(None, Reply(Ok, TaskList(LoadTasks(file))))
  }

  // ---------------------------------------------------------------------
  // Properties of the handlers

  /** Deleting twice is deleting once. */
  lemma {:induction false} WithoutIdempotent(s: seq<Task>, id: nat)
    ensures Without(Without(s, id), id) == Without(s, id)
  {
    if s != [] {
      WithoutIdempotent(s[1..], id);
      WithoutAppend(if s[0].id != id then [s[0]] else [], Without(s[1..], id), id);
      if s[0].id != id {
        assert Without([s[0]], id) == [s[0]] by { assert [s[0]][1..] == []; }
      }
    }
  }

  /** The filter works element by element, so it keeps the relative order of what it keeps. */
  lemma {:induction false} WithoutAppend(a: seq<Task>, b: seq<Task>, id: nat)
    ensures Without(a + b, id) == Without(a, id) + Without(b, id)
  {
    if a == [] {
      assert a + b == b;
    } else {
      assert (a + b)[0] == a[0];
      assert (a + b)[1..] == a[1..] + b;
      WithoutAppend(a[1..], b, id);
    }
  }

  /** Deleting an id that is not there leaves the list exactly as it was. */
  lemma {:induction false} WithoutAbsent(s: seq<Task>, id: nat)
    requires !HasId(s, id)
    ensures Without(s, id) == s
  {
    if s != [] {
      assert !HasId(s[1..], id) by {
        forall i | 0 <= i < |s[1..]| ensures s[1..][i].id != id {
          assert s[1..][i] == s[i + 1];
        }
      }
      WithoutAbsent(s[1..], id);
      assert [s[0]] + s[1..] == s;
    }
  }

  /** A body with no keys changes nothing. */
  lemma UpdateWithEmptyBody(t: Task)
    ensures ApplyUpdate(t, EmptyBody) == t
  {
  }

  /** A body carrying a whole task (what the client sends) makes the stored
      task equal to it, except for the stored id and creation time. */
  lemma UpdateWithFullBody(t: Task, u: Task)
    ensures ApplyUpdate(t, FullBody(u)) == u.(id := t.id, createdAt := t.createdAt)
  {
  }

  /** Deleting the same id again saves the same list. */
  lemma DeleteTwice(file: Option<seq<Task>>, taskId: nat)
    ensures DeleteTask(DeleteTask(file, taskId).saved, taskId).saved == DeleteTask(file, taskId).saved
  {
    WithoutIdempotent(LoadTasks(file), taskId);
  }

  /** Ids stay unique across create. */
  lemma CreateKeepsIdsUnique(file: Option<seq<Task>>, data: Body, now: string)
    requires UniqueIds(LoadTasks(file))
    ensures UniqueIds(CreateTask(file, data, now).saved.value)
  {
    var stored := LoadTasks(file);
    var saved := CreateTask(file, data, now).saved.value;
    forall i, j | 0 <= i < j < |saved| ensures saved[i].id != saved[j].id {
      if j == |stored| {
        assert saved[i] == stored[i];
      } else {
        assert saved[i] == stored[i] && saved[j] == stored[j];
      }
    }
  }

  /** Ids stay unique across update: the updated task keeps its id and everything else is untouched. */
  lemma UpdateKeepsIdsUnique(s: seq<Task>, id: nat, data: Body)
    requires UniqueIds(s) && HasId(s, id)
    ensures UniqueIds(s[FirstIndex(s, id) := ApplyUpdate(s[FirstIndex(s, id)], data)])
  {
  }

  /** Ids stay unique across delete. */
  lemma {:induction false} DeleteKeepsIdsUnique(s: seq<Task>, id: nat)
    requires UniqueIds(s)
    ensures UniqueIds(Without(s, id))
  {
    if s != [] {
      assert UniqueIds(s[1..]) by {
        forall i, j | 0 <= i < j < |s[1..]| ensures s[1..][i].id != s[1..][j].id {
          assert s[1..][i] == s[i + 1] && s[1..][j] == s[j + 1];
        }
      }
      DeleteKeepsIdsUnique(s[1..], id);
      var rest := Without(s[1..], id);
      forall k | 0 <= k < |rest| ensures rest[k].id != s[0].id {
        assert rest[k] in s[1..];
        var m :| 0 <= m < |s[1..]| && s[1..][m] == rest[k];
        assert s[m + 1] == rest[k];
      }
    }
  }
}
