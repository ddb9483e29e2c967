/** The task record shared by the browser client (static/script.js) and the
    Flask store (app.py), and the JSON object that travels between them. */
module Tasks {

  datatype Option<+T> = None | Some(value: T) {
    function GetOr(default: T): T {
      match this
      case Some(v) => v
      case None => default
    }
  }

  /** The three values of the priority select. */
  datatype Priority = Normal | Important | Urgent

  /** The `priorityOrder` table of the comparators: urgent=3, important=2, normal=1. */
  function Weight(p: Priority): (w: int)
    ensures 1 <= w <= 3
    ensures p == Urgent <==> w == 3
    ensures p == Normal <==> w == 1
  {
    match p
    case Urgent => 3
    case Important => 2
    case Normal => 1
  }

  /** A stored task. `dueDate` is a day number; `None` is JSON null (no deadline).
      `createdAt` is the ISO timestamp the store writes and never changes. */
  datatype Task = Task(
    id: nat,
    title: string,
    description: string,
    dueDate: Option<int>,
    priority: Priority,
    completed: bool,
    createdAt: string)

  /** A JSON request body: every key may be absent (`None`). `dueDate` may be
      present with the value null, hence `Option<Option<int>>`. */
  datatype Body = Body(
    id: Option<nat>,
    title: Option<string>,
    description: Option<string>,
    dueDate: Option<Option<int>>,
    priority: Option<Priority>,
    completed: Option<bool>,
    createdAt: Option<string>)

  const EmptyBody := Body(None, None, None, None, None, None, None)

  /** The JSON object of a whole task: every key present. */
  function FullBody(t: Task): Body {
    Body(Some(t.id), Some(t.title), Some(t.description), Some(t.dueDate),
         Some(t.priority), Some(t.completed), Some(t.createdAt))
  }

  /** No two tasks share an id. */
  predicate UniqueIds(s: seq<Task>) {
    forall i, j :: 0 <= i < j < |s| ==> s[i].id != s[j].id
  }

  predicate HasId(s: seq<Task>, id: nat) {
    exists i :: 0 <= i < |s| && s[i].id == id
  }

  /** The index of the first task with the given id: where the `for` loop of
      update_task stops, and what `tasks.find` returns. */
  function FirstIndex(s: seq<Task>, id: nat): (k: nat)
    requires HasId(s, id)
    ensures k < |s| && s[k].id == id
    ensures forall j :: 0 <= j < k ==> s[j].id != id
  {
    if s[0].id == id then 0
    else
      assert HasId(s[1..], id) by {
        var i :| 0 <= i < |s| && s[i].id == id;
        assert s[1..][i - 1].id == id;
      }
      1 + FirstIndex(s[1..], id)
  }
}
