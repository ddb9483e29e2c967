# Task manager: verified model of the view controller and the task store

The application is a small to-do list.

- A Flask back end (`app.py`) keeps a list of task records in a JSON file. It offers get, create, update and delete through a REST API.
- A single-page client (`static/script.js`) keeps a cached copy of that list. It shows the list sorted by one of five orders and edits tasks in a modal dialog. After every change it reloads the whole list.

This project models both halves in Dafny, with the I/O cut away.

- `Tasks` (`tasks.dfy`): the task record and the JSON body that travels between client and server.
  - A body key may be absent, so every field of `Body` is an `Option`.
  - Due dates are day numbers, `None` when there is no deadline.
  - Priorities are a three-valued enum weighted urgent 3, important 2, normal 1.
- `TaskStore` (`store.dfy`): the handlers of `app.py`.
  - Each handler receives the contents of the data file (`None` when the file does not exist).
  - It returns the list it writes back (`None` when it writes nothing) with its status and JSON reply.
  - `UpdateTask` keeps the source's loop and stops at the first task with a matching id. The other handlers are functions.
- `SortEngine` (`sorting.dfy`): the five comparators of `renderTasks`, kept exactly as written, with JavaScript's sign convention.
  - `Array.prototype.sort` is stable, so the sort is modelled as insertion sort. It is specified by `StableSort` over sequences and carried out in place on an array by `SortInPlace`.
  - The lemmas state the order each mode produces, that the output is a permutation of the input, and that tasks the comparator ranks equal keep their input order.
- `JsText` (`jstext.dfy`): `String.prototype.trim` over ECMAScript's white-space and line-terminator characters.
- `ViewController` (`client.dfy`): the browser state as a class.
  - State: the cached `tasks`, `editingTaskId`, the modal's visibility, heading and form, the sort select, and what the list shows.
  - Requests the client sends are appended to an `outbox`, and alerts to `alerts`.
  - Three outcomes are parameters of the actions: whether `fetch` resolved, whether the user confirmed a delete, and what the reload returned.
  - The pure rules the actions follow are functions: `SubmitRequest`, `ToggleRequest`, `Render`.
- `EndToEnd` (`endtoend.dfy`): what the store makes of the bodies the client sends.

## Model

| member | source | states |
|---|---|---|
| `Tasks.Weight` | static/script.js:83 | the priority table: every weight is 1 to 3, only urgent weighs 3 and only normal weighs 1 |
| `Tasks.FirstIndex` | static/script.js:158 | the index where `tasks.find` and the loop of update_task stop: the task there has the id and no earlier one has it |
| `Tasks.FullBody` | static/script.js:230 | definition of the JSON object of a whole task, which `{...task}` spreads (also line 203); `ViewController.SubmitRequest`, `ViewController.ToggleRequest` and `TaskStore.UpdateWithFullBody` state the bodies built from it |
| `TaskStore.LoadTasks` | app.py:12-17 | a missing data file reads as the empty list, an existing one as its contents |
| `TaskStore.MaxId` | app.py:28 | `max` over the ids of a non-empty list: no id is larger and some task has it |
| `TaskStore.NextId` | app.py:24-28 | 1 for an empty list, otherwise exactly one more than the largest id; always at least 1 and larger than every stored id |
| `TaskStore.NewTask` | app.py:47-55 | definition of the `new_task` record; `TaskStore.CreateTask` states each of its fields, the id as `TaskStore.NextId` of the stored list |
| `TaskStore.CreateTask` | app.py:41-59 | replies 201 with the new task and saves the old list with exactly that task appended; its id is `get_next_id` of the stored list (`TaskStore.NextId`), so at least 1 and held by no stored task; it is not completed, carries the given creation time, and takes title, description, due date and priority from the body, defaulting to "", "", null and normal |
| `TaskStore.ApplyUpdate` | app.py:69-73 | the field update never touches id or created_at |
| `TaskStore.UpdateWithEmptyBody` | app.py:69-73 | a body without any of the five keys leaves the task unchanged |
| `TaskStore.UpdateWithFullBody` | app.py:69-73 | a body carrying a whole task makes the stored task equal to it except for the stored id and creation time |
| `TaskStore.UpdateTask` | app.py:61-77 | an id not in the list gives 404 "Task not found" and saves nothing; otherwise only the first task with that id is replaced by its updated copy, every other position and the order are kept, the list is saved and the reply is 200 with the updated task |
| `TaskStore.Without` | app.py:83 | the comprehension keeps exactly the tasks whose id differs and never grows the list |
| `TaskStore.DeleteTask` | app.py:79-85 | always replies 200 "Task deleted"; the saved list is the stored list filtered by `Without`, so it holds exactly the stored tasks with another id, in their original order (`TaskStore.WithoutAppend`), and the id is gone |
| `TaskStore.DeleteTwice` | app.py:83-84 | a second delete of the same id saves the same list as the first |
| `TaskStore.GetTasks` | app.py:35-39 | replies 200 with exactly the stored list (the empty list without a data file, the file's contents otherwise) and writes nothing |
| `TaskStore.WithoutIdempotent` | app.py:83 | deleting an id twice is deleting it once |
| `TaskStore.WithoutAppend` | app.py:83 | the filter distributes over concatenation, so the kept tasks stay in their original order |
| `TaskStore.WithoutAbsent` | app.py:83-85 | deleting an id that is not stored saves the list unchanged |
| `TaskStore.CreateKeepsIdsUnique` | app.py:47-58 | when the stored ids are distinct, they stay distinct after a create |
| `TaskStore.UpdateKeepsIdsUnique` | app.py:67-75 | when the stored ids are distinct, they stay distinct after an update |
| `TaskStore.DeleteKeepsIdsUnique` | app.py:83-84 | when the stored ids are distinct, they stay distinct after a delete |
| `SortEngine.ParseSortMode` | static/script.js:59-97 | each of the four named select values picks its own comparator; "default" and every other value pick the default comparator |
| `SortEngine.Compare` | static/script.js:61-114 | the five comparator callbacks as written; its contract states the shared first key: of a completed and an incomplete task, the completed one goes after; the rest is stated by `SortEngine.CompareIsTotalPreorder` and the per-mode order lemmas |
| `SortEngine.StableSort` | static/script.js:56-116 | definition of the stable sort (insertion sort over prefixes), of the same length as its input; `SortEngine.StableSortPermutes`, `SortEngine.StableSortOrdered` and `SortEngine.StableSortKeepsPeerOrder` characterise it |
| `SortEngine.CompareIsTotalPreorder` | static/script.js:61-114 | each of the five comparators is reflexive, antisymmetric in sign and transitive, so it is a consistent comparison function |
| `SortEngine.SortInPlace` | static/script.js:56-116 | sorting the copied array in place leaves in it exactly the stable sort of its old contents |
| `SortEngine.StableSortPermutes` | static/script.js:56 | the sorted copy is a permutation of the cached list |
| `SortEngine.StableSortOrdered` | static/script.js:59-116 | in every mode, no later task compares below an earlier one |
| `SortEngine.StableSortKeepsPeerOrder` | static/script.js:59-116 | the sort is stable: the tasks the comparator ranks equal to any given task appear in the same relative order as in the input |
| `SortEngine.CompletedLast` | static/script.js:62 | in every mode, no completed task comes before an incomplete one |
| `SortEngine.UndatedLast` | static/script.js:63-75 | in both due-date modes, among tasks of the same completion state, a task without a due date comes after every task that has one |
| `SortEngine.DueDateAscOrder` | static/script.js:66 | due-date-asc puts earlier due dates first, among tasks of the same completion state |
| `SortEngine.DueDateDescOrder` | static/script.js:76 | due-date-desc puts later due dates first, among tasks of the same completion state |
| `SortEngine.PriorityAscOrder` | static/script.js:83-84 | priority-asc puts the heavier priority first (the inverted naming of the source) |
| `SortEngine.PriorityDescOrder` | static/script.js:91-92 | priority-desc puts the lighter priority first |
| `SortEngine.DefaultOrder` | static/script.js:100-113 | among incomplete tasks: heavier priority first; at equal priority, earlier due date first and undated tasks last |
| `SortEngine.DefaultKeepsCompletedOrder` | static/script.js:101 | in default mode the completed tasks keep the order they had in the cached list |
| `SortEngine.DueDateKeepsUndatedOrder` | static/script.js:63 | in both due-date modes two undated tasks of the same completion state keep their relative order |
| `JsText.TrimStart` | static/script.js:185-186 | the result is a suffix of the input, everything dropped is white space and the result does not start with white space |
| `JsText.TrimEnd` | static/script.js:185-186 | the result is a prefix of the input, everything dropped is white space and the result does not end with white space |
| `JsText.Trim` | static/script.js:185-186 | the trimmed string is empty exactly when the input is all white space, and otherwise starts and ends with a non-space |
| `JsText.TrimKeepsInfix` | static/script.js:185-186 | what trim keeps is the contiguous run of the input that starts after the leading white space, and everything after it is white space too |
| `JsText.TrimIdempotent` | static/script.js:185-186 | trimming twice is trimming once |
| `ViewController.Truthy` | static/script.js:157 | definition of the truthiness tests `if (taskId)` and `if (editingTaskId)` (line 197): null and 0 are false; `ViewController.Controller.OpenModal`, `ViewController.Controller.EditTask` and `ViewController.SubmitRequest` state the falsy and truthy cases |
| `ViewController.Find` | static/script.js:158 | `tasks.find(t => t.id === id)` finds nothing exactly when no cached task has the id, and otherwise finds the first one |
| `ViewController.Spread` | static/script.js:203 | object spread: spreading the empty object over a body, or a body over the empty object, gives that body; the rest is its definition, used by `EndToEnd.UpdateThenUpdate` |
| `ViewController.FormBody` | static/script.js:184-189 | `formData`: never carries id, completed or created_at, and its title is the trimmed title input; `EndToEnd.CreateStoresFormFields` and `EndToEnd.EditOfUncachedTask` state the description, due date and priority it carries |
| `ViewController.FormOf` | static/script.js:161-165 | definition of the form fields openModal fills from a task; `EndToEnd.ResubmitUnchanged` states that saving them unchanged stores the task as it was |
| `ViewController.SubmitRequest` | static/script.js:184-212 | no request exactly when the title is blank; with a falsy edit target, a POST of the trimmed form fields; with a truthy one, a PUT to that id whose body is the cached task with the form fields laid over it, or the bare form fields when the task is not cached |
| `ViewController.ToggleRequest` | static/script.js:223-231 | nothing for an id not in the cache; otherwise a PUT to that id of the cached task with `completed` negated and every other field as it was |
| `ViewController.Render` | static/script.js:43-118 | the placeholder exactly for an empty cache, otherwise cards, one per cached task |
| `ViewController.RenderShowsEveryTask` | static/script.js:43-118 | the "No tasks yet" placeholder shows exactly when the cache is empty; otherwise the cards show a permutation of the cache, completed tasks after the others |
| `ViewController.Controller.ClosedSubmitCreates` | static/script.js:175-179 | once the modal is closed there is no edit target, so a submit with a non-blank title is a POST of the form fields |
| `ViewController.Controller.constructor` | static/script.js:14-15 | the page starts with an empty cache, no edit target and the modal closed |
| `ViewController.Controller.RenderTasks` | static/script.js:43-118 | the list shows the placeholder or the sorted copy for the current sort value; only the view changes, so the cache is untouched |
| `ViewController.Controller.ChangeSort` | static/script.js:26 | a change of the sort select re-renders with the new value |
| `ViewController.Controller.LoadTasks` | static/script.js:32-41 | sends a GET; a parsed reply replaces the cache and renders it; a failure shows the error placeholder and keeps the cache; nothing else changes |
| `ViewController.Controller.OpenModal` | static/script.js:155-173 | the edit target becomes the argument and the modal opens; a falsy id opens create mode with a blank form; a truthy cached id fills the form from that task; a truthy id that is not cached leaves heading and form as they were; the cache and outbox are untouched |
| `ViewController.Controller.EditTask` | static/script.js:239-241 | an edit click is `openModal(id)`: the id becomes the edit target and the modal opens; id 0 opens create mode with a blank form; a cached id fills heading and form from the task; an uncached id leaves them as they were; cache, view, sort value, outbox and alerts are untouched |
| `ViewController.Controller.CloseModal` | static/script.js:175-179 | the modal closes, the form is reset and the edit target is forgotten; nothing else changes |
| `ViewController.Controller.HandleSubmit` | static/script.js:181-220 | a blank title only adds the "Title is required!" alert and changes nothing else; otherwise the request of `SubmitRequest` is sent; if `fetch` resolves, the modal closes and the list is reloaded; if it rejects, the save-error alert is added and the modal, form, edit target and cache are kept; the heading and sort value never change |
| `ViewController.Controller.SendAndClose` | static/script.js:196-219 | the `try`/`catch` of handleSubmit once the request is known: the request is sent; on success the modal closes, no alert is added and the reload replaces the cache or shows the error placeholder keeping it; on failure only the save-error alert is added; heading and sort value are kept |
| `ViewController.Controller.ToggleComplete` | static/script.js:222-237 | an id not in the cache sends nothing and changes nothing; otherwise the toggle request is sent; if `fetch` resolves, no alert is added and the reload replaces the cache, or on a failed reload shows the error placeholder and keeps the cache; if it rejects, only the update-error alert is added; the modal, form, heading and sort value never change |
| `ViewController.Controller.DeleteTask` | static/script.js:243-257 | declining the confirmation sends nothing and changes nothing; confirming sends the DELETE; if `fetch` resolves, no alert is added and the reload replaces the cache, or on a failed reload shows the error placeholder and keeps the cache; if it rejects, only the delete-error alert is added; the modal, form, heading and sort value never change |
| `EndToEnd.ToggleUpdatesOnlyCompleted` | static/script.js:230 | update_task applied to a toggle body turns the toggled task into itself with `completed` negated and nothing else changed |
| `EndToEnd.EditUpdatesFormFields` | static/script.js:199-203 | update_task applied to an edit body, on the cached task the body was built from, takes the trimmed title and description, the due date and the priority from the form, and keeps id, completion state and creation time |
| `EndToEnd.EditOfUncachedTask` | static/script.js:199-203 | an edit body for a task missing from the cache still sets all four form fields on the stored task |
| `EndToEnd.CreateStoresFormFields` | static/script.js:207-210 | create_task applied to a create body stores, at the end of the list, a task with a fresh id, the form's trimmed non-empty title, its other fields, and `completed` false |
| `EndToEnd.ResubmitUnchanged` | static/script.js:155-203 | opening a cached task for editing and saving without changes (title non-blank, title and description without surrounding white space) sends a PUT that update_task turns into the task itself |
| `EndToEnd.UpdateThenUpdate` | app.py:69-73 | two updates in a row equal one update with the spread of the two bodies |

## Left out

- The DOM is not modelled: `innerHTML`, `createTaskCard` and the listeners bound to each card (static/script.js:118-153). A render is the value `View`: the placeholder, the error placeholder, or the sorted cards.
- `escapeHtml` (static/script.js:259-263) is not modelled. It uses the browser's HTML serializer.
- `fetch`, `async`/`await`, `confirm` and `alert` are inputs and outputs of the actions.
  - Whether the request's promise resolved is the `delivered` parameter.
  - The reload's outcome is the `reload` parameter: `None` when the GET or its JSON parsing failed.
  - The confirmation is the `confirmed` parameter.
  - `alert` appends its message to `alerts`. `console.error` is dropped.
  - Requests are recorded in `outbox` in the order they are sent.
  - Interleavings of overlapping requests are not modelled. Every action runs to completion before the next.
- Dates are integer day numbers. `new Date(...)` parsing, millisecond differences and the NaN produced by an invalid date string are not modelled. A due date that is an empty string is treated like null.
- `datetime.now().isoformat()` is the `now` parameter of `TaskStore.CreateTask`.
- Flask routing, `request.json`, `jsonify` and reading and writing the JSON file (app.py:12-22, 30-39) are cut away.
  - The file is `Option<seq<Task>>`, and a handler's write is its `saved` result.
  - A request without a JSON body (`request.json` is `None`) is not modelled.
  - A body whose values have the wrong JSON type is not modelled either: a string priority outside the three known values, or a title that is not a string.
- `TaskStore.NextId` does not model `task.get('id', 0)` for a stored record without an id: every stored task carries an id.
- The server does not validate the title. The model does not add a check it lacks, so `TaskStore.CreateTask` stores whatever title the body carries.
- `index.html` is not part of this model. The start-up values it implies are stated in `ViewController.Controller.constructor` and `ViewController.BlankForm`: the sort select's first option, "default", and the reset form's priority, normal.
- `lint.py` is not modelled. It only runs an external linter.
- `ViewController.Controller.RenderTasks` copies the cache into a fresh array and sorts that array in place. The cards are kept as the resulting sequence, not as DOM nodes.

## Behaviour of the code worth knowing

- Editing an id that is not in the cache still changes state. `openModal` still records the id as the edit target and opens the modal with whatever the form last held. A following submit sends a PUT of the bare form fields.
- JavaScript truthiness applies to ids. `openModal(0)` and an edit target of 0 behave as create mode. The store never allocates id 0 (`TaskStore.NextId` is at least 1), so this matters only for data written by hand.
- Deleting the task with the largest id and then creating one reuses that id. `get_next_id` is fresh only with respect to the current list.
- An edit PUT carries every field of the cached copy of the task. When the stored task has changed since the last reload (its `completed` flag, say), the edit writes the cached values back over it.
