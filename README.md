# Task board: a Dafny model of the dashboard's task state machine

The dashboard keeps an ordered list of tasks. Each task has an id, a title, a priority
(High, Medium or Low), an assignee (`""` or one of Alice, Bob and Charlie), a completion
flag and a completion message. Four event handlers replace the whole list:

- `addTask` appends a new task unless the title is blank after trimming.
- `assignTask` sets the assignee of the tasks with a given id.
- `completeTask` marks them completed with the message `"<title> completed by <assignee>"`.
- `markUnsuccessful` clears their assignee, completion and message.

Three stable filters split the list into the frames "To Be Assigned", "Assigned Tasks" and
"Completed Tasks". The `Task` component decides which controls a task shows:
- The assignee select appears only on a task that is not completed.
- The Complete and Mark Unsuccessful buttons appear only on a task that is not completed
  and has an assignee.

Files and modules:

- `jsstring.dfy`, module `JsString`: the white-space test and `trim` that decide whether a
  title is accepted.
- `board.dfy`, module `Board`: the `Task` record and the four handlers. Each handler is a
  pure function from the old list to the new one, as the source builds a new array each
  time. There are also lemmas about the handlers.
- `columns.dfy`, module `Columns`: the three frames as filters. Lemmas show they partition
  the list and keep its order.
- `controls.dfy`, module `TaskControls`: the events a user can cause, gated as the `Task`
  component gates them. It also holds the board invariant these gated events keep, and
  the id finding below.

The handlers themselves check nothing: `AssignTask`, `CompleteTask` and
`MarkUnsuccessful` update every task whose id matches, whatever state it is in. The gates
of the `Task` component appear as `TaskControls.Enabled`, the precondition of the
user-reachable steps.

The clock reading that `Date.now()` supplies is a parameter of the submit event. As
written, `addTask` uses that reading as the new task's id, which two tasks can share (see
Findings). The user-reachable step `TaskControls.Step` therefore gives the new task the
corrected id `TaskControls.NextId`. That id equals the clock reading whenever no task has
it yet.

Some consequences of the code, each modelled as the code has it:

- With the corrected id `NextId`, a completed task is final in the dashboard. The Mark
  Unsuccessful button sits inside the block rendered only when `!completed`
  (App.js:14-31), and so does the assignee select (`TaskControls.StepPreservesInvariant`,
  `TaskControls.LifecycleControls`). The handler itself would still reset a completed
  task (`TaskControls.LifecycleBoards`). With ids taken from the clock as written, a
  completed task can still be rewritten through another task's select
  (`TaskControls.ClockIdCollision`).
- Each of the three `map` handlers goes over the whole list and changes every task with the given id.
- `addTask` returns nothing.
- `addTask` tests the trimmed title but stores the title untrimmed.

## Model

| member | source | states |
|---|---|---|
| `JsString.IsWhitespace` | fsdl-app/src/App.js:46 | the characters `trim` removes, ECMAScript white space and line terminators; letters and digits are never among them, while space, tab, line feed and carriage return always are |
| `JsString.IsBlank` | fsdl-app/src/App.js:46 | every character of the title is white space, which holds exactly when dropping the leading white space leaves nothing |
| `JsString.TrimStart` | fsdl-app/src/App.js:46 | the result is a suffix of the input that does not start with white space, and everything dropped is white space |
| `JsString.TrimEnd` | fsdl-app/src/App.js:46 | the result is a prefix of the input that does not end with white space, and everything dropped is white space |
| `JsString.Trim` | fsdl-app/src/App.js:46 | the trimmed title is the stretch of the title after its leading white space and before its trailing white space: each kept character is the title's own character at the shifted position, everything removed is white space, and the result has no white space at either end |
| `JsString.TrimIsEmptyIffBlank` | fsdl-app/src/App.js:46 | `title.trim()` is the empty (falsy) string exactly when every character of the title is white space |
| `Board.CompletionMessage` | fsdl-app/src/App.js:78 | the message is the title, then " completed by ", then the assignee |
| `Board.CompletionMessageNamesPerson` | fsdl-app/src/App.js:78 | for one title, different assignees give different messages, so the message names the assignee |
| `Board.NewTask` | fsdl-app/src/App.js:47-54 | the new task carries the id, the title as typed and the chosen priority, with nobody assigned, not completed and no message |
| `Board.AddTask` | fsdl-app/src/App.js:44-59 | a blank title leaves the list unchanged; otherwise exactly one task is appended, with the untrimmed title, the chosen priority, no assignee, not completed and no message, and the old tasks are kept as a prefix |
| `Board.AssignTask` | fsdl-app/src/App.js:62-68 | same length and order; tasks with the id get the new assignee; every other field of every task, and every task with another id, is unchanged |
| `Board.CompleteTask` | fsdl-app/src/App.js:71-83 | same length and order; tasks with the id become completed with the message built from their own title and current assignee; id, title, priority and assignee are unchanged, and so is every other task |
| `Board.MarkUnsuccessful` | fsdl-app/src/App.js:86-99 | same length and order; tasks with the id lose assignee, completion and message but keep id, title and priority; every other task is unchanged |
| `Board.UnknownIdIsNoOp` | fsdl-app/src/App.js:62-99 | when no task has the id, assigning, completing and marking unsuccessful each return the list unchanged |
| `Board.CompleteTaskIdempotent` | fsdl-app/src/App.js:73-79 | completing twice with the same id gives the same list as completing once |
| `Board.AssignTaskOverwrites` | fsdl-app/src/App.js:64-65 | a second assignment to the same id overrides the first |
| `Board.HandlersKeepIds` | fsdl-app/src/App.js:55-97 | the three `map` handlers keep the ids of the list exactly; `addTask` keeps them as a prefix |
| `Columns.IsUnassigned` | fsdl-app/src/App.js:102 | the test `!task.assignedTo && !task.completed`, with `""` as the falsy assignee; a task that passes it passes neither of the other two filters |
| `Columns.IsAssigned` | fsdl-app/src/App.js:103 | the test `task.assignedTo && !task.completed`; a task that passes it is not completed |
| `Columns.IsCompleted` | fsdl-app/src/App.js:104 | the test `task.completed`, whoever is assigned |
| `Columns.ExactlyOneFrame` | fsdl-app/src/App.js:102-104 | a task is completed exactly when it passes neither of the two other filters, and no task passes both of them |
| `Columns.ColumnOf` | fsdl-app/src/App.js:102-104 | each of the three filter predicates holds exactly when the task's frame is the matching one, so every task satisfies exactly one of them |
| `Columns.Filter` | fsdl-app/src/App.js:102-104 | a filter is no longer than the list and holds only tasks the predicate accepts |
| `Columns.Unassigned` | fsdl-app/src/App.js:102 | `unassignedTasks`: no longer than the list, and every task it lists belongs to "To Be Assigned" |
| `Columns.Assigned` | fsdl-app/src/App.js:103 | `assignedTasks`: no longer than the list, and every task it lists belongs to "Assigned Tasks" |
| `Columns.Completed` | fsdl-app/src/App.js:104 | `completedTasks`: no longer than the list, and every task it lists belongs to "Completed Tasks" |
| `Columns.Positions` | fsdl-app/src/App.js:102-104 | the positions of the accepted tasks, strictly increasing, each accepted, and none missing |
| `Columns.FilterIsOrderedSubsequence` | fsdl-app/src/App.js:102-104 | each filter is the subsequence of the list at the accepted positions, in their original order |
| `Columns.ColumnsPartition` | fsdl-app/src/App.js:102-104 | the multisets of the three frames add up to the multiset of the list: every task lands in exactly one frame and none is lost |
| `Columns.ColumnSizesAddUp` | fsdl-app/src/App.js:102-104 | the sizes of the three frames add up to the size of the list |
| `Columns.ColumnsPartitionPositions` | fsdl-app/src/App.js:102-104 | every index of the list is among the positions of exactly one frame, and each frame is the ordered subsequence at its positions |
| `Columns.AddTaskJoinsUnassigned` | fsdl-app/src/App.js:47-55 | an accepted new task goes to the end of "To Be Assigned" and the other two frames are unchanged |
| `Columns.MarkUnsuccessfulUnassigns` | fsdl-app/src/App.js:86-102 | after `markUnsuccessful` every task with that id is in "To Be Assigned" |
| `TaskControls.ShowsAssigneeSelect` | fsdl-app/src/App.js:14-24 | the assignee select is rendered exactly on tasks that are not completed, that is, on the tasks of "To Be Assigned" and "Assigned Tasks" |
| `TaskControls.ShowsOutcomeButtons` | fsdl-app/src/App.js:14-30 | the Complete and Mark Unsuccessful buttons are rendered exactly on the tasks of "Assigned Tasks", and only beside the assignee select |
| `TaskControls.Enabled` | fsdl-app/src/App.js:14-131 | the form can always be submitted; the select acts only on the id of a task that is not completed, and offers only its four values; the buttons act only on the id of an assigned task that is not completed |
| `TaskControls.Step` | fsdl-app/src/App.js:18-111 | each event runs its handler; only an accepted submission changes the number of tasks, adding one at the end with an id not in use, which is the clock reading when that reading is free; a blank submission changes nothing |
| `TaskControls.NextId` | fsdl-app/src/App.js:48 | the id given to a new task is never in use, and it is the clock reading whenever that reading is not in use |
| `TaskControls.SubmitPreservesInvariant` | fsdl-app/src/App.js:44-59 | a submission keeps unique ids and well-formed tasks and leaves every existing task in place |
| `TaskControls.StepPreservesInvariant` | fsdl-app/src/App.js:14-99 | every event the controls allow keeps the invariant (unique ids; assignee one of the select's values; completed implies an assignee and the matching message; not completed implies no message), never shortens the board, and leaves every completed task unchanged |
| `TaskControls.RunPreservesInvariant` | fsdl-app/src/App.js:14-99 | over any run of allowed events the invariant holds throughout and a completed task never changes again |
| `TaskControls.ReachableBoardsAreWellFormed` | fsdl-app/src/App.js:39-99 | every board reachable from the empty start through allowed events satisfies the invariant |
| `TaskControls.StepKeepsIds` | fsdl-app/src/App.js:44-99 | no event moves, drops or renumbers a task |
| `TaskControls.RunKeepsInsertionOrder` | fsdl-app/src/App.js:55-104 | after any run of events, allowed or not, the old ids are a prefix of the new ones, so the frames keep insertion order |
| `TaskControls.ClockIdCollision` | fsdl-app/src/App.js:48 | with the clock reading equal to the id of a completed task, the submission yields two tasks with one id, and selecting another person on the new task also rewrites the completed one into an ill-formed task |
| `TaskControls.CollidingBoard` | fsdl-app/src/App.js:44-59 | after a colliding submission the ids are no longer unique and the new task's select is offered |
| `TaskControls.CollidingAssignment` | fsdl-app/src/App.js:62-68 | selecting a different person on that board changes the completed task, which stays completed but is no longer well-formed |
| `TaskControls.ReassignedCompletedTask` | fsdl-app/src/App.js:62-68 | a completed task given a different assignee is no longer well-formed |
| `TaskControls.LifecycleBoards` | fsdl-app/src/App.js:44-104 | for any title that is not blank, any priority and any person: adding, assigning and completing take the task from "To Be Assigned" through "Assigned Tasks" to "Completed Tasks", with the message naming the title and the person; Mark Unsuccessful, from the assigned or the completed state, gives back the new task |
| `TaskControls.LifecycleControls` | fsdl-app/src/App.js:14-29 | the select is offered on a new task but the buttons are not; both buttons are offered once it is assigned; once completed, neither the select nor Mark Unsuccessful is offered |

## Left out

- JSX rendering, CSS classes and the `Task` markup beyond which controls it shows: presentation only.
- React's `useState` machinery, update batching and handlers that capture an older `tasks`: framework behaviour not visible in this source. Each event is applied to the current board.
- `Date.now()`: a clock read. The reading is the `clock` parameter of the submit event. `TaskControls.Step` gives the new task the corrected id `NextId` built from it, which is that reading whenever no task has it yet (see Findings).
- The form's own state: the text field, the priority select's reset to Low after a submission (App.js:56-57) and `e.preventDefault()`. A submission takes its title and priority as parameters.
- JavaScript strings are UTF-16 code units. The model works on Unicode scalar values; every character `trim` removes is a single code unit, so this does not change which titles are blank.
- Ids are JavaScript numbers; the model uses unbounded integers, which agree with every millisecond clock value.

## Findings

| source | as written | input that shows it | evidently intended | confidence | as-written member | corrected member |
|---|---|---|---|---|---|---|
| fsdl-app/src/App.js:48 | a new task's id is the clock reading `Date.now()`, with no check against the ids in use | a task completed by Alice has id 5; after the clock is set back, a title is submitted while it reads 5 again; Bob is chosen on the new task's select | every task has its own id, so that each control changes only its own task | medium (needs a repeated clock reading); not executed | `TaskControls.ClockIdCollision` | `TaskControls.NextId` |

With the id from `NextId`, the submit step keeps ids unique (`TaskControls.SubmitPreservesInvariant`). It then agrees with `Date.now()` whenever the clock reading is not in use. The gated steps and `TaskControls.StepPreservesInvariant` use this corrected id.
