/** What a user can do through the dashboard. The `Task` component shows the assignee
    select only on a task that is not completed, and the Complete and Mark Unsuccessful
    buttons only on a task that is not completed and has an assignee; the form can always
    be submitted. The handlers themselves check none of this, so the gates are the
    preconditions of the user-reachable steps below. */
module TaskControls {
  import opened JsString
  import opened Board
  import opened Columns

  /** The assignee select is rendered for this task: exactly on the tasks of the
      "To Be Assigned" and "Assigned Tasks" frames. */
  predicate ShowsAssigneeSelect(t: Task): (b: bool)
    ensures b <==> ColumnOf(t) != CompletedTasks
  {
    !t.completed
  }

  /** The Complete and Mark Unsuccessful buttons are rendered for this task: exactly on the
      tasks of the "Assigned Tasks" frame, and only beside the assignee select. */
  predicate ShowsOutcomeButtons(t: Task): (b: bool)
    ensures b <==> ColumnOf(t) == AssignedTasks
    ensures b ==> ShowsAssigneeSelect(t)
  {
    !t.completed && t.assignedTo != ""
  }

  /** One user event: a form submission at clock reading `clock`, a change of a task's
      assignee select, or a click on one of its two buttons. */
  datatype Action =
    | Submit(clock: int, title: string, priority: Priority)
    | SelectPerson(id: TaskId, person: string)
    | ClickComplete(id: TaskId)
    | ClickUnsuccessful(id: TaskId)

  /** Some rendered task has this id and satisfies the gate. */
  predicate RenderedWith(tasks: seq<Task>, id: TaskId, gate: Task -> bool) {
    exists i :: 0 <= i < |tasks| && tasks[i].id == id && gate(tasks[i])
  }

  /** The event can be produced on the current board: the select offers only its four
      values, and a control exists only on a task whose gate lets it be shown. So the form
      is always available, the select only acts on an id of a task that is not completed,
      and the buttons only on an id of an assigned task that is not completed. */
  predicate Enabled(tasks: seq<Task>, a: Action): (b: bool)
    ensures a.Submit? ==> b
    ensures b && !a.Submit? ==>
      exists i :: 0 <= i < |tasks| && tasks[i].id == a.id && ColumnOf(tasks[i]) != CompletedTasks
    ensures b && (a.ClickComplete? || a.ClickUnsuccessful?) ==>
      exists i :: 0 <= i < |tasks| && tasks[i].id == a.id && ColumnOf(tasks[i]) == AssignedTasks
  {
    match a
    case Submit(_, _, _) => true
    case SelectPerson(id, person) => person in PersonOptions && RenderedWith(tasks, id, ShowsAssigneeSelect)
    case ClickComplete(id) => RenderedWith(tasks, id, ShowsOutcomeButtons)
    case ClickUnsuccessful(id) => RenderedWith(tasks, id, ShowsOutcomeButtons)
  }

  /** The largest id on a non-empty board. */
  function MaxId(tasks: seq<Task>): (m: TaskId)
    requires tasks != []
    ensures forall i :: 0 <= i < |tasks| ==> tasks[i].id <= m
    ensures exists i :: 0 <= i < |tasks| && tasks[i].id == m
  {
    if |tasks| == 1 then tasks[0].id
    else
      var rest := MaxId(tasks[1..]);
      assert forall i :: 1 <= i < |tasks| ==> tasks[i] == tasks[1..][i - 1];
      if tasks[0].id >= rest then tasks[0].id else rest
  }

  /** The id a new task gets: the clock reading, as `addTask` uses it, whenever no task
      has that id yet; otherwise one more than the largest id in use. Never in use. */
  function NextId(tasks: seq<Task>, clock: int): (id: TaskId)
    ensures id !in Ids(tasks)
    ensures clock !in Ids(tasks) ==> id == clock
  {
    if clock !in Ids(tasks) then clock
    else
      var m := MaxId(tasks);
      assert forall i :: 0 <= i < |tasks| ==> Ids(tasks)[i] < m + 1;
      m + 1
  }

  /** The handler each event runs. Only an accepted submission changes the number of tasks:
      it adds one at the end with an id not in use, the clock reading when that is free. */
  function Step(tasks: seq<Task>, a: Action): (r: seq<Task>)
    ensures !a.Submit? ==> |r| == |tasks|
    ensures a.Submit? && IsBlank(a.title) ==> r == tasks
    ensures a.Submit? && !IsBlank(a.title) ==>
      && |r| == |tasks| + 1 && r[..|tasks|] == tasks
      && r[|tasks|].id !in Ids(tasks)
      && (a.clock !in Ids(tasks) ==> r[|tasks|].id == a.clock)
  {
    match a
    case Submit(clock, title, priority) => AddTask(tasks, NextId(tasks, clock), title, priority)
    case SelectPerson(id, person) => AssignTask(tasks, id, person)
    case ClickComplete(id) => CompleteTask(tasks, id)
    case ClickUnsuccessful(id) => MarkUnsuccessful(tasks, id)
  }

  /** The events applied one after the other. */
  function Run(tasks: seq<Task>, actions: seq<Action>): seq<Task>
    decreases |actions|
  {
    if actions == [] then tasks else Run(Step(tasks, actions[0]), actions[1..])
  }

  /** Every event of the run is enabled on the board it is applied to. */
  predicate AllEnabled(tasks: seq<Task>, actions: seq<Action>)
    decreases |actions|
  {
    actions == [] || (Enabled(tasks, actions[0]) && AllEnabled(Step(tasks, actions[0]), actions[1..]))
  }

  /** No two tasks share an id. */
  predicate UniqueIds(tasks: seq<Task>) {
    forall i, j :: 0 <= i < j < |tasks| ==> tasks[i].id != tasks[j].id
  }

  /** A task as the dashboard can show it: the assignee is one the select offers; a
      completed task has an assignee and the message naming its title and that assignee;
      a task that is not completed has no message. */
  predicate WellFormed(t: Task) {
    && t.assignedTo in PersonOptions
    && (t.completed ==> t.assignedTo != "" && t.message == CompletionMessage(t.title, t.assignedTo))
    && (!t.completed ==> t.message == "")
  }

  predicate BoardInvariant(tasks: seq<Task>) {
    UniqueIds(tasks) && forall i :: 0 <= i < |tasks| ==> WellFormed(tasks[i])
  }

  /** With unique ids, the task behind an enabled control is the only one its id selects. */
  lemma OnlyTarget(tasks: seq<Task>, id: TaskId, gate: Task -> bool) returns (j: nat)
    requires UniqueIds(tasks) && RenderedWith(tasks, id, gate)
    ensures j < |tasks| && tasks[j].id == id && gate(tasks[j])
    ensures forall i :: 0 <= i < |tasks| && tasks[i].id == id ==> i == j
  {
    j :| 0 <= j < |tasks| && tasks[j].id == id && gate(tasks[j]);
  }

  /** A new board that differs from a well-formed one only at a task that was not
      completed, which is well-formed again and keeps its id, is well-formed too and has
      every completed task unchanged. */
  lemma ChangeOneTask(tasks: seq<Task>, r: seq<Task>, j: nat)
    requires BoardInvariant(tasks) && |r| == |tasks| && j < |tasks|
    requires forall i :: 0 <= i < |tasks| && i != j ==> r[i] == tasks[i]
    requires r[j].id == tasks[j].id && WellFormed(r[j]) && !tasks[j].completed
    ensures BoardInvariant(r)
    ensures forall i :: 0 <= i < |tasks| && tasks[i].completed ==> r[i] == tasks[i]
  {
    assert forall i :: 0 <= i < |r| ==> r[i].id == tasks[i].id;
  }

  /** Appending a well-formed task whose id is not in use keeps the invariant. */
  lemma AppendFreshTask(tasks: seq<Task>, t: Task)
    requires BoardInvariant(tasks) && WellFormed(t) && t.id !in Ids(tasks)
    ensures BoardInvariant(tasks + [t])
  {
    var r := tasks + [t];
    forall i | 0 <= i < |tasks| ensures r[i] == tasks[i] && tasks[i].id != t.id {
      assert Ids(tasks)[i] == tasks[i].id;
    }
  }

  /** A submission keeps the invariant: the new task, if any, is well-formed and its id,
      from `NextId`, is not in use. */
  lemma SubmitPreservesInvariant(tasks: seq<Task>, clock: int, title: string, priority: Priority)
    requires BoardInvariant(tasks)
    ensures BoardInvariant(Step(tasks, Submit(clock, title, priority)))
    ensures |Step(tasks, Submit(clock, title, priority))| >= |tasks|
    ensures forall i :: 0 <= i < |tasks| ==> Step(tasks, Submit(clock, title, priority))[i] == tasks[i]
  {
    var id := NextId(tasks, clock);
    var r := Step(tasks, Submit(clock, title, priority));
    if !IsBlank(title) {
      assert r == tasks + [NewTask(id, title, priority)];
      AppendFreshTask(tasks, NewTask(id, title, priority));
    }
  }

  /** An enabled event keeps the board invariant, never shortens the board, and leaves
      every completed task exactly as it was: in the dashboard a completed task is final. */
  lemma StepPreservesInvariant(tasks: seq<Task>, a: Action)
    requires BoardInvariant(tasks) && Enabled(tasks, a)
    ensures BoardInvariant(Step(tasks, a))
    ensures |Step(tasks, a)| >= |tasks|
    ensures forall i :: 0 <= i < |tasks| && tasks[i].completed ==> Step(tasks, a)[i] == tasks[i]
  {
    var r := Step(tasks, a);
    match a
    case Submit(clock, title, priority) =>
      SubmitPreservesInvariant(tasks, clock, title, priority);
    case SelectPerson(id, person) =>
      var j := OnlyTarget(tasks, id, ShowsAssigneeSelect);
      ChangeOneTask(tasks, r, j);
    case ClickComplete(id) =>
      var j := OnlyTarget(tasks, id, ShowsOutcomeButtons);
      ChangeOneTask(tasks, r, j);
    case ClickUnsuccessful(id) =>
      var j := OnlyTarget(tasks, id, ShowsOutcomeButtons);
      ChangeOneTask(tasks, r, j);
  }

  /** Over any run of enabled events the invariant holds, the board only grows, and a
      task that is completed stays at its place unchanged for the rest of the run. */
  lemma {:induction false} RunPreservesInvariant(tasks: seq<Task>, actions: seq<Action>)
    requires BoardInvariant(tasks) && AllEnabled(tasks, actions)
    ensures BoardInvariant(Run(tasks, actions))
    ensures |Run(tasks, actions)| >= |tasks|
    ensures forall i :: 0 <= i < |tasks| && tasks[i].completed ==> Run(tasks, actions)[i] == tasks[i]
    decreases |actions|
  {
    if actions != [] {
      var next := Step(tasks, actions[0]);
      StepPreservesInvariant(tasks, actions[0]);
      RunPreservesInvariant(next, actions[1..]);
    }
  }

  /** Every board the dashboard can reach from its empty start satisfies the invariant. */
  lemma ReachableBoardsAreWellFormed(actions: seq<Action>)
    requires AllEnabled([], actions)
    ensures BoardInvariant(Run([], actions))
  {
    RunPreservesInvariant([], actions);
  }

  /** No handler moves, drops or renumbers a task. */
  lemma StepKeepsIds(tasks: seq<Task>, a: Action)
    ensures Ids(tasks) <= Ids(Step(tasks, a))
  {
    match a
    case Submit(clock, title, priority) => HandlersKeepIds(tasks, NextId(tasks, clock), title, priority, "");
    case SelectPerson(id, person) => HandlersKeepIds(tasks, id, "", Low, person);
    case ClickComplete(id) => HandlersKeepIds(tasks, id, "", Low, "");
    case ClickUnsuccessful(id) => HandlersKeepIds(tasks, id, "", Low, "");
  }

  /** Whatever the events, enabled or not, the ids on the board before a run are a prefix
      of the ids after it, so every frame keeps insertion order for good. */
  lemma {:induction false} RunKeepsInsertionOrder(tasks: seq<Task>, actions: seq<Action>)
    ensures Ids(tasks) <= Ids(Run(tasks, actions))
    decreases |actions|
  {
    if actions != [] {
      var next := Step(tasks, actions[0]);
      StepKeepsIds(tasks, actions[0]);
      RunKeepsInsertionOrder(next, actions[1..]);
    }
  }

  /** `addTask` as written takes `Date.now()` as the id. After the clock was set back, a
      submission can read again the id of a task that is already completed. Then the
      select of the new task also rewrites that completed task: it gets a different
      assignee while its message still names the earlier one. (Two submissions in one
      millisecond also share an id, but such twins go through every handler together and
      only become impossible to tell apart.) */
  lemma ClockIdCollision(done: Task, title: string, priority: Priority, person: string)
    requires done.completed && WellFormed(done) && !IsBlank(title)
    requires person in PersonOptions && person != done.assignedTo
    ensures
      var board := AddTask([done], done.id, title, priority);
      var after := AssignTask(board, done.id, person);
      && BoardInvariant([done])
      && Enabled(board, SelectPerson(done.id, person))
      && !UniqueIds(board)
      && |after| == 2 && after[0].completed && after[0] != done
      && !WellFormed(after[0])
  {
    CollidingBoard(done, title, priority, person);
    CollidingAssignment(done, title, priority, person);
  }

  /** The board after a colliding submission: two tasks with one id, and the new task's
      select is offered. */
  lemma CollidingBoard(done: Task, title: string, priority: Priority, person: string)
    requires done.completed && WellFormed(done) && !IsBlank(title) && person in PersonOptions
    ensures
      var board := AddTask([done], done.id, title, priority);
      && BoardInvariant([done])
      && Enabled(board, SelectPerson(done.id, person))
      && !UniqueIds(board)
  {
    var board := AddTask([done], done.id, title, priority);
    assert |board| == 2 && board[0] == done && board[1] == NewTask(done.id, title, priority);
    assert RenderedWith(board, done.id, ShowsAssigneeSelect) by { assert ShowsAssigneeSelect(board[1]); }
    assert BoardInvariant([done]) by { assert [done][0] == done; }
  }

  /** Selecting a different person on that board also rewrites the completed task. */
  lemma CollidingAssignment(done: Task, title: string, priority: Priority, person: string)
    requires done.completed && WellFormed(done) && !IsBlank(title) && person != done.assignedTo
    ensures
      var after := AssignTask(AddTask([done], done.id, title, priority), done.id, person);
      |after| == 2 && after[0].completed && after[0] != done && !WellFormed(after[0])
  {
    var board := AddTask([done], done.id, title, priority);
    assert board[0] == done;
    var after := AssignTask(board, done.id, person);
    assert after[0] == done.(assignedTo := person);
    ReassignedCompletedTask(done, person);
  }

  /** A completed task that gets a different assignee is no longer well-formed: either it
      is completed with nobody assigned, or its message names someone else. */
  lemma ReassignedCompletedTask(t: Task, person: string)
    requires t.completed && WellFormed(t) && person != t.assignedTo
    ensures !WellFormed(t.(assignedTo := person))
  {
    if person != "" {
      CompletionMessageNamesPerson(t.title, t.assignedTo, person);
    }
  }

  /** On a board holding one task: what each handler does to it and which of its
      controls are shown. */
  lemma SingleTaskSteps(t: Task, person: string)
    ensures Step([t], SelectPerson(t.id, person)) == [t.(assignedTo := person)]
    ensures Step([t], ClickComplete(t.id))
         == [t.(completed := true, message := CompletionMessage(t.title, t.assignedTo))]
    ensures Step([t], ClickUnsuccessful(t.id)) == [t.(assignedTo := "", completed := false, message := "")]
    ensures RenderedWith([t], t.id, ShowsAssigneeSelect) == ShowsAssigneeSelect(t)
    ensures RenderedWith([t], t.id, ShowsOutcomeButtons) == ShowsOutcomeButtons(t)
  {
    assert [t][0] == t;
  }

  /** On a board holding one task, the frame that lists it. */
  lemma SingleTaskColumns(t: Task)
    ensures Unassigned([t]) == (if IsUnassigned(t) then [t] else [])
    ensures Assigned([t]) == (if IsAssigned(t) then [t] else [])
    ensures Completed([t]) == (if IsCompleted(t) then [t] else [])
  {
  }

  /** The life of one task, for any title that is not blank, any priority and any person
      the select offers: it is added to "To Be Assigned", moves to "Assigned Tasks" when assigned and
      to "Completed Tasks" when completed, with the message naming the title and the
      person; Mark Unsuccessful on it, assigned or completed, gives back the new task. */
  lemma LifecycleBoards(clock: int, title: string, priority: Priority, person: string)
    requires !IsBlank(title) && person in PersonOptions && person != ""
    ensures
      var b1 := Step([], Submit(clock, title, priority));
      var b2 := Step(b1, SelectPerson(clock, person));
      var b3 := Step(b2, ClickComplete(clock));
      && b1 == [Task(clock, title, priority, "", false, "")]
      && b2 == [Task(clock, title, priority, person, false, "")]
      && b3 == [Task(clock, title, priority, person, true, CompletionMessage(title, person))]
      && Unassigned(b1) == b1 && Assigned(b1) == [] && Completed(b1) == []
      && Unassigned(b2) == [] && Assigned(b2) == b2 && Completed(b2) == []
      && Unassigned(b3) == [] && Assigned(b3) == [] && Completed(b3) == b3
      && Step(b2, ClickUnsuccessful(clock)) == b1 && Step(b3, ClickUnsuccessful(clock)) == b1
  {
    var t := Task(clock, title, priority, "", false, "");
    assert Step([], Submit(clock, title, priority)) == [t];
    var t2 := t.(assignedTo := person);
    var t3 := t2.(completed := true, message := CompletionMessage(title, person));
    SingleTaskSteps(t, person);
    SingleTaskSteps(t2, person);
    SingleTaskSteps(t3, person);
    SingleTaskColumns(t);
    SingleTaskColumns(t2);
    SingleTaskColumns(t3);
  }

  /** Which events the dashboard offers along that life: the select on the new task;
      Complete and Mark Unsuccessful once it is assigned, but not before; and, once it is
      completed, neither the select nor Mark Unsuccessful. */
  lemma LifecycleControls(clock: int, title: string, priority: Priority, person: string)
    requires person in PersonOptions && person != ""
    ensures
      var t1 := Task(clock, title, priority, "", false, "");
      var t2 := t1.(assignedTo := person);
      var t3 := t2.(completed := true, message := CompletionMessage(title, person));
      && Enabled([t1], SelectPerson(clock, person))
      && !Enabled([t1], ClickComplete(clock)) && !Enabled([t1], ClickUnsuccessful(clock))
      && Enabled([t2], ClickComplete(clock)) && Enabled([t2], ClickUnsuccessful(clock))
      && !Enabled([t3], ClickUnsuccessful(clock)) && !Enabled([t3], SelectPerson(clock, ""))
  {
    var t1 := Task(clock, title, priority, "", false, "");
    var t2 := t1.(assignedTo := person);
    var t3 := t2.(completed := true, message := CompletionMessage(title, person));
    SingleTaskSteps(t1, person);
    SingleTaskSteps(t2, person);
    SingleTaskSteps(t3, person);
  }
}
