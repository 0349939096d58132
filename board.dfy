/** The task list held by the `App` component and its four event handlers. Each handler
    builds a new list from the old one (an append or a `map` over every task) and never
    changes a task in place, so each is a function from the old list to the new one. */
module Board {
  import opened JsString

  datatype Priority = High | Medium | Low

  /** The value `Date.now()` produced when the task was created. */
  type TaskId = int

  datatype Task = Task(
    id: TaskId,
    title: string,
    priority: Priority,
    assignedTo: string,   // "" while nobody is assigned
    completed: bool,
    message: string)

  /** The values of the assignee select: "" is its "Select Person" entry. */
  const PersonOptions: set<string> := {"", "Alice", "Bob", "Charlie"}

  /** The ids of the tasks, in list order. */
  function Ids(tasks: seq<Task>): (r: seq<TaskId>)
    ensures |r| == |tasks|
    ensures forall i :: 0 <= i < |tasks| ==> r[i] == tasks[i].id
  {
    seq(|tasks|, i requires 0 <= i < |tasks| => tasks[i].id)
  }

  /** The text shown for a completed task: it starts with the title and ends with the
      assignee, joined by " completed by ". */
  function CompletionMessage(title: string, person: string): (r: string)
    ensures |r| == |title| + |" completed by "| + |person|
    ensures r[..|title|] == title && r[|r| - |person|..] == person
    ensures r[|title|..|r| - |person|] == " completed by "
  {
    title + " completed by " + person
  }

  /** The message of a completed task names its assignee: for one title, two different
      assignees never give the same message. */
  lemma CompletionMessageNamesPerson(title: string, p: string, q: string)
    requires p != q
    ensures CompletionMessage(title, p) != CompletionMessage(title, q)
  {
    var mp, mq := CompletionMessage(title, p), CompletionMessage(title, q);
    if |p| == |q| {
      assert mp[|mp| - |p|..] == p && mq[|mq| - |q|..] == q;
    }
  }

  /** The task a successful submission of the form creates: it carries the id, the title
      as typed and the chosen priority, and starts with nobody assigned, not completed and
      with no message. */
  function NewTask(id: TaskId, title: string, priority: Priority): (t: Task)
    ensures t.id == id && t.title == title && t.priority == priority
    ensures t.assignedTo == "" && !t.completed && t.message == ""
  {
    Task(id, title, priority, "", false, "")
  }

  /** `addTask`: a title that is blank after trimming leaves the list as it is; any other
      title, kept untrimmed, becomes a new unassigned, incomplete task at the end. */
  function AddTask(tasks: seq<Task>, id: TaskId, title: string, priority: Priority): (r: seq<Task>)
    ensures IsBlank(title) ==> r == tasks
    ensures !IsBlank(title) ==> |r| == |tasks| + 1 && r[..|tasks|] == tasks
    ensures !IsBlank(title) ==> r[|tasks|] == Task(id, title, priority, "", false, "")
  {
    TrimIsEmptyIffBlank(title);
    if Trim(title) != [] then tasks + [NewTask(id, title, priority)] else tasks
  }

  /** `assignTask`: every task with the given id gets `person` as its assignee; nothing
      else about any task changes, and the list keeps its length and order. */
  function AssignTask(tasks: seq<Task>, id: TaskId, person: string): (r: seq<Task>)
    ensures |r| == |tasks|
    ensures forall i :: 0 <= i < |tasks| ==>
      && r[i].id == tasks[i].id
      && r[i].title == tasks[i].title
      && r[i].priority == tasks[i].priority
      && r[i].assignedTo == (if tasks[i].id == id then person else tasks[i].assignedTo)
      && r[i].completed == tasks[i].completed
      && r[i].message == tasks[i].message
  {
    seq(|tasks|, i requires 0 <= i < |tasks| =>
      if tasks[i].id == id then tasks[i].(assignedTo := person) else tasks[i])
  }

  /** `completeTask`: every task with the given id becomes completed, with the message
      built from its own title and its assignee at that moment; nothing else changes. */
  function CompleteTask(tasks: seq<Task>, id: TaskId): (r: seq<Task>)
    ensures |r| == |tasks|
    ensures forall i :: 0 <= i < |tasks| ==>
      && r[i].id == tasks[i].id
      && r[i].title == tasks[i].title
      && r[i].priority == tasks[i].priority
      && r[i].assignedTo == tasks[i].assignedTo
      && r[i].completed == (tasks[i].id == id || tasks[i].completed)
      && r[i].message == (if tasks[i].id == id then CompletionMessage(tasks[i].title, tasks[i].assignedTo)
                          else tasks[i].message)
  {
    seq(|tasks|, i requires 0 <= i < |tasks| =>
      if tasks[i].id == id
      then tasks[i].(completed := true, message := CompletionMessage(tasks[i].title, tasks[i].assignedTo))
      else tasks[i])
  }

  /** `markUnsuccessful`: every task with the given id loses its assignee, its completion
      and its message; its id, title and priority stay, and no other task changes. */
  function MarkUnsuccessful(tasks: seq<Task>, id: TaskId): (r: seq<Task>)
    ensures |r| == |tasks|
    ensures forall i :: 0 <= i < |tasks| ==>
      && r[i].id == tasks[i].id
      && r[i].title == tasks[i].title
      && r[i].priority == tasks[i].priority
      && (tasks[i].id == id ==> r[i].assignedTo == "" && !r[i].completed && r[i].message == "")
      && (tasks[i].id != id ==> r[i] == tasks[i])
  {
    seq(|tasks|, i requires 0 <= i < |tasks| =>
      if tasks[i].id == id then tasks[i].(assignedTo := "", completed := false, message := "")
      else tasks[i])
  }

  /** None of the three `map` handlers does anything when no task has the id. */
  lemma UnknownIdIsNoOp(tasks: seq<Task>, id: TaskId, person: string)
    requires id !in Ids(tasks)
    ensures AssignTask(tasks, id, person) == tasks
    ensures CompleteTask(tasks, id) == tasks
    ensures MarkUnsuccessful(tasks, id) == tasks
  {
    forall i | 0 <= i < |tasks| ensures tasks[i].id != id {
      assert Ids(tasks)[i] == tasks[i].id;
    }
  }

  /** Completing twice with the same id gives the list that completing once gives. */
  lemma CompleteTaskIdempotent(tasks: seq<Task>, id: TaskId)
    ensures CompleteTask(CompleteTask(tasks, id), id) == CompleteTask(tasks, id)
  {
    var once := CompleteTask(tasks, id);
    var twice := CompleteTask(once, id);
    forall i | 0 <= i < |tasks| ensures twice[i] == once[i] {
      if tasks[i].id == id {
        assert once[i].title == tasks[i].title && once[i].assignedTo == tasks[i].assignedTo;
      }
    }
  }

  /** Assigning the same person twice is the same as assigning once, and a later
      assignment to the same id overrides an earlier one. */
  lemma AssignTaskOverwrites(tasks: seq<Task>, id: TaskId, p: string, q: string)
    ensures AssignTask(AssignTask(tasks, id, p), id, q) == AssignTask(tasks, id, q)
  {
    var first := AssignTask(tasks, id, p);
    var both := AssignTask(first, id, q);
    var direct := AssignTask(tasks, id, q);
    forall i | 0 <= i < |tasks| ensures both[i] == direct[i] {
    }
  }

  /** None of the handlers moves, drops or renumbers a task: the ids of the old list are
      a prefix of the ids of the new one (all of them, for the three `map` handlers). */
  lemma HandlersKeepIds(tasks: seq<Task>, id: TaskId, title: string, priority: Priority, person: string)
    ensures Ids(AssignTask(tasks, id, person)) == Ids(tasks)
    ensures Ids(CompleteTask(tasks, id)) == Ids(tasks)
    ensures Ids(MarkUnsuccessful(tasks, id)) == Ids(tasks)
    ensures Ids(tasks) <= Ids(AddTask(tasks, id, title, priority))
  {
    var added := AddTask(tasks, id, title, priority);
    assert Ids(added)[..|tasks|] == Ids(tasks) by {
      forall i | 0 <= i < |tasks| ensures Ids(added)[i] == Ids(tasks)[i] {
        assert added[i] == added[..|tasks|][i];
      }
    }
  }
}
