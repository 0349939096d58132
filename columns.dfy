/** The three frames of the dashboard: each is a stable filter of the task list, and
    together they split it into unassigned, assigned and completed tasks. */
module Columns {
  import opened Board

  /** "To Be Assigned": no assignee and not completed; such a task is in no other frame. */
  predicate IsUnassigned(t: Task): (b: bool)
    ensures b ==> !IsAssigned(t) && !IsCompleted(t)
  {
    t.assignedTo == "" && !t.completed
  }

  /** "Assigned Tasks": an assignee and not completed; such a task is not completed. */
  predicate IsAssigned(t: Task): (b: bool)
    ensures b ==> !IsCompleted(t)
  {
    t.assignedTo != "" && !t.completed
  }

  /** "Completed Tasks": completed, whoever is assigned. */
  predicate IsCompleted(t: Task) { t.completed }

  datatype Column = ToBeAssigned | AssignedTasks | CompletedTasks

  /** The frame a task is shown in; each filter predicate holds exactly when the task's
      frame is the matching one, so every task satisfies exactly one of them. */
  function ColumnOf(t: Task): (c: Column)
    ensures (c == ToBeAssigned) == IsUnassigned(t)
    ensures (c == AssignedTasks) == IsAssigned(t)
    ensures (c == CompletedTasks) == IsCompleted(t)
  {
    if t.completed then CompletedTasks
    else if t.assignedTo == "" then ToBeAssigned
    else AssignedTasks
  }

  /** Every task passes exactly one of the three filters. */
  lemma ExactlyOneFrame(t: Task)
    ensures IsCompleted(t) <==> !IsUnassigned(t) && !IsAssigned(t)
    ensures !(IsUnassigned(t) && IsAssigned(t))
  {
  }

  /** `Array.prototype.filter`: the tasks of `s` that `keep` accepts, in their order in `s`. */
  function Filter(s: seq<Task>, keep: Task -> bool): (r: seq<Task>)
    ensures |r| <= |s|
    ensures forall k :: 0 <= k < |r| ==> keep(r[k])
  {
    if s == [] then []
    else Filter(s[..|s| - 1], keep) + (if keep(s[|s| - 1]) then [s[|s| - 1]] else [])
  }

  /** The positions in `s` of the tasks `keep` accepts, in increasing order. */
  function Positions(s: seq<Task>, keep: Task -> bool): (r: seq<nat>)
    ensures forall k :: 0 <= k < |r| ==> r[k] < |s| && keep(s[r[k]])
    ensures forall k, l :: 0 <= k < l < |r| ==> r[k] < r[l]
    ensures forall i :: 0 <= i < |s| && keep(s[i]) ==> i in r
  {
    if s == [] then []
    else
      var r := Positions(s[..|s| - 1], keep);
      assert forall k :: 0 <= k < |r| ==> s[..|s| - 1][r[k]] == s[r[k]];
      r + (if keep(s[|s| - 1]) then [|s| - 1] else [])
  }

  /** `r` is the subsequence of `s` at the strictly increasing positions `pos`. */
  ghost predicate SubsequenceAt(r: seq<Task>, s: seq<Task>, pos: seq<nat>) {
    && |pos| == |r|
    && (forall k :: 0 <= k < |pos| ==> pos[k] < |s| && r[k] == s[pos[k]])
    && (forall k, l :: 0 <= k < l < |pos| ==> pos[k] < pos[l])
  }

  /** The tasks listed under "To Be Assigned": all of them belong to that frame. */
  function Unassigned(tasks: seq<Task>): (r: seq<Task>)
    ensures |r| <= |tasks|
    ensures forall k :: 0 <= k < |r| ==> ColumnOf(r[k]) == ToBeAssigned
  {
    Filter(tasks, IsUnassigned)
  }

  /** The tasks listed under "Assigned Tasks": all of them belong to that frame. */
  function Assigned(tasks: seq<Task>): (r: seq<Task>)
    ensures |r| <= |tasks|
    ensures forall k :: 0 <= k < |r| ==> ColumnOf(r[k]) == AssignedTasks
  {
    Filter(tasks, IsAssigned)
  }

  /** The tasks listed under "Completed Tasks": all of them belong to that frame. */
  function Completed(tasks: seq<Task>): (r: seq<Task>)
    ensures |r| <= |tasks|
    ensures forall k :: 0 <= k < |r| ==> ColumnOf(r[k]) == CompletedTasks
  {
    Filter(tasks, IsCompleted)
  }

  /** A filter keeps the original order: it is the subsequence of `s` at exactly the
      positions of the tasks `keep` accepts. */
  lemma {:induction false} FilterIsOrderedSubsequence(s: seq<Task>, keep: Task -> bool)
    ensures SubsequenceAt(Filter(s, keep), s, Positions(s, keep))
  {
    if s != [] {
      var init, last := s[..|s| - 1], s[|s| - 1];
      FilterIsOrderedSubsequence(init, keep);
      var r, pos := Filter(init, keep), Positions(init, keep);
      assert Filter(s, keep) == r + (if keep(last) then [last] else []);
      assert Positions(s, keep) == pos + (if keep(last) then [|s| - 1] else []);
      forall k | 0 <= k < |pos| ensures pos[k] < |s| - 1 && r[k] == s[pos[k]] {
        assert init[pos[k]] == s[pos[k]];
      }
    }
  }

  /** Filtering a list with one more task at the end adds that task, if accepted, to the
      filtered multiset. */
  lemma FilterSnocMultiset(s: seq<Task>, keep: Task -> bool)
    requires s != []
    ensures multiset(Filter(s, keep))
         == multiset(Filter(s[..|s| - 1], keep)) + (if keep(s[|s| - 1]) then multiset{s[|s| - 1]} else multiset{})
  {
  }

  /** The three frames split the list: every task is counted in exactly one of them, so
      together they hold every task of the list exactly as often as the list does. */
  lemma {:induction false} ColumnsPartition(tasks: seq<Task>)
    ensures multiset(Unassigned(tasks)) + multiset(Assigned(tasks)) + multiset(Completed(tasks))
         == multiset(tasks)
  {
    if tasks != [] {
      var init, last := tasks[..|tasks| - 1], tasks[|tasks| - 1];
      ColumnsPartition(init);
      assert tasks == init + [last];
      FilterSnocMultiset(tasks, IsUnassigned);
      FilterSnocMultiset(tasks, IsAssigned);
      FilterSnocMultiset(tasks, IsCompleted);
      ExactlyOneFrame(last);
    }
  }

  /** The sizes of the three frames add up to the size of the list. */
  lemma ColumnSizesAddUp(tasks: seq<Task>)
    ensures |Unassigned(tasks)| + |Assigned(tasks)| + |Completed(tasks)| == |tasks|
  {
    ColumnsPartition(tasks);
    var u, a, c := Unassigned(tasks), Assigned(tasks), Completed(tasks);
    assert |multiset(u) + multiset(a) + multiset(c)| == |multiset(tasks)|;
  }

  /** Position by position, each index of the list appears in the positions of exactly one
      frame, and each frame is the list's subsequence at its positions. */
  lemma ColumnsPartitionPositions(tasks: seq<Task>)
    ensures SubsequenceAt(Unassigned(tasks), tasks, Positions(tasks, IsUnassigned))
    ensures SubsequenceAt(Assigned(tasks), tasks, Positions(tasks, IsAssigned))
    ensures SubsequenceAt(Completed(tasks), tasks, Positions(tasks, IsCompleted))
    ensures forall i :: 0 <= i < |tasks| ==>
      var (u, a, c) := (i in Positions(tasks, IsUnassigned), i in Positions(tasks, IsAssigned),
                        i in Positions(tasks, IsCompleted));
      (u || a || c) && !(u && a) && !(u && c) && !(a && c)
  {
    FilterIsOrderedSubsequence(tasks, IsUnassigned);
    FilterIsOrderedSubsequence(tasks, IsAssigned);
    FilterIsOrderedSubsequence(tasks, IsCompleted);
    forall i | 0 <= i < |tasks| ensures
      var (u, a, c) := (i in Positions(tasks, IsUnassigned), i in Positions(tasks, IsAssigned),
                        i in Positions(tasks, IsCompleted));
      (u || a || c) && !(u && a) && !(u && c) && !(a && c)
    {
      ExactlyOneFrame(tasks[i]);
    }
  }

  /** A new task goes to the end of "To Be Assigned" and leaves the other frames alone. */
  lemma AddTaskJoinsUnassigned(tasks: seq<Task>, id: TaskId, title: string, priority: Priority)
    requires !JsString.IsBlank(title)
    ensures Unassigned(AddTask(tasks, id, title, priority)) == Unassigned(tasks) + [NewTask(id, title, priority)]
    ensures Assigned(AddTask(tasks, id, title, priority)) == Assigned(tasks)
    ensures Completed(AddTask(tasks, id, title, priority)) == Completed(tasks)
  {
    var added := AddTask(tasks, id, title, priority);
    assert added[..|added| - 1] == tasks;
  }

  /** After `markUnsuccessful`, every task with that id is shown in "To Be Assigned". */
  lemma MarkUnsuccessfulUnassigns(tasks: seq<Task>, id: TaskId)
    ensures forall i :: 0 <= i < |tasks| && tasks[i].id == id ==>
      MarkUnsuccessful(tasks, id)[i] in Unassigned(MarkUnsuccessful(tasks, id))
  {
    var r := MarkUnsuccessful(tasks, id);
    var pos := Positions(r, IsUnassigned);
    FilterIsOrderedSubsequence(r, IsUnassigned);
    forall i | 0 <= i < |tasks| && tasks[i].id == id ensures r[i] in Unassigned(r) {
      var k :| 0 <= k < |pos| && pos[k] == i;
      assert Unassigned(r)[k] == r[i];
    }
  }
}
