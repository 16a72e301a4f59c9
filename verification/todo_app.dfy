/** The flat to-do list of `App`: the state is the ordered task list and the
    text typed into the input box. Each handler is a pure map from the
    current state (and the handler's arguments) to the next state; the id
    that the component reads from the wall clock is a parameter. */
module TodoApp {
  import opened JsString
  import opened TaskSeq

  /** The component's two pieces of state: `tasks` and `newTask`. */
  datatype TodoList = TodoList(tasks: seq<Task>, newTask: string)

  /** The state the component starts in. */
  function Initial(): (s: TodoList)
    ensures s.tasks == [] && s.newTask == ""
  {
    TodoList([], "")
  }

  /** `addTask`: a blank input (blank after trimming) does nothing at all,
      not even clear the box; otherwise one new incomplete task with the
      trimmed text and the given id goes to the end of the list and the box
      is cleared. */
  function AddTask(s: TodoList, id: int): (r: TodoList)
    ensures IsBlank(s.newTask) ==> r == s
    ensures !IsBlank(s.newTask) ==>
      && |r.tasks| == |s.tasks| + 1
      && r.tasks[..|s.tasks|] == s.tasks
      && r.tasks[|s.tasks|].id == id
      && r.tasks[|s.tasks|].text == Trim(s.newTask)
      && r.tasks[|s.tasks|].text != []
      && !r.tasks[|s.tasks|].completed
      && r.newTask == ""
  {
    if IsBlank(s.newTask) then s
    else
      var t := Task(id, Trim(s.newTask), false);
      TodoList(s.tasks + [t], "")
  }

  /** `deleteTask`: keeps exactly the tasks whose id differs, in order. */
  function DeleteTask(s: TodoList, id: int): (r: TodoList)
    ensures r.newTask == s.newTask
    ensures forall t :: t in r.tasks <==> t in s.tasks && t.id != id
    ensures |r.tasks| < |s.tasks| <==> HasId(s.tasks, id)
    ensures r.tasks == Without(s.tasks, id)
  {
    s.(tasks := Without(s.tasks, id))
  }

  /** `toggleTaskCompletion`: flips `completed` on exactly the tasks whose id
      matches and leaves every id, text and position alone. */
  function ToggleTaskCompletion(s: TodoList, id: int): (r: TodoList)
    ensures r.newTask == s.newTask
    ensures |r.tasks| == |s.tasks|
    ensures forall i :: 0 <= i < |s.tasks| ==>
      && r.tasks[i].id == s.tasks[i].id
      && r.tasks[i].text == s.tasks[i].text
      && (r.tasks[i].completed != s.tasks[i].completed <==> s.tasks[i].id == id)
  {
    s.(tasks := ToggleMatching(s.tasks, id))
  }

  /** `completedTasks`: how many tasks are completed, i.e. the number of
      positions holding a completed task. It is zero exactly when none is,
      and `totalTasks` exactly when all are. */
  function CompletedTasks(s: TodoList): (n: nat)
    ensures n == |CompletedPositions(s.tasks)|
    ensures n <= TotalTasks(s)
    ensures n == 0 <==> forall t :: t in s.tasks ==> !t.completed
    ensures n == TotalTasks(s) <==> forall t :: t in s.tasks ==> t.completed
  {
    var done := Completed(s.tasks);
    assert done == [] <==> forall t :: t in s.tasks ==> !t.completed by {
      if done != [] { assert done[0] in done; }
    }
    CompletedCountsPositions(s.tasks);
    |done|
  }

  /** `totalTasks`: the length of the list. */
  function TotalTasks(s: TodoList): (n: nat)
    ensures n == |s.tasks|
  {
    |s.tasks|
  }

  // ---------------------------------------------------------------------
  // Properties relating handlers

  /** A non-blank add grows the list by one and leaves the completed count
      alone, since the new task starts incomplete. */
  lemma AddTaskCounts(s: TodoList, id: int)
    requires !IsBlank(s.newTask)
    ensures TotalTasks(AddTask(s, id)) == TotalTasks(s) + 1
    ensures CompletedTasks(AddTask(s, id)) == CompletedTasks(s)
  {
    CompletedAppend(s.tasks, Task(id, Trim(s.newTask), false));
  }

  /** Deleting the id of a task just added with a fresh id takes the list
      back to what it was. */
  lemma DeleteUndoesAdd(s: TodoList, id: int)
    requires !IsBlank(s.newTask)
    requires !HasId(s.tasks, id)
    ensures DeleteTask(AddTask(s, id), id).tasks == s.tasks
  {
    var t := Task(id, Trim(s.newTask), false);
    WithoutAppend(s.tasks, [t], id);
    WithoutAbsent(s.tasks, id);
    assert Without([t], id) == [];
  }

  /** Deleting an id that no task carries is a no-op, and deleting twice is
      deleting once. */
  lemma DeleteTaskNoOpAndIdempotent(s: TodoList, id: int)
    ensures !HasId(s.tasks, id) ==> DeleteTask(s, id) == s
    ensures DeleteTask(DeleteTask(s, id), id) == DeleteTask(s, id)
  {
    if !HasId(s.tasks, id) {
      WithoutAbsent(s.tasks, id);
    }
    WithoutIdempotent(s.tasks, id);
  }

  /** Toggling the same id twice restores the state; the total never moves. */
  lemma ToggleTaskCompletionInvolution(s: TodoList, id: int)
    ensures ToggleTaskCompletion(ToggleTaskCompletion(s, id), id) == s
    ensures TotalTasks(ToggleTaskCompletion(s, id)) == TotalTasks(s)
  {
  }

  /** Toggling a task with a unique id moves the completed count by exactly one. */
  lemma ToggleMovesCompletedByOne(s: TodoList, k: nat)
    requires k < |s.tasks|
    requires forall i :: 0 <= i < |s.tasks| && i != k ==> s.tasks[i].id != s.tasks[k].id
    ensures CompletedTasks(ToggleTaskCompletion(s, s.tasks[k].id))
         == CompletedTasks(s) + (if s.tasks[k].completed then -1 else 1)
  {
    CompletedAfterToggleUnique(s.tasks, k);
  }
}
