/** The `CalendarTaskScheduler` component as a state machine: the store, the
    text typed into the new-task box and the in-progress edit. The handlers
    that read the box or the edit state are defined here; `deleteTask` and
    `toggleTaskCompletion` touch only the store and are
    `CalendarStore.DeleteTask` and `CalendarStore.ToggleTaskCompletion`. */
module CalendarScheduler {
  import opened JsString
  import opened TaskSeq
  import CalendarStore

  /** `{ date: string; id: number; text: string } | null` */
  datatype EditState = NotEditing | Editing(date: string, id: int, text: string)

  /** The component state that the handlers read and write. */
  datatype Scheduler = Scheduler(tasksByDate: CalendarStore.TasksByDate, newTask: string, editing: EditState)

  /** The state the component starts in: no tasks, an empty box, no edit. */
  function Initial(): (s: Scheduler)
    ensures s.tasksByDate == map[] && s.newTask == "" && s.editing == NotEditing
    ensures CalendarStore.NoEmptyBuckets(s.tasksByDate)
  {
    Scheduler(map[], "", NotEditing)
  }

  /** `addTask` for the selected date: a blank box changes nothing, not even
      the box; otherwise the trimmed text is appended to the date's bucket
      and the box is cleared. The edit in progress is left alone. */
  function AddTask(s: Scheduler, date: string, id: int): (r: Scheduler)
    ensures IsBlank(s.newTask) ==> r == s
    ensures !IsBlank(s.newTask) ==>
      && r.newTask == ""
      && r.editing == s.editing
      && CalendarStore.TasksFor(r.tasksByDate, date)
         == CalendarStore.TasksFor(s.tasksByDate, date) + [Task(id, Trim(s.newTask), false)]
      && r.tasksByDate.Keys == s.tasksByDate.Keys + {date}
      && (forall d :: d in s.tasksByDate && d != date ==> r.tasksByDate[d] == s.tasksByDate[d])
      && r.tasksByDate == CalendarStore.AddTask(s.tasksByDate, date, s.newTask, id)
  {
    if IsBlank(s.newTask) then s
    else Scheduler(CalendarStore.AddTask(s.tasksByDate, date, s.newTask, id), "", s.editing)
  }

  /** `startEditingTask`: opens an edit of (date, id) with the given draft
      text; the store is not touched until the edit is saved. */
  function StartEditingTask(s: Scheduler, date: string, id: int, text: string): (r: Scheduler)
    ensures r.editing.Editing? && r.editing.date == date && r.editing.id == id && r.editing.text == text
    ensures r.tasksByDate == s.tasksByDate && r.newTask == s.newTask
  {
    s.(editing := Editing(date, id, text))
  }

  /** The edit box's change handler: replaces the draft text, keeping which
      task is being edited. The box is rendered only while an edit is open. */
  function ChangeEditingText(s: Scheduler, text: string): (r: Scheduler)
    requires s.editing.Editing?
    ensures r.editing.Editing? && r.editing.text == text
    ensures r.editing.date == s.editing.date && r.editing.id == s.editing.id
    ensures r.tasksByDate == s.tasksByDate && r.newTask == s.newTask
  {
    s.(editing := s.editing.(text := text))
  }

  /** `saveEditedTask`: with no edit open, nothing happens; otherwise the
      draft text, unvalidated, replaces the text of the edited date's tasks
      with the edited id, and the edit is closed. */
  function SaveEditedTask(s: Scheduler): (r: Scheduler)
    ensures s.editing == NotEditing ==> r == s
    ensures s.editing.Editing? ==>
      && r.editing == NotEditing
      && r.newTask == s.newTask
      && r.tasksByDate == CalendarStore.ApplyEdit(s.tasksByDate, s.editing.date, s.editing.id, s.editing.text)
  {
    match s.editing
    case NotEditing => s
    case Editing(date, id, text) =>
      Scheduler(CalendarStore.ApplyEdit(s.tasksByDate, date, id, text), s.newTask, NotEditing)
  }

  /** `cancelEditingTask`: closes the edit and drops the draft. */
  function CancelEditingTask(s: Scheduler): (r: Scheduler)
    ensures r.editing == NotEditing
    ensures r.tasksByDate == s.tasksByDate && r.newTask == s.newTask
  {
    s.(editing := NotEditing)
  }

  // ---------------------------------------------------------------------
  // Edit sessions

  /** Whatever is typed into an edit that is then cancelled never reaches the
      store. */
  lemma CancelDiscardsDraft(s: Scheduler, date: string, id: int, text: string, draft: string)
    ensures CancelEditingTask(ChangeEditingText(StartEditingTask(s, date, id, text), draft))
         == s.(editing := NotEditing)
  {
  }

  /** Opening an edit with a task's current text and saving it unchanged
      leaves a present date's bucket as it was. */
  lemma SaveUnchangedEditIsNoOp(s: Scheduler, date: string, id: int, text: string)
    requires date in s.tasksByDate
    requires forall t :: t in s.tasksByDate[date] && t.id == id ==> t.text == text
    ensures SaveEditedTask(StartEditingTask(s, date, id, text)).tasksByDate == s.tasksByDate
  {
    RetextSame(s.tasksByDate[date], id, text);
    assert s.tasksByDate[date := s.tasksByDate[date]] == s.tasksByDate;
  }

  /** Saving does not validate the draft: a task can end up with empty text,
      which `addTask` would never have produced. */
  lemma SaveAcceptsEmptyText(s: Scheduler, date: string, k: nat)
    requires date in s.tasksByDate
    requires k < |s.tasksByDate[date]|
    ensures var r := SaveEditedTask(StartEditingTask(s, date, s.tasksByDate[date][k].id, ""));
            date in r.tasksByDate && r.tasksByDate[date][k].text == ""
  {
  }

  // ---------------------------------------------------------------------
  // A session

  /** One session on a single day, first half: "Buy milk" and then
      "  Walk dog " are typed and added to "2024-06-01" with ids 1 and 2. The
      tasks land in that order, trimmed and incomplete, and the box is
      cleared after each add. */
  lemma OneDaySessionAdds()
    ensures var day := "2024-06-01";
            var s1 := AddTask(Initial().(newTask := "Buy milk"), day, 1);
            var s2 := AddTask(s1.(newTask := "  Walk dog "), day, 2);
            && s1.tasksByDate == map[day := [Task(1, "Buy milk", false)]]
            && s1.newTask == ""
            && s2.tasksByDate == map[day := [Task(1, "Buy milk", false), Task(2, "Walk dog", false)]]
            && s2.newTask == ""
  {
    var milk := "Buy milk";
    TrimCharacterization(milk, 0, |milk|);
    var dog := "  Walk dog ";
    TrimCharacterization(dog, 2, 10);
    assert dog[2..10] == "Walk dog";
    assert Trim(milk) == milk && Trim(dog) == "Walk dog";
    var day := "2024-06-01";
    var m1 := CalendarStore.AddTask(map[], day, milk, 1);
    assert m1 == map[day := [Task(1, milk, false)]];
    var m2 := CalendarStore.AddTask(m1, day, dog, 2);
    assert CalendarStore.TasksFor(m1, day) == [Task(1, milk, false)];
    var b2 := [Task(1, milk, false)] + [Task(2, "Walk dog", false)];
    assert b2 == [Task(1, milk, false), Task(2, "Walk dog", false)];
    assert m2 == m1[day := b2];
    assert m1[day := b2] == map[day := b2];
    assert m2 == map[day := [Task(1, milk, false), Task(2, "Walk dog", false)]];
  }

  /** Second half: "Buy milk" is completed, "Walk dog" is deleted and then
      "Buy milk" is deleted; the day's key disappears with its last task. */
  lemma OneDaySessionCompletesAndDeletes()
    ensures var day := "2024-06-01";
            var m2 := map[day := [Task(1, "Buy milk", false), Task(2, "Walk dog", false)]];
            var m3 := CalendarStore.ToggleTaskCompletion(m2, day, 1);
            var m4 := CalendarStore.DeleteTask(m3, day, 2);
            var m5 := CalendarStore.DeleteTask(m4, day, 1);
            && m3 == map[day := [Task(1, "Buy milk", true), Task(2, "Walk dog", false)]]
            && m4 == map[day := [Task(1, "Buy milk", true)]]
            && m5 == map[]
  {
    var day := "2024-06-01";
    var b2 := [Task(1, "Buy milk", false), Task(2, "Walk dog", false)];
    var m3 := CalendarStore.ToggleTaskCompletion(map[day := b2], day, 1);
    assert ToggleMatching(b2, 1)[0] == Task(1, "Buy milk", true);
    assert ToggleMatching(b2, 1)[1] == Task(2, "Walk dog", false);
    assert m3[day] == [Task(1, "Buy milk", true), Task(2, "Walk dog", false)];
    var m4 := CalendarStore.DeleteTask(m3, day, 2);
    assert Without(m3[day], 2) == [Task(1, "Buy milk", true)];
    var m5 := CalendarStore.DeleteTask(m4, day, 1);
    assert Without(m4[day], 1) == [];
  }
}
