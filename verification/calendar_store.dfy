/** The date-bucketed task store of `CalendarTaskScheduler`: a map from a
    date key (the `yyyy-MM-dd` string the component formats, treated here as
    an opaque string) to the ordered tasks of that day. The four functions
    below are the state updates of the component's add, delete, toggle and
    save-edit handlers, with the date key and the new id as parameters. */
module CalendarStore {
  import opened JsString
  import opened TaskSeq

  /** `{ [date: string]: Task[] }` */
  type TasksByDate = map<string, seq<Task>>

  /** `tasksByDate[date] || []`: the bucket of a date, empty when absent. */
  function TasksFor(m: TasksByDate, date: string): (ts: seq<Task>)
    ensures date in m ==> ts == m[date]
    ensures date !in m ==> ts == []
  {
    if date in m then m[date] else []
  }

  /** `tasksByDate[day]?.length > 0`: whether the calendar marks the day. */
  function HasTasks(m: TasksByDate, day: string): (b: bool)
    ensures b <==> TasksFor(m, day) != []
    ensures b ==> day in m
  {
    day in m && |m[day]| > 0
  }

  /** The shape deleteTask takes care to keep: no date is bound to an empty
      bucket, so a key is present exactly when the day has tasks. */
  predicate NoEmptyBuckets(m: TasksByDate) {
    forall d :: d in m ==> m[d] != []
  }

  /** `addTask`: a blank text does nothing; otherwise one new incomplete
      task with the trimmed text and the given id goes to the end of the
      date's bucket, creating the bucket when the date had none. */
  function AddTask(m: TasksByDate, date: string, text: string, id: int): (r: TasksByDate)
    ensures IsBlank(text) ==> r == m
    ensures !IsBlank(text) ==>
      && r.Keys == m.Keys + {date}
      && (forall d :: d in m && d != date ==> r[d] == m[d])
      && |r[date]| == |TasksFor(m, date)| + 1
      && r[date][..|TasksFor(m, date)|] == TasksFor(m, date)
      && r[date][|TasksFor(m, date)|] == Task(id, Trim(text), false)
      && Trim(text) != []
  {
    if IsBlank(text) then m
    else m[date := TasksFor(m, date) + [Task(id, Trim(text), false)]]
  }

  /** `deleteTask`: keeps the date's tasks whose id differs, in order, and
      drops the date's key when none is left. */
  function DeleteTask(m: TasksByDate, date: string, id: int): (r: TasksByDate)
    ensures forall t :: t in TasksFor(r, date) <==> t in TasksFor(m, date) && t.id != id
    ensures date in r <==> exists t :: t in TasksFor(m, date) && t.id != id
    ensures date in r ==> r[date] == Without(m[date], id)
    ensures forall d :: d != date ==> (d in r <==> d in m)
    ensures forall d :: d in m && d != date ==> r[d] == m[d]
  {
    var remaining := Without(TasksFor(m, date), id);
    assert remaining != [] ==> remaining[0] in remaining;
    if |remaining| == 0 then m - {date} else m[date := remaining]
  }

  /** `toggleTaskCompletion`: flips `completed` on exactly the date's tasks
      whose id matches. The date is bound afterwards even when it was absent
      (then to an empty bucket). */
  function ToggleTaskCompletion(m: TasksByDate, date: string, id: int): (r: TasksByDate)
    ensures r.Keys == m.Keys + {date}
    ensures forall d :: d in m && d != date ==> r[d] == m[d]
    ensures |r[date]| == |TasksFor(m, date)|
    ensures forall i :: 0 <= i < |r[date]| ==>
      && r[date][i].id == TasksFor(m, date)[i].id
      && r[date][i].text == TasksFor(m, date)[i].text
      && (r[date][i].completed != TasksFor(m, date)[i].completed
          <==> TasksFor(m, date)[i].id == id)
  {
    m[date := ToggleMatching(TasksFor(m, date), id)]
  }

  /** The store update of `saveEditedTask`: replaces the text of exactly the
      date's tasks whose id matches, with no check on the new text. The date
      is bound afterwards even when it was absent (then to an empty bucket). */
  function ApplyEdit(m: TasksByDate, date: string, id: int, text: string): (r: TasksByDate)
    ensures r.Keys == m.Keys + {date}
    ensures forall d :: d in m && d != date ==> r[d] == m[d]
    ensures |r[date]| == |TasksFor(m, date)|
    ensures forall i :: 0 <= i < |r[date]| ==>
      && r[date][i].id == TasksFor(m, date)[i].id
      && r[date][i].completed == TasksFor(m, date)[i].completed
      && (TasksFor(m, date)[i].id == id ==> r[date][i].text == text)
      && (TasksFor(m, date)[i].id != id ==> r[date][i] == TasksFor(m, date)[i])
  {
    m[date := RetextMatching(TasksFor(m, date), id, text)]
  }

  // ---------------------------------------------------------------------
  // The no-empty-bucket shape

  /** Under the no-empty-bucket shape, the calendar marks a day exactly when
      the store has a key for it. */
  lemma HasTasksIffKey(m: TasksByDate, day: string)
    requires NoEmptyBuckets(m)
    ensures HasTasks(m, day) <==> day in m
  {
  }

  /** A non-blank add leaves its date marked, and keeps the shape. */
  lemma AddTaskMarksDate(m: TasksByDate, date: string, text: string, id: int)
    requires !IsBlank(text)
    ensures HasTasks(AddTask(m, date, text, id), date)
    ensures NoEmptyBuckets(m) ==> NoEmptyBuckets(AddTask(m, date, text, id))
  {
  }

  /** Delete keeps the shape: it removes the key instead of leaving an
      empty bucket behind. */
  lemma DeleteTaskKeepsNoEmptyBuckets(m: TasksByDate, date: string, id: int)
    requires NoEmptyBuckets(m)
    ensures NoEmptyBuckets(DeleteTask(m, date, id))
  {
  }

  /** On a date that already has a bucket, toggle and edit keep the shape. */
  lemma TogglePresentKeepsNoEmptyBuckets(m: TasksByDate, date: string, id: int, text: string)
    requires NoEmptyBuckets(m)
    requires date in m
    ensures NoEmptyBuckets(ToggleTaskCompletion(m, date, id))
    ensures NoEmptyBuckets(ApplyEdit(m, date, id, text))
  {
  }

  /** Toggle on a date without tasks binds that date to an empty bucket: a
      store that had the no-empty-bucket shape loses it, and the date is
      present without being marked on the calendar. */
  lemma ToggleAbsentDateBindsEmpty(m: TasksByDate, date: string, id: int)
    requires date !in m
    ensures ToggleTaskCompletion(m, date, id) == m[date := []]
    ensures date in ToggleTaskCompletion(m, date, id)
    ensures !HasTasks(ToggleTaskCompletion(m, date, id), date)
    ensures !NoEmptyBuckets(ToggleTaskCompletion(m, date, id))
  {
  }

  /** The same happens when an edit is saved against a date without tasks. */
  lemma ApplyEditAbsentDateBindsEmpty(m: TasksByDate, date: string, id: int, text: string)
    requires date !in m
    ensures ApplyEdit(m, date, id, text) == m[date := []]
    ensures date in ApplyEdit(m, date, id, text)
    ensures !HasTasks(ApplyEdit(m, date, id, text), date)
    ensures !NoEmptyBuckets(ApplyEdit(m, date, id, text))
  {
  }

  // ---------------------------------------------------------------------
  // Relations between the operations

  /** Deleting the id of a task just added with an id fresh for its date
      restores the store, as long as the date had no empty bucket. */
  lemma DeleteUndoesAdd(m: TasksByDate, date: string, text: string, id: int)
    requires !IsBlank(text)
    requires !HasId(TasksFor(m, date), id)
    requires date in m ==> m[date] != []
    ensures DeleteTask(AddTask(m, date, text, id), date, id) == m
  {
    var before := TasksFor(m, date);
    var t := Task(id, Trim(text), false);
    WithoutAppend(before, [t], id);
    WithoutAbsent(before, id);
    assert Without([t], id) == [];
    var added := AddTask(m, date, text, id);
    assert Without(added[date], id) == before;
    if date in m {
      assert added[date := before] == m;
    } else {
      assert added - {date} == m;
    }
  }

  /** Deleting from a date without tasks changes nothing, and deleting the
      same id twice is deleting it once. */
  lemma DeleteTaskNoOpAndIdempotent(m: TasksByDate, date: string, id: int)
    ensures date !in m ==> DeleteTask(m, date, id) == m
    ensures DeleteTask(DeleteTask(m, date, id), date, id) == DeleteTask(m, date, id)
  {
    var once := DeleteTask(m, date, id);
    if date in once {
      WithoutIdempotent(m[date], id);
    }
  }

  /** Deleting an id that no task of a non-empty bucket carries leaves the
      store unchanged. */
  lemma DeleteAbsentIdKeepsStore(m: TasksByDate, date: string, id: int)
    requires date in m && m[date] != []
    requires !HasId(m[date], id)
    ensures DeleteTask(m, date, id) == m
  {
    WithoutAbsent(m[date], id);
    assert m[date := m[date]] == m;
  }

  /** Deleting anything from a date bound to an empty bucket drops the key:
      delete repairs the shape that toggle and edit can break. */
  lemma DeleteDropsEmptyBucket(m: TasksByDate, date: string, id: int)
    requires date in m && m[date] == []
    ensures DeleteTask(m, date, id) == m - {date}
    ensures date !in DeleteTask(m, date, id)
  {
  }

  /** Toggling the same id twice restores the date's bucket, so it restores
      the whole store exactly when the date was present. */
  lemma ToggleTwice(m: TasksByDate, date: string, id: int)
    ensures ToggleTaskCompletion(ToggleTaskCompletion(m, date, id), date, id)
         == m[date := TasksFor(m, date)]
    ensures ToggleTaskCompletion(ToggleTaskCompletion(m, date, id), date, id) == m
        <==> date in m
  {
    ToggleInvolution(TasksFor(m, date), id);
    var twice := ToggleTaskCompletion(ToggleTaskCompletion(m, date, id), date, id);
    if date !in m {
      assert date in twice;
    }
  }

  /** Deleting a task after toggling it is the same as deleting it. */
  lemma DeleteAfterToggle(m: TasksByDate, date: string, id: int)
    ensures DeleteTask(ToggleTaskCompletion(m, date, id), date, id) == DeleteTask(m, date, id)
  {
    WithoutAfterToggle(TasksFor(m, date), id);
  }
}
