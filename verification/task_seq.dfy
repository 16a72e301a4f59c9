/** The task record both components share, and the three array operations
    their handlers are built from: `filter` by id, `map` that flips the
    completion flag, `map` that replaces the text, plus the completed-task
    filter behind the progress counter. */
module TaskSeq {

  /** `{ id: number; text: string; completed: boolean }`. The id is taken as
      given: nothing makes ids unique, so every property is stated for all
      tasks that carry a matching id. */
  datatype Task = Task(id: int, text: string, completed: bool)

  predicate HasId(ts: seq<Task>, id: int) {
    exists t :: t in ts && t.id == id
  }

  /** `ts.filter((task) => task.id !== id)` */
  function Without(ts: seq<Task>, id: int): (r: seq<Task>)
    ensures |r| <= |ts|
    ensures forall t :: t in r <==> t in ts && t.id != id
    ensures |r| < |ts| <==> HasId(ts, id)
  {
    if ts == [] then []
    else if ts[0].id == id then Without(ts[1..], id)
    else [ts[0]] + Without(ts[1..], id)
  }

  /** The flipped copy of `t` when its id matches, `t` itself otherwise. */
  function ToggleOne(t: Task, id: int): Task {
    if t.id == id then t.(completed := !t.completed) else t
  }

  /** `ts.map((task) => task.id === id ? { ...task, completed: !task.completed } : task)` */
  function ToggleMatching(ts: seq<Task>, id: int): (r: seq<Task>)
    ensures |r| == |ts|
    ensures forall i :: 0 <= i < |ts| ==>
      && r[i].id == ts[i].id
      && r[i].text == ts[i].text
      && (r[i].completed != ts[i].completed <==> ts[i].id == id)
  {
    seq(|ts|, i requires 0 <= i < |ts| => ToggleOne(ts[i], id))
  }

  /** The copy of `t` carrying `text` when its id matches, `t` itself otherwise. */
  function RetextOne(t: Task, id: int, text: string): Task {
    if t.id == id then t.(text := text) else t
  }

  /** `ts.map((task) => task.id === id ? { ...task, text } : task)` */
  function RetextMatching(ts: seq<Task>, id: int, text: string): (r: seq<Task>)
    ensures |r| == |ts|
    ensures forall i :: 0 <= i < |ts| ==>
      && r[i].id == ts[i].id
      && r[i].completed == ts[i].completed
      && (ts[i].id == id ==> r[i].text == text)
      && (ts[i].id != id ==> r[i] == ts[i])
  {
    seq(|ts|, i requires 0 <= i < |ts| => RetextOne(ts[i], id, text))
  }

  /** `ts.filter((task) => task.completed)` */
  function Completed(ts: seq<Task>): (r: seq<Task>)
    ensures |r| <= |ts|
    ensures forall t :: t in r <==> t in ts && t.completed
    ensures |r| == |ts| <==> forall t :: t in ts ==> t.completed
  {
    if ts == [] then []
    else if ts[0].completed then [ts[0]] + Completed(ts[1..])
    else Completed(ts[1..])
  }

  // ---------------------------------------------------------------------
  // Filtering by id

  /** The filter keeps the survivors in their original relative order: it
      distributes over concatenation. */
  lemma {:induction false} WithoutAppend(a: seq<Task>, b: seq<Task>, id: int)
    ensures Without(a + b, id) == Without(a, id) + Without(b, id)
  {
    if a == [] {
      assert a + b == b;
    } else {
      assert (a + b)[1..] == a[1..] + b;
      WithoutAppend(a[1..], b, id);
    }
  }

  /** Deleting an id nobody carries changes nothing. */
  lemma {:induction false} WithoutAbsent(ts: seq<Task>, id: int)
    requires !HasId(ts, id)
    ensures Without(ts, id) == ts
  {
    if ts != [] {
      assert ts[0] in ts;
      assert !HasId(ts[1..], id) by {
        forall t | t in ts[1..] ensures t.id != id {
          assert t in ts;
        }
      }
      WithoutAbsent(ts[1..], id);
    }
  }

  /** Deleting the same id twice is deleting it once. */
  lemma WithoutIdempotent(ts: seq<Task>, id: int)
    ensures Without(Without(ts, id), id) == Without(ts, id)
  {
  }

  // ---------------------------------------------------------------------
  // Flipping completion

  /** Flipping the same id twice restores the sequence. */
  lemma ToggleInvolution(ts: seq<Task>, id: int)
    ensures ToggleMatching(ToggleMatching(ts, id), id) == ts
  {
  }

  /** Flipping an id nobody carries changes nothing. */
  lemma ToggleAbsent(ts: seq<Task>, id: int)
    requires !HasId(ts, id)
    ensures ToggleMatching(ts, id) == ts
  {
  }

  /** Deleting a task after flipping it is the same as deleting it. */
  lemma {:induction false} WithoutAfterToggle(ts: seq<Task>, id: int)
    ensures Without(ToggleMatching(ts, id), id) == Without(ts, id)
  {
    if ts != [] {
      assert ToggleMatching(ts, id)[1..] == ToggleMatching(ts[1..], id);
      WithoutAfterToggle(ts[1..], id);
    }
  }

  // ---------------------------------------------------------------------
  // Replacing text

  /** Of two edits of the same id, the later one wins. */
  lemma RetextLastWins(ts: seq<Task>, id: int, a: string, b: string)
    ensures RetextMatching(RetextMatching(ts, id, a), id, b) == RetextMatching(ts, id, b)
  {
  }

  /** Editing the text and flipping completion do not interfere. */
  lemma RetextToggleCommute(ts: seq<Task>, id: int, text: string)
    ensures RetextMatching(ToggleMatching(ts, id), id, text)
         == ToggleMatching(RetextMatching(ts, id, text), id)
  {
  }

  /** Re-saving the text every matching task already has changes nothing. */
  lemma RetextSame(ts: seq<Task>, id: int, text: string)
    requires forall t :: t in ts && t.id == id ==> t.text == text
    ensures RetextMatching(ts, id, text) == ts
  {
  }

  // ---------------------------------------------------------------------
  // Counting completed tasks

  /** Appending one task adds one to the completed count exactly when that
      task is completed. */
  lemma {:induction false} CompletedAppend(ts: seq<Task>, t: Task)
    ensures |Completed(ts + [t])| == |Completed(ts)| + (if t.completed then 1 else 0)
  {
    if ts == [] {
      assert ts + [t] == [t] && [t][1..] == [];
    } else {
      assert (ts + [t])[1..] == ts[1..] + [t];
      CompletedAppend(ts[1..], t);
    }
  }

  /** The positions of `ts` that hold a completed task. */
  function CompletedPositions(ts: seq<Task>): set<nat> {
    set i: nat | i < |ts| && ts[i].completed
  }

  /** Appending a task adds its position exactly when it is completed. */
  lemma CompletedPositionsAppend(init: seq<Task>, t: Task)
    ensures CompletedPositions(init + [t])
         == CompletedPositions(init) + (if t.completed then {|init|} else {})
  {
    var ts := init + [t];
    forall i: nat
      ensures i in CompletedPositions(ts)
          <==> i in CompletedPositions(init) + (if t.completed then {|init|} else {})
    {
      if i < |init| { assert ts[i] == init[i]; }
    }
  }

  /** The completed filter has one entry per position that holds a
      completed task. */
  lemma {:induction false} CompletedCountsPositions(ts: seq<Task>)
    ensures |Completed(ts)| == |CompletedPositions(ts)|
  {
    if ts == [] {
      assert CompletedPositions(ts) == {};
    } else {
      var init := ts[..|ts| - 1];
      var t := ts[|ts| - 1];
      assert ts == init + [t];
      CompletedAppend(init, t);
      CompletedCountsPositions(init);
      CompletedPositionsAppend(init, t);
      assert |init| !in CompletedPositions(init);
    }
  }

  /** Flipping a task whose id is unique moves the completed count by one in
      the direction of its new flag. */
  lemma {:induction false} CompletedAfterToggleUnique(ts: seq<Task>, k: nat)
    requires k < |ts|
    requires forall i :: 0 <= i < |ts| && i != k ==> ts[i].id != ts[k].id
    ensures |Completed(ToggleMatching(ts, ts[k].id))|
         == |Completed(ts)| + (if ts[k].completed then -1 else 1)
  {
    var id := ts[k].id;
    var r := ToggleMatching(ts, id);
    assert r[1..] == ToggleMatching(ts[1..], id);
    if k == 0 {
      assert !HasId(ts[1..], id) by {
        forall t | t in ts[1..] ensures t.id != id {
          var j :| 0 <= j < |ts[1..]| && ts[1..][j] == t;
          assert ts[j + 1] == t;
        }
      }
      ToggleAbsent(ts[1..], id);
    } else {
      assert r[0] == ts[0];
      CompletedAfterToggleUnique(ts[1..], k - 1);
    }
  }
}
