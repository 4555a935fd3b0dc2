/**
 * The list logic of the task-detail editor: ticking a subtask off (with the optimistic local
 * update and the reconciliation against the task the backend returns), and the edit buffer
 * with its per-row edits, appended blank rows, deletions, save payload and cancel.
 */
module TaskDetailsEditor {
  import opened Wrappers
  import opened JsString
  import opened Types
  import opened SeqOrder

  // ---------------------------------------------------------------------------------------
  // Ticking a subtask off

  /** A subtask as the backend returns it; `done` is absent when the field is missing. */
  datatype BackendSubTask = BackendSubTask(id: Id, title: string, done: Option<bool>)

  /** The task the backend returns, carrying its subtasks under either spelling, or neither. */
  datatype BackendTask = BackendTask(
    subtasks: Option<seq<BackendSubTask>>,
    subTasks: Option<seq<BackendSubTask>>)

  /**
   * The optimistic update: flips `done` on every subtask with the given id (compared with
   * `===`, so a string id never equals a numeric one) and leaves the rest alone.
   */
  function ToggleDone(sts: seq<SubTask>, id: Id): (r: seq<SubTask>)
    ensures |r| == |sts|
    ensures forall i :: 0 <= i < |sts| ==> r[i].id == sts[i].id && r[i].title == sts[i].title
    ensures forall i :: 0 <= i < |sts| ==> (r[i].done != sts[i].done <==> sts[i].id == id)
  {
    if |sts| == 0 then []
    else
      var head := if sts[0].id == id then sts[0].(done := !sts[0].done) else sts[0];
      [head] + ToggleDone(sts[1..], id)
  }

  /** Ticking the same subtask twice restores the list. */
  lemma ToggleTwice(sts: seq<SubTask>, id: Id)
    ensures ToggleDone(ToggleDone(sts, id), id) == sts
  {
    var r := ToggleDone(ToggleDone(sts, id), id);
    assert forall i :: 0 <= i < |sts| ==> r[i] == sts[i];
  }

  /** Toggling an id no subtask has changes nothing. */
  lemma ToggleAbsentId(sts: seq<SubTask>, id: Id)
    requires forall i :: 0 <= i < |sts| ==> sts[i].id != id
    ensures ToggleDone(sts, id) == sts
  {
    var r := ToggleDone(sts, id);
    assert forall i :: 0 <= i < |sts| ==> r[i] == sts[i];
  }

  /**
   * `data.subtasks || data.subTasks || []`. An array is truthy even when empty, so a present
   * but empty `subtasks` is taken as it is.
   */
  function BackendList(data: BackendTask): (r: seq<BackendSubTask>)
    ensures data.subtasks.Some? ==> r == data.subtasks.value
    ensures data.subtasks.None? && data.subTasks.Some? ==> r == data.subTasks.value
    ensures data.subtasks.None? && data.subTasks.None? ==> r == []
  {
    match data.subtasks
    case Some(l) => l
    case None => data.subTasks.GetOr([])
  }

  /** `new Map(bs.map(st => [st.id, st]))`: entries are inserted left to right. */
  function BuildMap(bs: seq<BackendSubTask>): map<Id, BackendSubTask>
    decreases |bs|
  {
    if |bs| == 0 then map[]
    else BuildMap(bs[..|bs| - 1])[bs[|bs| - 1].id := bs[|bs| - 1]]
  }

  /** `bs[j]` is the last entry of `bs` with the given id. */
  ghost predicate IsLastWithId(bs: seq<BackendSubTask>, id: Id, j: int) {
    && 0 <= j < |bs|
    && bs[j].id == id
    && forall k :: j < k < |bs| ==> bs[k].id != id
  }

  /** The map holds exactly the ids of the list. */
  lemma {:induction false} BuildMapDomain(bs: seq<BackendSubTask>, id: Id)
    ensures id in BuildMap(bs) <==> exists j :: 0 <= j < |bs| && bs[j].id == id
    decreases |bs|
  {
    if |bs| > 0 {
      var n := |bs| - 1;
      var init := bs[..n];
      BuildMapDomain(init, id);
      if exists j :: 0 <= j < |bs| && bs[j].id == id {
        var j :| 0 <= j < |bs| && bs[j].id == id;
        if j < n {
          assert init[j].id == id;
        }
      }
      if exists j :: 0 <= j < |init| && init[j].id == id {
        var j :| 0 <= j < |init| && init[j].id == id;
        assert bs[j].id == id;
      }
    }
  }

  /** When an id repeats, the map holds its last entry. */
  lemma {:induction false} BuildMapLastWins(bs: seq<BackendSubTask>, id: Id)
    requires id in BuildMap(bs)
    ensures exists j :: IsLastWithId(bs, id, j) && BuildMap(bs)[id] == bs[j]
    decreases |bs|
  {
    var n := |bs| - 1;
    var init := bs[..n];
    if bs[n].id == id {
      assert IsLastWithId(bs, id, n);
    } else {
      assert id in BuildMap(init);
      BuildMapLastWins(init, id);
      var j :| IsLastWithId(init, id, j) && BuildMap(init)[id] == init[j];
      assert IsLastWithId(bs, id, j);
    }
  }

  /** At most one position is the last one with a given id. */
  lemma LastWithIdUnique(bs: seq<BackendSubTask>, id: Id, j1: int, j2: int)
    requires IsLastWithId(bs, id, j1) && IsLastWithId(bs, id, j2)
    ensures j1 == j2
  {
  }

  /** The reconciled `done` of one local subtask, read through the backend map. */
  function DoneFromMap(m: map<Id, BackendSubTask>, st: SubTask): bool {
    if st.id in m && m[st.id].done.Some? then m[st.id].done.value else st.done
  }

  function MergeWithMap(local: seq<SubTask>, m: map<Id, BackendSubTask>): (r: seq<SubTask>)
    ensures |r| == |local|
    ensures forall i :: 0 <= i < |local| ==> r[i] == local[i].(done := DoneFromMap(m, local[i]))
  {
    if |local| == 0 then []
    else [local[0].(done := DoneFromMap(m, local[0]))] + MergeWithMap(local[1..], m)
  }

  /**
   * Reconciles the local list with the backend's: each subtask keeps its place, id and title;
   * its `done` becomes that of the last backend entry with an equal id when that entry has a
   * `done` field, and stays as it was otherwise.
   */
  function MergeBackend(local: seq<SubTask>, bs: seq<BackendSubTask>): (r: seq<SubTask>)
    ensures |r| == |local|
    ensures forall i :: 0 <= i < |local| ==> r[i].id == local[i].id && r[i].title == local[i].title
    ensures forall i :: 0 <= i < |local| && (forall j :: 0 <= j < |bs| ==> bs[j].id != local[i].id) ==>
              r[i].done == local[i].done
    ensures forall i, j :: 0 <= i < |local| && IsLastWithId(bs, local[i].id, j) ==>
              r[i].done == (if bs[j].done.Some? then bs[j].done.value else local[i].done)
  {
    var m := BuildMap(bs);
    var r := MergeWithMap(local, m);
    assert forall i, j :: 0 <= i < |local| && IsLastWithId(bs, local[i].id, j) ==>
             r[i].done == (if bs[j].done.Some? then bs[j].done.value else local[i].done) by {
      forall i, j | 0 <= i < |local| && IsLastWithId(bs, local[i].id, j)
        ensures r[i].done == (if bs[j].done.Some? then bs[j].done.value else local[i].done)
      {
        BuildMapDomain(bs, local[i].id);
        BuildMapLastWins(bs, local[i].id);
        var j' :| IsLastWithId(bs, local[i].id, j') && m[local[i].id] == bs[j'];
        LastWithIdUnique(bs, local[i].id, j, j');
      }
    }
    assert forall i :: 0 <= i < |local| && (forall j :: 0 <= j < |bs| ==> bs[j].id != local[i].id) ==>
             r[i].done == local[i].done by {
      forall i | 0 <= i < |local| && (forall j :: 0 <= j < |bs| ==> bs[j].id != local[i].id)
        ensures r[i].done == local[i].done
      {
        BuildMapDomain(bs, local[i].id);
      }
    }
    r
  }

  /** With nothing to reconcile against, the local list stands. */
  lemma MergeEmptyIsIdentity(local: seq<SubTask>)
    ensures MergeBackend(local, []) == local
  {
    var r := MergeBackend(local, []);
    assert forall i :: 0 <= i < |local| ==> r[i] == local[i];
  }

  /**
   * The whole tick: the optimistic toggle, then, if the save and the re-fetch both succeed
   * (`response` is the fetched task), the reconciliation. When any step throws, the optimistic
   * list is what remains: it is not rolled back.
   */
  function ToggleRoundTrip(local: seq<SubTask>, id: Id, response: Option<BackendTask>): (r: seq<SubTask>)
    ensures |r| == |local|
    ensures forall i :: 0 <= i < |local| ==> r[i].id == local[i].id && r[i].title == local[i].title
    ensures response.None? ==> r == ToggleDone(local, id)
    ensures response.Some? && BackendList(response.value) == [] ==> r == ToggleDone(local, id)
    ensures forall i :: 0 <= i < |local| && response.None? ==> (r[i].done != local[i].done <==> local[i].id == id)
    ensures response.Some? ==> r == MergeBackend(ToggleDone(local, id), BackendList(response.value))
    ensures forall i, j :: 0 <= i < |local| && response.Some? && IsLastWithId(BackendList(response.value), local[i].id, j) ==>
              r[i].done == (if BackendList(response.value)[j].done.Some? then BackendList(response.value)[j].done.value
                            else local[i].done != (local[i].id == id))
    ensures forall i :: 0 <= i < |local| && response.Some? &&
                        (forall j :: 0 <= j < |BackendList(response.value)| ==> BackendList(response.value)[j].id != local[i].id) ==>
              (r[i].done != local[i].done <==> local[i].id == id)
  {
    var updated := ToggleDone(local, id);
    match response
    case None => updated
    case Some(data) =>
      var bs := BackendList(data);
      assert bs == [] ==> MergeBackend(updated, bs) == updated by {
        if bs == [] {
          MergeEmptyIsIdentity(updated);
        }
      }
      MergeBackend(updated, bs)
  }

  // ---------------------------------------------------------------------------------------
  // The edit buffer

  /** A change to one field of one subtask row. */
  datatype FieldEdit = EditTitle(title: string) | EditDone(done: bool)

  function ApplyEdit(st: SubTask, e: FieldEdit): SubTask {
    match e
    case EditTitle(t) => st.(title := t)
    case EditDone(d) => st.(done := d)
  }

  /**
   * Changes the named field of the row at `idx`. Every other row, and every other field of
   * that row, stays as it was; an index outside the list changes nothing.
   */
  function EditAt(sts: seq<SubTask>, idx: int, e: FieldEdit): (r: seq<SubTask>)
    ensures |r| == |sts|
    ensures forall i :: 0 <= i < |sts| && i != idx ==> r[i] == sts[i]
    ensures 0 <= idx < |sts| ==> r[idx].id == sts[idx].id
    ensures 0 <= idx < |sts| && e.EditTitle? ==> r[idx].title == e.title && r[idx].done == sts[idx].done
    ensures 0 <= idx < |sts| && e.EditDone? ==> r[idx].done == e.done && r[idx].title == sts[idx].title
  {
    seq(|sts|, i requires 0 <= i < |sts| => if i == idx then ApplyEdit(sts[i], e) else sts[i])
  }

  /** An edit at an index outside the list is a no-op. */
  lemma EditOutOfRange(sts: seq<SubTask>, idx: int, e: FieldEdit)
    requires idx < 0 || idx >= |sts|
    ensures EditAt(sts, idx, e) == sts
  {
  }

  /** Repeating the same edit changes nothing further. */
  lemma EditIdempotent(sts: seq<SubTask>, idx: int, e: FieldEdit)
    ensures EditAt(EditAt(sts, idx, e), idx, e) == EditAt(sts, idx, e)
  {
  }

  /** Prefix of the ids given to rows created on the client and not yet saved. */
  const TempPrefix: string := "temp-"

  predicate IsTempId(id: Id) {
    id.StrId? && StartsWith(id.s, TempPrefix)
  }

  /**
   * Appends a blank, unticked row with a client-side id. `stamp` stands for the
   * `${Date.now()}-${Math.random()}` suffix, which the model takes as given.
   */
  function AppendBlank(sts: seq<SubTask>, stamp: string): (r: seq<SubTask>)
    ensures |r| == |sts| + 1 && r[..|sts|] == sts
    ensures r[|sts|].title == "" && !r[|sts|].done && IsTempId(r[|sts|].id)
  {
    var id := TempPrefix + stamp;
    assert id[..|TempPrefix|] == TempPrefix;
    sts + [SubTask(StrId(id), "", false)]
  }

  /** Removes every row with the given id and keeps the others in order. */
  function DeleteById(sts: seq<SubTask>, id: Id): (r: seq<SubTask>)
    ensures |r| <= |sts|
    ensures forall x :: x in r <==> x in sts && x.id != id
    ensures IsSubsequence(r, sts)
    ensures (forall j :: 0 <= j < |sts| ==> sts[j].id != id) ==> r == sts
  {
    if |sts| == 0 then []
    else
      var rest := DeleteById(sts[1..], id);
      assert sts == [sts[0]] + sts[1..];
      if sts[0].id != id then
        assert ([sts[0]] + rest)[1..] == rest;
        [sts[0]] + rest
      else
        rest
  }

  /** Deleting keeps every copy of a row with another id and no row with this one. */
  lemma {:induction false} DeleteByIdCounts(sts: seq<SubTask>, id: Id)
    ensures forall x :: multiset(DeleteById(sts, id))[x] == if x.id != id then multiset(sts)[x] else 0
    decreases |sts|
  {
    if |sts| > 0 {
      DeleteByIdCounts(sts[1..], id);
      assert sts == [sts[0]] + sts[1..];
      assert multiset(sts) == multiset([sts[0]]) + multiset(sts[1..]);
    }
  }

  /** Deleting the same id twice is deleting it once. */
  lemma DeleteIdempotent(sts: seq<SubTask>, id: Id)
    ensures DeleteById(DeleteById(sts, id), id) == DeleteById(sts, id)
  {
    var r := DeleteById(sts, id);
    assert forall j :: 0 <= j < |r| ==> r[j] in r;
  }

  lemma {:induction false} DeleteByIdConcat(a: seq<SubTask>, b: seq<SubTask>, id: Id)
    ensures DeleteById(a + b, id) == DeleteById(a, id) + DeleteById(b, id)
    decreases |a|
  {
    if |a| == 0 {
      assert a + b == b;
    } else {
      assert (a + b)[1..] == a[1..] + b;
      DeleteByIdConcat(a[1..], b, id);
    }
  }

  /** Deleting a freshly appended blank row, by its id, gives back the list it was added to. */
  lemma DeleteUndoesAppend(sts: seq<SubTask>, stamp: string)
    requires forall j :: 0 <= j < |sts| ==> sts[j].id != StrId(TempPrefix + stamp)
    ensures DeleteById(AppendBlank(sts, stamp), StrId(TempPrefix + stamp)) == sts
  {
    var id := StrId(TempPrefix + stamp);
    DeleteByIdConcat(sts, [SubTask(id, "", false)], id);
    assert [SubTask(id, "", false)][1..] == [];
  }

  // ---------------------------------------------------------------------------------------
  // Saving and cancelling

  /** One subtask as sent to the backend; a row without an id is created there. */
  datatype SubTaskPayload = SubTaskPayload(id: Option<Id>, title: string, done: bool)

  /** `st.id && !String(st.id).startsWith('temp-')`: the row keeps its id in the payload. */
  predicate SendsId(id: Id) {
    IsTruthy(id) && !StartsWith(IdToString(id), TempPrefix)
  }

  /** The id a row is saved under is dropped exactly for "", 0 and the client-side temp ids. */
  lemma SendsIdIff(id: Id)
    ensures !SendsId(id) <==> id == StrId("") || id == NumId(0) || IsTempId(id)
  {
    if id.NumId? {
      var s := NumberToString(id.n);
      assert s[0] != TempPrefix[0];
    }
  }

  function ToPayload(st: SubTask): SubTaskPayload {
    SubTaskPayload(if SendsId(st.id) then Some(st.id) else None, st.title, st.done)
  }

  /**
   * The `subtasks` of the save request: one entry per row, in order, with its title and
   * `done`; the id is sent unless it is empty, zero or a client-side temp id.
   */
  function SavePayload(sts: seq<SubTask>): (r: seq<SubTaskPayload>)
    ensures |r| == |sts|
    ensures forall i :: 0 <= i < |sts| ==> r[i].title == sts[i].title && r[i].done == sts[i].done
    ensures forall i :: 0 <= i < |sts| ==>
              (r[i].id == None <==> sts[i].id == StrId("") || sts[i].id == NumId(0) || IsTempId(sts[i].id))
    ensures forall i :: 0 <= i < |sts| && r[i].id.Some? ==> r[i].id.value == sts[i].id
  {
    var r := seq(|sts|, i requires 0 <= i < |sts| => ToPayload(sts[i]));
    assert forall i :: 0 <= i < |sts| ==>
             (r[i].id == None <==> sts[i].id == StrId("") || sts[i].id == NumId(0) || IsTempId(sts[i].id)) by {
      forall i | 0 <= i < |sts| {
        SendsIdIff(sts[i].id);
      }
    }
    r
  }

  /** A row added in the editor is always sent without an id, so the backend creates it. */
  lemma AppendedRowIsSentWithoutId(sts: seq<SubTask>, stamp: string)
    ensures SavePayload(AppendBlank(sts, stamp))[|sts|].id == None
    ensures SavePayload(AppendBlank(sts, stamp))[..|sts|] == SavePayload(sts)
  {
    var a := AppendBlank(sts, stamp);
    var p, q := SavePayload(a), SavePayload(sts);
    assert forall i :: 0 <= i < |sts| ==> p[i] == q[i];
  }

  /** What the editor holds while the task is being edited. */
  datatype EditBuffer = EditBuffer(title: string, description: string, dueDate: string, subTasks: seq<SubTask>)

  /** The body of the save request. */
  datatype SaveRequest = SaveRequest(title: string, description: string, dueDate: string, subtasks: seq<SubTaskPayload>)

  function SaveRequestOf(b: EditBuffer): (r: SaveRequest)
    ensures r.title == b.title && r.description == b.description && r.dueDate == b.dueDate
    ensures r.subtasks == SavePayload(b.subTasks)
    ensures |r.subtasks| == |b.subTasks|
    ensures forall i :: 0 <= i < |b.subTasks| ==>
              r.subtasks[i].title == b.subTasks[i].title && r.subtasks[i].done == b.subTasks[i].done
    ensures forall i :: 0 <= i < |b.subTasks| ==> (r.subtasks[i].id == Some(b.subTasks[i].id) <==> SendsId(b.subTasks[i].id))
  {
    SaveRequest(b.title, b.description, b.dueDate, SavePayload(b.subTasks))
  }

  /**
   * The buffer loaded from a task: its title and description, the first ten code units of its
   * due date (the `yyyy-mm-dd` part of an ISO timestamp), and its subtasks, or none.
   */
  function BufferFromTask(t: Task): (b: EditBuffer)
    ensures b.title == t.title && b.description == t.description
    ensures b.dueDate <= t.dueDate && JsLength(b.dueDate) <= 10
    ensures JsLength(t.dueDate) <= 10 ==> b.dueDate == t.dueDate
    ensures |b.dueDate| < |t.dueDate| ==> JsLength(b.dueDate) + Utf16Units(t.dueDate[|b.dueDate|]) > 10
    ensures (forall i :: 0 <= i < |t.dueDate| ==> Utf16Units(t.dueDate[i]) == 1) ==>
              b.dueDate == t.dueDate[..if |t.dueDate| < 10 then |t.dueDate| else 10]
    ensures t.subTasks.Some? ==> b.subTasks == t.subTasks.value
    ensures t.subTasks.None? ==> b.subTasks == []
  {
    assert JsLength(t.dueDate) <= 10 ==> JsSlicePrefix(t.dueDate, 10) == t.dueDate by {
      if JsLength(t.dueDate) <= 10 {
        JsSlicePrefixShort(t.dueDate, 10);
      }
    }
    assert (forall i :: 0 <= i < |t.dueDate| ==> Utf16Units(t.dueDate[i]) == 1) ==>
             JsSlicePrefix(t.dueDate, 10) == t.dueDate[..if |t.dueDate| < 10 then |t.dueDate| else 10] by {
      if forall i :: 0 <= i < |t.dueDate| ==> Utf16Units(t.dueDate[i]) == 1 {
        JsSlicePrefixOneUnit(t.dueDate, 10);
      }
    }
    EditBuffer(t.title, t.description, JsSlicePrefix(t.dueDate, 10), t.subTasks.GetOr([]))
  }

  /** The editor's state: the list shown outside edit mode, the mode, and the buffer. */
  datatype DetailState = DetailState(subTasks: seq<SubTask>, editMode: bool, edit: EditBuffer)

  /**
   * Cancel: reloads the buffer from the task (when there is one) and leaves edit mode. The
   * list shown outside edit mode is not touched.
   */
  function CancelEdit(s: DetailState, task: Option<Task>): (r: DetailState)
    ensures !r.editMode && r.subTasks == s.subTasks
    ensures task.None? ==> r.edit == s.edit
    ensures task.Some? ==> r.edit == BufferFromTask(task.value)
  {
    var edit := if task.Some? then BufferFromTask(task.value) else s.edit;
    DetailState(s.subTasks, false, edit)
  }

  /**
   * Loading a (new) task: both the shown list and the buffer are taken from it; edit mode is
   * kept. Nothing happens while there is no task.
   */
  function SyncWithTask(s: DetailState, task: Option<Task>): (r: DetailState)
    ensures task.None? ==> r == s
    ensures task.Some? ==> r.edit == BufferFromTask(task.value) && r.editMode == s.editMode
    ensures task.Some? ==> r.subTasks == r.edit.subTasks
  {
    match task
    case None => s
    case Some(t) =>
      var b := BufferFromTask(t);
      DetailState(b.subTasks, s.editMode, b)
  }

  /**
   * Cancel throws away whatever was typed: any two editor states showing the same list end up
   * identical, and equal to the state just after loading the task, out of edit mode.
   */
  lemma CancelDiscardsEdits(s1: DetailState, s2: DetailState, t: Task)
    requires s1.subTasks == s2.subTasks
    ensures CancelEdit(s1, Some(t)) == CancelEdit(s2, Some(t))
    ensures CancelEdit(SyncWithTask(s1, Some(t)), Some(t)) == SyncWithTask(s1, Some(t)).(editMode := false)
  {
  }
}
