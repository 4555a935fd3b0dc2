/**
 * The new-task dialog: the form, the subtask input with its 50-character cap, the list of
 * subtask titles collected so far, and the task it hands to the dashboard on submit.
 */
module TaskDialog {
  import opened Wrappers
  import opened JsString
  import opened Types
  import Status

  /** Longest subtask title the input accepts, in UTF-16 code units. */
  const MaxSubTaskLength: nat := 50

  /**
   * The form fields. The chosen due date is held as the ISO string `toISOString()` renders
   * for it; the calendar and the rendering are outside the model.
   */
  datatype Form = Form(title: string, description: string, status: string, dueDate: Option<string>)

  datatype DialogState = DialogState(form: Form, subTaskInput: string, subTasks: seq<string>, open: bool)

  /** The task handed to the dashboard: a task without its `id` and `userId`. */
  datatype NewTask = NewTask(
    title: string,
    description: string,
    status: string,
    dueDate: string,
    subTasks: Option<seq<SubTask>>)

  const DefaultForm: Form := Form("", "", Status.DefaultStatus, None)

  /** The dialog as it is first mounted. */
  function Initial(open: bool): (s: DialogState)
    ensures Valid(s)
  {
    DialogState(DefaultForm, "", [], open)
  }

  /** A collected subtask title: trimmed, not blank, and within the cap. */
  predicate IsStoredEntry(e: string) {
    !IsBlank(e) && Trim(e) == e && JsLength(e) <= MaxSubTaskLength
  }

  /** Every collected entry is well formed. */
  predicate AllStored(entries: seq<string>) {
    forall e :: e in entries ==> IsStoredEntry(e)
  }

  /** What the dialog keeps true: the input is within the cap and every entry is well formed. */
  predicate Valid(s: DialogState) {
    JsLength(s.subTaskInput) <= MaxSubTaskLength && AllStored(s.subTasks)
  }

  /** Typing in the input: a value over the cap is refused and the old value kept. */
  function ChangeInput(s: DialogState, value: string): (r: DialogState)
    ensures JsLength(value) <= MaxSubTaskLength ==> r == s.(subTaskInput := value)
    ensures JsLength(value) > MaxSubTaskLength ==> r == s
    ensures JsLength(r.subTaskInput) <= MaxSubTaskLength || r == s
    ensures Valid(s) ==> Valid(r)
  {
    if JsLength(value) <= MaxSubTaskLength then s.(subTaskInput := value) else s
  }

  /** The trimmed input is a well-formed entry whenever it is not blank and within the cap. */
  lemma TrimmedInputIsEntry(input: string)
    requires !IsBlank(input) && JsLength(input) <= MaxSubTaskLength
    ensures IsStoredEntry(Trim(input))
  {
    TrimIdempotent(input);
    JsLengthTrim(input);
  }

  lemma AppendEntryKeepsValid(s: DialogState, e: string)
    requires IsStoredEntry(e)
    ensures Valid(s) ==> Valid(s.(subTasks := s.subTasks + [e], subTaskInput := ""))
  {
    if AllStored(s.subTasks) {
      forall x | x in s.subTasks + [e]
        ensures IsStoredEntry(x)
      {
        if x !in s.subTasks {
          assert x == e;
        }
      }
    }
    assert JsLength("") == 0;
  }

  /**
   * Pressing add (or Enter): a non-blank input within the cap is appended trimmed and the
   * input cleared; otherwise nothing changes.
   */
  function AddSubTask(s: DialogState): (r: DialogState)
    ensures !IsBlank(s.subTaskInput) && JsLength(s.subTaskInput) <= MaxSubTaskLength ==>
              && r.subTasks == s.subTasks + [Trim(s.subTaskInput)]
              && IsStoredEntry(r.subTasks[|s.subTasks|])
              && r.subTaskInput == "" && r.form == s.form && r.open == s.open
    ensures IsBlank(s.subTaskInput) || JsLength(s.subTaskInput) > MaxSubTaskLength ==> r == s
    ensures Valid(s) ==> Valid(r)
  {
    if !IsBlank(s.subTaskInput) && JsLength(s.subTaskInput) <= MaxSubTaskLength then
      var e := Trim(s.subTaskInput);
      TrimmedInputIsEntry(s.subTaskInput);
      AppendEntryKeepsValid(s, e);
      s.(subTasks := s.subTasks + [e], subTaskInput := "")
    else
      s
  }

  /** In a valid state the length test of `AddSubTask` never fails: only blankness decides. */
  lemma AddSubTaskInValidState(s: DialogState)
    requires Valid(s)
    ensures |AddSubTask(s).subTasks| == |s.subTasks| + (if IsBlank(s.subTaskInput) then 0 else 1)
  {
  }

  /** `xs.filter((_, i) => i !== idx)`. */
  function RemoveIndex(xs: seq<string>, idx: int): (r: seq<string>)
    ensures 0 <= idx < |xs| ==> r == xs[..idx] + xs[idx + 1..]
    ensures !(0 <= idx < |xs|) ==> r == xs
    decreases |xs|
  {
    if |xs| == 0 then []
    else
      var rest := RemoveIndex(xs[1..], idx - 1);
      if idx == 0 then rest
      else
        ConsAfterRemoval(xs, idx);
        [xs[0]] + rest
  }

  lemma ConsAfterRemoval(xs: seq<string>, idx: int)
    requires 0 < |xs| && idx != 0
    ensures 0 < idx < |xs| ==> [xs[0]] + (xs[1..][..idx - 1] + xs[1..][idx..]) == xs[..idx] + xs[idx + 1..]
    ensures !(0 <= idx < |xs|) ==> [xs[0]] + xs[1..] == xs
  {
    if 0 < idx < |xs| {
      assert [xs[0]] + xs[1..][..idx - 1] == xs[..idx];
      assert xs[1..][idx..] == xs[idx + 1..];
    }
  }

  /** Removing a chip: exactly that position goes; an index outside the list changes nothing. */
  function RemoveSubTask(s: DialogState, idx: int): (r: DialogState)
    ensures 0 <= idx < |s.subTasks| ==> r.subTasks == s.subTasks[..idx] + s.subTasks[idx + 1..]
    ensures 0 <= idx < |s.subTasks| ==> |r.subTasks| == |s.subTasks| - 1
    ensures !(0 <= idx < |s.subTasks|) ==> r == s
    ensures r.form == s.form && r.subTaskInput == s.subTaskInput && r.open == s.open
    ensures Valid(s) ==> Valid(r)
  {
    RemoveIndexKeepsEntries(s.subTasks, idx);
    s.(subTasks := RemoveIndex(s.subTasks, idx))
  }

  /** Every entry left after a removal was an entry before it. */
  lemma RemoveIndexKeepsEntries(xs: seq<string>, idx: int)
    ensures forall i :: 0 <= i < |RemoveIndex(xs, idx)| ==> RemoveIndex(xs, idx)[i] in xs
  {
    var r := RemoveIndex(xs, idx);
    if 0 <= idx < |xs| {
      forall i | 0 <= i < |r|
        ensures r[i] in xs
      {
        if i < idx {
          assert r[i] == xs[i];
        } else {
          assert r[i] == xs[i + 1];
        }
      }
    }
  }

  /**
   * `temp-${Date.now()}-${idx}`: the id given to the `idx`-th subtask of a new task, where
   * `now` is the clock reading taken for that subtask.
   */
  function TempId(now: nat, idx: nat): (r: string)
    ensures StartsWith(r, "temp-")
  {
    var tail := Decimal(now) + "-" + Decimal(idx);
    assert ("temp-" + tail)[..5] == "temp-";
    "temp-" + tail
  }

  /**
   * Two strings that each end in `-` followed by dash-free text split the same way when their
   * concatenations agree: the last dash is at the same place.
   */
  lemma SplitAtLastDash(pa: string, da: string, pb: string, db: string)
    requires |pa| > 0 && pa[|pa| - 1] == '-' && |pb| > 0 && pb[|pb| - 1] == '-'
    requires forall k :: 0 <= k < |da| ==> da[k] != '-'
    requires forall k :: 0 <= k < |db| ==> db[k] != '-'
    requires pa + da == pb + db
    ensures pa == pb && da == db
  {
    var s := pa + da;
    assert forall k :: |pa| <= k < |s| ==> s[k] == da[k - |pa|];
    assert forall k :: |pb| <= k < |s| ==> s[k] == db[k - |pb|];
    assert s[|pa| - 1] == '-' && s[|pb| - 1] == '-';
    assert |pa| == |pb|;
    assert pa == s[..|pa|] && pb == s[..|pb|];
  }

  /**
   * A temp id determines both its clock reading and its position: a decimal has no `-`, so
   * the last `-` of the id separates the two numbers.
   */
  lemma TempIdInjective(a: nat, i: nat, b: nat, j: nat)
    requires TempId(a, i) == TempId(b, j)
    ensures a == b && i == j
  {
    var da, db := Decimal(a), Decimal(b);
    var pa, pb := "temp-" + da + "-", "temp-" + db + "-";
    assert TempId(a, i) == pa + Decimal(i);
    assert TempId(b, j) == pb + Decimal(j);
    SplitAtLastDash(pa, Decimal(i), pb, Decimal(j));
    DecimalInjective(i, j);
    assert da == pa[5..|pa| - 1];
    assert db == pb[5..|pb| - 1];
    DecimalInjective(a, b);
  }

  /**
   * The subtasks of a new task: one unticked subtask per entry, in order, with distinct temp
   * ids. `clock(idx)` is what `Date.now()` returns when the id of entry `idx` is made; the
   * readings of one submission may differ.
   */
  function NewSubTasks(entries: seq<string>, clock: nat -> nat): (r: seq<SubTask>)
    ensures |r| == |entries|
    ensures forall i :: 0 <= i < |entries| ==> r[i].title == entries[i] && !r[i].done
    ensures forall i :: 0 <= i < |entries| ==> r[i].id.StrId? && StartsWith(r[i].id.s, "temp-")
    ensures forall i, j :: 0 <= i < j < |entries| ==> r[i].id != r[j].id
  {
    var r := seq(|entries|, i requires 0 <= i < |entries| => SubTask(StrId(TempId(clock(i), i)), entries[i], false));
    assert forall i :: 0 <= i < |r| ==> StartsWith(r[i].id.s, "temp-") by {
      forall i | 0 <= i < |r|
        ensures StartsWith(r[i].id.s, "temp-")
      {
        assert r[i].id.s == TempId(clock(i), i);
      }
    }
    assert forall i, j :: 0 <= i < j < |r| ==> r[i].id != r[j].id by {
      forall i, j | 0 <= i < j < |r|
        ensures r[i].id != r[j].id
      {
        if r[i].id == r[j].id {
          TempIdInjective(clock(i), i, clock(j), j);
        }
      }
    }
    r
  }

  /**
   * The task handed to the dashboard. With no subtasks collected there is no subtask list at
   * all; otherwise one unticked subtask per entry, in order, with pairwise distinct temp ids.
   * `clock` stands for the `Date.now()` readings, one per subtask.
   */
  function TaskPayload(s: DialogState, clock: nat -> nat): (p: NewTask)
    ensures p.title == s.form.title && p.description == s.form.description && p.status == s.form.status
    ensures s.form.dueDate.Some? ==> p.dueDate == s.form.dueDate.value
    ensures s.form.dueDate.None? ==> p.dueDate == ""
    ensures p.subTasks.None? <==> |s.subTasks| == 0
    ensures p.subTasks.Some? ==> p.subTasks.value == NewSubTasks(s.subTasks, clock)
  {
    NewTask(
      s.form.title,
      s.form.description,
      s.form.status,
      if s.form.dueDate.Some? then s.form.dueDate.value else "",
      if |s.subTasks| > 0 then Some(NewSubTasks(s.subTasks, clock)) else None)
  }

  /** The payload together with the dialog state left behind. */
  datatype Submission = Submission(task: NewTask, next: DialogState)

  /**
   * `handleAddTask`: hands over the payload, then puts the form back to its defaults, empties
   * the list and the input, and closes the dialog.
   */
  function AddTask(s: DialogState, clock: nat -> nat): (r: Submission)
    ensures r.task == TaskPayload(s, clock)
    ensures r.next == Initial(false)
    ensures r.next.form.title == "" && r.next.form.description == "" && r.next.form.dueDate == None
    ensures r.next.form.status == "Pending" && r.next.subTasks == [] && r.next.subTaskInput == ""
    ensures Valid(r.next)
  {
    Submission(TaskPayload(s, clock), Initial(false))
  }

  /**
   * Submitting the form. The title and description inputs are `required`, so the browser
   * blocks the submit while either is empty; otherwise `AddTask` runs.
   */
  function Submit(s: DialogState, clock: nat -> nat): (r: Option<Submission>)
    ensures r.None? <==> s.form.title == "" || s.form.description == ""
    ensures r.Some? ==> r.value == AddTask(s, clock)
  {
    if s.form.title == "" || s.form.description == "" then None else Some(AddTask(s, clock))
  }
}
