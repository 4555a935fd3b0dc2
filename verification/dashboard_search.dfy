/**
 * The dashboard's search box: a case-insensitive substring filter over the task list that
 * looks at each task's title, its description and the titles of its subtasks.
 */
module DashboardSearch {
  import opened Wrappers
  import opened JsString
  import opened Types
  import opened SeqOrder

  /** The query, lower-cased, occurs in the lower-cased text. */
  predicate TextMatches(text: string, query: string) {
    Includes(ToLower(text), ToLower(query))
  }

  /** Some subtask title matches; a task without a `subTasks` list has none. */
  predicate SomeSubTaskMatches(subTasks: Option<seq<SubTask>>, query: string) {
    subTasks.Some? && exists i :: 0 <= i < |subTasks.value| && TextMatches(subTasks.value[i].title, query)
  }

  /** The per-task predicate of the filter. */
  predicate Matches(t: Task, query: string) {
    || TextMatches(t.title, query)
    || TextMatches(t.description, query)
    || SomeSubTaskMatches(t.subTasks, query)
  }

  /** `tasks.filter(t => Matches(t, query))`: keeps the matching tasks, in order. */
  function KeepMatching(tasks: seq<Task>, query: string): (r: seq<Task>)
    ensures |r| <= |tasks|
    ensures forall t :: t in r <==> t in tasks && Matches(t, query)
    ensures IsSubsequence(r, tasks)
  {
    if |tasks| == 0 then []
    else
      var rest := KeepMatching(tasks[1..], query);
      assert tasks == [tasks[0]] + tasks[1..];
      if Matches(tasks[0], query) then
        assert ([tasks[0]] + rest)[1..] == rest;
        [tasks[0]] + rest
      else
        rest
  }

  /** `filter` keeps every copy of a matching task and no copy of any other. */
  lemma {:induction false} KeepMatchingCounts(tasks: seq<Task>, query: string)
    ensures forall t :: multiset(KeepMatching(tasks, query))[t] == if Matches(t, query) then multiset(tasks)[t] else 0
    decreases |tasks|
  {
    if |tasks| > 0 {
      KeepMatchingCounts(tasks[1..], query);
      assert tasks == [tasks[0]] + tasks[1..];
      assert multiset(tasks) == multiset([tasks[0]]) + multiset(tasks[1..]);
    }
  }

  /**
   * The filtered list the dashboard shows. A query that is blank after trimming shows every
   * task; any other query is matched as typed, surrounding spaces included.
   */
  function FilterTasks(tasks: seq<Task>, search: string): (r: seq<Task>)
    ensures IsBlank(search) ==> r == tasks
    ensures forall t :: t in r <==> t in tasks && (IsBlank(search) || Matches(t, search))
    ensures forall t :: multiset(r)[t] == if IsBlank(search) || Matches(t, search) then multiset(tasks)[t] else 0
    ensures IsSubsequence(r, tasks)
  {
    if IsBlank(search) then
      SubsequenceOfSelf(tasks);
      tasks
    else
      KeepMatchingCounts(tasks, search);
      KeepMatching(tasks, search)
  }

  /** Filtering what has already been filtered by the same query changes nothing. */
  lemma {:induction false} KeepMatchingIdempotent(tasks: seq<Task>, query: string)
    ensures KeepMatching(KeepMatching(tasks, query), query) == KeepMatching(tasks, query)
    decreases |tasks|
  {
    if |tasks| > 0 {
      KeepMatchingIdempotent(tasks[1..], query);
      var rest := KeepMatching(tasks[1..], query);
      if Matches(tasks[0], query) {
        assert ([tasks[0]] + rest)[1..] == rest;
      }
    }
  }

  lemma FilterIdempotent(tasks: seq<Task>, search: string)
    ensures FilterTasks(FilterTasks(tasks, search), search) == FilterTasks(tasks, search)
  {
    if !IsBlank(search) {
      KeepMatchingIdempotent(tasks, search);
    }
  }

  /** Two queries with the same lower-case form accept the same tasks. */
  lemma {:induction false} KeepMatchingCaseInsensitive(tasks: seq<Task>, q1: string, q2: string)
    requires ToLower(q1) == ToLower(q2)
    ensures KeepMatching(tasks, q1) == KeepMatching(tasks, q2)
    decreases |tasks|
  {
    if |tasks| > 0 {
      KeepMatchingCaseInsensitive(tasks[1..], q1, q2);
      assert Matches(tasks[0], q1) <==> Matches(tasks[0], q2);
    }
  }

  /** Searching is case-insensitive: queries that lower-case alike give the same list. */
  lemma FilterCaseInsensitive(tasks: seq<Task>, s1: string, s2: string)
    requires ToLower(s1) == ToLower(s2)
    ensures FilterTasks(tasks, s1) == FilterTasks(tasks, s2)
  {
    ToLowerKeepsBlank(s1);
    ToLowerKeepsBlank(s2);
    if !IsBlank(s1) {
      KeepMatchingCaseInsensitive(tasks, s1, s2);
    }
  }

  /**
   * Typing more characters after a query can only drop tasks from the result; in particular
   * a trailing space is matched literally and never widens the search.
   */
  lemma FilterNarrowsAsQueryGrows(tasks: seq<Task>, q: string, more: string)
    ensures forall t :: t in FilterTasks(tasks, q + more) ==> t in FilterTasks(tasks, q)
  {
    ToLowerConcat(q, more);
    BlankPrefix(q, more);
    forall t | t in FilterTasks(tasks, q + more) && !IsBlank(q)
      ensures t in FilterTasks(tasks, q)
    {
      var lq, lm := ToLower(q), ToLower(more);
      if TextMatches(t.title, q + more) {
        IncludesExtension(ToLower(t.title), lq, lm);
      } else if TextMatches(t.description, q + more) {
        IncludesExtension(ToLower(t.description), lq, lm);
      } else {
        var i :| 0 <= i < |t.subTasks.value| && TextMatches(t.subTasks.value[i].title, q + more);
        IncludesExtension(ToLower(t.subTasks.value[i].title), lq, lm);
      }
    }
  }

  /** A task without subtasks is found only through its title or its description. */
  lemma TaskWithoutSubTasks(tasks: seq<Task>, t: Task, search: string)
    requires t.subTasks == None || t.subTasks == Some([])
    ensures t in FilterTasks(tasks, search) <==>
      t in tasks && (IsBlank(search) || TextMatches(t.title, search) || TextMatches(t.description, search))
  {
  }

  /** A task for the examples below: title "UI", one short description and one subtask. */
  const Ui: Task := Task("1", "UI", "Go", "In Progress", "2025-07-10", "u1",
                         Some([SubTask(StrId("1-1"), "Do", true)]), None)

  lemma NotBlankWhenFirstIsNot(s: string)
    requires |s| > 0 && !IsWhitespace(s[0])
    ensures !IsBlank(s)
  {
    BlankIffAllWhitespace(s);
  }

  lemma UiFoundByTitle()
    ensures Matches(Ui, "ui")
  {
    assert ToLower("UI") == "ui";
    assert ToLower("ui") == "ui";
    assert StartsWith("ui", "ui");
  }

  lemma UiMissedWithSpace()
    ensures !Matches(Ui, "ui ")
  {
    var q := ToLower("ui ");
    IncludesNeedsRoom(ToLower("UI"), q);
    IncludesNeedsRoom(ToLower("Go"), q);
    IncludesNeedsRoom(ToLower("Do"), q);
    assert Ui.subTasks.value == [SubTask(StrId("1-1"), "Do", true)];
  }

  /**
   * A query with a trailing space is not trimmed before matching: "ui" finds the task titled
   * "UI", "ui " does not.
   */
  lemma TrailingSpaceIsMatched()
    ensures FilterTasks([Ui], "ui") == [Ui]
    ensures FilterTasks([Ui], "ui ") == []
  {
    NotBlankWhenFirstIsNot("ui");
    NotBlankWhenFirstIsNot("ui ");
    UiFoundByTitle();
    UiMissedWithSpace();
  }
}
