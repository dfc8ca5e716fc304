/** The visible subset of the task list: a filter mode applied first, then a
    case-insensitive search on the task text. */
module Query {
  import opened Seqs
  import opened Text
  import opened Tasks

  /** The modes that are not category names. */
  predicate IsReservedMode(mode: string)
  {
    mode == "all" || mode == "active" || mode == "completed" || mode == "high"
  }

  predicate IsHighPriority(t: Task)
  {
    t.priority == "high"
  }

  function InCategory(category: string): Task -> bool
  {
    (t: Task) => t.category == category
  }

  /** The lower-cased text of the task contains `query`, found by scanning. */
  function TextContains(query: string): Task -> bool
  {
    (t: Task) => Contains(ToLower(t.text), query)
  }

  /** Which tasks a mode admits: `all` every task, `active` and `completed`
      by completion, `high` by priority (never as a category), and any other
      mode the tasks of that category. */
  predicate ModeAdmits(mode: string, t: Task)
  {
    if mode == "all" then true
    else if mode == "active" then !t.completed
    else if mode == "completed" then t.completed
    else if mode == "high" then t.priority == "high"
    else t.category == mode
  }

  /** An empty search admits every task; any other admits the tasks whose
      lower-cased text has the lower-cased search at some position. */
  ghost predicate SearchAdmits(search: string, t: Task)
  {
    search == [] || exists i :: OccursAt(ToLower(t.text), ToLower(search), i)
  }

  ghost predicate InView(t: Task, mode: string, search: string)
  {
    ModeAdmits(mode, t) && SearchAdmits(search, t)
  }

  function ModeFilter(mode: string): Task -> bool
  {
    (t: Task) => ModeAdmits(mode, t)
  }

  ghost function ViewFilter(mode: string, search: string): Task -> bool
  {
    (t: Task) => InView(t, mode, search)
  }

  /** The mode filters, one after the other as the application applies them. */
  function ApplyMode(tasks: seq<Task>, mode: string): (r: seq<Task>)
    ensures r == Filter(ModeFilter(mode), tasks)
  {
    var a := if mode == "active" then Filter(IsActive, tasks) else tasks;
    var b := if mode == "completed" then Filter(IsCompleted, a) else a;
    var c := if mode == "high" then Filter(IsHighPriority, b) else b;
    var d := if !IsReservedMode(mode) then Filter(InCategory(mode), c) else c;
    if mode == "all" then
      FilterAll(ModeFilter(mode), tasks);
      d
    else if mode == "active" then
      FilterExt(IsActive, ModeFilter(mode), tasks);
      d
    else if mode == "completed" then
      FilterExt(IsCompleted, ModeFilter(mode), tasks);
      d
    else if mode == "high" then
      FilterExt(IsHighPriority, ModeFilter(mode), tasks);
      d
    else
      FilterExt(InCategory(mode), ModeFilter(mode), tasks);
      d
  }

  /** The tasks on view: exactly the tasks the mode and the search both admit,
      in list order. */
  function GetFilteredTasks(tasks: seq<Task>, mode: string, search: string): (r: seq<Task>)
    ensures r == Filter(ViewFilter(mode, search), tasks)
    ensures IsSubseq(r, tasks)
    ensures forall i :: 0 <= i < |r| ==> InView(r[i], mode, search)
    ensures forall i :: 0 <= i < |tasks| && InView(tasks[i], mode, search) ==> tasks[i] in r
  {
    var byMode := ApplyMode(tasks, mode);
    if search != [] then
      var query := ToLower(search);
      SearchMatchesScan(mode, search);
      FilterCompose(ModeFilter(mode), TextContains(query), ViewFilter(mode, search), tasks);
      Filter(TextContains(query), byMode)
    else
      FilterExt(ModeFilter(mode), ViewFilter(mode, search), tasks);
      byMode
  }

  /** For a non-empty search, the one-pass view predicate is the mode test
      followed by the text scan. */
  lemma SearchMatchesScan(mode: string, search: string)
    requires search != []
    ensures forall t :: ViewFilter(mode, search)(t) ==
                        (ModeFilter(mode)(t) && TextContains(ToLower(search))(t))
  {
    forall t: Task
      ensures ViewFilter(mode, search)(t) ==
              (ModeFilter(mode)(t) && TextContains(ToLower(search))(t))
    {
      ContainsIff(ToLower(t.text), ToLower(search));
    }
  }

  /** Lower-casing the search before filtering (as typing into the search box
      does) does not change the view. */
  lemma SearchCaseInsensitive(tasks: seq<Task>, mode: string, search: string)
    ensures GetFilteredTasks(tasks, mode, ToLower(search)) == GetFilteredTasks(tasks, mode, search)
  {
    ToLowerIdempotent(search);
    FilterExt(ViewFilter(mode, ToLower(search)), ViewFilter(mode, search), tasks);
  }

  /** Mode `active` with no search shows exactly the uncompleted tasks. */
  lemma ActiveView(tasks: seq<Task>)
    ensures GetFilteredTasks(tasks, "active", "") == Filter(IsActive, tasks)
  {
    FilterExt(ViewFilter("active", ""), IsActive, tasks);
  }

  /** Mode `high` selects by priority: a task filed under a category named
      `high` does not show unless its priority is high. */
  lemma HighIsPriorityNotCategory(tasks: seq<Task>)
    ensures GetFilteredTasks(tasks, "high", "") == Filter(IsHighPriority, tasks)
  {
    FilterExt(ViewFilter("high", ""), IsHighPriority, tasks);
  }

  /** A category mode no task belongs to shows nothing, whatever the search. */
  lemma EmptyCategoryView(tasks: seq<Task>, mode: string, search: string)
    requires !IsReservedMode(mode)
    requires forall i :: 0 <= i < |tasks| ==> tasks[i].category != mode
    ensures GetFilteredTasks(tasks, mode, search) == []
  {
    FilterNone(ViewFilter(mode, search), tasks);
  }

  const TeamSync := Task(1, "team sync", false, "work", "low", "", "")
  const Groceries := Task(2, "groceries", false, "personal", "low", "", "")

  lemma TeamSyncMatches()
    ensures InView(TeamSync, "all", "team")
  {
    ToLowerFixedPoint("team");
    ToLowerFixedPoint("team sync");
    assert OccursAt("team sync", "team", 0);
  }

  lemma GroceriesDoNotMatch()
    ensures !InView(Groceries, "all", "team")
  {
    var h := "groceries";
    ToLowerFixedPoint("team");
    ToLowerFixedPoint(h);
    forall i | OccursAt(h, "team", i)
      ensures h[i] == 't'
    {
      assert h[i..i + 4][0] == h[i];
    }
    assert forall i :: 0 <= i < |h| ==> h[i] != 't';
  }

  /** Searching `team` among "team sync" and "groceries" shows only the first. */
  lemma SearchExample()
    ensures GetFilteredTasks([TeamSync, Groceries], "all", "team") == [TeamSync]
  {
    TeamSyncMatches();
    GroceriesDoNotMatch();
    FilterFirstOfTwo(ViewFilter("all", "team"), TeamSync, Groceries);
  }
}
