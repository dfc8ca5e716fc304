/** The session as a whole: the task list, the active filter and search,
    and the content of the storage slot the list is saved to. Each user
    action is one step from state to state; the view and the summary are
    derived from the state. */
module App {
  import opened Options
  import opened Text
  import opened Tasks
  import opened TaskCollection
  import opened DueDateSort
  import opened Query
  import opened Stats

  /** `stored` is what the storage slot holds, as a list of tasks. */
  datatype State = State(tasks: seq<Task>, filter: string, search: string, stored: seq<Task>)

  /** The user's actions, with the dialog answers, clock readings and form
      values they depend on supplied as arguments. */
  datatype Action =
    | Add(input: string, id: int, category: string, priority: string, dueDate: string, createdAt: string)
    | Delete(id: int)
    | Toggle(id: int)
    | Edit(id: int, reply: Option<string>)
    | ClearDone(confirmed: bool)
    | SortDates
    | SetFilter(mode: string)
    | SetSearch(input: string)

  /** The list in memory is the list in storage. */
  predicate Synced(st: State)
  {
    st.stored == st.tasks
  }

  /** Start-up: the list is whatever the slot holds, every task is on view
      and the search is empty. */
  function Init(saved: seq<Task>): (st: State)
    ensures Synced(st) && st.tasks == saved
    ensures st.filter == "all" && st.search == []
  {
    State(saved, "all", [], saved)
  }

  /** Replace the list and write it to the slot. */
  function Save(st: State, tasks: seq<Task>): State
  {
    st.(tasks := tasks, stored := tasks)
  }

  /** One user action. Every change to the list is written to the slot,
      except the sort, whose new order stays in memory only. */
  function Step(st: State, a: Action): (r: State)
    ensures !a.SortDates? && r.tasks != st.tasks ==> r.stored == r.tasks
    ensures r.tasks == st.tasks ==> r.stored == st.stored || r.stored == r.tasks
    ensures a.SortDates? ==> r.stored == st.stored && multiset(r.tasks) == multiset(st.tasks)
    ensures !a.SetFilter? && !a.SetSearch? ==> r.filter == st.filter && r.search == st.search
    ensures a.SetFilter? || a.SetSearch? ==> r.tasks == st.tasks && r.stored == st.stored
    ensures a.SetSearch? ==> r.search == ToLower(a.input) && r.filter == st.filter
    ensures a.SetFilter? ==> r.filter == a.mode && r.search == st.search
  {
    match a
    case Add(input, id, category, priority, dueDate, createdAt) =>
      var outcome := AddTask(st.tasks, input, id, category, priority, dueDate, createdAt);
      if outcome.alert.Some? then st else Save(st, outcome.tasks)
    case Delete(id) => Save(st, DeleteTask(st.tasks, id))
    case Toggle(id) => Save(st, ToggleComplete(st.tasks, id))
    case Edit(id, reply) =>
      if FindIndex(st.tasks, id).None? || !IsUsableReply(reply) then st
      else Save(st, EditTask(st.tasks, id, reply))
    case ClearDone(confirmed) =>
      if confirmed then Save(st, ClearCompleted(st.tasks, true)) else st
    case SortDates => st.(tasks := SortByDate(st.tasks))
    case SetFilter(mode) => st.(filter := mode)
    case SetSearch(input) => st.(search := ToLower(input))
  }

  /** What the list shows. */
  function View(st: State): seq<Task>
  {
    GetFilteredTasks(st.tasks, st.filter, st.search)
  }

  /** What the summary shows: figures over the whole list, not the view. */
  function Summarize(st: State): Summary
  {
    ComputeStats(st.tasks)
  }

  /** Every action except the sort keeps memory and storage in step. */
  lemma StepKeepsSynced(st: State, a: Action)
    requires Synced(st) && !a.SortDates?
    ensures Synced(Step(st, a))
  {
  }

  /** A sort is lost on reload: restarting from the slot after a sort gives
      back the order from before the sort. */
  lemma SortLostOnReload(st: State)
    requires Synced(st)
    ensures Init(Step(st, SortDates).stored).tasks == st.tasks
  {
  }

  /** The search box's lower-casing and the view's own agree: the view after
      typing `input` is the view for `input` as typed. */
  lemma SearchViewIgnoresCase(st: State, input: string)
    ensures View(Step(st, SetSearch(input))) == GetFilteredTasks(st.tasks, st.filter, input)
  {
    SearchCaseInsensitive(st.tasks, st.filter, input);
  }

  /** Changing the filter or the search changes the view but never the summary. */
  lemma SummaryIgnoresView(st: State, a: Action)
    requires a.SetFilter? || a.SetSearch?
    ensures Summarize(Step(st, a)) == Summarize(st)
  {
  }

  /** The list stays well-formed under every action, provided each added
      task gets an identity no task already has. */
  lemma StepPreservesWellFormed(st: State, a: Action)
    requires WellFormed(st.tasks)
    requires a.Add? ==> IdFresh(a.id, st.tasks)
    ensures WellFormed(Step(st, a).tasks)
  {
    match a
    case Add(input, id, category, priority, dueDate, createdAt) =>
      AddTaskPreservesWellFormed(st.tasks, input, id, category, priority, dueDate, createdAt);
    case Delete(id) => DeleteTaskPreservesWellFormed(st.tasks, id);
    case Toggle(id) => ToggleCompletePreservesWellFormed(st.tasks, id);
    case Edit(id, reply) => EditTaskPreservesWellFormed(st.tasks, id, reply);
    case ClearDone(confirmed) => ClearCompletedPreservesWellFormed(st.tasks, confirmed);
    case SortDates => SortPreservesWellFormed(st.tasks);
    case SetFilter(_) =>
    case SetSearch(_) =>
  }
}
