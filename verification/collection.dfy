/** The mutations of the task list: add, delete, toggle, edit and
    clear-completed. Browser dialogs (`alert`, `prompt`, `confirm`), the
    clock and the form fields become parameters; every operation is a pure
    function from the old list to the new one. */
module TaskCollection {
  import opened Options
  import opened Seqs
  import opened Text
  import opened Tasks

  /** The message shown when the task input is blank. */
  const EmptyTaskAlert: string := "Enter any task...."

  /** The list after an add, and the alert shown instead when it is refused. */
  datatype AddOutcome = AddOutcome(tasks: seq<Task>, alert: Option<string>)

  /** Add a task built from the form: refused with an alert when the input is
      blank, otherwise the new, uncompleted task with the trimmed text goes
      in front of the unchanged old list. The caller supplies `id` (a clock
      reading in the application) and nothing requires it to be fresh. */
  function AddTask(tasks: seq<Task>, input: string, id: int, category: string,
                   priority: string, dueDate: string, createdAt: string): (r: AddOutcome)
    ensures (forall i :: 0 <= i < |input| ==> IsWhitespace(input[i])) ==>
              r.tasks == tasks && r.alert == Some(EmptyTaskAlert)
    ensures (exists i :: 0 <= i < |input| && !IsWhitespace(input[i])) ==>
              && r.alert == None
              && |r.tasks| == |tasks| + 1
              && r.tasks[1..] == tasks
              && r.tasks[0].id == id
              && IsTrimmedNonBlank(r.tasks[0].text)
              && r.tasks[0].text == Trim(input)
              && !r.tasks[0].completed
              && r.tasks[0].category == category
              && r.tasks[0].priority == priority
              && r.tasks[0].dueDate == dueDate
              && r.tasks[0].createdAt == createdAt
  {
    var text := Trim(input);
    if text == [] then AddOutcome(tasks, Some(EmptyTaskAlert))
    else AddOutcome([Task(id, text, false, category, priority, dueDate, createdAt)] + tasks, None)
  }

  /** Remove every task with identity `id`, keeping the rest in order. */
  function DeleteTask(tasks: seq<Task>, id: int): (r: seq<Task>)
    ensures IsSubseq(r, tasks)
    ensures forall i :: 0 <= i < |r| ==> r[i].id != id
    ensures forall i :: 0 <= i < |tasks| && tasks[i].id != id ==> tasks[i] in r
    ensures |r| + Count(WithId(id), tasks) == |tasks|
  {
    CountComplement(WithoutId(id), WithId(id), tasks);
    Filter(WithoutId(id), tasks)
  }

  /** The contract of `DeleteTask` determines its result: any order-preserving
      removal of exactly the tasks carrying `id` is `DeleteTask`. */
  lemma DeleteTaskUnique(tasks: seq<Task>, id: int, r: seq<Task>)
    requires IsSubseq(r, tasks)
    requires forall i :: 0 <= i < |r| ==> r[i].id != id
    requires |r| + Count(WithId(id), tasks) == |tasks|
    ensures r == DeleteTask(tasks, id)
  {
    CountComplement(WithoutId(id), WithId(id), tasks);
    FilterUnique(WithoutId(id), r, tasks);
  }

  /** Deleting twice is deleting once. */
  lemma DeleteTaskIdempotent(tasks: seq<Task>, id: int)
    ensures DeleteTask(DeleteTask(tasks, id), id) == DeleteTask(tasks, id)
  {
    FilterIdempotent(WithoutId(id), tasks);
  }

  /** Deleting an identity no task carries changes nothing. */
  lemma DeleteAbsentTask(tasks: seq<Task>, id: int)
    requires IdFresh(id, tasks)
    ensures DeleteTask(tasks, id) == tasks
  {
    FilterAll(WithoutId(id), tasks);
  }

  /** Adding a task under a fresh identity and then deleting that identity
      gives back the original list. */
  lemma DeleteUndoesAdd(tasks: seq<Task>, input: string, id: int, category: string,
                        priority: string, dueDate: string, createdAt: string)
    requires IdFresh(id, tasks)
    ensures DeleteTask(AddTask(tasks, input, id, category, priority, dueDate, createdAt).tasks, id) == tasks
  {
    var added := AddTask(tasks, input, id, category, priority, dueDate, createdAt).tasks;
    DeleteAbsentTask(tasks, id);
    if added != tasks {
      assert added == [added[0]] + tasks;
      assert !WithoutId(id)(added[0]);
    }
  }

  /** Flip the completion flag of every task with identity `id`; nothing else
      about any task changes. */
  function ToggleComplete(tasks: seq<Task>, id: int): (r: seq<Task>)
    ensures |r| == |tasks|
    ensures forall i :: 0 <= i < |tasks| ==>
              r[i].completed == (tasks[i].completed != (tasks[i].id == id))
    ensures forall i :: 0 <= i < |tasks| ==> r[i].(completed := tasks[i].completed) == tasks[i]
  {
    seq(|tasks|, i requires 0 <= i < |tasks| =>
      if tasks[i].id == id then tasks[i].(completed := !tasks[i].completed) else tasks[i])
  }

  /** Toggling twice restores the list. */
  lemma ToggleTwice(tasks: seq<Task>, id: int)
    ensures ToggleComplete(ToggleComplete(tasks, id), id) == tasks
  {
    var once := ToggleComplete(tasks, id);
    var twice := ToggleComplete(once, id);
    forall i | 0 <= i < |tasks|
      ensures twice[i] == tasks[i]
    {
      assert once[i].id == tasks[i].id;
    }
  }

  /** Toggling an identity no task carries changes nothing. */
  lemma ToggleAbsentTask(tasks: seq<Task>, id: int)
    requires IdFresh(id, tasks)
    ensures ToggleComplete(tasks, id) == tasks
  {
  }

  /** The position of the first task with identity `id`, as `Array.prototype.find` locates it. */
  function FindIndex(tasks: seq<Task>, id: int): (r: Option<nat>)
    ensures r.None? <==> IdFresh(id, tasks)
    ensures r.Some? ==> r.value < |tasks| && tasks[r.value].id == id
    ensures r.Some? ==> forall j :: 0 <= j < r.value ==> tasks[j].id != id
  {
    if |tasks| == 0 then None
    else if tasks[0].id == id then Some(0)
    else match FindIndex(tasks[1..], id)
      case None => None
      case Some(k) => Some(k + 1)
  }

  /** The prompt's answer is a usable new text: not cancelled and not blank. */
  predicate IsUsableReply(reply: Option<string>): (b: bool)
    ensures b <==> reply.Some? && exists i :: 0 <= i < |reply.value| && !IsWhitespace(reply.value[i])
  {
    reply.Some? && Trim(reply.value) != []
  }

  /** Position `k` holds the first task with identity `id`. */
  predicate IsFirstWithId(tasks: seq<Task>, id: int, k: int)
  {
    0 <= k < |tasks| && tasks[k].id == id && IdFresh(id, tasks[..k])
  }

  /** There is only one first position with a given identity, and `FindIndex` returns it. */
  lemma FindIndexIsFirst(tasks: seq<Task>, id: int, k: int)
    requires IsFirstWithId(tasks, id, k)
    ensures FindIndex(tasks, id) == Some(k)
  {
    assert forall j :: 0 <= j < k ==> tasks[j] == tasks[..k][j];
  }

  /** Replace the text of the first task with identity `id` by the trimmed
      reply of the edit prompt. Nothing changes when no task has that
      identity, when the prompt is cancelled (`None`) or when the reply is
      blank; no field other than a text ever changes. */
  function EditTask(tasks: seq<Task>, id: int, reply: Option<string>): (r: seq<Task>)
    ensures |r| == |tasks|
    ensures forall i :: 0 <= i < |tasks| ==> r[i].(text := tasks[i].text) == tasks[i]
    ensures forall i :: 0 <= i < |tasks| ==> IsTrimmedNonBlank(r[i].text) || r[i] == tasks[i]
    ensures IdFresh(id, tasks) || !IsUsableReply(reply) ==> r == tasks
  {
    match FindIndex(tasks, id)
    case None => tasks
    case Some(k) =>
      if !IsUsableReply(reply) then tasks
      else tasks[k := tasks[k].(text := Trim(reply.value))]
  }

  /** With a usable reply, the edit changes exactly the first task carrying
      `id`, giving it the trimmed reply as its text, and no other task. */
  lemma EditTaskChangesFirstMatch(tasks: seq<Task>, id: int, reply: Option<string>, k: int)
    requires IsFirstWithId(tasks, id, k) && IsUsableReply(reply)
    ensures EditTask(tasks, id, reply)[k].text == Trim(reply.value)
    ensures forall i :: 0 <= i < |tasks| && i != k ==> EditTask(tasks, id, reply)[i] == tasks[i]
  {
    FindIndexIsFirst(tasks, id, k);
  }

  /** Remove every completed task, keeping the rest in order, when the
      confirmation dialog is accepted; leave the list alone when it is declined. */
  function ClearCompleted(tasks: seq<Task>, confirmed: bool): (r: seq<Task>)
    ensures !confirmed ==> r == tasks
    ensures confirmed ==> IsSubseq(r, tasks)
    ensures confirmed ==> forall i :: 0 <= i < |r| ==> !r[i].completed
    ensures confirmed ==> forall i :: 0 <= i < |tasks| && !tasks[i].completed ==> tasks[i] in r
    ensures confirmed ==> |r| == Count(IsActive, tasks)
  {
    if confirmed then Filter(IsActive, tasks) else tasks
  }

  /** A second confirmed clear finds nothing left to remove. */
  lemma ClearCompletedIdempotent(tasks: seq<Task>)
    ensures ClearCompleted(ClearCompleted(tasks, true), true) == ClearCompleted(tasks, true)
  {
    FilterIdempotent(IsActive, tasks);
  }

  /** An added task keeps the list well-formed when its identity is fresh. */
  lemma AddTaskPreservesWellFormed(tasks: seq<Task>, input: string, id: int, category: string,
                                   priority: string, dueDate: string, createdAt: string)
    requires WellFormed(tasks) && IdFresh(id, tasks)
    ensures WellFormed(AddTask(tasks, input, id, category, priority, dueDate, createdAt).tasks)
  {
    var text := Trim(input);
    if text != [] {
      var t := Task(id, text, false, category, priority, dueDate, createdAt);
      ConsWellFormed(t, tasks);
      assert AddTask(tasks, input, id, category, priority, dueDate, createdAt).tasks == [t] + tasks;
    }
  }

  /** The application stamps new tasks with a clock reading, which may repeat:
      two successful adds under one stamp leave two tasks with one identity. */
  lemma AddTaskCanDuplicateIds(tasks: seq<Task>, first: string, second: string, id: int,
                               category: string, priority: string, dueDate: string, createdAt: string)
    requires Trim(first) != [] && Trim(second) != []
    ensures var once := AddTask(tasks, first, id, category, priority, dueDate, createdAt).tasks;
            !UniqueIds(AddTask(once, second, id, category, priority, dueDate, createdAt).tasks)
  {
    var once := AddTask(tasks, first, id, category, priority, dueDate, createdAt).tasks;
    var twice := AddTask(once, second, id, category, priority, dueDate, createdAt).tasks;
    assert once[0].id == id;
    assert twice[1..] == once;
    assert !DistinctIds(twice[0], twice[1]);
  }

  lemma DeleteTaskPreservesWellFormed(tasks: seq<Task>, id: int)
    requires WellFormed(tasks)
    ensures WellFormed(DeleteTask(tasks, id))
  {
    var r := DeleteTask(tasks, id);
    SubseqPairwise(DistinctIds, r, tasks);
    SubseqMembers(r, tasks);
  }

  lemma ToggleCompletePreservesWellFormed(tasks: seq<Task>, id: int)
    requires WellFormed(tasks)
    ensures WellFormed(ToggleComplete(tasks, id))
  {
    var r := ToggleComplete(tasks, id);
    forall i, j | 0 <= i < j < |r|
      ensures DistinctIds(r[i], r[j])
    {
      assert r[i].id == tasks[i].id && r[j].id == tasks[j].id;
    }
    forall i | 0 <= i < |r|
      ensures IsTrimmedNonBlank(r[i].text)
    {
      assert r[i].text == tasks[i].text;
    }
  }

  lemma EditTaskPreservesWellFormed(tasks: seq<Task>, id: int, reply: Option<string>)
    requires WellFormed(tasks)
    ensures WellFormed(EditTask(tasks, id, reply))
  {
    var r := EditTask(tasks, id, reply);
    forall i, j | 0 <= i < j < |r|
      ensures DistinctIds(r[i], r[j])
    {
      assert r[i].id == tasks[i].id && r[j].id == tasks[j].id;
    }
  }

  lemma ClearCompletedPreservesWellFormed(tasks: seq<Task>, confirmed: bool)
    requires WellFormed(tasks)
    ensures WellFormed(ClearCompleted(tasks, confirmed))
  {
    if confirmed {
      var r := ClearCompleted(tasks, confirmed);
      SubseqPairwise(DistinctIds, r, tasks);
      SubseqMembers(r, tasks);
    }
  }
}
