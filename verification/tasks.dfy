/** The task record and the invariants the task list is meant to keep. */
module Tasks {
  import opened Seqs
  import opened Text

  /** One to-do item. `dueDate` is the date input's value, `""` when no date
      was chosen; `createdAt` is the creation timestamp, kept but never read. */
  datatype Task = Task(
    id: int,
    text: string,
    completed: bool,
    category: string,
    priority: string,
    dueDate: string,
    createdAt: string)

  predicate IsActive(t: Task)
  {
    !t.completed
  }

  predicate IsCompleted(t: Task)
  {
    t.completed
  }

  function WithId(id: int): Task -> bool
  {
    (t: Task) => t.id == id
  }

  function WithoutId(id: int): Task -> bool
  {
    (t: Task) => t.id != id
  }

  /** No task in the list carries `id`. */
  predicate IdFresh(id: int, tasks: seq<Task>)
  {
    forall i :: 0 <= i < |tasks| ==> tasks[i].id != id
  }

  predicate DistinctIds(a: Task, b: Task)
  {
    a.id != b.id
  }

  predicate UniqueIds(tasks: seq<Task>)
  {
    Pairwise(DistinctIds, tasks)
  }

  /** Every text is what a successful add or edit stores: trimmed and non-empty. */
  predicate TextsValid(tasks: seq<Task>)
  {
    forall i :: 0 <= i < |tasks| ==> IsTrimmedNonBlank(tasks[i].text)
  }

  /** The intended invariant of the list: identities are unique and texts valid. */
  predicate WellFormed(tasks: seq<Task>)
  {
    UniqueIds(tasks) && TextsValid(tasks)
  }

  /** Putting a task with a fresh identity and a valid text in front keeps a list well-formed. */
  lemma ConsWellFormed(t: Task, tasks: seq<Task>)
    requires WellFormed(tasks) && IdFresh(t.id, tasks) && IsTrimmedNonBlank(t.text)
    ensures WellFormed([t] + tasks)
  {
    var r := [t] + tasks;
    forall i, j | 0 <= i < j < |r|
      ensures DistinctIds(r[i], r[j])
    {
      assert r[j] == tasks[j - 1];
      if i > 0 {
        assert r[i] == tasks[i - 1];
      }
    }
    forall i | 0 < i < |r|
      ensures IsTrimmedNonBlank(r[i].text)
    {
      assert r[i] == tasks[i - 1];
    }
  }

  /** Dropping the first task keeps a list well-formed, and its identity is fresh in the rest. */
  lemma TailWellFormed(tasks: seq<Task>)
    requires WellFormed(tasks) && |tasks| > 0
    ensures WellFormed(tasks[1..]) && IdFresh(tasks[0].id, tasks[1..])
  {
    var tail := tasks[1..];
    forall i, j | 0 <= i < j < |tail|
      ensures DistinctIds(tail[i], tail[j])
    {
      assert tail[i] == tasks[i + 1] && tail[j] == tasks[j + 1];
    }
    forall i | 0 <= i < |tail|
      ensures tail[i].id != tasks[0].id
    {
      assert DistinctIds(tasks[0], tasks[i + 1]);
    }
  }
}
