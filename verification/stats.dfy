/** The summary figures shown above the list: totals, and the completion
    rate as a whole percentage. They are taken over the whole list, never
    over the filtered view. */
module Stats {
  import opened Seqs
  import opened Tasks
  import TaskCollection

  datatype Summary = Summary(total: nat, completed: nat, active: nat, rate: nat)

  /** The counts, and `Math.round(completed / total * 100)` computed exactly:
      the rate is the percentage rounded to the nearest integer, a half
      rounding up, and 0 for an empty list. */
  function ComputeStats(tasks: seq<Task>): (r: Summary)
    ensures r.total == |tasks|
    ensures r.completed == Count(IsCompleted, tasks)
    ensures r.active == Count(IsActive, tasks)
    ensures r.completed + r.active == r.total
    ensures r.total == 0 ==> r.rate == 0
    ensures r.total > 0 ==>
              2 * r.total * r.rate <= 200 * r.completed + r.total < 2 * r.total * (r.rate + 1)
    ensures r.rate <= 100
  {
    CountComplement(IsCompleted, IsActive, tasks);
    var total := |tasks|;
    var completed := Count(IsCompleted, tasks);
    var active := total - completed;
    var rate := if total > 0 then RoundedPercent(completed, total) else 0;
    Summary(total, completed, active, rate)
  }

  /** `part / whole` as a percentage, rounded to nearest with halves up. */
  function RoundedPercent(part: nat, whole: nat): (p: nat)
    requires 0 < whole && part <= whole
    ensures 2 * whole * p <= 200 * part + whole < 2 * whole * (p + 1)
    ensures p <= 100
  {
    var n, d := 200 * part + whole, 2 * whole;
    DivisionBounds(n, d);
    PercentAtMostHundred(n, d, n / d);
    n / d
  }

  lemma DivisionBounds(n: nat, d: nat)
    requires d > 0
    ensures d * (n / d) <= n < d * (n / d + 1)
  {
    var q, m := n / d, n % d;
    assert n == d * q + m && m < d;
    assert d * (q + 1) == d * q + d;
  }

  lemma PercentAtMostHundred(n: nat, d: nat, p: nat)
    requires d > 0 && 2 * n <= 201 * d && d * p <= n
    ensures p <= 100
  {
  }

  /** Nothing completed is a rate of 0. */
  lemma ZeroPercent(whole: nat)
    requires 0 < whole
    ensures RoundedPercent(0, whole) == 0
  {
    assert 200 * 0 + whole < 2 * whole;
  }

  /** An empty list shows zeros everywhere. */
  lemma EmptyStats()
    ensures ComputeStats([]) == Summary(0, 0, 0, 0)
  {
  }

  /** One completed task out of three is a 33% completion rate. */
  lemma OneOfThreeStats()
    ensures var done := Task(1, "a", true, "work", "low", "", "");
            var todo1 := Task(2, "b", false, "work", "low", "", "");
            var todo2 := Task(3, "c", false, "work", "low", "", "");
            ComputeStats([done, todo1, todo2]) == Summary(3, 1, 2, 33)
  {
    var done := Task(1, "a", true, "work", "low", "", "");
    var todo1 := Task(2, "b", false, "work", "low", "", "");
    var todo2 := Task(3, "c", false, "work", "low", "", "");
    var s := [done, todo1, todo2];
    assert s[1..] == [todo1, todo2] && [todo1, todo2][1..] == [todo2] && [todo2][1..] == [];
    assert Count(IsCompleted, [todo2]) == 0;
    assert Count(IsCompleted, [todo1, todo2]) == 0;
    assert Count(IsCompleted, s) == 1;
  }

  /** After a confirmed clear, nothing is completed, the total is the old
      number of active tasks and the rate is 0. */
  lemma StatsAfterClearCompleted(tasks: seq<Task>)
    ensures var before := ComputeStats(tasks);
            ComputeStats(TaskCollection.ClearCompleted(tasks, true)) == Summary(before.active, 0, before.active, 0)
  {
    var r := TaskCollection.ClearCompleted(tasks, true);
    FilterNone(IsCompleted, r);
    if |r| > 0 {
      ZeroPercent(|r|);
    }
  }
}
