/** Sort-by-due-date. The application's comparator puts a task without a
    date after any other task (even another dateless one) and compares two
    dates chronologically, so it fixes only three things about the result:
    it is a permutation of the list, dated tasks come before dateless ones,
    and dated tasks are in ascending date order. `SortByDate` is a stable
    insertion sort by the corrected comparison `DueCompare`, which has those
    properties; dates are compared as strings, which for well-formed dates is
    calendar order (`Dates.DateOrderIsChronological`). */
module DueDateSort {
  import opened Seqs
  import opened Text
  import opened Tasks

  predicate HasDate(t: Task)
  {
    t.dueDate != ""
  }

  predicate Undated(t: Task)
  {
    t.dueDate == ""
  }

  /** `a` may precede `b` in a sorted list: a dated task before a later-or-equal
      date or before any dateless task; a dateless task only before another
      dateless one. */
  predicate DueLe(a: Task, b: Task)
  {
    if HasDate(a) then !HasDate(b) || LexLe(a.dueDate, b.dueDate) else !HasDate(b)
  }

  lemma DueLeTotal(a: Task, b: Task)
    ensures DueLe(a, b) || DueLe(b, a)
  {
    LexLeTotal(a.dueDate, b.dueDate);
  }

  lemma DueLeTransitive(a: Task, b: Task, c: Task)
    requires DueLe(a, b) && DueLe(b, c)
    ensures DueLe(a, c)
  {
    if HasDate(a) && HasDate(b) && HasDate(c) {
      LexLeTransitive(a.dueDate, b.dueDate, c.dueDate);
    }
  }

  predicate Sorted(s: seq<Task>)
  {
    Pairwise(DueLe, s)
  }

  /** A task that may precede every element of a sorted list may be put in front of it. */
  lemma ConsSorted(t: Task, s: seq<Task>)
    requires Sorted(s)
    requires forall i :: 0 <= i < |s| ==> DueLe(t, s[i])
    ensures Sorted([t] + s)
  {
    var r := [t] + s;
    forall i, j | 0 <= i < j < |r|
      ensures DueLe(r[i], r[j])
    {
      assert r[j] == s[j - 1];
      if i > 0 {
        assert r[i] == s[i - 1];
      }
    }
  }

  /** A task that may precede the head of a sorted list may precede all of it. */
  lemma BelowHead(t: Task, s: seq<Task>)
    requires Sorted(s) && (|s| == 0 || DueLe(t, s[0]))
    ensures forall i :: 0 <= i < |s| ==> DueLe(t, s[i])
  {
    forall i | 0 < i < |s|
      ensures DueLe(t, s[i])
    {
      DueLeTransitive(t, s[0], s[i]);
    }
  }

  /** A lower bound of a list and of a task is a lower bound of any
      rearrangement of the two together. */
  lemma BelowRearrangement(x: Task, s: seq<Task>, t: Task, r: seq<Task>)
    requires forall i :: 0 <= i < |s| ==> DueLe(x, s[i])
    requires DueLe(x, t)
    requires multiset(r) == multiset(s) + multiset{t}
    ensures forall i :: 0 <= i < |r| ==> DueLe(x, r[i])
  {
    forall i | 0 <= i < |r|
      ensures DueLe(x, r[i])
    {
      assert r[i] in multiset(r);
      if r[i] != t {
        assert r[i] in multiset(s);
      }
    }
  }

  /** Insert `t` into a sorted list, before the first element it may precede. */
  function Insert(t: Task, s: seq<Task>): (r: seq<Task>)
    requires Sorted(s)
    ensures multiset(r) == multiset(s) + multiset{t}
    ensures Sorted(r)
  {
    if |s| == 0 || DueLe(t, s[0]) then
      BelowHead(t, s);
      ConsSorted(t, s);
      [t] + s
    else
      var rest := Insert(t, s[1..]);
      DueLeTotal(t, s[0]);
      BelowRearrangement(s[0], s[1..], t, rest);
      ConsSorted(s[0], rest);
      assert s == [s[0]] + s[1..];
      [s[0]] + rest
  }

  /** The sign of the difference of two dates, as the comparator computes it
      by subtracting parsed dates; for well-formed dates calendar order is
      string order (`Dates.DateOrderIsChronological`). */
  function DateSign(x: string, y: string): (r: int)
    ensures -1 <= r <= 1
    ensures r == 0 <==> x == y
    ensures r < 0 <==> LexLe(x, y) && !LexLe(y, x)
    ensures r > 0 <==> LexLe(y, x) && !LexLe(x, y)
  {
    LexLeTotal(x, y);
    LexLeReflexive(x);
    LexLeStrict(x, y);
    if x == y then 0 else if LexLe(x, y) then -1 else 1
  }

  /** The comparator as the application writes it. A dateless first argument
      always compares greater, whatever the second one is; when either task
      has a date its sign agrees with `DueLe`, and it is zero only for two
      tasks with the same date. */
  function AsWrittenCompare(a: Task, b: Task): (r: int)
    ensures -1 <= r <= 1
    ensures HasDate(a) || HasDate(b) ==> (r <= 0 <==> DueLe(a, b))
    ensures r == 0 <==> HasDate(a) && a.dueDate == b.dueDate
    ensures !HasDate(a) ==> r > 0
  {
    if !HasDate(a) then 1
    else if !HasDate(b) then -1
    else
      LexLeReflexive(a.dueDate);
      DateSign(a.dueDate, b.dueDate)
  }

  /** The written comparator is not a consistent comparison: of two dateless
      tasks each is greater than the other, and a dateless task is greater
      than itself, so the order it leaves them in is up to the sort routine. */
  lemma AsWrittenCompareInconsistent(a: Task, b: Task)
    requires Undated(a) && Undated(b)
    ensures AsWrittenCompare(a, b) > 0 && AsWrittenCompare(b, a) > 0
    ensures AsWrittenCompare(a, a) != 0
  {
  }

  /** The comparator with two dateless tasks comparing equal: its sign
      agrees with `DueLe`, and it is zero exactly for tasks `DueLe` ranks
      alike (both dateless, or the same date). */
  function DueCompare(a: Task, b: Task): (r: int)
    ensures -1 <= r <= 1
    ensures r <= 0 <==> DueLe(a, b)
    ensures r == 0 <==> DueLe(a, b) && DueLe(b, a)
  {
    if HasDate(a) && HasDate(b) && LexLe(a.dueDate, b.dueDate) && LexLe(b.dueDate, a.dueDate) then
      LexLeAntisymmetric(a.dueDate, b.dueDate);
      0
    else if !HasDate(a) then (if HasDate(b) then 1 else 0)
    else if !HasDate(b) then -1
    else
      LexLeReflexive(a.dueDate);
      DateSign(a.dueDate, b.dueDate)
  }

  /** The corrected comparator is antisymmetric, as a sort's comparison must be. */
  lemma DueCompareAntisymmetric(a: Task, b: Task)
    ensures DueCompare(a, b) == -DueCompare(b, a)
  {
    DueLeTotal(a, b);
  }

  /** The correction changes nothing unless both tasks are dateless. */
  lemma DueCompareAgreesWhenDated(a: Task, b: Task)
    requires HasDate(a) || HasDate(b)
    ensures DueCompare(a, b) == AsWrittenCompare(a, b)
  {
    if HasDate(a) && HasDate(b) && LexLe(a.dueDate, b.dueDate) && LexLe(b.dueDate, a.dueDate) {
      LexLeAntisymmetric(a.dueDate, b.dueDate);
    }
  }

  /** Sort the list by due date, dated tasks first in ascending date order,
      then the dateless ones. The result is a rearrangement of the input. */
  function SortByDate(s: seq<Task>): (r: seq<Task>)
    ensures multiset(r) == multiset(s)
    ensures |r| == |s|
    ensures Sorted(r)
    ensures forall i, j :: 0 <= i < j < |r| && HasDate(r[j]) ==> HasDate(r[i])
    ensures forall i, j :: 0 <= i < j < |r| && HasDate(r[i]) && HasDate(r[j]) ==>
              LexLe(r[i].dueDate, r[j].dueDate)
  {
    if |s| == 0 then []
    else
      assert s == [s[0]] + s[1..];
      Insert(s[0], SortByDate(s[1..]))
  }

  /** Inserting a dated task leaves the dateless ones as they were; a dateless
      task goes in front of all the dateless ones. */
  lemma {:induction false} InsertKeepsUndatedOrder(t: Task, s: seq<Task>)
    requires Sorted(s)
    ensures Filter(Undated, Insert(t, s)) ==
            if HasDate(t) then Filter(Undated, s) else [t] + Filter(Undated, s)
  {
    if |s| == 0 || DueLe(t, s[0]) {
      assert ([t] + s)[1..] == s;
    } else {
      var rest := Insert(t, s[1..]);
      InsertKeepsUndatedOrder(t, s[1..]);
      assert ([s[0]] + rest)[1..] == rest;
      assert Insert(t, s) == [s[0]] + rest;
    }
  }

  /** The sort is stable for dateless tasks: they keep their relative order. */
  lemma {:induction false} SortKeepsUndatedOrder(s: seq<Task>)
    ensures Filter(Undated, SortByDate(s)) == Filter(Undated, s)
  {
    if |s| > 0 {
      SortKeepsUndatedOrder(s[1..]);
      InsertKeepsUndatedOrder(s[0], SortByDate(s[1..]));
    }
  }

  /** A rearrangement of a list in which `id` is fresh keeps it fresh. */
  lemma FreshInRearrangement(id: int, s: seq<Task>, r: seq<Task>)
    requires IdFresh(id, s) && multiset(r) == multiset(s)
    ensures IdFresh(id, r)
  {
    forall k | 0 <= k < |r|
      ensures r[k].id != id
    {
      assert r[k] in multiset(s);
    }
  }

  lemma {:induction false} InsertPreservesWellFormed(t: Task, s: seq<Task>)
    requires Sorted(s) && WellFormed(s)
    requires IdFresh(t.id, s) && IsTrimmedNonBlank(t.text)
    ensures WellFormed(Insert(t, s))
  {
    if |s| == 0 || DueLe(t, s[0]) {
      ConsWellFormed(t, s);
    } else {
      var rest := Insert(t, s[1..]);
      TailWellFormed(s);
      InsertPreservesWellFormed(t, s[1..]);
      assert IdFresh(s[0].id, rest) by {
        forall k | 0 <= k < |rest|
          ensures rest[k].id != s[0].id
        {
          assert rest[k] in multiset(rest);
          if rest[k] != t {
            assert rest[k] in multiset(s[1..]);
          } else {
            assert DistinctIds(s[0], s[0]) || s[0].id != t.id;
          }
        }
      }
      ConsWellFormed(s[0], rest);
    }
  }

  /** Sorting keeps the list well-formed. */
  lemma {:induction false} SortPreservesWellFormed(s: seq<Task>)
    requires WellFormed(s)
    ensures WellFormed(SortByDate(s))
  {
    if |s| > 0 {
      TailWellFormed(s);
      SortPreservesWellFormed(s[1..]);
      FreshInRearrangement(s[0].id, s[1..], SortByDate(s[1..]));
      InsertPreservesWellFormed(s[0], SortByDate(s[1..]));
    }
  }

  /** `Insert` puts a task in front when it may precede the head. */
  lemma InsertFront(t: Task, s: seq<Task>)
    requires Sorted(s) && (|s| == 0 || DueLe(t, s[0]))
    ensures Insert(t, s) == [t] + s
  {
  }

  /** `Insert` passes over a head the task may not precede. */
  lemma InsertPast(t: Task, s: seq<Task>)
    requires Sorted(s) && |s| > 0 && !DueLe(t, s[0])
    ensures Insert(t, s) == [s[0]] + Insert(t, s[1..])
  {
  }

  /** The shape of the example below: two dateless tasks `a` and `c`, and
      dated tasks `b` and `d` with `d` the earlier. */
  predicate ExampleShape(a: Task, b: Task, c: Task, d: Task)
  {
    Undated(a) && Undated(c) && HasDate(b) && HasDate(d) && !DueLe(b, d)
  }

  /** Short sequence displays built by concatenation. */
  lemma Displays(a: Task, b: Task, c: Task, d: Task)
    ensures [a] + [b] == [a, b]
    ensures [a] + ([b] + [c]) == [a, b, c]
    ensures [a] + ([b] + ([c] + [d])) == [a, b, c, d]
    ensures [a, b][1..] == [b] && [a, b, c][1..] == [b, c] && [a, b, c, d][1..] == [b, c, d]
  {
  }

  lemma SortExampleFirstTwo(a: Task, b: Task, c: Task, d: Task)
    requires ExampleShape(a, b, c, d)
    ensures SortByDate([c, d]) == [d, c]
  {
    Displays(c, d, a, b);
    Displays(d, c, a, b);
    assert [d][1..] == [];
    InsertPast(c, [d]);
    InsertFront(c, []);
  }

  lemma SortExampleFirstThree(a: Task, b: Task, c: Task, d: Task)
    requires ExampleShape(a, b, c, d)
    ensures SortByDate([b, c, d]) == [d, b, c]
  {
    Displays(b, c, d, a);
    Displays(d, c, a, b);
    Displays(d, b, c, a);
    SortExampleFirstTwo(a, b, c, d);
    InsertPast(b, [d, c]);
    InsertFront(b, [c]);
  }

  /** Dates ascending first, then the dateless tasks in their old order. */
  lemma SortExampleShape(a: Task, b: Task, c: Task, d: Task)
    requires ExampleShape(a, b, c, d)
    ensures SortByDate([a, b, c, d]) == [d, b, a, c]
  {
    Displays(a, b, c, d);
    Displays(d, b, a, c);
    Displays(b, c, a, d);
    SortExampleFirstThree(a, b, c, d);
    InsertPast(a, [d, b, c]);
    InsertPast(a, [b, c]);
    InsertFront(a, [c]);
  }

  /** Four tasks with due dates none, 2024-01-05, none and 2024-01-01. */
  const NoDate1 := Task(1, "a", false, "work", "low", "", "")
  const Jan5 := Task(2, "b", false, "work", "low", "2024-01-05", "")
  const NoDate2 := Task(3, "c", false, "work", "low", "", "")
  const Jan1 := Task(4, "d", false, "work", "low", "2024-01-01", "")

  /** The two example dates differ only in their last digit. */
  lemma ExampleDatesOrdered()
    ensures DueLe(Jan1, Jan5) && !DueLe(Jan5, Jan1)
  {
    var month := "2024-01-0";
    assert Jan1.dueDate == month + "1" && Jan5.dueDate == month + "5";
    LexLeCommonPrefix(month, "1", "5");
    LexLeCommonPrefix(month, "5", "1");
  }

  /** The dates sort ascending, followed by the two dateless tasks in their old order. */
  lemma SortExample()
    ensures SortByDate([NoDate1, Jan5, NoDate2, Jan1]) == [Jan1, Jan5, NoDate1, NoDate2]
  {
    ExampleDatesOrdered();
    SortExampleShape(NoDate1, Jan5, NoDate2, Jan1);
  }
}
