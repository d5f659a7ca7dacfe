// Stats arithmetic and response shaping shared by the route handlers.
module TaskHelpers {
  import opened Wrappers
  import opened Tasks

  /** The `{todo, completed}` stats object. */
  datatype Stats = Stats(todo: nat, completed: nat)

  /** The `{task, stats}` envelope; the task may be null. */
  datatype TaskResponse = TaskResponse(task: Option<Task>, stats: Stats)

  /** The `{tasks, stats}` envelope. */
  datatype TasksResponse = TasksResponse(tasks: seq<Task>, stats: Stats)

  function FormatStats(todoCount: nat, completedCount: nat): (s: Stats)
    ensures s.todo == todoCount && s.completed == completedCount
  {
    Stats(todoCount, completedCount)
  }

  function FormatTaskResponse(task: Option<Task>, stats: Stats): (r: TaskResponse)
    ensures r.task == task && r.stats == stats
  {
    TaskResponse(task, stats)
  }

  function FormatTasksResponse(tasks: seq<Task>, stats: Stats): (r: TasksResponse)
    ensures r.tasks == tasks && r.stats == stats
  {
    TasksResponse(tasks, stats)
  }

  function CalculateTotalTasks(todoCount: nat, completedCount: nat): (total: nat)
    ensures total == todoCount + completedCount
  {
    todoCount + completedCount
  }

  /**
   * The completion percentage: 0 for an empty store, otherwise 100 * c / t
   * rounded to the nearest integer with halves rounded up. The second
   * ensures is that rounding rule with both sides multiplied by 2 * t.
   */
  function CalculateCompletionPercentage(completedCount: nat, totalCount: nat): (p: nat)
    ensures totalCount == 0 ==> p == 0
    ensures totalCount > 0 ==>
      2 * totalCount * p <= 200 * completedCount + totalCount < 2 * totalCount * (p + 1)
  {
    if totalCount == 0 then 0
    else
      var n, d := 200 * completedCount + totalCount, 2 * totalCount;
      assert n == d * (n / d) + n % d;
      n / d
  }

  /** The rounding rule stated on exact rationals. */
  lemma PercentageIsNearestInteger(c: nat, t: nat)
    requires t > 0
    ensures var p, q := CalculateCompletionPercentage(c, t) as real, 100.0 * c as real / t as real;
      p - 0.5 <= q < p + 0.5
  {
    var p := CalculateCompletionPercentage(c, t) as real;
    var q := 100.0 * c as real / t as real;
    var tr := t as real;
    assert q * tr == 100.0 * c as real;
    assert 2.0 * tr * p <= 200.0 * c as real + tr < 2.0 * tr * (p + 1.0);
    RealScaleLe(tr, p - 0.5, q);
    RealScaleLt(tr, q, p + 0.5);
  }

  lemma RealScaleLe(a: real, b: real, c: real)
    requires a > 0.0 && a * b <= a * c
    ensures b <= c
  {
    assert a * (c - b) == a * c - a * b;
  }

  lemma RealScaleLt(a: real, b: real, c: real)
    requires a > 0.0 && a * b < a * c
    ensures b < c
  {
    assert a * (c - b) == a * c - a * b;
  }

  /** Cancelling a positive factor from a strict inequality. */
  lemma ScaleLt(a: int, b: int, c: int)
    requires a > 0 && a * b < a * c
    ensures b < c
  {
    assert a * (c - b) == a * c - a * b;
  }

  /** No other integer satisfies the rounding rule. */
  lemma PercentageIsUnique(c: nat, t: nat, q: int)
    requires t > 0
    requires 2 * t * q <= 200 * c + t < 2 * t * (q + 1)
    ensures q == CalculateCompletionPercentage(c, t)
  {
    var p := CalculateCompletionPercentage(c, t);
    ScaleLt(2 * t, q, p + 1);
    ScaleLt(2 * t, p, q + 1);
  }

  /** With no more completed tasks than tasks, the percentage is at most 100. */
  lemma PercentageBounds(c: nat, t: nat)
    requires c <= t
    ensures 0 <= CalculateCompletionPercentage(c, t) <= 100
  {
    if t > 0 {
      ScaleLt(2 * t, CalculateCompletionPercentage(c, t), 101);
    }
  }

  lemma NoneCompletedIsZero(t: nat)
    ensures CalculateCompletionPercentage(0, t) == 0
  {
    if t > 0 {
      ScaleLt(2 * t, CalculateCompletionPercentage(0, t), 1);
    }
  }

  lemma AllCompletedIsHundred(t: nat)
    requires t > 0
    ensures CalculateCompletionPercentage(t, t) == 100
  {
    PercentageIsUnique(t, t, 100);
  }

  /** The values the helper's tests and the stats endpoint's tests pin down. */
  lemma PercentageExamples()
    ensures CalculateCompletionPercentage(0, 0) == 0
    ensures CalculateCompletionPercentage(1, 3) == 33
    ensures CalculateCompletionPercentage(2, 3) == 67
    ensures CalculateCompletionPercentage(1, 6) == 17
    ensures CalculateCompletionPercentage(5, 6) == 83
    ensures CalculateCompletionPercentage(3, 10) == 30
    ensures CalculateCompletionPercentage(3, 8) == 38
    ensures CalculateCompletionPercentage(7, 10) == 70
    ensures CalculateCompletionPercentage(1, 2) == 50
    ensures CalculateCompletionPercentage(4, 4) == 100
  {
  }
}
