/**
 * The weekly aggregate: tasks completed and the completion percentage over the cards
 * dated from 00:00 seven days ago up to now.
 */
module Weekly {
  import opened Calendar
  import opened Schema
  import opened Queries

  /** 00:00 of the day seven days before `now`. */
  function WeekStart(now: int): (r: int)
    ensures r == DayStart(now - 7 * MsPerDay)
    ensures r % MsPerDay == 0
    ensures r <= now - 7 * MsPerDay
    ensures DayOf(r) == DayOf(now) - 7
  {
    DayStart(now) - 7 * MsPerDay
  }

  /**
   * `Math.round(completed / total * 100)`, or 0 without tasks. The ratio is taken
   * exactly: `Math.round(x)` is `floor(x + 1/2)`, which for `x = 100c/t` is
   * `(200c + t) div 2t`.
   */
  function CompletionRate(completed: nat, total: nat): (r: nat)
    ensures total == 0 ==> r == 0
    ensures completed <= total ==> r <= 100
  {
    if total > 0 then
      var n := 200 * completed + total;
      var m := 2 * total;
      if completed <= total then
        assert n < m * 101;
        DivBelow(n, m, 101);
        n / m
      else n / m
    else 0
  }

  /** `n div m` is below `k` exactly when `n` is below `m * k`. */
  lemma DivBelow(n: nat, m: nat, k: nat)
    requires m > 0
    ensures n / m < k <==> n < m * k
  {
    var q := n / m;
    assert m * q + n % m == n;
    if q < k {
      assert q + 1 <= k;
      assert m * (q + 1) <= m * k;
    } else {
      assert m * k <= m * q;
    }
  }

  /** The rate is 100c/t rounded to the nearest integer, halves upwards. */
  lemma CompletionRateRounds(completed: nat, total: nat)
    requires total > 0
    ensures 2 * total * CompletionRate(completed, total) <= 200 * completed + total
    ensures 200 * completed + total < 2 * total * (CompletionRate(completed, total) + 1)
  {
    var q := CompletionRate(completed, total);
    var n := 200 * completed + total;
    var m := 2 * total;
    assert q == n / m;
    assert n == m * q + n % m;
  }

  /** With no more completed than total tasks, the rate lies in [0, 100]; it is 100 when all are done. */
  lemma CompletionRateBounds(completed: nat, total: nat)
    requires completed <= total
    ensures CompletionRate(completed, total) <= 100
    ensures 0 < total && completed == total ==> CompletionRate(completed, total) == 100
    ensures total == 0 ==> CompletionRate(completed, total) == 0
  {
    if total > 0 {
      var n := 200 * completed + total;
      var m := 2 * total;
      assert n < m * 101;
      DivBelow(n, m, 101);
      if completed == total {
        assert n == m * 100 + total;
        DivBelow(n, m, 100);
      }
    }
  }

  /**
   * The rate is 0 exactly when there are no tasks or fewer than one in two hundred
   * is completed, and 100 exactly when at least 199 in 200 are.
   */
  lemma CompletionRateExtremes(completed: nat, total: nat)
    requires completed <= total && total > 0
    ensures CompletionRate(completed, total) == 0 <==> 200 * completed < total
    ensures CompletionRate(completed, total) == 100 <==> 200 * completed >= 199 * total
  {
    var n := 200 * completed + total;
    var m := 2 * total;
    CompletionRateBounds(completed, total);
    DivBelow(n, m, 1);
    DivBelow(n, m, 100);
    assert m * 100 == 200 * total;
  }

  /** A week of four cards with four tasks each, eight of them completed, is 50% done. */
  lemma HalfDoneWeek(w: seq<CardWithTasks>)
    requires |w| == 4
    requires forall i :: 0 <= i < |w| ==> |w[i].tasks| == 4
    requires CompletedTasks(w) == 8
    ensures TotalTasks(w) == 16
    ensures CompletionRate(CompletedTasks(w), TotalTasks(w)) == 50
  {
    FourTasksEach(w);
    var n := 200 * 8 + 16;
    assert n == 32 * 50 + 16;
  }

  /** Cards of four tasks each hold four tasks per card. */
  lemma {:induction false} FourTasksEach(w: seq<CardWithTasks>)
    requires forall i :: 0 <= i < |w| ==> |w[i].tasks| == 4
    ensures TotalTasks(w) == 4 * |w|
    decreases |w|
  {
    if w != [] {
      var front := w[..|w| - 1];
      assert forall i :: 0 <= i < |front| ==> front[i] == w[i];
      FourTasksEach(front);
    }
  }

  /** The number of completed tasks in a list. */
  function CountCompleted(ts: seq<Task>): nat
    decreases |ts|
  {
    if ts == [] then 0
    else CountCompleted(ts[..|ts| - 1]) + (if ts[|ts| - 1].completed then 1 else 0)
  }

  /** The number of tasks over all the cards. */
  function TotalTasks(cs: seq<CardWithTasks>): nat
    decreases |cs|
  {
    if cs == [] then 0 else TotalTasks(cs[..|cs| - 1]) + |cs[|cs| - 1].tasks|
  }

  /** The number of completed tasks over all the cards. */
  function CompletedTasks(cs: seq<CardWithTasks>): nat
    decreases |cs|
  {
    if cs == [] then 0 else CompletedTasks(cs[..|cs| - 1]) + CountCompleted(cs[|cs| - 1].tasks)
  }

  lemma CountCompletedPrefix(ts: seq<Task>, j: nat)
    requires j < |ts|
    ensures CountCompleted(ts[..j + 1]) == CountCompleted(ts[..j]) + if ts[j].completed then 1 else 0
  {
    assert ts[..j + 1][..j] == ts[..j];
  }

  lemma TotalsPrefix(cs: seq<CardWithTasks>, i: nat)
    requires i < |cs|
    ensures TotalTasks(cs[..i + 1]) == TotalTasks(cs[..i]) + |cs[i].tasks|
    ensures CompletedTasks(cs[..i + 1]) == CompletedTasks(cs[..i]) + CountCompleted(cs[i].tasks)
  {
    assert cs[..i + 1][..i] == cs[..i];
  }

  lemma {:induction false} CountCompletedBounds(ts: seq<Task>)
    ensures CountCompleted(ts) <= |ts|
    ensures CountCompleted(ts) == |ts| <==> forall t :: t in ts ==> t.completed
    decreases |ts|
  {
    if ts != [] {
      var front := ts[..|ts| - 1];
      CountCompletedBounds(front);
      assert ts == front + [ts[|ts| - 1]];
      assert forall t :: t in ts <==> t in front || t == ts[|ts| - 1];
    }
  }

  lemma {:induction false} CompletedTasksBounded(cs: seq<CardWithTasks>)
    ensures CompletedTasks(cs) <= TotalTasks(cs)
    decreases |cs|
  {
    if cs != [] {
      CompletedTasksBounded(cs[..|cs| - 1]);
      CountCompletedBounds(cs[|cs| - 1].tasks);
    }
  }
}
