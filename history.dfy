/**
 * The history page: seven sample days and their split into "This Week" and
 * "Last Week" around the moment seven days before now.
 */
module History {
  import opened Calendar

  datatype HistoryTask = HistoryTask(text: string, completed: bool, isBigTask: bool)

  datatype HistoryItem = HistoryItem(date: int, tasks: seq<HistoryTask>)

  /** Seven days before `today`, at the same time of day (no truncation to midnight here). */
  function WeekAgo(today: int): (r: int)
    ensures DayOf(r) == DayOf(today) - 7
    ensures r - DayStart(r) == today - DayStart(today)
  {
    today - 7 * MsPerDay
  }

  /** The items dated at or after `weekAgo`, in input order. */
  function ThisWeek(items: seq<HistoryItem>, weekAgo: int): (r: seq<HistoryItem>)
    ensures forall x :: x in r <==> x in items && x.date >= weekAgo
    decreases |items|
  {
    if items == [] then []
    else
      var front := items[..|items| - 1];
      var last := items[|items| - 1];
      assert items == front + [last];
      ThisWeek(front, weekAgo) + if last.date >= weekAgo then [last] else []
  }

  /** The items dated before `weekAgo`, in input order. */
  function LastWeek(items: seq<HistoryItem>, weekAgo: int): (r: seq<HistoryItem>)
    ensures forall x :: x in r <==> x in items && x.date < weekAgo
    decreases |items|
  {
    if items == [] then []
    else
      var front := items[..|items| - 1];
      var last := items[|items| - 1];
      assert items == front + [last];
      LastWeek(front, weekAgo) + if last.date < weekAgo then [last] else []
  }

  /**
   * `s` is an interleaving of `a` and `b`: each element of `s` is taken, in order,
   * from the front of exactly one of them, and both are used up.
   */
  ghost predicate Interleaves<T>(s: seq<T>, a: seq<T>, b: seq<T>)
    decreases |s|
  {
    if s == [] then a == [] && b == []
    else
      || (a != [] && a[|a| - 1] == s[|s| - 1] && Interleaves(s[..|s| - 1], a[..|a| - 1], b))
      || (b != [] && b[|b| - 1] == s[|s| - 1] && Interleaves(s[..|s| - 1], a, b[..|b| - 1]))
  }

  /** An interleaving splits its elements between the two parts, each exactly once. */
  lemma {:induction false} InterleavesPartition<T>(s: seq<T>, a: seq<T>, b: seq<T>)
    requires Interleaves(s, a, b)
    ensures multiset(s) == multiset(a) + multiset(b)
    ensures |a| + |b| == |s|
    decreases |s|
  {
    if s != [] {
      var front := s[..|s| - 1];
      assert s == front + [s[|s| - 1]];
      if a != [] && a[|a| - 1] == s[|s| - 1] && Interleaves(front, a[..|a| - 1], b) {
        InterleavesPartition(front, a[..|a| - 1], b);
        assert a == a[..|a| - 1] + [a[|a| - 1]];
      } else {
        InterleavesPartition(front, a, b[..|b| - 1]);
        assert b == b[..|b| - 1] + [b[|b| - 1]];
      }
    }
  }

  /** The split keeps the input order: the input interleaves the two groups. */
  lemma {:induction false} SplitInterleaves(items: seq<HistoryItem>, weekAgo: int)
    ensures Interleaves(items, ThisWeek(items, weekAgo), LastWeek(items, weekAgo))
    decreases |items|
  {
    if items != [] {
      var front := items[..|items| - 1];
      var last := items[|items| - 1];
      SplitInterleaves(front, weekAgo);
      var a := ThisWeek(items, weekAgo);
      var b := LastWeek(items, weekAgo);
      if last.date >= weekAgo {
        assert a[..|a| - 1] == ThisWeek(front, weekAgo);
        assert b == LastWeek(front, weekAgo);
      } else {
        assert b[..|b| - 1] == LastWeek(front, weekAgo);
        assert a == ThisWeek(front, weekAgo);
      }
    }
  }

  lemma ThisWeekPrefix(items: seq<HistoryItem>, i: nat, weekAgo: int)
    requires i < |items|
    ensures ThisWeek(items[..i + 1], weekAgo) == ThisWeek(items[..i], weekAgo) + if items[i].date >= weekAgo then [items[i]] else []
    ensures LastWeek(items[..i + 1], weekAgo) == LastWeek(items[..i], weekAgo) + if items[i].date < weekAgo then [items[i]] else []
  {
    assert items[..i + 1][..i] == items[..i];
  }

  /**
   * groupByWeek: every item goes to exactly one group, those dated at or after
   * `today - 7 days` to thisWeek and the others to lastWeek, each in input order.
   */
  method GroupByWeek(data: seq<HistoryItem>, today: int) returns (thisWeek: seq<HistoryItem>, lastWeek: seq<HistoryItem>)
    ensures forall x :: x in thisWeek <==> x in data && x.date >= WeekAgo(today)
    ensures forall x :: x in lastWeek <==> x in data && x.date < WeekAgo(today)
    ensures Interleaves(data, thisWeek, lastWeek)
    ensures multiset(data) == multiset(thisWeek) + multiset(lastWeek)
    ensures |thisWeek| + |lastWeek| == |data|
  {
    thisWeek, lastWeek := [], [];
    var weekAgo := WeekAgo(today);
    for i := 0 to |data|
      invariant thisWeek == ThisWeek(data[..i], weekAgo)
      invariant lastWeek == LastWeek(data[..i], weekAgo)
    {
      ThisWeekPrefix(data, i, weekAgo);
      if data[i].date >= weekAgo {
        thisWeek := thisWeek + [data[i]];
      } else {
        lastWeek := lastWeek + [data[i]];
      }
    }
    assert data[..|data|] == data;
    SplitInterleaves(data, weekAgo);
    InterleavesPartition(data, thisWeek, lastWeek);
  }

  function BigTaskText(i: nat): string {
    if i % 3 == 0 then "Finish Chapter 7 reading"
    else if i % 2 == 0 then "Write essay outline"
    else "Study for quiz"
  }

  /** The four sample tasks of the day `i + 1` days ago. */
  function SampleTasks(i: nat): (r: seq<HistoryTask>)
    ensures |r| == 4 && CountBig(r) == 1 && r[0].isBigTask
  {
    var r := [ HistoryTask(BigTaskText(i), i < 5, true),
               HistoryTask("Do laundry", i < 4, false),
               HistoryTask("Email Professor Smith", i < 3, false),
               HistoryTask("Go to the gym", i < 5, false) ];
    assert CountBig(r[3..]) == 0 by { assert r[3..][1..] == []; }
    assert CountBig(r[2..]) == 0 by { assert r[2..][1..] == r[3..]; }
    assert CountBig(r[1..]) == 0 by { assert r[1..][1..] == r[2..]; }
    r
  }

  /** The number of tasks marked as the big one. */
  function CountBig(ts: seq<HistoryTask>): nat {
    if ts == [] then 0 else (if ts[0].isBigTask then 1 else 0) + CountBig(ts[1..])
  }

  /** historyData: seven items dated 1 to 7 days before `today`, each with four tasks of which one is the big one. */
  function HistoryData(today: int): (r: seq<HistoryItem>)
    ensures |r| == 7
    ensures forall i :: 0 <= i < 7 ==> r[i].date == today - (i + 1) * MsPerDay
    ensures forall i :: 0 <= i < 7 ==> |r[i].tasks| == 4 && CountBig(r[i].tasks) == 1
  {
    seq(7, i requires 0 <= i < 7 => HistoryItem(today - (i + 1) * MsPerDay, SampleTasks(i)))
  }

  /** All the sample items fall in "This Week": the oldest is dated exactly seven days ago. */
  lemma HistoryDataAllThisWeek(today: int)
    ensures ThisWeek(HistoryData(today), WeekAgo(today)) == HistoryData(today)
    ensures LastWeek(HistoryData(today), WeekAgo(today)) == []
  {
    var data := HistoryData(today);
    var w := WeekAgo(today);
    assert forall i :: 0 <= i < |data| ==> data[i].date >= w;
    AllAtOrAfter(data, w);
  }

  lemma {:induction false} AllAtOrAfter(items: seq<HistoryItem>, weekAgo: int)
    requires forall i :: 0 <= i < |items| ==> items[i].date >= weekAgo
    ensures ThisWeek(items, weekAgo) == items
    ensures LastWeek(items, weekAgo) == []
    decreases |items|
  {
    if items != [] {
      var front := items[..|items| - 1];
      var last := items[|items| - 1];
      AllAtOrAfter(front, weekAgo);
      assert last.date >= weekAgo;
      assert items == front + [last];
      assert ThisWeek(items, weekAgo) == ThisWeek(front, weekAgo) + [last];
      assert LastWeek(items, weekAgo) == LastWeek(front, weekAgo);
    }
  }
}
