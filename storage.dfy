/**
 * DatabaseStorage: the card and task tables held in memory, the statements that
 * insert, update and delete their rows, and the two statistics computed over them.
 */
module Storage {
  import opened Wrappers
  import opened Calendar
  import opened Schema
  import opened Sorting
  import opened Queries
  import Streak
  import opened Weekly

  /** The only way an insert fails here: a task whose card does not exist. */
  datatype StoreError = ForeignKeyViolation

  /** A card's `destroyed` flag only goes from false to true; rows are neither dropped nor replaced. */
  ghost predicate DestroyedOnlyGrows(before: seq<Card>, after: seq<Card>) {
    && |before| <= |after|
    && forall i :: 0 <= i < |before| ==>
         after[i].id == before[i].id && (before[i].destroyed ==> after[i].destroyed)
  }

  /** `UPDATE cards SET destroyed = true WHERE id = ...` */
  function DestroyRows(cards: seq<Card>, id: Id): (r: seq<Card>)
    ensures |r| == |cards|
    ensures forall i :: 0 <= i < |cards| ==>
              && r[i].id == cards[i].id && r[i].date == cards[i].date && r[i].createdAt == cards[i].createdAt
              && r[i].destroyed == (cards[i].destroyed || cards[i].id == id)
    ensures !HasCard(cards, id) ==> r == cards
    ensures DestroyedOnlyGrows(cards, r)
  {
    seq(|cards|, i requires 0 <= i < |cards| =>
      if cards[i].id == id then cards[i].(destroyed := true) else cards[i])
  }

  /** Destroying a card twice is the same as destroying it once. */
  lemma DestroyIdempotent(cards: seq<Card>, id: Id)
    ensures DestroyRows(DestroyRows(cards, id), id) == DestroyRows(cards, id)
  {
  }

  /** Over any sequence of operations, a destroyed card stays destroyed. */
  lemma DestroyedOnlyGrowsTransitive(a: seq<Card>, b: seq<Card>, c: seq<Card>)
    requires DestroyedOnlyGrows(a, b) && DestroyedOnlyGrows(b, c)
    ensures DestroyedOnlyGrows(a, c)
  {
  }

  /** Once a card is destroyed, getTodayCard no longer returns it. */
  lemma DestroyedCardNotToday(cards: seq<Card>, tasks: seq<Task>, id: Id, now: int)
    ensures TodayCard(DestroyRows(cards, id), tasks, now).Some? ==>
              TodayCard(DestroyRows(cards, id), tasks, now).value.card.id != id
  {
    var after := DestroyRows(cards, id);
    var r := TodayCard(after, tasks, now);
    if r.Some? {
      var i :| 0 <= i < |after| && after[i] == r.value.card;
      assert after[i].destroyed == (cards[i].destroyed || cards[i].id == id);
    }
  }

  /** `UPDATE tasks SET ... WHERE id = ...` */
  function UpdateRows(tasks: seq<Task>, id: Id, patch: TaskPatch): (r: seq<Task>)
    ensures |r| == |tasks|
    ensures forall i :: 0 <= i < |tasks| && tasks[i].id != id ==> r[i] == tasks[i]
    ensures forall i :: 0 <= i < |tasks| && tasks[i].id == id ==> r[i] == ApplyPatch(tasks[i], patch)
    ensures forall i :: 0 <= i < |tasks| ==> r[i].id == tasks[i].id && r[i].cardId == tasks[i].cardId
  {
    seq(|tasks|, i requires 0 <= i < |tasks| =>
      if tasks[i].id == id then ApplyPatch(tasks[i], patch) else tasks[i])
  }

  /** `DELETE FROM tasks WHERE id = ...`: the other rows stay, in their order. */
  function RemoveRows(tasks: seq<Task>, id: Id): (r: seq<Task>)
    ensures forall t :: multiset(r)[t] == if t.id == id then 0 else multiset(tasks)[t]
    ensures forall t :: t in r <==> t in tasks && t.id != id
  {
    if tasks == [] then []
    else
      assert tasks == [tasks[0]] + tasks[1..];
      var r := (if tasks[0].id == id then [] else [tasks[0]]) + RemoveRows(tasks[1..], id);
      assert forall t :: t in r <==> t in multiset(r);
      assert forall t :: t in tasks <==> t in multiset(tasks);
      r
  }

  /** Deleting rows keeps the primary key unique. */
  lemma {:induction false} RemoveKeepsUnique(tasks: seq<Task>, id: Id)
    requires UniqueTaskIds(tasks)
    ensures UniqueTaskIds(RemoveRows(tasks, id))
  {
    if tasks != [] {
      assert UniqueTaskIds(tasks[1..]);
      RemoveKeepsUnique(tasks[1..], id);
      if tasks[0].id != id {
        HeadIdNotRemoved(tasks, id);
        ConsKeepsUnique(tasks[0], RemoveRows(tasks[1..], id));
      }
    }
  }

  lemma HeadIdNotRemoved(tasks: seq<Task>, id: Id)
    requires UniqueTaskIds(tasks) && tasks != []
    ensures forall t :: t in RemoveRows(tasks[1..], id) ==> t.id != tasks[0].id
  {
    forall t | t in RemoveRows(tasks[1..], id) ensures t.id != tasks[0].id {
      var k :| 0 <= k < |tasks[1..]| && tasks[1..][k] == t;
      assert tasks[k + 1] == t;
    }
  }

  lemma ConsKeepsUnique(x: Task, rest: seq<Task>)
    requires UniqueTaskIds(rest) && forall t :: t in rest ==> t.id != x.id
    ensures UniqueTaskIds([x] + rest)
  {
    var r := [x] + rest;
    forall i, j | 0 <= i < j < |r| ensures r[i].id != r[j].id {
      if i == 0 {
        assert r[j] in rest;
      } else {
        assert r[i] == rest[i - 1] && r[j] == rest[j - 1];
      }
    }
  }

  /** The row an UPDATE with RETURNING hands back: the first one carrying `id`. */
  function FirstTaskWithId(tasks: seq<Task>, id: Id): (r: Option<nat>)
    ensures r.None? <==> forall t :: t in tasks ==> t.id != id
    ensures r.Some? ==> r.value < |tasks| && tasks[r.value].id == id
  {
    if tasks == [] then None
    else if tasks[0].id == id then Some(0)
    else
      match FirstTaskWithId(tasks[1..], id)
      case None => None
      case Some(k) => Some(k + 1)
  }

  /** Some task of the card is completed (the `some(t => t.completed)` test). */
  predicate HasCompletedTask(tasks: seq<Task>, cardId: Id) {
    exists t :: t in tasks && t.cardId == cardId && t.completed
  }

  /** The days of the cards in `cs` that have a completed task, in the order of `cs`. */
  function CompletedDays(cs: seq<Card>, tasks: seq<Task>): seq<int>
    decreases |cs|
  {
    if cs == [] then []
    else
      var last := cs[|cs| - 1];
      CompletedDays(cs[..|cs| - 1], tasks) + if HasCompletedTask(tasks, last.id) then [DayOf(last.date)] else []
  }

  /** The days on which some card has a completed task. */
  ghost function CompletedDaySet(cards: seq<Card>, tasks: seq<Task>): set<int> {
    set c | c in cards && HasCompletedTask(tasks, c.id) :: DayOf(c.date)
  }

  lemma CompletedDaysSnoc(cs: seq<Card>, c: Card, tasks: seq<Task>)
    ensures CompletedDays(cs + [c], tasks)
         == CompletedDays(cs, tasks) + if HasCompletedTask(tasks, c.id) then [DayOf(c.date)] else []
  {
    assert (cs + [c])[..|cs|] == cs;
  }

  lemma CompletedDaysPrefix(cs: seq<Card>, i: nat, tasks: seq<Task>)
    requires i < |cs|
    ensures CompletedDays(cs[..i + 1], tasks)
         == CompletedDays(cs[..i], tasks) + if HasCompletedTask(tasks, cs[i].id) then [DayOf(cs[i].date)] else []
  {
    assert cs[..i + 1] == cs[..i] + [cs[i]];
    CompletedDaysSnoc(cs[..i], cs[i], tasks);
  }

  lemma {:induction false} CompletedDaysMembers(cs: seq<Card>, tasks: seq<Task>)
    ensures Streak.Elems(CompletedDays(cs, tasks)) == CompletedDaySet(cs, tasks)
    decreases |cs|
  {
    if cs == [] {
      assert CompletedDaySet(cs, tasks) == {};
    } else {
      var front := cs[..|cs| - 1];
      var last := cs[|cs| - 1];
      CompletedDaysMembers(front, tasks);
      assert cs == front + [last];
      CompletedDaysSnoc(front, last, tasks);
      var tail := if HasCompletedTask(tasks, last.id) then [DayOf(last.date)] else [];
      assert Streak.Elems(CompletedDays(cs, tasks)) == Streak.Elems(CompletedDays(front, tasks)) + Streak.Elems(tail);
      assert forall c :: c in cs <==> c in front || c == last;
      assert CompletedDaySet(cs, tasks) == CompletedDaySet(front, tasks) + Streak.Elems(tail);
    }
  }

  lemma {:induction false} CompletedDaysLatestFirst(cs: seq<Card>, tasks: seq<Task>)
    requires forall i, j :: 0 <= i < j < |cs| ==> cs[i].date >= cs[j].date
    ensures Streak.NonIncreasing(CompletedDays(cs, tasks))
    decreases |cs|
  {
    if cs != [] {
      var front := cs[..|cs| - 1];
      var last := cs[|cs| - 1];
      assert cs == front + [last];
      CompletedDaysSnoc(front, last, tasks);
      CompletedDaysLatestFirst(front, tasks);
      CompletedDaysMembers(front, tasks);
      var days := CompletedDays(front, tasks);
      if HasCompletedTask(tasks, last.id) {
        forall x | x in days ensures x >= DayOf(last.date) {
          assert x in Streak.Elems(days);
          var c :| c in front && HasCompletedTask(tasks, c.id) && DayOf(c.date) == x;
          var i :| 0 <= i < |front| && front[i] == c;
          assert cs[i].date >= cs[|cs| - 1].date;
          DayOfMonotone(last.date, c.date);
        }
        var all := days + [DayOf(last.date)];
        forall i, j | 0 <= i < j < |all| ensures all[i] >= all[j] {
          if j < |days| {
            assert all[i] == days[i] && all[j] == days[j];
          } else {
            assert all[i] in days;
          }
        }
      }
    }
  }

  class DatabaseStorage {
    var cards: seq<Card>
    var tasks: seq<Task>
    /** Stands for the id generator: every id handed out so far is below it. */
    var nextId: nat

    /** Primary keys are unique, foreign keys resolve, and no id is at or above `nextId`. */
    ghost predicate Valid()
      reads this
    {
      && UniqueCardIds(cards)
      && UniqueTaskIds(tasks)
      && ReferencesResolve(cards, tasks)
      && (forall c :: c in cards ==> c.id < nextId)
      && (forall t :: t in tasks ==> t.id < nextId)
    }

    constructor ()
      ensures Valid() && cards == [] && tasks == []
    {
      cards, tasks, nextId := [], [], 0;
    }

    /** createCard: appends a row with a fresh id and the schema's defaults. */
    method CreateCard(ins: InsertCard, now: int) returns (card: Card)
      requires Valid()
      modifies this
      ensures Valid()
      ensures card == NewCard(ins, card.id, now) && !HasCard(old(cards), card.id)
      ensures cards == old(cards) + [card] && tasks == old(tasks)
      ensures DestroyedOnlyGrows(old(cards), cards)
    {
      card := NewCard(ins, nextId, now);
      cards := cards + [card];
      nextId := nextId + 1;
    }

    /** destroyCard: sets the flag on the card with this id; an unknown id changes nothing. */
    method DestroyCard(id: Id)
      requires Valid()
      modifies this
      ensures Valid()
      ensures cards == DestroyRows(old(cards), id) && tasks == old(tasks) && nextId == old(nextId)
      ensures DestroyedOnlyGrows(old(cards), cards)
    {
      var before := cards;
      cards := DestroyRows(cards, id);
      forall t | t in tasks ensures HasCard(cards, t.cardId) {
        var c :| c in before && c.id == t.cardId;
        var i :| 0 <= i < |before| && before[i] == c;
        assert cards[i].id == c.id;
      }
    }

    /** createTask: inserts the row when its card exists; otherwise the foreign key rejects it. */
    method CreateTask(ins: InsertTask, now: int) returns (r: Result<Task, StoreError>)
      requires Valid()
      modifies this
      ensures Valid()
      ensures r.Ok? <==> HasCard(old(cards), ins.cardId)
      ensures r.Ok? ==> r.value == NewTask(ins, r.value.id, now) && forall t :: t in old(tasks) ==> t.id != r.value.id
      ensures r.Ok? ==> tasks == old(tasks) + [r.value]
      ensures r.Err? ==> tasks == old(tasks) && r.error == ForeignKeyViolation
      ensures cards == old(cards)
    {
      if !HasCard(cards, ins.cardId) {
        return Err(ForeignKeyViolation);
      }
      var task := NewTask(ins, nextId, now);
      tasks := tasks + [task];
      nextId := nextId + 1;
      r := Ok(task);
    }

    /** updateTask: overwrites the patched fields of the task with this id and returns it, if any. */
    method UpdateTask(id: Id, patch: TaskPatch) returns (r: Option<Task>)
      requires Valid()
      modifies this
      ensures Valid()
      ensures tasks == UpdateRows(old(tasks), id, patch) && cards == old(cards) && nextId == old(nextId)
      ensures r.None? <==> forall t :: t in old(tasks) ==> t.id != id
      ensures r.Some? ==> r.value in tasks && r.value.id == id
      ensures r.Some? ==> exists t :: t in old(tasks) && t.id == id && r.value == ApplyPatch(t, patch)
    {
      var before := tasks;
      tasks := UpdateRows(tasks, id, patch);
      forall t | t in tasks ensures HasCard(cards, t.cardId) && t.id < nextId {
        var i :| 0 <= i < |tasks| && tasks[i] == t;
        assert before[i] in before;
      }
      match FirstTaskWithId(before, id)
      case None =>
        r := None;
      case Some(k) =>
        assert before[k] in before;
        r := Some(tasks[k]);
    }

    /** deleteTask: removes the task rows with this id and nothing else. */
    method DeleteTask(id: Id)
      requires Valid()
      modifies this
      ensures Valid()
      ensures tasks == RemoveRows(old(tasks), id) && cards == old(cards) && nextId == old(nextId)
    {
      RemoveKeepsUnique(tasks, id);
      tasks := RemoveRows(tasks, id);
    }

    /**
     * getStreakStats: walks the cards latest first. The best streak is the longest run of
     * consecutive days that have a card with a completed task; the current streak is the
     * run starting at the OLDEST such day when that day is today or yesterday, else 0.
     */
    method GetStreakStats(now: int) returns (currentStreak: nat, bestStreak: nat)
      ensures currentStreak <= bestStreak
      ensures Streak.IsLongestRun(CompletedDaySet(cards, tasks), bestStreak)
      ensures CompletedDaySet(cards, tasks) == {} ==> currentStreak == 0 && bestStreak == 0
      ensures forall m :: Streak.IsOldest(CompletedDaySet(cards, tasks), m) ==>
                && (DayOf(now) - m <= 1 ==> Streak.IsMaximalRunFrom(CompletedDaySet(cards, tasks), m, currentStreak))
                && (DayOf(now) - m > 1 ==> currentStreak == 0)
    {
      var allCards := SortBy(cards, LaterFirst);
      var tempStreak: nat := 0;
      bestStreak := 0;
      var previousDate: Option<int> := None;
      for i := 0 to |allCards|
        invariant Streak.StreakState(tempStreak, bestStreak, previousDate) == Streak.Fold(CompletedDays(allCards[..i], tasks))
      {
        var card := allCards[i];
        ghost var days := CompletedDays(allCards[..i], tasks);
        CompletedDaysPrefix(allCards, i, tasks);
        if HasCompletedTask(tasks, card.id) {
          Streak.FoldSnoc(days, DayOf(card.date));
        } else {
          assert CompletedDays(allCards[..i + 1], tasks) == days;
        }
        if HasCompletedTask(tasks, card.id) {
          var cardDate := DayOf(card.date);
          if previousDate.Some? {
            var dayDiff := previousDate.value - cardDate;
            if dayDiff == 1 {
              tempStreak := tempStreak + 1;
            } else if dayDiff > 1 {
              bestStreak := Streak.Max(bestStreak, tempStreak);
              tempStreak := 1;
            }
          } else {
            tempStreak := 1;
          }
          previousDate := Some(cardDate);
        }
      }
      bestStreak := Streak.Max(bestStreak, tempStreak);
      if previousDate.Some? {
        var dayDiff := DayOf(now) - previousDate.value;
        if dayDiff <= 1 {
          currentStreak := tempStreak;
        } else {
          currentStreak := 0;
        }
      } else {
        currentStreak := 0;
      }

      assert allCards[..|allCards|] == allCards;
      StreakMeaning(allCards, cards, tasks, DayOf(now));
    }

    /**
     * getWeeklyStats: counts every task of every card, destroyed or not, dated from
     * 00:00 seven days ago up to now, and turns the counts into a rounded percentage.
     */
    method GetWeeklyStats(now: int) returns (tasksCompleted: nat, completionRate: nat)
      ensures tasksCompleted == CompletedTasks(CardsByDateRange(cards, tasks, WeekStart(now), now))
      ensures tasksCompleted <= TotalTasks(CardsByDateRange(cards, tasks, WeekStart(now), now))
      ensures completionRate == CompletionRate(tasksCompleted, TotalTasks(CardsByDateRange(cards, tasks, WeekStart(now), now)))
      ensures completionRate <= 100
    {
      var weekCards := CardsByDateRange(cards, tasks, WeekStart(now), now);
      var totalTasks, completedTasks := CountTasks(weekCards);
      tasksCompleted := completedTasks;
      completionRate := if totalTasks > 0 then CompletionRate(completedTasks, totalTasks) else 0;
      CompletedTasksBounded(weekCards);
      CompletionRateBounds(completedTasks, totalTasks);
    }
  }

  /** The nested walk of getWeeklyStats: one step per task of every card. */
  method CountTasks(weekCards: seq<CardWithTasks>) returns (totalTasks: nat, completedTasks: nat)
    ensures totalTasks == TotalTasks(weekCards)
    ensures completedTasks == CompletedTasks(weekCards)
  {
    totalTasks, completedTasks := 0, 0;
    for i := 0 to |weekCards|
      invariant totalTasks == TotalTasks(weekCards[..i])
      invariant completedTasks == CompletedTasks(weekCards[..i])
    {
      var cardTasks := weekCards[i].tasks;
      for j := 0 to |cardTasks|
        invariant totalTasks == TotalTasks(weekCards[..i]) + j
        invariant completedTasks == CompletedTasks(weekCards[..i]) + CountCompleted(cardTasks[..j])
      {
        CountCompletedPrefix(cardTasks, j);
        totalTasks := totalTasks + 1;
        if cardTasks[j].completed {
          completedTasks := completedTasks + 1;
        }
      }
      assert cardTasks[..|cardTasks|] == cardTasks;
      TotalsPrefix(weekCards, i);
    }
    assert weekCards[..|weekCards|] == weekCards;
  }

  /** What the streak loop's result means, for the cards sorted latest first. */
  lemma StreakMeaning(allCards: seq<Card>, cards: seq<Card>, tasks: seq<Task>, today: int)
    requires allCards == SortBy(cards, LaterFirst)
    ensures var r := Streak.Stats(CompletedDays(allCards, tasks), today);
      && r.currentStreak <= r.bestStreak
      && Streak.IsLongestRun(CompletedDaySet(cards, tasks), r.bestStreak)
      && (CompletedDaySet(cards, tasks) == {} ==> r.currentStreak == 0 && r.bestStreak == 0)
      && forall m :: Streak.IsOldest(CompletedDaySet(cards, tasks), m) ==>
           && (today - m <= 1 ==> Streak.IsMaximalRunFrom(CompletedDaySet(cards, tasks), m, r.currentStreak))
           && (today - m > 1 ==> r.currentStreak == 0)
  {
    var days := CompletedDays(allCards, tasks);
    SortedLaterFirst(allCards);
    CompletedDaysLatestFirst(allCards, tasks);
    CompletedDaysMembers(allCards, tasks);
    SameCardsSameDays(allCards, cards, tasks);
    Streak.StatsMeaning(days, today);
    var S := CompletedDaySet(cards, tasks);
    assert S == Streak.Elems(days);
    if days == [] {
      assert S == {};
    } else {
      var p := days[|days| - 1];
      assert Streak.IsOldest(S, p);
      forall m | Streak.IsOldest(S, m) ensures m == p {
        assert p <= m && m <= p;
      }
    }
  }

  /** Reordering the cards does not change which days have a completed task. */
  lemma SameCardsSameDays(cs: seq<Card>, cards: seq<Card>, tasks: seq<Task>)
    requires multiset(cs) == multiset(cards)
    ensures CompletedDaySet(cs, tasks) == CompletedDaySet(cards, tasks)
  {
    assert forall c :: c in cs <==> c in multiset(cs);
    assert forall c :: c in cards <==> c in multiset(cards);
  }
}
