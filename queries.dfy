/**
 * The read-only queries of the store: today's card, a card by id, and the cards of a
 * date range, each joined with its tasks in `order` order.
 */
module Queries {
  import opened Wrappers
  import opened Calendar
  import opened Schema
  import opened Sorting

  /** A card together with its tasks, as the queries return it. */
  datatype CardWithTasks = CardWithTasks(card: Card, tasks: seq<Task>)

  function OrderOf(t: Task): int { t.order }

  /** Sort key that puts later dates first. */
  function LaterFirst(c: Card): int { -c.date }

  /** The task rows whose `cardId` is `cardId`, in table order. */
  function TasksOfCard(tasks: seq<Task>, cardId: Id): (r: seq<Task>)
    ensures forall t :: t in r ==> t.cardId == cardId
    ensures forall t :: multiset(r)[t] == if t.cardId == cardId then multiset(tasks)[t] else 0
  {
    if tasks == [] then []
    else
      assert tasks == [tasks[0]] + tasks[1..];
      (if tasks[0].cardId == cardId then [tasks[0]] else []) + TasksOfCard(tasks[1..], cardId)
  }

  /** The tasks joined to a card: exactly the rows that refer to it, by ascending `order`. */
  function TasksOf(tasks: seq<Task>, cardId: Id): (r: seq<Task>)
    ensures forall t :: t in r <==> t in tasks && t.cardId == cardId
    ensures forall t :: multiset(r)[t] == if t.cardId == cardId then multiset(tasks)[t] else 0
    ensures forall i, j :: 0 <= i < j < |r| ==> r[i].order <= r[j].order
  {
    var r := SortBy(TasksOfCard(tasks, cardId), OrderOf);
    assert forall t :: t in r <==> t in multiset(r);
    assert forall t :: t in tasks <==> t in multiset(tasks);
    assert forall i, j :: 0 <= i < j < |r| ==> OrderOf(r[i]) <= OrderOf(r[j]);
    r
  }

  /** Each card of `cs`, in the same order, with its tasks attached. */
  function Join(cs: seq<Card>, tasks: seq<Task>): (r: seq<CardWithTasks>)
    ensures |r| == |cs|
    ensures forall i :: 0 <= i < |r| ==> r[i].card == cs[i] && r[i].tasks == TasksOf(tasks, cs[i].id)
  {
    seq(|cs|, i requires 0 <= i < |cs| => CardWithTasks(cs[i], TasksOf(tasks, cs[i].id)))
  }

  function CardsOf(r: seq<CardWithTasks>): (cs: seq<Card>)
    ensures |cs| == |r|
    ensures forall i :: 0 <= i < |r| ==> cs[i] == r[i].card
  {
    if r == [] then [] else [r[0].card] + CardsOf(r[1..])
  }

  predicate InRange(c: Card, start: int, end: int) {
    start <= c.date <= end
  }

  /** The card rows dated within `[start, end]`, destroyed or not, in table order. */
  function CardsInRange(cards: seq<Card>, start: int, end: int): (r: seq<Card>)
    ensures forall c :: multiset(r)[c] == if InRange(c, start, end) then multiset(cards)[c] else 0
  {
    if cards == [] then []
    else
      assert cards == [cards[0]] + cards[1..];
      (if InRange(cards[0], start, end) then [cards[0]] else []) + CardsInRange(cards[1..], start, end)
  }

  /**
   * getCardsByDateRange: exactly the cards with `start <= date <= end` (destroyed ones
   * included, each as often as the table holds it), latest first, each with its tasks.
   */
  function CardsByDateRange(cards: seq<Card>, tasks: seq<Task>, start: int, end: int): (r: seq<CardWithTasks>)
    ensures forall c :: multiset(CardsOf(r))[c] == if InRange(c, start, end) then multiset(cards)[c] else 0
    ensures forall i :: 0 <= i < |r| ==> r[i].card in cards && InRange(r[i].card, start, end)
    ensures forall c :: c in cards && InRange(c, start, end) ==> c in CardsOf(r)
    ensures forall i, j :: 0 <= i < j < |r| ==> r[i].card.date >= r[j].card.date
    ensures forall i :: 0 <= i < |r| ==> r[i].tasks == TasksOf(tasks, r[i].card.id)
  {
    var picked := SortBy(CardsInRange(cards, start, end), LaterFirst);
    var r := Join(picked, tasks);
    JoinKeepsCards(picked, tasks);
    SortedLaterFirst(picked);
    PickedInRange(cards, picked, start, end);
    r
  }

  lemma JoinKeepsCards(cs: seq<Card>, tasks: seq<Task>)
    ensures CardsOf(Join(cs, tasks)) == cs
  {
  }

  lemma SortedLaterFirst(picked: seq<Card>)
    requires SortedBy(picked, LaterFirst)
    ensures forall i, j :: 0 <= i < j < |picked| ==> picked[i].date >= picked[j].date
  {
    forall i, j | 0 <= i < j < |picked| ensures picked[i].date >= picked[j].date {
      assert LaterFirst(picked[i]) <= LaterFirst(picked[j]);
    }
  }

  lemma PickedInRange(cards: seq<Card>, picked: seq<Card>, start: int, end: int)
    requires multiset(picked) == multiset(CardsInRange(cards, start, end))
    ensures forall c :: multiset(picked)[c] == if InRange(c, start, end) then multiset(cards)[c] else 0
    ensures forall c :: c in picked <==> c in cards && InRange(c, start, end)
  {
    forall c ensures c in picked <==> c in cards && InRange(c, start, end) {
      assert c in picked <==> c in multiset(picked);
      assert c in cards <==> c in multiset(cards);
    }
  }

  /** Whether a card is a live card dated between today's midnight and tomorrow's, both included. */
  predicate IsTodayCard(c: Card, now: int) {
    DayStart(now) <= c.date <= DayStart(now) + MsPerDay && !c.destroyed
  }

  /** The first row (in table order) that qualifies as today's card. */
  function FirstTodayCard(cards: seq<Card>, now: int): (r: Option<Card>)
    ensures r.None? <==> forall c :: c in cards ==> !IsTodayCard(c, now)
    ensures r.Some? ==> r.value in cards && IsTodayCard(r.value, now)
  {
    if cards == [] then None
    else if IsTodayCard(cards[0], now) then Some(cards[0])
    else FirstTodayCard(cards[1..], now)
  }

  /**
   * getTodayCard: nothing when no live card is dated in `[today 00:00, tomorrow 00:00]`;
   * otherwise such a card with its tasks.
   */
  function TodayCard(cards: seq<Card>, tasks: seq<Task>, now: int): (r: Option<CardWithTasks>)
    ensures r.None? <==> forall c :: c in cards ==> !IsTodayCard(c, now)
    ensures r.Some? ==> r.value.card in cards && !r.value.card.destroyed
    ensures r.Some? ==> DayStart(now) <= r.value.card.date <= DayStart(now) + MsPerDay
    ensures r.Some? ==> r.value.tasks == TasksOf(tasks, r.value.card.id)
  {
    match FirstTodayCard(cards, now)
    case None => None
    case Some(c) => Some(CardWithTasks(c, TasksOf(tasks, c.id)))
  }

  /** The first card row carrying `id`. */
  function FirstCardWithId(cards: seq<Card>, id: Id): (r: Option<Card>)
    ensures r.None? <==> !HasCard(cards, id)
    ensures r.Some? ==> r.value in cards && r.value.id == id
  {
    if cards == [] then None
    else if cards[0].id == id then Some(cards[0])
    else
      assert forall c :: c in cards ==> c == cards[0] || c in cards[1..];
      FirstCardWithId(cards[1..], id)
  }

  /** getCardById: nothing for an unknown id, otherwise the card and its tasks. */
  function CardById(cards: seq<Card>, tasks: seq<Task>, id: Id): (r: Option<CardWithTasks>)
    ensures r.None? <==> !HasCard(cards, id)
    ensures r.Some? ==> r.value.card in cards && r.value.card.id == id
    ensures r.Some? ==> r.value.tasks == TasksOf(tasks, id)
  {
    match FirstCardWithId(cards, id)
    case None => None
    case Some(c) => Some(CardWithTasks(c, TasksOf(tasks, c.id)))
  }

  /**
   * A task inserted for an existing card is returned, with the same field values,
   * in that card's task list by the next getCardById.
   */
  lemma CreatedTaskIsFetched(cards: seq<Card>, tasks: seq<Task>, ins: InsertTask, id: Id, now: int)
    requires HasCard(cards, ins.cardId)
    ensures CardById(cards, tasks + [NewTask(ins, id, now)], ins.cardId).Some?
    ensures NewTask(ins, id, now) in CardById(cards, tasks + [NewTask(ins, id, now)], ins.cardId).value.tasks
  {
    var t := NewTask(ins, id, now);
    assert t in tasks + [t];
  }

  /** The bounds of getTodayCard are inclusive on both sides: a card dated at the next midnight qualifies. */
  lemma TodayIncludesNextMidnight(cards: seq<Card>, tasks: seq<Task>, now: int, c: Card)
    requires c in cards && !c.destroyed && c.date == DayStart(now) + MsPerDay
    ensures TodayCard(cards, tasks, now).Some?
    ensures DayOf(c.date) == DayOf(now) + 1
  {
    assert IsTodayCard(c, now);
    assert (DayOf(now) * MsPerDay + MsPerDay) / MsPerDay == DayOf(now) + 1 by {
      assert DayOf(now) * MsPerDay + MsPerDay == (DayOf(now) + 1) * MsPerDay;
    }
  }
}
