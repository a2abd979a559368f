/**
 * The two tables of the store, their defaults and the insert shapes that leave out
 * the columns the store fills in itself (`id` and `createdAt`).
 */
module Schema {
  import opened Wrappers

  /** Row identifiers; the store hands out a fresh one for every insert. */
  type Id = nat

  /** A day's card. Every column is non-null. */
  datatype Card = Card(id: Id, date: int, destroyed: bool, createdAt: int)

  /** A task on a card; `cardId` refers to a row of the card table. */
  datatype Task = Task(
    id: Id, cardId: Id, text: string, completed: bool, isBigTask: bool, order: int, createdAt: int)

  /** Columns with a default may be left out when inserting a card. */
  datatype InsertCard = InsertCard(date: Option<int>, destroyed: Option<bool>)

  /** `cardId` and `text` have no default and must be given. */
  datatype InsertTask = InsertTask(
    cardId: Id, text: string, completed: Option<bool>, isBigTask: Option<bool>, order: Option<int>)

  /** The user-editable columns of a task; an absent field is left as it is. */
  datatype TaskPatch = TaskPatch(
    text: Option<string>, completed: Option<bool>, isBigTask: Option<bool>, order: Option<int>)

  /** The row the store writes for an inserted card, given the id and clock it supplies. */
  function NewCard(ins: InsertCard, id: Id, now: int): (c: Card)
    ensures c.id == id && c.createdAt == now
    ensures ins.date.None? ==> c.date == now
    ensures ins.date.Some? ==> c.date == ins.date.value
    ensures ins.destroyed.None? ==> !c.destroyed
    ensures ins.destroyed.Some? ==> c.destroyed == ins.destroyed.value
  {
    Card(id, ins.date.GetOr(now), ins.destroyed.GetOr(false), now)
  }

  /** The row the store writes for an inserted task. */
  function NewTask(ins: InsertTask, id: Id, now: int): (t: Task)
    ensures t.id == id && t.createdAt == now
    ensures t.cardId == ins.cardId && t.text == ins.text
    ensures ins.completed.None? ==> !t.completed
    ensures ins.isBigTask.None? ==> !t.isBigTask
    ensures ins.order.None? ==> t.order == 0
    ensures ins.completed.Some? ==> t.completed == ins.completed.value
    ensures ins.isBigTask.Some? ==> t.isBigTask == ins.isBigTask.value
    ensures ins.order.Some? ==> t.order == ins.order.value
  {
    Task(id, ins.cardId, ins.text, ins.completed.GetOr(false), ins.isBigTask.GetOr(false),
         ins.order.GetOr(0), now)
  }

  /** A task with the fields present in `patch` overwritten. */
  function ApplyPatch(t: Task, patch: TaskPatch): (r: Task)
    ensures r.id == t.id && r.cardId == t.cardId && r.createdAt == t.createdAt
    ensures r.text == patch.text.GetOr(t.text)
    ensures r.completed == patch.completed.GetOr(t.completed)
    ensures r.isBigTask == patch.isBigTask.GetOr(t.isBigTask)
    ensures r.order == patch.order.GetOr(t.order)
  {
    t.(text := patch.text.GetOr(t.text),
       completed := patch.completed.GetOr(t.completed),
       isBigTask := patch.isBigTask.GetOr(t.isBigTask),
       order := patch.order.GetOr(t.order))
  }

  /** Primary keys: no two card rows share an id. */
  ghost predicate UniqueCardIds(cards: seq<Card>) {
    forall i, j :: 0 <= i < j < |cards| ==> cards[i].id != cards[j].id
  }

  ghost predicate UniqueTaskIds(tasks: seq<Task>) {
    forall i, j :: 0 <= i < j < |tasks| ==> tasks[i].id != tasks[j].id
  }

  predicate HasCard(cards: seq<Card>, id: Id) {
    exists c :: c in cards && c.id == id
  }

  /** The foreign key: every task's `cardId` names an existing card. */
  ghost predicate ReferencesResolve(cards: seq<Card>, tasks: seq<Task>) {
    forall t :: t in tasks ==> HasCard(cards, t.cardId)
  }

  /**
   * Deleting a card with `onDelete: "cascade"`: the card row and every task row that
   * refers to it are removed together. The store itself never deletes a card.
   */
  function DeleteCardCascade(cards: seq<Card>, tasks: seq<Task>, id: Id): (r: (seq<Card>, seq<Task>))
    ensures forall c :: c in r.0 <==> c in cards && c.id != id
    ensures forall t :: t in r.1 <==> t in tasks && t.cardId != id
    ensures ReferencesResolve(cards, tasks) ==> ReferencesResolve(r.0, r.1)
  {
    var cs := CardsWithout(cards, id);
    var ts := TasksNotOf(tasks, id);
    assert ReferencesResolve(cards, tasks) ==> ReferencesResolve(cs, ts) by {
      if ReferencesResolve(cards, tasks) {
        forall t | t in ts ensures HasCard(cs, t.cardId) {
          var c :| c in cards && c.id == t.cardId;
          assert c in cs;
        }
      }
    }
    (cs, ts)
  }

  function CardsWithout(cards: seq<Card>, id: Id): (r: seq<Card>)
    ensures forall c :: c in r <==> c in cards && c.id != id
  {
    if cards == [] then []
    else (if cards[0].id == id then [] else [cards[0]]) + CardsWithout(cards[1..], id)
  }

  function TasksNotOf(tasks: seq<Task>, cardId: Id): (r: seq<Task>)
    ensures forall t :: t in r <==> t in tasks && t.cardId != cardId
  {
    if tasks == [] then []
    else (if tasks[0].cardId == cardId then [] else [tasks[0]]) + TasksNotOf(tasks[1..], cardId)
  }
}
