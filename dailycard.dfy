/**
 * The task sheet of one day's card in the browser: one big task and three small
 * tasks, each a text field with a checkbox, and the counts shown under them.
 */
module DailyCard {
  /** One slot of the sheet. */
  datatype SheetTask = SheetTask(id: string, text: string, completed: bool)

  function EmptyTask(id: string): SheetTask {
    SheetTask(id, "", false)
  }

  /** The sheet on first render: slots "1" (the big task) to "4", all blank and unchecked. */
  function InitialTasks(): (r: seq<SheetTask>)
    ensures |r| == 4
    ensures forall i :: 0 <= i < 4 ==> r[i].text == "" && !r[i].completed
    ensures forall i, j :: 0 <= i < j < 4 ==> r[i].id != r[j].id
  {
    [EmptyTask("1"), EmptyTask("2"), EmptyTask("3"), EmptyTask("4")]
  }

  /** Checks or unchecks the slot with this id; every other slot, and every id and text, is kept. */
  function SetCompleted(ts: seq<SheetTask>, id: string, checked: bool): (r: seq<SheetTask>)
    ensures |r| == |ts|
    ensures forall i :: 0 <= i < |ts| ==> r[i].id == ts[i].id && r[i].text == ts[i].text
    ensures forall i :: 0 <= i < |ts| && ts[i].id == id ==> r[i].completed == checked
    ensures forall i :: 0 <= i < |ts| && ts[i].id != id ==> r[i] == ts[i]
    ensures (forall i :: 0 <= i < |ts| ==> ts[i].id != id) ==> r == ts
  {
    seq(|ts|, i requires 0 <= i < |ts| => if ts[i].id == id then ts[i].(completed := checked) else ts[i])
  }

  /** Replaces the text of the slot with this id; every other slot, and every id and checkbox, is kept. */
  function SetText(ts: seq<SheetTask>, id: string, text: string): (r: seq<SheetTask>)
    ensures |r| == |ts|
    ensures forall i :: 0 <= i < |ts| ==> r[i].id == ts[i].id && r[i].completed == ts[i].completed
    ensures forall i :: 0 <= i < |ts| && ts[i].id == id ==> r[i].text == text
    ensures forall i :: 0 <= i < |ts| && ts[i].id != id ==> r[i] == ts[i]
    ensures (forall i :: 0 <= i < |ts| ==> ts[i].id != id) ==> r == ts
  {
    seq(|ts|, i requires 0 <= i < |ts| => if ts[i].id == id then ts[i].(text := text) else ts[i])
  }

  /** The number of slots with text that are checked. */
  function CountCompletedWithText(ts: seq<SheetTask>): nat {
    if ts == [] then 0
    else (if ts[0].completed && ts[0].text != "" then 1 else 0) + CountCompletedWithText(ts[1..])
  }

  /** The number of slots with text. */
  function CountWithText(ts: seq<SheetTask>): nat {
    if ts == [] then 0
    else (if ts[0].text != "" then 1 else 0) + CountWithText(ts[1..])
  }

  lemma {:induction false} CountsBounded(ts: seq<SheetTask>)
    ensures CountCompletedWithText(ts) <= CountWithText(ts) <= |ts|
  {
    if ts != [] {
      CountsBounded(ts[1..]);
    }
  }

  /** Checking or unchecking a slot whose text is empty changes neither count. */
  lemma {:induction false} BlankSlotNotCounted(ts: seq<SheetTask>, id: string, checked: bool)
    requires forall i :: 0 <= i < |ts| && ts[i].id == id ==> ts[i].text == ""
    ensures CountCompletedWithText(SetCompleted(ts, id, checked)) == CountCompletedWithText(ts)
    ensures CountWithText(SetCompleted(ts, id, checked)) == CountWithText(ts)
  {
    if ts != [] {
      BlankSlotNotCounted(ts[1..], id, checked);
      assert SetCompleted(ts, id, checked)[1..] == SetCompleted(ts[1..], id, checked);
    }
  }

  /** The "Clear Card" button is offered from 18:00 on. */
  function CanDestroy(currentHour: int): (r: bool)
    requires 0 <= currentHour < 24
    ensures r <==> 18 <= currentHour <= 23
  {
    currentHour >= 18
  }

  class DailyCard {
    var bigTask: SheetTask
    var smallTasks: seq<SheetTask>

    ghost predicate Valid()
      reads this
    {
      |smallTasks| == 3
    }

    /** `[bigTask, ...smallTasks]` */
    function AllTasks(): seq<SheetTask>
      reads this
    {
      [bigTask] + smallTasks
    }

    constructor ()
      ensures Valid()
      ensures AllTasks() == InitialTasks()
    {
      bigTask := EmptyTask("1");
      smallTasks := [EmptyTask("2"), EmptyTask("3"), EmptyTask("4")];
    }

    /** "n of m completed": checked slots with text, out of slots with text; at most 4. */
    function CompletedCount(): (n: nat)
      reads this
      requires Valid()
      ensures n <= TotalCount() <= 4
    {
      CountsBounded(AllTasks());
      CountCompletedWithText(AllTasks())
    }

    function TotalCount(): (n: nat)
      reads this
      requires Valid()
      ensures n <= 4
    {
      CountsBounded(AllTasks());
      CountWithText(AllTasks())
    }

    /** handleBigTaskChange: only the big task's checkbox changes. */
    method HandleBigTaskChange(checked: bool)
      requires Valid()
      modifies this
      ensures Valid()
      ensures bigTask == old(bigTask).(completed := checked) && smallTasks == old(smallTasks)
    {
      bigTask := bigTask.(completed := checked);
    }

    /** The big task's text field. */
    method EditBigTaskText(text: string)
      requires Valid()
      modifies this
      ensures Valid()
      ensures bigTask == old(bigTask).(text := text) && smallTasks == old(smallTasks)
    {
      bigTask := bigTask.(text := text);
    }

    /** handleSmallTaskChange: only the checkbox of the small task with this id changes. */
    method HandleSmallTaskChange(id: string, checked: bool)
      requires Valid()
      modifies this
      ensures Valid()
      ensures smallTasks == SetCompleted(old(smallTasks), id, checked) && bigTask == old(bigTask)
    {
      smallTasks := SetCompleted(smallTasks, id, checked);
    }

    /** A small task's text field: only the text of the small task with this id changes. */
    method EditSmallTaskText(id: string, text: string)
      requires Valid()
      modifies this
      ensures Valid()
      ensures smallTasks == SetText(old(smallTasks), id, text) && bigTask == old(bigTask)
    {
      smallTasks := SetText(smallTasks, id, text);
    }
  }
}
