/** `TodoList.process_recurring_tasks`: for every completed recurring task whose next due
    date is not in the past, append an open copy due on that date to the session's list. */
module Recurring {
  import opened Optional
  import opened Sequences
  import opened TaskList

  /** `next_due`: one day, one week or 30 days after the due date. */
  function NextDue(r: Recurrence, due: int): int
    requires r != NoRecurrence
  {
    match r
    case Daily => due + 1
    case Weekly => due + 7
    case Monthly => due + 30
  }

  /** The source reads `task["due_date"]` of every completed recurring task. */
  predicate RecurringDated(ts: seq<Item>) {
    forall i :: 0 <= i < |ts| && ts[i].completed && ts[i].recurrence != NoRecurrence ==> ts[i].dueDate.Some?
  }

  /** The test a task passes when it spawns a new instance on day `today`. */
  predicate Spawns(t: Item, today: int) {
    t.completed && t.recurrence != NoRecurrence && t.dueDate.Some? &&
    NextDue(t.recurrence, t.dueDate.value) >= today
  }

  function SpawnsOn(today: int): Item -> bool {
    (t: Item) => Spawns(t, today)
  }

  /** `new_task`: the copy with the new id, open, due on the next date, created `now`. */
  function Spawn(t: Item, id: int, now: int): Item
    requires t.recurrence != NoRecurrence && t.dueDate.Some?
  {
    t.(id := id, completed := false, dueDate := Some(NextDue(t.recurrence, t.dueDate.value)), createdAt := now)
  }

  /** `new_tasks` after the loop has seen `ts`, when the session list has `base` tasks. */
  function Instances(ts: seq<Item>, base: int, today: int, now: int): (r: seq<Item>)
    requires RecurringDated(ts)
    decreases |ts|
  {
    if ts == [] then []
    else
      var init := ts[..|ts| - 1];
      assert RecurringDated(init) by {
        forall i | 0 <= i < |init| ensures init[i] == ts[i] { }
      }
      var prev := Instances(init, base, today, now);
      var t := ts[|ts| - 1];
      if Spawns(t, today) then prev + [Spawn(t, base + |prev| + 1, now)] else prev
  }

  /** The instances, element by element: one per spawning task in list order, the k-th
      with id `base + k + 1`, a copy of its task except that it is open, due on the next
      date and created `now`. */
  lemma {:induction false} InstancesSpec(ts: seq<Item>, base: int, today: int, now: int)
    requires RecurringDated(ts)
    ensures var r := Instances(ts, base, today, now);
      var f := Filter(ts, SpawnsOn(today));
      |r| == |f| &&
      forall k :: 0 <= k < |r| ==> Spawns(f[k], today) && r[k] == Spawn(f[k], base + k + 1, now)
    decreases |ts|
  {
    if ts != [] {
      var init := ts[..|ts| - 1];
      assert RecurringDated(init) by {
        forall i | 0 <= i < |init| ensures init[i] == ts[i] { }
      }
      InstancesSpec(init, base, today, now);
      var f := Filter(init, SpawnsOn(today));
      forall k | 0 <= k < |f| ensures Spawns(f[k], today) {
        assert f[k] in f;
      }
    }
  }

  /** Consequences: new ids run consecutively from `base + 1`, every instance is open and
      due after its source by the recurrence's step, and nothing spawns from an open or
      non-recurring task or one whose next due date is past. */
  lemma InstancesFacts(ts: seq<Item>, base: int, today: int, now: int)
    requires RecurringDated(ts)
    ensures var r := Instances(ts, base, today, now);
      (forall k :: 0 <= k < |r| ==> (r[k].id == base + k + 1 && !r[k].completed && r[k].createdAt == now &&
        r[k].dueDate.Some? && r[k].dueDate.value >= today)) &&
      (forall k :: 0 <= k < |r| ==> exists t :: (t in ts && Spawns(t, today) &&
        r[k] == Spawn(t, base + k + 1, now))) &&
      ((forall i :: 0 <= i < |ts| ==> !Spawns(ts[i], today)) ==> r == [])
  {
    InstancesSpec(ts, base, today, now);
    var f := Filter(ts, SpawnsOn(today));
    var r := Instances(ts, base, today, now);
    forall k | 0 <= k < |r| ensures f[k] in ts {
      assert f[k] in f;
    }
    if forall i :: 0 <= i < |ts| ==> !Spawns(ts[i], today) {
      FilterKeepsNone(ts, SpawnsOn(today));
    }
  }

  /** `st.session_state.tasks`. */
  class TodoSession {
    var tasks: seq<Item>

    constructor (tasks: seq<Item>)
      ensures this.tasks == tasks
    {
      this.tasks := tasks;
    }

    /** `process_recurring_tasks` on day `today` at time `now`: the loop collects
        `new_tasks`, then `extend` appends them; the existing tasks are untouched. */
    method ProcessRecurringTasks(today: int, now: int)
      requires RecurringDated(tasks)
      modifies this
      ensures tasks == old(tasks) + Instances(old(tasks), |old(tasks)|, today, now)
    {
      var newTasks: seq<Item> := [];
      var i := 0;
      while i < |tasks|
        invariant 0 <= i <= |tasks| && tasks == old(tasks)
        invariant RecurringDated(tasks[..i])
        invariant newTasks == Instances(tasks[..i], |tasks|, today, now)
      {
        var task := tasks[i];
        assert tasks[..i + 1][..i] == tasks[..i];
        assert RecurringDated(tasks[..i + 1]) by {
          forall k | 0 <= k < i + 1 ensures tasks[..i + 1][k] == tasks[k] { }
        }
        if task.completed && task.recurrence != NoRecurrence {
          var nextDue := NextDue(task.recurrence, task.dueDate.value);
          if nextDue >= today {
            var newTask := task.(id := |tasks| + |newTasks| + 1, completed := false,
                                 dueDate := Some(nextDue), createdAt := now);
            newTasks := newTasks + [newTask];
          }
        }
        i := i + 1;
      }
      assert tasks[..i] == tasks;
      tasks := tasks + newTasks;
    }
  }
}
