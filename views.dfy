/** The dictionaries `get_tasks` builds: the `LEFT JOIN` of a user's tasks with their
    links and tag rows, grouped per task with `GROUP_CONCAT(tg.name)`, and the string
    split back into a list in Python. */
module Views {
  import opened Optional
  import opened Strings
  import opened Sequences
  import opened Tables
  import opened TagLinks

  /** `LEFT JOIN tags tg ON tt.tag_id = tg.id`: the name of the tag row with that id,
      None (a NULL `tg.name`) when there is none. */
  function TagName(tags: seq<Tag>, tagId: int): (r: Option<string>)
    ensures r.Some? <==> exists k :: 0 <= k < |tags| && tags[k].id == tagId
    ensures r.Some? ==> exists k :: 0 <= k < |tags| && tags[k].id == tagId && tags[k].name == r.value
  {
    match FirstIndex(tags, (g: Tag) => g.id == tagId)
    case Some(k) => Some(tags[k].name)
    case None => None
  }

  /** Tag ids are unique: the part of the `tags` constraints the join relies on. */
  ghost predicate TagIdsUnique(tags: seq<Tag>) {
    forall i, j :: 0 <= i < j < |tags| ==> tags[i].id != tags[j].id
  }

  /** With unique ids the join finds the one row carrying the id. */
  lemma TagNameOfRow(tags: seq<Tag>, k: nat)
    requires TagIdsUnique(tags) && k < |tags|
    ensures TagName(tags, tags[k].id) == Some(tags[k].name)
  {
    var r := TagName(tags, tags[k].id);
    var k' :| 0 <= k' < |tags| && tags[k'].id == tags[k].id && tags[k'].name == r.value;
    assert k == k';
  }

  /** The non-NULL `tg.name` values in the group of `taskId`, in link order (the order
      `GROUP_CONCAT` sees its rows in is not specified by SQLite). */
  function NamesOf(tags: seq<Tag>, links: seq<TaskTag>, taskId: int): (r: seq<string>)
    ensures |r| <= |links|
    decreases |links|
  {
    if links == [] then []
    else
      var init := NamesOf(tags, links[..|links| - 1], taskId);
      var l := links[|links| - 1];
      if l.taskId != taskId then init
      else match TagName(tags, l.tagId)
        case Some(n) => init + [n]
        case None => init
  }

  /** A link `links[i]` of `taskId` to the tag row `tags[k]` named `n`. */
  ghost predicate LinksTo(tags: seq<Tag>, links: seq<TaskTag>, taskId: int, n: string) {
    exists i, k :: 0 <= i < |links| && 0 <= k < |tags| &&
      links[i] == TaskTag(taskId, tags[k].id) && tags[k].name == n
  }

  /** A name is in the group of a task exactly when a link of that task points at a
      tag row of that name. */
  lemma {:induction false} NamesOfLinks(tags: seq<Tag>, links: seq<TaskTag>, taskId: int, n: string)
    requires TagIdsUnique(tags)
    ensures n in NamesOf(tags, links, taskId) <==> LinksTo(tags, links, taskId, n)
    decreases |links|
  {
    if links != [] {
      var init, l := links[..|links| - 1], links[|links| - 1];
      NamesOfLinks(tags, init, taskId, n);
      if LinksTo(tags, links, taskId, n) {
        var i, k :| 0 <= i < |links| && 0 <= k < |tags| &&
          links[i] == TaskTag(taskId, tags[k].id) && tags[k].name == n;
        if i == |links| - 1 {
          TagNameOfRow(tags, k);
        } else {
          assert init[i] == links[i];
        }
      }
      if LinksTo(tags, init, taskId, n) {
        var i, k :| 0 <= i < |init| && 0 <= k < |tags| &&
          init[i] == TaskTag(taskId, tags[k].id) && tags[k].name == n;
        assert links[i] == init[i];
      }
      if l.taskId == taskId && TagName(tags, l.tagId) == Some(n) {
        var k :| 0 <= k < |tags| && tags[k].id == l.tagId && tags[k].name == n;
        assert links[|links| - 1] == TaskTag(taskId, tags[k].id);
      }
    }
  }

  /** The group of `taskId` in tables `t`. */
  function LinkedNames(t: TagTables, taskId: int): seq<string>
  {
    NamesOf(t.tags, t.links, taskId)
  }

  /** On valid tables, the group holds exactly the names attached to the task. */
  lemma LinkedNamesSpec(t: TagTables, taskId: int)
    requires TagTablesValid(t)
    ensures forall n :: n in LinkedNames(t, taskId) <==> Linked(t, taskId, n)
  {
    forall n ensures n in LinkedNames(t, taskId) <==> Linked(t, taskId, n) {
      NamesOfLinks(t.tags, t.links, taskId, n);
    }
  }

  /** `GROUP_CONCAT(tg.name)`: NULL for a group without names, else the names joined by ",". */
  function GroupConcat(names: seq<string>): (r: Option<string>)
    ensures r.None? <==> names == []
  {
    if names == [] then None else Some(JoinComma(names))
  }

  /** `row[7].split(",") if row[7] else []`: NULL and "" are both falsy. */
  function SplitTags(v: Option<string>): (r: seq<string>)
    ensures v.None? || v == Some("") ==> r == []
    ensures v.Some? && v.value != "" ==> r == SplitComma(v.value)
  {
    match v
    case None => []
    case Some(s) => if s == "" then [] else SplitComma(s)
  }

  /** The dictionary `get_tasks` builds for one row. */
  function View(t: TagTables, task: Task): TaskView
  {
    TaskView(task.id, task.title, task.description, task.category, task.dueDate, task.priority,
      task.completed, SplitTags(GroupConcat(LinkedNames(t, task.id))))
  }

  /** The test `WHERE t.user_id = ?`. */
  predicate OwnedBy(task: Task, userId: int) {
    task.userId == userId
  }

  /** The list `get_tasks` returns: one dictionary per task of the user, in table order
      (`GROUP BY t.id` over ids that increase with insertion). */
  function TaskViews(tasks: seq<Task>, t: TagTables, userId: int): (r: seq<TaskView>)
    ensures |r| <= |tasks|
    ensures forall v :: v in r <==> exists i :: 0 <= i < |tasks| && OwnedBy(tasks[i], userId) && v == View(t, tasks[i])
    decreases |tasks|
  {
    if tasks == [] then []
    else
      var init := TaskViews(tasks[..|tasks| - 1], t, userId);
      var task := tasks[|tasks| - 1];
      assert forall i :: 0 <= i < |tasks| - 1 ==> tasks[i] == tasks[..|tasks| - 1][i];
      if OwnedBy(task, userId) then init + [View(t, task)] else init
  }

  /** The test `WHERE t.user_id = ?` as a function value. */
  function OwnedTest(userId: int): Task -> bool {
    (task: Task) => OwnedBy(task, userId)
  }

  /** `get_tasks` gives exactly one dictionary per task row of the user, in table order:
      the list of views has the length of the user's rows, and the `i`-th view is that of
      the user's `i`-th row. */
  lemma {:induction false} TaskViewsCount(tasks: seq<Task>, t: TagTables, userId: int)
    ensures var owned := Filter(tasks, OwnedTest(userId));
      |TaskViews(tasks, t, userId)| == |owned| &&
      forall i :: 0 <= i < |owned| ==> TaskViews(tasks, t, userId)[i] == View(t, owned[i])
    decreases |tasks|
  {
    if tasks != [] {
      TaskViewsCount(tasks[..|tasks| - 1], t, userId);
    }
  }

  /** Tag names that are non-empty and hold no comma survive the round trip through
      `GROUP_CONCAT` and `split(",")`: when every name attached to the task is such a name,
      the listed tags are exactly the task's group. */
  lemma ViewTagsClean(t: TagTables, task: Task)
    requires TagTablesValid(t)
    requires forall n :: Linked(t, task.id, n) ==> n != "" && Lacks(n, ',')
    ensures View(t, task).tags == LinkedNames(t, task.id)
    ensures forall n :: n in View(t, task).tags <==> Linked(t, task.id, n)
  {
    var names := LinkedNames(t, task.id);
    LinkedNamesSpec(t, task.id);
    forall i | 0 <= i < |names| ensures names[i] != "" && Lacks(names[i], ',') {
      assert names[i] in names;
    }
    if names != [] {
      JoinCommaEmpty(names);
      SplitJoinRoundTrip(names);
    }
  }

  /** A tag whose name holds a comma comes back as two tags. */
  lemma CommaNameSplits()
    ensures var t := TagTables([Tag(1, 1, "a,b")], [TaskTag(1, 1)], 2);
      TagTablesValid(t) && View(t, Task(1, 1, "x", None, None, None, None, false)).tags == ["a", "b"]
  {
    var t := TagTables([Tag(1, 1, "a,b")], [TaskTag(1, 1)], 2);
    assert TagName(t.tags, 1) == Some("a,b");
    assert LinkedNames(t, 1) == ["a,b"] by {
      assert t.links[..0] == [];
    }
    CommaBreaksRoundTrip();
  }

  /** A task whose only tag has the empty name lists no tags at all. */
  lemma EmptyNameVanishes()
    ensures var t := TagTables([Tag(1, 1, "")], [TaskTag(1, 1)], 2);
      TagTablesValid(t) && Linked(t, 1, "") && View(t, Task(1, 1, "x", None, None, None, None, false)).tags == []
  {
    var t := TagTables([Tag(1, 1, "")], [TaskTag(1, 1)], 2);
    assert TagName(t.tags, 1) == Some("");
    assert LinkedNames(t, 1) == [""] by {
      assert t.links[..0] == [];
    }
    assert t.links[0] == TaskTag(1, t.tags[0].id);
  }
}
