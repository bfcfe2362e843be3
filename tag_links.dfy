/** Tags and their links to tasks: the `tags` table with `UNIQUE(user_id, name)`, the
    `task_tags` table with `PRIMARY KEY (task_id, tag_id)`, the get-or-create step and
    the two tag loops of `add_task` (`INSERT OR IGNORE`) and `update_task` (delete all
    links of the task, then plain `INSERT`). */
module TagLinks {
  import opened Optional
  import opened Sequences
  import opened Tables

  /** The tables touched by tag handling, with the AUTOINCREMENT counter of `tags`. */
  datatype TagTables = TagTables(tags: seq<Tag>, links: seq<TaskTag>, nextTagId: int)

  /** `tags`: AUTOINCREMENT ids and `UNIQUE(user_id, name)`; `task_tags`: its primary key,
      and every link points below the tag counter (links are only ever made to existing
      tags). SQLite does not enforce foreign keys by default, so nothing ties a link's
      task id to an existing task. */
  ghost predicate TagTablesValid(t: TagTables) {
    (forall i, j :: 0 <= i < j < |t.tags| ==> t.tags[i].id < t.tags[j].id) &&
    (forall i :: 0 <= i < |t.tags| ==> t.tags[i].id < t.nextTagId) &&
    (forall i, j :: 0 <= i < j < |t.tags| ==>
      !(t.tags[i].userId == t.tags[j].userId && t.tags[i].name == t.tags[j].name)) &&
    Distinct(t.links) &&
    (forall i :: 0 <= i < |t.links| ==> t.links[i].tagId < t.nextTagId)
  }

  /** `user_id = ? AND name = ?` */
  predicate IsTag(tag: Tag, userId: int, name: string) {
    tag.userId == userId && tag.name == name
  }

  /** `SELECT id FROM tags WHERE user_id = ? AND name = ?` with `fetchone()`. */
  function TagIdOf(tags: seq<Tag>, userId: int, name: string): (r: Option<int>)
    ensures r.Some? <==> exists k :: 0 <= k < |tags| && IsTag(tags[k], userId, name)
    ensures r.Some? ==> exists k :: 0 <= k < |tags| && IsTag(tags[k], userId, name) && tags[k].id == r.value
  {
    match FirstIndex(tags, (tag: Tag) => IsTag(tag, userId, name))
    case Some(k) => Some(tags[k].id)
    case None => None
  }

  /** `SELECT name FROM tags WHERE user_id = ?`, in table order. */
  function TagNames(tags: seq<Tag>, userId: int): (r: seq<string>)
    ensures forall n :: n in r <==> exists k :: 0 <= k < |tags| && IsTag(tags[k], userId, n)
    decreases |tags|
  {
    if tags == [] then []
    else
      var init := TagNames(tags[..|tags| - 1], userId);
      var g := tags[|tags| - 1];
      assert forall k :: 0 <= k < |tags| - 1 ==> tags[k] == tags[..|tags| - 1][k];
      if g.userId == userId then init + [g.name] else init
  }

  /** `UNIQUE(user_id, name)` makes the names of one user's tags distinct. */
  lemma {:induction false} TagNamesDistinct(tags: seq<Tag>, userId: int)
    requires forall i, j :: 0 <= i < j < |tags| ==>
      !(tags[i].userId == tags[j].userId && tags[i].name == tags[j].name)
    ensures Distinct(TagNames(tags, userId))
    decreases |tags|
  {
    if tags != [] {
      var init, g := tags[..|tags| - 1], tags[|tags| - 1];
      TagNamesDistinct(init, userId);
      var r := TagNames(init, userId);
      if g.userId == userId {
        forall k | 0 <= k < |init| ensures !IsTag(init[k], userId, g.name) {
          assert tags[k] == init[k];
        }
        DistinctSnoc(r, g.name);
      }
    }
  }

  /** Two tag rows with the same id are the same row. */
  lemma SameTagRow(t: TagTables, k: nat, k': nat)
    requires TagTablesValid(t) && k < |t.tags| && k' < |t.tags| && t.tags[k].id == t.tags[k'].id
    ensures k == k'
  {
  }

  /** Under `UNIQUE(user_id, name)` the lookup finds the one matching row. */
  lemma TagIdOfRow(t: TagTables, k: nat, userId: int, name: string)
    requires TagTablesValid(t) && k < |t.tags| && IsTag(t.tags[k], userId, name)
    ensures TagIdOf(t.tags, userId, name) == Some(t.tags[k].id)
  {
    var r := TagIdOf(t.tags, userId, name);
    var k' :| 0 <= k' < |t.tags| && IsTag(t.tags[k'], userId, name) && t.tags[k'].id == r.value;
  }

  /** Two names of one user resolving to the same tag id are the same name. */
  lemma TagIdOfInjective(t: TagTables, userId: int, a: string, b: string)
    requires TagTablesValid(t)
    requires TagIdOf(t.tags, userId, a).Some? && TagIdOf(t.tags, userId, a) == TagIdOf(t.tags, userId, b)
    ensures a == b
  {
    var id := TagIdOf(t.tags, userId, a).value;
    var ka :| 0 <= ka < |t.tags| && IsTag(t.tags[ka], userId, a) && t.tags[ka].id == id;
    var kb :| 0 <= kb < |t.tags| && IsTag(t.tags[kb], userId, b) && t.tags[kb].id == id;
    SameTagRow(t, ka, kb);
  }

  /** `r` extends `t`: same constraints, old tag rows kept in place, and new tag rows
      carry ids `t` had not handed out. */
  ghost predicate Extends(t: TagTables, r: TagTables) {
    TagTablesValid(r) &&
    |t.tags| <= |r.tags| && r.tags[..|t.tags|] == t.tags && t.nextTagId <= r.nextTagId &&
    (forall k :: |t.tags| <= k < |r.tags| ==> r.tags[k].id >= t.nextTagId)
  }

  /** Extension is transitive. */
  lemma ExtendsTrans(a: TagTables, b: TagTables, c: TagTables)
    requires Extends(a, b) && Extends(b, c)
    ensures Extends(a, c)
  {
    assert c.tags[..|a.tags|] == c.tags[..|b.tags|][..|a.tags|];
    forall k | |a.tags| <= k < |c.tags| ensures c.tags[k].id >= a.nextTagId {
      if k < |b.tags| { assert c.tags[k] == b.tags[k]; }
    }
  }

  /** A name that resolved to a tag id still resolves to it after an extension. */
  lemma TagIdOfStable(a: TagTables, b: TagTables, userId: int, name: string)
    requires TagTablesValid(a) && Extends(a, b) && TagIdOf(a.tags, userId, name).Some?
    ensures TagIdOf(b.tags, userId, name) == TagIdOf(a.tags, userId, name)
  {
    var k :| 0 <= k < |a.tags| && IsTag(a.tags[k], userId, name) && a.tags[k].id == TagIdOf(a.tags, userId, name).value;
    assert b.tags[k] == b.tags[..|a.tags|][k];
    TagIdOfRow(b, k, userId, name);
  }

  /** `INSERT OR IGNORE INTO tags (user_id, name)` followed by `SELECT id ...`: the
      existing (user, name) row when there is one, otherwise a new row with the next id. */
  function GetOrCreateTag(t: TagTables, userId: int, name: string): (r: (TagTables, int))
  {
    match TagIdOf(t.tags, userId, name)
    case Some(id) => (t, id)
    case None =>
      (t.(tags := t.tags + [Tag(t.nextTagId, userId, name)], nextTagId := t.nextTagId + 1), t.nextTagId)
  }

  /** Get-or-create keeps the constraints, leaves the links alone, reuses a present row
      unchanged, and afterwards the name resolves to the returned id. */
  lemma GetOrCreateTagSpec(t: TagTables, userId: int, name: string)
    requires TagTablesValid(t)
    ensures Extends(t, GetOrCreateTag(t, userId, name).0)
    ensures GetOrCreateTag(t, userId, name).0.links == t.links
    ensures TagIdOf(GetOrCreateTag(t, userId, name).0.tags, userId, name) == Some(GetOrCreateTag(t, userId, name).1)
    ensures TagIdOf(t.tags, userId, name).Some? ==> GetOrCreateTag(t, userId, name).0 == t
    ensures TagIdOf(t.tags, userId, name).None? ==> GetOrCreateTag(t, userId, name).1 == t.nextTagId
  {
    if TagIdOf(t.tags, userId, name).None? {
      NewTagRow(t, userId, name);
    }
  }

  /** The insert branch of get-or-create. */
  lemma NewTagRow(t: TagTables, userId: int, name: string)
    requires TagTablesValid(t) && TagIdOf(t.tags, userId, name).None?
    ensures var r := t.(tags := t.tags + [Tag(t.nextTagId, userId, name)], nextTagId := t.nextTagId + 1);
      Extends(t, r) && TagIdOf(r.tags, userId, name) == Some(t.nextTagId)
  {
    var r := t.(tags := t.tags + [Tag(t.nextTagId, userId, name)], nextTagId := t.nextTagId + 1);
    NewTagRowExtends(t, userId, name);
    TagIdOfRow(r, |t.tags|, userId, name);
  }

  /** The new row keeps the constraints. */
  lemma NewTagRowExtends(t: TagTables, userId: int, name: string)
    requires TagTablesValid(t) && TagIdOf(t.tags, userId, name).None?
    ensures Extends(t, t.(tags := t.tags + [Tag(t.nextTagId, userId, name)], nextTagId := t.nextTagId + 1))
  {
    var r := t.(tags := t.tags + [Tag(t.nextTagId, userId, name)], nextTagId := t.nextTagId + 1);
    assert r.tags[..|t.tags|] == t.tags;
    NewTagRowUnique(t, userId, name);
  }

  /** The new row's (user, name) pair is not yet taken, so the pairs stay unique. */
  lemma NewTagRowUnique(t: TagTables, userId: int, name: string)
    requires TagTablesValid(t) && TagIdOf(t.tags, userId, name).None?
    ensures var tags := t.tags + [Tag(t.nextTagId, userId, name)];
      forall i, j :: 0 <= i < j < |tags| ==> !(tags[i].userId == tags[j].userId && tags[i].name == tags[j].name)
  {
    var tags := t.tags + [Tag(t.nextTagId, userId, name)];
    forall i, j | 0 <= i < j < |tags|
      ensures !(tags[i].userId == tags[j].userId && tags[i].name == tags[j].name)
    {
      if j == |t.tags| { assert tags[i] == t.tags[i]; assert !IsTag(t.tags[i], userId, name); }
    }
  }

  /** No row of `task_tags` names the task id `taskId`. */
  predicate NoLinksOf(t: TagTables, taskId: int) {
    forall i :: 0 <= i < |t.links| ==> t.links[i].taskId != taskId
  }

  /** `name` is attached to task `taskId`: a link of that task points at a tag row so named. */
  ghost predicate Linked(t: TagTables, taskId: int, name: string) {
    exists i, k :: 0 <= i < |t.links| && 0 <= k < |t.tags| &&
      t.links[i] == TaskTag(taskId, t.tags[k].id) && t.tags[k].name == name
  }

  /** `r` holds the links of `t` followed only by links of `taskId`; every listed name is
      linked to `taskId` through its tag row of `userId`, and every new link is one of those. */
  ghost predicate LinksNames(t: TagTables, r: TagTables, taskId: int, userId: int, names: seq<string>) {
    |t.links| <= |r.links| && r.links[..|t.links|] == t.links &&
    AllLinked(r, taskId, userId, names) && NewLinksListed(t, r, taskId, userId, names)
  }

  /** Every listed name has a tag row of `userId` linked to `taskId`. */
  ghost predicate AllLinked(r: TagTables, taskId: int, userId: int, names: seq<string>) {
    forall m :: m in names ==>
      TagIdOf(r.tags, userId, m).Some? && TaskTag(taskId, TagIdOf(r.tags, userId, m).value) in r.links
  }

  /** Every link of `r` past those of `t` joins `taskId` to the tag row of a listed name. */
  ghost predicate NewLinksListed(t: TagTables, r: TagTables, taskId: int, userId: int, names: seq<string>) {
    forall i :: |t.links| <= i < |r.links| ==>
      r.links[i].taskId == taskId && exists m :: m in names && TagIdOf(r.tags, userId, m) == Some(r.links[i].tagId)
  }

  /** Every listed name is attached to the task. */
  lemma LinkedListed(r: TagTables, t: TagTables, taskId: int, userId: int, names: seq<string>)
    requires LinksNames(t, r, taskId, userId, names)
    ensures forall m :: m in names ==> Linked(r, taskId, m)
  {
    forall m | m in names ensures Linked(r, taskId, m) {
      var id := TagIdOf(r.tags, userId, m).value;
      var k :| 0 <= k < |r.tags| && IsTag(r.tags[k], userId, m) && r.tags[k].id == id;
      var i :| 0 <= i < |r.links| && r.links[i] == TaskTag(taskId, id);
    }
  }

  /** A name attached in `r` is listed or was attached to that task before. */
  lemma LinkedOnlyListed(t: TagTables, r: TagTables, taskId: int, userId: int, names: seq<string>, id: int, m: string)
    requires TagTablesValid(t) && Extends(t, r) && LinksNames(t, r, taskId, userId, names)
    requires Linked(r, id, m)
    ensures (id == taskId && m in names) || Linked(t, id, m)
  {
    var i, k :| 0 <= i < |r.links| && 0 <= k < |r.tags| &&
      r.links[i] == TaskTag(id, r.tags[k].id) && r.tags[k].name == m;
    if i < |t.links| {
      OldLinkOldTag(t, r, i, k);
    } else {
      NewLinkListed(t, r, taskId, userId, names, i, k);
    }
  }

  /** An old link points at an old tag row. */
  lemma OldLinkOldTag(t: TagTables, r: TagTables, i: nat, k: nat)
    requires TagTablesValid(t) && Extends(t, r) && |t.links| <= |r.links| && r.links[..|t.links|] == t.links
    requires i < |t.links| && k < |r.tags| && r.links[i].tagId == r.tags[k].id
    ensures k < |t.tags| && r.tags[k] == t.tags[k] && r.links[i] == t.links[i]
  {
    assert r.links[i] == t.links[i];
    assert r.tags[k].id < t.nextTagId;
    assert r.tags[k] == r.tags[..|t.tags|][k];
  }

  /** A new link points at the tag row of a listed name. */
  lemma NewLinkListed(t: TagTables, r: TagTables, taskId: int, userId: int, names: seq<string>, i: nat, k: nat)
    requires TagTablesValid(r) && LinksNames(t, r, taskId, userId, names)
    requires |t.links| <= i < |r.links| && k < |r.tags| && r.links[i].tagId == r.tags[k].id
    ensures r.links[i].taskId == taskId && r.tags[k].name in names
  {
    var m' :| m' in names && TagIdOf(r.tags, userId, m') == Some(r.links[i].tagId);
    var k' :| 0 <= k' < |r.tags| && IsTag(r.tags[k'], userId, m') && r.tags[k'].id == r.links[i].tagId;
    SameTagRow(r, k, k');
  }

  /** A name attached in `t` stays attached in `r`. */
  lemma LinkedKept(t: TagTables, r: TagTables, taskId: int, userId: int, names: seq<string>, id: int, m: string)
    requires Extends(t, r) && LinksNames(t, r, taskId, userId, names) && Linked(t, id, m)
    ensures Linked(r, id, m)
  {
    var i, k :| 0 <= i < |t.links| && 0 <= k < |t.tags| &&
      t.links[i] == TaskTag(id, t.tags[k].id) && t.tags[k].name == m;
    assert r.links[i] == r.links[..|t.links|][i];
    assert r.tags[k] == r.tags[..|t.tags|][k];
  }

  /** The names attached to tasks after linking: every listed name is attached to
      `taskId`; `taskId` gains no other name; every other task keeps its names. */
  lemma LinkedAfter(t: TagTables, r: TagTables, taskId: int, userId: int, names: seq<string>)
    requires TagTablesValid(t) && Extends(t, r) && LinksNames(t, r, taskId, userId, names)
    ensures forall m :: m in names ==> Linked(r, taskId, m)
    ensures forall m :: Linked(r, taskId, m) ==> m in names || Linked(t, taskId, m)
    ensures forall id, m :: id != taskId ==> (Linked(r, id, m) <==> Linked(t, id, m))
  {
    LinkedListed(r, t, taskId, userId, names);
    forall id, m | Linked(r, id, m) ensures (id == taskId && m in names) || Linked(t, id, m) {
      LinkedOnlyListed(t, r, taskId, userId, names, id, m);
    }
    forall id, m | Linked(t, id, m) ensures Linked(r, id, m) {
      LinkedKept(t, r, taskId, userId, names, id, m);
    }
  }

  /** Appending a link that is not yet present, to a tag below the counter, is an extension. */
  lemma AppendLinkValid(t: TagTables, link: TaskTag)
    requires TagTablesValid(t) && link !in t.links && link.tagId < t.nextTagId
    ensures Extends(t, t.(links := t.links + [link]))
  {
    DistinctSnoc(t.links, link);
    var r := t.(links := t.links + [link]);
    assert r.tags[..|t.tags|] == t.tags;
  }

  /** Appending one link for `x` to tables that already link `init` links `init + [x]`. */
  lemma AppendLink(t: TagTables, t1: TagTables, t2: TagTables, tagId: int, taskId: int, userId: int,
                   init: seq<string>, x: string)
    requires TagTablesValid(t) && Extends(t, t1) && LinksNames(t, t1, taskId, userId, init)
    requires GetOrCreateTag(t1, userId, x) == (t2, tagId) && TaskTag(taskId, tagId) !in t2.links
    ensures Extends(t, t2.(links := t2.links + [TaskTag(taskId, tagId)]))
    ensures LinksNames(t, t2.(links := t2.links + [TaskTag(taskId, tagId)]), taskId, userId, init + [x])
  {
    GetOrCreateTagSpec(t1, userId, x);
    var link := TaskTag(taskId, tagId);
    var r := t2.(links := t2.links + [link]);
    assert tagId < t2.nextTagId by {
      var k :| 0 <= k < |t2.tags| && IsTag(t2.tags[k], userId, x) && t2.tags[k].id == tagId;
    }
    AppendLinkValid(t2, link);
    ExtendsTrans(t1, t2, r);
    ExtendsTrans(t, t1, r);
    LinksGrow(t, t1, r, taskId, userId, init, x, link);
  }

  /** The links of an extension step: old links kept, and the names resolve as before. */
  lemma LinksGrow(t: TagTables, t1: TagTables, r: TagTables, taskId: int, userId: int,
                  init: seq<string>, x: string, link: TaskTag)
    requires TagTablesValid(t1) && Extends(t, t1) && Extends(t1, r) && LinksNames(t, t1, taskId, userId, init)
    requires r.links == t1.links + [link] || r.links == t1.links
    requires link.taskId == taskId && TagIdOf(r.tags, userId, x) == Some(link.tagId) && link in r.links
    ensures LinksNames(t, r, taskId, userId, init + [x])
  {
    assert r.links[..|t1.links|] == t1.links;
    assert r.links[..|t.links|] == t1.links[..|t.links|];
    GrowListed(t1, r, taskId, userId, init, x, link);
    GrowNew(t, t1, r, taskId, userId, init, x, link);
  }

  /** After the step every name of `init + [x]` is linked to `taskId`. */
  lemma GrowListed(t1: TagTables, r: TagTables, taskId: int, userId: int,
                   init: seq<string>, x: string, link: TaskTag)
    requires TagTablesValid(t1) && Extends(t1, r) && AllLinked(t1, taskId, userId, init)
    requires r.links == t1.links + [link] || r.links == t1.links
    requires link.taskId == taskId && TagIdOf(r.tags, userId, x) == Some(link.tagId) && link in r.links
    ensures AllLinked(r, taskId, userId, init + [x])
  {
    forall m | m in init + [x]
      ensures TagIdOf(r.tags, userId, m).Some? && TaskTag(taskId, TagIdOf(r.tags, userId, m).value) in r.links
    {
      if m != x {
        assert m in init;
        LinkStays(t1, r, taskId, userId, m);
      }
    }
  }

  /** A name linked in `t1` is linked, through the same tag row, in an extension that keeps its links. */
  lemma LinkStays(t1: TagTables, r: TagTables, taskId: int, userId: int, m: string)
    requires TagTablesValid(t1) && Extends(t1, r)
    requires |t1.links| <= |r.links| && r.links[..|t1.links|] == t1.links
    requires TagIdOf(t1.tags, userId, m).Some? && TaskTag(taskId, TagIdOf(t1.tags, userId, m).value) in t1.links
    ensures TagIdOf(r.tags, userId, m) == TagIdOf(t1.tags, userId, m)
    ensures TaskTag(taskId, TagIdOf(r.tags, userId, m).value) in r.links
  {
    TagIdOfStable(t1, r, userId, m);
    var l := TaskTag(taskId, TagIdOf(t1.tags, userId, m).value);
    var j :| 0 <= j < |t1.links| && t1.links[j] == l;
    assert r.links[j] == l;
  }

  /** After the step every link past those of `t` belongs to `taskId` and a name of `init + [x]`. */
  lemma GrowNew(t: TagTables, t1: TagTables, r: TagTables, taskId: int, userId: int,
                init: seq<string>, x: string, link: TaskTag)
    requires TagTablesValid(t1) && Extends(t1, r) && |t.links| <= |t1.links| && NewLinksListed(t, t1, taskId, userId, init)
    requires r.links == t1.links + [link] || r.links == t1.links
    requires link.taskId == taskId && TagIdOf(r.tags, userId, x) == Some(link.tagId)
    ensures NewLinksListed(t, r, taskId, userId, init + [x])
  {
    var names := init + [x];
    forall i | |t.links| <= i < |r.links|
      ensures r.links[i].taskId == taskId &&
        exists m :: m in names && TagIdOf(r.tags, userId, m) == Some(r.links[i].tagId)
    {
      if i < |t1.links| {
        assert r.links[i] == t1.links[i];
        var m :| m in init && TagIdOf(t1.tags, userId, m) == Some(t1.links[i].tagId);
        TagIdOfStable(t1, r, userId, m);
        assert m in names;
      } else {
        assert r.links[i] == link;
        assert x in names;
      }
    }
  }

  /** One step of `add_task`'s tag loop: get-or-create the tag, then
      `INSERT OR IGNORE INTO task_tags (task_id, tag_id)`. */
  function LinkOrIgnore(t: TagTables, taskId: int, userId: int, name: string): TagTables
  {
    var (t1, tagId) := GetOrCreateTag(t, userId, name);
    var link := TaskTag(taskId, tagId);
    if link in t1.links then t1 else t1.(links := t1.links + [link])
  }

  /** `add_task`'s loop over `task_data.get("tags", [])`, name by name. */
  function AddLinks(t: TagTables, taskId: int, userId: int, names: seq<string>): TagTables
    decreases |names|
  {
    if names == [] then t
    else LinkOrIgnore(AddLinks(t, taskId, userId, names[..|names| - 1]), taskId, userId, names[|names| - 1])
  }

  /** `add_task`'s tag loop keeps the constraints and links each listed name, through its
      one (user, name) tag row, to the task; nothing else is linked. */
  lemma {:induction false} AddLinksSpec(t: TagTables, taskId: int, userId: int, names: seq<string>)
    requires TagTablesValid(t)
    ensures Extends(t, AddLinks(t, taskId, userId, names))
    ensures LinksNames(t, AddLinks(t, taskId, userId, names), taskId, userId, names)
    decreases |names|
  {
    if names == [] {
      assert t.tags[..|t.tags|] == t.tags && t.links[..|t.links|] == t.links;
    } else {
      var init, x := names[..|names| - 1], names[|names| - 1];
      assert names == init + [x];
      AddLinksSpec(t, taskId, userId, init);
      var t1 := AddLinks(t, taskId, userId, init);
      GetOrCreateTagSpec(t1, userId, x);
      var (t2, tagId) := GetOrCreateTag(t1, userId, x);
      var link := TaskTag(taskId, tagId);
      if link in t2.links {
        var r := t2;
        assert Extends(t2, r) by { assert r.tags[..|t2.tags|] == t2.tags; }
        ExtendsTrans(t1, t2, r);
        ExtendsTrans(t, t1, r);
        LinksGrow(t, t1, r, taskId, userId, init, x, link);
      } else {
        AppendLink(t, t1, t2, tagId, taskId, userId, init, x);
      }
    }
  }

  /** What `add_task`'s tag loop leaves: valid tables in which every listed name is a tag
      of the user attached to the task, the task gains no other name, and every other
      task keeps its names. */
  lemma AddLinksFacts(t: TagTables, taskId: int, userId: int, names: seq<string>)
    requires TagTablesValid(t)
    ensures var r := AddLinks(t, taskId, userId, names);
      TagTablesValid(r) &&
      (forall m :: m in names ==> m in TagNames(r.tags, userId) && Linked(r, taskId, m)) &&
      (forall m :: Linked(r, taskId, m) ==> m in names || Linked(t, taskId, m)) &&
      (forall id, m :: id != taskId ==> (Linked(r, id, m) <==> Linked(t, id, m)))
  {
    var r := AddLinks(t, taskId, userId, names);
    AddLinksSpec(t, taskId, userId, names);
    LinkedAfter(t, r, taskId, userId, names);
    forall m | m in names ensures m in TagNames(r.tags, userId) {
      var k :| 0 <= k < |r.tags| && IsTag(r.tags[k], userId, m) && r.tags[k].id == TagIdOf(r.tags, userId, m).value;
    }
  }

  /** `add_task`'s tag loop, statement by statement, inside its transaction. */
  method AddTaskTags(t0: TagTables, taskId: int, userId: int, names: seq<string>) returns (t: TagTables)
    ensures t == AddLinks(t0, taskId, userId, names)
  {
    t := t0;
    var i := 0;
    while i < |names|
      invariant 0 <= i <= |names|
      invariant t == AddLinks(t0, taskId, userId, names[..i])
    {
      // INSERT OR IGNORE INTO tags, then SELECT id
      var (t1, tagId) := GetOrCreateTag(t, userId, names[i]);
      // INSERT OR IGNORE INTO task_tags
      if TaskTag(taskId, tagId) !in t1.links {
        t1 := t1.(links := t1.links + [TaskTag(taskId, tagId)]);
      }
      t := t1;
      assert names[..i + 1][..i] == names[..i];
      i := i + 1;
    }
    assert names[..i] == names;
  }

  /** The property `add_task` promises of a task id with no stray links: afterwards the
      names attached to it are exactly the listed ones, and other tasks keep theirs. */
  lemma AddLinksAttachesExactly(t: TagTables, taskId: int, userId: int, names: seq<string>)
    requires TagTablesValid(t)
    requires NoLinksOf(t, taskId)
    ensures TagTablesValid(AddLinks(t, taskId, userId, names))
    ensures forall m :: Linked(AddLinks(t, taskId, userId, names), taskId, m) <==> m in names
    ensures forall id, m :: id != taskId ==>
      (Linked(AddLinks(t, taskId, userId, names), id, m) <==> Linked(t, id, m))
  {
    AddLinksSpec(t, taskId, userId, names);
    LinkedAfter(t, AddLinks(t, taskId, userId, names), taskId, userId, names);
    assert forall m :: !Linked(t, taskId, m);
  }

  /** One step of `update_task`'s tag loop: a plain `INSERT INTO task_tags`, which fails
      (None) on a primary-key violation. */
  function LinkStrict(t: TagTables, taskId: int, userId: int, name: string): Option<TagTables>
  {
    var (t1, tagId) := GetOrCreateTag(t, userId, name);
    var link := TaskTag(taskId, tagId);
    if link in t1.links then None else Some(t1.(links := t1.links + [link]))
  }

  /** `update_task`'s loop over `task_data["tags"]`; None once an insert fails. */
  function InsertLinks(t: TagTables, taskId: int, userId: int, names: seq<string>): Option<TagTables>
    decreases |names|
  {
    if names == [] then Some(t)
    else match InsertLinks(t, taskId, userId, names[..|names| - 1])
      case None => None
      case Some(t1) => LinkStrict(t1, taskId, userId, names[|names| - 1])
  }

  /** Once an insert has failed, the rest of the loop does not run: the whole loop fails. */
  lemma {:induction false} InsertLinksFailed(t: TagTables, taskId: int, userId: int, names: seq<string>, n: nat)
    requires n <= |names| && InsertLinks(t, taskId, userId, names[..n]).None?
    ensures InsertLinks(t, taskId, userId, names).None?
    decreases |names|
  {
    if n < |names| {
      var init := names[..|names| - 1];
      assert init[..n] == names[..n];
      InsertLinksFailed(t, taskId, userId, init, n);
    } else {
      assert names[..n] == names;
    }
  }

  /** The test `DELETE FROM task_tags WHERE task_id = ?` keeps a link by. */
  function OtherTask(taskId: int): TaskTag -> bool {
    (l: TaskTag) => l.taskId != taskId
  }

  /** `DELETE FROM task_tags WHERE task_id = ?`: keyed on the task id alone. */
  function UnlinkTask(t: TagTables, taskId: int): TagTables
  {
    t.(links := Filter(t.links, OtherTask(taskId)))
  }

  /** Unlinking keeps the constraints, removes every link of the task and no other. */
  lemma UnlinkTaskSpec(t: TagTables, taskId: int)
    requires TagTablesValid(t)
    ensures TagTablesValid(UnlinkTask(t, taskId))
    ensures UnlinkTask(t, taskId).tags == t.tags && UnlinkTask(t, taskId).nextTagId == t.nextTagId
    ensures forall l :: l in UnlinkTask(t, taskId).links <==> l in t.links && l.taskId != taskId
    ensures NoLinksOf(UnlinkTask(t, taskId), taskId)
    ensures forall m :: !Linked(UnlinkTask(t, taskId), taskId, m)
    ensures forall id, m :: id != taskId ==> (Linked(UnlinkTask(t, taskId), id, m) <==> Linked(t, id, m))
  {
    var r := UnlinkTask(t, taskId);
    FilterDistinct(t.links, OtherTask(taskId));
    forall i | 0 <= i < |r.links| ensures r.links[i].tagId < r.nextTagId && r.links[i].taskId != taskId {
      assert r.links[i] in r.links;
    }
    forall id, m | id != taskId && Linked(t, id, m) ensures Linked(r, id, m) {
      var i, k :| 0 <= i < |t.links| && 0 <= k < |t.tags| &&
        t.links[i] == TaskTag(id, t.tags[k].id) && t.tags[k].name == m;
      assert t.links[i] in r.links;
      var j :| 0 <= j < |r.links| && r.links[j] == t.links[i];
    }
    forall id, m | Linked(r, id, m) ensures id != taskId && Linked(t, id, m) {
      var i, k :| 0 <= i < |r.links| && 0 <= k < |r.tags| &&
        r.links[i] == TaskTag(id, r.tags[k].id) && r.tags[k].name == m;
      assert r.links[i] in r.links;
      var j :| 0 <= j < |t.links| && t.links[j] == r.links[i];
    }
  }

  /** A strict step on tables that link `init` (distinct) to a task with no earlier
      links fails exactly when `x` is already in `init`. */
  lemma StrictStepFails(t: TagTables, t1: TagTables, taskId: int, userId: int, init: seq<string>, x: string)
    requires TagTablesValid(t) && Extends(t, t1) && LinksNames(t, t1, taskId, userId, init)
    requires NoLinksOf(t, taskId)
    ensures LinkStrict(t1, taskId, userId, x).None? <==> x in init
  {
    GetOrCreateTagSpec(t1, userId, x);
    var (t2, tagId) := GetOrCreateTag(t1, userId, x);
    var link := TaskTag(taskId, tagId);
    if x in init {
      assert TaskTag(taskId, TagIdOf(t1.tags, userId, x).value) in t1.links;
    }
    if link in t2.links {
      // The link can only be one the loop made for an earlier name: that name is x.
      var i :| 0 <= i < |t1.links| && t1.links[i] == link;
      forall j | 0 <= j < |t.links| ensures t1.links[j].taskId != taskId {
        assert t1.links[j] == t1.links[..|t.links|][j];
      }
      var m :| m in init && TagIdOf(t1.tags, userId, m) == Some(tagId);
      var k :| 0 <= k < |t1.tags| && IsTag(t1.tags[k], userId, m) && t1.tags[k].id == tagId;
      assert t1.tags[k].id < t1.nextTagId;
      TagIdOfInjective(t1, userId, m, x);
    }
  }

  /** On tables where the task has no links, the strict loop succeeds exactly when the
      names are distinct, and then links each name just as `add_task` would. */
  lemma {:induction false} InsertLinksSpec(t: TagTables, taskId: int, userId: int, names: seq<string>)
    requires TagTablesValid(t)
    requires NoLinksOf(t, taskId)
    ensures InsertLinks(t, taskId, userId, names).Some? <==> Distinct(names)
    ensures InsertLinks(t, taskId, userId, names).Some? ==>
      Extends(t, InsertLinks(t, taskId, userId, names).value) &&
      LinksNames(t, InsertLinks(t, taskId, userId, names).value, taskId, userId, names)
    decreases |names|
  {
    if names == [] {
      assert t.tags[..|t.tags|] == t.tags && t.links[..|t.links|] == t.links;
    } else {
      var init, x := names[..|names| - 1], names[|names| - 1];
      assert names == init + [x];
      DistinctSnoc(init, x);
      InsertLinksSpec(t, taskId, userId, init);
      if InsertLinks(t, taskId, userId, init).Some? {
        var t1 := InsertLinks(t, taskId, userId, init).value;
        StrictStepFails(t, t1, taskId, userId, init, x);
        if x !in init {
          var (t2, tagId) := GetOrCreateTag(t1, userId, x);
          AppendLink(t, t1, t2, tagId, taskId, userId, init, x);
        }
      }
    }
  }

  /** `update_task`'s tag replacement: delete the task's links, then insert one link per
      name; None when an insert violates the primary key. */
  function ReplaceLinks(t: TagTables, taskId: int, userId: int, names: seq<string>): Option<TagTables>
  {
    InsertLinks(UnlinkTask(t, taskId), taskId, userId, names)
  }

  /** `update_task`'s tag branch inside its transaction: the `DELETE`, then the loop of
      plain inserts, stopping at the first failing one (None). Also returns the rowcount
      of the last statement run: the `DELETE`'s for an empty list, else 1. */
  method ReplaceTaskTags(t: TagTables, taskId: int, userId: int, names: seq<string>)
    returns (r: Option<TagTables>, rowcount: int)
    ensures r == ReplaceLinks(t, taskId, userId, names)
    ensures r.Some? ==> rowcount == if names == [] then |t.links| - |UnlinkTask(t, taskId).links| else 1
  {
    var t0 := UnlinkTask(t, taskId);
    rowcount := |t.links| - |t0.links|;
    var cur := t0;
    var i := 0;
    while i < |names|
      invariant 0 <= i <= |names|
      invariant InsertLinks(t0, taskId, userId, names[..i]) == Some(cur)
      invariant i == 0 ==> rowcount == |t.links| - |t0.links|
      invariant i > 0 ==> rowcount == 1
    {
      assert names[..i + 1][..i] == names[..i];
      // INSERT OR IGNORE INTO tags, then SELECT id
      var (t1, tagId) := GetOrCreateTag(cur, userId, names[i]);
      // INSERT INTO task_tags: a duplicate key raises
      if TaskTag(taskId, tagId) in t1.links {
        InsertLinksFailed(t0, taskId, userId, names, i + 1);
        return None, rowcount;
      }
      cur := t1.(links := t1.links + [TaskTag(taskId, tagId)]);
      rowcount := 1;
      i := i + 1;
    }
    assert names[..i] == names;
    r := Some(cur);
  }

  /** Replacing succeeds exactly when the names are distinct; then the task carries
      exactly those names and every other task keeps its names. */
  lemma ReplaceLinksSpec(t: TagTables, taskId: int, userId: int, names: seq<string>)
    requires TagTablesValid(t)
    ensures ReplaceLinks(t, taskId, userId, names).Some? <==> Distinct(names)
    ensures ReplaceLinks(t, taskId, userId, names).Some? ==>
      var r := ReplaceLinks(t, taskId, userId, names).value;
      Extends(t, r) &&
      (forall m :: Linked(r, taskId, m) <==> m in names) &&
      (forall id, m :: id != taskId ==> (Linked(r, id, m) <==> Linked(t, id, m)))
  {
    var u := UnlinkTask(t, taskId);
    UnlinkTaskSpec(t, taskId);
    InsertLinksSpec(u, taskId, userId, names);
    if Distinct(names) {
      var r := InsertLinks(u, taskId, userId, names).value;
      LinkedAfter(u, r, taskId, userId, names);
      assert Extends(t, r);
    }
  }
}
