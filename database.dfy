/** The `Database` class: one object over the five tables of the SQLite file, each
    method one connection and one transaction. Tables are sequences of rows in
    insertion order and every `AUTOINCREMENT` counter is a field. */
module TodoDatabase {
  import opened Optional
  import opened Sequences
  import opened Tables
  import opened TagLinks
  import opened Views

  /** `cursor.rowcount` after the last statement `update_task` executes, which is what it
      reports: the `UPDATE` when there is no "tags" key, the `DELETE` of the task's links
      for an empty list, and otherwise the last `INSERT INTO task_tags` (one row). */
  function UpdateRowcount(tasks: seq<Task>, links: seq<TaskTag>, taskId: int, userId: int,
                          tagList: Option<seq<string>>): int
  {
    match tagList
    case None => |tasks| - |RemoveTask(tasks, taskId, userId)|
    case Some(names) => if names == [] then |links| - |Filter(links, OtherTask(taskId))| else 1
  }

  /** What `update_task`'s True means: with no "tags" key, that the user owns the task;
      with an empty list, that the task id had links (whoever owns it); with a non-empty
      list, nothing at all (even a task id that does not exist reports True). */
  lemma UpdateRowcountMeaning(tasks: seq<Task>, nextId: int, links: seq<TaskTag>, taskId: int, userId: int,
                              tagList: Option<seq<string>>)
    requires TasksValid(tasks, nextId)
    ensures tagList.None? ==>
      (UpdateRowcount(tasks, links, taskId, userId, tagList) > 0 <==> Owns(tasks, taskId, userId))
    ensures tagList == Some([]) ==>
      (UpdateRowcount(tasks, links, taskId, userId, tagList) > 0 <==>
        exists i :: 0 <= i < |links| && links[i].taskId == taskId)
    ensures tagList.Some? && tagList.value != [] ==> UpdateRowcount(tasks, links, taskId, userId, tagList) > 0
  {
    if tagList.None? {
      RemoveTaskSpec(tasks, nextId, taskId, userId);
    } else if tagList == Some([]) {
      if exists i :: 0 <= i < |links| && links[i].taskId == taskId {
        var i :| 0 <= i < |links| && links[i].taskId == taskId;
        FilterMissesOne(links, OtherTask(taskId), i);
      } else {
        FilterKeepsAll(links, OtherTask(taskId));
      }
    }
  }

  class Database {
    /** `hashlib.sha256(password.encode()).hexdigest()`, left uninterpreted. */
    const hash: string -> Hash

    var users: seq<User>
    var resetTokens: seq<ResetToken>
    var tasks: seq<Task>
    var tags: seq<Tag>
    var taskTags: seq<TaskTag>
    var nextUserId: int
    var nextTokenId: int
    var nextTaskId: int
    var nextTagId: int

    /** The constraints `init_db` declares. */
    ghost predicate Valid()
      reads this
    {
      UsersValid(users, nextUserId) && TokensValid(resetTokens, nextTokenId) &&
      TasksValid(tasks, nextTaskId) && TagTablesValid(TagState())
    }

    /** The `tags` and `task_tags` tables with their counter. */
    function TagState(): TagTables
      reads this
    {
      TagTables(tags, taskTags, nextTagId)
    }

    /** `Database(db_path)` on a new file: `init_db` creates the five empty tables. */
    constructor (hash: string -> Hash)
      ensures Valid() && this.hash == hash
      ensures users == [] && resetTokens == [] && tasks == [] && tags == [] && taskTags == []
      ensures nextUserId == 1 && nextTokenId == 1 && nextTaskId == 1 && nextTagId == 1
    {
      this.hash := hash;
      users, resetTokens, tasks, tags, taskTags := [], [], [], [], [];
      nextUserId, nextTokenId, nextTaskId, nextTagId := 1, 1, 1, 1;
    }

    /** The `UNIQUE` constraints of `users` reject the new row. */
    predicate Clashes(username: string, email: string)
      reads this
    {
      exists i :: 0 <= i < |users| && (users[i].username == username || users[i].email == email)
    }

    /** `create_user`: the `INSERT` succeeds, with the next id and the hash of the
        password, unless the username or the email is taken (`IntegrityError`, False). */
    method CreateUser(username: string, email: string, password: string, now: int) returns (ok: bool)
      requires Valid()
      modifies this
      ensures Valid()
      ensures ok <==> !old(Clashes(username, email))
      ensures ok ==> (users == old(users) + [User(old(nextUserId), username, email, hash(password), now)] &&
        nextUserId == old(nextUserId) + 1)
      ensures !ok ==> users == old(users) && nextUserId == old(nextUserId)
      ensures ok ==> VerifyUser(username, password).Some? && VerifyUser(email, password).Some?
      ensures resetTokens == old(resetTokens) && tasks == old(tasks) && tags == old(tags) && taskTags == old(taskTags)
      ensures nextTokenId == old(nextTokenId) && nextTaskId == old(nextTaskId) && nextTagId == old(nextTagId)
    {
      if Clashes(username, email) {
        return false;
      }
      users := users + [User(nextUserId, username, email, hash(password), now)];
      nextUserId := nextUserId + 1;
      ok := true;
      assert CredentialsMatch(users[|users| - 1], username, hash(password));
      assert CredentialsMatch(users[|users| - 1], email, hash(password));
    }

    /** `verify_user`: the id of the first row whose username or email is `identifier`
        and whose hash is the hash of `password`. */
    function VerifyUser(identifier: string, password: string): (r: Option<int>)
      reads this
      ensures r.Some? <==> exists i :: 0 <= i < |users| && CredentialsMatch(users[i], identifier, hash(password))
      ensures r.Some? ==> exists i :: (0 <= i < |users| && CredentialsMatch(users[i], identifier, hash(password)) &&
        users[i].id == r.value &&
        forall j :: 0 <= j < i ==> !CredentialsMatch(users[j], identifier, hash(password)))
    {
      match FirstIndex(users, (u: User) => CredentialsMatch(u, identifier, hash(password)))
      case Some(i) => Some(users[i].id)
      case None => None
    }

    /** `get_user_by_id`: the row with that id, without its hash. */
    function GetUserById(userId: int): (r: Option<UserInfo>)
      reads this
      ensures r.None? <==> forall i :: 0 <= i < |users| ==> users[i].id != userId
      ensures r.Some? ==> exists i :: (0 <= i < |users| && users[i].id == userId &&
        r.value == UserInfo(users[i].id, users[i].username, users[i].email, users[i].createdAt))
    {
      match FirstIndex(users, (u: User) => u.id == userId)
      case Some(i) => Some(UserInfo(users[i].id, users[i].username, users[i].email, users[i].createdAt))
      case None => None
    }

    /** `get_user_by_email`: the row with that email, without its hash. */
    function GetUserByEmail(email: string): (r: Option<UserInfo>)
      reads this
      ensures r.None? <==> forall i :: 0 <= i < |users| ==> users[i].email != email
      ensures r.Some? ==> r.value.email == email
      ensures r.Some? ==> exists i :: (0 <= i < |users| && users[i].email == email &&
        r.value == UserInfo(users[i].id, users[i].username, users[i].email, users[i].createdAt))
    {
      match FirstIndex(users, (u: User) => u.email == email)
      case Some(i) => Some(UserInfo(users[i].id, users[i].username, users[i].email, users[i].createdAt))
      case None => None
    }

    /** No row of `task_tags` names the task id `taskId`. */
    predicate Unlinked(taskId: int)
      reads this
    {
      NoLinksOf(TagState(), taskId)
    }

    /** `add_task`: insert the row (`completed` defaults to FALSE), then for each name of
        `task_data.get("tags", [])` get or create the user's tag and link it with
        `INSERT OR IGNORE`; returns `lastrowid`. */
    method AddTask(userId: int, data: TaskData) returns (taskId: int)
      requires Valid() && data.title.Some?
      modifies this
      ensures Valid()
      ensures taskId == old(nextTaskId) && nextTaskId == old(nextTaskId) + 1
      ensures tasks == old(tasks) +
        [Task(taskId, userId, data.title.value, data.description, data.category, data.dueDate, data.priority, false)]
      ensures TagState() == AddLinks(old(TagState()), taskId, userId, data.tags.GetOr([]))
      ensures old(Unlinked(nextTaskId)) ==>
        forall m :: Linked(TagState(), taskId, m) <==> m in data.tags.GetOr([])
      ensures users == old(users) && resetTokens == old(resetTokens)
      ensures nextUserId == old(nextUserId) && nextTokenId == old(nextTokenId)
    {
      taskId := nextTaskId;
      var row := Task(taskId, userId, data.title.value, data.description, data.category, data.dueDate, data.priority, false);
      var names := data.tags.GetOr([]);
      var t0 := TagState();
      var t := AddTaskTags(t0, taskId, userId, names);
      assert TagTablesValid(t) by {
        AddLinksFacts(t0, taskId, userId, names);
      }
      if Unlinked(taskId) {
        assert forall m :: Linked(t, taskId, m) <==> m in names by {
          AddLinksAttachesExactly(t0, taskId, userId, names);
        }
      }
      AppendTaskValid(tasks, nextTaskId, row);
      tasks := tasks + [row];
      nextTaskId := nextTaskId + 1;
      tags, taskTags, nextTagId := t.tags, t.links, t.nextTagId;
      assert TagState() == t;
    }

    /** `get_tasks`: the loop over the joined rows, one dictionary per task of the user. */
    method GetTasks(userId: int) returns (r: seq<TaskView>)
      ensures r == TaskViews(tasks, TagState(), userId)
    {
      r := [];
      var i := 0;
      while i < |tasks|
        invariant 0 <= i <= |tasks|
        invariant r == TaskViews(tasks[..i], TagState(), userId)
      {
        assert tasks[..i + 1][..i] == tasks[..i];
        if tasks[i].userId == userId {
          r := r + [View(TagState(), tasks[i])];
        }
        i := i + 1;
      }
      assert tasks[..i] == tasks;
    }

    /** `update_task`: overwrite the owned row, and when "tags" is a key, delete every link
        of the task id and insert one per name. A repeated name violates the primary key of
        `task_tags` (`sqlite3.Error`): the transaction rolls back and the result is False.
        Otherwise the result is the rowcount of the last statement. */
    method UpdateTask(taskId: int, userId: int, data: TaskData) returns (ok: bool)
      requires Valid() && data.title.Some?
      modifies this
      ensures Valid()
      ensures data.tags.Some? && !Distinct(data.tags.value) ==>
        !ok && tasks == old(tasks) && TagState() == old(TagState())
      ensures data.tags.None? ==> TagState() == old(TagState())
      ensures data.tags.Some? && Distinct(data.tags.value) ==>
        Some(TagState()) == ReplaceLinks(old(TagState()), taskId, userId, data.tags.value)
      ensures data.tags.None? || Distinct(data.tags.value) ==>
        tasks == UpdateRows(old(tasks), taskId, userId, data) &&
        ok == (UpdateRowcount(old(tasks), old(taskTags), taskId, userId, data.tags) > 0)
      ensures users == old(users) && resetTokens == old(resetTokens)
      ensures nextUserId == old(nextUserId) && nextTokenId == old(nextTokenId) && nextTaskId == old(nextTaskId)
    {
      var newTasks := UpdateRows(tasks, taskId, userId, data);
      assert TasksValid(newTasks, nextTaskId) by {
        UpdateRowsValid(tasks, nextTaskId, taskId, userId, data);
      }
      var rowcount := |tasks| - |RemoveTask(tasks, taskId, userId)|;
      var t := TagState();
      if data.tags.Some? {
        var names := data.tags.value;
        var r, rc := ReplaceTaskTags(t, taskId, userId, names);
        assert (r.Some? <==> Distinct(names)) && (r.Some? ==> TagTablesValid(r.value)) by {
          ReplaceLinksSpec(t, taskId, userId, names);
        }
        if r.None? {
          // sqlite3.Error: the transaction rolls back
          return false;
        }
        t, rowcount := r.value, rc;
      }
      tasks := newTasks;
      tags, taskTags, nextTagId := t.tags, t.links, t.nextTagId;
      ok := rowcount > 0;
    }

    /** `delete_task`: remove the owned row; True when a row was deleted. The task's
        `task_tags` rows are left in place. */
    method DeleteTask(taskId: int, userId: int) returns (ok: bool)
      requires Valid()
      modifies this
      ensures Valid()
      ensures tasks == RemoveTask(old(tasks), taskId, userId)
      ensures ok <==> old(Owns(tasks, taskId, userId))
      ensures !Owns(tasks, taskId, userId)
      ensures TagState() == old(TagState())
      ensures users == old(users) && resetTokens == old(resetTokens)
      ensures nextUserId == old(nextUserId) && nextTokenId == old(nextTokenId) && nextTaskId == old(nextTaskId)
    {
      var remaining := RemoveTask(tasks, taskId, userId);
      assert TasksValid(remaining, nextTaskId) && !Owns(remaining, taskId, userId) &&
        (Owns(tasks, taskId, userId) <==> |remaining| < |tasks|) by {
        RemoveTaskSpec(tasks, nextTaskId, taskId, userId);
      }
      ok := |tasks| - |remaining| > 0;
      tasks := remaining;
    }

    /** `create_password_reset_token`: None for an unknown email; otherwise store the
        token, owned by the user with that email, expiring 24 hours after `now`. The
        random token is a parameter, not yet present in the table. */
    method CreatePasswordResetToken(email: string, token: string, now: int) returns (r: Option<string>)
      requires Valid()
      requires forall i :: 0 <= i < |resetTokens| ==> resetTokens[i].token != token
      modifies this
      ensures Valid()
      ensures old(GetUserByEmail(email)).None? ==> r.None? && resetTokens == old(resetTokens) && nextTokenId == old(nextTokenId)
      ensures old(GetUserByEmail(email)).Some? ==> (r == Some(token) &&
        resetTokens == old(resetTokens) +
          [ResetToken(old(nextTokenId), old(GetUserByEmail(email)).value.id, token, now + TokenLifetime, false)] &&
        nextTokenId == old(nextTokenId) + 1)
      ensures old(GetUserByEmail(email)).Some? ==>
        (forall n :: n < now + TokenLifetime ==> VerifyResetToken(token, n) == Some(old(GetUserByEmail(email)).value.id)) &&
        (forall n :: n >= now + TokenLifetime ==> VerifyResetToken(token, n).None?)
      ensures users == old(users) && tasks == old(tasks) && TagState() == old(TagState())
      ensures nextUserId == old(nextUserId) && nextTaskId == old(nextTaskId)
    {
      var user := GetUserByEmail(email);
      if user.None? {
        return None;
      }
      var row := ResetToken(nextTokenId, user.value.id, token, now + TokenLifetime, false);
      AppendTokenValid(resetTokens, nextTokenId, row);
      var tokens := resetTokens + [row];
      resetTokens := tokens;
      nextTokenId := nextTokenId + 1;
      r := Some(token);
      forall n ensures VerifyResetToken(token, n) == if n < now + TokenLifetime then Some(row.userId) else None {
        AppendedTokenUsable(old(resetTokens), row, n);
        assert Usable(tokens[|tokens| - 1], token, n) <==> n < now + TokenLifetime;
      }
    }

    /** `verify_reset_token`: the owner of the first row carrying the token that has not
        expired at `now` and is not used. */
    function VerifyResetToken(token: string, now: int): (r: Option<int>)
      reads this
      ensures r.Some? <==> exists i :: 0 <= i < |resetTokens| && Usable(resetTokens[i], token, now)
      ensures r.Some? ==> exists i :: (0 <= i < |resetTokens| && Usable(resetTokens[i], token, now) &&
        resetTokens[i].userId == r.value)
    {
      match FirstIndex(resetTokens, (row: ResetToken) => Usable(row, token, now))
      case Some(i) => Some(resetTokens[i].userId)
      case None => None
    }

    /** `reset_password`: when the token is usable and its owner id is truthy (not 0),
        store the hash of the new password and mark the token used; else False. */
    method ResetPassword(token: string, newPassword: string, now: int) returns (ok: bool)
      requires Valid()
      modifies this
      ensures Valid()
      ensures ok <==> old(VerifyResetToken(token, now)).Some? && old(VerifyResetToken(token, now)).value != 0
      ensures ok ==> (users == SetPasswordHash(old(users), old(VerifyResetToken(token, now)).value, hash(newPassword)) &&
        resetTokens == MarkUsed(old(resetTokens), token))
      ensures !ok ==> users == old(users) && resetTokens == old(resetTokens)
      ensures ok ==> forall n :: VerifyResetToken(token, n).None?
      ensures tasks == old(tasks) && TagState() == old(TagState())
      ensures nextUserId == old(nextUserId) && nextTokenId == old(nextTokenId) && nextTaskId == old(nextTaskId)
    {
      var userId := VerifyResetToken(token, now);
      if userId.None? || userId.value == 0 {
        return false;
      }
      var newUsers := SetPasswordHash(users, userId.value, hash(newPassword));
      var newTokens := MarkUsed(resetTokens, token);
      SetPasswordHashValid(users, nextUserId, userId.value, hash(newPassword));
      MarkUsedValid(resetTokens, nextTokenId, token);
      users, resetTokens := newUsers, newTokens;
      ok := true;
      forall n ensures VerifyResetToken(token, n).None? {
        MarkUsedInvalidates(old(resetTokens), token, n);
      }
    }
  }

  /** Appending a row with the next id keeps the `tasks` constraints. */
  lemma AppendTaskValid(tasks: seq<Task>, nextId: int, task: Task)
    requires TasksValid(tasks, nextId) && task.id == nextId
    ensures TasksValid(tasks + [task], nextId + 1)
  {
  }

  /** Overwriting rows keeps their ids, so the `tasks` constraints still hold. */
  lemma UpdateRowsValid(tasks: seq<Task>, nextId: int, taskId: int, userId: int, data: TaskData)
    requires TasksValid(tasks, nextId) && data.title.Some?
    ensures TasksValid(UpdateRows(tasks, taskId, userId, data), nextId)
  {
    UpdateRowsKeeps(tasks, taskId, userId, data);
  }

  /** On a new database, `update_task` of a task id that does not exist yet reports True
      (the rowcount of its last `INSERT`) and leaves a link from that id to `name`. */
  method UpdateMissingTask(hash: string -> Hash, userId: int, title: string, name: string)
    returns (db: Database, updated: bool)
    ensures fresh(db) && db.Valid()
    ensures updated && db.tasks == [] && db.nextTaskId == 1
    ensures Linked(db.TagState(), 1, name)
  {
    db := new Database(hash);
    var empty := TagTables([], [], 1);
    var names := [name];
    ReplaceOnEmpty(userId, name);
    var data := TaskData(Some(title), None, None, None, None, Some(names));
    assert Distinct(names) && UpdateRowcount([], [], 1, userId, Some(names)) == 1;
    assert UpdateRows([], 1, userId, data) == [];
    updated := db.UpdateTask(1, userId, data);
    assert Some(db.TagState()) == ReplaceLinks(empty, 1, userId, names);
  }

  /** On empty tag tables, replacing the links of task 1 by one name succeeds and links it. */
  lemma ReplaceOnEmpty(userId: int, name: string)
    ensures var r := ReplaceLinks(TagTables([], [], 1), 1, userId, [name]);
      r.Some? && Linked(r.value, 1, name)
  {
    ReplaceLinksSpec(TagTables([], [], 1), 1, userId, [name]);
  }

  /** A new task can start with tags it was never given: after `UpdateMissingTask`, the
      first `add_task`, without tags, gets the task id 1 and carries `name`. */
  method StrayLinkOnNewTask(hash: string -> Hash, userId: int, title: string, name: string)
    returns (db: Database, updated: bool, taskId: int)
    ensures updated && taskId == 1 && |db.tasks| == 1 && db.tasks[0].id == taskId
    ensures Linked(db.TagState(), taskId, name)
  {
    db, updated := UpdateMissingTask(hash, userId, title, name);
    ghost var before := db.TagState();
    var plain := TaskData(Some(title), None, None, None, None, None);
    assert AddLinks(before, 1, userId, plain.tags.GetOr([])) == before;
    taskId := db.AddTask(userId, plain);
    assert db.TagState() == before;
  }
}
