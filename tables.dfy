/** The rows of the five SQLite tables created by `Database.init_db`, their
    constraints, and the pure table-level steps the data layer performs on them.
    Every table keeps its rows in insertion order; `AUTOINCREMENT` ids are handed
    out from a counter and are never reused. */
module Tables {
  import opened Optional
  import opened Strings
  import opened Sequences

  /** The hex digest stored in `users.password_hash`. */
  type Hash = string

  /** A row of `users`. */
  datatype User = User(id: int, username: string, email: string, passwordHash: Hash, createdAt: int)

  /** A row of `password_reset_tokens`; `expiresAt` is in seconds on the same clock as `now`. */
  datatype ResetToken = ResetToken(id: int, userId: int, token: string, expiresAt: int, used: bool)

  /** A row of `tasks`. The table has no recurrence column, and `created_at` is never read back. */
  datatype Task = Task(
    id: int, userId: int, title: string, description: Option<string>, category: Option<string>,
    dueDate: Option<int>, priority: Option<string>, completed: bool)

  /** A row of `tags`. */
  datatype Tag = Tag(id: int, userId: int, name: string)

  /** A row of `task_tags`. */
  datatype TaskTag = TaskTag(taskId: int, tagId: int)

  /** The `task_data` dictionary given to `add_task` and `update_task`: a missing key is
      None. Keys such as "completed" or "recurrence" are never read by the data layer. */
  datatype TaskData = TaskData(
    title: Option<string>, description: Option<string>, category: Option<string>,
    dueDate: Option<int>, priority: Option<string>, tags: Option<seq<string>>)

  /** One dictionary of the list returned by `get_tasks`. */
  datatype TaskView = TaskView(
    id: int, title: string, description: Option<string>, category: Option<string>,
    dueDate: Option<int>, priority: Option<string>, completed: bool, tags: seq<string>)

  /** The dictionary returned by `get_user_by_id` and `get_user_by_email`: no hash. */
  datatype UserInfo = UserInfo(id: int, username: string, email: string, createdAt: int)

  /** A reset token is valid for 24 hours, counted in seconds. */
  const TokenLifetime: int := 24 * 60 * 60

  // ---------------------------------------------------------------------------
  // users

  /** `users`: AUTOINCREMENT ids, `UNIQUE` username, `UNIQUE` email. */
  ghost predicate UsersValid(users: seq<User>, nextId: int) {
    (forall i, j :: 0 <= i < j < |users| ==> users[i].id < users[j].id) &&
    (forall i :: 0 <= i < |users| ==> users[i].id < nextId) &&
    (forall i, j :: 0 <= i < j < |users| ==>
      users[i].username != users[j].username && users[i].email != users[j].email)
  }

  /** `(username = ? OR email = ?) AND password_hash = ?` */
  predicate CredentialsMatch(u: User, identifier: string, h: Hash) {
    (u.username == identifier || u.email == identifier) && u.passwordHash == h
  }

  /** `UPDATE users SET password_hash = ? WHERE id = ?` */
  function SetPasswordHash(users: seq<User>, userId: int, h: Hash): (r: seq<User>)
    ensures |r| == |users|
    ensures forall i :: 0 <= i < |users| ==>
      r[i] == if users[i].id == userId then users[i].(passwordHash := h) else users[i]
  {
    seq(|users|, i requires 0 <= i < |users| =>
      if users[i].id == userId then users[i].(passwordHash := h) else users[i])
  }

  /** Changing a hash keeps every id, username and email, so the constraints still hold. */
  lemma SetPasswordHashValid(users: seq<User>, nextId: int, userId: int, h: Hash)
    requires UsersValid(users, nextId)
    ensures UsersValid(SetPasswordHash(users, userId, h), nextId)
  {
  }

  // ---------------------------------------------------------------------------
  // password_reset_tokens

  /** `password_reset_tokens`: AUTOINCREMENT ids, `UNIQUE` token. */
  ghost predicate TokensValid(tokens: seq<ResetToken>, nextId: int) {
    (forall i, j :: 0 <= i < j < |tokens| ==> tokens[i].id < tokens[j].id) &&
    (forall i :: 0 <= i < |tokens| ==> tokens[i].id < nextId) &&
    (forall i, j :: 0 <= i < j < |tokens| ==> tokens[i].token != tokens[j].token)
  }

  /** `token = ? AND expires_at > ? AND used = FALSE` */
  predicate Usable(r: ResetToken, token: string, now: int) {
    r.token == token && r.expiresAt > now && !r.used
  }

  /** `UPDATE password_reset_tokens SET used = TRUE WHERE token = ?` */
  function MarkUsed(tokens: seq<ResetToken>, token: string): (r: seq<ResetToken>)
    ensures |r| == |tokens|
    ensures forall i :: 0 <= i < |tokens| ==>
      r[i] == if tokens[i].token == token then tokens[i].(used := true) else tokens[i]
  {
    seq(|tokens|, i requires 0 <= i < |tokens| =>
      if tokens[i].token == token then tokens[i].(used := true) else tokens[i])
  }

  /** Marking keeps every id and token, so the constraints still hold. */
  lemma MarkUsedValid(tokens: seq<ResetToken>, nextId: int, token: string)
    requires TokensValid(tokens, nextId)
    ensures TokensValid(MarkUsed(tokens, token), nextId)
  {
  }

  /** After marking, no row carrying that token is usable at any time. */
  lemma MarkUsedInvalidates(tokens: seq<ResetToken>, token: string, now: int)
    ensures forall i :: 0 <= i < |tokens| ==> !Usable(MarkUsed(tokens, token)[i], token, now)
  {
  }

  /** Appending a row with the next id and a new token keeps the constraints. */
  lemma AppendTokenValid(tokens: seq<ResetToken>, nextId: int, row: ResetToken)
    requires TokensValid(tokens, nextId) && row.id == nextId
    requires forall i :: 0 <= i < |tokens| ==> tokens[i].token != row.token
    ensures TokensValid(tokens + [row], nextId + 1)
  {
  }

  /** After appending a row with a new token, that row is the only one carrying it, so
      the token is usable exactly while that row is. */
  lemma AppendedTokenUsable(tokens: seq<ResetToken>, row: ResetToken, now: int)
    requires forall i :: 0 <= i < |tokens| ==> tokens[i].token != row.token
    ensures forall i :: 0 <= i < |tokens + [row]| ==>
      (Usable((tokens + [row])[i], row.token, now) <==> i == |tokens| && row.expiresAt > now && !row.used)
  {
  }

  // ---------------------------------------------------------------------------
  // tasks

  /** `tasks`: AUTOINCREMENT ids. */
  ghost predicate TasksValid(tasks: seq<Task>, nextId: int) {
    (forall i, j :: 0 <= i < j < |tasks| ==> tasks[i].id < tasks[j].id) &&
    (forall i :: 0 <= i < |tasks| ==> tasks[i].id < nextId)
  }

  /** `WHERE id = ? AND user_id = ?` */
  predicate IsOwnedTask(t: Task, taskId: int, userId: int) {
    t.id == taskId && t.userId == userId
  }

  /** Some row matches `(taskId, userId)`. */
  predicate Owns(tasks: seq<Task>, taskId: int, userId: int) {
    exists i :: 0 <= i < |tasks| && IsOwnedTask(tasks[i], taskId, userId)
  }

  /** The `SET title = ?, description = ?, category = ?, due_date = ?, priority = ?` of
      `update_task`: a missing key writes NULL; `completed` is not in the list. */
  function Overwrite(t: Task, data: TaskData): Task
    requires data.title.Some?
  {
    t.(title := data.title.value, description := data.description, category := data.category,
       dueDate := data.dueDate, priority := data.priority)
  }

  /** The `UPDATE tasks ... WHERE id = ? AND user_id = ?` of `update_task`. */
  function UpdateRows(tasks: seq<Task>, taskId: int, userId: int, data: TaskData): (r: seq<Task>)
    requires data.title.Some?
    ensures |r| == |tasks|
    ensures forall i :: 0 <= i < |tasks| ==>
      r[i] == if IsOwnedTask(tasks[i], taskId, userId) then Overwrite(tasks[i], data) else tasks[i]
  {
    seq(|tasks|, i requires 0 <= i < |tasks| =>
      if IsOwnedTask(tasks[i], taskId, userId) then Overwrite(tasks[i], data) else tasks[i])
  }

  /** `update_task` never touches a row's id, owner or `completed`, whatever it is given. */
  lemma UpdateRowsKeeps(tasks: seq<Task>, taskId: int, userId: int, data: TaskData)
    requires data.title.Some?
    ensures forall i :: 0 <= i < |tasks| ==>
      var r := UpdateRows(tasks, taskId, userId, data)[i];
      r.id == tasks[i].id && r.userId == tasks[i].userId && r.completed == tasks[i].completed
  {
  }

  /** The test `DELETE FROM tasks WHERE id = ? AND user_id = ?` keeps a row by. */
  function NotOwned(taskId: int, userId: int): Task -> bool {
    (t: Task) => !IsOwnedTask(t, taskId, userId)
  }

  /** The rows `DELETE FROM tasks WHERE id = ? AND user_id = ?` leaves behind. */
  function RemoveTask(tasks: seq<Task>, taskId: int, userId: int): (r: seq<Task>)
  {
    Filter(tasks, NotOwned(taskId, userId))
  }

  /** Deleting removes exactly the matching row: every other row stays, in order, the
      ids stay increasing, and no row matches afterwards. */
  lemma RemoveTaskSpec(tasks: seq<Task>, nextId: int, taskId: int, userId: int)
    requires TasksValid(tasks, nextId)
    ensures var r := RemoveTask(tasks, taskId, userId);
      TasksValid(r, nextId) && IsSubsequence(r, tasks) && !Owns(r, taskId, userId) &&
      (forall t :: t in tasks && !IsOwnedTask(t, taskId, userId) ==> t in r) &&
      (Owns(tasks, taskId, userId) <==> |r| < |tasks|)
  {
    var p := NotOwned(taskId, userId);
    var r := Filter(tasks, p);
    FilterIsSubsequence(tasks, p);
    FilterKeepsIncreasing(tasks, nextId, p);
    forall i | 0 <= i < |r| ensures !IsOwnedTask(r[i], taskId, userId) {
      assert r[i] in r;
    }
    if Owns(tasks, taskId, userId) {
      var i :| 0 <= i < |tasks| && IsOwnedTask(tasks[i], taskId, userId);
      FilterMissesOne(tasks, p, i);
    } else {
      FilterKeepsAll(tasks, p);
    }
  }

  /** Filtering a table with increasing ids keeps them increasing. */
  lemma {:induction false} FilterKeepsIncreasing(tasks: seq<Task>, nextId: int, p: Task -> bool)
    requires TasksValid(tasks, nextId)
    ensures TasksValid(Filter(tasks, p), nextId)
    decreases |tasks|
  {
    if tasks != [] {
      var init, last := tasks[..|tasks| - 1], tasks[|tasks| - 1];
      FilterKeepsIncreasing(init, nextId, p);
      var f := Filter(init, p);
      if p(last) {
        var r := f + [last];
        forall i, j | 0 <= i < j < |r| ensures r[i].id < r[j].id {
          if j == |f| {
            assert r[i] in init;
            var k :| 0 <= k < |init| && init[k] == r[i];
            assert tasks[k] == r[i];
          }
        }
        forall i | 0 <= i < |r| ensures r[i].id < nextId {
          if i < |f| { assert r[i] in init; }
        }
      } else {
        forall i | 0 <= i < |f| ensures f[i].id < nextId { assert f[i] in init; }
      }
    }
  }
}
