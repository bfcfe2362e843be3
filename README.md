# To-Do App: a Dafny model of the data layer and the screen logic

This project models the core of the To-Do App, a Streamlit to-do list backed by SQLite, in two parts.

**The data layer (`database.py`).** This is the `Database` class. Its five SQLite tables become fields of a Dafny class, each a sequence of rows in insertion order: `users`, `password_reset_tokens`, `tasks`, `tags` and `task_tags`. Each `AUTOINCREMENT` counter is also a field. The model covers every public operation:
- accounts: `create_user`, `verify_user`, `get_user_by_id`, `get_user_by_email`;
- tasks and tags: `get_all_tags`, `add_task`, `get_tasks`, `update_task`, `delete_task`;
- the reset-token lifecycle: `create_password_reset_token`, `verify_reset_token`, `reset_password`.

**How the data layer is modelled.**
- The constraints `init_db` declares become the class invariant `Valid()`: increasing ids below the counter, `UNIQUE` usernames, emails and tokens, `UNIQUE(user_id, name)` on tags, and the `(task_id, tag_id)` primary key on links.
- The model runs operations one at a time, each as one atomic step. An exception that `with conn` rolls back leaves the fields unchanged.
- The two tag loops in the source (`add_task` and `update_task`) are methods over the tag tables as a value. Each is proved equal to a recursive function, and the properties are lemmas about that function.
- The model follows the code as written, including its edge cases:
  - `update_task` deletes the task's links by `task_id` alone, so it also does this for a task of another user.
  - `update_task` never writes `completed`.
  - A repeated tag name in `update_task` hits the primary key, so the update rolls back and returns False.
  - `update_task` returns the rowcount of its *last* statement.
  - `delete_task` leaves the task's `task_tags` rows behind.
  - `reset_password` treats an owner id of 0 as failure (`if not user_id`).
  - Tag names go through `GROUP_CONCAT` and `split(",")`. A name with a comma comes back as two tags, and a lone empty name comes back as none.

**The screen logic (`todo_app_streamlit.py`).** These parts are modelled on task records, with dates as day numbers:
- the list view's five-stage filter pipeline;
- its three stable in-place sorts (an insertion sort over an `array`);
- the due-date CSS class;
- `process_recurring_tasks`, as a session object whose task list the method extends;
- the calendar's month step and the tasks of one day;
- the registration tab's three checks before `create_user`.

**Two consequences of the code as written.**
- `delete_task` leaves the task's `task_tags` rows in place (database.py:316-318).
- `add_task` for an unknown user id succeeds. SQLite enforces foreign keys only after `PRAGMA foreign_keys = ON`, which database.py never issues.

**Dead code.** Nothing in todo_app_streamlit.py calls `process_recurring_tasks`, and `st.session_state.tasks` is never assigned there (only lines 316, 327 and 333 read or extend it). The model describes the method as written.

## Model

| member | source | states |
|---|---|---|
| Tables.SetPasswordHashValid | database.py:380-383 | `UPDATE users SET password_hash` keeps every id, username and email, so the `users` constraints still hold |
| Tables.MarkUsedValid | database.py:386-389 | marking a token used keeps ids and tokens, so the `password_reset_tokens` constraints still hold |
| Tables.MarkUsedInvalidates | database.py:386-389 | after `SET used = TRUE WHERE token = ?` no row carrying that token is usable at any time |
| Tables.AppendTokenValid | database.py:341-347 | inserting a token row with the next id and a new token keeps the `UNIQUE` token and id constraints |
| Tables.AppendedTokenUsable | database.py:341-347 | after inserting a row with a new token, that row is the only one that can match `token = ?` |
| Tables.UpdateRows | database.py:266-281 | the `UPDATE ... WHERE id = ? AND user_id = ?` overwrites title, description, category, due date and priority (a missing key writes NULL) on the matching rows only |
| Tables.UpdateRowsKeeps | database.py:268-270 | `update_task` never changes a row's id, owner or `completed` |
| Tables.RemoveTaskSpec | database.py:316-321 | `DELETE FROM tasks WHERE id = ? AND user_id = ?` keeps every other row in order, keeps ids increasing, leaves no matching row, and shrinks the table exactly when a row matched |
| Tables.FilterKeepsIncreasing | database.py:51-53 | removing rows keeps `AUTOINCREMENT` ids increasing |
| TagLinks.TagIdOf | database.py:216-220 | `SELECT id FROM tags WHERE user_id = ? AND name = ?` finds a row exactly when one matches, and its id belongs to a matching row |
| TagLinks.TagNames | database.py:179-187 | `get_all_tags` lists a name exactly when the user has a tag row of that name |
| TagLinks.TagNamesDistinct | database.py:179-187 | under `UNIQUE(user_id, name)` the names `get_all_tags` returns are distinct |
| TagLinks.TagIdOfRow | database.py:216-220 | under `UNIQUE(user_id, name)` the lookup returns the id of the one matching row |
| TagLinks.TagIdOfInjective | database.py:66-74 | two names of one user never resolve to the same tag id |
| TagLinks.TagIdOfStable | database.py:212-220 | once a (user, name) row exists, later inserts never change what the name resolves to |
| TagLinks.GetOrCreateTagSpec | database.py:212-220 | `INSERT OR IGNORE INTO tags` then `SELECT id` keeps the constraints, leaves links alone, reuses an existing row unchanged or creates one with the next id, and the name then resolves to the returned id |
| TagLinks.NewTagRow | database.py:212-215 | the insert branch of get-or-create keeps the constraints and the new row is the one the name resolves to |
| TagLinks.LinkedAfter | database.py:210-226 | after linking the listed names to a task, each listed name is attached to it, it gains no other name, and every other task keeps exactly its names |
| TagLinks.AddLinksSpec | database.py:210-226 | `add_task`'s tag loop keeps every table constraint and links each listed name to the task through its one (user, name) tag row; every new link is one of those |
| TagLinks.AddLinksFacts | database.py:189-229 | after `add_task`'s loop, every listed name is in `get_all_tags(user_id)` and attached to the task; the task gains no other name; every other task keeps its names |
| TagLinks.AddTaskTags | database.py:210-226 | the loop of `add_task`, statement by statement, computes the tag tables `AddLinks` describes |
| TagLinks.AddLinksAttachesExactly | database.py:210-226 | for a task with no earlier links, the attached names are exactly the listed ones, a repeated name linked once, and other tasks are untouched |
| TagLinks.InsertLinksFailed | database.py:302-310 | once one plain `INSERT INTO task_tags` fails, the whole loop fails |
| TagLinks.UnlinkTaskSpec | database.py:286-289 | `DELETE FROM task_tags WHERE task_id = ?` keeps the constraints, removes every link of that task id whoever owns it, and leaves every other task's names unchanged |
| TagLinks.StrictStepFails | database.py:302-305 | a plain insert of the link for `x` fails exactly when `x` was already listed earlier in the loop |
| TagLinks.InsertLinksSpec | database.py:292-305 | on a task without links, the strict loop succeeds exactly when the names are distinct, and then links each name |
| TagLinks.ReplaceTaskTags | database.py:284-308 | the delete-then-insert branch of `update_task` computes `ReplaceLinks` and the rowcount of its last statement: the DELETE's count for an empty list, else 1 |
| TagLinks.ReplaceLinksSpec | database.py:284-305 | replacing the links succeeds exactly when the names are distinct; then the task carries exactly those names and every other task keeps its names |
| Views.TagName | database.py:241 | the join `tt.tag_id = tg.id` finds a name exactly when a tag row has the id |
| Views.TagNameOfRow | database.py:241 | with unique tag ids, the join finds the row carrying the id |
| Views.NamesOfLinks | database.py:237-243 | a name is in a task's group exactly when a link of that task points at a tag row of that name |
| Views.LinkedNamesSpec | database.py:237-243 | on valid tables, a task's group holds exactly the names attached to it |
| Views.GroupConcat | database.py:238 | `GROUP_CONCAT` is NULL exactly for a group without names |
| Views.SplitTags | database.py:257 | NULL and "" both give no tags; any other text is split on "," |
| Views.TaskViews | database.py:231-259 | `get_tasks` returns a dictionary for a task exactly when its `user_id` matches, and never more dictionaries than rows |
| Views.TaskViewsCount | database.py:231-259 | there is exactly one dictionary per task row of the user, in table order: the `i`-th is the view of the user's `i`-th row |
| Views.ViewTagsClean | database.py:238-257 | when tag names are non-empty and free of commas, the returned tag list is the task's group, with exactly the attached names |
| Views.CommaNameSplits | database.py:238-257 | a tag named "a,b" is returned as the two tags "a" and "b" |
| Views.EmptyNameVanishes | database.py:257 | a task whose only tag is named "" is returned with no tags although it is linked |
| Strings.SplitJoinRoundTrip | database.py:238-257 | joining by "," then splitting on "," gives back names that hold no comma |
| Strings.JoinCommaEmpty | database.py:238-257 | the joined text is empty only for the single empty name |
| Strings.CommaBreaksRoundTrip | database.py:238-257 | ["a,b"] comes back from the join and split as ["a", "b"] |
| TodoDatabase.UpdateRowcount | database.py:308 | the rowcount `update_task` reports is the last statement's: the UPDATE's with no "tags" key, the DELETE's with an empty list, the last INSERT's (1) otherwise |
| TodoDatabase.UpdateRowcountMeaning | database.py:284-308 | `update_task`'s True means the user owns the task (no "tags" key), or the task id had links (empty list), or nothing at all (non-empty list) |
| TodoDatabase.AppendTaskValid | database.py:193-207 | inserting a task row with the next id keeps the `tasks` constraints |
| TodoDatabase.UpdateRowsValid | database.py:266-281 | overwriting rows keeps the `tasks` constraints |
| TodoDatabase.Database.constructor | database.py:14-85 | a database on a new file has five empty tables, all counters at 1, and satisfies the constraints |
| TodoDatabase.Database.CreateUser | database.py:93-112 | `create_user` returns True exactly when neither the username nor the email is taken; then it appends one user with the next id and the password's hash, after which `verify_user` accepts both the username and the email; otherwise nothing changes |
| TodoDatabase.Database.VerifyUser | database.py:114-130 | an id comes back exactly when some user's username or email is the identifier and its hash is the password's; it is the id of the first such row |
| TodoDatabase.Database.GetUserById | database.py:135-156 | None exactly when no row has the id; otherwise that row without its hash |
| TodoDatabase.Database.GetUserByEmail | database.py:161-177 | None exactly when no row has the email; otherwise that row without its hash |
| TodoDatabase.Database.AddTask | database.py:189-229 | `add_task` returns the next task id, appends one open row owned by the user with the given fields, and leaves the tag tables as `add_task`'s loop does (`AddLinks`); when no link names the new id yet, the task's names are exactly the listed ones |
| TodoDatabase.Database.GetTasks | database.py:231-259 | the loop over the joined rows returns `TaskViews`: one dictionary per task of the user |
| TodoDatabase.Database.UpdateTask | database.py:261-310 | a repeated tag name rolls the whole update back and returns False; otherwise the matching row is overwritten, the links are replaced when "tags" is a key and untouched when it is not, and the result is the last statement's rowcount |
| TodoDatabase.Database.DeleteTask | database.py:312-321 | removes only the row matching (id, user); True exactly when one existed; afterwards none matches, so a repeat returns False; tags and links unchanged |
| TodoDatabase.Database.CreatePasswordResetToken | database.py:323-350 | None and no insert for an unknown email; otherwise one unused token row of that user expiring 24 hours after `now`, which then verifies before expiry and not from then on |
| TodoDatabase.Database.VerifyResetToken | database.py:352-366 | an owner comes back exactly when some row carries the token, is unused and has `expires_at > now`; it is that row's owner |
| TodoDatabase.Database.ResetPassword | database.py:368-392 | True exactly when the token verifies to a nonzero owner; then the owner's hash becomes the new password's and the token is marked used, so it never verifies again; otherwise nothing changes |
| TodoDatabase.UpdateMissingTask | database.py:284-308 | on a new database, `update_task` of a task id not issued yet reports True and leaves that id linked to the name |
| TodoDatabase.ReplaceOnEmpty | database.py:284-305 | on empty tag tables, replacing task 1's links by one name succeeds and links it |
| TodoDatabase.StrayLinkOnNewTask | database.py:189-229 | after that update, the first task `add_task` creates, given no tags, has id 1 and carries the name |
| TaskList.StageIsFilter | todo_app_streamlit.py:195-210 | an inactive stage keeps the list, an active one filters by its test |
| TaskList.StageAfterFilter | todo_app_streamlit.py:195-210 | applying one more stage adds its test to the filter so far |
| TaskList.FilterTasksIsFilter | todo_app_streamlit.py:193-210 | the five stages together are one filter by "passes every active filter" |
| TaskList.FilterTasksSpec | todo_app_streamlit.py:193-210 | the filtered list is a subsequence of the tasks, and holds a task exactly when it is in the input and passes every active filter (category, priority, shared tag, open, lowered query in title, description or category) |
| TaskList.StyleOfSpec | todo_app_streamlit.py:250-259 | no class for a completed or undated task; otherwise "overdue" exactly when due < today, "due-today" when due = today, "due-soon" when 1 <= due - today <= 3, and none beyond |
| TaskList.StyleClassSpec | todo_app_streamlit.py:250-259 | the class name written is "overdue", "due-today" or "due-soon" exactly by those day counts on an open dated task, and "" otherwise |
| TaskList.StyleGrowsUrgent | todo_app_streamlit.py:250-259 | as days pass, a task's style only grows more urgent |
| TaskList.PreviousMonth | todo_app_streamlit.py:131-136 | the "Previous Month" step stays in 1..12 and goes back exactly one month, wrapping January to December of the year before |
| TaskList.NextMonth | todo_app_streamlit.py:140-145 | the "Next Month" step stays in 1..12 and goes forward exactly one month, wrapping December to January of the next year |
| TaskList.MonthStepsInverse | todo_app_streamlit.py:131-145 | the two steps undo each other |
| TaskList.ShownMonth | todo_app_streamlit.py:124-148 | the month whose grid one run shows is always a month number in 1..12 (the heading, drawn before the "Next Month" step, may name the month before) |
| TaskList.ShownMonthNearToday | todo_app_streamlit.py:124-145 | because every run starts from today's month, the calendar never shows a month more than one away from today's, and clicking both buttons shows today's |
| TaskList.DayTasksSpec | todo_app_streamlit.py:164-165 | a calendar cell shows, in list order, exactly the tasks due that day, and two different days share no task |
| TaskSort.InsertPermutes | todo_app_streamlit.py:213-219 | inserting adds exactly the one element |
| TaskSort.SortedByPermutes | todo_app_streamlit.py:213-219 | each sort is a permutation of its input |
| TaskSort.InsertSorted | todo_app_streamlit.py:213-219 | inserting into a sorted list keeps it sorted |
| TaskSort.SortedBySorted | todo_app_streamlit.py:213-219 | each sort leaves the keys non-decreasing |
| TaskSort.InsertStable | todo_app_streamlit.py:213-219 | an inserted element lands after every element with its key |
| TaskSort.InsertStableStep | todo_app_streamlit.py:213-219 | moving left past a greater key keeps the order among equal keys |
| TaskSort.SortedByStable | todo_app_streamlit.py:213-219 | each sort is stable: the tasks sharing any one key keep their relative order |
| TaskSort.SortedMeaning | todo_app_streamlit.py:213-219 | sorted by "Due Date", every dated task precedes every undated one and dates do not decrease; by "Priority", High before Medium before Low; otherwise creation times do not decrease |
| TaskSort.SortTasks | todo_app_streamlit.py:213-219 | the in-place sort leaves the array holding `SortedBy` of its old contents |
| TaskSort.InsertAt | todo_app_streamlit.py:213-219 | one pass of the in-place sort inserts `a[i]` into the sorted prefix and leaves the rest of the array alone |
| TaskSort.ShiftGreater | todo_app_streamlit.py:213-219 | the shifting loop of one pass moves exactly the greater-keyed suffix of the prefix one place right |
| TaskSort.InsertAfterSmaller | todo_app_streamlit.py:213-219 | the element lands right after the last element whose key is not greater |
| Recurring.InstancesSpec | todo_app_streamlit.py:316-331 | there is one new instance per spawning task, in list order; the k-th is a copy of its task with id `len(tasks) + k + 1`, open, due on the next date and created `now` |
| Recurring.InstancesFacts | todo_app_streamlit.py:316-331 | new ids run consecutively, every instance is open with a due date of today or later and is a copy of a completed recurring task, and when no task spawns nothing is added |
| Recurring.TodoSession.ProcessRecurringTasks | todo_app_streamlit.py:311-333 | the existing tasks are unchanged and the new instances are appended at the end |
| Recurring.TodoSession.constructor | todo_app_streamlit.py:316 | the session holds the given task list |
| Registration.CheckRegistrationSpec | todo_app_streamlit.py:380-390 | the form passes exactly when all three fields are filled, the passwords agree and the email holds both '@' and '.'; otherwise the first failing check, in that order, names the error |
| Registration.Register | todo_app_streamlit.py:379-398 | a failed check is reported and changes nothing; a passing form calls `create_user`, and reports success exactly when the username and email are free, appending the one user; when they are taken the users and their counter stay as they were; the tasks, tags, links, tokens and their counters never change |

## Left out

- Streamlit rendering (CSS, markdown, columns, buttons, forms, tabs, reruns, query parameters), `st.session_state` caching and the login/logout flow are UI. Only the decisions listed above are modelled.
- TodoDatabase.Database.ResetPassword: its promise that a used token never verifies again holds for calls made one after another only. Concurrent sessions are not modelled. `reset_password` checks the token through `verify_reset_token`, which opens a connection of its own (database.py:374, 354), so the check runs outside the transaction of the UPDATEs (database.py:380-389). Two sessions presenting the same token can both pass the check and both reset the password.
- Connections, cursors, logging and the DDL itself are I/O. The tables are fields, and the DDL's constraints are the invariant `Valid()`.
- SHA-256 is the uninterpreted function `hash`, given to the constructor. `secrets.token_urlsafe` is the `token` parameter. `datetime.now()` and `date.today()` are the `now` and `today` parameters.
- `init_db` on an existing database file (`CREATE TABLE IF NOT EXISTS` keeping old rows) is not modelled. The constructor starts from empty tables.
- The order of rows without `ORDER BY`, and the order in which `GROUP_CONCAT` sees a group's rows, are not specified by SQLite. The model uses insertion order and link order.
- The model lowers ASCII letters only, where Python's `str.lower()` maps all of Unicode. Unicode case mapping is not modelled.
- Priorities and recurrences are the app's fixed options as datatypes. Another string would raise `KeyError` in the priority sort. In `process_recurring_tasks` it would reuse the `next_due` of the last earlier task that set one (todo_app_streamlit.py:317-325), or raise `UnboundLocalError` when none did. Neither case is modelled.
- The screen reads `description` and `category` as strings, although the database may hold NULL, on which `.lower()` would raise; this case is not modelled.
- `get_tasks` does not select `created_at` or `recurrence`, which the screen reads. It also returns `due_date` as ISO text, because `sqlite3.connect` is called without `detect_types` (database.py:233, 254). On real data the screen's `due_date < today` (todo_app_streamlit.py:254) would raise `TypeError`, and the calendar's `task["due_date"] == current_date` (todo_app_streamlit.py:165) would never hold. The screen's record type (`TaskList.Item`, with dates as day numbers) is modelled apart from the database view (`Tables.TaskView`), and the two are not connected.
- `strftime` formatting is not modelled.
- The calendar's day cells from `calendar.monthcalendar` are not modelled. Only the month step and the selection of one day's tasks are.
- TodoDatabase.Database.AddTask: requires a title. The source reads `task_data["title"]` and would raise `KeyError` without one.
- TodoDatabase.Database.UpdateTask: requires a title, for the same reason. One caller, `mark_completed`, passes only `{"completed": True}`. That call raises `KeyError` inside `update_task`'s `try`, which catches only `sqlite3.Error`, so the error reaches the screen.
- TodoDatabase.Database.CreatePasswordResetToken: requires the token to be new to the table. The source relies on 32 random bytes for that, and a clash would raise `IntegrityError`.
- TodoDatabase.Database.AddTask: the facts about the attached names are stated by `TagLinks.AddLinksFacts` about `AddLinks`. The method's own contract adds only the exact-names promise for a task id without earlier links (see Findings).
- Recurring.TodoSession.ProcessRecurringTasks: requires every completed recurring task to have a due date. The source adds a `timedelta` to `task["due_date"]`, which raises `TypeError` on None.
- `verify_user` matches the identifier against usernames and emails alike. It can therefore return the id of another user whose email equals this user's username; the model keeps this behaviour (first matching row).

## Findings

| source | as written | input that shows it | evidently intended | confidence | as-written member | corrected member |
|---|---|---|---|---|---|---|
| database.py:284-308 | `update_task` deletes and inserts `task_tags` rows by `task_id` without checking that the task exists or is the user's, and reports the INSERT's rowcount; foreign keys are not enforced | on a new database, `update_task(1, 7, {"title": "t", "tags": ["x"]})` returns True; then `add_task(7, {"title": "t"})` returns 1, and task 1 carries the tag "x" | a new task carries exactly the tags it was given | not executed | TodoDatabase.StrayLinkOnNewTask | TodoDatabase.Database.AddTask |
