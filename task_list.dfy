/** The decision logic of the Streamlit `TodoList` screen: the task record it shows,
    the list-view filter pipeline, the due-date styling of one task, and the calendar's
    month step and day selection. Dates are day numbers (`date.toordinal()`). */
module TaskList {
  import opened Optional
  import opened Strings
  import opened Sequences

  /** `TodoList.PRIORITY_LEVELS`. */
  datatype Priority = High | Medium | Low

  /** `TodoList.RECURRENCE_OPTIONS`: "None", "Daily", "Weekly", "Monthly". */
  datatype Recurrence = NoRecurrence | Daily | Weekly | Monthly

  /** One task dictionary as the screen reads it. `createdAt` is a timestamp in seconds. */
  datatype Item = Item(
    id: int, title: string, description: string, category: string, dueDate: Option<int>,
    priority: Priority, completed: bool, tags: seq<string>, recurrence: Recurrence, createdAt: int)

  /** The filter widgets of `show_list_view`: the category ("All" or a name), the priority
      (None for "All"), the selected tags, "Show Completed Tasks" and the search text. */
  datatype ListFilters = ListFilters(
    category: string, priority: Option<Priority>, tags: seq<string>, showCompleted: bool, query: string)

  // ---------------------------------------------------------------------------
  // the filter pipeline

  /** `task["category"] == selected_category` */
  function InCategory(category: string): Item -> bool {
    (t: Item) => t.category == category
  }

  /** `task["priority"] == selected_priority` */
  function HasPriority(p: Priority): Item -> bool {
    (t: Item) => t.priority == p
  }

  /** `any(tag in task["tags"] for tag in selected_tags)` */
  predicate SharesTag(t: Item, selected: seq<string>) {
    exists g :: g in selected && g in t.tags
  }

  function HasAnyTag(selected: seq<string>): Item -> bool {
    (t: Item) => SharesTag(t, selected)
  }

  /** `not task["completed"]` */
  function Open(): Item -> bool {
    (t: Item) => !t.completed
  }

  /** The search test: the lowered query occurs in the lowered title, description or category. */
  predicate MatchesQuery(t: Item, query: string) {
    Contains(Lower(t.title), Lower(query)) || Contains(Lower(t.description), Lower(query)) ||
    Contains(Lower(t.category), Lower(query))
  }

  function Searched(query: string): Item -> bool {
    (t: Item) => MatchesQuery(t, query)
  }

  /** A stage `if active: filtered_tasks = [task for task in filtered_tasks if p(task)]`. */
  function Stage(ts: seq<Item>, active: bool, p: Item -> bool): seq<Item> {
    if active then Filter(ts, p) else ts
  }

  /** The five stages of `show_list_view`, in the order the source applies them. */
  function FilterTasks(ts: seq<Item>, f: ListFilters): seq<Item> {
    var s1 := Stage(ts, f.category != "All", InCategory(f.category));
    var s2 := Stage(s1, f.priority.Some?, HasPriority(f.priority.GetOr(Medium)));
    var s3 := Stage(s2, f.tags != [], HasAnyTag(f.tags));
    var s4 := Stage(s3, !f.showCompleted, Open());
    Stage(s4, f.query != "", Searched(f.query))
  }

  /** A task passes every active filter. */
  predicate Matches(f: ListFilters, t: Item) {
    (f.category == "All" || t.category == f.category) &&
    (f.priority.None? || t.priority == f.priority.value) &&
    (f.tags == [] || SharesTag(t, f.tags)) &&
    (f.showCompleted || !t.completed) &&
    (f.query == "" || MatchesQuery(t, f.query))
  }

  function MatchesAll(f: ListFilters): Item -> bool {
    (t: Item) => Matches(f, t)
  }

  /** A stage is a filter by its test when active, and by nothing when not. */
  lemma StageIsFilter(ts: seq<Item>, active: bool, p: Item -> bool)
    ensures Stage(ts, active, p) == Filter(ts, (t: Item) => !active || p(t))
  {
    if active {
      FilterExt(ts, p, (t: Item) => !active || p(t));
    } else {
      FilterKeepsAll(ts, (t: Item) => !active || p(t));
    }
  }

  /** Applying one more stage adds its test to the combined filter. */
  lemma StageAfterFilter(ts: seq<Item>, q: Item -> bool, active: bool, p: Item -> bool, r: Item -> bool)
    requires forall t :: r(t) == (q(t) && (!active || p(t)))
    ensures Stage(Filter(ts, q), active, p) == Filter(ts, r)
  {
    StageIsFilter(Filter(ts, q), active, p);
    FilterFilter(ts, q, (t: Item) => !active || p(t));
    FilterExt(ts, (t: Item) => q(t) && (!active || p(t)), r);
  }

  /** The pipeline is one filter by "passes every active filter": the result keeps the
      tasks' order, holds only tasks passing every active filter, and holds every task
      of the input that does. */
  lemma FilterTasksSpec(ts: seq<Item>, f: ListFilters)
    ensures FilterTasks(ts, f) == Filter(ts, MatchesAll(f))
    ensures IsSubsequence(FilterTasks(ts, f), ts)
    ensures forall t :: t in FilterTasks(ts, f) <==> t in ts && Matches(f, t)
  {
    FilterTasksIsFilter(ts, f);
    FilterIsSubsequence(ts, MatchesAll(f));
  }

  /** The five stages compose, one test at a time, into the one filter. */
  lemma FilterTasksIsFilter(ts: seq<Item>, f: ListFilters)
    ensures FilterTasks(ts, f) == Filter(ts, MatchesAll(f))
  {
    var p1 := (t: Item) => f.category == "All" || t.category == f.category;
    var p2 := (t: Item) => p1(t) && (f.priority.None? || t.priority == f.priority.value);
    var p3 := (t: Item) => p2(t) && (f.tags == [] || SharesTag(t, f.tags));
    var p4 := (t: Item) => p3(t) && (f.showCompleted || !t.completed);
    StageIsFilter(ts, f.category != "All", InCategory(f.category));
    FilterExt(ts, (t: Item) => !(f.category != "All") || InCategory(f.category)(t), p1);
    StageAfterFilter(ts, p1, f.priority.Some?, HasPriority(f.priority.GetOr(Medium)), p2);
    StageAfterFilter(ts, p2, f.tags != [], HasAnyTag(f.tags), p3);
    StageAfterFilter(ts, p3, !f.showCompleted, Open(), p4);
    StageAfterFilter(ts, p4, f.query != "", Searched(f.query), MatchesAll(f));
  }

  // ---------------------------------------------------------------------------
  // due-date styling

  /** The CSS class `display_task` gives the due date. */
  datatype DueStyle = NoStyle | Overdue | DueToday | DueSoon {
    /** The class name written into the page. */
    function ClassName(): string {
      match this
      case NoStyle => ""
      case Overdue => "overdue"
      case DueToday => "due-today"
      case DueSoon => "due-soon"
    }

    /** How urgent the style reads: none, soon, today, overdue. */
    function Urgency(): nat {
      match this
      case NoStyle => 0
      case DueSoon => 1
      case DueToday => 2
      case Overdue => 3
    }
  }

  /** `due_date_style` of `display_task` on day `today`. */
  function StyleOf(t: Item, today: int): DueStyle
  {
    if !t.completed && t.dueDate.Some? then
      var due := t.dueDate.value;
      if due < today then Overdue
      else if due == today then DueToday
      else if due - today <= 3 then DueSoon
      else NoStyle
    else NoStyle
  }

  /** The style, case by case: none for a completed or undated task, otherwise by how
      many days remain. */
  lemma StyleOfSpec(t: Item, today: int)
    ensures t.completed || t.dueDate.None? ==> StyleOf(t, today) == NoStyle
    ensures !t.completed && t.dueDate.Some? ==>
      (StyleOf(t, today) == Overdue <==> t.dueDate.value < today) &&
      (StyleOf(t, today) == DueToday <==> t.dueDate.value == today) &&
      (StyleOf(t, today) == DueSoon <==> 1 <= t.dueDate.value - today <= 3) &&
      (StyleOf(t, today) == NoStyle <==> t.dueDate.value - today > 3)
  {
  }

  /** The class name written into the page, by the same cases: "overdue", "due-today"
      and "due-soon" by the days remaining on an open dated task, and "" otherwise. */
  lemma StyleClassSpec(t: Item, today: int)
    ensures var c := StyleOf(t, today).ClassName();
      (c == "overdue" <==> !t.completed && t.dueDate.Some? && t.dueDate.value < today) &&
      (c == "due-today" <==> !t.completed && t.dueDate.Some? && t.dueDate.value == today) &&
      (c == "due-soon" <==> !t.completed && t.dueDate.Some? && 1 <= t.dueDate.value - today <= 3) &&
      (c == "" <==> t.completed || t.dueDate.None? || t.dueDate.value - today > 3)
  {
    StyleOfSpec(t, today);
  }

  /** As the days pass, the style of a task only grows more urgent. */
  lemma StyleGrowsUrgent(t: Item, today: int, later: int)
    requires today <= later
    ensures StyleOf(t, today).Urgency() <= StyleOf(t, later).Urgency()
  {
  }

  // ---------------------------------------------------------------------------
  // the calendar view

  /** The months `show_calendar_view` can show. */
  datatype MonthOfYear = MonthOfYear(month: int, year: int) {
    /** Months counted from year 0, January: consecutive months differ by one. */
    function Index(): int {
      year * 12 + month - 1
    }
  }

  /** The "Previous Month" step. */
  function PreviousMonth(m: MonthOfYear): (r: MonthOfYear)
    requires 1 <= m.month <= 12
    ensures 1 <= r.month <= 12
    ensures r.Index() == m.Index() - 1
  {
    if m.month == 1 then MonthOfYear(12, m.year - 1) else MonthOfYear(m.month - 1, m.year)
  }

  /** The "Next Month" step. */
  function NextMonth(m: MonthOfYear): (r: MonthOfYear)
    requires 1 <= m.month <= 12
    ensures 1 <= r.month <= 12
    ensures r.Index() == m.Index() + 1
  {
    if m.month == 12 then MonthOfYear(1, m.year + 1) else MonthOfYear(m.month + 1, m.year)
  }

  /** The two steps undo each other. */
  lemma MonthStepsInverse(m: MonthOfYear)
    requires 1 <= m.month <= 12
    ensures NextMonth(PreviousMonth(m)) == m && PreviousMonth(NextMonth(m)) == m
  {
  }

  /** The month whose grid one run shows (`calendar.monthcalendar`): it starts from today's
      month on every run and then takes the "Previous Month" step, then the "Next Month"
      step, for the buttons clicked. The heading is drawn between the two steps, so after
      "Next Month" it still names the month before the grid's. */
  function ShownMonth(today: MonthOfYear, previous: bool, next: bool): (r: MonthOfYear)
    requires 1 <= today.month <= 12
    ensures 1 <= r.month <= 12
  {
    var m := if previous then PreviousMonth(today) else today;
    if next then NextMonth(m) else m
  }

  /** Because the month is recomputed from today on each run, the calendar never leaves
      the months around today's. */
  lemma ShownMonthNearToday(today: MonthOfYear, previous: bool, next: bool)
    requires 1 <= today.month <= 12
    ensures today.Index() - 1 <= ShownMonth(today, previous, next).Index() <= today.Index() + 1
    ensures ShownMonth(today, previous, previous) == today
  {
    if previous { MonthStepsInverse(today); }
  }

  /** `task["due_date"] == current_date` */
  function DueOn(date: int): Item -> bool {
    (t: Item) => t.dueDate == Some(date)
  }

  /** `day_tasks` of one calendar cell. */
  function DayTasks(ts: seq<Item>, date: int): seq<Item>
  {
    Filter(ts, DueOn(date))
  }

  /** A cell shows, in list order, exactly the tasks due that day; two cells share no task. */
  lemma DayTasksSpec(ts: seq<Item>, date: int, other: int)
    ensures IsSubsequence(DayTasks(ts, date), ts)
    ensures forall t :: t in DayTasks(ts, date) <==> t in ts && t.dueDate == Some(date)
    ensures date != other ==> forall t :: !(t in DayTasks(ts, date) && t in DayTasks(ts, other))
  {
    FilterIsSubsequence(ts, DueOn(date));
  }
}
