/** The three orders of the list view, each an in-place `list.sort(key=...)`. Python's
    sort is stable, so the model is a stable insertion sort: the array method below does
    it in place, and the function it is proved against carries the properties. */
module TaskSort {
  import opened Sequences
  import opened TaskList

  /** The "Sort By" choice: "Due Date", "Priority", or anything else ("Created Date"). */
  datatype SortOrder = ByDueDate | ByPriority | ByCreated

  /** `priority_order = {"High": 0, "Medium": 1, "Low": 2}` */
  function Rank(p: Priority): int {
    match p
    case High => 0
    case Medium => 1
    case Low => 2
  }

  /** The sort key, as a pair compared like a Python tuple. For "Due Date" the key
      `(due_date is None, due_date)` puts every dated task (False) before every undated one. */
  function Key(o: SortOrder, t: Item): (int, int) {
    match o
    case ByDueDate => if t.dueDate.Some? then (0, t.dueDate.value) else (1, 0)
    case ByPriority => (Rank(t.priority), 0)
    case ByCreated => (t.createdAt, 0)
  }

  /** Tuple order: `a <= b`. */
  predicate KeyLe(a: (int, int), b: (int, int)) {
    a.0 < b.0 || (a.0 == b.0 && a.1 <= b.1)
  }

  /** The keys never decrease along the list. */
  predicate Sorted(s: seq<Item>, o: SortOrder) {
    forall i, j :: 0 <= i < j < |s| ==> KeyLe(Key(o, s[i]), Key(o, s[j]))
  }

  /** Put `x` into sorted `s` after every element whose key is not greater than its own. */
  function Insert(s: seq<Item>, x: Item, o: SortOrder): seq<Item>
    decreases |s|
  {
    if s == [] || KeyLe(Key(o, s[|s| - 1]), Key(o, x)) then s + [x]
    else Insert(s[..|s| - 1], x, o) + [s[|s| - 1]]
  }

  /** The list after `filtered_tasks.sort(key=...)`. */
  function SortedBy(s: seq<Item>, o: SortOrder): seq<Item>
    decreases |s|
  {
    if s == [] then [] else Insert(SortedBy(s[..|s| - 1], o), s[|s| - 1], o)
  }

  /** Inserting adds exactly the one element. */
  lemma {:induction false} InsertPermutes(s: seq<Item>, x: Item, o: SortOrder)
    ensures multiset(Insert(s, x, o)) == multiset(s) + multiset{x}
    decreases |s|
  {
    if !(s == [] || KeyLe(Key(o, s[|s| - 1]), Key(o, x))) {
      InsertPermutes(s[..|s| - 1], x, o);
      assert s == s[..|s| - 1] + [s[|s| - 1]];
    }
  }

  /** Sorting permutes the list. */
  lemma {:induction false} SortedByPermutes(s: seq<Item>, o: SortOrder)
    ensures multiset(SortedBy(s, o)) == multiset(s)
    decreases |s|
  {
    if s != [] {
      SortedByPermutes(s[..|s| - 1], o);
      InsertPermutes(SortedBy(s[..|s| - 1], o), s[|s| - 1], o);
      assert s == s[..|s| - 1] + [s[|s| - 1]];
    }
  }

  /** Inserting into a sorted list keeps it sorted. */
  lemma {:induction false} InsertSorted(s: seq<Item>, x: Item, o: SortOrder)
    requires Sorted(s, o)
    ensures Sorted(Insert(s, x, o), o)
    decreases |s|
  {
    if !(s == [] || KeyLe(Key(o, s[|s| - 1]), Key(o, x))) {
      var init, last := s[..|s| - 1], s[|s| - 1];
      InsertSorted(init, x, o);
      InsertPermutes(init, x, o);
      var r := Insert(init, x, o);
      forall i | 0 <= i < |r| ensures KeyLe(Key(o, r[i]), Key(o, last)) {
        assert r[i] in multiset(r);
        if r[i] != x {
          assert r[i] in init;
        }
      }
    }
  }

  /** Sorting sorts. */
  lemma {:induction false} SortedBySorted(s: seq<Item>, o: SortOrder)
    ensures Sorted(SortedBy(s, o), o)
    decreases |s|
  {
    if s != [] {
      SortedBySorted(s[..|s| - 1], o);
      InsertSorted(SortedBy(s[..|s| - 1], o), s[|s| - 1], o);
    }
  }

  /** The test "has key `k`". */
  function HasKey(o: SortOrder, k: (int, int)): Item -> bool {
    (t: Item) => Key(o, t) == k
  }

  /** Among the elements with one key, inserting `x` appends it when it has that key and
      changes nothing otherwise: it lands after all its equals. */
  lemma {:induction false} InsertStable(s: seq<Item>, x: Item, o: SortOrder, k: (int, int))
    ensures Filter(Insert(s, x, o), HasKey(o, k)) ==
      if Key(o, x) == k then Filter(s, HasKey(o, k)) + [x] else Filter(s, HasKey(o, k))
    decreases |s|
  {
    if s == [] || KeyLe(Key(o, s[|s| - 1]), Key(o, x)) {
      FilterSnoc(s, x, HasKey(o, k));
    } else {
      InsertStableStep(s, x, o, k);
    }
  }

  /** The step of `InsertStable` where `x` moves left past the last element. */
  lemma {:induction false} InsertStableStep(s: seq<Item>, x: Item, o: SortOrder, k: (int, int))
    requires s != [] && !KeyLe(Key(o, s[|s| - 1]), Key(o, x))
    ensures Filter(Insert(s, x, o), HasKey(o, k)) ==
      if Key(o, x) == k then Filter(s, HasKey(o, k)) + [x] else Filter(s, HasKey(o, k))
    decreases |s|, 0
  {
    var p := HasKey(o, k);
    var init, last := s[..|s| - 1], s[|s| - 1];
    assert s == init + [last];
    var r := Insert(init, x, o);
    assert Insert(s, x, o) == r + [last];
    InsertStable(init, x, o, k);
    FilterSnoc(r, last, p);
    FilterSnoc(init, last, p);
    if Key(o, x) == k {
      assert Filter(r, p) == Filter(init, p) + [x];
      assert !p(last);
    } else {
      assert Filter(r, p) == Filter(init, p);
    }
  }

  /** The sort is stable: the tasks sharing any one key keep their relative order. */
  lemma {:induction false} SortedByStable(s: seq<Item>, o: SortOrder, k: (int, int))
    ensures Filter(SortedBy(s, o), HasKey(o, k)) == Filter(s, HasKey(o, k))
    decreases |s|
  {
    if s != [] {
      var init, last := s[..|s| - 1], s[|s| - 1];
      SortedByStable(init, o, k);
      InsertStable(SortedBy(init, o), last, o, k);
      FilterConcat(init, [last], HasKey(o, k));
      assert s == init + [last];
    }
  }

  /** What each order means for a sorted list: by "Due Date" every dated task comes before
      every undated one and dates do not decrease; by "Priority" High, then Medium, then
      Low; otherwise creation times do not decrease. */
  lemma SortedMeaning(s: seq<Item>, o: SortOrder)
    requires Sorted(s, o)
    ensures o == ByDueDate ==> forall i, j :: 0 <= i < j < |s| && s[j].dueDate.Some? ==>
      s[i].dueDate.Some? && s[i].dueDate.value <= s[j].dueDate.value
    ensures o == ByPriority ==> forall i, j :: 0 <= i < j < |s| ==> Rank(s[i].priority) <= Rank(s[j].priority)
    ensures o == ByCreated ==> forall i, j :: 0 <= i < j < |s| ==> s[i].createdAt <= s[j].createdAt
  {
    forall i, j | 0 <= i < j < |s| ensures KeyLe(Key(o, s[i]), Key(o, s[j])) {
    }
  }

  /** `filtered_tasks.sort(key=...)`: insertion sort in place. */
  method SortTasks(a: array<Item>, o: SortOrder)
    modifies a
    ensures a[..] == SortedBy(old(a[..]), o)
  {
    ghost var orig := a[..];
    var i := 0;
    while i < a.Length
      invariant 0 <= i <= a.Length
      invariant a[..i] == SortedBy(orig[..i], o)
      invariant a[i..] == orig[i..]
    {
      assert a[i] == orig[i];
      InsertAt(a, i, o);
      SortedBySnoc(orig, i, o);
      assert a[i + 1..] == orig[i + 1..];
      i := i + 1;
    }
    assert orig[..a.Length] == orig;
  }

  /** One pass of the sort: move `a[i]` left past the greater keys of the sorted `a[..i]`. */
  method InsertAt(a: array<Item>, i: nat, o: SortOrder)
    requires i < a.Length
    modifies a
    ensures a[..i + 1] == Insert(old(a[..i]), old(a[i]), o)
    ensures a[i + 1..] == old(a[i + 1..])
  {
    ghost var s := a[..i];
    var x := a[i];
    var j := ShiftGreater(a, i, x, o);
    a[j] := x;
    InsertAfterSmaller(s, j, x, o);
    assert a[..i + 1] == s[..j] + [x] + s[j..];
  }

  /** The shifting loop of one pass: every element of `a[..i]` whose key is greater than
      that of `x`, from the right, moves one place right; `j` is the gap left behind. */
  method ShiftGreater(a: array<Item>, i: nat, x: Item, o: SortOrder) returns (j: nat)
    requires i < a.Length
    modifies a
    ensures j <= i
    ensures forall k :: 0 <= k < j ==> a[k] == old(a[k])
    ensures forall k :: j < k <= i ==> a[k] == old(a[k - 1])
    ensures forall k :: i < k < a.Length ==> a[k] == old(a[k])
    ensures j == 0 || KeyLe(Key(o, old(a[j - 1])), Key(o, x))
    ensures forall k :: j <= k < i ==> !KeyLe(Key(o, old(a[k])), Key(o, x))
  {
    j := i;
    while j > 0 && !KeyLe(Key(o, a[j - 1]), Key(o, x))
      invariant 0 <= j <= i
      invariant forall k :: 0 <= k < j ==> a[k] == old(a[k])
      invariant forall k :: j < k <= i ==> a[k] == old(a[k - 1])
      invariant forall k :: i < k < a.Length ==> a[k] == old(a[k])
      invariant forall k :: j <= k < i ==> !KeyLe(Key(o, old(a[k])), Key(o, x))
    {
      a[j] := a[j - 1];
      j := j - 1;
    }
  }

  /** `x` lands right after the last element whose key is not greater than its own. */
  lemma {:induction false} InsertAfterSmaller(s: seq<Item>, j: nat, x: Item, o: SortOrder)
    requires j <= |s| && (j == 0 || KeyLe(Key(o, s[j - 1]), Key(o, x)))
    requires forall k :: j <= k < |s| ==> !KeyLe(Key(o, s[k]), Key(o, x))
    ensures Insert(s, x, o) == s[..j] + [x] + s[j..]
    decreases |s|
  {
    if j < |s| {
      var init := s[..|s| - 1];
      InsertAfterSmaller(init, j, x, o);
      assert init[..j] == s[..j] && init[j..] + [s[|s| - 1]] == s[j..];
    } else {
      assert s[..j] == s;
    }
  }

  /** Sorting one more element is inserting it. */
  lemma SortedBySnoc(s: seq<Item>, n: nat, o: SortOrder)
    requires n < |s|
    ensures SortedBy(s[..n + 1], o) == Insert(SortedBy(s[..n], o), s[n], o)
  {
    assert s[..n + 1][..n] == s[..n];
  }
}
