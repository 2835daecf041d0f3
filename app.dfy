/** src/App.tsx: the list the page shows (a filter followed by a stable sort)
    and the drag handler that moves one task and hands the whole list back to
    the store. */
module App {
  import opened Wrappers
  import opened TaskTypes
  import TaskSlice

  // ---------------------------------------------------------------------------
  // View projection
  // ---------------------------------------------------------------------------

  /** The filter callback: the status filter is "all" or the task's status, and
      the priority filter is "all" or the task's priority. */
  predicate Shown(filter: Filter, task: Task)
  {
    (filter.status == All || StatusName(task.status) == filter.status) &&
    (filter.priority == All || PriorityName(task.priority) == filter.priority)
  }

  /** `tasks.filter(...)`: the shown tasks, in list order, in a fresh list. */
  function FilterTasks(tasks: seq<Task>, filter: Filter): (kept: seq<Task>)
    ensures |kept| <= |tasks|
    ensures forall i :: 0 <= i < |kept| ==> Shown(filter, kept[i])
    decreases |tasks|
  {
    if tasks == [] then []
    else
      (if Shown(filter, tasks[0]) then [tasks[0]] else []) + FilterTasks(tasks[1..], filter)
  }

  /** Filtering keeps every copy of a shown task and no copy of a hidden one. */
  lemma {:induction false} FilterTasksCount(tasks: seq<Task>, filter: Filter, t: Task)
    ensures multiset(FilterTasks(tasks, filter))[t] == if Shown(filter, t) then multiset(tasks)[t] else 0
    decreases |tasks|
  {
    if tasks != [] {
      var rest := tasks[1..];
      FilterTasksCount(rest, filter, t);
      assert tasks == [tasks[0]] + rest;
      assert multiset(tasks) == multiset([tasks[0]]) + multiset(rest);
      if Shown(filter, tasks[0]) {
        assert FilterTasks(tasks, filter) == [tasks[0]] + FilterTasks(rest, filter);
        assert multiset(FilterTasks(tasks, filter)) == multiset([tasks[0]]) + multiset(FilterTasks(rest, filter));
      } else {
        assert FilterTasks(tasks, filter) == FilterTasks(rest, filter);
      }
    }
  }

  /** Filtering works piecewise over concatenation, so the kept tasks stay in
      the order the list has them. */
  lemma {:induction false} FilterTasksAppend(a: seq<Task>, b: seq<Task>, filter: Filter)
    ensures FilterTasks(a + b, filter) == FilterTasks(a, filter) + FilterTasks(b, filter)
    decreases |a|
  {
    if a != [] {
      FilterTasksAppend(a[1..], b, filter);
      assert (a + b)[1..] == a[1..] + b;
      assert (a + b)[0] == a[0];
    } else {
      assert a + b == b;
    }
  }

  /** The `priorityOrder` table: high 3, medium 2, low 1. */
  function PriorityRank(p: Priority): (rank: int)
    ensures 1 <= rank <= 3
  {
    match p
    case High => 3
    case Medium => 2
    case Low => 1
  }

  /** The number the comparator subtracts: the creation time when sorting by
      date, the priority rank otherwise. The comparator `key(b) - key(a)` puts
      larger keys first. */
  function SortKey(sortBy: SortBy, task: Task): int
  {
    if sortBy == ByDate then task.createdAt else PriorityRank(task.priority)
  }

  /** Keys never increase along the list. */
  predicate SortedDesc(sortBy: SortBy, s: seq<Task>)
  {
    forall i, j :: 0 <= i < j < |s| ==> SortKey(sortBy, s[i]) >= SortKey(sortBy, s[j])
  }

  /** The tasks of `s` whose key is `key`, in the order `s` has them. A sort is
      stable when it leaves each of these runs as it was. */
  function WithKey(sortBy: SortBy, s: seq<Task>, key: int): seq<Task>
    decreases |s|
  {
    if s == [] then []
    else (if SortKey(sortBy, s[0]) == key then [s[0]] else []) + WithKey(sortBy, s[1..], key)
  }

  /** A key's run holds exactly the tasks of the list that have the key. */
  lemma {:induction false} WithKeyMembers(sortBy: SortBy, s: seq<Task>, key: int, t: Task)
    ensures t in WithKey(sortBy, s, key) <==> t in s && SortKey(sortBy, t) == key
    decreases |s|
  {
    if s != [] {
      WithKeyMembers(sortBy, s[1..], key, t);
      assert s == [s[0]] + s[1..];
    }
  }

  /** Insert a task into a list sorted by descending key, before the first
      element whose key is not larger than its own. */
  function Insert(sortBy: SortBy, task: Task, sorted: seq<Task>): (r: seq<Task>)
    ensures |r| == |sorted| + 1
    decreases |sorted|
  {
    if sorted == [] then [task]
    else if SortKey(sortBy, sorted[0]) > SortKey(sortBy, task) then
      [sorted[0]] + Insert(sortBy, task, sorted[1..])
    else
      [task] + sorted
  }

  /** Inserting adds exactly one copy of the task. */
  lemma {:induction false} InsertContents(sortBy: SortBy, task: Task, sorted: seq<Task>)
    ensures multiset(Insert(sortBy, task, sorted)) == multiset(sorted) + multiset{task}
    decreases |sorted|
  {
    if sorted != [] && SortKey(sortBy, sorted[0]) > SortKey(sortBy, task) {
      InsertContents(sortBy, task, sorted[1..]);
      assert sorted == [sorted[0]] + sorted[1..];
      assert multiset(sorted) == multiset{sorted[0]} + multiset(sorted[1..]);
    }
  }

  /** No key in the list exceeds the bound. */
  predicate KeysAtMost(sortBy: SortBy, s: seq<Task>, bound: int)
  {
    forall k :: 0 <= k < |s| ==> SortKey(sortBy, s[k]) <= bound
  }

  /** Inserting a task under the bound into a list under the bound stays under it. */
  lemma {:induction false} InsertKeepsBound(sortBy: SortBy, task: Task, sorted: seq<Task>, bound: int)
    requires KeysAtMost(sortBy, sorted, bound)
    requires SortKey(sortBy, task) <= bound
    ensures KeysAtMost(sortBy, Insert(sortBy, task, sorted), bound)
    decreases |sorted|
  {
    if sorted != [] && SortKey(sortBy, sorted[0]) > SortKey(sortBy, task) {
      var tail := sorted[1..];
      assert KeysAtMost(sortBy, tail, bound) by {
        forall k | 0 <= k < |tail| ensures SortKey(sortBy, tail[k]) <= bound {
          assert tail[k] == sorted[k + 1];
        }
      }
      InsertKeepsBound(sortBy, task, tail, bound);
      var rest := Insert(sortBy, task, tail);
      var r := [sorted[0]] + rest;
      assert Insert(sortBy, task, sorted) == r;
      forall k | 0 <= k < |r| ensures SortKey(sortBy, r[k]) <= bound {
        if k > 0 {
          assert r[k] == rest[k - 1];
        }
      }
    }
  }

  /** A descending list behind a task whose key bounds all of it is descending. */
  lemma ConsKeepsSorted(sortBy: SortBy, head: Task, rest: seq<Task>)
    requires SortedDesc(sortBy, rest)
    requires KeysAtMost(sortBy, rest, SortKey(sortBy, head))
    ensures SortedDesc(sortBy, [head] + rest)
  {
    var r := [head] + rest;
    forall i, j | 0 <= i < j < |r| ensures SortKey(sortBy, r[i]) >= SortKey(sortBy, r[j]) {
      assert r[j] == rest[j - 1];
      if i > 0 {
        assert r[i] == rest[i - 1];
      }
    }
  }

  /** Inserting into a descending list gives a descending list. */
  lemma {:induction false} InsertKeepsSorted(sortBy: SortBy, task: Task, sorted: seq<Task>)
    requires SortedDesc(sortBy, sorted)
    ensures SortedDesc(sortBy, Insert(sortBy, task, sorted))
    decreases |sorted|
  {
    if sorted == [] {
      assert Insert(sortBy, task, sorted) == [task];
    } else if SortKey(sortBy, sorted[0]) > SortKey(sortBy, task) {
      var head, tail := sorted[0], sorted[1..];
      assert SortedDesc(sortBy, tail) by {
        forall i, j | 0 <= i < j < |tail| ensures SortKey(sortBy, tail[i]) >= SortKey(sortBy, tail[j]) {
          assert tail[i] == sorted[i + 1] && tail[j] == sorted[j + 1];
        }
      }
      assert KeysAtMost(sortBy, tail, SortKey(sortBy, head)) by {
        forall k | 0 <= k < |tail| ensures SortKey(sortBy, tail[k]) <= SortKey(sortBy, head) {
          assert tail[k] == sorted[k + 1];
        }
      }
      InsertKeepsSorted(sortBy, task, tail);
      InsertKeepsBound(sortBy, task, tail, SortKey(sortBy, head));
      ConsKeepsSorted(sortBy, head, Insert(sortBy, task, tail));
      assert Insert(sortBy, task, sorted) == [head] + Insert(sortBy, task, tail);
    } else {
      assert KeysAtMost(sortBy, sorted, SortKey(sortBy, task)) by {
        forall k | 0 <= k < |sorted| ensures SortKey(sortBy, sorted[k]) <= SortKey(sortBy, task) {
          if k > 0 {
            assert SortKey(sortBy, sorted[0]) >= SortKey(sortBy, sorted[k]);
          }
        }
      }
      ConsKeepsSorted(sortBy, task, sorted);
    }
  }

  /** The stable sort by descending key: the `.sort` call. */
  function SortTasks(sortBy: SortBy, s: seq<Task>): (sorted: seq<Task>)
    ensures |sorted| == |s|
    ensures multiset(sorted) == multiset(s)
    ensures SortedDesc(sortBy, sorted)
    decreases |s|
  {
    if s == [] then []
    else
      assert s == [s[0]] + s[1..];
      var sortedRest := SortTasks(sortBy, s[1..]);
      InsertKeepsSorted(sortBy, s[0], sortedRest);
      InsertContents(sortBy, s[0], sortedRest);
      Insert(sortBy, s[0], sortedRest)
  }

  /** Inserting puts the task at the head of its own run and leaves every run
      of the list as it was. */
  lemma {:induction false} InsertWithKey(sortBy: SortBy, task: Task, sorted: seq<Task>, key: int)
    ensures WithKey(sortBy, Insert(sortBy, task, sorted), key)
         == (if SortKey(sortBy, task) == key then [task] else []) + WithKey(sortBy, sorted, key)
    decreases |sorted|
  {
    if sorted == [] {
      assert Insert(sortBy, task, sorted) == [task];
      assert [task][1..] == [];
    } else if SortKey(sortBy, sorted[0]) > SortKey(sortBy, task) {
      var head, tail := sorted[0], sorted[1..];
      var rest := Insert(sortBy, task, tail);
      InsertWithKey(sortBy, task, tail, key);
      var r := [head] + rest;
      assert Insert(sortBy, task, sorted) == r;
      assert r[0] == head && r[1..] == rest;
      assert sorted[0] == head && sorted[1..] == tail;
      if SortKey(sortBy, head) == key {
        assert WithKey(sortBy, r, key) == [head] + WithKey(sortBy, rest, key);
        assert WithKey(sortBy, sorted, key) == [head] + WithKey(sortBy, tail, key);
      } else {
        assert WithKey(sortBy, r, key) == WithKey(sortBy, rest, key);
        assert WithKey(sortBy, sorted, key) == WithKey(sortBy, tail, key);
      }
    } else {
      var r := [task] + sorted;
      assert Insert(sortBy, task, sorted) == r;
      assert r[0] == task && r[1..] == sorted;
    }
  }

  /** The sort is stable: tasks with equal keys keep their relative order. */
  lemma {:induction false} SortTasksStable(sortBy: SortBy, s: seq<Task>, key: int)
    ensures WithKey(sortBy, SortTasks(sortBy, s), key) == WithKey(sortBy, s, key)
    decreases |s|
  {
    if s != [] {
      SortTasksStable(sortBy, s[1..], key);
      InsertWithKey(sortBy, s[0], SortTasks(sortBy, s[1..]), key);
    }
  }

  /** A sorted list whose first task has some key lists nothing with a larger key. */
  lemma SortedHeadIsLargest(sortBy: SortBy, s: seq<Task>, t: Task)
    requires SortedDesc(sortBy, s)
    requires t in s
    ensures SortKey(sortBy, t) <= SortKey(sortBy, s[0])
  {
    var i :| 0 <= i < |s| && s[i] == t;
    if i > 0 {
      assert SortKey(sortBy, s[0]) >= SortKey(sortBy, s[i]);
    }
  }

  /** The first task of a list starts the run of its own key. */
  lemma HeadStartsItsRun(sortBy: SortBy, s: seq<Task>)
    requires s != []
    ensures WithKey(sortBy, s, SortKey(sortBy, s[0])) == [s[0]] + WithKey(sortBy, s[1..], SortKey(sortBy, s[0]))
  {
  }

  /** Two lists sorted by descending key with the same run for every key are
      the same list. */
  lemma {:induction false} SortedRunsDetermine(sortBy: SortBy, a: seq<Task>, b: seq<Task>)
    requires SortedDesc(sortBy, a) && SortedDesc(sortBy, b)
    requires forall key :: WithKey(sortBy, a, key) == WithKey(sortBy, b, key)
    ensures a == b
    decreases |a| + |b|
  {
    if a == [] || b == [] {
      if a != [] {
        HeadStartsItsRun(sortBy, a);
        assert false;
      } else if b != [] {
        HeadStartsItsRun(sortBy, b);
        assert false;
      }
    } else {
      var ka, kb := SortKey(sortBy, a[0]), SortKey(sortBy, b[0]);
      HeadStartsItsRun(sortBy, a);
      HeadStartsItsRun(sortBy, b);
      assert a[0] in WithKey(sortBy, b, ka);
      WithKeyMembers(sortBy, b, ka, a[0]);
      SortedHeadIsLargest(sortBy, b, a[0]);
      assert b[0] in WithKey(sortBy, a, kb);
      WithKeyMembers(sortBy, a, kb, b[0]);
      SortedHeadIsLargest(sortBy, a, b[0]);
      assert ka == kb;
      forall key ensures WithKey(sortBy, a[1..], key) == WithKey(sortBy, b[1..], key) {
        if key == ka {
          assert [a[0]] + WithKey(sortBy, a[1..], ka) == [b[0]] + WithKey(sortBy, b[1..], ka);
          assert ([a[0]] + WithKey(sortBy, a[1..], ka))[1..] == WithKey(sortBy, a[1..], ka);
          assert ([b[0]] + WithKey(sortBy, b[1..], ka))[1..] == WithKey(sortBy, b[1..], ka);
        } else {
          assert WithKey(sortBy, a, key) == WithKey(sortBy, a[1..], key);
          assert WithKey(sortBy, b, key) == WithKey(sortBy, b[1..], key);
        }
      }
      assert WithKey(sortBy, a, ka)[0] == a[0] && WithKey(sortBy, b, ka)[0] == b[0];
      SortedRunsDetermine(sortBy, a[1..], b[1..]);
    }
  }

  /** Any stable sort by descending key gives what SortTasks gives, so the
      engine's stable `Array.prototype.sort` yields exactly SortTasks. */
  lemma StableSortIsUnique(sortBy: SortBy, s: seq<Task>, r: seq<Task>)
    requires SortedDesc(sortBy, r)
    requires forall key :: WithKey(sortBy, r, key) == WithKey(sortBy, s, key)
    ensures r == SortTasks(sortBy, s)
  {
    forall key ensures WithKey(sortBy, r, key) == WithKey(sortBy, SortTasks(sortBy, s), key) {
      SortTasksStable(sortBy, s, key);
    }
    SortedRunsDetermine(sortBy, r, SortTasks(sortBy, s));
  }

  /** Filtering and taking a key's run commute: the run of a key in the
      filtered list is the shown part of that key's run in the whole list. */
  lemma {:induction false} FilterWithKey(sortBy: SortBy, s: seq<Task>, filter: Filter, key: int)
    ensures WithKey(sortBy, FilterTasks(s, filter), key) == FilterTasks(WithKey(sortBy, s, key), filter)
    decreases |s|
  {
    if s != [] {
      var h, rest := s[0], s[1..];
      FilterWithKey(sortBy, rest, filter, key);
      var kept := FilterTasks(s, filter);
      var run := WithKey(sortBy, s, key);
      if Shown(filter, h) {
        assert kept == [h] + FilterTasks(rest, filter);
        assert kept[0] == h && kept[1..] == FilterTasks(rest, filter);
      } else {
        assert kept == FilterTasks(rest, filter);
      }
      if SortKey(sortBy, h) == key {
        assert run == [h] + WithKey(sortBy, rest, key);
        assert run[0] == h && run[1..] == WithKey(sortBy, rest, key);
      } else {
        assert run == WithKey(sortBy, rest, key);
      }
    }
  }

  /** `filteredTasks`: the shown tasks, sorted by the chosen key, largest first. */
  function View(tasks: seq<Task>, filter: Filter): (shown: seq<Task>)
    ensures |shown| <= |tasks|
    ensures multiset(shown) == multiset(FilterTasks(tasks, filter))
    ensures SortedDesc(filter.sortBy, shown)
  {
    SortTasks(filter.sortBy, FilterTasks(tasks, filter))
  }

  /** The view holds each shown task as often as the store does, and no
      hidden task: a task appears exactly when the store holds it and the
      filter shows it. */
  lemma ViewCount(tasks: seq<Task>, filter: Filter, t: Task)
    ensures multiset(View(tasks, filter))[t] == if Shown(filter, t) then multiset(tasks)[t] else 0
    ensures t in View(tasks, filter) <==> t in tasks && Shown(filter, t)
  {
    FilterTasksCount(tasks, filter, t);
    assert t in View(tasks, filter) <==> t in multiset(View(tasks, filter));
  }

  /** Sorting by date: creation times never increase down the view, and tasks
      created at the same time appear in the order the store holds them: each
      creation time's run in the view is the shown part of its run in the store. */
  lemma ViewNewestFirst(tasks: seq<Task>, filter: Filter)
    requires filter.sortBy == ByDate
    ensures var shown := View(tasks, filter);
      forall i, j :: 0 <= i < j < |shown| ==> shown[i].createdAt >= shown[j].createdAt
    ensures forall time :: WithKey(ByDate, View(tasks, filter), time)
                        == WithKey(ByDate, FilterTasks(tasks, filter), time)
    ensures forall time :: WithKey(ByDate, View(tasks, filter), time)
                        == FilterTasks(WithKey(ByDate, tasks, time), filter)
  {
    var shown := View(tasks, filter);
    forall i, j | 0 <= i < j < |shown| ensures shown[i].createdAt >= shown[j].createdAt {
      assert SortKey(ByDate, shown[i]) >= SortKey(ByDate, shown[j]);
    }
    forall time ensures WithKey(ByDate, shown, time) == WithKey(ByDate, FilterTasks(tasks, filter), time)
                               == FilterTasks(WithKey(ByDate, tasks, time), filter)
    {
      SortTasksStable(ByDate, FilterTasks(tasks, filter), time);
      FilterWithKey(ByDate, tasks, filter, time);
    }
  }

  /** Sorting by priority: ranks never increase down the view, and tasks of
      equal priority appear in the order the store holds them: each rank's run in
      the view is the shown part of its run in the store. */
  lemma ViewHighestPriorityFirst(tasks: seq<Task>, filter: Filter)
    requires filter.sortBy == ByPriority
    ensures var shown := View(tasks, filter);
      forall i, j :: 0 <= i < j < |shown| ==> PriorityRank(shown[i].priority) >= PriorityRank(shown[j].priority)
    ensures forall rank :: WithKey(ByPriority, View(tasks, filter), rank)
                        == WithKey(ByPriority, FilterTasks(tasks, filter), rank)
    ensures forall rank :: WithKey(ByPriority, View(tasks, filter), rank)
                        == FilterTasks(WithKey(ByPriority, tasks, rank), filter)
  {
    var shown := View(tasks, filter);
    forall i, j | 0 <= i < j < |shown|
      ensures PriorityRank(shown[i].priority) >= PriorityRank(shown[j].priority)
    {
      assert SortKey(ByPriority, shown[i]) >= SortKey(ByPriority, shown[j]);
    }
    forall rank ensures WithKey(ByPriority, shown, rank) == WithKey(ByPriority, FilterTasks(tasks, filter), rank)
                               == FilterTasks(WithKey(ByPriority, tasks, rank), filter)
    {
      SortTasksStable(ByPriority, FilterTasks(tasks, filter), rank);
      FilterWithKey(ByPriority, tasks, filter, rank);
    }
  }

  /** Two tasks, an older low-priority one stored first and a newer
      high-priority one stored second: both sort orders show the newer one
      first, and a status filter neither has shows nothing. */
  lemma ViewExample(older: Task, newer: Task)
    requires older.priority == Low && newer.priority == High
    requires older.createdAt < newer.createdAt
    requires older.status == Completed && newer.status == Completed
    ensures View([older, newer], Filter(All, All, ByDate)) == [newer, older]
    ensures View([older, newer], Filter(All, All, ByPriority)) == [newer, older]
    ensures View([older, newer], Filter("todo", All, ByDate)) == []
  {
    var tasks := [older, newer];
    assert tasks[1..] == [newer];
    forall sortBy: SortBy ensures View(tasks, Filter(All, All, sortBy)) == [newer, older] {
      var filter := Filter(All, All, sortBy);
      assert FilterTasks([newer], filter) == [newer] + FilterTasks([], filter);
      assert FilterTasks(tasks, filter) == tasks;
      assert SortKey(sortBy, newer) > SortKey(sortBy, older);
      assert SortTasks(sortBy, [newer]) == [newer];
      assert Insert(sortBy, older, [newer]) == [newer] + Insert(sortBy, older, []);
    }
    assert FilterTasks([newer], Filter("todo", All, ByDate)) == [];
  }

  // ---------------------------------------------------------------------------
  // Drag reorder
  // ---------------------------------------------------------------------------

  function Min(a: int, b: int): int
  {
    if a <= b then a else b
  }

  /** The list without its element at position i. */
  function RemoveAt(s: seq<Task>, i: nat): seq<Task>
    requires i < |s|
  {
    s[..i] + s[i + 1..]
  }

  /** Removing a position takes exactly one copy of its element out. */
  lemma RemoveAtContents(s: seq<Task>, i: nat)
    requires i < |s|
    ensures multiset(RemoveAt(s, i)) + multiset{s[i]} == multiset(s)
  {
    assert s == s[..i] + [s[i]] + s[i + 1..];
  }

  /** Inserting at a position adds exactly one copy of the element. */
  lemma InsertAtContents(s: seq<Task>, i: nat, x: Task)
    requires i <= |s|
    ensures multiset(s[..i] + [x] + s[i..]) == multiset(s) + multiset{x}
  {
    assert s == s[..i] + s[i..];
  }

  /** `items.splice(start, deleteCount, ...inserted)` for a non-negative start:
      the start is cut down to the length, the count to what follows the start.
      Gives the list after the call and the removed elements. */
  function Splice(items: seq<Task>, start: nat, deleteCount: nat, inserted: seq<Task>): (result: (seq<Task>, seq<Task>))
    ensures |result.1| == Min(deleteCount, |items| - Min(start, |items|))
    ensures |result.0| == |items| - |result.1| + |inserted|
  {
    var at := Min(start, |items|);
    var count := Min(deleteCount, |items| - at);
    (items[..at] + inserted + items[at + count..], items[at..at + count])
  }

  /** The list handleDragEnd dispatches: a copy of the store's list with the
      element at `source` spliced out and spliced back in at `destination`.
      The moved element ends at min(destination, |tasks| - 1); the others keep
      their order. */
  method DragReorder(tasks: seq<Task>, source: nat, destination: nat) returns (items: seq<Task>)
    requires source < |tasks|
    ensures |items| == |tasks|
    ensures multiset(items) == multiset(tasks)
    ensures var at := Min(destination, |tasks| - 1);
      items[at] == tasks[source] && RemoveAt(items, at) == RemoveAt(tasks, source)
  {
    items := tasks;
    var (rest, removed) := Splice(items, source, 1, []);
    SpliceOne(tasks, source);
    var reorderedItem := removed[0];
    items := Splice(rest, destination, 0, [reorderedItem]).0;
    SpliceInsertOne(rest, destination, reorderedItem);
    RemoveAtContents(tasks, source);
    InsertAtContents(rest, Min(destination, |rest|), reorderedItem);
  }

  /** `splice(i, 1)` inside the list takes out exactly the element at i. */
  lemma SpliceOne(s: seq<Task>, i: nat)
    requires i < |s|
    ensures Splice(s, i, 1, []) == (RemoveAt(s, i), [s[i]])
  {
    assert Min(i, |s|) == i && Min(1, |s| - i) == 1;
    assert s[..i] + [] + s[i + 1..] == RemoveAt(s, i);
    assert s[i..i + 1] == [s[i]];
  }

  /** `splice(start, 0, x)` puts x at min(start, length) and removing it there
      gives the list back. */
  lemma SpliceInsertOne(s: seq<Task>, start: nat, x: Task)
    ensures var at := Min(start, |s|);
      Splice(s, start, 0, [x]).0 == s[..at] + [x] + s[at..] &&
      (s[..at] + [x] + s[at..])[at] == x &&
      RemoveAt(s[..at] + [x] + s[at..], at) == s
  {
    var at := Min(start, |s|);
    var u := s[..at] + [x] + s[at..];
    assert u[..at] == s[..at] && u[at + 1..] == s[at..];
    assert s[..at] + s[at..] == s;
  }

  /** Taking one position out keeps the ids unique, and the id of the element
      taken out is nowhere in what remains. */
  lemma RemoveAtKeepsIdsUnique(s: seq<Task>, i: nat)
    requires i < |s|
    requires TaskSlice.UniqueIds(s)
    ensures TaskSlice.UniqueIds(RemoveAt(s, i))
    ensures !TaskSlice.HasId(RemoveAt(s, i), s[i].id)
  {
    var r := RemoveAt(s, i);
    assert forall k :: 0 <= k < |r| ==> r[k] == s[if k < i then k else k + 1];
  }

  /** Inserting a task whose id is fresh keeps the ids unique. */
  lemma InsertAtKeepsIdsUnique(s: seq<Task>, i: nat, x: Task)
    requires i <= |s|
    requires TaskSlice.UniqueIds(s)
    requires !TaskSlice.HasId(s, x.id)
    ensures TaskSlice.UniqueIds(s[..i] + [x] + s[i..])
  {
    var u := s[..i] + [x] + s[i..];
    assert forall k :: 0 <= k < |u| && k != i ==> u[k] == s[if k < i then k else k - 1];
    assert u[i] == x;
  }

  /** A drag move keeps the ids unique, so `reorderTasks` never receives a
      list with a repeated id from the drag handler. */
  lemma MoveKeepsIdsUnique(tasks: seq<Task>, items: seq<Task>, source: nat, at: nat)
    requires source < |tasks| && at < |items|
    requires items[at] == tasks[source]
    requires RemoveAt(items, at) == RemoveAt(tasks, source)
    requires TaskSlice.UniqueIds(tasks)
    ensures TaskSlice.UniqueIds(items)
  {
    var rest := RemoveAt(tasks, source);
    RemoveAtKeepsIdsUnique(tasks, source);
    assert items == rest[..at] + [items[at]] + rest[at..] by {
      assert items[..at] == rest[..at];
      assert items[at + 1..] == rest[at..];
      assert items == items[..at] + [items[at]] + items[at + 1..];
    }
    InsertAtKeepsIdsUnique(rest, at, items[at]);
  }

  /** `handleDragEnd`: with no destination nothing is dispatched; otherwise the
      moved list goes to `reorderTasks`. The indices come from the view, which
      is never longer than the store's list, so a source index from the view
      is a valid index into the store's list, but not the same task's. */
  method HandleDragEnd(store: TaskSlice.TaskStore, source: nat, destination: Option<nat>)
    requires destination.Some? ==> source < |store.tasks|
    modifies store
    ensures destination.None? ==> unchanged(store)
    ensures destination.Some? ==>
      var before := old(store.tasks);
      var at := Min(destination.value, |before| - 1);
      |store.tasks| == |before| &&
      multiset(store.tasks) == multiset(before) &&
      store.tasks[at] == before[source] &&
      RemoveAt(store.tasks, at) == RemoveAt(before, source) &&
      store.stored == Some(store.tasks) &&
      store.filter == old(store.filter)
  {
    if destination.None? {
      return;
    }
    var items := DragReorder(store.tasks, source, destination.value);
    store.ReorderTasks(items);
  }
}
