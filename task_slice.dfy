/** The task store of src/store/taskSlice.ts: the task list, the view filter
    and the storage entry the list is written to after every list change. */
module TaskSlice {
  import opened Wrappers
  import opened TaskTypes

  /** The filter the store starts with: every status, every priority, newest first. */
  const InitialFilter: Filter := Filter(All, All, ByDate)

  /** The tasks the store starts from given the storage entry: the stored list,
      or no tasks when nothing is stored. */
  function Load(entry: Option<seq<Task>>): seq<Task>
  {
    match entry
    case None => []
    case Some(saved) => saved
  }

  /** Some task in the list has this id. */
  predicate HasId(tasks: seq<Task>, id: string)
  {
    exists i :: 0 <= i < |tasks| && tasks[i].id == id
  }

  /** No two positions of the list hold tasks with the same id. */
  predicate UniqueIds(tasks: seq<Task>)
  {
    forall i, j :: 0 <= i < j < |tasks| ==> tasks[i].id != tasks[j].id
  }

  /** `findIndex` on the id: the first position holding a task with this id,
      or -1 when there is none. */
  function IndexOfId(tasks: seq<Task>, id: string): (index: int)
    ensures -1 <= index < |tasks|
    ensures index == -1 <==> !HasId(tasks, id)
    ensures 0 <= index ==> tasks[index].id == id
    ensures forall k :: 0 <= k < index ==> tasks[k].id != id
    decreases |tasks|
  {
    if tasks == [] then -1
    else if tasks[0].id == id then 0
    else
      var later := IndexOfId(tasks[1..], id);
      if later == -1 then -1 else later + 1
  }

  /** `filter(task => task.id !== id)`: the tasks whose id differs, in list order. */
  function WithoutId(tasks: seq<Task>, id: string): (kept: seq<Task>)
    ensures |kept| <= |tasks|
    ensures !HasId(kept, id)
    decreases |tasks|
  {
    if tasks == [] then []
    else
      (if tasks[0].id != id then [tasks[0]] else []) + WithoutId(tasks[1..], id)
  }

  /** Removing by id works piecewise, so it keeps the order of what it keeps. */
  lemma {:induction false} WithoutIdAppend(a: seq<Task>, b: seq<Task>, id: string)
    ensures WithoutId(a + b, id) == WithoutId(a, id) + WithoutId(b, id)
    decreases |a|
  {
    if a == [] {
      assert a + b == b;
    } else {
      assert (a + b)[1..] == a[1..] + b;
      WithoutIdAppend(a[1..], b, id);
    }
  }

  /** Deleting keeps every copy of a task with another id and no copy of a task
      with this id. */
  lemma {:induction false} WithoutIdCount(tasks: seq<Task>, id: string, t: Task)
    ensures multiset(WithoutId(tasks, id))[t] == if t.id == id then 0 else multiset(tasks)[t]
    decreases |tasks|
  {
    if tasks != [] {
      var rest := tasks[1..];
      WithoutIdCount(rest, id, t);
      assert tasks == [tasks[0]] + rest;
      assert multiset(tasks) == multiset([tasks[0]]) + multiset(rest);
      if tasks[0].id != id {
        assert WithoutId(tasks, id) == [tasks[0]] + WithoutId(rest, id);
        assert multiset(WithoutId(tasks, id)) == multiset([tasks[0]]) + multiset(WithoutId(rest, id));
      } else {
        assert WithoutId(tasks, id) == WithoutId(rest, id);
      }
    }
  }

  /** With no task carrying the id, removing it changes nothing. */
  lemma {:induction false} WithoutAbsentId(tasks: seq<Task>, id: string)
    requires !HasId(tasks, id)
    ensures WithoutId(tasks, id) == tasks
    decreases |tasks|
  {
    if tasks != [] {
      assert tasks[0].id != id;
      assert !HasId(tasks[1..], id) by {
        forall k | 0 <= k < |tasks[1..]| ensures tasks[1..][k].id != id {
          assert tasks[1..][k] == tasks[k + 1];
        }
      }
      WithoutAbsentId(tasks[1..], id);
      assert tasks == [tasks[0]] + tasks[1..];
    }
  }

  /** Deleting the same id twice is the same as deleting it once. */
  lemma WithoutIdIdempotent(tasks: seq<Task>, id: string)
    ensures WithoutId(WithoutId(tasks, id), id) == WithoutId(tasks, id)
  {
    WithoutAbsentId(WithoutId(tasks, id), id);
  }

  /** With unique ids, the id of the task at position i leads back to position i,
      so an update of that task lands on it and on nothing else. */
  lemma IndexOfOwnId(tasks: seq<Task>, i: nat)
    requires UniqueIds(tasks)
    requires i < |tasks|
    ensures IndexOfId(tasks, tasks[i].id) == i
  {
    var index := IndexOfId(tasks, tasks[i].id);
    assert HasId(tasks, tasks[i].id);
  }

  /** Appending a task whose id is fresh keeps the ids unique. */
  lemma AddFreshKeepsIdsUnique(tasks: seq<Task>, task: Task)
    requires UniqueIds(tasks)
    requires !HasId(tasks, task.id)
    ensures UniqueIds(tasks + [task])
  {
    var after := tasks + [task];
    forall i, j | 0 <= i < j < |after| ensures after[i].id != after[j].id {
      if j == |tasks| {
        assert after[i] == tasks[i];
      }
    }
  }

  /** Replacing the first task with the payload's id keeps the ids unique. */
  lemma UpdateKeepsIdsUnique(tasks: seq<Task>, task: Task)
    requires UniqueIds(tasks)
    ensures var index := IndexOfId(tasks, task.id);
      UniqueIds(if index == -1 then tasks else tasks[index := task])
  {
  }

  /** A list with a first task has unique ids exactly when the rest has and
      does not reuse the first task's id. */
  lemma UniqueIdsCons(first: Task, rest: seq<Task>)
    ensures UniqueIds([first] + rest) <==> !HasId(rest, first.id) && UniqueIds(rest)
  {
    var tasks := [first] + rest;
    if UniqueIds(tasks) {
      forall k | 0 <= k < |rest| ensures rest[k].id != first.id {
        assert rest[k] == tasks[k + 1] && first == tasks[0];
      }
      forall i, j | 0 <= i < j < |rest| ensures rest[i].id != rest[j].id {
        assert rest[i] == tasks[i + 1] && rest[j] == tasks[j + 1];
      }
    }
    if !HasId(rest, first.id) && UniqueIds(rest) {
      forall i, j | 0 <= i < j < |tasks| ensures tasks[i].id != tasks[j].id {
        assert tasks[j] == rest[j - 1];
        if i > 0 {
          assert tasks[i] == rest[i - 1];
        }
      }
    }
  }

  /** Deleting by id keeps the ids unique. */
  lemma {:induction false} DeleteKeepsIdsUnique(tasks: seq<Task>, id: string)
    requires UniqueIds(tasks)
    ensures UniqueIds(WithoutId(tasks, id))
    decreases |tasks|
  {
    if tasks != [] {
      var first, rest := tasks[0], tasks[1..];
      assert tasks == [first] + rest;
      UniqueIdsCons(first, rest);
      DeleteKeepsIdsUnique(rest, id);
      var keptRest := WithoutId(rest, id);
      if first.id != id {
        assert !HasId(keptRest, first.id) by {
          forall k | 0 <= k < |keptRest| ensures keptRest[k].id != first.id {
            WithoutIdCount(rest, id, keptRest[k]);
            assert keptRest[k] in multiset(keptRest);
            assert keptRest[k] in rest;
          }
        }
        UniqueIdsCons(first, keptRest);
        assert WithoutId(tasks, id) == [first] + keptRest;
      } else {
        assert WithoutId(tasks, id) == keptRest;
      }
    }
  }

  /** The store. `tasks` is the list the reducers change in place, `filter` the
      view preferences, `stored` the storage entry under the key "tasks"
      (None while nothing has been stored). */
  class TaskStore {
    var tasks: seq<Task>
    var filter: Filter
    var stored: Option<seq<Task>>

    /** Loading storage again would give back the list the store holds. */
    ghost predicate Synced()
      reads this
    {
      Load(stored) == tasks
    }

    /** The initial state: the list loaded from storage and the initial filter. */
    constructor (storage: Option<seq<Task>>)
      ensures tasks == Load(storage)
      ensures storage.None? ==> tasks == []
      ensures filter == InitialFilter
      ensures stored == storage
      ensures Synced()
    {
      tasks := Load(storage);
      filter := InitialFilter;
      stored := storage;
    }

    /** `addTask`: push the payload, then save the whole list. No check of the id. */
    method AddTask(task: Task)
      modifies this
      ensures tasks == old(tasks) + [task]
      ensures stored == Some(tasks)
      ensures filter == old(filter)
      ensures Synced()
    {
      tasks := tasks + [task];
      stored := Some(tasks);
    }

    /** `updateTask`: overwrite the first task with the payload's id and save;
        with no such task, change nothing and save nothing. */
    method UpdateTask(task: Task)
      modifies this
      ensures var index := IndexOfId(old(tasks), task.id);
        if index == -1 then
          tasks == old(tasks) && stored == old(stored)
        else
          tasks == old(tasks)[index := task] && stored == Some(tasks)
      ensures filter == old(filter)
      ensures old(Synced()) ==> Synced()
    {
      var index := IndexOfId(tasks, task.id);
      if index != -1 {
        tasks := tasks[index := task];
        stored := Some(tasks);
      }
    }

    /** `deleteTask`: keep the tasks with another id, then save, even when
        nothing was removed. */
    method DeleteTask(id: string)
      modifies this
      ensures tasks == WithoutId(old(tasks), id)
      ensures stored == Some(tasks)
      ensures filter == old(filter)
      ensures Synced()
    {
      tasks := WithoutId(tasks, id);
      stored := Some(tasks);
    }

    /** `reorderTasks`: take the payload as the new list, unchecked, and save it. */
    method ReorderTasks(reordered: seq<Task>)
      modifies this
      ensures tasks == reordered
      ensures stored == Some(reordered)
      ensures filter == old(filter)
      ensures Synced()
    {
      tasks := reordered;
      stored := Some(tasks);
    }

    /** `setFilter`: merge the partial filter into the current one; storage is
        not written. */
    method SetFilter(patch: FilterPatch)
      modifies this
      ensures filter == Merge(old(filter), patch)
      ensures tasks == old(tasks)
      ensures stored == old(stored)
    {
      filter := Merge(filter, patch);
    }
  }

  /** A `Partial<filter>` payload: each field either given or absent. */
  datatype FilterPatch = FilterPatch(status: Option<string>, priority: Option<string>, sortBy: Option<SortBy>)

  /** `{ ...filter, ...patch }`. */
  function Merge(filter: Filter, patch: FilterPatch): (merged: Filter)
    ensures patch.status.Some? ==> merged.status == patch.status.value
    ensures patch.status.None? ==> merged.status == filter.status
    ensures patch.priority.Some? ==> merged.priority == patch.priority.value
    ensures patch.priority.None? ==> merged.priority == filter.priority
    ensures patch.sortBy.Some? ==> merged.sortBy == patch.sortBy.value
    ensures patch.sortBy.None? ==> merged.sortBy == filter.sortBy
  {
    Filter(
      if patch.status.Some? then patch.status.value else filter.status,
      if patch.priority.Some? then patch.priority.value else filter.priority,
      if patch.sortBy.Some? then patch.sortBy.value else filter.sortBy)
  }

  /** Merging the same patch twice is the same as merging it once. */
  lemma MergeIdempotent(filter: Filter, patch: FilterPatch)
    ensures Merge(Merge(filter, patch), patch) == Merge(filter, patch)
  {
  }

  /** An empty patch leaves the filter as it is. */
  lemma MergeEmpty(filter: Filter)
    ensures Merge(filter, FilterPatch(None, None, None)) == filter
  {
  }
}
