/**
 * TaskManager of the first revision (default package): three HashMaps and
 * a pre-incremented id counter, creates that refuse an incoming id already
 * used in their own map, deletes that touch only their own map, and lists
 * sorted by status (a stable sort by the enum's declaration order).
 * Tasks and subtasks are stored as values; epics as the Epic objects the
 * manager later appends subtasks to.
 */
module EarlyManager {
  import opened Outcomes
  import opened Kinds
  import opened TaskEntity
  import opened EarlyEpic
  import Entities

  // ---------------------------------------------------------------------
  // A stable insertion sort by a natural-number key (List.sort with
  // Comparator.comparing is stable).

  /** Put `x` in front of the first element whose key is not smaller. */
  function InsertBy<T>(x: T, s: seq<T>, key: T -> nat): (r: seq<T>)
    ensures |r| == |s| + 1
  {
    if |s| == 0 || key(x) <= key(s[0]) then [x] + s
    else [s[0]] + InsertBy(x, s[1..], key)
  }

  /** Sort by inserting each element into the sorted rest. */
  function SortBy<T>(s: seq<T>, key: T -> nat): (r: seq<T>)
    ensures |r| == |s|
  {
    if |s| == 0 then [] else InsertBy(s[0], SortBy(s[1..], key), key)
  }

  /** Keys never decrease along `s`. */
  predicate SortedBy<T>(s: seq<T>, key: T -> nat) {
    forall i, j | 0 <= i < j < |s| :: key(s[i]) <= key(s[j])
  }

  /** The elements of `s` whose key is `k`, in order. */
  function WithKey<T>(s: seq<T>, key: T -> nat, k: nat): seq<T> {
    if |s| == 0 then []
    else (if key(s[0]) == k then [s[0]] else []) + WithKey(s[1..], key, k)
  }

  lemma {:induction false} InsertBySorted<T>(x: T, s: seq<T>, key: T -> nat)
    requires SortedBy(s, key)
    ensures SortedBy(InsertBy(x, s, key), key)
    decreases |s|
  {
    if |s| > 0 && key(s[0]) < key(x) {
      var rest := InsertBy(x, s[1..], key);
      InsertBySorted(x, s[1..], key);
      assert rest[0] == x || rest[0] == s[1];
      var r := [s[0]] + rest;
      forall i, j | 0 <= i < j < |r| ensures key(r[i]) <= key(r[j]) {
        if i == 0 {
          assert key(r[0]) <= key(rest[0]);
          if j > 1 { assert key(rest[0]) <= key(rest[j - 1]); }
        } else {
          assert r[i] == rest[i - 1] && r[j] == rest[j - 1];
        }
      }
    }
  }

  lemma {:induction false} InsertByPermutes<T>(x: T, s: seq<T>, key: T -> nat)
    ensures multiset(InsertBy(x, s, key)) == multiset(s) + multiset{x}
    decreases |s|
  {
    if |s| > 0 && key(s[0]) < key(x) {
      InsertByPermutes(x, s[1..], key);
      assert s == [s[0]] + s[1..];
    }
  }

  /** The sorted list is ordered by key and is a permutation of the input. */
  lemma {:induction false} SortBySorted<T>(s: seq<T>, key: T -> nat)
    ensures SortedBy(SortBy(s, key), key)
    ensures multiset(SortBy(s, key)) == multiset(s)
    decreases |s|
  {
    if |s| > 0 {
      SortBySorted(s[1..], key);
      InsertBySorted(s[0], SortBy(s[1..], key), key);
      InsertByPermutes(s[0], SortBy(s[1..], key), key);
      assert s == [s[0]] + s[1..];
    }
  }

  lemma WithKeyCons<T>(y: T, t: seq<T>, key: T -> nat, k: nat)
    ensures WithKey([y] + t, key, k) == (if key(y) == k then [y] else []) + WithKey(t, key, k)
  {
    assert ([y] + t)[0] == y && ([y] + t)[1..] == t;
  }

  lemma {:induction false} WithKeyInsert<T>(x: T, s: seq<T>, key: T -> nat, k: nat)
    requires SortedBy(s, key)
    ensures WithKey(InsertBy(x, s, key), key, k) == (if key(x) == k then [x] else []) + WithKey(s, key, k)
    decreases |s|
  {
    if |s| == 0 || key(x) <= key(s[0]) {
      WithKeyCons(x, s, key, k);
    } else {
      var t := s[1..];
      assert SortedBy(t, key) by {
        forall i, j | 0 <= i < j < |t| ensures key(t[i]) <= key(t[j]) {
          assert t[i] == s[i + 1] && t[j] == s[j + 1];
        }
      }
      WithKeyInsert(x, t, key, k);
      WithKeyCons(s[0], InsertBy(x, t, key), key, k);
      assert s == [s[0]] + t;
      WithKeyCons(s[0], t, key, k);
      var hx := if key(x) == k then [x] else [];
      var h0 := if key(s[0]) == k then [s[0]] else [];
      assert h0 == [] || hx == [];
      assert WithKey(InsertBy(x, s, key), key, k) == h0 + (hx + WithKey(t, key, k));
    }
  }

  /** Stability: the elements with any one key keep their relative order. */
  lemma {:induction false} SortByStable<T>(s: seq<T>, key: T -> nat, k: nat)
    ensures WithKey(SortBy(s, key), key, k) == WithKey(s, key, k)
    decreases |s|
  {
    if |s| > 0 {
      SortBySorted(s[1..], key);
      WithKeyInsert(s[0], SortBy(s[1..], key), key, k);
      SortByStable(s[1..], key, k);
    }
  }

  /** Comparator.comparing(Task::getStatus): the enum's declaration order. */
  function TaskKey(t: TaskData): nat {
    Ordinal(t.status)
  }

  function SubtaskKey(s: SubtaskData): nat {
    Ordinal(s.task.status)
  }

  /** In a list sorted by status no DONE entry comes before a NEW one, and no IN_PROGRESS one either. */
  lemma NewBeforeDone(s: seq<TaskData>)
    requires SortedBy(s, TaskKey)
    ensures forall i, j | 0 <= i < j < |s| && s[j].status == NEW :: s[i].status == NEW
    ensures forall i, j | 0 <= i < j < |s| && s[i].status == DONE :: s[j].status == DONE
  {
    forall i, j | 0 <= i < j < |s| && s[j].status == NEW ensures s[i].status == NEW {
      assert TaskKey(s[i]) <= TaskKey(s[j]);
    }
    forall i, j | 0 <= i < j < |s| && s[i].status == DONE ensures s[j].status == DONE {
      assert TaskKey(s[i]) <= TaskKey(s[j]);
    }
  }

  // ---------------------------------------------------------------------

  class TaskManager {
    var tasks: map<int, TaskData>
    var epics: map<int, Epic>
    var subtasks: map<int, SubtaskData>
    var idCounter: int

    /**
     * Every key was handed out by the counter, keys are not shared between
     * the three maps, and a stored task or subtask carries its key as id.
     */
    ghost predicate Valid()
      reads this
    {
      && idCounter >= 0
      && (forall k | k in tasks :: 1 <= k <= idCounter && tasks[k].id == k)
      && (forall k | k in epics :: 1 <= k <= idCounter)
      && (forall k | k in subtasks :: 1 <= k <= idCounter && subtasks[k].task.id == k)
      && tasks.Keys !! epics.Keys && tasks.Keys !! subtasks.Keys && epics.Keys !! subtasks.Keys
    }

    constructor ()
      ensures Valid()
      ensures tasks == map[] && epics == map[] && subtasks == map[] && idCounter == 0
    {
      tasks := map[];
      epics := map[];
      subtasks := map[];
      idCounter := 0;
    }

    /**
     * createTask: a null task is a NullPointerException and an incoming id
     * already used by a task is refused, both with nothing changed;
     * otherwise the task gets the next id, which no stored entity of any
     * kind has, and is stored under it.
     */
    method CreateTask(task: Option<TaskData>) returns (r: Result<TaskData>)
      requires Valid()
      modifies this
      ensures Valid()
      ensures task.None? ==> r == Err(NullPointer) && tasks == old(tasks) && idCounter == old(idCounter)
      ensures task.Some? && task.value.id in old(tasks) ==>
        r == Err(IllegalArgument) && tasks == old(tasks) && idCounter == old(idCounter)
      ensures task.Some? && task.value.id !in old(tasks) ==>
        idCounter == old(idCounter) + 1 && r == Ok(task.value.(id := idCounter)) && tasks == old(tasks)[idCounter := r.value]
      ensures r.Ok? ==> r.value.id !in old(tasks) && r.value.id !in old(epics) && r.value.id !in old(subtasks)
      ensures epics == old(epics) && subtasks == old(subtasks)
    {
      if task.None? {
        return Err(NullPointer);
      }
      if task.value.id in tasks {
        return Err(IllegalArgument);
      }
      idCounter := idCounter + 1;
      var stored := task.value.(id := idCounter);
      tasks := tasks[idCounter := stored];
      return Ok(stored);
    }

    /**
     * createEpic: the same for epics, a null epic being a
     * NullPointerException; the caller's Epic object is renumbered and
     * stored itself.
     */
    method CreateEpic(epic: Epic?) returns (r: Result<Epic>)
      requires Valid()
      modifies this, epic
      ensures Valid()
      ensures epic == null ==> r == Err(NullPointer) && epics == old(epics) && idCounter == old(idCounter)
      ensures epic != null && old(epic.id) in old(epics) ==>
        r == Err(IllegalArgument) && epics == old(epics) && idCounter == old(idCounter) && epic.Data() == old(epic.Data())
      ensures epic != null && old(epic.id) !in old(epics) ==>
        && idCounter == old(idCounter) + 1 && r == Ok(epic)
        && epic.Data() == old(epic.Data()).(id := idCounter) && epics == old(epics)[idCounter := epic]
      ensures r.Ok? ==> idCounter !in old(tasks) && idCounter !in old(epics) && idCounter !in old(subtasks)
      ensures epic != null ==> epic.subtasks == old(epic.subtasks)
      ensures tasks == old(tasks) && subtasks == old(subtasks)
    {
      if epic == null {
        return Err(NullPointer);
      }
      if epic.id in epics {
        return Err(IllegalArgument);
      }
      idCounter := idCounter + 1;
      epic.SetId(idCounter);
      epics := epics[idCounter := epic];
      return Ok(epic);
    }

    /**
     * createSubTask: a null subtask is a NullPointerException; refused when
     * its incoming id is already a subtask's or its epic is not stored;
     * in those cases nothing changes, the epic included. Otherwise it gets
     * the next id, is stored, and is appended to its epic's list.
     */
    method CreateSubTask(sub: Option<SubtaskData>) returns (r: Result<SubtaskData>)
      requires Valid()
      modifies this, if sub.Some? && sub.value.epicId in epics then {epics[sub.value.epicId]} else {}
      ensures Valid()
      ensures sub.None? ==> r == Err(NullPointer) && subtasks == old(subtasks) && idCounter == old(idCounter)
      ensures sub.Some? && (sub.value.task.id in old(subtasks) || sub.value.epicId !in old(epics)) ==>
        r == Err(IllegalArgument) && subtasks == old(subtasks) && idCounter == old(idCounter)
      ensures r.Err? && sub.Some? && sub.value.epicId in old(epics) ==>
        && sub.value.epicId in epics
        && epics[sub.value.epicId].subtasks == old(epics[sub.value.epicId].subtasks)
        && epics[sub.value.epicId].Data() == old(epics[sub.value.epicId].Data())
      ensures sub.Some? && sub.value.task.id !in old(subtasks) && sub.value.epicId in old(epics) ==>
        && idCounter == old(idCounter) + 1
        && r == Ok(sub.value.(task := sub.value.task.(id := idCounter)))
        && subtasks == old(subtasks)[idCounter := r.value]
        && sub.value.epicId in epics
        && epics[sub.value.epicId].subtasks == old(epics[sub.value.epicId].subtasks) + [r.value]
        && epics[sub.value.epicId].Data() == old(epics[sub.value.epicId].Data())
      ensures r.Ok? ==> idCounter !in old(tasks) && idCounter !in old(epics) && idCounter !in old(subtasks)
      ensures tasks == old(tasks) && epics == old(epics)
    {
      if sub.None? {
        return Err(NullPointer);
      }
      var s := sub.value;
      if s.task.id in subtasks {
        return Err(IllegalArgument);
      }
      if s.epicId !in epics {
        return Err(IllegalArgument);
      }
      idCounter := idCounter + 1;
      var stored := s.(task := s.task.(id := idCounter));
      subtasks := subtasks[idCounter := stored];
      var epic := epics[s.epicId];
      epic.AddSubtask(Some(stored));
      return Ok(stored);
    }

    /** getTask: the stored task, or null. */
    method GetTask(id: int) returns (r: Option<TaskData>)
      ensures r.Some? <==> id in tasks
      ensures r.Some? ==> r.value == tasks[id]
    {
      if id in tasks {
        return Some(tasks[id]);
      }
      return None;
    }

    /** getEpic: the stored Epic object, or null. */
    method GetEpic(id: int) returns (r: Epic?)
      ensures r != null <==> id in epics
      ensures r != null ==> r == epics[id]
    {
      if id in epics {
        return epics[id];
      }
      return null;
    }

    /** getSubtask: the stored subtask, or null. */
    method GetSubtask(id: int) returns (r: Option<SubtaskData>)
      ensures r.Some? <==> id in subtasks
      ensures r.Some? ==> r.value == subtasks[id]
    {
      if id in subtasks {
        return Some(subtasks[id]);
      }
      return None;
    }

    /** deleteTask: removes the key from tasks only. */
    method DeleteTask(id: int)
      requires Valid()
      modifies this
      ensures Valid()
      ensures tasks == old(tasks) - {id}
      ensures epics == old(epics) && subtasks == old(subtasks) && idCounter == old(idCounter)
    {
      tasks := tasks - {id};
    }

    /** deleteEpic: removes the key from epics only; its subtasks stay stored. */
    method DeleteEpic(id: int)
      requires Valid()
      modifies this
      ensures Valid()
      ensures epics == old(epics) - {id}
      ensures tasks == old(tasks) && subtasks == old(subtasks) && idCounter == old(idCounter)
    {
      epics := epics - {id};
    }

    /** deleteSubtask: removes the key from subtasks only; the epic's list still holds it. */
    method DeleteSubtask(id: int)
      requires Valid()
      modifies this
      ensures Valid()
      ensures subtasks == old(subtasks) - {id}
      ensures tasks == old(tasks) && epics == old(epics) && idCounter == old(idCounter)
    {
      subtasks := subtasks - {id};
    }

    /** getSubtasksForEpic: a copy of the epic's list; an unknown epic is dereferenced as null. */
    method GetSubtasksForEpic(epicId: int) returns (r: Result<seq<SubtaskData>>)
      ensures epicId !in epics ==> r == Err(NullPointer)
      ensures epicId in epics ==> r == Ok(epics[epicId].subtasks)
    {
      if epicId !in epics {
        return Err(NullPointer);
      }
      var subs := epics[epicId].GetSubtasks();
      return Ok(subs);
    }

    /** The values of `tasks`, gathered in some order with each stored task once. */
    method TaskValues() returns (vals: seq<TaskData>)
      requires Valid()
      ensures |vals| == |tasks|
      ensures forall x :: x in vals <==> x.id in tasks && tasks[x.id] == x
    {
      var keys := tasks.Keys;
      vals := [];
      ghost var done: set<int> := {};
      while keys != {}
        invariant keys + done == tasks.Keys && keys !! done
        invariant |vals| == |done|
        invariant forall x :: x in vals <==> x.id in done && tasks[x.id] == x
        decreases |keys|
      {
        // Only a witness for the choice below, which Dafny cannot find on its own.
        ghost var some := Entities.SomeElement(keys);
        var k :| k in keys;
        vals := vals + [tasks[k]];
        keys := keys - {k};
        done := done + {k};
      }
      assert done == tasks.Keys;
    }

    /** getTasksSortedByStatus: every stored task once, NEW first, then IN_PROGRESS, then DONE. */
    method GetTasksSortedByStatus() returns (r: seq<TaskData>)
      requires Valid()
      ensures SortedBy(r, TaskKey)
      ensures |r| == |tasks|
      ensures forall x :: x in r <==> x.id in tasks && tasks[x.id] == x
    {
      var vals := TaskValues();
      r := SortBy(vals, TaskKey);
      SortBySorted(vals, TaskKey);
      assert forall x :: x in r <==> x in multiset(r);
      assert forall x :: x in vals <==> x in multiset(vals);
    }

    /**
     * getSubtasksSortedByStatus: the epic's subtasks reordered by status,
     * each status group in list order; an unknown epic is dereferenced as null.
     */
    method GetSubtasksSortedByStatus(epicId: int) returns (r: Result<seq<SubtaskData>>)
      ensures epicId !in epics ==> r == Err(NullPointer)
      ensures epicId in epics ==>
        && r.Ok? && SortedBy(r.value, SubtaskKey)
        && multiset(r.value) == multiset(epics[epicId].subtasks)
        && forall k: nat :: WithKey(r.value, SubtaskKey, k) == WithKey(epics[epicId].subtasks, SubtaskKey, k)
    {
      if epicId !in epics {
        return Err(NullPointer);
      }
      var subs := epics[epicId].GetSubtasks();
      SortBySorted(subs, SubtaskKey);
      forall k: nat ensures WithKey(SortBy(subs, SubtaskKey), SubtaskKey, k) == WithKey(subs, SubtaskKey, k) {
        SortByStable(subs, SubtaskKey, k);
      }
      return Ok(SortBy(subs, SubtaskKey));
    }
  }
}
