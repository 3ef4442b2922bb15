/**
 * InMemoryTaskManager: three id-keyed maps of tasks, epics and subtasks, the
 * interval index `prioritized`, the id counter `nextId` and the history it
 * owns. The first part states the invariant on the maps and the index as
 * predicates on values and proves that each kind of change keeps it; the
 * class then performs the changes in place.
 */
module Manager {
  import opened Outcomes
  import opened Kinds
  import opened Entities
  import opened Priority
  import opened Aggregate
  import opened History
  import Text

  /** validateTaskData: a name and a description that are not blank, and a duration that is not negative. */
  predicate TaskDataValid(t: Item) {
    && t.name.Some? && !Text.IsBlank(t.name.value)
    && t.description.Some? && !Text.IsBlank(t.description.value)
    && t.duration.Some? && t.duration.value >= 0
  }

  /** getSubtasksForEpic on a map of subtasks: the stored subtasks whose epic id is `epicId`. */
  function SubtasksOf(subtasks: map<int, Item>, epicId: int): set<Item> {
    set id | id in subtasks && subtasks[id].BelongsTo(epicId) :: subtasks[id]
  }

  /** `values()` of a map, as a set: the order of a HashMap's values is not modelled. */
  function ValuesOf(m: map<int, Item>): set<Item> {
    set id | id in m :: m[id]
  }

  /** The keys of the subtasks whose epic is among `epicIds`. */
  function ChildIds(subtasks: map<int, Item>, epicIds: set<int>): set<int> {
    set k | k in subtasks && subtasks[k].part.SubtaskPart? && subtasks[k].part.epicId in epicIds
  }

  /** `epic.getSubtaskIds().add(id)`. */
  function WithSubtask(epic: Item, id: int): (r: Item)
    requires epic.part.EpicPart?
    ensures r.id == epic.id && r.part.EpicPart? && r.part.subtaskIds == epic.part.subtaskIds + [id]
  {
    epic.(part := EpicPart(epic.part.subtaskIds + [id]))
  }

  /** `prioritizedTasks.removeIf(t -> !(t instanceof SubTask))`. */
  function KeepSubtasks(s: seq<Item>): seq<Item> {
    Where(s, (t: Item) => t.part.SubtaskPart?)
  }

  /** `prioritizedTasks.removeIf(t -> t instanceof SubTask)`. */
  function DropSubtasks(s: seq<Item>): seq<Item> {
    Where(s, (t: Item) => !t.part.SubtaskPart?)
  }

  /** `x` is what `tasks` or `subtasks` stores under its id. */
  predicate Stored(tasks: map<int, Item>, subtasks: map<int, Item>, x: Item) {
    (x.id in tasks && tasks[x.id] == x) || (x.id in subtasks && subtasks[x.id] == x)
  }

  /**
   * The maps: every key was handed out by the counter (1 up to nextId - 1),
   * is the id of the value stored under it, belongs to one map only, and
   * each map holds its own kind.
   */
  predicate KeysOk(tasks: map<int, Item>, epics: map<int, Item>, subtasks: map<int, Item>, nextId: int) {
    && nextId >= 1
    && (forall id | id in tasks ::
          1 <= id < nextId && tasks[id].id == id && tasks[id].part.PlainPart? && id !in epics && id !in subtasks)
    && (forall id | id in epics ::
          1 <= id < nextId && epics[id].id == id && epics[id].part.EpicPart? && id !in subtasks)
    && (forall id | id in subtasks ::
          1 <= id < nextId && subtasks[id].id == id && subtasks[id].part.SubtaskPart?)
  }

  /**
   * The index: ordered by the TreeSet comparator, free of overlaps and of
   * repeated ids, and holding exactly the stored tasks and subtasks.
   */
  predicate IndexOk(tasks: map<int, Item>, subtasks: map<int, Item>, p: seq<Item>) {
    && Sorted(p) && NoOverlaps(p) && DistinctIds(p)
    && (forall i | 0 <= i < |p| :: Stored(tasks, subtasks, p[i]))
    && (forall id | id in tasks :: tasks[id] in p)
    && (forall id | id in subtasks :: subtasks[id] in p)
  }

  predicate Sane(tasks: map<int, Item>, epics: map<int, Item>, subtasks: map<int, Item>, p: seq<Item>, nextId: int) {
    KeysOk(tasks, epics, subtasks, nextId) && IndexOk(tasks, subtasks, p)
  }

  /** Every history entry is the id of something still stored: deletes purge the history. */
  predicate Known(h: seq<Item>, tasks: map<int, Item>, epics: map<int, Item>, subtasks: map<int, Item>) {
    forall i | 0 <= i < |h| :: h[i].id in tasks || h[i].id in epics || h[i].id in subtasks
  }

  /** The id the counter hands out next is taken by nothing stored, indexed or about to be reused. */
  lemma FreshId(tasks: map<int, Item>, epics: map<int, Item>, subtasks: map<int, Item>, p: seq<Item>, nextId: int)
    requires Sane(tasks, epics, subtasks, p, nextId)
    ensures nextId !in tasks && nextId !in epics && nextId !in subtasks
    ensures forall i | 0 <= i < |p| :: p[i].id < nextId
    ensures forall k | k in tasks || k in epics || k in subtasks :: k < nextId
  {
    forall i | 0 <= i < |p| ensures p[i].id < nextId {
      assert Stored(tasks, subtasks, p[i]);
    }
  }

  /**
   * The index after `removeIf` of one id followed by `add(t)`, where the
   * maps now store `t` in place of whatever had its id.
   */
  lemma IndexReplace(tasks: map<int, Item>, subtasks: map<int, Item>, p: seq<Item>,
                     tasks': map<int, Item>, subtasks': map<int, Item>, t: Item)
    requires IndexOk(tasks, subtasks, p) && !HasIntersections(p, t)
    requires forall x :: Stored(tasks', subtasks', x) <==> (Stored(tasks, subtasks, x) && x.id != t.id) || x == t
    requires forall id | id in tasks' :: tasks'[id].id == id
    requires forall id | id in subtasks' :: subtasks'[id].id == id
    ensures IndexOk(tasks', subtasks', Insert(RemoveId(p, t.id), t))
  {
    var q := RemoveId(p, t.id);
    RemoveIdMembers(p, t.id);
    WhereSorted(p, (x: Item) => x.id != t.id);
    WhereKeepsNoOverlaps(p, (x: Item) => x.id != t.id);
    OwnVersionIgnored(p, t);
    forall i | 0 <= i < |q| ensures q[i].id != t.id {
      assert q[i] in q;
    }
    InsertKeepsNoOverlaps(q, t);
    InsertSpec(q, t);
    InsertMembers(q, t);
    var r := Insert(q, t);
    forall i | 0 <= i < |r| ensures Stored(tasks', subtasks', r[i]) {
      assert r[i] in r;
      if r[i] != t {
        var j :| 0 <= j < |p| && p[j] == r[i];
        assert Stored(tasks, subtasks, p[j]);
      }
    }
    forall id | id in tasks' ensures tasks'[id] in r {
      assert Stored(tasks', subtasks', tasks'[id]);
    }
    forall id | id in subtasks' ensures subtasks'[id] in r {
      assert Stored(tasks', subtasks', subtasks'[id]);
    }
  }

  /** The index after `removeIf(t -> !keep(t))`, where the maps now store exactly the kept entries. */
  lemma IndexWhere(tasks: map<int, Item>, subtasks: map<int, Item>, p: seq<Item>,
                   tasks': map<int, Item>, subtasks': map<int, Item>, keep: Item -> bool)
    requires IndexOk(tasks, subtasks, p)
    requires forall x :: Stored(tasks', subtasks', x) <==> Stored(tasks, subtasks, x) && keep(x)
    requires forall id | id in tasks' :: tasks'[id].id == id
    requires forall id | id in subtasks' :: subtasks'[id].id == id
    ensures IndexOk(tasks', subtasks', Where(p, keep))
  {
    var r := Where(p, keep);
    WhereMembers(p, keep);
    WhereSorted(p, keep);
    WhereKeepsNoOverlaps(p, keep);
    forall i | 0 <= i < |r| ensures Stored(tasks', subtasks', r[i]) {
      assert r[i] in r;
      var j :| 0 <= j < |p| && p[j] == r[i];
      assert Stored(tasks, subtasks, p[j]);
    }
    forall id | id in tasks' ensures tasks'[id] in r {
      assert Stored(tasks', subtasks', tasks'[id]);
    }
    forall id | id in subtasks' ensures subtasks'[id] in r {
      assert Stored(tasks', subtasks', subtasks'[id]);
    }
  }

  /** The history after entries were removed or one was viewed: still only ids of stored things. */
  lemma KnownAfter(h: seq<Item>, h': seq<Item>, tasks: map<int, Item>, epics: map<int, Item>, subtasks: map<int, Item>,
                   tasks': map<int, Item>, epics': map<int, Item>, subtasks': map<int, Item>)
    requires Known(h, tasks, epics, subtasks)
    requires forall y | y in h' :: (y in h && (y.id in tasks' || y.id in epics' || y.id in subtasks'
                                               || (y.id !in tasks && y.id !in epics && y.id !in subtasks)))
                                   || y.id in tasks' || y.id in epics' || y.id in subtasks'
    ensures Known(h', tasks', epics', subtasks')
  {
    forall i | 0 <= i < |h'| ensures h'[i].id in tasks' || h'[i].id in epics' || h'[i].id in subtasks' {
      var y := h'[i];
      assert y in h';
      if y in h {
        var j :| 0 <= j < |h| && h[j] == y;
        assert h[j].id in tasks || h[j].id in epics || h[j].id in subtasks;
      }
    }
  }

  /** createTask stores `t` under the fresh id and indexes it. */
  lemma AddTask(tasks: map<int, Item>, epics: map<int, Item>, subtasks: map<int, Item>, p: seq<Item>, nextId: int, t: Item)
    requires Sane(tasks, epics, subtasks, p, nextId)
    requires t.id == nextId && t.part.PlainPart? && !HasIntersections(p, t)
    ensures Sane(tasks[t.id := t], epics, subtasks, Insert(p, t), nextId + 1)
  {
    FreshId(tasks, epics, subtasks, p, nextId);
    assert !HasId(p, t.id);
    RemoveAbsentId(p, t.id);
    IndexReplace(tasks, subtasks, p, tasks[t.id := t], subtasks, t);
  }

  /** createSubTask stores `t` under the fresh id and indexes it. */
  lemma AddSubtask(tasks: map<int, Item>, epics: map<int, Item>, subtasks: map<int, Item>, p: seq<Item>, nextId: int, t: Item)
    requires Sane(tasks, epics, subtasks, p, nextId)
    requires t.id == nextId && t.part.SubtaskPart? && !HasIntersections(p, t)
    ensures Sane(tasks, epics, subtasks[t.id := t], Insert(p, t), nextId + 1)
  {
    FreshId(tasks, epics, subtasks, p, nextId);
    assert !HasId(p, t.id);
    RemoveAbsentId(p, t.id);
    IndexReplace(tasks, subtasks, p, tasks, subtasks[t.id := t], t);
  }

  /** updateTask replaces the stored task and its index entry. */
  lemma ReplaceTask(tasks: map<int, Item>, epics: map<int, Item>, subtasks: map<int, Item>, p: seq<Item>, nextId: int, t: Item)
    requires Sane(tasks, epics, subtasks, p, nextId)
    requires t.id in tasks && t.part.PlainPart? && !HasIntersections(p, t)
    ensures Sane(tasks[t.id := t], epics, subtasks, Insert(RemoveId(p, t.id), t), nextId)
  {
    IndexReplace(tasks, subtasks, p, tasks[t.id := t], subtasks, t);
  }

  /** updateSubTask replaces the stored subtask and its index entry. */
  lemma ReplaceSubtask(tasks: map<int, Item>, epics: map<int, Item>, subtasks: map<int, Item>, p: seq<Item>, nextId: int, t: Item)
    requires Sane(tasks, epics, subtasks, p, nextId)
    requires t.id in subtasks && t.part.SubtaskPart? && !HasIntersections(p, t)
    ensures Sane(tasks, epics, subtasks[t.id := t], Insert(RemoveId(p, t.id), t), nextId)
  {
    IndexReplace(tasks, subtasks, p, tasks, subtasks[t.id := t], t);
  }

  /** deleteTask drops the task and its index entry. */
  lemma DropTask(tasks: map<int, Item>, epics: map<int, Item>, subtasks: map<int, Item>, p: seq<Item>, nextId: int, id: int)
    requires Sane(tasks, epics, subtasks, p, nextId) && id in tasks
    ensures Sane(tasks - {id}, epics, subtasks, RemoveId(p, id), nextId)
  {
    IndexWhere(tasks, subtasks, p, tasks - {id}, subtasks, (t: Item) => t.id != id);
  }

  /** deleteSubtask, and each step of an epic's cascade, drop a subtask and its index entry. */
  lemma DropSubtask(tasks: map<int, Item>, epics: map<int, Item>, subtasks: map<int, Item>, p: seq<Item>, nextId: int, id: int)
    requires Sane(tasks, epics, subtasks, p, nextId) && id in subtasks
    ensures Sane(tasks, epics, subtasks - {id}, RemoveId(p, id), nextId)
  {
    IndexWhere(tasks, subtasks, p, tasks, subtasks - {id}, (t: Item) => t.id != id);
  }

  /** deleteAllTasks empties `tasks` and keeps only subtasks in the index. */
  lemma DropAllTasks(tasks: map<int, Item>, epics: map<int, Item>, subtasks: map<int, Item>, p: seq<Item>, nextId: int)
    requires Sane(tasks, epics, subtasks, p, nextId)
    ensures Sane(map[], epics, subtasks, KeepSubtasks(p), nextId)
  {
    IndexWhere(tasks, subtasks, p, map[], subtasks, (t: Item) => t.part.SubtaskPart?);
  }

  /** deleteAllSubtasks empties `subtasks` and keeps only tasks in the index. */
  lemma DropAllSubtasks(tasks: map<int, Item>, epics: map<int, Item>, subtasks: map<int, Item>, p: seq<Item>, nextId: int)
    requires Sane(tasks, epics, subtasks, p, nextId)
    ensures Sane(tasks, epics, map[], DropSubtasks(p), nextId)
  {
    IndexWhere(tasks, subtasks, p, tasks, map[], (t: Item) => !t.part.SubtaskPart?);
  }

  /** Removing an epic's subtasks from the map and then its cascade for one more epic compose. */
  lemma ChildIdsStep(subtasks: map<int, Item>, done: set<int>, e: int)
    requires e !in done
    ensures ChildIds(subtasks - ChildIds(subtasks, done), {e}) == ChildIds(subtasks, {e})
    ensures ChildIds(subtasks, done) + ChildIds(subtasks, {e}) == ChildIds(subtasks, done + {e})
    ensures (subtasks - ChildIds(subtasks, done)) - ChildIds(subtasks, {e}) == subtasks - ChildIds(subtasks, done + {e})
  {
  }

  /** One more epic's cascade, after those of `done`, is the cascade of `done + {e}`. */
  lemma CascadeStep(s0: map<int, Item>, p0: seq<Item>, h0: seq<Item>, done: set<int>, e: int)
    requires e !in done
    ensures var s := s0 - ChildIds(s0, done);
            && s - ChildIds(s, {e}) == s0 - ChildIds(s0, done + {e})
            && RemoveIds(RemoveIds(p0, ChildIds(s0, done)), ChildIds(s, {e})) == RemoveIds(p0, ChildIds(s0, done + {e}))
            && RemoveIds(RemoveIds(h0, ChildIds(s0, done) + done), ChildIds(s, {e}) + {e})
               == RemoveIds(h0, ChildIds(s0, done + {e}) + (done + {e}))
  {
    ChildIdsStep(s0, done, e);
    RemoveIdsTwice(p0, ChildIds(s0, done), ChildIds(s0, {e}));
    RemoveIdsTwice(h0, ChildIds(s0, done) + done, ChildIds(s0, {e}) + {e});
    assert ChildIds(s0, done) + done + (ChildIds(s0, {e}) + {e}) == ChildIds(s0, done + {e}) + (done + {e});
  }

  class InMemoryTaskManager {
    var tasks: map<int, Item>
    var epics: map<int, Item>
    var subtasks: map<int, Item>
    /** The `prioritizedTasks` TreeSet, in iteration order. */
    var prioritized: seq<Item>
    var nextId: int
    /** The history the manager owns (Managers.getDefaultHistory() in the source). */
    const history: HistoryManager

    ghost predicate Valid()
      reads this, history
    {
      && Sane(tasks, epics, subtasks, prioritized, nextId)
      && history.Valid()
      && Known(history.Contents, tasks, epics, subtasks)
    }

    /** A fresh manager: nothing stored, an empty history, and ids starting at 1. */
    constructor ()
      ensures Valid() && fresh(history)
      ensures tasks == map[] && epics == map[] && subtasks == map[] && prioritized == []
      ensures nextId == 1 && history.Contents == []
    {
      tasks, epics, subtasks := map[], map[], map[];
      prioritized := [];
      nextId := 1;
      history := new HistoryManager();
    }

    /**
     * createTask: invalid data is rejected before an id is taken; otherwise
     * the task takes the next id, and is stored and indexed unless it
     * overlaps an indexed entry.
     */
    method CreateTask(task: Option<Item>) returns (r: Result<Item>)
      requires Valid()
      requires task.Some? ==> task.value.part.PlainPart?
      modifies this
      ensures Valid()
      ensures epics == old(epics) && subtasks == old(subtasks)
      ensures task.None? || !TaskDataValid(task.value) ==>
                r == Err(IllegalArgument) && nextId == old(nextId)
                && tasks == old(tasks) && prioritized == old(prioritized)
      ensures task.Some? && TaskDataValid(task.value) ==>
                var t := task.value.(id := old(nextId));
                && nextId == old(nextId) + 1
                && (HasIntersections(old(prioritized), t) ==>
                      r == Err(TaskIntersection) && tasks == old(tasks) && prioritized == old(prioritized))
                && (!HasIntersections(old(prioritized), t) ==>
                      r == Ok(t) && tasks == old(tasks)[t.id := t] && prioritized == Insert(old(prioritized), t))
    {
      if task.None? || !TaskDataValid(task.value) {
        return Err(IllegalArgument);
      }
      var t := task.value.(id := nextId);
      nextId := nextId + 1;
      if HasIntersections(prioritized, t) {
        return Err(TaskIntersection);
      }
      AddTask(tasks, epics, subtasks, prioritized, nextId - 1, t);
      tasks := tasks[t.id := t];
      prioritized := Insert(prioritized, t);
      r := Ok(t);
    }

    /** createEpic: the epic takes the next id and is stored. */
    method CreateEpic(epic: Item) returns (r: Item)
      requires Valid() && epic.part.EpicPart?
      modifies this
      ensures Valid()
      ensures r == epic.(id := old(nextId)) && nextId == old(nextId) + 1
      ensures epics == old(epics)[r.id := r]
      ensures tasks == old(tasks) && subtasks == old(subtasks) && prioritized == old(prioritized)
    {
      FreshId(tasks, epics, subtasks, prioritized, nextId);
      r := epic.(id := nextId);
      nextId := nextId + 1;
      epics := epics[r.id := r];
    }

    /**
     * createSubTask: the subtask takes the next id first; then a missing
     * status, an unknown epic or an overlap rejects it. Otherwise it is
     * stored and indexed, its id is appended to its epic's subtask ids and
     * the epic is recomputed.
     */
    method CreateSubTask(subtask: Item) returns (r: Result<Item>)
      requires Valid() && subtask.part.SubtaskPart?
      modifies this
      ensures Valid()
      ensures nextId == old(nextId) + 1 && tasks == old(tasks)
      ensures var t := subtask.(id := old(nextId));
              var e := subtask.part.epicId;
              if t.status.None? || e !in old(epics) || HasIntersections(old(prioritized), t) then
                && r == Err(if t.status.None? || e !in old(epics) then IllegalArgument else TaskIntersection)
                && epics == old(epics) && subtasks == old(subtasks) && prioritized == old(prioritized)
              else
                && r == Ok(t)
                && subtasks == old(subtasks)[t.id := t]
                && prioritized == Insert(old(prioritized), t)
                && epics == old(epics)[e := Recompute(WithSubtask(old(epics)[e], t.id), SubtasksOf(subtasks, e))]
    {
      var t := subtask.(id := nextId);
      nextId := nextId + 1;
      if t.status.None? {
        return Err(IllegalArgument);
      }
      var e := t.part.epicId;
      if e !in epics {
        return Err(IllegalArgument);
      }
      if HasIntersections(prioritized, t) {
        return Err(TaskIntersection);
      }
      AddSubtask(tasks, epics, subtasks, prioritized, nextId - 1, t);
      subtasks := subtasks[t.id := t];
      prioritized := Insert(prioritized, t);
      LinkToEpic(t.id, e);
      r := Ok(t);
    }

    /** The tail of createSubTask: the epic records the new subtask id and is recomputed. */
    method LinkToEpic(id: int, e: int)
      requires Valid() && e in epics
      modifies this
      ensures Valid()
      ensures tasks == old(tasks) && subtasks == old(subtasks) && prioritized == old(prioritized) && nextId == old(nextId)
      ensures epics == old(epics)[e := Recompute(WithSubtask(old(epics)[e], id), SubtasksOf(subtasks, e))]
    {
      epics := epics[e := WithSubtask(epics[e], id)];
      var _ := UpdateEpicStatus(e);
    }

    /**
     * updateSubTask: an unknown id or an overlap with another entry is
     * rejected. Otherwise the subtask replaces the stored one and its index
     * entry, and its epic is recomputed; when that epic does not exist the
     * recomputation dereferences null, after the subtask was stored.
     */
    method UpdateSubTask(subtask: Item) returns (r: Result<Item>)
      requires Valid() && subtask.part.SubtaskPart?
      modifies this
      ensures Valid()
      ensures nextId == old(nextId) && tasks == old(tasks)
      ensures subtask.id !in old(subtasks) ==>
                r == Err(IllegalArgument) && subtasks == old(subtasks) && epics == old(epics) && prioritized == old(prioritized)
      ensures subtask.id in old(subtasks) && HasIntersections(old(prioritized), subtask) ==>
                r == Err(TaskIntersection) && subtasks == old(subtasks) && epics == old(epics) && prioritized == old(prioritized)
      ensures subtask.id in old(subtasks) && !HasIntersections(old(prioritized), subtask) ==>
                var e := subtask.part.epicId;
                && subtasks == old(subtasks)[subtask.id := subtask]
                && prioritized == Insert(RemoveId(old(prioritized), subtask.id), subtask)
                && (e in old(epics) ==>
                      r == Ok(subtask) && epics == old(epics)[e := Recompute(old(epics)[e], SubtasksOf(subtasks, e))])
                && (e !in old(epics) ==> r == Err(NullPointer) && epics == old(epics))
    {
      if subtask.id !in subtasks {
        return Err(IllegalArgument);
      }
      if HasIntersections(prioritized, subtask) {
        return Err(TaskIntersection);
      }
      ReplaceSubtask(tasks, epics, subtasks, prioritized, nextId, subtask);
      subtasks := subtasks[subtask.id := subtask];
      prioritized := Insert(RemoveId(prioritized, subtask.id), subtask);
      var failure := UpdateEpicStatus(subtask.part.epicId);
      r := if failure.Some? then Err(failure.value) else Ok(subtask);
    }

    /** updateTask: an unknown id, invalid data or an overlap is rejected; otherwise the task and its index entry are replaced. */
    method UpdateTask(task: Item) returns (r: Result<Item>)
      requires Valid() && task.part.PlainPart?
      modifies this
      ensures Valid()
      ensures nextId == old(nextId) && epics == old(epics) && subtasks == old(subtasks)
      ensures task.id !in old(tasks) || !TaskDataValid(task) ==>
                r == Err(IllegalArgument) && tasks == old(tasks) && prioritized == old(prioritized)
      ensures task.id in old(tasks) && TaskDataValid(task) && HasIntersections(old(prioritized), task) ==>
                r == Err(TaskIntersection) && tasks == old(tasks) && prioritized == old(prioritized)
      ensures task.id in old(tasks) && TaskDataValid(task) && !HasIntersections(old(prioritized), task) ==>
                r == Ok(task) && tasks == old(tasks)[task.id := task]
                && prioritized == Insert(RemoveId(old(prioritized), task.id), task)
    {
      if task.id !in tasks {
        return Err(IllegalArgument);
      }
      if !TaskDataValid(task) {
        return Err(IllegalArgument);
      }
      if HasIntersections(prioritized, task) {
        return Err(TaskIntersection);
      }
      ReplaceTask(tasks, epics, subtasks, prioritized, nextId, task);
      tasks := tasks[task.id := task];
      prioritized := Insert(RemoveId(prioritized, task.id), task);
      r := Ok(task);
    }

    /** updateEpic: an unknown id is rejected; otherwise the epic replaces the stored one and is recomputed. */
    method UpdateEpic(epic: Item) returns (r: Result<Item>)
      requires Valid() && epic.part.EpicPart?
      modifies this
      ensures Valid()
      ensures nextId == old(nextId) && tasks == old(tasks) && subtasks == old(subtasks) && prioritized == old(prioritized)
      ensures epic.id !in old(epics) ==> r == Err(IllegalArgument) && epics == old(epics)
      ensures epic.id in old(epics) ==>
                var e := Recompute(epic, SubtasksOf(subtasks, epic.id));
                r == Ok(e) && epics == old(epics)[epic.id := e]
    {
      if epic.id !in epics {
        return Err(IllegalArgument);
      }
      epics := epics[epic.id := epic];
      var _ := UpdateEpicStatus(epic.id);
      r := Ok(epics[epic.id]);
    }

    /**
     * updateEpicStatus: recompute the epic's status and time span from the
     * subtasks that name it. A missing epic is dereferenced as null, which
     * throws before anything changes.
     */
    method UpdateEpicStatus(epicId: int) returns (failure: Option<Failure>)
      requires Sane(tasks, epics, subtasks, prioritized, nextId)
      modifies this
      ensures Sane(tasks, epics, subtasks, prioritized, nextId)
      ensures tasks == old(tasks) && subtasks == old(subtasks) && prioritized == old(prioritized) && nextId == old(nextId)
      ensures epicId !in old(epics) ==> failure == Some(NullPointer) && epics == old(epics)
      ensures epicId in old(epics) ==>
                failure.None? && epics == old(epics)[epicId := Recompute(old(epics)[epicId], SubtasksOf(subtasks, epicId))]
    {
      var epicSubtasks := GetSubtasksForEpic(epicId);
      if epicId !in epics {
        return Some(NullPointer);
      }
      var epic := epics[epicId];
      epics := epics[epicId := Recompute(epic, epicSubtasks)];
      failure := None;
    }

    /** recalculateEpicFields: updateEpicStatus for the epic's id. */
    method RecalculateEpicFields(epic: Item) returns (failure: Option<Failure>)
      requires Valid()
      modifies this
      ensures Valid()
      ensures tasks == old(tasks) && subtasks == old(subtasks) && prioritized == old(prioritized) && nextId == old(nextId)
      ensures epic.id !in old(epics) ==> failure == Some(NullPointer) && epics == old(epics)
      ensures epic.id in old(epics) ==>
                failure.None? && epics == old(epics)[epic.id := Recompute(old(epics)[epic.id], SubtasksOf(subtasks, epic.id))]
    {
      failure := UpdateEpicStatus(epic.id);
    }

    /** getTask: the stored task, if any; a found task is recorded as viewed. */
    method GetTask(id: int) returns (r: Option<Item>)
      requires Valid()
      modifies history
      ensures Valid()
      ensures r == (if id in tasks then Some(tasks[id]) else None)
      ensures r.None? ==> history.Contents == old(history.Contents)
      ensures r.Some? ==> history.Contents == RemoveId(old(history.Contents), id) + [r.value]
    {
      r := if id in tasks then Some(tasks[id]) else None;
      View(r);
    }

    /** getEpic: the stored epic, if any; a found epic is recorded as viewed. */
    method GetEpic(id: int) returns (r: Option<Item>)
      requires Valid()
      modifies history
      ensures Valid()
      ensures r == (if id in epics then Some(epics[id]) else None)
      ensures r.None? ==> history.Contents == old(history.Contents)
      ensures r.Some? ==> history.Contents == RemoveId(old(history.Contents), id) + [r.value]
    {
      r := if id in epics then Some(epics[id]) else None;
      View(r);
    }

    /** getSubtask: the stored subtask, if any; a found subtask is recorded as viewed. */
    method GetSubtask(id: int) returns (r: Option<Item>)
      requires Valid()
      modifies history
      ensures Valid()
      ensures r == (if id in subtasks then Some(subtasks[id]) else None)
      ensures r.None? ==> history.Contents == old(history.Contents)
      ensures r.Some? ==> history.Contents == RemoveId(old(history.Contents), id) + [r.value]
    {
      r := if id in subtasks then Some(subtasks[id]) else None;
      View(r);
    }

    /** `ifPresent(historyManager::add)` for something stored. */
    method View(found: Option<Item>)
      requires Valid()
      requires found.Some? ==> found.value.id in tasks || found.value.id in epics || found.value.id in subtasks
      modifies history
      ensures Valid()
      ensures found.None? ==> history.Contents == old(history.Contents)
      ensures found.Some? ==> history.Contents == RemoveId(old(history.Contents), found.value.id) + [found.value]
    {
      if found.Some? {
        ghost var h := history.Contents;
        history.Add(found);
        RemoveIdMembers(h, found.value.id);
        KnownAfter(h, history.Contents, tasks, epics, subtasks, tasks, epics, subtasks);
      }
    }

    /** deleteTask: a stored task leaves the history, the index and `tasks`; an absent id changes nothing. */
    method DeleteTask(id: int)
      requires Valid()
      modifies this, history
      ensures Valid()
      ensures epics == old(epics) && subtasks == old(subtasks) && nextId == old(nextId)
      ensures id !in old(tasks) ==>
                tasks == old(tasks) && prioritized == old(prioritized) && history.Contents == old(history.Contents)
      ensures id in old(tasks) ==>
                && tasks == old(tasks) - {id}
                && prioritized == RemoveId(old(prioritized), id)
                && history.Contents == RemoveId(old(history.Contents), id)
    {
      if id in tasks {
        ghost var h := history.Contents;
        history.Remove(id);
        DropTask(tasks, epics, subtasks, prioritized, nextId, id);
        prioritized := RemoveId(prioritized, id);
        tasks := tasks - {id};
        RemoveIdMembers(h, id);
        KnownAfter(h, history.Contents, old(tasks), epics, subtasks, tasks, epics, subtasks);
      }
    }

    /** One step of deleteEpic's cascade: the subtask leaves the history, `subtasks` and the index. */
    method ForgetSubtask(id: int)
      requires Valid() && id in subtasks
      modifies this, history
      ensures Valid()
      ensures tasks == old(tasks) && epics == old(epics) && nextId == old(nextId)
      ensures subtasks == old(subtasks) - {id}
      ensures prioritized == RemoveId(old(prioritized), id)
      ensures history.Contents == RemoveId(old(history.Contents), id)
    {
      ghost var h := history.Contents;
      history.Remove(id);
      DropSubtask(tasks, epics, subtasks, prioritized, nextId, id);
      subtasks := subtasks - {id};
      prioritized := RemoveId(prioritized, id);
      RemoveIdMembers(h, id);
      KnownAfter(h, history.Contents, tasks, epics, old(subtasks), tasks, epics, subtasks);
    }

    /** ForgetSubtask once the subtasks in `done` are already gone. */
    method ForgetSubtaskAfter(id: int, ghost s0: map<int, Item>, ghost p0: seq<Item>, ghost h0: seq<Item>, ghost done: set<int>)
      requires Valid() && id in subtasks
      requires subtasks == s0 - done && prioritized == RemoveIds(p0, done) && history.Contents == RemoveIds(h0, done)
      modifies this, history
      ensures Valid()
      ensures tasks == old(tasks) && epics == old(epics) && nextId == old(nextId)
      ensures subtasks == s0 - (done + {id})
      ensures prioritized == RemoveIds(p0, done + {id}) && history.Contents == RemoveIds(h0, done + {id})
    {
      RemoveIdAsIds(prioritized, id);
      RemoveIdsTwice(p0, done, {id});
      RemoveIdAsIds(history.Contents, id);
      RemoveIdsTwice(h0, done, {id});
      ForgetSubtask(id);
    }

    /**
     * The cascade of deleteEpic: every subtask naming `epicId` leaves the
     * history, `subtasks` and the index, one at a time.
     */
    method PurgeSubtasksOf(epicId: int)
      requires Valid()
      modifies this, history
      ensures Valid()
      ensures tasks == old(tasks) && epics == old(epics) && nextId == old(nextId)
      ensures subtasks == old(subtasks) - ChildIds(old(subtasks), {epicId})
      ensures prioritized == RemoveIds(old(prioritized), ChildIds(old(subtasks), {epicId}))
      ensures history.Contents == RemoveIds(old(history.Contents), ChildIds(old(subtasks), {epicId}))
    {
      var children := ChildIds(subtasks, {epicId});
      ghost var s0, p0, h0 := subtasks, prioritized, history.Contents;
      var pending := children;
      ghost var done: set<int> := {};
      RemoveNoIds(p0);
      RemoveNoIds(h0);
      while pending != {}
        invariant pending <= children && done == children - pending
        invariant Valid()
        invariant tasks == old(tasks) && epics == old(epics) && nextId == old(nextId)
        invariant subtasks == s0 - done
        invariant prioritized == RemoveIds(p0, done) && history.Contents == RemoveIds(h0, done)
        decreases |pending|
      {
        ghost var some := SomeElement(pending);
        var id :| id in pending;
        ForgetSubtaskAfter(id, s0, p0, h0, done);
        pending := pending - {id};
        done := done + {id};
      }
      assert done == children;
    }

    /**
     * The body of deleteEpic before the epic leaves `epics`: its subtasks go
     * as in the cascade, then the epic leaves the history.
     */
    method PurgeEpic(id: int)
      requires Valid() && id in epics
      modifies this, history
      ensures Valid()
      ensures tasks == old(tasks) && epics == old(epics) && nextId == old(nextId)
      ensures subtasks == old(subtasks) - ChildIds(old(subtasks), {id})
      ensures prioritized == RemoveIds(old(prioritized), ChildIds(old(subtasks), {id}))
      ensures history.Contents == RemoveIds(old(history.Contents), ChildIds(old(subtasks), {id}) + {id})
    {
      PurgeSubtasksOf(id);
      ghost var h := history.Contents;
      history.Remove(id);
      RemoveIdAsIds(h, id);
      RemoveIdsTwice(old(history.Contents), ChildIds(old(subtasks), {id}), {id});
      RemoveIdMembers(h, id);
      KnownAfter(h, history.Contents, tasks, epics, subtasks, tasks, epics, subtasks);
    }

    /** PurgeEpic once the epics in `done` are already purged. */
    method PurgeEpicAfter(id: int, ghost s0: map<int, Item>, ghost p0: seq<Item>, ghost h0: seq<Item>, ghost done: set<int>)
      requires Valid() && id in epics && id !in done
      requires subtasks == s0 - ChildIds(s0, done) && prioritized == RemoveIds(p0, ChildIds(s0, done))
      requires history.Contents == RemoveIds(h0, ChildIds(s0, done) + done)
      modifies this, history
      ensures Valid()
      ensures tasks == old(tasks) && epics == old(epics) && nextId == old(nextId)
      ensures subtasks == s0 - ChildIds(s0, done + {id}) && prioritized == RemoveIds(p0, ChildIds(s0, done + {id}))
      ensures history.Contents == RemoveIds(h0, ChildIds(s0, done + {id}) + (done + {id}))
    {
      CascadeStep(s0, p0, h0, done, id);
      PurgeEpic(id);
    }

    /** deleteEpic: its subtasks go as in the cascade, then the epic leaves the history and `epics`. */
    method DeleteEpic(id: int)
      requires Valid()
      modifies this, history
      ensures Valid()
      ensures tasks == old(tasks) && nextId == old(nextId)
      ensures id !in old(epics) ==>
                && epics == old(epics) && subtasks == old(subtasks) && prioritized == old(prioritized)
                && history.Contents == old(history.Contents)
      ensures id in old(epics) ==>
                var children := ChildIds(old(subtasks), {id});
                && epics == old(epics) - {id}
                && subtasks == old(subtasks) - children
                && prioritized == RemoveIds(old(prioritized), children)
                && history.Contents == RemoveIds(old(history.Contents), children + {id})
    {
      if id in epics {
        PurgeEpic(id);
        RemoveIdsMembers(old(history.Contents), ChildIds(old(subtasks), {id}) + {id});
        epics := epics - {id};
        KnownAfter(history.Contents, history.Contents, tasks, old(epics), subtasks, tasks, epics, subtasks);
      }
    }

    /**
     * deleteSubtask: a stored subtask leaves the index and `subtasks`, its
     * epic (when it exists) is recomputed, and it leaves the history. Its id
     * stays in the epic's subtask ids.
     */
    method DeleteSubtask(id: int)
      requires Valid()
      modifies this, history
      ensures Valid()
      ensures tasks == old(tasks) && nextId == old(nextId)
      ensures id !in old(subtasks) ==>
                && epics == old(epics) && subtasks == old(subtasks) && prioritized == old(prioritized)
                && history.Contents == old(history.Contents)
      ensures id in old(subtasks) ==>
                var e := old(subtasks)[id].part.epicId;
                && subtasks == old(subtasks) - {id}
                && prioritized == RemoveId(old(prioritized), id)
                && history.Contents == RemoveId(old(history.Contents), id)
                && epics == (if e in old(epics) then old(epics)[e := Recompute(old(epics)[e], SubtasksOf(subtasks, e))]
                             else old(epics))
    {
      if id in subtasks {
        var subtask := subtasks[id];
        DropSubtask(tasks, epics, subtasks, prioritized, nextId, id);
        prioritized := RemoveId(prioritized, id);
        subtasks := subtasks - {id};
        var e := subtask.part.epicId;
        if e in epics {
          var _ := UpdateEpicStatus(e);
        }
        ghost var h := history.Contents;
        history.Remove(id);
        RemoveIdMembers(h, id);
        KnownAfter(h, history.Contents, tasks, old(epics), old(subtasks), tasks, epics, subtasks);
      }
    }

    /** getSubtasksForEpic: the stored subtasks whose epic id is `epicId`. */
    function GetSubtasksForEpic(epicId: int): (r: set<Item>)
      reads this
      requires Sane(tasks, epics, subtasks, prioritized, nextId)
      ensures forall s :: s in r <==> s.id in subtasks && subtasks[s.id] == s && s.BelongsTo(epicId)
    {
      SubtasksOf(subtasks, epicId)
    }

    /** getAllTasks: the stored tasks. */
    function GetAllTasks(): (r: set<Item>)
      reads this
      requires Sane(tasks, epics, subtasks, prioritized, nextId)
      ensures forall t :: t in r <==> t.id in tasks && tasks[t.id] == t
    {
      ValuesOf(tasks)
    }

    /** getAllEpics: the stored epics. */
    function GetAllEpics(): (r: set<Item>)
      reads this
      requires Sane(tasks, epics, subtasks, prioritized, nextId)
      ensures forall e :: e in r <==> e.id in epics && epics[e.id] == e
    {
      ValuesOf(epics)
    }

    /** getAllSubTasks: the stored subtasks. */
    function GetAllSubTasks(): (r: set<Item>)
      reads this
      requires Sane(tasks, epics, subtasks, prioritized, nextId)
      ensures forall s :: s in r <==> s.id in subtasks && subtasks[s.id] == s
    {
      ValuesOf(subtasks)
    }

    /** deleteAllTasks: every task leaves the history, the index keeps only subtasks, and `tasks` is emptied. */
    method DeleteAllTasks()
      requires Valid()
      modifies this, history
      ensures Valid()
      ensures epics == old(epics) && subtasks == old(subtasks) && nextId == old(nextId)
      ensures tasks == map[] && prioritized == KeepSubtasks(old(prioritized))
      ensures history.Contents == RemoveIds(old(history.Contents), old(tasks).Keys)
    {
      var pending := tasks.Keys;
      ghost var done: set<int> := {};
      RemoveNoIds(history.Contents);
      while pending != {}
        invariant pending <= old(tasks).Keys && done == old(tasks).Keys - pending
        invariant Valid()
        invariant tasks == old(tasks) && epics == old(epics) && subtasks == old(subtasks)
        invariant prioritized == old(prioritized) && nextId == old(nextId)
        invariant history.Contents == RemoveIds(old(history.Contents), done)
        decreases |pending|
      {
        ghost var some := SomeElement(pending);
        var id :| id in pending;
        ForgetViewAfter(id, old(history.Contents), done);
        pending := pending - {id};
        done := done + {id};
      }
      assert done == old(tasks).Keys;
      RemoveIdsMembers(old(history.Contents), old(tasks).Keys);
      ClearTasks();
    }

    /** The tail of deleteAllTasks, once no task is in the history: the index keeps only subtasks and `tasks` is emptied. */
    method ClearTasks()
      requires Valid() && forall y | y in history.Contents :: y.id !in tasks
      modifies this
      ensures Valid()
      ensures epics == old(epics) && subtasks == old(subtasks) && nextId == old(nextId)
      ensures tasks == map[] && prioritized == KeepSubtasks(old(prioritized))
    {
      DropAllTasks(tasks, epics, subtasks, prioritized, nextId);
      prioritized := KeepSubtasks(prioritized);
      tasks := map[];
      KnownAfter(history.Contents, history.Contents, old(tasks), epics, subtasks, tasks, epics, subtasks);
    }

    /**
     * deleteAllEpics: for each epic, its subtasks go as in the cascade and
     * the epic leaves the history; then `epics` is emptied. Subtasks whose
     * epic id names no epic stay.
     */
    method DeleteAllEpics()
      requires Valid()
      modifies this, history
      ensures Valid()
      ensures tasks == old(tasks) && nextId == old(nextId) && epics == map[]
      ensures var children := ChildIds(old(subtasks), old(epics).Keys);
              && subtasks == old(subtasks) - children
              && prioritized == RemoveIds(old(prioritized), children)
              && history.Contents == RemoveIds(old(history.Contents), children + old(epics).Keys)
    {
      ghost var s0, p0, h0 := subtasks, prioritized, history.Contents;
      var pending := epics.Keys;
      ghost var done: set<int> := {};
      RemoveNoIds(p0);
      RemoveNoIds(h0);
      assert ChildIds(s0, done) == {};
      assert ChildIds(s0, done) + done == {};
      while pending != {}
        invariant pending <= old(epics).Keys && done == old(epics).Keys - pending
        invariant Valid()
        invariant tasks == old(tasks) && epics == old(epics) && nextId == old(nextId)
        invariant subtasks == s0 - ChildIds(s0, done)
        invariant prioritized == RemoveIds(p0, ChildIds(s0, done))
        invariant history.Contents == RemoveIds(h0, ChildIds(s0, done) + done)
        decreases |pending|
      {
        ghost var some := SomeElement(pending);
        var id :| id in pending;
        PurgeEpicAfter(id, s0, p0, h0, done);
        pending := pending - {id};
        done := done + {id};
      }
      assert done == old(epics).Keys;
      RemoveIdsMembers(h0, ChildIds(s0, done) + done);
      ClearEpics();
    }

    /** `epics.clear()` once no epic is in the history. */
    method ClearEpics()
      requires Valid() && forall y | y in history.Contents :: y.id !in epics
      modifies this
      ensures Valid()
      ensures tasks == old(tasks) && subtasks == old(subtasks) && prioritized == old(prioritized) && nextId == old(nextId)
      ensures epics == map[]
    {
      epics := map[];
      KnownAfter(history.Contents, history.Contents, tasks, old(epics), subtasks, tasks, epics, subtasks);
    }

    /**
     * deleteAllSubtasks: every subtask leaves the history, the index keeps
     * only tasks, and `subtasks` is emptied. Epics are not recomputed.
     */
    method DeleteAllSubtasks()
      requires Valid()
      modifies this, history
      ensures Valid()
      ensures tasks == old(tasks) && epics == old(epics) && nextId == old(nextId)
      ensures subtasks == map[] && prioritized == DropSubtasks(old(prioritized))
      ensures history.Contents == RemoveIds(old(history.Contents), old(subtasks).Keys)
    {
      var pending := subtasks.Keys;
      ghost var done: set<int> := {};
      RemoveNoIds(history.Contents);
      while pending != {}
        invariant pending <= old(subtasks).Keys && done == old(subtasks).Keys - pending
        invariant Valid()
        invariant tasks == old(tasks) && epics == old(epics) && subtasks == old(subtasks)
        invariant prioritized == old(prioritized) && nextId == old(nextId)
        invariant history.Contents == RemoveIds(old(history.Contents), done)
        decreases |pending|
      {
        ghost var some := SomeElement(pending);
        var id :| id in pending;
        ForgetViewAfter(id, old(history.Contents), done);
        pending := pending - {id};
        done := done + {id};
      }
      assert done == old(subtasks).Keys;
      RemoveIdsMembers(old(history.Contents), old(subtasks).Keys);
      ClearSubtasks();
    }

    /** The tail of deleteAllSubtasks, once no subtask is in the history: the index keeps only tasks and `subtasks` is emptied. */
    method ClearSubtasks()
      requires Valid() && forall y | y in history.Contents :: y.id !in subtasks
      modifies this
      ensures Valid()
      ensures tasks == old(tasks) && epics == old(epics) && nextId == old(nextId)
      ensures subtasks == map[] && prioritized == DropSubtasks(old(prioritized))
    {
      DropAllSubtasks(tasks, epics, subtasks, prioritized, nextId);
      prioritized := DropSubtasks(prioritized);
      subtasks := map[];
      KnownAfter(history.Contents, history.Contents, tasks, epics, old(subtasks), tasks, epics, subtasks);
    }

    /** One `historyManager.remove` of a bulk delete, after those of `done`; nothing stored changes. */
    method ForgetViewAfter(id: int, ghost h0: seq<Item>, ghost done: set<int>)
      requires Valid() && history.Contents == RemoveIds(h0, done)
      modifies history
      ensures Valid() && history.Contents == RemoveIds(h0, done + {id})
    {
      ghost var h := history.Contents;
      history.Remove(id);
      RemoveIdAsIds(h, id);
      RemoveIdsTwice(h0, done, {id});
      RemoveIdMembers(h, id);
      KnownAfter(h, history.Contents, tasks, epics, subtasks, tasks, epics, subtasks);
    }

    /** getHistory: the viewed entries, oldest first. */
    method GetHistory() returns (h: seq<Item>)
      requires Valid()
      ensures h == history.Contents
    {
      h := history.GetHistory();
    }

    /**
     * getPrioritizedTasks: the stored tasks and subtasks, ordered by start
     * time with untimed entries last and ties broken by id, each id once,
     * no two overlapping.
     */
    function GetPrioritizedTasks(): (r: seq<Item>)
      reads this
      requires Sane(tasks, epics, subtasks, prioritized, nextId)
      ensures Sorted(r) && DistinctIds(r) && NoOverlaps(r)
      ensures forall x :: x in r <==> Stored(tasks, subtasks, x)
    {
      prioritized
    }
  }
}
