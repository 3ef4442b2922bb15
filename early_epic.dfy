/**
 * The Epic of the first revision (default package): a Task that keeps its
 * SubTask objects in a list and rolls their statuses up in a loop.
 * Subtasks are held as values; the objects the Java list shares with the
 * manager are not modelled.
 */
module EarlyEpic {
  import opened Outcomes
  import opened Kinds
  import opened TaskEntity

  /** A SubTask of that revision: its task fields and the id of its epic. */
  datatype SubtaskData = SubtaskData(task: TaskData, epicId: int)

  /** Every subtask in `subs` has status `st` (true of an empty list). */
  predicate AllHave(subs: seq<SubtaskData>, st: Status) {
    forall i | 0 <= i < |subs| :: subs[i].task.status == st
  }

  /** The status updateStatus computes for a list of subtasks. */
  function Rollup(subs: seq<SubtaskData>): Status {
    EpicStatusRule(|subs| == 0, AllHave(subs, DONE), AllHave(subs, NEW))
  }

  /** The three outcomes of the rollup, each characterised exactly. */
  lemma RollupCases(subs: seq<SubtaskData>)
    ensures Rollup(subs) == DONE <==> |subs| > 0 && AllHave(subs, DONE)
    ensures Rollup(subs) == NEW <==> |subs| == 0 || AllHave(subs, NEW)
    ensures Rollup(subs) == IN_PROGRESS <==> |subs| > 0 && !AllHave(subs, DONE) && !AllHave(subs, NEW)
  {
    if |subs| > 0 && AllHave(subs, DONE) {
      assert subs[0].task.status == DONE;
    }
  }

  /** addSubtask's effect on the list: a null subtask is ignored, any other goes at the end. */
  function Appended(subs: seq<SubtaskData>, s: Option<SubtaskData>): (r: seq<SubtaskData>)
    ensures s.None? ==> r == subs
    ensures s.Some? ==> |r| == |subs| + 1 && r[..|subs|] == subs && r[|subs|] == s.value
  {
    if s.Some? then subs + [s.value] else subs
  }

  class Epic {
    var id: int
    var title: string
    var description: string
    var status: Status
    var subtasks: seq<SubtaskData>

    /** The task fields of the epic. */
    function Data(): (d: TaskData)
      reads this
      ensures d.id == id && d.title == title && d.description == description && d.status == status
    {
      TaskData(id, title, description, status)
    }

    /** The assignments of new Epic(id, title, description) once the Task checks passed; only NewEpic calls it. */
    constructor (id0: int, title0: string, description0: string)
      ensures Data() == TaskData(id0, title0, description0, NEW) && subtasks == []
    {
      id := id0;
      title := title0;
      description := description0;
      status := NEW;
      subtasks := [];
    }

    /** setId (inherited from Task): only the id changes. */
    method SetId(newId: int)
      modifies this
      ensures Data() == old(Data()).(id := newId) && subtasks == old(subtasks)
    {
      id := newId;
    }

    /** addSubtask: a null subtask changes nothing; otherwise it is appended. */
    method AddSubtask(s: Option<SubtaskData>)
      modifies this
      ensures subtasks == Appended(old(subtasks), s)
      ensures Data() == old(Data())
    {
      if s.Some? {
        subtasks := subtasks + [s.value];
      }
    }

    /** getSubtasks: a copy of the list, in order. */
    method GetSubtasks() returns (r: seq<SubtaskData>)
      ensures r == subtasks
    {
      r := subtasks;
    }

    /** updateStatus: one pass with an all-DONE and an all-NEW flag, then the rollup rule. */
    method UpdateStatus()
      modifies this
      ensures status == Rollup(subtasks)
      ensures subtasks == old(subtasks) && id == old(id) && title == old(title) && description == old(description)
    {
      if |subtasks| == 0 {
        status := NEW;
        return;
      }
      var allDone := true;
      var allNew := true;
      for i := 0 to |subtasks|
        invariant allDone <==> AllHave(subtasks[..i], DONE)
        invariant allNew <==> AllHave(subtasks[..i], NEW)
      {
        assert subtasks[..i + 1] == subtasks[..i] + [subtasks[i]];
        if subtasks[i].task.status != DONE {
          allDone := false;
        }
        if subtasks[i].task.status != NEW {
          allNew := false;
        }
      }
      assert subtasks[..|subtasks|] == subtasks;
      if allDone {
        status := DONE;
      } else if allNew {
        status := NEW;
      } else {
        status := IN_PROGRESS;
      }
    }
  }

  /**
   * new Epic(id, title, description): the Task checks on title and
   * description, then status NEW and an empty list.
   */
  method NewEpic(id: int, title: Option<string>, description: Option<string>) returns (r: Result<Epic>)
    ensures r.Ok? <==> TitleOk(title) && description.Some?
    ensures r.Err? ==> r.failure == IllegalArgument
    ensures r.Ok? ==> fresh(r.value) && r.value.Data() == TaskData(id, title.value, description.value, NEW)
    ensures r.Ok? ==> r.value.subtasks == []
  {
    if !TitleOk(title) || description.None? {
      return Err(IllegalArgument);
    }
    var e := new Epic(id, title.value, description.value);
    return Ok(e);
  }

  /** All subtasks sharing one status roll up to it; a mix of NEW and DONE is IN_PROGRESS. */
  lemma RollupExamples(a: SubtaskData, b: SubtaskData)
    ensures a.task.status == DONE && b.task.status == DONE ==> Rollup([a, b]) == DONE
    ensures a.task.status == NEW && b.task.status == NEW ==> Rollup([a, b]) == NEW
    ensures a.task.status == NEW && b.task.status == DONE ==> Rollup([a, b]) == IN_PROGRESS
    ensures a.task.status == IN_PROGRESS && b.task.status == IN_PROGRESS ==> Rollup([a, b]) == IN_PROGRESS
  {
    var s := [a, b];
    assert s[0] == a && s[1] == b;
  }
}
