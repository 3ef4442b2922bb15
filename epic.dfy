/**
 * task.Epic of the later entity revision: the shared task fields plus a
 * duration, a start time and a live list of subtask ids. Times and
 * durations are whole minutes.
 */
module EpicEntity {
  import opened Outcomes
  import opened Kinds
  import opened Entities

  /** A mutable list of ids (the ArrayList<Integer> behind getSubtaskIds). */
  class IdList {
    var items: seq<int>

    constructor ()
      ensures items == []
    {
      items := [];
    }

    /** add: appends at the end. */
    method Add(x: int)
      modifies this
      ensures items == old(items) + [x]
    {
      items := items + [x];
    }
  }

  class Epic {
    var id: int
    var name: Option<string>
    var description: Option<string>
    var status: Option<Status>
    var duration: Option<int>
    var startTime: Option<int>
    const subtaskIds: IdList

    /** The epic as the value the task manager stores. */
    function Snapshot(): (t: Item)
      reads this, subtaskIds
      ensures t.id == id && t.status == status && t.part == EpicPart(subtaskIds.items)
      ensures t.duration == duration && t.start == startTime
    {
      Item(id, name, description, status, duration, startTime, EpicPart(subtaskIds.items))
    }

    /**
     * new Epic(name, description): zero duration, no start, an empty list of
     * its own. The two-argument Task constructor it calls is assumed to only
     * assign name and description, leaving id 0 and no status.
     */
    constructor (name0: Option<string>, description0: Option<string>)
      ensures id == 0 && status.None?
      ensures name == name0 && description == description0
      ensures duration == Some(0) && startTime.None?
      ensures fresh(subtaskIds) && subtaskIds.items == []
    {
      id := 0;
      name := name0;
      description := description0;
      status := None;
      duration := Some(0);
      startTime := None;
      subtaskIds := new IdList();
    }

    /** getType: always EPIC, the kind the stored value reports too. */
    function GetType(): (k: TaskType)
      reads this, subtaskIds
      ensures k == EPIC && k == Snapshot().Type()
    {
      EPIC
    }

    /** getEndTime: start plus duration when both are set; otherwise none. */
    function GetEndTime(): (e: Option<int>)
      reads this
      ensures e.Some? <==> startTime.Some? && duration.Some?
      ensures e.Some? ==> e.value == startTime.value + duration.value
    {
      EndTime(startTime, duration)
    }

    /** setDuration: only the duration changes. */
    method SetDuration(d: Option<int>)
      modifies this
      ensures duration == d
      ensures id == old(id) && name == old(name) && description == old(description)
      ensures status == old(status) && startTime == old(startTime)
    {
      duration := d;
    }

    /**
     * setEndTime(end): with a start and an end, the duration becomes the
     * minutes between them, so getEndTime gives back `end`; otherwise
     * nothing changes.
     */
    method SetEndTime(end: Option<int>)
      modifies this
      ensures duration == DurationAfterSetEnd(old(startTime), old(duration), end)
      ensures old(startTime).Some? && end.Some? ==> GetEndTime() == end
      ensures !(old(startTime).Some? && end.Some?) ==> duration == old(duration)
      ensures id == old(id) && name == old(name) && description == old(description)
      ensures status == old(status) && startTime == old(startTime)
    {
      if startTime.Some? && end.Some? {
        duration := Some(end.value - startTime.value);
      }
      SetEndThenGetEnd(old(startTime), old(duration), end);
    }

    /** getSubtaskIds: the epic's own list, not a copy. */
    method GetSubtaskIds() returns (ids: IdList)
      ensures ids == subtaskIds
    {
      ids := subtaskIds;
    }
  }

  /** `epic.getSubtaskIds().add(id)`: the append is seen by the epic itself. */
  method AppendSubtaskId(epic: Epic, id: int)
    modifies epic.subtaskIds
    ensures epic.Snapshot() == old(epic.Snapshot()).(part := EpicPart(old(epic.subtaskIds.items) + [id]))
  {
    var ids := epic.GetSubtaskIds();
    ids.Add(id);
  }
}
