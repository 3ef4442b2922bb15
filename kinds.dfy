/** The TaskStatus and TaskType enums, their names, and the epic status rule. */
module Kinds {
  import opened Outcomes

  datatype Status = NEW | IN_PROGRESS | DONE

  datatype TaskType = TASK | EPIC | SUBTASK

  /** Enum.name() of a status. */
  function StatusName(s: Status): string {
    match s
    case NEW => "NEW"
    case IN_PROGRESS => "IN_PROGRESS"
    case DONE => "DONE"
  }

  /** TaskStatus.valueOf: IllegalArgumentException for anything but an exact constant name. */
  function ParseStatus(name: string): (r: Result<Status>)
    ensures r.Ok? ==> StatusName(r.value) == name
    ensures r.Err? ==> r.failure == IllegalArgument
  {
    if name == "NEW" then Ok(NEW)
    else if name == "IN_PROGRESS" then Ok(IN_PROGRESS)
    else if name == "DONE" then Ok(DONE)
    else Err(IllegalArgument)
  }

  /** Enum.name() of a task type. */
  function TypeName(t: TaskType): string {
    match t
    case TASK => "TASK"
    case EPIC => "EPIC"
    case SUBTASK => "SUBTASK"
  }

  /** TaskType.valueOf. */
  function ParseType(name: string): (r: Result<TaskType>)
    ensures r.Ok? ==> TypeName(r.value) == name
    ensures r.Err? ==> r.failure == IllegalArgument
  {
    if name == "TASK" then Ok(TASK)
    else if name == "EPIC" then Ok(EPIC)
    else if name == "SUBTASK" then Ok(SUBTASK)
    else Err(IllegalArgument)
  }

  /** Enum names hold no comma, so they survive a comma-separated line. */
  lemma NamesHaveNoComma(s: Status, t: TaskType)
    ensures ',' !in StatusName(s) && ',' !in TypeName(t)
    ensures ParseStatus(StatusName(s)) == Ok(s) && ParseType(TypeName(t)) == Ok(t)
  {
  }

  /**
   * Declaration order of the constants: what Comparator.comparing(getStatus)
   * sorts by. The order NEW, IN_PROGRESS, DONE is assumed; TaskStatus is not
   * part of this model.
   */
  function Ordinal(s: Status): nat {
    match s
    case NEW => 0
    case IN_PROGRESS => 1
    case DONE => 2
  }

  /**
   * The rule both epic revisions apply: no subtasks gives NEW; otherwise all
   * DONE gives DONE, else all NEW gives NEW, else IN_PROGRESS.
   */
  function EpicStatusRule(empty: bool, allDone: bool, allNew: bool): Status {
    if empty then NEW
    else if allDone then DONE
    else if allNew then NEW
    else IN_PROGRESS
  }
}
