/**
 * task.Task of the earlier entity revision: id, title, description and
 * status, with a validating constructor and validating setters. A Java
 * null argument is `None`; a thrown IllegalArgumentException is a returned
 * failure that leaves the object as it was.
 */
module TaskEntity {
  import opened Outcomes
  import opened Kinds
  import opened Text

  /** The four fields a Task compares by in equals. */
  datatype TaskData = TaskData(id: int, title: string, description: string, status: Status)

  /** The title rule of the constructor and of setTitle: present and not blank. */
  predicate TitleOk(title: Option<string>) {
    title.Some? && !IsBlank(title.value)
  }

  class Task {
    var id: int
    var title: string
    var description: string
    var status: Status

    /** The fields of the object. */
    function Data(): (d: TaskData)
      reads this
      ensures d.id == id && d.title == title && d.description == description && d.status == status
    {
      TaskData(id, title, description, status)
    }

    /** The assignments the Java constructor makes once its checks passed; only NewTask calls it. */
    constructor (id0: int, title0: string, description0: string, status0: Status)
      ensures Data() == TaskData(id0, title0, description0, status0)
    {
      id := id0;
      title := title0;
      description := description0;
      status := status0;
    }

    /** setId: only the id changes; no check. */
    method SetId(newId: int)
      modifies this
      ensures Data() == old(Data()).(id := newId)
    {
      id := newId;
    }

    /** setTitle: a null or blank title is refused and nothing changes. */
    method SetTitle(newTitle: Option<string>) returns (failure: Option<Failure>)
      modifies this
      ensures failure.None? <==> TitleOk(newTitle)
      ensures failure.Some? ==> failure.value == IllegalArgument && Data() == old(Data())
      ensures failure.None? ==> Data() == old(Data()).(title := newTitle.value)
    {
      if newTitle.None? || IsBlank(newTitle.value) {
        return Some(IllegalArgument);
      }
      title := newTitle.value;
      return None;
    }

    /** setDescription: a null description is refused and nothing changes; an empty one is accepted. */
    method SetDescription(newDescription: Option<string>) returns (failure: Option<Failure>)
      modifies this
      ensures failure.None? <==> newDescription.Some?
      ensures failure.Some? ==> failure.value == IllegalArgument && Data() == old(Data())
      ensures failure.None? ==> Data() == old(Data()).(description := newDescription.value)
    {
      if newDescription.None? {
        return Some(IllegalArgument);
      }
      description := newDescription.value;
      return None;
    }

    /** setStatus: a null status is refused and nothing changes. */
    method SetStatus(newStatus: Option<Status>) returns (failure: Option<Failure>)
      modifies this
      ensures failure.None? <==> newStatus.Some?
      ensures failure.Some? ==> failure.value == IllegalArgument && Data() == old(Data())
      ensures failure.None? ==> Data() == old(Data()).(status := newStatus.value)
    {
      if newStatus.None? {
        return Some(IllegalArgument);
      }
      status := newStatus.value;
      return None;
    }

    /** equals: the same object, or another Task with the same id, title, description and status. */
    predicate Equals(o: Task?)
      reads this, o
    {
      this == o || (o != null && id == o.id && title == o.title && description == o.description && status == o.status)
    }
  }

  /**
   * new Task(id, title, description, status): a null or blank title, a null
   * description or a null status is refused with IllegalArgumentException;
   * otherwise a fresh object holding exactly the arguments.
   */
  method NewTask(id: int, title: Option<string>, description: Option<string>, status: Option<Status>)
    returns (r: Result<Task>)
    ensures r.Ok? <==> TitleOk(title) && description.Some? && status.Some?
    ensures r.Err? ==> r.failure == IllegalArgument
    ensures r.Ok? ==> fresh(r.value) && r.value.Data() == TaskData(id, title.value, description.value, status.value)
  {
    if title.None? || IsBlank(title.value) {
      return Err(IllegalArgument);
    }
    if description.None? {
      return Err(IllegalArgument);
    }
    if status.None? {
      return Err(IllegalArgument);
    }
    var t := new Task(id, title.value, description.value, status.value);
    return Ok(t);
  }

  /** Two tasks are equal exactly when their four fields are. */
  lemma EqualsIsSameData(a: Task, b: Task?)
    ensures a.Equals(b) <==> b != null && a.Data() == b.Data()
  {
  }

  /** equals is reflexive, symmetric and transitive. */
  lemma EqualsIsEquivalence(a: Task, b: Task, c: Task)
    ensures a.Equals(a)
    ensures a.Equals(b) <==> b.Equals(a)
    ensures a.Equals(b) && b.Equals(c) ==> a.Equals(c)
  {
  }

  /** No task equals null. */
  lemma NotEqualNull(a: Task)
    ensures !a.Equals(null)
  {
  }
}
