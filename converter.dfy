/**
 * TaskConverter: the six-field line of the earlier entity revision (id,
 * type, title, status, description, epic id). Every parse failure surfaces
 * as IllegalArgumentException, and the entity constructors reject a blank
 * title.
 */
module Converter {
  import opened Outcomes
  import opened Kinds
  import opened Entities
  import opened Text
  import Csv

  /** The six fields taskToCSV writes, in order. */
  function Fields(t: Item): (f: seq<string>)
    ensures |f| == 6
  {
    [ IntToString(t.id), TypeName(t.Type()), Csv.Shown(t.name), Csv.ShownStatus(t.status), Csv.Shown(t.description),
      if t.Type() == SUBTASK then IntToString(t.part.epicId) else "" ]
  }

  /** Six pieces joined: each piece followed by a separator, except the last. */
  lemma JoinSix(p0: string, p1: string, p2: string, p3: string, p4: string, p5: string, sep: char)
    ensures Join([p0, p1, p2, p3, p4, p5], sep) == p0 + [sep] + p1 + [sep] + p2 + [sep] + p3 + [sep] + p4 + [sep] + p5
  {
    var f := [p0, p1, p2, p3, p4, p5];
    assert f[..6] == f;
    assert Join(f[..1], sep) == p0;
    Csv.Extend(f, 1, sep);
    Csv.Extend(f, 2, sep);
    Csv.Extend(f, 3, sep);
    Csv.Extend(f, 4, sep);
    Csv.Extend(f, 5, sep);
  }

  /** taskToCSV: five fields each followed by a comma, then the epic id of a subtask or nothing. */
  method TaskToCsv(task: Item) returns (line: string)
    ensures line == Join(Fields(task), ',')
  {
    ghost var f := Fields(task);
    var sb := "";
    sb := sb + IntToString(task.id) + ",";
    assert sb == f[0] + ",";
    sb := sb + TypeName(task.Type()) + ",";
    sb := sb + Csv.Shown(task.name) + ",";
    sb := sb + Csv.ShownStatus(task.status) + ",";
    sb := sb + Csv.Shown(task.description) + ",";
    ghost var head := f[0] + "," + f[1] + "," + f[2] + "," + f[3] + "," + f[4] + ",";
    assert sb == head;
    if task.Type() == SUBTASK {
      sb := sb + IntToString(task.part.epicId);
    } else {
      sb := sb + "";
    }
    assert sb == head + f[5];
    line := sb;
    JoinSix(f[0], f[1], f[2], f[3], f[4], f[5], ',');
    assert [f[0], f[1], f[2], f[3], f[4], f[5]] == f;
  }

  /** The Task(id, title, description, status) constructor's checks: a non-blank title (description and status are never null here). */
  predicate TitleOk(title: string) {
    !IsBlank(title)
  }

  /**
   * taskFromCSV: at least five fields; a TASK or SUBTASK keeps the parsed
   * status, an EPIC is built as NEW; a SUBTASK needs a sixth, non-blank
   * field. Any failure becomes IllegalArgumentException.
   */
  function TaskFromCsv(line: string): (r: Result<Item>)
    ensures r.Err? ==> r.failure == IllegalArgument
    ensures |Split(line, ',')| < 5 ==> r.Err?
    ensures r.Ok? ==> var f := Split(line, ',');
      && ParseInt(f[0]) == Ok(r.value.id)
      && TypeName(r.value.Type()) == f[1]
      && r.value.name == Some(f[2]) && TitleOk(f[2]) && r.value.description == Some(f[4])
      && r.value.start.None? && r.value.duration.None?
  {
    var f := Split(line, ',');
    if |f| < 5 then Err(IllegalArgument)
    else
      match ParseInt(f[0])
      case Err(_) => Err(IllegalArgument)
      case Ok(id) =>
        match ParseType(f[1])
        case Err(_) => Err(IllegalArgument)
        case Ok(kind) =>
          match ParseStatus(f[3])
          case Err(_) => Err(IllegalArgument)
          case Ok(status) =>
            if !TitleOk(f[2]) then Err(IllegalArgument)
            else match kind
              case TASK => Ok(Item(id, Some(f[2]), Some(f[4]), Some(status), None, None, PlainPart))
              case EPIC => Ok(Item(id, Some(f[2]), Some(f[4]), Some(NEW), None, None, EpicPart([])))
              case SUBTASK =>
                if |f| < 6 || IsBlank(f[5]) then Err(IllegalArgument)
                else match ParseInt(f[5])
                  case Err(_) => Err(IllegalArgument)
                  case Ok(epicId) => Ok(Item(id, Some(f[2]), Some(f[4]), Some(status), None, None, SubtaskPart(epicId)))
  }

  /** What a written line can carry: comma-free text, a valid title, a status, and 32-bit ids. */
  predicate Writable(t: Item) {
    && Csv.CommaFree(t)
    && t.name.Some? && TitleOk(t.name.value) && t.description.Some? && t.status.Some?
    && IsInt32(t.id)
    && (t.part.SubtaskPart? ==> IsInt32(t.part.epicId))
  }

  /** What reading a written entity gives back: no times, and an epic is NEW without subtask ids. */
  function Restored(t: Item): Item {
    if t.part.EpicPart? then t.(status := Some(NEW), duration := None, start := None, part := EpicPart([]))
    else t.(duration := None, start := None)
  }

  /** With comma-free text, `split(",", -1)` gives back the six fields. */
  lemma FieldsSplit(t: Item)
    requires Csv.CommaFree(t)
    ensures Split(Join(Fields(t), ','), ',') == Fields(t)
  {
    IntToStringShape(t.id);
    NamesHaveNoComma(if t.status.Some? then t.status.value else NEW, t.Type());
    if t.part.SubtaskPart? { IntToStringShape(t.part.epicId); }
    SplitJoin(Fields(t), ',');
  }

  /**
   * Round trip: id, type, title and description come back, the epic id of
   * a subtask too, and the status of a TASK or SUBTASK; an EPIC comes back NEW.
   */
  lemma RoundTrip(t: Item)
    requires Writable(t)
    ensures TaskFromCsv(Join(Fields(t), ',')) == Ok(Restored(t))
  {
    FieldsSplit(t);
    IntRoundTrip(t.id);
    NamesHaveNoComma(t.status.value, t.Type());
    if t.part.SubtaskPart? {
      IntToStringShape(t.part.epicId);
      IntRoundTrip(t.part.epicId);
    }
  }

  /** A SUBTASK row with no sixth field, or a blank one, is rejected. */
  lemma SubtaskNeedsEpic(line: string)
    requires |Split(line, ',')| >= 5 && ParseType(Split(line, ',')[1]) == Ok(SUBTASK)
    requires |Split(line, ',')| < 6 || IsBlank(Split(line, ',')[5])
    ensures TaskFromCsv(line) == Err(IllegalArgument)
  {
  }

  /** An EPIC row is NEW whatever status it names. */
  lemma EpicRowIsNew(line: string)
    requires TaskFromCsv(line).Ok? && TaskFromCsv(line).value.Type() == EPIC
    ensures TaskFromCsv(line).value.status == Some(NEW) && TaskFromCsv(line).value.part == EpicPart([])
  {
  }
}
