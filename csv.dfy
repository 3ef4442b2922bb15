/**
 * TaskConversionUtils: one task per line as eight comma-separated fields
 * (id, type, name, status, description, epic id, start, duration in
 * minutes), and the history as a comma-separated list of ids.
 */
module Csv {
  import opened Outcomes
  import opened Kinds
  import opened Entities
  import opened Text

  /**
   * ISO_LOCAL_DATE_TIME rendering of a start time. Times are whole minutes
   * here, and their decimal text stands in for the ISO text: both are
   * injective, never blank and free of commas.
   */
  function FormatTime(t: int): string {
    IntToString(t)
  }

  /** LocalDateTime.parse: only the rendering of a time parses, to that time; anything else is DateTimeParseException. */
  function ParseTime(s: string): (r: Result<int>)
    ensures r.Ok? ==> FormatTime(r.value) == s
    ensures r.Err? ==> r.failure == DateTimeParse
  {
    match ParseDecimal(s)
    case Some(v) => if FormatTime(v) == s then Ok(v) else Err(DateTimeParse)
    case None => Err(DateTimeParse)
  }

  /** Every rendered time parses back to itself, so ParseTime accepts exactly the renderings. */
  lemma ParseTimeInverts(t: int)
    ensures ParseTime(FormatTime(t)) == Ok(t)
  {
    DecimalRoundTrip(t);
  }

  /** StringBuilder.append of a String that may be null: a null appends "null". */
  function Shown(s: Option<string>): string {
    if s.Some? then s.value else "null"
  }

  /** StringBuilder.append of a TaskStatus that may be null. */
  function ShownStatus(s: Option<Status>): string {
    if s.Some? then StatusName(s.value) else "null"
  }

  /** The eight fields taskToCSV writes, in order. */
  function CsvFields(t: Item): (f: seq<string>)
    ensures |f| == 8
  {
    [ IntToString(t.id), TypeName(t.Type()), Shown(t.name), ShownStatus(t.status), Shown(t.description),
      if t.part.SubtaskPart? then IntToString(t.part.epicId) else "",
      if t.start.Some? then FormatTime(t.start.value) else "",
      if t.duration.Some? then IntToString(t.duration.value) else "" ]
  }

  /** A joined list of two or more pieces ends with a separator and the last piece. */
  lemma {:induction false} JoinSnoc(f: seq<string>, sep: char)
    requires |f| >= 2
    ensures Join(f, sep) == Join(f[..|f| - 1], sep) + [sep] + f[|f| - 1]
    decreases |f|
  {
    var n := |f|;
    if n > 2 {
      JoinSnoc(f[1..], sep);
      assert f[1..][..n - 2] == f[..n - 1][1..];
      assert f[1..][n - 2] == f[n - 1];
      var a, m, z := f[0], Join(f[..n - 1][1..], sep), f[n - 1];
      assert Join(f, sep) == a + [sep] + (m + [sep] + z);
      assert Join(f[..n - 1], sep) == a + [sep] + m;
      assert a + [sep] + (m + [sep] + z) == (a + [sep] + m) + [sep] + z;
    } else {
      assert f[1..] == [f[1]];
    }
  }

  /** Appending a separator and the next field extends the joined prefix by that field. */
  lemma Extend(f: seq<string>, k: nat, sep: char)
    requires 1 <= k < |f|
    ensures Join(f[..k + 1], sep) == Join(f[..k], sep) + [sep] + f[k]
  {
    var g := f[..k + 1];
    JoinSnoc(g, sep);
    assert g[..k] == f[..k];
  }

  /** Eight pieces joined: each piece followed by a separator, except the last. */
  lemma JoinEight(p0: string, p1: string, p2: string, p3: string, p4: string, p5: string, p6: string, p7: string, sep: char)
    ensures Join([p0, p1, p2, p3, p4, p5, p6, p7], sep)
            == p0 + [sep] + p1 + [sep] + p2 + [sep] + p3 + [sep] + p4 + [sep] + p5 + [sep] + p6 + [sep] + p7
  {
    var f := [p0, p1, p2, p3, p4, p5, p6, p7];
    assert f[..8] == f;
    assert Join(f[..1], sep) == p0;
    Extend(f, 1, sep);
    Extend(f, 2, sep);
    Extend(f, 3, sep);
    Extend(f, 4, sep);
    Extend(f, 5, sep);
    Extend(f, 6, sep);
    Extend(f, 7, sep);
  }

  /** taskToCSV: the fields appended one after the other, a comma after each but the last. */
  method TaskToCsv(task: Item) returns (line: string)
    ensures line == Join(CsvFields(task), ',')
  {
    ghost var f := CsvFields(task);
    var sb := "";
    sb := sb + IntToString(task.id) + ",";
    assert sb == f[0] + ",";
    sb := sb + TypeName(task.Type()) + ",";
    sb := sb + Shown(task.name) + ",";
    sb := sb + ShownStatus(task.status) + ",";
    sb := sb + Shown(task.description) + ",";
    ghost var head := f[0] + "," + f[1] + "," + f[2] + "," + f[3] + "," + f[4] + ",";
    assert sb == head;
    if task.part.SubtaskPart? {
      sb := sb + IntToString(task.part.epicId);
    }
    assert sb == head + f[5];
    sb := sb + ",";
    if task.start.Some? {
      sb := sb + FormatTime(task.start.value);
    }
    assert sb == head + f[5] + "," + f[6];
    sb := sb + ",";
    if task.duration.Some? {
      sb := sb + IntToString(task.duration.value);
    }
    assert sb == head + f[5] + "," + f[6] + "," + f[7];
    line := sb;
    JoinEight(f[0], f[1], f[2], f[3], f[4], f[5], f[6], f[7], ',');
    assert [f[0], f[1], f[2], f[3], f[4], f[5], f[6], f[7]] == f;
  }

  /** The text fields can be written without breaking the line apart. */
  predicate CommaFree(t: Item) {
    ',' !in Shown(t.name) && ',' !in Shown(t.description)
  }

  /** With comma-free text, `split(",", -1)` of the line gives back exactly the eight fields. */
  lemma CsvSplit(t: Item)
    requires CommaFree(t)
    ensures Split(Join(CsvFields(t), ','), ',') == CsvFields(t)
  {
    var f := CsvFields(t);
    IntToStringShape(t.id);
    NamesHaveNoComma(if t.status.Some? then t.status.value else NEW, t.Type());
    if t.part.SubtaskPart? { IntToStringShape(t.part.epicId); }
    if t.start.Some? { IntToStringShape(t.start.value); }
    if t.duration.Some? { IntToStringShape(t.duration.value); }
    SplitJoin(f, ',');
  }

  /**
   * Whether Duration.ofMinutes accepts `m`: it computes the seconds with
   * Math.multiplyExact(m, 60), which must stay within the 64-bit range,
   * so |m| is at most 153722867280912930.
   */
  predicate MinutesFit(m: int) {
    IsInt64(m * 60)
  }

  /** The accepted minutes are exactly those within ±153722867280912930. */
  lemma MinutesBoundary(m: int)
    ensures MinutesFit(m) <==> -153722867280912930 <= m <= 153722867280912930
  {
  }

  /** Duration.ofMinutes(Long.parseLong(raw)): a NumberFormatException, then an ArithmeticException when the seconds overflow. */
  function ParseMinutes(raw: string): (r: Result<int>)
    ensures r.Ok? ==> ParseLong(raw) == Ok(r.value) && MinutesFit(r.value)
    ensures r.Err? && ParseLong(raw).Ok? ==> r.failure == Arithmetic && !MinutesFit(ParseLong(raw).value)
  {
    match ParseLong(raw)
    case Err(e) => Err(e)
    case Ok(m) => if MinutesFit(m) then Ok(m) else Err(Arithmetic)
  }

  /** Blank text reads as absent; anything else must parse. */
  function ParseOptional(raw: string, parse: string -> Result<int>): (r: Result<Option<int>>)
    ensures IsBlank(raw) ==> r == Ok(None)
  {
    if IsBlank(raw) then Ok(None)
    else match parse(raw)
      case Ok(v) => Ok(Some(v))
      case Err(e) => Err(e)
  }

  /**
   * taskFromCSV: at least eight fields; id, type, status, start and
   * duration parsed in that order, the first failure propagating. A TASK
   * keeps the parsed fields (the four-argument Task constructor it calls is
   * assumed to only assign them, with no name check); an EPIC keeps id,
   * name, status and description and gets the Epic constructor's zero
   * duration, no start and no subtasks; a SUBTASK also needs a non-blank
   * epic id. A duration Duration.ofMinutes cannot hold is ArithmeticException.
   */
  function TaskFromCsv(line: string): (r: Result<Item>)
    ensures |Split(line, ',')| < 8 ==> r == Err(IllegalArgument)
    ensures r.Ok? ==> var f := Split(line, ',');
      && ParseInt(f[0]) == Ok(r.value.id)
      && TypeName(r.value.Type()) == f[1]
      && r.value.name == Some(f[2]) && r.value.description == Some(f[4])
      && r.value.status.Some? && StatusName(r.value.status.value) == f[3]
      && (r.value.duration.Some? ==> MinutesFit(r.value.duration.value))
  {
    var f := Split(line, ',');
    if |f| < 8 then Err(IllegalArgument)
    else
      match ParseInt(f[0])
      case Err(e) => Err(e)
      case Ok(id) =>
        match ParseType(f[1])
        case Err(e) => Err(e)
        case Ok(kind) =>
          match ParseStatus(f[3])
          case Err(e) => Err(e)
          case Ok(status) =>
            match ParseOptional(f[6], ParseTime)
            case Err(e) => Err(e)
            case Ok(start) =>
              match ParseOptional(f[7], ParseMinutes)
              case Err(e) => Err(e)
              case Ok(duration) =>
                match kind
                case TASK => Ok(Item(id, Some(f[2]), Some(f[4]), Some(status), duration, start, PlainPart))
                case EPIC => Ok(Item(id, Some(f[2]), Some(f[4]), Some(status), Some(0), None, EpicPart([])))
                case SUBTASK =>
                  if IsBlank(f[5]) then Err(IllegalArgument)
                  else match ParseInt(f[5])
                    case Err(e) => Err(e)
                    case Ok(epicId) =>
                      Ok(Item(id, Some(f[2]), Some(f[4]), Some(status), duration, start, SubtaskPart(epicId)))
  }

  /** Whether every field survives the line: comma-free text, a status, and numbers in Java's ranges. */
  predicate Writable(t: Item) {
    && CommaFree(t)
    && t.name.Some? && t.description.Some? && t.status.Some?
    && IsInt32(t.id)
    && (t.part.SubtaskPart? ==> IsInt32(t.part.epicId))
    && (t.duration.Some? ==> MinutesFit(t.duration.value))
  }

  /** The parsed start and duration of a written line are the task's own. */
  lemma TimesRoundTrip(t: Item)
    ensures ParseOptional(if t.start.Some? then FormatTime(t.start.value) else "", ParseTime) == Ok(t.start)
    ensures t.duration.Some? ==> MinutesFit(t.duration.value) ==>
      ParseOptional(IntToString(t.duration.value), ParseMinutes) == Ok(t.duration)
    ensures t.duration.None? ==> ParseOptional("", ParseMinutes) == Ok(None)
  {
    if t.start.Some? {
      IntToStringShape(t.start.value);
      DecimalRoundTrip(t.start.value);
    }
    if t.duration.Some? && MinutesFit(t.duration.value) {
      IntToStringShape(t.duration.value);
      LongRoundTrip(t.duration.value);
    }
  }

  /** Round trip: a written TASK or SUBTASK reads back as itself. */
  lemma CsvRoundTrip(t: Item)
    requires Writable(t) && !t.part.EpicPart?
    ensures TaskFromCsv(Join(CsvFields(t), ',')) == Ok(t)
  {
    var f := CsvFields(t);
    CsvSplit(t);
    IntRoundTrip(t.id);
    NamesHaveNoComma(t.status.value, t.Type());
    TimesRoundTrip(t);
    if t.part.SubtaskPart? {
      IntToStringShape(t.part.epicId);
      IntRoundTrip(t.part.epicId);
    }
  }

  /**
   * A written line whose duration is a valid long but too many minutes for
   * Duration.ofMinutes is rejected with ArithmeticException, whatever its type.
   */
  lemma DurationOverflowRejected(t: Item)
    requires CommaFree(t) && t.name.Some? && t.description.Some? && t.status.Some?
    requires IsInt32(t.id) && (t.part.SubtaskPart? ==> IsInt32(t.part.epicId))
    requires t.duration.Some? && IsInt64(t.duration.value) && !MinutesFit(t.duration.value)
    ensures TaskFromCsv(Join(CsvFields(t), ',')) == Err(Arithmetic)
  {
    var d := t.duration.value;
    CsvSplit(t);
    IntRoundTrip(t.id);
    NamesHaveNoComma(t.status.value, t.Type());
    TimesRoundTrip(t);
    IntToStringShape(d);
    LongRoundTrip(d);
  }

  /** An EPIC reads back with its id, name, status and description, but with the constructor's times and no subtask ids. */
  lemma EpicCsvRoundTrip(t: Item)
    requires Writable(t) && t.part.EpicPart?
    ensures TaskFromCsv(Join(CsvFields(t), ',')) == Ok(t.(duration := Some(0), start := None, part := EpicPart([])))
  {
    CsvSplit(t);
    IntRoundTrip(t.id);
    NamesHaveNoComma(t.status.value, t.Type());
    TimesRoundTrip(t);
  }

  /** An EPIC row ignores its start and duration columns (once they parse) and its epic-id column. */
  lemma EpicRow(line: string)
    requires TaskFromCsv(line).Ok? && TaskFromCsv(line).value.Type() == EPIC
    ensures var r := TaskFromCsv(line).value;
      r.start.None? && r.duration == Some(0) && r.part == EpicPart([])
  {
  }

  /** A SUBTASK row with a blank epic-id field is rejected. */
  lemma SubtaskNeedsEpic(line: string)
    requires |Split(line, ',')| >= 8
    requires ParseType(Split(line, ',')[1]) == Ok(SUBTASK) && IsBlank(Split(line, ',')[5])
    ensures TaskFromCsv(line).Err?
  {
  }

  /** Blank start and duration fields read as absent. */
  lemma BlankTimesAbsent(line: string)
    requires TaskFromCsv(line).Ok? && TaskFromCsv(line).value.Type() != EPIC
    requires IsBlank(Split(line, ',')[6]) && IsBlank(Split(line, ',')[7])
    ensures TaskFromCsv(line).value.start.None? && TaskFromCsv(line).value.duration.None?
  {
  }

  // ---------------------------------------------------------------------------
  // The history line

  /** The decimal ids of the entries, in order. */
  function IdStrings(h: seq<Item>): (r: seq<string>)
    ensures |r| == |h|
  {
    if |h| == 0 then [] else [IntToString(h[0].id)] + IdStrings(h[1..])
  }

  /** The ids of the entries, in order. */
  function Ids(h: seq<Item>): (r: seq<int>)
    ensures |r| == |h| && forall i | 0 <= i < |h| :: r[i] == h[i].id
  {
    if |h| == 0 then [] else [h[0].id] + Ids(h[1..])
  }

  /** historyToString: the ids of getHistory() joined with commas. */
  function HistoryToString(h: seq<Item>): string {
    Join(IdStrings(h), ',')
  }

  /** Integer.parseInt of every piece, the first failure propagating. */
  function ParseInts(pieces: seq<string>): (r: Result<seq<int>>)
    ensures r.Ok? ==> |r.value| == |pieces| && forall i | 0 <= i < |pieces| :: ParseInt(pieces[i]) == Ok(r.value[i])
  {
    if |pieces| == 0 then Ok([])
    else match ParseInt(pieces[0])
      case Err(e) => Err(e)
      case Ok(v) =>
        match ParseInts(pieces[1..])
        case Err(e) => Err(e)
        case Ok(vs) => Ok([v] + vs)
  }

  /** historyFromString: null or blank text is the empty list; otherwise `split(",")` and parse each piece. */
  function HistoryFromString(value: Option<string>): (r: Result<seq<int>>)
    ensures value.None? || IsBlank(value.value) ==> r == Ok([])
  {
    if value.None? || IsBlank(value.value) then Ok([])
    else ParseInts(SplitDiscardingTrailing(value.value, ','))
  }

  lemma {:induction false} IdStringsShape(h: seq<Item>)
    ensures forall k | 0 <= k < |h| :: IdStrings(h)[k] == IntToString(h[k].id)
    decreases |h|
  {
    if |h| > 0 {
      IdStringsShape(h[1..]);
    }
  }

  lemma {:induction false} ParseIdStrings(h: seq<Item>)
    requires forall i | 0 <= i < |h| :: IsInt32(h[i].id)
    ensures ParseInts(IdStrings(h)) == Ok(Ids(h))
    decreases |h|
  {
    if |h| > 0 {
      IntRoundTrip(h[0].id);
      ParseIdStrings(h[1..]);
    }
  }

  /** A non-empty written history is not blank: it starts with a digit or a minus sign followed by digits. */
  lemma HistoryNotBlank(h: seq<Item>)
    requires |h| > 0
    ensures !IsBlank(HistoryToString(h))
  {
    var pieces := IdStrings(h);
    IdStringsShape(h);
    IntToStringShape(h[0].id);
    JoinStartsWith(pieces, ',');
    var s := HistoryToString(h);
    var k :| 0 <= k < |pieces[0]| && !IsWhitespace(pieces[0][k]);
    assert s[k] == pieces[0][k];
  }

  /** `split(",")` of a non-empty written history gives back the id pieces: the last one is not empty. */
  lemma HistorySplit(h: seq<Item>)
    requires |h| > 0
    ensures SplitDiscardingTrailing(HistoryToString(h), ',') == IdStrings(h)
  {
    var pieces := IdStrings(h);
    var s := HistoryToString(h);
    IdStringsShape(h);
    forall k | 0 <= k < |pieces| ensures ',' !in pieces[k] {
      IntToStringShape(h[k].id);
    }
    SplitJoin(pieces, ',');
    IntToStringShape(h[|h| - 1].id);
    if ',' !in s {
      SplitNoSeparator(s, ',');
    }
  }

  /** Round trip: reading the written history gives the ids of the entries, in order. */
  lemma HistoryRoundTrip(h: seq<Item>)
    requires forall i | 0 <= i < |h| :: IsInt32(h[i].id)
    ensures HistoryFromString(Some(HistoryToString(h))) == Ok(Ids(h))
  {
    if |h| == 0 {
      assert HistoryToString(h) == "";
    } else {
      HistoryNotBlank(h);
      HistorySplit(h);
      ParseIdStrings(h);
    }
  }

  /** A joined line begins with its first piece. */
  lemma JoinStartsWith(pieces: seq<string>, sep: char)
    requires |pieces| >= 1
    ensures |Join(pieces, sep)| >= |pieces[0]| && Join(pieces, sep)[..|pieces[0]|] == pieces[0]
  {
  }
}
