# java-kanban task manager, modelled in Dafny

A model of the in-memory core of a small Java task tracker. It tracks plain
tasks, epics and the subtasks that make up an epic. The model covers:

- `InMemoryTaskManager`: one id counter shared by all kinds, three id-keyed
  maps, a `TreeSet` ordered by start time that serves both as the overlap
  guard and as the priority listing, epic status and time-span aggregation,
  and cascading deletes that also purge the history.
- `InMemoryHistoryManager`: a doubly linked list of views, indexed by task
  id, without repeats, most recent last.
- The two CSV line codecs: `TaskConversionUtils` (eight fields plus a
  history line) and `TaskConverter` (six fields).
- The earlier revisions of the entities and of the manager: `task.Task`
  (validating constructor and setters, `equals`), `task.Epic` (derived end
  time, `setEndTime`, a live list of subtask ids), the default-package
  `Epic` (loop-based status rollup) and the default-package `TaskManager`.

The repository mixes several revisions whose classes do not compile against
each other, so each file is modelled on its own terms:

| file | module |
|---|---|
| outcomes.dfy | `Outcomes`: Java `null` as `Option`, thrown exceptions as `Result` |
| kinds.dfy | `Kinds`: the status and type enums, their names, the epic status rule |
| entities.dfy | `Entities`: the task record used by the manager and the codecs, plus `removeIf` on lists |
| text.dfy | `Text`: `isBlank`, `split`, joining, `parseInt`/`parseLong` |
| priority.dfy | `Priority`: the `TreeSet` comparator and `add`, the half-open overlap test |
| aggregate.dfy | `Aggregate`: `updateEpicStatus` / `updateEpicTimeFields` as functions of the subtask set |
| history.dfy | `History`: `InMemoryHistoryManager` as a class over an arena of list nodes |
| manager.dfy | `Manager`: `InMemoryTaskManager` as a class, with its invariant proved preserved |
| csv.dfy | `Csv`: `TaskConversionUtils` |
| converter.dfy | `Converter`: `TaskConverter` |
| epic.dfy | `EpicEntity`: `task.Epic` |
| task.dfy | `TaskEntity`: `task.Task` |
| early_epic.dfy | `EarlyEpic`: the default-package `Epic` |
| early_manager.dfy | `EarlyManager`: the default-package `TaskManager` |

Times and durations are whole minutes (`int`). `isBefore` is therefore `<`,
`Duration.between` is subtraction and `truncatedTo(MINUTES)` is the identity.
The history that `Managers.getDefaultHistory()` hands out as a global
singleton is a `const history` field owned by each `InMemoryTaskManager`.

`InMemoryTaskManager.Valid()` is the invariant that every operation keeps:

- every key was handed out by the counter (`1 <= id < nextId`);
- a key belongs to exactly one map, and that map holds its own kind;
- every stored value carries its key as its id;
- the priority index is strictly ordered by (start, nulls last; id);
- the index holds exactly the stored tasks and subtasks, each id once, and
  no two of them overlap;
- the history is a well-formed linked list whose entries all name stored
  entities.

Where the code and its own tests or design notes disagree, the model follows
the code:

- The epic duration is the span from the earliest subtask start to the
  latest subtask end (`src/manager/InMemoryTaskManager.java:279-282`). It is
  not the sum of the subtask durations that
  `test/manager/InMemoryTaskManagerTest.java:134` expects.
- A subtask without a start time is still added to the priority index
  (`src/manager/InMemoryTaskManager.java:68`). It sorts after the timed
  entries, because the comparator puts null starts last. It is not left out
  of the index.
- `deleteSubtask` does not remove the id from the epic's subtask-id list.
- `deleteAllSubtasks` does not recompute the epics.
- With no subtasks left, `updateEpicStatus` clears the start but keeps the
  duration, because `setEndTime(null)` changes nothing.
- `updateEpic` stores the caller's epic object, including its subtask-id
  list, and then recomputes its status and times.
- `createSubTask` takes an id before it validates anything, so a rejected
  subtask still uses up an id. `createTask` validates its data before taking
  an id, and only an overlap rejection uses up the id.
- `createSubTask` and `updateSubTask` do not check the name, description or
  duration of a subtask.
- `updateSubTask` naming an unknown epic stores the subtask and re-indexes
  it. Only after that does it fail with a `NullPointerException`, when
  `updateEpicStatus` dereferences the missing epic.

## Model

| member | source | states |
|---|---|---|
| `Kinds.ParseStatus` | src/manager/TaskConversionUtils.java:53 | `TaskStatus.valueOf` accepts exactly the constant names and otherwise throws IllegalArgumentException |
| `Kinds.ParseType` | src/manager/TaskConversionUtils.java:51 | `TaskType.valueOf` accepts exactly the constant names and otherwise throws IllegalArgumentException |
| `Kinds.NamesHaveNoComma` | src/manager/TaskConversionUtils.java:20-22 | enum names contain no comma and parse back to their constant |
| `Text.SplitJoin` | src/manager/TaskConversionUtils.java:45 | `split(",", -1)` of fields joined by commas gives back exactly those fields when none contains a comma |
| `Text.IntRoundTrip` | src/manager/TaskConversionUtils.java:50 | `Integer.parseInt` of the decimal rendering of a 32-bit int is that int |
| `Text.LongRoundTrip` | src/manager/TaskConversionUtils.java:60 | `Long.parseLong` of the decimal rendering of a 64-bit long is that long |
| `Text.IntToStringShape` | src/manager/TaskConversionUtils.java:19 | a rendered integer is not blank and contains no comma |
| `Entities.SetEndThenGetEnd` | src/task/Epic.java:33-42 | after `setEndTime(e)` with a start and `e` both present, `getEndTime()` returns `e`; otherwise the duration is unchanged |
| `Entities.RemoveIdAt` | src/manager/InMemoryTaskManager.java:83 | when ids are distinct, `removeIf(t -> t.getId() == id)` deletes exactly the one entry with that id and keeps the others in order |
| `Entities.RemoveAbsentId` | src/manager/InMemoryTaskManager.java:166 | `removeIf` on an id that is not present changes nothing |
| `Entities.RemoveIdsTwice` | src/manager/InMemoryTaskManager.java:174-178 | removing one set of ids and then another is the same as removing their union |
| `Entities.WhereDistinct` | src/manager/InMemoryTaskManager.java:223 | `removeIf` keeps ids distinct |
| `Priority.BeforeIsStrictOrder` | src/manager/InMemoryTaskManager.java:17-21 | the TreeSet comparator (start ascending, nulls last, then id) is irreflexive, asymmetric, total on distinct keys and transitive |
| `Priority.InsertSpec` | src/manager/InMemoryTaskManager.java:44 | `TreeSet.add` keeps the set sorted; it adds exactly the new element when no element has its key, and changes nothing otherwise |
| `Priority.InsertMembers` | src/manager/InMemoryTaskManager.java:68 | after `add` of an element with a new key, the set holds the old elements and that one |
| `Priority.WhereSorted` | src/manager/InMemoryTaskManager.java:99 | `removeIf` keeps the set sorted |
| `Priority.OverlapFacts` | src/manager/InMemoryTaskManager.java:122-133 | the overlap test is symmetric; intervals that only touch do not overlap; any missing start or duration means no overlap |
| `Priority.OwnVersionIgnored` | src/manager/InMemoryTaskManager.java:135-139 | the intersection scan skips the candidate's own id, so the candidate's old version never makes it collide |
| `Priority.InsertKeepsNoOverlaps` | src/manager/InMemoryTaskManager.java:40-44 | a candidate that passed `hasIntersections` can be added without creating an overlap or a repeated id |
| `Priority.WhereKeepsNoOverlaps` | src/manager/InMemoryTaskManager.java:166 | removing entries keeps the index free of overlaps and of repeated ids |
| `Aggregate.Least` | src/manager/InMemoryTaskManager.java:269-272 | `min` of the start times is one of them and no larger than any of them |
| `Aggregate.Greatest` | src/manager/InMemoryTaskManager.java:274-277 | `max` of the end times is one of them and no smaller than any of them |
| `Aggregate.WithTimeFields` | src/manager/InMemoryTaskManager.java:268-288 | recomputing the times leaves the epic's id, name, description, status and subtask ids unchanged |
| `Aggregate.Recompute` | src/manager/InMemoryTaskManager.java:247-266 | recomputing the epic leaves its id, name, description and subtask ids unchanged |
| `Aggregate.RecomputeStatus` | src/manager/InMemoryTaskManager.java:251-263 | the status is DONE iff there are subtasks and all are DONE; NEW iff there are none or all are NEW; IN_PROGRESS otherwise |
| `Aggregate.RecomputeSpan` | src/manager/InMemoryTaskManager.java:251-288 | start is the earliest subtask start and end is the latest subtask end, each attained by some subtask; with no timed subtask there is no start or end and the duration is zero; with no subtasks the duration is kept |
| `Aggregate.EarliestStart` | src/manager/InMemoryTaskManager.java:269-272 | the chosen start belongs to some subtask and no subtask starts earlier |
| `Aggregate.LatestEnd` | src/manager/InMemoryTaskManager.java:274-277 | the chosen end belongs to some subtask and no subtask ends later |
| `Aggregate.RecomputeNonNegative` | src/manager/InMemoryTaskManager.java:279-282 | if no subtask duration is negative, the span is not negative either |
| `Aggregate.SpanScenario` | src/manager/InMemoryTaskManager.java:268-288 | two NEW subtasks at 10:00 for 30 minutes and at 12:00 for 45 minutes give an epic that is NEW, runs 10:00 to 12:45 and lasts 165 minutes, gap included |
| `History.HistoryManager.constructor` | src/manager/InMemoryHistoryManager.java:15-17 | a fresh history is empty and satisfies the list invariant |
| `History.HistoryManager.Add` | src/manager/InMemoryHistoryManager.java:20-27 | `add(null)` changes nothing; otherwise any earlier entry with the id is dropped and the task is appended last; the invariant is kept |
| `History.HistoryManager.Remove` | src/manager/InMemoryHistoryManager.java:30-36 | the entry with the id, if any, is removed and the others keep their order; an absent id changes nothing |
| `History.HistoryManager.GetHistory` | src/manager/InMemoryHistoryManager.java:39-47 | the walk from head to tail returns exactly the entries, in order |
| `History.HistoryManager.LinkLast` | src/manager/InMemoryHistoryManager.java:49-58 | the new node becomes the tail, the old tail links to it, and `nodeMap` maps the id to it |
| `History.HistoryManager.RemoveNode` | src/manager/InMemoryHistoryManager.java:60-80 | the node at any position (head, middle or tail) is unlinked, its neighbours or head/tail are relinked, and its own links are cleared |
| `History.ChainRefsDistinct` | src/manager/InMemoryHistoryManager.java:15-17 | a well-linked list is acyclic: no node occurs twice |
| `History.ChainAppend` | src/manager/InMemoryHistoryManager.java:50-56 | linking a node after the tail keeps every `prev`/`next` link consistent |
| `History.ChainUnlink` | src/manager/InMemoryHistoryManager.java:63-79 | bypassing a node keeps every other `prev`/`next` link consistent, and head/tail move only when the node was first/last |
| `History.RelinkedFrame` | src/manager/InMemoryHistoryManager.java:66-79 | unlinking a node changes only its two neighbours among the other nodes of the list |
| `History.Relinked` | src/manager/InMemoryHistoryManager.java:78-79 | the unlinked node has null `prev` and `next` |
| `History.IndexAfterUnlink` | src/manager/InMemoryHistoryManager.java:33-34 | after `removeNode` and `nodeMap.remove(id)`, the keys of `nodeMap` are again exactly the ids in the list |
| `History.IndexAfterLink` | src/manager/InMemoryHistoryManager.java:57 | after `nodeMap.put` in `linkLast`, the keys of `nodeMap` are exactly the ids in the list |
| `History.IndexOf` | src/manager/InMemoryHistoryManager.java:23-24 | a key of `nodeMap` is the id at a position of the list, and maps to that position's node |
| `History.ViewMovesToEnd` | src/manager/InMemoryHistoryManager.java:20-27 | after a view, the task is last, its id occurs once, and the other entries keep their relative order |
| `Manager.FreshId` | src/manager/InMemoryTaskManager.java:26 | the next id is used by no stored or indexed entity, and every used id is below it |
| `Manager.WithSubtask` | src/manager/InMemoryTaskManager.java:69 | appending to the epic's subtask ids adds the id at the end and keeps everything else |
| `Manager.IndexReplace` | src/manager/InMemoryTaskManager.java:82-84 | `removeIf` on the id followed by `add` keeps the index sorted, free of overlaps and in step with the maps |
| `Manager.IndexWhere` | src/manager/InMemoryTaskManager.java:223 | a bulk `removeIf` keeps the index in step with the maps |
| `Manager.AddTask` | src/manager/InMemoryTaskManager.java:39-44 | storing and indexing a created task keeps the invariant, with the counter advanced |
| `Manager.AddSubtask` | src/manager/InMemoryTaskManager.java:57-68 | storing and indexing a created subtask keeps the invariant, with the counter advanced |
| `Manager.ReplaceTask` | src/manager/InMemoryTaskManager.java:98-100 | replacing a task in the map and in the index keeps the invariant |
| `Manager.ReplaceSubtask` | src/manager/InMemoryTaskManager.java:82-84 | replacing a subtask in the map and in the index keeps the invariant |
| `Manager.DropTask` | src/manager/InMemoryTaskManager.java:166-167 | removing a task from the index and the map keeps the invariant |
| `Manager.DropSubtask` | src/manager/InMemoryTaskManager.java:188-189 | removing a subtask from the index and the map keeps the invariant |
| `Manager.DropAllTasks` | src/manager/InMemoryTaskManager.java:223-224 | keeping only subtasks in the index and emptying `tasks` keeps the invariant |
| `Manager.DropAllSubtasks` | src/manager/InMemoryTaskManager.java:243-244 | keeping only tasks in the index and emptying `subtasks` keeps the invariant |
| `Manager.KnownAfter` | src/manager/InMemoryTaskManager.java:165 | the history still names only stored entities after the deletes remove them from it |
| `Manager.CascadeStep` | src/manager/InMemoryTaskManager.java:229-236 | the cascade of one more epic, after those already done, is the cascade of the larger set of epics |
| `Manager.InMemoryTaskManager.constructor` | src/manager/InMemoryTaskManager.java:17-28 | a fresh manager stores nothing, has an empty index and history, and starts ids at 1 |
| `Manager.InMemoryTaskManager.CreateTask` | src/manager/InMemoryTaskManager.java:37-46 | null or invalid data (blank name or description, missing or negative duration) is rejected before an id is taken; otherwise the next id is taken, and an overlap is rejected with nothing stored; else the task is stored and indexed |
| `Manager.InMemoryTaskManager.CreateEpic` | src/manager/InMemoryTaskManager.java:49-53 | the epic takes the next id and is stored; nothing else changes |
| `Manager.InMemoryTaskManager.CreateSubTask` | src/manager/InMemoryTaskManager.java:56-72 | the id is always taken; a null status, an unknown epic or an overlap is rejected with nothing stored; otherwise the subtask is stored and indexed, its id is appended to the epic and the epic is recomputed |
| `Manager.InMemoryTaskManager.LinkToEpic` | src/manager/InMemoryTaskManager.java:69-70 | the epic records the new subtask id and is recomputed |
| `Manager.InMemoryTaskManager.UpdateSubTask` | src/manager/InMemoryTaskManager.java:75-87 | an unknown id or an overlap with another entry is rejected with nothing changed; otherwise the subtask and its index entry are replaced and its epic is recomputed, or a NullPointerException follows when that epic is missing |
| `Manager.InMemoryTaskManager.UpdateTask` | src/manager/InMemoryTaskManager.java:90-102 | an unknown id, invalid data or an overlap with another entry is rejected with nothing changed; otherwise the task and its index entry are replaced |
| `Manager.InMemoryTaskManager.UpdateEpic` | src/manager/InMemoryTaskManager.java:105-112 | an unknown id is rejected; otherwise the epic is stored and recomputed from its subtasks |
| `Manager.InMemoryTaskManager.UpdateEpicStatus` | src/manager/InMemoryTaskManager.java:247-266 | the epic is replaced by its recomputation from the subtasks naming it; a missing epic gives NullPointerException and no change |
| `Manager.InMemoryTaskManager.RecalculateEpicFields` | src/manager/InMemoryTaskManager.java:290-292 | the same as `updateEpicStatus` for the epic's id |
| `Manager.InMemoryTaskManager.GetTask` | src/manager/InMemoryTaskManager.java:142-146 | the stored task or none; only a found task is recorded in the history, moved to the end |
| `Manager.InMemoryTaskManager.GetEpic` | src/manager/InMemoryTaskManager.java:149-153 | the stored epic or none; only a found epic is recorded in the history |
| `Manager.InMemoryTaskManager.GetSubtask` | src/manager/InMemoryTaskManager.java:156-160 | the stored subtask or none; only a found subtask is recorded in the history |
| `Manager.InMemoryTaskManager.DeleteTask` | src/manager/InMemoryTaskManager.java:163-169 | a stored task leaves the history, the index and `tasks`; an absent id changes nothing |
| `Manager.InMemoryTaskManager.PurgeSubtasksOf` | src/manager/InMemoryTaskManager.java:174-178 | every subtask naming the epic leaves the history, `subtasks` and the index |
| `Manager.InMemoryTaskManager.PurgeEpic` | src/manager/InMemoryTaskManager.java:174-179 | the epic's subtasks are purged, then the epic leaves the history |
| `Manager.InMemoryTaskManager.DeleteEpic` | src/manager/InMemoryTaskManager.java:172-182 | the epic's subtasks leave `subtasks`, the index and the history; then the epic leaves the history and `epics`; an absent id changes nothing |
| `Manager.InMemoryTaskManager.DeleteSubtask` | src/manager/InMemoryTaskManager.java:185-196 | a stored subtask leaves the index, `subtasks` and the history, and its epic (if stored) is recomputed; its id stays in the epic's list; an absent id changes nothing |
| `Manager.InMemoryTaskManager.GetSubtasksForEpic` | src/manager/InMemoryTaskManager.java:199-203 | exactly the stored subtasks whose epic id matches |
| `Manager.InMemoryTaskManager.GetAllTasks` | src/manager/InMemoryTaskManager.java:206-208 | exactly the stored tasks |
| `Manager.InMemoryTaskManager.GetAllEpics` | src/manager/InMemoryTaskManager.java:211-213 | exactly the stored epics |
| `Manager.InMemoryTaskManager.GetAllSubTasks` | src/manager/InMemoryTaskManager.java:216-218 | exactly the stored subtasks |
| `Manager.InMemoryTaskManager.DeleteAllTasks` | src/manager/InMemoryTaskManager.java:221-225 | every task leaves the history, the index keeps only subtasks, and `tasks` is empty |
| `Manager.InMemoryTaskManager.DeleteAllEpics` | src/manager/InMemoryTaskManager.java:228-238 | each epic's subtasks and the epic leave the history; those subtasks leave `subtasks` and the index; `epics` is empty; subtasks naming no epic stay |
| `Manager.InMemoryTaskManager.DeleteAllSubtasks` | src/manager/InMemoryTaskManager.java:241-245 | every subtask leaves the history, the index keeps only tasks, `subtasks` is empty, and epics are not recomputed |
| `Manager.InMemoryTaskManager.GetHistory` | src/manager/InMemoryTaskManager.java:295-297 | the history's entries, oldest view first |
| `Manager.InMemoryTaskManager.GetPrioritizedTasks` | src/manager/InMemoryTaskManager.java:300-302 | every stored task and subtask exactly once, sorted by start with untimed entries last and ties broken by id, no two overlapping |
| `Csv.ParseTime` | src/manager/TaskConversionUtils.java:59 | a parsed time is the one whose rendering is the text; any other text fails with DateTimeParseException |
| `Csv.ParseTimeInverts` | src/manager/TaskConversionUtils.java:59 | the rendering of every time parses back to that time |
| `Csv.CsvFields` | src/manager/TaskConversionUtils.java:16-42 | the line has exactly eight fields |
| `Csv.TaskToCsv` | src/manager/TaskConversionUtils.java:16-42 | the `StringBuilder` appends give id, type, name, status, description, epic id (subtasks only), start and duration, joined by commas |
| `Csv.CsvSplit` | src/manager/TaskConversionUtils.java:45 | with comma-free text, `split(",", -1)` of the line gives back the eight fields |
| `Csv.ParseOptional` | src/manager/TaskConversionUtils.java:59-60 | a blank start or duration field reads as absent |
| `Csv.TaskFromCsv` | src/manager/TaskConversionUtils.java:44-86 | fewer than eight fields is IllegalArgumentException; a parsed entity has the line's id, type, name, description and status, and any duration it holds fits `Duration.ofMinutes` |
| `Csv.ParseMinutes` | src/manager/TaskConversionUtils.java:60 | `Duration.ofMinutes(Long.parseLong(raw))`: a parsed value is the long the text denotes and its seconds fit in a long; a long whose seconds overflow is ArithmeticException |
| `Csv.MinutesBoundary` | src/manager/TaskConversionUtils.java:60 | the minutes `Duration.ofMinutes` accepts are exactly those within ±153722867280912930 |
| `Csv.DurationOverflowRejected` | src/manager/TaskConversionUtils.java:60 | a written line whose duration is a long with too many minutes is rejected with ArithmeticException |
| `Csv.TimesRoundTrip` | src/manager/TaskConversionUtils.java:59-60 | written start and duration fields read back as the entity's own |
| `Csv.CsvRoundTrip` | src/manager/TaskConversionUtils.java:16-86 | a TASK or SUBTASK with comma-free text, a status, 32-bit ids and a duration `Duration.ofMinutes` accepts reads back as itself |
| `Csv.EpicCsvRoundTrip` | src/manager/TaskConversionUtils.java:69-74 | an EPIC reads back with its id, name, status and description, with zero duration, no start and no subtask ids |
| `Csv.EpicRow` | src/manager/TaskConversionUtils.java:69-74 | an EPIC row ignores its start, duration and epic-id columns |
| `Csv.SubtaskNeedsEpic` | src/manager/TaskConversionUtils.java:75-78 | a SUBTASK row with a blank epic field is rejected |
| `Csv.BlankTimesAbsent` | src/manager/TaskConversionUtils.java:59-60 | blank start and duration fields give a TASK or SUBTASK without start and duration |
| `Csv.Ids` | src/manager/TaskConversionUtils.java:89-90 | the ids of the history entries, in order |
| `Csv.ParseInts` | src/manager/TaskConversionUtils.java:96-98 | every piece parses, in order, or the first failure propagates |
| `Csv.HistoryFromString` | src/manager/TaskConversionUtils.java:94-99 | null or blank text gives the empty list |
| `Csv.HistoryNotBlank` | src/manager/TaskConversionUtils.java:88-92 | a written non-empty history is not blank |
| `Csv.HistorySplit` | src/manager/TaskConversionUtils.java:96 | `split(",")` of a written non-empty history gives back the id pieces |
| `Csv.HistoryRoundTrip` | src/manager/TaskConversionUtils.java:88-99 | reading the written history gives the ids of its entries, in order |
| `Converter.Fields` | src/manager/TaskConverter.java:7-22 | the line has exactly six fields |
| `Converter.TaskToCsv` | src/manager/TaskConverter.java:7-22 | id, type, title, status and description each followed by a comma, then the epic id of a SUBTASK or nothing |
| `Converter.TaskFromCsv` | src/manager/TaskConverter.java:24-55 | fewer than five fields is rejected; every failure is IllegalArgumentException; a parsed entity has the line's id, type, title and description, a non-blank title and no times |
| `Converter.FieldsSplit` | src/manager/TaskConverter.java:25 | with comma-free text, `split(",", -1)` of the line gives back the six fields |
| `Converter.RoundTrip` | src/manager/TaskConverter.java:7-49 | id, type, title, description and a subtask's epic id come back; the status comes back for TASK and SUBTASK, and an EPIC comes back NEW |
| `Converter.SubtaskNeedsEpic` | src/manager/TaskConverter.java:44-46 | a SUBTASK row without a sixth field, or with a blank one, is rejected |
| `Converter.EpicRowIsNew` | src/manager/TaskConverter.java:41-42 | an EPIC row is NEW, whatever status it names |
| `EpicEntity.IdList.constructor` | src/task/Epic.java:10 | a new list is empty |
| `EpicEntity.IdList.Add` | src/task/Epic.java:44-46 | `add` appends at the end |
| `EpicEntity.Epic.Snapshot` | src/task/Epic.java:8-16 | the epic's fields, with its current subtask-id list, as a stored value |
| `EpicEntity.Epic.constructor` | src/task/Epic.java:12-16 | a fresh epic has zero duration, no start and an empty list of its own |
| `EpicEntity.Epic.GetType` | src/task/Epic.java:18-21 | the type is EPIC |
| `EpicEntity.Epic.GetEndTime` | src/task/Epic.java:33-36 | start plus duration when both are present, otherwise none |
| `EpicEntity.Epic.SetDuration` | src/task/Epic.java:29-31 | only the duration changes |
| `EpicEntity.Epic.SetEndTime` | src/task/Epic.java:38-42 | with a start and an end, the duration becomes end minus start, so `getEndTime` returns the end; otherwise nothing changes |
| `EpicEntity.Epic.GetSubtaskIds` | src/task/Epic.java:44-46 | the epic's own list object, not a copy |
| `EpicEntity.AppendSubtaskId` | src/task/Epic.java:44-46 | an append through `getSubtaskIds()` changes the epic's own list |
| `TaskEntity.Task.Data` | src/task/Task.java:5-8 | the four fields of the object |
| `TaskEntity.Task.constructor` | src/task/Task.java:21-24 | the object holds exactly the arguments |
| `TaskEntity.NewTask` | src/task/Task.java:10-25 | a null or blank title, a null description or a null status is rejected; an empty description is accepted; otherwise a fresh task holds exactly the arguments |
| `TaskEntity.Task.SetId` | src/task/Task.java:31-33 | only the id changes |
| `TaskEntity.Task.SetTitle` | src/task/Task.java:39-44 | a null or blank title is rejected and nothing changes; otherwise only the title changes |
| `TaskEntity.Task.SetDescription` | src/task/Task.java:50-55 | only null is rejected, and then nothing changes; otherwise only the description changes |
| `TaskEntity.Task.SetStatus` | src/task/Task.java:61-66 | null is rejected and nothing changes; otherwise only the status changes |
| `TaskEntity.EqualsIsSameData` | src/task/Task.java:68-75 | two tasks are equal iff their id, title, description and status are equal |
| `TaskEntity.EqualsIsEquivalence` | src/task/Task.java:68-75 | `equals` is reflexive, symmetric and transitive |
| `TaskEntity.NotEqualNull` | src/task/Task.java:71 | no task equals null |
| `EarlyEpic.RollupCases` | src/Epic.java:22-47 | the rollup is DONE iff there are subtasks and all are DONE; NEW iff there are none or all are NEW; IN_PROGRESS otherwise |
| `EarlyEpic.RollupExamples` | src/Epic.java:28-46 | {DONE, DONE} gives DONE, {NEW, NEW} gives NEW, {NEW, DONE} and {IN_PROGRESS, IN_PROGRESS} give IN_PROGRESS |
| `EarlyEpic.Appended` | src/Epic.java:12-16 | a null subtask leaves the list as it is; any other is appended at the end |
| `EarlyEpic.Epic.Data` | src/Epic.java:4 | the task fields of the epic |
| `EarlyEpic.Epic.constructor` | src/Epic.java:7-10 | status NEW and an empty list |
| `EarlyEpic.NewEpic` | src/Epic.java:7-10 | the task checks on title and description apply; otherwise status NEW and an empty list |
| `EarlyEpic.Epic.SetId` | src/Epic.java:4 | only the id changes |
| `EarlyEpic.Epic.AddSubtask` | src/Epic.java:12-16 | `addSubtask(null)` changes nothing; otherwise the subtask is appended |
| `EarlyEpic.Epic.GetSubtasks` | src/Epic.java:18-20 | a copy of the list, in order |
| `EarlyEpic.Epic.UpdateStatus` | src/Epic.java:22-47 | the loop's all-DONE and all-NEW flags give the rollup status; nothing else changes |
| `EarlyManager.InsertBySorted` | src/TaskManager.java:71 | inserting into a sorted list keeps it sorted |
| `EarlyManager.InsertByPermutes` | src/TaskManager.java:71 | inserting adds exactly that element |
| `EarlyManager.SortBySorted` | src/TaskManager.java:69-73 | the sort result is ordered by status and is a permutation of its input |
| `EarlyManager.WithKeyInsert` | src/TaskManager.java:71 | insertion puts the element first among those with its key |
| `EarlyManager.SortByStable` | src/TaskManager.java:75-79 | the sort is stable: entries with the same status keep their relative order |
| `EarlyManager.NewBeforeDone` | src/TaskManager.java:69-73 | in a list sorted by status, no DONE entry comes before a NEW or IN_PROGRESS one |
| `EarlyManager.TaskManager.constructor` | src/TaskManager.java:5-8 | nothing stored and the counter at 0, so the first id is 1 |
| `EarlyManager.TaskManager.CreateTask` | src/TaskManager.java:10-17 | a null task is NullPointerException and an incoming id already used by a task is IllegalArgumentException, both with nothing changed; otherwise the task gets `++idCounter`, an id no stored entity of any kind has |
| `EarlyManager.TaskManager.CreateEpic` | src/TaskManager.java:19-26 | a null epic is NullPointerException and an incoming id already used by an epic is IllegalArgumentException, both with nothing changed; otherwise the epic object is renumbered to `++idCounter` and stored |
| `EarlyManager.TaskManager.CreateSubTask` | src/TaskManager.java:28-39 | a null subtask is NullPointerException; an incoming id already used by a subtask, or an unknown epic, is IllegalArgumentException; a refused create changes nothing, its epic's list and fields included; otherwise the subtask gets `++idCounter`, is stored, and is appended to its epic's list |
| `EarlyManager.TaskManager.GetTask` | src/TaskManager.java:41-43 | the stored task, or null when absent |
| `EarlyManager.TaskManager.GetEpic` | src/TaskManager.java:45-47 | the stored epic object, or null when absent |
| `EarlyManager.TaskManager.GetSubtask` | src/TaskManager.java:49-51 | the stored subtask, or null when absent |
| `EarlyManager.TaskManager.DeleteTask` | src/TaskManager.java:53-55 | removes the key from `tasks` only |
| `EarlyManager.TaskManager.DeleteEpic` | src/TaskManager.java:57-59 | removes the key from `epics` only; its subtasks stay stored |
| `EarlyManager.TaskManager.DeleteSubtask` | src/TaskManager.java:61-63 | removes the key from `subtasks` only |
| `EarlyManager.TaskManager.GetSubtasksForEpic` | src/TaskManager.java:65-67 | a copy of the epic's list; an unknown epic gives NullPointerException |
| `EarlyManager.TaskManager.TaskValues` | src/TaskManager.java:70 | `tasks.values()`: every stored task exactly once |
| `EarlyManager.TaskManager.GetTasksSortedByStatus` | src/TaskManager.java:69-73 | every stored task exactly once, NEW first, then IN_PROGRESS, then DONE |
| `EarlyManager.TaskManager.GetSubtasksSortedByStatus` | src/TaskManager.java:75-79 | the epic's subtasks as a permutation sorted by status, stable within each status; an unknown epic gives NullPointerException |

## Left out

- The HTTP server and handlers, the Gson adapters, `FileBackedTaskManager`,
  `Managers` (replaced by an owned history field), `Main` and the
  `manager.TaskManager` interface are not part of this model.
  `src/Task.java` and `src/SubTask.java` of the default package are not part
  of this model either. The default-package `Epic` uses the title and
  description checks of `task.Task` in their place.
- `LocalDateTime` and `Duration` are whole minutes. The ISO date-time text
  written by `TaskConversionUtils` is stood in for by the decimal number of
  minutes; both are injective, never blank and free of commas. The parse
  side accepts only the exact rendering, where `LocalDateTime.parse` with
  the ISO format also accepts other spellings of the same time (an explicit
  `:00` seconds field, for example).
- Object identity and aliasing of task objects are not modelled. The manager
  stores values, so a caller that mutates an object it already handed to the
  manager is not captured. Neither is the `setId` the manager calls on the
  caller's object.
- `Manager.InMemoryTaskManager.GetHistory`: history entries are copies of
  the entity taken at the `getTask`, `getEpic` or `getSubtask` call. Java
  keeps the live object, so the manager's own later in-place updates of a
  viewed epic (the subtask id `createSubTask` appends, and the status, start
  and duration `updateEpicStatus` sets) show in Java's history but not in
  the model's.
- HashMap iteration order is not modelled. `getAllTasks`, `getAllEpics`,
  `getAllSubTasks` and `getSubtasksForEpic` return sets, and the bulk
  deletes visit keys in an arbitrary order.
- `Manager.InMemoryTaskManager.CreateTask`: modelled only for plain `Task`
  values. Java would also accept an `Epic` or `SubTask` object, which would
  then sit in `tasks` with the wrong kind.
- `Manager.InMemoryTaskManager.UpdateTask`: modelled only for plain `Task`
  values, for the same reason.
- `Manager.InMemoryTaskManager.CreateEpic`: a null epic (a
  NullPointerException in Java) is not modelled.
- `Manager.InMemoryTaskManager.CreateSubTask`: a null subtask is not
  modelled. In Java `subtask.setId(nextId++)` evaluates its argument before
  the null receiver throws NullPointerException, so the id is still used up
  and nothing else changes.
- `Manager.InMemoryTaskManager.UpdateSubTask`: a null subtask (a
  NullPointerException in Java, before any change) is not modelled.
- `Manager.InMemoryTaskManager.UpdateTask`: a null task (a
  NullPointerException in Java, before any change) is not modelled.
- `Manager.InMemoryTaskManager.UpdateEpic`: a null epic (a
  NullPointerException in Java, before any change) is not modelled.
- `validateUniqueId` is private and never called, so it is not modelled.
- The history list is an arena of nodes addressed by index instead of heap
  objects. A node that was unlinked keeps its arena slot and is never
  reused, where Java would garbage-collect it.
- `nextId` and `idCounter` are unbounded integers. The 32-bit wrap-around
  after 2^31 - 1 creations is not modelled.
- `Integer.parseInt` and `Long.parseLong` accept only ASCII digits here.
  Java also accepts other Unicode decimal digits.
- `Task.clone`, `hashCode` and `toString` are not modelled.
- `task.Task` as given has only the validating four-argument constructor.
  The two-argument constructor that `new Epic(name, description)` calls, and
  the `Task(name, description, duration, startTime)` constructor that
  `taskFromCSV` calls for a TASK row, are not part of this model. The model
  assumes they only assign their arguments: a new `task.Epic` keeps the
  field defaults (id 0, no status) until the setters run, and a TASK row's
  name and description are not validated.
  The later `task.Task` and `task.SubTask` getters are not part of this model
  either. The model assumes `getName`, `getDuration` and `getStartTime`
  return the stored fields, and that `getEndTime` is start plus duration,
  absent when either is missing (`Entities.Item.End`). The overlap check and
  the epic span rely on that.
- `TaskStatus` is not part of this model. Its declaration order is assumed
  to be NEW, IN_PROGRESS, DONE (`Kinds.Ordinal`); the status sorts of the
  early `TaskManager` depend on that order.
- `TaskEntity.Task.Equals`: compares with another `Task` only. The
  `getClass()` test is not modelled, because the model has no subclasses of
  this `Task`.
