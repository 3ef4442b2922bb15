/**
 * updateEpicStatus and updateEpicTimeFields of InMemoryTaskManager: an epic's
 * status and time span recomputed from the subtasks that name it. The
 * subtasks are a set because the result does not depend on the order in
 * which the stream visits them.
 */
module Aggregate {
  import opened Outcomes
  import opened Kinds
  import opened Entities

  /** allMatch(s -> s.getStatus() == st). */
  predicate AllHave(subs: set<Item>, st: Status) {
    forall s | s in subs :: s.status == Some(st)
  }

  /** The start times present among the subtasks. */
  function Starts(subs: set<Item>): set<int> {
    set s | s in subs && s.start.Some? :: s.start.value
  }

  /** The end times present among the subtasks. */
  function Ends(subs: set<Item>): set<int> {
    set s | s in subs && s.End().Some? :: s.End().value
  }

  /** A finite non-empty set of integers has a least element. */
  lemma {:induction false} HasLeast(xs: set<int>)
    requires xs != {}
    ensures exists m :: m in xs && forall x | x in xs :: m <= x
    decreases |xs|
  {
    var y := SomeElement(xs);
    if xs != {y} {
      var rest := xs - {y};
      assert |rest| < |xs|;
      HasLeast(rest);
      var m :| m in rest && forall x | x in rest :: m <= x;
      var w := if y < m then y else m;
      forall x | x in xs ensures w <= x {
        if x != y { assert x in rest; }
      }
      assert w in xs;
    } else {
      assert forall x | x in xs :: y <= x;
    }
  }

  /** A finite non-empty set of integers has a greatest element. */
  lemma {:induction false} HasGreatest(xs: set<int>)
    requires xs != {}
    ensures exists m :: m in xs && forall x | x in xs :: x <= m
    decreases |xs|
  {
    var y := SomeElement(xs);
    if xs != {y} {
      var rest := xs - {y};
      assert |rest| < |xs|;
      HasGreatest(rest);
      var m :| m in rest && forall x | x in rest :: x <= m;
      var w := if m < y then y else m;
      forall x | x in xs ensures x <= w {
        if x != y { assert x in rest; }
      }
      assert w in xs;
    } else {
      assert forall x | x in xs :: x <= y;
    }
  }

  /** Stream.min(LocalDateTime::compareTo) of a non-empty stream. */
  function Least(xs: set<int>): (m: int)
    requires xs != {}
    ensures m in xs && forall x | x in xs :: m <= x
  {
    HasLeast(xs);
    var m :| m in xs && forall x | x in xs :: m <= x; m
  }

  /** Stream.max(LocalDateTime::compareTo) of a non-empty stream. */
  function Greatest(xs: set<int>): (m: int)
    requires xs != {}
    ensures m in xs && forall x | x in xs :: x <= m
  {
    HasGreatest(xs);
    var m :| m in xs && forall x | x in xs :: x <= m; m
  }

  /**
   * updateEpicTimeFields: the start becomes the earliest subtask start and
   * the duration runs to the latest subtask end; when either is missing the
   * start is cleared and the duration is zero.
   */
  function WithTimeFields(subs: set<Item>, epic: Item): (r: Item)
    ensures r.id == epic.id && r.name == epic.name && r.description == epic.description
    ensures r.status == epic.status && r.part == epic.part
  {
    var starts, ends := Starts(subs), Ends(subs);
    if starts != {} && ends != {} then
      var first, last := Least(starts), Greatest(ends);
      epic.(start := Some(first), duration := Some(last - first))
    else
      epic.(start := None, duration := Some(0))
  }

  /**
   * The epic after updateEpicStatus, given the subtasks whose epic id is
   * the epic's. With no subtasks the status becomes NEW and the start is
   * cleared; setEndTime(null) then changes nothing, so the duration stays.
   * Otherwise the status follows the all-DONE / all-NEW flags and the time
   * fields are recomputed.
   */
  function Recompute(epic: Item, subs: set<Item>): (r: Item)
    ensures r.id == epic.id && r.name == epic.name && r.description == epic.description
    ensures r.part == epic.part
  {
    if subs == {} then
      epic.(status := Some(NEW), start := None)
    else
      var allNew := AllHave(subs, NEW);
      var allDone := AllHave(subs, DONE);
      var status := if allDone then DONE else if allNew then NEW else IN_PROGRESS;
      WithTimeFields(subs, epic.(status := Some(status)))
  }

  /**
   * The status rule: DONE exactly when there are subtasks and all are DONE;
   * NEW exactly when there are none or all are NEW; IN_PROGRESS otherwise.
   */
  lemma RecomputeStatus(epic: Item, subs: set<Item>)
    ensures Recompute(epic, subs).status.Some?
    ensures Recompute(epic, subs).status == Some(DONE) <==> subs != {} && AllHave(subs, DONE)
    ensures Recompute(epic, subs).status == Some(NEW) <==> subs == {} || AllHave(subs, NEW)
    ensures Recompute(epic, subs).status == Some(IN_PROGRESS) <==>
              subs != {} && !AllHave(subs, DONE) && !AllHave(subs, NEW)
    ensures Recompute(epic, subs).status.value == EpicStatusRule(subs == {}, AllHave(subs, DONE), AllHave(subs, NEW))
  {
    if subs != {} && AllHave(subs, DONE) {
      var s :| s in subs;
      assert !AllHave(subs, NEW) by { assert s.status == Some(DONE); }
    }
  }

  /**
   * The time span: the epic starts at the earliest subtask start and ends at
   * the latest subtask end, so gaps between subtasks count; with either
   * missing it has no start, no end and a zero duration; with no subtasks
   * the duration is left as it was.
   */
  lemma RecomputeSpan(epic: Item, subs: set<Item>)
    ensures subs == {} ==> Recompute(epic, subs).start.None? && Recompute(epic, subs).duration == epic.duration
    ensures subs != {} && (Starts(subs) == {} || Ends(subs) == {}) ==>
              var r := Recompute(epic, subs);
              r.start.None? && r.duration == Some(0) && r.End().None?
    ensures Starts(subs) != {} && Ends(subs) != {} ==>
              var r := Recompute(epic, subs);
              && r.start.Some? && r.End().Some?
              && (exists s | s in subs :: s.start == r.start)
              && (forall s | s in subs && s.start.Some? :: r.start.value <= s.start.value)
              && (exists s | s in subs :: s.End() == r.End())
              && (forall s | s in subs && s.End().Some? :: s.End().value <= r.End().value)
  {
    if Starts(subs) != {} && Ends(subs) != {} {
      EarliestStart(subs);
      LatestEnd(subs);
    }
  }

  /** The earliest start is one of the subtasks' starts and no subtask starts earlier. */
  lemma EarliestStart(subs: set<Item>)
    requires Starts(subs) != {}
    ensures exists s | s in subs :: s.start == Some(Least(Starts(subs)))
    ensures forall s | s in subs && s.start.Some? :: Least(Starts(subs)) <= s.start.value
  {
    var m := Least(Starts(subs));
    var s :| s in subs && s.start.Some? && s.start.value == m;
    forall t | t in subs && t.start.Some? ensures m <= t.start.value {
      assert t.start.value in Starts(subs);
    }
  }

  /** The latest end is one of the subtasks' ends and no subtask ends later. */
  lemma LatestEnd(subs: set<Item>)
    requires Ends(subs) != {}
    ensures exists s | s in subs :: s.End() == Some(Greatest(Ends(subs)))
    ensures forall s | s in subs && s.End().Some? :: s.End().value <= Greatest(Ends(subs))
  {
    var m := Greatest(Ends(subs));
    var s :| s in subs && s.End().Some? && s.End().value == m;
    forall t | t in subs && t.End().Some? ensures t.End().value <= m {
      assert t.End().value in Ends(subs);
    }
  }

  /** With no negative subtask durations, the recomputed epic has no negative duration either. */
  lemma RecomputeNonNegative(epic: Item, subs: set<Item>)
    requires forall s | s in subs && s.duration.Some? :: s.duration.value >= 0
    requires subs != {}
    ensures Recompute(epic, subs).duration.Some? && Recompute(epic, subs).duration.value >= 0
  {
    if Starts(subs) != {} && Ends(subs) != {} {
      LatestEnd(subs);
      EarliestStart(subs);
      var s :| s in subs && s.End() == Some(Greatest(Ends(subs)));
      assert s.start.Some?;
      assert Least(Starts(subs)) <= s.start.value;
    }
  }

  /**
   * Two NEW subtasks, 10:00 for 30 minutes and 12:00 for 45 minutes
   * (minutes since midnight): the epic is NEW, starts at 10:00, ends at
   * 12:45 and lasts 165 minutes, the gap between them included.
   */
  lemma SpanScenario(epic: Item, s1: Item, s2: Item)
    requires s1.start == Some(600) && s1.duration == Some(30) && s1.status == Some(NEW)
    requires s2.start == Some(720) && s2.duration == Some(45) && s2.status == Some(NEW)
    ensures var r := Recompute(epic, {s1, s2});
      r.status == Some(NEW) && r.start == Some(600) && r.duration == Some(165) && r.End() == Some(765)
  {
    var subs := {s1, s2};
    assert s1.End() == Some(630) && s2.End() == Some(765);
    assert Starts(subs) == {600, 720};
    assert Ends(subs) == {630, 765};
    var first, last := Least(Starts(subs)), Greatest(Ends(subs));
    assert first <= 600 && last >= 765;
    RecomputeStatus(epic, subs);
  }
}
