/**
 * Task, Epic and SubTask as the task manager and the CSV codecs see them:
 * one record with the shared fields and a kind-specific part. Java nulls are
 * `None`; start times and durations are whole minutes.
 */
module Entities {
  import opened Outcomes
  import opened Kinds

  /** What distinguishes a plain Task, an Epic (its subtask ids) and a SubTask (its epic). */
  datatype Part =
    | PlainPart
    | EpicPart(subtaskIds: seq<int>)
    | SubtaskPart(epicId: int)

  datatype Item = Item(
    id: int,
    name: Option<string>,
    description: Option<string>,
    status: Option<Status>,
    duration: Option<int>,
    start: Option<int>,
    part: Part)
  {
    /** getType(). */
    function Type(): TaskType {
      match part
      case PlainPart => TASK
      case EpicPart(_) => EPIC
      case SubtaskPart(_) => SUBTASK
    }

    /** getEndTime(): start plus duration when both are set. */
    function End(): Option<int> {
      EndTime(start, duration)
    }

    /** True for a SubTask whose epic is `epicId`. */
    predicate BelongsTo(epicId: int) {
      part.SubtaskPart? && part.epicId == epicId
    }
  }

  /** Some element of a non-empty set. */
  lemma SomeElement<T>(xs: set<T>) returns (y: T)
    requires xs != {}
    ensures y in xs
  {
    if forall x :: x !in xs {
      assert false;
    }
    y :| y in xs;
  }

  /** Start plus duration when both are present, otherwise absent. */
  function EndTime(start: Option<int>, duration: Option<int>): Option<int> {
    if start.Some? && duration.Some? then Some(start.value + duration.value) else None
  }

  /**
   * The new duration after Epic.setEndTime(end): end minus start when both
   * are present; otherwise the duration stays as it was.
   */
  function DurationAfterSetEnd(start: Option<int>, duration: Option<int>, end: Option<int>): Option<int> {
    if start.Some? && end.Some? then Some(end.value - start.value) else duration
  }

  /** setEndTime makes getEndTime return what was set, or changes nothing. */
  lemma SetEndThenGetEnd(start: Option<int>, duration: Option<int>, end: Option<int>)
    ensures start.Some? && end.Some? ==> EndTime(start, DurationAfterSetEnd(start, duration, end)) == end
    ensures !(start.Some? && end.Some?) ==> DurationAfterSetEnd(start, duration, end) == duration
  {
  }

  /** `removeIf(t -> !keep(t))` on a list: the elements that satisfy `keep`, in order. */
  function Where(s: seq<Item>, keep: Item -> bool): (r: seq<Item>)
    ensures |r| <= |s|
  {
    if |s| == 0 then []
    else if keep(s[0]) then [s[0]] + Where(s[1..], keep)
    else Where(s[1..], keep)
  }

  /** The filtered list holds exactly the elements of `s` that satisfy `keep`. */
  lemma {:induction false} WhereMembers(s: seq<Item>, keep: Item -> bool)
    ensures forall y :: y in Where(s, keep) <==> y in s && keep(y)
    decreases |s|
  {
    if |s| > 0 {
      WhereMembers(s[1..], keep);
      assert s == [s[0]] + s[1..];
    }
  }

  /** One filtering step: the head is kept or dropped, the tail is filtered. */
  lemma WhereCons(x: Item, s: seq<Item>, keep: Item -> bool)
    ensures Where([x] + s, keep) == (if keep(x) then [x] else []) + Where(s, keep)
  {
    assert ([x] + s)[0] == x && ([x] + s)[1..] == s;
  }

  /** Filtering distributes over concatenation. */
  lemma {:induction false} WhereAppend(a: seq<Item>, b: seq<Item>, keep: Item -> bool)
    ensures Where(a + b, keep) == Where(a, keep) + Where(b, keep)
    decreases |a|
  {
    if |a| == 0 {
      assert a + b == b;
    } else {
      var x, t := a[0], a[1..];
      assert a == [x] + t;
      assert a + b == [x] + (t + b);
      WhereCons(x, t + b, keep);
      WhereCons(x, t, keep);
      WhereAppend(t, b, keep);
      var h := if keep(x) then [x] else [];
      assert h + (Where(t, keep) + Where(b, keep)) == (h + Where(t, keep)) + Where(b, keep);
    }
  }

  /** `removeIf(t -> t.getId() == id)`. */
  function RemoveId(s: seq<Item>, id: int): seq<Item> {
    Where(s, (t: Item) => t.id != id)
  }

  /** The entries left after removing an id are the others. */
  lemma RemoveIdMembers(s: seq<Item>, id: int)
    ensures forall y :: y in RemoveId(s, id) <==> y in s && y.id != id
  {
    WhereMembers(s, (t: Item) => t.id != id);
  }

  /** Several `removeIf(t -> t.getId() == id)` in a row: drop every entry whose id is in `ids`. */
  function RemoveIds(s: seq<Item>, ids: set<int>): seq<Item> {
    Where(s, (t: Item) => t.id !in ids)
  }

  /** The entries left after removing a set of ids are the others. */
  lemma RemoveIdsMembers(s: seq<Item>, ids: set<int>)
    ensures forall y :: y in RemoveIds(s, ids) <==> y in s && y.id !in ids
  {
    WhereMembers(s, (t: Item) => t.id !in ids);
  }

  /** Removing no ids changes nothing. */
  lemma {:induction false} RemoveNoIds(s: seq<Item>)
    ensures RemoveIds(s, {}) == s
    decreases |s|
  {
    if |s| > 0 {
      RemoveNoIds(s[1..]);
      assert s == [s[0]] + s[1..];
    }
  }

  /** Removing one id is removing the singleton set of it. */
  lemma {:induction false} RemoveIdAsIds(s: seq<Item>, id: int)
    ensures RemoveId(s, id) == RemoveIds(s, {id})
    decreases |s|
  {
    if |s| > 0 {
      RemoveIdAsIds(s[1..], id);
    }
  }

  /** Removing the ids in `a` and then those in `b` removes those in `a + b`. */
  lemma {:induction false} RemoveIdsTwice(s: seq<Item>, a: set<int>, b: set<int>)
    ensures RemoveIds(RemoveIds(s, a), b) == RemoveIds(s, a + b)
    decreases |s|
  {
    if |s| > 0 {
      var x, rest := s[0], s[1..];
      RemoveIdsTwice(rest, a, b);
      if x.id !in a {
        assert RemoveIds(s, a) == [x] + RemoveIds(rest, a);
        WhereCons(x, RemoveIds(rest, a), (t: Item) => t.id !in b);
      }
    }
  }

  /** No id occurs twice. */
  predicate DistinctIds(s: seq<Item>) {
    forall i, j | 0 <= i < j < |s| :: s[i].id != s[j].id
  }

  /** Some entry of `s` has the id `id`. */
  predicate HasId(s: seq<Item>, id: int) {
    exists i | 0 <= i < |s| :: s[i].id == id
  }

  /** Removing an id that is not there changes nothing. */
  lemma {:induction false} RemoveAbsentId(s: seq<Item>, id: int)
    requires !HasId(s, id)
    ensures RemoveId(s, id) == s
    decreases |s|
  {
    if |s| > 0 {
      assert s[0].id != id;
      forall i | 0 <= i < |s[1..]| ensures s[1..][i].id != id {
        assert s[1..][i] == s[i + 1];
      }
      RemoveAbsentId(s[1..], id);
      assert s == [s[0]] + s[1..];
    }
  }

  /** With distinct ids, removing the id at position `k` deletes exactly that entry. */
  lemma {:induction false} RemoveIdAt(s: seq<Item>, k: int)
    requires DistinctIds(s) && 0 <= k < |s|
    ensures RemoveId(s, s[k].id) == s[..k] + s[k + 1..]
    decreases |s|
  {
    var id := s[k].id;
    if k == 0 {
      forall i | 0 <= i < |s[1..]| ensures s[1..][i].id != id {
        assert s[1..][i] == s[i + 1];
      }
      RemoveAbsentId(s[1..], id);
    } else {
      assert s[0].id != id;
      assert DistinctIds(s[1..]) by {
        forall i, j | 0 <= i < j < |s[1..]| ensures s[1..][i].id != s[1..][j].id {
          assert s[1..][i] == s[i + 1] && s[1..][j] == s[j + 1];
        }
      }
      RemoveIdAt(s[1..], k - 1);
      assert s[1..][k - 1] == s[k];
      assert s[..k] == [s[0]] + s[1..][..k - 1];
      assert s[k + 1..] == s[1..][k..];
    }
  }

  /** The ids of a list with one entry appended. */
  lemma HasIdAppend(s: seq<Item>, x: Item, id: int)
    ensures HasId(s + [x], id) <==> HasId(s, id) || id == x.id
  {
    var r := s + [x];
    if HasId(s, id) {
      var j :| 0 <= j < |s| && s[j].id == id;
      assert r[j].id == id;
    }
    if HasId(r, id) && id != x.id {
      var j :| 0 <= j < |r| && r[j].id == id;
      assert s[j].id == id;
    }
    assert r[|s|] == x;
  }

  /** With distinct ids, deleting the entry at `k` removes exactly its id. */
  lemma HasIdRemoveAt(s: seq<Item>, k: int, id: int)
    requires DistinctIds(s) && 0 <= k < |s|
    ensures HasId(s[..k] + s[k + 1..], id) <==> HasId(s, id) && id != s[k].id
  {
    var r := s[..k] + s[k + 1..];
    forall i | 0 <= i < |r| ensures r[i] == s[if i < k then i else i + 1] { }
    if HasId(s, id) && id != s[k].id {
      var j :| 0 <= j < |s| && s[j].id == id;
      assert r[if j < k then j else j - 1].id == id;
    }
    if HasId(r, id) {
      var j :| 0 <= j < |r| && r[j].id == id;
      assert s[if j < k then j else j + 1].id == id;
    }
  }

  /** Deleting an entry keeps ids distinct. */
  lemma DistinctRemoveAt(s: seq<Item>, k: int)
    requires DistinctIds(s) && 0 <= k < |s|
    ensures DistinctIds(s[..k] + s[k + 1..])
  {
    var r := s[..k] + s[k + 1..];
    forall i | 0 <= i < |r| ensures r[i] == s[if i < k then i else i + 1] { }
  }

  /** Filtering keeps ids distinct. */
  lemma {:induction false} WhereDistinct(s: seq<Item>, keep: Item -> bool)
    requires DistinctIds(s)
    ensures DistinctIds(Where(s, keep))
    decreases |s|
  {
    if |s| > 0 {
      var rest := s[1..];
      assert DistinctIds(rest) by {
        forall i, j | 0 <= i < j < |rest| ensures rest[i].id != rest[j].id {
          assert rest[i] == s[i + 1] && rest[j] == s[j + 1];
        }
      }
      WhereDistinct(rest, keep);
      if keep(s[0]) {
        var w := Where(rest, keep);
        WhereMembers(rest, keep);
        forall j | 0 <= j < |w| ensures s[0].id != w[j].id {
          assert w[j] in rest;
          var m :| 0 <= m < |rest| && rest[m] == w[j];
          assert s[m + 1] == w[j];
        }
        var r := [s[0]] + w;
        forall i, j | 0 <= i < j < |r| ensures r[i].id != r[j].id {
          if i > 0 { assert r[i] == w[i - 1] && r[j] == w[j - 1]; } else { assert r[j] == w[j - 1]; }
        }
      }
    }
  }

  /** Appending an entry with a new id keeps ids distinct. */
  lemma DistinctAppend(s: seq<Item>, x: Item)
    requires DistinctIds(s) && !HasId(s, x.id)
    ensures DistinctIds(s + [x])
  {
    var r := s + [x];
    forall i | 0 <= i < |s| ensures r[i].id != x.id {
      assert s[i].id == r[i].id;
    }
  }
}
