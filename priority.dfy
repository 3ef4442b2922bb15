/**
 * The interval index of InMemoryTaskManager: the `prioritizedTasks` TreeSet
 * as a sorted sequence, its comparator, `removeIf`, and the half-open
 * overlap test run against it.
 */
module Priority {
  import opened Outcomes
  import opened Entities

  /**
   * The TreeSet comparator: by start time ascending with absent starts last
   * (Comparator.nullsLast), then by id.
   */
  predicate Before(a: Item, b: Item) {
    match (a.start, b.start)
    case (Some(x), Some(y)) => x < y || (x == y && a.id < b.id)
    case (Some(_), None) => true
    case (None, Some(_)) => false
    case (None, None) => a.id < b.id
  }

  /** The comparator returns 0: the TreeSet treats the two as the same element. */
  predicate SameKey(a: Item, b: Item) {
    a.start == b.start && a.id == b.id
  }

  /** The comparator is a strict total order on keys. */
  lemma BeforeIsStrictOrder(a: Item, b: Item, c: Item)
    ensures !Before(a, a)
    ensures Before(a, b) ==> !Before(b, a) && !SameKey(a, b)
    ensures !SameKey(a, b) ==> Before(a, b) || Before(b, a)
    ensures Before(a, b) && Before(b, c) ==> Before(a, c)
  {
  }

  /** Iteration order of the TreeSet: strictly ascending. */
  predicate Sorted(s: seq<Item>) {
    forall i, j | 0 <= i < j < |s| :: Before(s[i], s[j])
  }

  /** TreeSet.add: put `x` in its place, unless an element with the same key is there. */
  function Insert(s: seq<Item>, x: Item): seq<Item>
  {
    if |s| == 0 then [x]
    else if SameKey(s[0], x) then s
    else if Before(x, s[0]) then [x] + s
    else [s[0]] + Insert(s[1..], x)
  }

  predicate HasKeyOf(s: seq<Item>, x: Item) {
    exists i | 0 <= i < |s| :: SameKey(s[i], x)
  }

  /** An element with the same key already there: TreeSet.add changes nothing. */
  lemma {:induction false} InsertPresent(s: seq<Item>, x: Item)
    requires Sorted(s) && HasKeyOf(s, x)
    ensures Insert(s, x) == s
    decreases |s|
  {
    var i :| 0 <= i < |s| && SameKey(s[i], x);
    if !SameKey(s[0], x) {
      assert i > 0 && Before(s[0], s[i]);
      assert !Before(x, s[0]);
      assert SameKey(s[1..][i - 1], x);
      InsertPresent(s[1..], x);
      assert s == [s[0]] + s[1..];
    }
  }

  /** No element with the key of `x`: TreeSet.add puts `x` at position `k`, after the smaller elements. */
  lemma {:induction false} InsertAbsent(s: seq<Item>, x: Item) returns (k: nat)
    requires Sorted(s) && !HasKeyOf(s, x)
    ensures k <= |s| && Insert(s, x) == s[..k] + [x] + s[k..]
    ensures forall j | 0 <= j < k :: Before(s[j], x)
    ensures forall j | k <= j < |s| :: Before(x, s[j])
    decreases |s|
  {
    if |s| == 0 {
      k := 0;
    } else if Before(x, s[0]) {
      k := 0;
      forall j | 0 <= j < |s| ensures Before(x, s[j]) {
        if j > 0 { BeforeIsStrictOrder(x, s[0], s[j]); }
      }
    } else {
      assert !SameKey(s[0], x);
      forall i | 0 <= i < |s[1..]| ensures !SameKey(s[1..][i], x) {
        assert s[1..][i] == s[i + 1];
      }
      var k' := InsertAbsent(s[1..], x);
      k := k' + 1;
      assert s[..k] == [s[0]] + s[1..][..k'];
      assert s[k..] == s[1..][k'..];
    }
  }

  /** Position `i` of `s` with `x` inserted at `k`. */
  function Shifted(s: seq<Item>, x: Item, k: nat, i: nat): Item
    requires k <= |s| && i <= |s|
  {
    if i < k then s[i] else if i == k then x else s[i - 1]
  }

  /** TreeSet.add keeps the set ordered, and adds `x` exactly when no element has its key. */
  lemma InsertSpec(s: seq<Item>, x: Item)
    requires Sorted(s)
    ensures Sorted(Insert(s, x))
    ensures HasKeyOf(s, x) ==> Insert(s, x) == s
    ensures !HasKeyOf(s, x) ==> multiset(Insert(s, x)) == multiset(s) + multiset{x}
  {
    if HasKeyOf(s, x) {
      InsertPresent(s, x);
    } else {
      var k := InsertAbsent(s, x);
      var r := Insert(s, x);
      forall i | 0 <= i < |r| ensures r[i] == Shifted(s, x, k, i) { }
      forall i, j | 0 <= i < j < |r| ensures Before(r[i], r[j]) {
        if i < k && j > k { BeforeIsStrictOrder(s[i], x, s[j - 1]); }
      }
      assert s == s[..k] + s[k..];
    }
  }

  /** After TreeSet.add of an element with a new key, the set holds the old elements and that one. */
  lemma InsertMembers(s: seq<Item>, x: Item)
    requires Sorted(s) && !HasKeyOf(s, x)
    ensures forall y :: y in Insert(s, x) <==> y in s || y == x
  {
    InsertSpec(s, x);
    forall y ensures y in Insert(s, x) <==> y in s || y == x {
      assert y in Insert(s, x) <==> y in multiset(Insert(s, x));
      assert y in s <==> y in multiset(s);
    }
  }

  /** Removing elements keeps the rest in order. */
  lemma {:induction false} WhereSorted(s: seq<Item>, keep: Item -> bool)
    requires Sorted(s)
    ensures Sorted(Where(s, keep))
    decreases |s|
  {
    if |s| > 0 {
      assert Sorted(s[1..]);
      WhereSorted(s[1..], keep);
      if keep(s[0]) {
        var r := Where(s[1..], keep);
        WhereMembers(s[1..], keep);
        forall j | 0 <= j < |r| ensures Before(s[0], r[j]) {
          assert r[j] in s[1..];
        }
      }
    }
  }

  /**
   * The half-open overlap test: both intervals known and each starts before
   * the other ends. Any missing start or end means no overlap.
   */
  predicate Overlapping(t1: Item, t2: Item) {
    t1.start.Some? && t1.End().Some? && t2.start.Some? && t2.End().Some?
    && t1.start.value < t2.End().value && t2.start.value < t1.End().value
  }

  /** Intervals that only touch do not overlap, the test is symmetric, and untimed entries never overlap. */
  lemma OverlapFacts(a: Item, b: Item)
    ensures Overlapping(a, b) <==> Overlapping(b, a)
    ensures a.End().Some? && a.End() == b.start ==> !Overlapping(a, b)
    ensures a.start.None? || a.duration.None? || b.start.None? || b.duration.None? ==> !Overlapping(a, b)
  {
  }

  /** hasIntersections: some entry with another id overlaps the candidate. */
  predicate HasIntersections(s: seq<Item>, t: Item) {
    exists i | 0 <= i < |s| :: s[i].id != t.id && Overlapping(s[i], t)
  }

  /** The scan skips the candidate's own id, so its old version never makes it collide. */
  lemma OwnVersionIgnored(s: seq<Item>, t: Item)
    ensures HasIntersections(s, t) <==> HasIntersections(RemoveId(s, t.id), t)
  {
    var r := RemoveId(s, t.id);
    RemoveIdMembers(s, t.id);
    if HasIntersections(s, t) {
      var i :| 0 <= i < |s| && s[i].id != t.id && Overlapping(s[i], t);
      assert s[i] in r;
      var j :| 0 <= j < |r| && r[j] == s[i];
    }
    if HasIntersections(r, t) {
      var j :| 0 <= j < |r| && r[j].id != t.id && Overlapping(r[j], t);
      assert r[j] in s;
      var i :| 0 <= i < |s| && s[i] == r[j];
    }
  }

  /** No two different entries of the index overlap in time. */
  predicate NoOverlaps(s: seq<Item>) {
    forall i, j | 0 <= i < |s| && 0 <= j < |s| && i != j :: !Overlapping(s[i], s[j])
  }

  /** A candidate that passed the intersection check keeps the index free of overlaps once added. */
  lemma InsertKeepsNoOverlaps(s: seq<Item>, x: Item)
    requires Sorted(s) && NoOverlaps(s) && DistinctIds(s)
    requires forall i | 0 <= i < |s| :: s[i].id != x.id
    requires !HasIntersections(s, x)
    ensures NoOverlaps(Insert(s, x)) && DistinctIds(Insert(s, x))
  {
    assert !HasKeyOf(s, x);
    var k := InsertAbsent(s, x);
    var r := Insert(s, x);
    forall i | 0 <= i < |r| ensures r[i] == Shifted(s, x, k, i) { }
    forall i, j | 0 <= i < |r| && 0 <= j < |r| && i != j
      ensures !Overlapping(r[i], r[j])
    {
      if i == k {
        OverlapFacts(r[j], x);
      } else if j != k {
        assert !Overlapping(s[if i < k then i else i - 1], s[if j < k then j else j - 1]);
      }
    }
    forall i, j | 0 <= i < j < |r| ensures r[i].id != r[j].id {
      if i != k && j != k {
        assert s[if i < k then i else i - 1].id != s[if j < k then j else j - 1].id;
      }
    }
  }

  /** Removing entries keeps the index free of overlaps and of repeated ids. */
  lemma {:induction false} WhereKeepsNoOverlaps(s: seq<Item>, keep: Item -> bool)
    requires NoOverlaps(s) && DistinctIds(s)
    ensures NoOverlaps(Where(s, keep)) && DistinctIds(Where(s, keep))
    decreases |s|
  {
    if |s| > 0 {
      var rest := s[1..];
      assert NoOverlaps(rest) by {
        forall i, j | 0 <= i < |rest| && 0 <= j < |rest| && i != j ensures !Overlapping(rest[i], rest[j]) {
          assert rest[i] == s[i + 1] && rest[j] == s[j + 1];
        }
      }
      assert DistinctIds(rest) by {
        forall i, j | 0 <= i < j < |rest| ensures rest[i].id != rest[j].id {
          assert rest[i] == s[i + 1] && rest[j] == s[j + 1];
        }
      }
      WhereKeepsNoOverlaps(rest, keep);
      if keep(s[0]) {
        var w := Where(rest, keep);
        WhereMembers(rest, keep);
        var r := [s[0]] + w;
        forall j | 0 <= j < |w| ensures !Overlapping(s[0], w[j]) && !Overlapping(w[j], s[0]) && s[0].id != w[j].id {
          assert w[j] in rest;
          var k :| 0 <= k < |rest| && rest[k] == w[j];
          assert s[k + 1] == w[j];
        }
        forall i, j | 0 <= i < |r| && 0 <= j < |r| && i != j ensures !Overlapping(r[i], r[j]) {
          if i == 0 { assert r[j] == w[j - 1]; }
          else if j == 0 { assert r[i] == w[i - 1]; }
          else { assert r[i] == w[i - 1] && r[j] == w[j - 1]; }
        }
        forall i, j | 0 <= i < j < |r| ensures r[i].id != r[j].id {
          if i == 0 { assert r[j] == w[j - 1]; }
          else { assert r[i] == w[i - 1] && r[j] == w[j - 1]; }
        }
      }
    }
  }
}
