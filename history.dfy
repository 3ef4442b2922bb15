/**
 * InMemoryHistoryManager: the order in which tasks were last viewed, without
 * repeats, kept as a doubly linked list of nodes plus a map from task id to
 * its node. Nodes live in an arena: `arena[r]` is the node at reference `r`,
 * a link is an optional reference (`None` is null), and relinking a node
 * updates its slot in place. The ghost sequence `order` lists the references
 * from head to tail and `Contents` the tasks stored at them.
 */
module History {
  import opened Outcomes
  import opened Entities

  /** A list node: the neighbours' references and the task. */
  datatype Node = Node(prev: Option<nat>, data: Item, next: Option<nat>)

  class HistoryManager {
    var nodeMap: map<int, nat>
    var head: Option<nat>
    var tail: Option<nat>
    /** Every node ever allocated, addressed by reference. */
    var arena: seq<Node>

    ghost var order: seq<nat>
    ghost var Contents: seq<Item>

    /** The list invariant without the map: `order` is a well-linked chain in `arena`, from `head` to `tail`. */
    ghost predicate Linked()
      reads this`head, this`tail, this`arena, this`order, this`Contents
    {
      && Chain(arena, order, Contents)
      && head == First(order)
      && tail == Last(order)
    }

    /** The whole invariant: `nodeMap` indexes the list by task id. */
    ghost predicate Valid()
      reads this
    {
      Linked() && IndexedBy(nodeMap, order, Contents)
    }

    /** A fresh manager has an empty history. */
    constructor ()
      ensures Valid() && Contents == []
    {
      nodeMap := map[];
      head, tail := None, None;
      arena := [];
      order, Contents := [], [];
    }

    /** add(task): a null task is ignored; otherwise the task ends up last, and an earlier view of its id is dropped. */
    method Add(task: Option<Item>)
      requires Valid()
      modifies this
      ensures Valid()
      ensures task.None? ==> Contents == old(Contents)
      ensures task.Some? ==> Contents == RemoveId(old(Contents), task.value.id) + [task.value]
    {
      if task.None? {
        return;
      }
      var t := task.value;
      if t.id in nodeMap {
        ghost var k := IndexOf(nodeMap, order, Contents, t.id);
        RemoveIdAt(Contents, k);
        IndexAfterUnlink(nodeMap, order, Contents, k);
        RemoveNode(nodeMap[t.id], k);
      } else {
        RemoveAbsentId(Contents, t.id);
        IndexedWithoutSpare(nodeMap, order, Contents, t.id);
      }
      ghost var m, rs, cs := nodeMap, order, Contents;
      LinkLast(t);
      IndexAfterLink(m, rs, cs, t, |arena| - 1);
    }

    /** remove(id): the entry with that id, if any, is taken out; the others keep their order. */
    method Remove(id: int)
      requires Valid()
      modifies this
      ensures Valid()
      ensures Contents == RemoveId(old(Contents), id)
    {
      var node := if id in nodeMap then Some(nodeMap[id]) else None;
      if node.Some? {
        ghost var k := IndexOf(nodeMap, order, Contents, id);
        RemoveIdAt(Contents, k);
        IndexAfterUnlink(nodeMap, order, Contents, k);
        RemoveNode(node.value, k);
        nodeMap := nodeMap - {id};
      } else {
        RemoveAbsentId(Contents, id);
      }
    }

    /** getHistory(): walks the list from head to tail. */
    method GetHistory() returns (history: seq<Item>)
      requires Valid()
      ensures history == Contents
    {
      history := [];
      var current := head;
      ghost var i := 0;
      while current.Some?
        invariant 0 <= i <= |order|
        invariant current == (if i < |order| then Some(order[i]) else None)
        invariant history == Contents[..i]
        decreases |order| - i
      {
        assert LinkedAt(arena, order, Contents, i);
        var node := arena[current.value];
        history := history + [node.data];
        current := node.next;
        i := i + 1;
      }
    }

    /** linkLast(task): a new node after the tail, registered in `nodeMap` under the task's id. */
    method LinkLast(task: Item)
      requires Linked() && !HasId(Contents, task.id)
      modifies this
      ensures Linked()
      ensures |arena| == |old(arena)| + 1
      ensures order == old(order) + [|arena| - 1] && Contents == old(Contents) + [task]
      ensures nodeMap == old(nodeMap)[task.id := |arena| - 1]
    {
      ghost var rs, cs, arena0 := order, Contents, arena;
      ChainRefsDistinct(arena, rs, cs);
      assert |rs| > 0 ==> LinkedAt(arena, rs, cs, |rs| - 1);
      var newNode := |arena|;
      arena := arena + [Node(tail, task, None)];
      if tail.Some? {
        arena := arena[tail.value := arena[tail.value].(next := Some(newNode))];
      } else {
        head := Some(newNode);
      }
      tail := Some(newNode);
      nodeMap := nodeMap[task.id := newNode];
      order := order + [newNode];
      Contents := Contents + [task];
      forall j | 0 <= j < |rs| ensures rs[j] < |arena0| && arena[rs[j]] == (if j == |rs| - 1 then arena0[rs[j]].(next := Some(newNode)) else arena0[rs[j]]) {
        assert LinkedAt(arena0, rs, cs, j);
        assert j < |rs| - 1 ==> LinkedAt(arena0, rs, cs, |rs| - 1) && rs[j] != rs[|rs| - 1];
      }
      ChainAppend(arena0, arena, rs, cs, task);
    }

    /**
     * removeNode(node): unlinks the node at position `k`, relinking its
     * neighbours (or head and tail) and clearing its own links. `nodeMap` is
     * left to the caller.
     */
    method RemoveNode(node: nat, ghost k: nat)
      requires Linked() && k < |order| && order[k] == node
      modifies this
      ensures Linked() && nodeMap == old(nodeMap) && |arena| == |old(arena)|
      ensures order == old(order[..k] + order[k + 1..])
      ensures Contents == old(Contents[..k] + Contents[k + 1..])
      ensures node < |arena| && arena[node].prev.None? && arena[node].next.None?
    {
      ghost var rs, cs, arena0 := order, Contents, arena;
      RelinkedFrame(arena0, rs, cs, k);
      var prev := arena[node].prev;
      var next := arena[node].next;
      assert k > 0 ==> LinkedAt(arena, rs, cs, k - 1);
      assert k + 1 < |rs| ==> LinkedAt(arena, rs, cs, k + 1);
      if prev.Some? {
        arena := arena[prev.value := arena[prev.value].(next := next)];
      } else {
        head := next;
      }
      if next.Some? {
        arena := arena[next.value := arena[next.value].(prev := prev)];
      } else {
        tail := prev;
      }
      arena := arena[node := arena[node].(prev := None, next := None)];
      order := rs[..k] + rs[k + 1..];
      Contents := cs[..k] + cs[k + 1..];
      assert arena == Relinked(arena0, node, prev, next);
      ChainUnlink(arena0, arena, rs, cs, k);
    }
  }

  /**
   * `rs` is a chain of references into `a` holding the tasks `cs`: at every
   * position the links are right (LinkedAt). Ids are distinct, hence so are
   * the references, and the chain is acyclic.
   */
  ghost predicate Chain(a: seq<Node>, rs: seq<nat>, cs: seq<Item>) {
    && |rs| == |cs|
    && (forall i | 0 <= i < |rs| :: LinkedAt(a, rs, cs, i))
    && DistinctIds(cs)
  }

  /**
   * Position `i` of the chain: its node holds `cs[i]`, its prev is the
   * reference before it (null for the first) and its next the reference after
   * it (null for the last).
   */
  ghost predicate LinkedAt(a: seq<Node>, rs: seq<nat>, cs: seq<Item>, i: nat) {
    && i < |rs| && i < |cs| && rs[i] < |a|
    && a[rs[i]].data == cs[i]
    && a[rs[i]].prev == (if i == 0 then None else Some(rs[i - 1]))
    && a[rs[i]].next == (if i == |rs| - 1 then None else Some(rs[i + 1]))
  }

  lemma ChainRefsDistinct(a: seq<Node>, rs: seq<nat>, cs: seq<Item>)
    requires Chain(a, rs, cs)
    ensures forall i, j | 0 <= i < j < |rs| :: rs[i] != rs[j]
  {
    forall i, j | 0 <= i < j < |rs| ensures rs[i] != rs[j] {
      assert LinkedAt(a, rs, cs, i) && LinkedAt(a, rs, cs, j);
      assert cs[i].id != cs[j].id;
    }
  }

  /** linkLast's effect on the arena: a new last node, and the old tail's next pointing to it. */
  lemma ChainAppend(a0: seq<Node>, a: seq<Node>, rs: seq<nat>, cs: seq<Item>, x: Item)
    requires Chain(a0, rs, cs) && !HasId(cs, x.id)
    requires |a| == |a0| + 1
    requires a[|a0|] == Node(if |rs| == 0 then None else Some(rs[|rs| - 1]), x, None)
    requires forall j | 0 <= j < |rs| - 1 :: rs[j] < |a0| && a[rs[j]] == a0[rs[j]]
    requires |rs| > 0 ==> rs[|rs| - 1] < |a0| && a[rs[|rs| - 1]] == a0[rs[|rs| - 1]].(next := Some(|a0|))
    ensures Chain(a, rs + [|a0|], cs + [x])
  {
    DistinctAppend(cs, x);
    var rs', cs' := rs + [|a0|], cs + [x];
    forall i | 0 <= i < |rs'| ensures LinkedAt(a, rs', cs', i) {
      if i < |rs| {
        assert LinkedAt(a0, rs, cs, i);
        if i > 0 { assert rs'[i - 1] == rs[i - 1]; }
        if i < |rs| - 1 { assert rs'[i + 1] == rs[i + 1]; }
      }
    }
  }

  /** The first reference of a chain, null when it is empty: what `head` holds. */
  function First(rs: seq<nat>): Option<nat> {
    if |rs| == 0 then None else Some(rs[0])
  }

  /** The last reference, null when empty: what `tail` holds. */
  function Last(rs: seq<nat>): Option<nat> {
    if |rs| == 0 then None else Some(rs[|rs| - 1])
  }

  /** The arena after removeNode: the neighbours bypass `node`, whose own links are cleared. */
  function Relinked(a: seq<Node>, node: nat, prev: Option<nat>, next: Option<nat>): (r: seq<Node>)
    requires node < |a| && (prev.Some? ==> prev.value < |a|) && (next.Some? ==> next.value < |a|)
    ensures |r| == |a| && r[node].prev.None? && r[node].next.None?
  {
    var a1 := if prev.Some? then a[prev.value := a[prev.value].(next := next)] else a;
    var a2 := if next.Some? then a1[next.value := a1[next.value].(prev := prev)] else a1;
    a2[node := a2[node].(prev := None, next := None)]
  }

  /** Relinking around position `k` changes only the neighbours of `k` among the other positions. */
  lemma RelinkedFrame(a0: seq<Node>, rs: seq<nat>, cs: seq<Item>, k: nat)
    requires Chain(a0, rs, cs) && k < |rs|
    ensures LinkedAt(a0, rs, cs, k)
    ensures var n := a0[rs[k]];
      && (n.prev.Some? ==> n.prev.value < |a0|) && (n.next.Some? ==> n.next.value < |a0|)
      && var a := Relinked(a0, rs[k], n.prev, n.next);
      forall j | 0 <= j < |rs| && j != k ::
        rs[j] < |a0| &&
        a[rs[j]] == (if j == k - 1 then a0[rs[j]].(next := n.next)
                     else if j == k + 1 then a0[rs[j]].(prev := n.prev)
                     else a0[rs[j]])
  {
    ChainRefsDistinct(a0, rs, cs);
    assert LinkedAt(a0, rs, cs, k);
    assert k > 0 ==> LinkedAt(a0, rs, cs, k - 1);
    assert k + 1 < |rs| ==> LinkedAt(a0, rs, cs, k + 1);
    var n := a0[rs[k]];
    var a := Relinked(a0, rs[k], n.prev, n.next);
    forall j | 0 <= j < |rs| && j != k
      ensures rs[j] < |a0| && a[rs[j]] == (if j == k - 1 then a0[rs[j]].(next := n.next)
                                           else if j == k + 1 then a0[rs[j]].(prev := n.prev)
                                           else a0[rs[j]])
    {
      assert LinkedAt(a0, rs, cs, j);
      assert rs[j] != rs[k];
      assert k > 0 && j != k - 1 ==> rs[j] != rs[k - 1];
      assert k + 1 < |rs| && j != k + 1 ==> rs[j] != rs[k + 1];
    }
  }

  /** removeNode's effect on the arena: the neighbours of position `k` are linked to each other. */
  lemma ChainUnlink(a0: seq<Node>, a: seq<Node>, rs: seq<nat>, cs: seq<Item>, k: nat)
    requires Chain(a0, rs, cs) && k < |rs|
    requires |a| == |a0|
    requires forall j | 0 <= j < |rs| && j != k ::
      rs[j] < |a0| && rs[k] < |a0| &&
      a[rs[j]] == (if j == k - 1 then a0[rs[j]].(next := a0[rs[k]].next)
                   else if j == k + 1 then a0[rs[j]].(prev := a0[rs[k]].prev)
                   else a0[rs[j]])
    ensures Chain(a, rs[..k] + rs[k + 1..], cs[..k] + cs[k + 1..])
    ensures LinkedAt(a0, rs, cs, k)
    ensures First(rs[..k] + rs[k + 1..]) == if k == 0 then a0[rs[k]].next else First(rs)
    ensures Last(rs[..k] + rs[k + 1..]) == if k == |rs| - 1 then a0[rs[k]].prev else Last(rs)
  {
    DistinctRemoveAt(cs, k);
    var rs', cs' := rs[..k] + rs[k + 1..], cs[..k] + cs[k + 1..];
    assert LinkedAt(a0, rs, cs, k);
    forall i | 0 <= i < |rs'| ensures LinkedAt(a, rs', cs', i) {
      var j := if i < k then i else i + 1;
      assert rs'[i] == rs[j] && cs'[i] == cs[j];
      assert LinkedAt(a0, rs, cs, j);
      if i > 0 {
        assert rs'[i - 1] == rs[if i - 1 < k then i - 1 else i];
      }
      if i < |rs'| - 1 {
        assert rs'[i + 1] == rs[if i + 1 < k then i + 1 else i + 2];
      }
    }
  }

  /** `m` maps every id of `cs` to the reference at the same position, and has no other keys. */
  ghost predicate IndexedBy(m: map<int, nat>, rs: seq<nat>, cs: seq<Item>) {
    && |rs| == |cs|
    && (forall i | 0 <= i < |cs| :: cs[i].id in m && m[cs[i].id] == rs[i])
    && (forall id | id in m :: HasId(cs, id))
  }

  /** As IndexedBy, except that `m` may still hold the key `spare`, which `cs` lacks. */
  ghost predicate IndexedExcept(m: map<int, nat>, rs: seq<nat>, cs: seq<Item>, spare: int) {
    && |rs| == |cs|
    && !HasId(cs, spare)
    && (forall i | 0 <= i < |cs| :: cs[i].id in m && m[cs[i].id] == rs[i])
    && (forall id | id in m && id != spare :: HasId(cs, id))
  }

  /** A key of the index is the id of some position of the list. */
  lemma IndexOf(m: map<int, nat>, rs: seq<nat>, cs: seq<Item>, id: int) returns (k: nat)
    requires IndexedBy(m, rs, cs) && id in m
    ensures k < |cs| && cs[k].id == id && m[id] == rs[k]
  {
    assert HasId(cs, id);
    k :| 0 <= k < |cs| && cs[k].id == id;
  }

  /** Unlinking position `k` leaves an index whose only stale key is the removed id. */
  lemma IndexAfterUnlink(m: map<int, nat>, rs: seq<nat>, cs: seq<Item>, k: nat)
    requires IndexedBy(m, rs, cs) && DistinctIds(cs) && k < |cs|
    ensures IndexedExcept(m, rs[..k] + rs[k + 1..], cs[..k] + cs[k + 1..], cs[k].id)
    ensures IndexedBy(m - {cs[k].id}, rs[..k] + rs[k + 1..], cs[..k] + cs[k + 1..])
  {
    var rs', cs' := rs[..k] + rs[k + 1..], cs[..k] + cs[k + 1..];
    forall i | 0 <= i < |cs'| ensures cs'[i] == cs[if i < k then i else i + 1] && rs'[i] == rs[if i < k then i else i + 1] { }
    forall id ensures HasId(cs', id) <==> HasId(cs, id) && id != cs[k].id {
      HasIdRemoveAt(cs, k, id);
    }
  }

  /** Linking reference `r` for a fresh id `x.id` completes the index. */
  lemma IndexAfterLink(m: map<int, nat>, rs: seq<nat>, cs: seq<Item>, x: Item, r: nat)
    requires IndexedExcept(m, rs, cs, x.id)
    ensures IndexedBy(m[x.id := r], rs + [r], cs + [x])
  {
    forall id ensures HasId(cs + [x], id) <==> HasId(cs, id) || id == x.id {
      HasIdAppend(cs, x, id);
    }
    forall i | 0 <= i < |cs| ensures cs[i].id != x.id {
      assert cs[i].id == x.id ==> HasId(cs, x.id);
    }
  }

  /** An id the index lacks is not stale. */
  lemma IndexedWithoutSpare(m: map<int, nat>, rs: seq<nat>, cs: seq<Item>, id: int)
    requires IndexedBy(m, rs, cs) && id !in m
    ensures IndexedExcept(m, rs, cs, id)
  {
    forall i | 0 <= i < |cs| ensures cs[i].id != id {
      assert cs[i].id in m;
    }
  }

  /** After viewing `t`, it is the last entry, its id occurs once, and the other entries are as before. */
  lemma {:induction false} ViewMovesToEnd(s: seq<Item>, t: Item)
    requires DistinctIds(s)
    ensures var r := RemoveId(s, t.id) + [t];
      && r[|r| - 1] == t
      && DistinctIds(r)
      && (forall i | 0 <= i < |r| - 1 :: r[i].id != t.id)
      && RemoveId(r, t.id) == RemoveId(s, t.id)
  {
    var w := RemoveId(s, t.id);
    var r := w + [t];
    WhereDistinct(s, (x: Item) => x.id != t.id);
    RemoveIdMembers(s, t.id);
    forall i | 0 <= i < |w| ensures w[i].id != t.id {
      assert w[i] in w;
    }
    RemoveAbsentId(w, t.id);
    assert RemoveId(r, t.id) == RemoveId(w, t.id) + RemoveId([t], t.id) by {
      WhereAppend(w, [t], (x: Item) => x.id != t.id);
    }
    assert RemoveId([t], t.id) == [];
  }
}
