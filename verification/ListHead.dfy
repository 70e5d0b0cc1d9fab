/** Circular doubly linked lists with a head node (libvdf/list.h). */
module ListHead {

  class Node {
    var next: Node?
    var prev: Node?

    /** `INIT_LIST_HEAD`. */
    constructor ()
      ensures Ring(this, [])
    {
      new;
      next, prev := this, this;
    }
  }

  /** Once around the ring, from the head back to the head. */
  ghost function Round(head: Node, items: seq<Node>): (c: seq<Node>)
    ensures |c| == |items| + 2
  {
    [head] + items + [head]
  }

  ghost predicate Linked(c: seq<Node>, i: int)
    requires 0 <= i < |c| - 1
    reads c
  {
    c[i].next == c[i + 1] && c[i + 1].prev == c[i]
  }

  ghost predicate Distinct(items: seq<Node>) {
    forall i, j {:trigger items[i], items[j]} :: 0 <= i < j < |items| ==> items[i] != items[j]
  }

  /** `items` are the members of the list at `head`, in order; both directions of links agree. */
  ghost predicate Ring(head: Node, items: seq<Node>)
    reads Round(head, items)
  {
    var c := Round(head, items);
    && head !in items && Distinct(items)
    && forall i {:trigger Linked(c, i)} :: 0 <= i < |c| - 1 ==> Linked(c, i)
  }

  /** The neighbours of position `k`, and where nodes of a round can coincide. */
  lemma RoundDistinct(head: Node, items: seq<Node>, i: int, j: int)
    requires head !in items && Distinct(items)
    requires 0 <= i < j < |items| + 2 && !(i == 0 && j == |items| + 1)
    ensures Round(head, items)[i] != Round(head, items)[j]
  {
    var c := Round(head, items);
    assert 0 < i <= |items| ==> c[i] == items[i - 1];
    assert 0 < j <= |items| ==> c[j] == items[j - 1];
  }

  function Insert(items: seq<Node>, k: nat, item: Node): seq<Node>
    requires k <= |items|
  {
    items[..k] + [item] + items[k..]
  }

  function Remove(items: seq<Node>, k: nat): seq<Node>
    requires k < |items|
  {
    items[..k] + items[k + 1..]
  }

  /** `_list_add`: a new item between two neighbours. */
  method AddBetween(item: Node, before: Node, after: Node, ghost head: Node, ghost items: seq<Node>, ghost k: nat)
    requires Ring(head, items) && item !in items && item != head && k <= |items|
    requires before == Round(head, items)[k] && after == Round(head, items)[k + 1]
    modifies item, before, after
    ensures Ring(head, Insert(items, k, item))
  {
    ghost var c, d := Round(head, items), Round(head, Insert(items, k, item));
    assert Linked(c, k);
    assert forall i :: 0 <= i <= k ==> d[i] == c[i];
    assert d[k + 1] == item;
    assert forall i :: k + 1 < i < |d| ==> d[i] == c[i - 1];
    after.prev := item;
    item.next := after;
    item.prev := before;
    before.next := item;
    forall i {:trigger Linked(d, i)} | 0 <= i < |d| - 1
      ensures Linked(d, i)
    {
      if i < k {
        RoundDistinct(head, items, i, k);
        RoundDistinct(head, items, i + 1, k + 1);
        assert old(Linked(c, i));
      } else if i > k + 1 {
        RoundDistinct(head, items, k, i - 1);
        RoundDistinct(head, items, k + 1, i);
        assert old(Linked(c, i - 1));
      }
    }
  }

  /** `list_add`: the item becomes the first. */
  method ListAdd(item: Node, head: Node, ghost items: seq<Node>)
    requires Ring(head, items) && item !in items && item != head
    modifies item, head, head.next
    ensures Ring(head, [item] + items)
  {
    assert Linked(Round(head, items), 0);
    AddBetween(item, head, head.next, head, items, 0);
    assert Insert(items, 0, item) == [item] + items;
  }

  /** `list_add_tail`: the item becomes the last. */
  method ListAddTail(item: Node, head: Node, ghost items: seq<Node>)
    requires Ring(head, items) && item !in items && item != head
    modifies item, head, head.prev
    ensures Ring(head, items + [item])
  {
    assert Linked(Round(head, items), |items|);
    AddBetween(item, head.prev, head, head, items, |items|);
    assert Insert(items, |items|, item) == items + [item];
  }

  /** `_list_del`: two neighbours of an item are joined. */
  method Join(before: Node, after: Node, ghost head: Node, ghost items: seq<Node>, ghost k: nat)
    requires Ring(head, items) && k < |items|
    requires before == Round(head, items)[k] && after == Round(head, items)[k + 2]
    modifies before, after
    ensures Ring(head, Remove(items, k))
    ensures items[k] != before && items[k] != after
  {
    ghost var c, d := Round(head, items), Round(head, Remove(items, k));
    assert forall i :: 0 <= i <= k ==> d[i] == c[i];
    assert forall i :: k < i < |d| ==> d[i] == c[i + 1];
    RoundDistinct(head, items, k, k + 1);
    RoundDistinct(head, items, k + 1, k + 2);
    after.prev := before;
    before.next := after;
    forall i {:trigger Linked(d, i)} | 0 <= i < |d| - 1
      ensures Linked(d, i)
    {
      if i < k {
        RoundDistinct(head, items, i, k);
        RoundDistinct(head, items, i + 1, k + 2);
        assert old(Linked(c, i));
      } else if i > k {
        RoundDistinct(head, items, k, i + 1);
        RoundDistinct(head, items, k + 2, i + 2);
        assert old(Linked(c, i + 1));
      }
    }
  }

  /** `list_del`: the item leaves the list, the others keep their order. */
  method ListDel(item: Node, ghost head: Node, ghost items: seq<Node>, ghost k: nat)
    requires Ring(head, items) && k < |items| && items[k] == item
    modifies item, item.prev, item.next
    ensures Ring(head, Remove(items, k))
    ensures item.next == null && item.prev == null
  {
    ghost var c := Round(head, items);
    assert c[k + 1] == item;
    assert Linked(c, k);
    assert Linked(c, k + 1);
    Join(item.prev, item.next, head, items, k);
    ghost var d := Round(head, Remove(items, k));
    assert item !in d by {
      NotInRemoved(head, items, k);
    }
    RingOf(head, Remove(items, k));
    item.next, item.prev := null, null;
    forall i {:trigger Linked(d, i)} | 0 <= i < |d| - 1
      ensures Linked(d, i)
    {
      assert d[i] != item && d[i + 1] != item;
    }
  }

  lemma NotInRemoved(head: Node, items: seq<Node>, k: nat)
    requires head !in items && Distinct(items) && k < |items|
    ensures items[k] !in Round(head, Remove(items, k))
  {
  }

  lemma RingOf(head: Node, items: seq<Node>)
    requires Ring(head, items)
    ensures forall i {:trigger Linked(Round(head, items), i)} :: 0 <= i <= |items| ==> Linked(Round(head, items), i)
  {
  }

  /** `list_empty`. */
  method ListEmpty(head: Node, ghost items: seq<Node>) returns (r: bool)
    requires Ring(head, items)
    ensures r == (items == [])
  {
    assert Linked(Round(head, items), 0);
    r := head.next == head;
  }

  /** `list_empty_careful`. */
  method ListEmptyCareful(head: Node, ghost items: seq<Node>) returns (r: bool)
    requires Ring(head, items)
    ensures r == (items == [])
  {
    assert Linked(Round(head, items), 0);
    assert Linked(Round(head, items), |items|);
    var next := head.next;
    r := next == head && next == head.prev;
  }

  function Reversed(items: seq<Node>): (r: seq<Node>)
    ensures |r| == |items|
  {
    seq(|items|, i requires 0 <= i < |items| => items[|items| - 1 - i])
  }

  /** `list_foreach`. */
  method Forward(head: Node, ghost items: seq<Node>) returns (visited: seq<Node>)
    requires Ring(head, items)
    ensures visited == items
  {
    ghost var c := Round(head, items);
    assert Linked(c, 0);
    visited := [];
    var pos := head.next;
    while pos != head
      invariant |visited| <= |items| && visited == items[..|visited|] && pos == c[|visited| + 1]
      decreases |items| - |visited|
    {
      assert Linked(c, |visited| + 1);
      visited := visited + [pos];
      pos := pos.next;
    }
    assert |visited| == |items|;
  }

  /** `list_foreach_rev`: the same items in the opposite order. */
  method Backward(head: Node, ghost items: seq<Node>) returns (visited: seq<Node>)
    requires Ring(head, items)
    ensures visited == Reversed(items)
  {
    ghost var c := Round(head, items);
    assert Linked(c, |items|);
    visited := [];
    var pos := head.prev;
    while pos != head
      invariant |visited| <= |items| && visited == Reversed(items)[..|visited|] && pos == c[|items| - |visited|]
      decreases |items| - |visited|
    {
      assert Linked(c, |items| - |visited| - 1);
      visited := visited + [pos];
      pos := pos.prev;
    }
    assert |visited| == |items|;
  }

  /** The items outside `drop`, in order. */
  ghost function Kept(items: seq<Node>, drop: set<Node>, k: nat): seq<Node>
    requires k <= |items|
  {
    if k == 0 then [] else Kept(items, drop, k - 1) + if items[k - 1] in drop then [] else [items[k - 1]]
  }

  /** The node at which `rest`, the last part of a list, begins. */
  ghost function Front(head: Node, rest: seq<Node>): Node {
    if rest == [] then head else rest[0]
  }

  lemma NextOf(head: Node, kept: seq<Node>, rest: seq<Node>)
    requires Ring(head, kept + rest)
    ensures Front(head, rest).next != null
    ensures rest != [] ==> Front(head, rest).next == Front(head, rest[1..])
    ensures kept == [] ==> head.next == Front(head, rest)
  {
    var c := Round(head, kept + rest);
    assert c[|kept| + 1] == Front(head, rest);
    assert Linked(c, 0);
    assert Linked(c, |kept|);
    if rest != [] {
      assert Linked(c, |kept| + 1);
      assert c[|kept| + 2] == Front(head, rest[1..]);
    }
  }

  /** The loop of `list_foreach_safe` stands before `rest`, having kept `kept`. */
  ghost predicate Midway(head: Node, drop: set<Node>, items: seq<Node>, visited: seq<Node>, kept: seq<Node>,
                         rest: seq<Node>) {
    && visited + rest == items
    && kept == Kept(items, drop, |visited|)
  }

  lemma MidwayStep(head: Node, drop: set<Node>, items: seq<Node>, visited: seq<Node>, kept: seq<Node>, rest: seq<Node>)
    requires Midway(head, drop, items, visited, kept, rest) && rest != []
    ensures Midway(head, drop, items, visited + [rest[0]],
                   kept + (if rest[0] in drop then [] else [rest[0]]), rest[1..])
  {
    assert items[|visited|] == rest[0];
  }

  /** `list_foreach_safe` with a body that deletes the current item if it is in `drop`: every item is
      visited once, in order, and exactly the others remain. */
  method ForeachSafe(head: Node, drop: set<Node>, ghost items: seq<Node>,
                     ghost space: set<Node>) returns (visited: seq<Node>)
    requires Ring(head, items) && head in space && Within(items, space)
    modifies space
    ensures visited == items
    ensures Ring(head, Kept(items, drop, |items|))
  {
    ghost var kept, rest := [], items;
    visited := [];
    assert [] + items == items;
    NextOf(head, [], items);
    var pos := head.next;
    var n := pos.next;
    while pos != head
      invariant Midway(head, drop, items, visited, kept, rest)
      invariant Within(kept + rest, space) && Ring(head, kept + rest)
      invariant pos == Front(head, rest) && (rest != [] ==> n == Front(head, rest[1..]))
      decreases |rest|
    {
      MidwayStep(head, drop, items, visited, kept, rest);
      kept := VisitOne(pos, head, drop, kept, rest, space);
      visited := visited + [pos];
      rest := rest[1..];
      NextOf(head, kept, rest);
      pos := n;
      n := pos.next;
    }
    assert rest == [];
    assert kept + [] == kept && visited + [] == visited;
  }

  ghost predicate Within(part: seq<Node>, space: set<Node>) {
    forall x :: x in part ==> x in space
  }

  /** The body of the loop. */
  method VisitOne(pos: Node, ghost head: Node, drop: set<Node>, ghost kept: seq<Node>, ghost rest: seq<Node>,
                  ghost space: set<Node>)
    returns (ghost kept': seq<Node>)
    requires Ring(head, kept + rest) && rest != [] && rest[0] == pos && head in space && Within(kept + rest, space)
    modifies space
    ensures kept' == kept + if pos in drop then [] else [pos]
    ensures Within(kept' + rest[1..], space) && Ring(head, kept' + rest[1..])
  {
    if pos in drop {
      kept' := kept;
      DeleteCurrent(pos, head, kept, rest, space);
    } else {
      kept' := kept + [pos];
      assert kept + rest == kept' + rest[1..];
    }
  }

  method DeleteCurrent(pos: Node, ghost head: Node, ghost kept: seq<Node>, ghost rest: seq<Node>,
                       ghost space: set<Node>)
    requires Ring(head, kept + rest) && rest != [] && rest[0] == pos && head in space && Within(kept + rest, space)
    modifies space
    ensures Ring(head, kept + rest[1..])
  {
    ghost var all := kept + rest;
    ghost var c := Round(head, all);
    assert forall i :: 0 <= i < |c| ==> c[i] in space;
    assert c[|kept| + 1] == pos;
    assert Linked(c, |kept|);
    assert Linked(c, |kept| + 1);
    ListDel(pos, head, all, |kept|);
    assert Remove(all, |kept|) == kept + rest[1..];
  }

  // ---------------------------------------------------------------- any sequence of operations

  datatype Op = Add(item: Node) | AddTail(item: Node) | Del(item: Node)

  /** Adding needs a node outside the list, deleting one inside it. */
  ghost predicate OpOk(head: Node, items: seq<Node>, op: Op) {
    match op
    case Add(x) => x !in items && x != head
    case AddTail(x) => x !in items && x != head
    case Del(x) => x in items
  }

  /** What an operation means for the abstract sequence. */
  ghost function Effect(items: seq<Node>, op: Op): seq<Node> {
    match op
    case Add(x) => [x] + items
    case AddTail(x) => items + [x]
    case Del(x) => if x in items then Remove(items, IndexOf(items, x)) else items
  }

  ghost function IndexOf(items: seq<Node>, x: Node): (k: nat)
    requires x in items
    ensures k < |items| && items[k] == x
  {
    var k :| 0 <= k < |items| && items[k] == x;
    k
  }

  ghost function Effects(items: seq<Node>, ops: seq<Op>, k: nat): seq<Node>
    requires k <= |ops|
  {
    if k == 0 then items else Effect(Effects(items, ops, k - 1), ops[k - 1])
  }

  ghost predicate OpsOk(head: Node, items: seq<Node>, ops: seq<Op>) {
    forall i {:trigger OpAt(head, items, ops, i)} :: 0 <= i < |ops| ==> OpAt(head, items, ops, i)
  }

  ghost predicate OpAt(head: Node, items: seq<Node>, ops: seq<Op>, i: int)
    requires 0 <= i < |ops|
  {
    OpOk(head, Effects(items, ops, i), ops[i])
  }

  method RunOp(head: Node, op: Op, ghost items: seq<Node>, ghost space: set<Node>)
    requires Ring(head, items) && OpOk(head, items, op) && head in space && op.item in space && Within(items, space)
    modifies space
    ensures Ring(head, Effect(items, op))
    ensures Within(Effect(items, op), space)
  {
    ghost var c := Round(head, items);
    assert forall i :: 0 <= i < |c| ==> c[i] in space;
    assert Linked(c, 0);
    assert Linked(c, |items|);
    match op {
      case Add(x) => ListAdd(x, head, items);
      case AddTail(x) => ListAddTail(x, head, items);
      case Del(x) =>
        ghost var k := IndexOf(items, x);
        assert c[k + 1] == x;
        assert Linked(c, k);
        assert Linked(c, k + 1);
        ListDel(x, head, items, k);
    }
  }

  /** From an initialised head, any sequence of operations keeps the ring and performs the same prepends,
      appends and removals on the abstract sequence. */
  method RunOps(head: Node, ops: seq<Op>, ghost items: seq<Node>, ghost space: set<Node>)
    requires Ring(head, items) && OpsOk(head, items, ops)
    requires head in space && Within(items, space) && forall i :: 0 <= i < |ops| ==> ops[i].item in space
    modifies space
    ensures Ring(head, Effects(items, ops, |ops|))
  {
    var k := 0;
    ghost var now := items;
    while k < |ops|
      invariant 0 <= k <= |ops| && now == Effects(items, ops, k) && Ring(head, now) && Within(now, space)
    {
      assert OpAt(head, items, ops, k);
      RunOp(head, ops[k], now, space);
      now := Effect(now, ops[k]);
      k := k + 1;
    }
  }
}
