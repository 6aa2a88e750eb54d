/** The intrusive circular doubly linked list of doubly_list.h. A list is its head node
    followed by its entries; the pointers close into a ring. */
module CircularList {

  class Node {
    var next: Node
    var prev: Node

    /** INIT_LIST_HEAD of a new node */
    constructor ()
      ensures next == this && prev == this
    {
      next, prev := this, this;
    }
  }

  ghost predicate Link(a: Node, b: Node)
    reads a, b
  {
    a.next == b && b.prev == a
  }

  ghost predicate Distinct(r: seq<Node>) {
    forall i, j | 0 <= i < j < |r| :: r[i] != r[j]
  }

  /** The successor of position `i` on a ring. */
  function Succ(r: seq<Node>, i: nat): Node
    requires i < |r|
  {
    if i + 1 < |r| then r[i + 1] else r[0]
  }

  /** `next` and `prev` run around `r` in opposite directions. */
  ghost predicate Ring(r: seq<Node>)
    reads r
  {
    r != [] && Distinct(r) && forall i | 0 <= i < |r| :: Link(r[i], Succ(r, i))
  }

  lemma SuccInjective(r: seq<Node>, i: nat, j: nat)
    requires Distinct(r) && i < |r| && j < |r| && i != j
    ensures Succ(r, i) != Succ(r, j)
  {
  }

  function Inserted(r: seq<Node>, k: nat, x: Node): seq<Node>
    requires k < |r|
  {
    r[..k + 1] + [x] + r[k + 1..]
  }

  function Removed(r: seq<Node>, k: nat): seq<Node>
    requires k < |r|
  {
    r[..k] + r[k + 1..]
  }

  /** Successors around an insertion are the old ones but for the two new pairs. */
  lemma InsertedPairs(r: seq<Node>, k: nat, x: Node, i: nat)
    requires k < |r| && i <= |r|
    ensures var r' := Inserted(r, k, x);
            && r'[i] == (if i <= k then r[i] else if i == k + 1 then x else r[i - 1])
            && Succ(r', i) == (if i == k then x else if i < k then Succ(r, i) else Succ(r, i - 1))
  {
  }

  lemma InsertedDistinct(r: seq<Node>, k: nat, x: Node)
    requires k < |r| && Distinct(r) && x !in r
    ensures Distinct(Inserted(r, k, x))
  {
  }

  /** Successors around a removal are the old ones but for the pair that closes the gap. */
  lemma RemovedPairs(r: seq<Node>, k: nat, i: nat)
    requires 0 < k < |r| && i < |r| - 1
    ensures var r' := Removed(r, k);
            && r'[i] == (if i < k then r[i] else r[i + 1])
            && Succ(r', i) == (if i == k - 1 then Succ(r, k) else if i < k then Succ(r, i) else Succ(r, i + 1))
  {
  }

  lemma RemovedDistinct(r: seq<Node>, k: nat)
    requires k < |r| && Distinct(r)
    ensures Distinct(Removed(r, k)) && r[k] !in Removed(r, k)
  {
  }

  /** The list at `head` holds `elems`. */
  ghost predicate List(head: Node, elems: seq<Node>)
    reads head, elems
  {
    Ring([head] + elems)
  }

  /** __list_add, between position `k` of a ring and its successor */
  method Insert(node: Node, prev: Node, next: Node, ghost r: seq<Node>, ghost k: nat)
    requires Ring(r) && k < |r| && prev == r[k] && next == Succ(r, k) && node !in r
    modifies node, prev`next, next`prev
    ensures Ring(Inserted(r, k, node))
  {
    hide Succ, Inserted, Distinct;
    label before:
    next.prev := node;
    node.next := next;
    node.prev := prev;
    prev.next := node;
    ghost var r' := Inserted(r, k, node);
    InsertedDistinct(r, k, node);
    InsertedSize(r, k, node);
    forall i | 0 <= i < |r'| ensures Link(r'[i], Succ(r', i)) {
      InsertedPairs(r, k, node, i);
      OnRing(r, k);
      if i != k && i != k + 1 {
        var j := if i < k then i else i - 1;
        SuccInjective(r, j, k);
        OnRing(r, j);
        ApartOnRing(r, j, k);
        assert old@before(Link(r[j], Succ(r, j)));
      }
    }
  }

  lemma InsertedSize(r: seq<Node>, k: nat, x: Node)
    requires k < |r|
    ensures |Inserted(r, k, x)| == |r| + 1
  {
  }

  lemma OnRing(r: seq<Node>, i: nat)
    requires i < |r|
    ensures Succ(r, i) in r
  {
  }

  lemma ApartOnRing(r: seq<Node>, i: nat, j: nat)
    requires Distinct(r) && i < |r| && j < |r| && i != j
    ensures r[i] != r[j]
  {
  }

  /** __list_del, of position `k` of a ring */
  method Unlink(prev: Node, next: Node, ghost r: seq<Node>, ghost k: nat)
    requires Ring(r) && 0 < k < |r| && prev == r[k - 1] && next == Succ(r, k)
    modifies prev`next, next`prev
    ensures Ring(Removed(r, k))
    ensures r[k].next == old(r[k].next) && r[k].prev == old(r[k].prev)
  {
    hide Succ, Removed, Distinct;
    label before:
    next.prev := prev;
    prev.next := next;
    ghost var r' := Removed(r, k);
    RemovedDistinct(r, k);
    RemovedSize(r, k);
    forall i | 0 <= i < |r'| ensures Link(r'[i], Succ(r', i)) {
      RemovedPairs(r, k, i);
      if i != k - 1 {
        var j := if i < k then i else i + 1;
        SuccInjective(r, j, k);
        ApartOnRing(r, j, k - 1);
        assert old@before(Link(r[j], Succ(r, j)));
      }
    }
    ApartOnRing(r, k, k - 1);
    Isolated(r, k);
  }

  lemma RemovedSize(r: seq<Node>, k: nat)
    requires k < |r|
    ensures |Removed(r, k)| == |r| - 1
  {
  }

  lemma Isolated(r: seq<Node>, k: nat)
    requires Distinct(r) && 0 < k < |r|
    ensures Succ(r, k) != r[k]
  {
  }

  /** list_add_head */
  method AddHead(node: Node, head: Node, ghost elems: seq<Node>)
    requires List(head, elems) && node != head && node !in elems
    modifies node, head`next, head.next`prev
    ensures List(head, [node] + elems)
  {
    ghost var r := [head] + elems;
    assert Link(r[0], Succ(r, 0));
    Insert(node, head, head.next, r, 0);
    assert Inserted(r, 0, node) == [head] + ([node] + elems);
  }

  /** list_add_tail */
  method AddTail(node: Node, head: Node, ghost elems: seq<Node>)
    requires List(head, elems) && node != head && node !in elems
    modifies node, head`prev, head.prev`next
    ensures List(head, elems + [node])
  {
    ghost var r := [head] + elems;
    assert Link(r[|elems|], Succ(r, |elems|));
    Insert(node, head.prev, head, r, |elems|);
    assert Inserted(r, |elems|, node) == [head] + (elems + [node]);
  }

  /** list_del: the entry keeps its own, now stale, pointers. */
  method Del(entry: Node, ghost head: Node, ghost elems: seq<Node>, ghost k: nat)
    requires List(head, elems) && k < |elems| && entry == elems[k]
    modifies entry.prev`next, entry.next`prev
    ensures List(head, Removed(elems, k))
    ensures entry.next == old(entry.next) && entry.prev == old(entry.prev)
  {
    ghost var r := [head] + elems;
    assert Link(r[k], Succ(r, k)) && Link(r[k + 1], Succ(r, k + 1));
    Unlink(entry.prev, entry.next, r, k + 1);
    assert Removed(r, k + 1) == [head] + Removed(elems, k);
  }

  /** INIT_LIST_HEAD */
  method InitHead(node: Node)
    modifies node
    ensures List(node, [])
  {
    node.next, node.prev := node, node;
  }

  /** list_del_init */
  method DelInit(entry: Node, ghost head: Node, ghost elems: seq<Node>, ghost k: nat)
    requires List(head, elems) && k < |elems| && entry == elems[k]
    modifies entry, entry.prev`next, entry.next`prev
    ensures List(head, Removed(elems, k)) && List(entry, [])
  {
    EntryApart(head, elems, k);
    Del(entry, head, elems, k);
    InitHead(entry);
  }

  /** A removed entry is on what remains of its list no more. */
  lemma EntryApart(head: Node, elems: seq<Node>, k: nat)
    requires List(head, elems) && k < |elems|
    ensures elems[k] != head && elems[k] !in Removed(elems, k)
  {
    var r := [head] + elems;
    RemovedDistinct(r, k + 1);
    assert Removed(r, k + 1) == [head] + Removed(elems, k);
    assert r[0] == head && r[k + 1] == elems[k];
  }

  ghost predicate Disjoint(p: seq<Node>, q: seq<Node>) {
    forall i, j | 0 <= i < |p| && 0 <= j < |q| :: p[i] != q[j]
  }

  lemma NoneShared(from: Node, a: seq<Node>, k: nat, head: Node, b: seq<Node>)
    requires Disjoint([from] + a, [head] + b) && k < |a|
    ensures forall x | x in [from] + a :: x != head && x !in b
    ensures forall x | x in [head] + b :: x != from && x !in Removed(a, k)
  {
    var p, q := [from] + a, [head] + b;
    forall x | x in p ensures x !in q {
    }
    assert head in q && from in p;
    assert forall x | x in b :: x in q;
    assert forall x | x in Removed(a, k) :: x in a;
    assert forall x | x in a :: x in p;
  }

  /** The neighbours a deletion writes to. */
  lemma Neighbours(head: Node, elems: seq<Node>, k: nat)
    requires List(head, elems) && k < |elems|
    ensures elems[k].prev in [head] + elems && elems[k].next in [head] + elems
  {
    var r := [head] + elems;
    assert Link(r[k], Succ(r, k)) && Link(r[k + 1], Succ(r, k + 1));
    OnRing(r, k + 1);
    assert r[k] in r;
  }

  /** The neighbours an insertion at the head or the tail writes to. */
  lemma Ends(head: Node, elems: seq<Node>)
    requires List(head, elems)
    ensures head.next in [head] + elems && head.prev in [head] + elems
  {
    var r := [head] + elems;
    assert Link(r[0], Succ(r, 0)) && Link(r[|elems|], Succ(r, |elems|));
    OnRing(r, 0);
    assert r[|elems|] in r;
  }

  /** list_move to the head of another list */
  method Move(entry: Node, ghost from: Node, ghost a: seq<Node>, ghost k: nat, head: Node, ghost b: seq<Node>)
    requires List(from, a) && List(head, b) && k < |a| && entry == a[k]
    requires Disjoint([from] + a, [head] + b)
    modifies entry, entry.prev`next, entry.next`prev, head`next, head.next`prev
    ensures List(from, Removed(a, k)) && List(head, [entry] + b)
  {
    hide Ring, Removed;
    Neighbours(from, a, k);
    Ends(head, b);
    EntryApart(from, a, k);
    RemovedWithin(from, a, k);
    assert entry == ([from] + a)[k + 1];
    NoneShared(from, a, k, head, b);
    assert head in [head] + b;
    Del(entry, from, a, k);
    assert List(from, Removed(a, k)) && head.next in [head] + b;
    assert head.next != from && head.next !in Removed(a, k) && head != from && head !in Removed(a, k);
    AddHead(entry, head, b);
    assert List(from, Removed(a, k));
  }

  /** list_move_tail to the tail of another list */
  method MoveTail(entry: Node, ghost from: Node, ghost a: seq<Node>, ghost k: nat, head: Node, ghost b: seq<Node>)
    requires List(from, a) && List(head, b) && k < |a| && entry == a[k]
    requires Disjoint([from] + a, [head] + b)
    modifies entry, entry.prev`next, entry.next`prev, head`prev, head.prev`next
    ensures List(from, Removed(a, k)) && List(head, b + [entry])
  {
    hide Ring, Removed;
    Neighbours(from, a, k);
    Ends(head, b);
    EntryApart(from, a, k);
    RemovedWithin(from, a, k);
    assert entry == ([from] + a)[k + 1];
    NoneShared(from, a, k, head, b);
    assert head in [head] + b;
    Del(entry, from, a, k);
    assert List(from, Removed(a, k)) && head.prev in [head] + b;
    assert head.prev != from && head.prev !in Removed(a, k) && head != from && head !in Removed(a, k);
    AddTail(entry, head, b);
    assert List(from, Removed(a, k));
  }

  lemma RemovedWithin(head: Node, elems: seq<Node>, k: nat)
    requires k < |elems|
    ensures forall x | x in [head] + Removed(elems, k) :: x in [head] + elems
  {
  }

  /** list_move and list_move_tail within one list rotate the entry to an end. */
  method MoveWithin(entry: Node, head: Node, ghost a: seq<Node>, ghost k: nat, tail: bool)
    requires List(head, a) && k < |a| && entry == a[k]
    modifies head, a
    ensures List(head, if tail then Removed(a, k) + [entry] else [entry] + Removed(a, k))
  {
    hide Ring, Removed;
    Neighbours(head, a, k);
    EntryApart(head, a, k);
    RemovedWithin(head, a, k);
    Del(entry, head, a, k);
    Ends(head, Removed(a, k));
    assert entry in a;
    if tail {
      AddTail(entry, head, Removed(a, k));
    } else {
      AddHead(entry, head, Removed(a, k));
    }
  }

  // ---------------------------------------------------------------- joining lists

  /** The ring after a splice, pair by pair. */
  lemma SplicedPairs(list: Node, a: seq<Node>, head: Node, b: seq<Node>, i: nat)
    requires a != [] && i < 1 + |a| + |b|
    ensures var r', p, q := [head] + (a + b), [list] + a, [head] + b;
            && (i == 0 ==> r'[i] == head && Succ(r', i) == a[0])
            && (0 < i < |a| ==> r'[i] == p[i] && Succ(r', i) == Succ(p, i))
            && (i == |a| ==> r'[i] == a[|a| - 1] && Succ(r', i) == Succ(q, 0))
            && (i > |a| ==> r'[i] == q[i - |a|] && Succ(r', i) == Succ(q, i - |a|))
  {
  }

  lemma SplicedDistinct(list: Node, a: seq<Node>, head: Node, b: seq<Node>)
    requires Distinct([list] + a) && Distinct([head] + b) && Disjoint([list] + a, [head] + b)
    ensures Distinct([head] + (a + b))
  {
    var p, q, r' := [list] + a, [head] + b, [head] + (a + b);
    forall i, j | 0 <= i < j < |r'| ensures r'[i] != r'[j] {
      var x := if i == 0 then q[0] else if i <= |a| then p[i] else q[i - |a|];
      var y := if j <= |a| then p[j] else q[j - |a|];
      assert r'[i] == x && r'[j] == y;
    }
  }

  /** __list_splice: the entries of `list` go in front of those of `head`. */
  method SpliceRing(list: Node, head: Node, ghost a: seq<Node>, ghost b: seq<Node>)
    requires List(list, a) && List(head, b) && a != [] && Disjoint([list] + a, [head] + b)
    modifies list.next`prev, head`next, list.prev`next, head.next`prev
    ensures List(head, a + b)
  {
    ghost var p, q, r' := [list] + a, [head] + b, [head] + (a + b);
    ghost var m := |a|;
    assert Link(p[0], Succ(p, 0)) && Link(p[m], Succ(p, m)) && Link(q[0], Succ(q, 0));
    var first, last, at := list.next, list.prev, head.next;
    assert first == p[1] && last == p[m] && at == Succ(q, 0);
    label before:
    first.prev := head;
    head.next := first;
    last.next := at;
    at.prev := last;
    SplicedDistinct(list, a, head, b);
    OnRing(q, 0);
    hide Distinct, Succ;
    forall i | 0 <= i < |r'| ensures Link(r'[i], Succ(r', i)) {
      SplicedPairs(list, a, head, b, i);
      assert p[1] == a[0] && p[m] == a[m - 1] && q[0] == head;
      if 0 < i < m {
        PairKept(p, q, i, m);
        assert old@before(Link(p[i], Succ(p, i)));
      } else if i > m {
        var j := i - m;
        OnRing(q, j);
        SuccInjective(q, j, 0);
        ApartOnRing(q, j, 0);
        assert old@before(Link(q[j], Succ(q, j)));
        NotAcross(p, q, Succ(q, j), q[j], m);
      }
    }
  }

  lemma PairKept(p: seq<Node>, q: seq<Node>, i: nat, m: nat)
    requires Distinct(p) && Disjoint(p, q) && q != [] && 0 < i < m == |p| - 1
    ensures p[i] != p[m] && p[i] != q[0] && Succ(p, i) != p[1] && Succ(p, i) != Succ(q, 0)
  {
    assert Succ(p, i) == p[i + 1];
    OnRing(q, 0);
  }

  lemma NotAcross(p: seq<Node>, q: seq<Node>, x: Node, y: Node, m: nat)
    requires Disjoint(p, q) && x in q && y in q && m < |p| && 1 < |p|
    ensures x != p[1] && y != p[m]
  {
  }

  /** list_splice: an empty list changes nothing; otherwise `list` is left stale. */
  method Splice(list: Node, head: Node, ghost a: seq<Node>, ghost b: seq<Node>)
    requires List(list, a) && List(head, b) && Disjoint([list] + a, [head] + b)
    modifies list.next`prev, head`next, list.prev`next, head.next`prev
    ensures List(head, a + b)
  {
    var e := Empty(list, a);
    if !e {
      SpliceRing(list, head, a, b);
    } else {
      assert a + b == b;
    }
  }

  /** list_splice_init: `list` ends up empty and usable. */
  method SpliceInit(list: Node, head: Node, ghost a: seq<Node>, ghost b: seq<Node>)
    requires List(list, a) && List(head, b) && Disjoint([list] + a, [head] + b)
    modifies list, list.next`prev, head`next, list.prev`next, head.next`prev
    ensures List(head, a + b) && List(list, [])
  {
    ListApart(list, a, head, b);
    hide Ring;
    var e := Empty(list, a);
    if !e {
      SpliceRing(list, head, a, b);
      InitHead(list);
    } else {
      assert a + b == b;
    }
  }

  lemma ListApart(list: Node, a: seq<Node>, head: Node, b: seq<Node>)
    requires Distinct([list] + a) && Disjoint([list] + a, [head] + b)
    ensures list !in [head] + (a + b)
  {
    var p, q := [list] + a, [head] + b;
    forall i | 0 <= i < |[head] + (a + b)| ensures ([head] + (a + b))[i] != list {
      assert ([head] + (a + b))[i] == if i == 0 then q[0] else if i <= |a| then p[i] else q[i - |a|];
      assert p[0] == list;
    }
  }

  // ---------------------------------------------------------------- reading

  /** list_empty */
  method Empty(head: Node, ghost elems: seq<Node>) returns (e: bool)
    requires List(head, elems)
    ensures e <==> elems == []
  {
    ghost var r := [head] + elems;
    assert Link(r[0], Succ(r, 0));
    e := head.next == head;
  }

  /** list_size, a list_for_each_safe loop that only counts */
  method Size(head: Node, ghost elems: seq<Node>) returns (n: nat)
    requires List(head, elems)
    ensures n == |elems|
  {
    ghost var r := [head] + elems;
    assert Link(r[0], Succ(r, 0));
    n := 0;
    var pos := head.next;
    var after := pos.next;
    while pos != head
      invariant n <= |elems| && pos == Succ(r, n) && after == pos.next
      decreases |elems| - n
    {
      assert pos == r[n + 1];
      n := n + 1;
      assert Link(r[n], Succ(r, n));
      pos := after;
      after := pos.next;
    }
  }

  /** list_for_each_safe with a body that deletes the entry it stands on: every entry is
      visited once, in order, and the list ends up empty. */
  method Purge(head: Node, ghost elems: seq<Node>) returns (visited: seq<Node>)
    requires List(head, elems)
    modifies head, elems
    ensures visited == elems && List(head, [])
  {
    hide Ring, Removed, Succ;
    visited := [];
    var pos := head.next;
    var after := pos.next;
    PurgeNext(head, elems);
    assert elems[0..] == elems;
    while pos != head
      invariant |visited| <= |elems| && visited == elems[..|visited|]
      invariant List(head, elems[|visited|..])
      invariant pos == head.next && after == pos.next
      decreases |elems| - |visited|
    {
      ghost var rest := elems[|visited|..];
      PurgeNext(head, rest);
      Neighbours(head, rest, 0);
      assert rest[0] == elems[|visited|];
      assert forall x | x in [head] + rest :: x == head || x in elems;
      AfterFirst(head, rest);
      Del(pos, head, rest, 0);
      visited := visited + [pos];
      assert rest[1..] == elems[|visited|..];
      PurgeNext(head, elems[|visited|..]);
      pos := after;
      after := pos.next;
    }
    PurgeNext(head, elems[|visited|..]);
  }

  /** What a safe iteration remembers before it deletes the first entry. */
  lemma AfterFirst(head: Node, elems: seq<Node>)
    requires elems != []
    ensures Succ([head] + elems, 1) == (if elems[1..] == [] then head else elems[1..][0])
    ensures Removed(elems, 0) == elems[1..]
  {
  }

  lemma PurgeNext(head: Node, elems: seq<Node>)
    requires List(head, elems)
    ensures head.next == (if elems == [] then head else elems[0])
    ensures elems != [] ==> head.next != head && head.next.next == Succ([head] + elems, 1)
  {
    var r := [head] + elems;
    assert Link(r[0], Succ(r, 0));
    if elems != [] {
      assert Link(r[1], Succ(r, 1));
    }
  }
}
