/**
 * The circular doubly linked list of kernel/utils/list.c.
 *
 * A list owns a sentinel entry `head`; the entries of the list and the head
 * form one circle through `next` and the same circle backwards through
 * `prev`.  An empty list is the head pointing to itself, and an entry that
 * has been removed points to itself as well.  The ghost sequence `Elems`
 * records the entries from the first (`head.next`) to the last (`head.prev`).
 */
module CircularList {

  class Entry {
    var next: Entry?
    var prev: Entry?

    /** A detached entry: a circle of one. */
    constructor ()
      ensures next == this && prev == this
    {
      new;
      next := this;
      prev := this;
    }
  }

  /**
   * `nodes` is a circle: each node's `next` is the following node and its
   * `prev` the preceding one, the last node wrapping to the first.
   */
  ghost predicate Circle(nodes: seq<Entry>)
    reads set k | 0 <= k < |nodes| :: nodes[k]
  {
    |nodes| >= 1 &&
    (forall k {:trigger nodes[k].next} :: 0 <= k < |nodes| ==> nodes[k].next == Succ(nodes, k)) &&
    (forall k {:trigger nodes[k].prev} :: 0 <= k < |nodes| ==> nodes[k].prev == Pred(nodes, k))
  }

  /** The node after position `k` on the circle. */
  function Succ(nodes: seq<Entry>, k: int): Entry
    requires 0 <= k < |nodes|
  {
    if k + 1 == |nodes| then nodes[0] else nodes[k + 1]
  }

  /** The node before position `k` on the circle. */
  function Pred(nodes: seq<Entry>, k: int): Entry
    requires 0 <= k < |nodes|
  {
    if k == 0 then nodes[|nodes| - 1] else nodes[k - 1]
  }

  ghost predicate Distinct(nodes: seq<Entry>) {
    forall i, j :: 0 <= i < j < |nodes| ==> nodes[i] != nodes[j]
  }

  ghost function IndexOf(nodes: seq<Entry>, e: Entry): (k: int)
    requires e in nodes
    ensures 0 <= k < |nodes| && nodes[k] == e
  {
    if nodes[0] == e then 0 else 1 + IndexOf(nodes[1..], e)
  }

  /** The nodes with `e` placed after position `p`. */
  function Inserted(nodes: seq<Entry>, p: int, e: Entry): (r: seq<Entry>)
    requires 0 <= p < |nodes|
    ensures |r| == |nodes| + 1 && r[p + 1] == e
    ensures forall k :: 0 <= k <= p ==> r[k] == nodes[k]
    ensures forall k :: p + 1 < k < |r| ==> r[k] == nodes[k - 1]
  {
    nodes[..p + 1] + [e] + nodes[p + 1..]
  }

  /** The nodes without the one at position `p`. */
  function Removed(nodes: seq<Entry>, p: int): (r: seq<Entry>)
    requires 0 <= p < |nodes|
    ensures |r| == |nodes| - 1
    ensures forall k :: 0 <= k < p ==> r[k] == nodes[k]
    ensures forall k :: p <= k < |r| ==> r[k] == nodes[k + 1]
  {
    nodes[..p] + nodes[p + 1..]
  }

  /** Adding a node that is not among them keeps the nodes distinct. */
  lemma DistinctAfterInsert(nodes: seq<Entry>, p: int, e: Entry)
    requires 0 <= p < |nodes| && Distinct(nodes) && e !in nodes
    ensures Distinct(Inserted(nodes, p, e))
  {
    var nodes' := Inserted(nodes, p, e);
    forall i, j | 0 <= i < j < |nodes'|
      ensures nodes'[i] != nodes'[j]
    {
      if i != p + 1 && j != p + 1 {
        var i' := if i <= p then i else i - 1;
        var j' := if j <= p then j else j - 1;
        assert nodes'[i] == nodes[i'] && nodes'[j] == nodes[j'];
      } else if i == p + 1 {
        assert nodes'[j] == nodes[j - 1];
      } else {
        assert nodes'[i] == nodes[i];
      }
    }
  }

  /** After linking `e` in after position `p`, every `next` link closes the circle again. */
  lemma NextAfterInsert(nodes: seq<Entry>, p: int, e: Entry)
    requires 0 <= p < |nodes|
    requires forall k :: 0 <= k < |nodes| && k != p ==> nodes[k].next == Succ(nodes, k)
    requires nodes[p].next == e && e.next == Succ(nodes, p)
    ensures forall k :: 0 <= k < |nodes| + 1 ==>
      Inserted(nodes, p, e)[k].next == Succ(Inserted(nodes, p, e), k)
  {
    var nodes' := Inserted(nodes, p, e);
    forall k | 0 <= k < |nodes'|
      ensures nodes'[k].next == Succ(nodes', k)
    {
      if k < p {
        assert nodes'[k] == nodes[k] && nodes'[k + 1] == nodes[k + 1];
      } else if k == p {
        assert nodes'[k] == nodes[k];
      } else if k > p + 1 {
        assert nodes'[k] == nodes[k - 1];
        assert Succ(nodes', k) == Succ(nodes, k - 1);
      }
    }
  }

  /** After linking `e` in after position `p`, every `prev` link closes the circle again. */
  lemma PrevAfterInsert(nodes: seq<Entry>, p: int, e: Entry)
    requires 0 <= p < |nodes|
    requires forall k :: 0 <= k < |nodes| && k != (if p + 1 == |nodes| then 0 else p + 1) ==>
      nodes[k].prev == Pred(nodes, k)
    requires e.prev == nodes[p] && Succ(nodes, p).prev == e
    ensures forall k :: 0 <= k < |nodes| + 1 ==>
      Inserted(nodes, p, e)[k].prev == Pred(Inserted(nodes, p, e), k)
  {
    var n := |nodes|;
    var nodes' := Inserted(nodes, p, e);
    forall k | 0 <= k < |nodes'|
      ensures nodes'[k].prev == Pred(nodes', k)
    {
      if k <= p {
        assert nodes'[k] == nodes[k];
        if k == 0 && p == n - 1 {
        } else {
          assert Pred(nodes', k) == Pred(nodes, k);
        }
      } else if k > p + 1 {
        assert nodes'[k] == nodes[k - 1];
        if k - 1 > p + 1 {
          assert Pred(nodes', k) == Pred(nodes, k - 1);
        }
      }
    }
  }

  /**
   * Linking `e` in after position `p` of a circle: once the node there and
   * its old successor point to `e`, `e` points back to them and every other
   * link is the old one, the nodes with `e` inserted form a circle again.
   */
  lemma InsertRestoresCircle(nodes: seq<Entry>, p: int, e: Entry)
    requires 0 <= p < |nodes| && Distinct(nodes) && e !in nodes
    requires forall k :: 0 <= k < |nodes| && k != p ==> nodes[k].next == Succ(nodes, k)
    requires forall k :: 0 <= k < |nodes| && k != (if p + 1 == |nodes| then 0 else p + 1) ==>
      nodes[k].prev == Pred(nodes, k)
    requires nodes[p].next == e && e.prev == nodes[p] && e.next == Succ(nodes, p) && Succ(nodes, p).prev == e
    ensures Circle(Inserted(nodes, p, e)) && Distinct(Inserted(nodes, p, e))
  {
    NextAfterInsert(nodes, p, e);
    PrevAfterInsert(nodes, p, e);
    DistinctAfterInsert(nodes, p, e);
  }

  lemma ElementsAfterInsert(nodes: seq<Entry>, p: int, e: Entry)
    requires 0 <= p < |nodes|
    ensures (set x | x in Inserted(nodes, p, e)) == (set x | x in nodes) + {e}
  {
    var nodes' := Inserted(nodes, p, e);
    forall x | x in nodes ensures x in nodes' {
      var k := IndexOf(nodes, x);
      if k <= p { assert nodes'[k] == x; } else { assert nodes'[k + 1] == x; }
    }
  }

  lemma ElementsAfterRemove(nodes: seq<Entry>, p: int)
    requires 0 <= p < |nodes| && Distinct(nodes)
    ensures (set x | x in Removed(nodes, p)) == (set x | x in nodes) - {nodes[p]}
  {
    var nodes' := Removed(nodes, p);
    forall x | x in nodes && x != nodes[p] ensures x in nodes' {
      var k := IndexOf(nodes, x);
      if k < p { assert nodes'[k] == x; } else { assert nodes'[k - 1] == x; }
    }
    forall x | x in nodes' ensures x != nodes[p] {
      var k := IndexOf(nodes', x);
      if k < p { assert nodes[k] == x; } else { assert nodes[k + 1] == x; }
    }
  }

  /** Dropping a node keeps the others distinct. */
  lemma DistinctAfterRemove(nodes: seq<Entry>, p: int)
    requires 0 <= p < |nodes| && Distinct(nodes)
    ensures Distinct(Removed(nodes, p))
  {
    var nodes' := Removed(nodes, p);
    forall i, j | 0 <= i < j < |nodes'|
      ensures nodes'[i] != nodes'[j]
    {
      var i' := if i < p then i else i + 1;
      var j' := if j < p then j else j + 1;
      assert nodes'[i] == nodes[i'] && nodes'[j] == nodes[j'];
    }
  }

  /** After unlinking the node at position `p`, every `next` link closes the circle again. */
  lemma NextAfterRemove(nodes: seq<Entry>, p: int)
    requires 1 <= p < |nodes|
    requires forall k :: 0 <= k < |nodes| && k != p - 1 && k != p ==> nodes[k].next == Succ(nodes, k)
    requires nodes[p - 1].next == Succ(nodes, p)
    ensures forall k :: 0 <= k < |nodes| - 1 ==>
      Removed(nodes, p)[k].next == Succ(Removed(nodes, p), k)
  {
    var nodes' := Removed(nodes, p);
    forall k | 0 <= k < |nodes'|
      ensures nodes'[k].next == Succ(nodes', k)
    {
      if k < p - 1 {
        assert nodes'[k] == nodes[k] && nodes'[k + 1] == nodes[k + 1];
      } else if k == p - 1 {
        assert nodes'[k] == nodes[k];
      } else {
        assert nodes'[k] == nodes[k + 1];
        assert Succ(nodes', k) == Succ(nodes, k + 1);
      }
    }
  }

  /** After unlinking the node at position `p`, every `prev` link closes the circle again. */
  lemma PrevAfterRemove(nodes: seq<Entry>, p: int)
    requires 1 <= p < |nodes|
    requires forall k :: 0 <= k < |nodes| && k != p && nodes[k] != Succ(nodes, p) ==> nodes[k].prev == Pred(nodes, k)
    requires Succ(nodes, p).prev == nodes[p - 1]
    requires forall k :: 0 <= k < |nodes| && k != p && k != (if p + 1 == |nodes| then 0 else p + 1) ==> nodes[k] != Succ(nodes, p)
    ensures forall k :: 0 <= k < |nodes| - 1 ==>
      Removed(nodes, p)[k].prev == Pred(Removed(nodes, p), k)
  {
    var n := |nodes|;
    var nodes' := Removed(nodes, p);
    forall k | 0 <= k < |nodes'|
      ensures nodes'[k].prev == Pred(nodes', k)
    {
      if k < p {
        assert nodes'[k] == nodes[k];
        if k == 0 && p == n - 1 {
        } else {
          assert Pred(nodes', k) == Pred(nodes, k);
        }
      } else {
        assert nodes'[k] == nodes[k + 1];
        if k > p {
          assert Pred(nodes', k) == Pred(nodes, k + 1);
        }
      }
    }
  }

  /**
   * Unlinking the node at position `p` of a circle: once its predecessor and
   * successor point to each other and every other link is the old one, the
   * remaining nodes form a circle.
   */
  lemma RemoveRestoresCircle(nodes: seq<Entry>, p: int)
    requires 1 <= p < |nodes| && Distinct(nodes)
    requires forall k :: 0 <= k < |nodes| && k != p - 1 && k != p ==> nodes[k].next == Succ(nodes, k)
    requires forall k :: 0 <= k < |nodes| && k != p && nodes[k] != Succ(nodes, p) ==> nodes[k].prev == Pred(nodes, k)
    requires nodes[p - 1].next == Succ(nodes, p) && Succ(nodes, p).prev == nodes[p - 1]
    ensures Circle(Removed(nodes, p)) && Distinct(Removed(nodes, p))
  {
    forall k | 0 <= k < |nodes| && k != p && k != (if p + 1 == |nodes| then 0 else p + 1)
      ensures nodes[k] != Succ(nodes, p)
    {
    }
    NextAfterRemove(nodes, p);
    PrevAfterRemove(nodes, p);
    DistinctAfterRemove(nodes, p);
  }

  /**
   * `list_entry_append_single_element(entry, e)` on the circle `nodes`, with
   * `entry` at position `p`: `e` is linked in right after `entry`.
   */
  method AppendSingleElement(entry: Entry, e: Entry, ghost nodes: seq<Entry>, ghost p: int)
    requires 0 <= p < |nodes| && nodes[p] == entry && Circle(nodes) && Distinct(nodes) && e !in nodes
    modifies entry, Succ(nodes, p), e
    ensures Circle(Inserted(nodes, p, e)) && Distinct(Inserted(nodes, p, e))
  {
    ghost var a := Succ(nodes, p);
    assert entry.next == a by {
      assert nodes[p].next == Succ(nodes, p);
    }
    entry.next.prev := e;
    e.next := entry.next;
    entry.next := e;
    e.prev := entry;
    forall k | 0 <= k < |nodes| && k != p
      ensures nodes[k].next == Succ(nodes, k)
    {
      assert old(nodes[k].next) == Succ(nodes, k);
    }
    forall k | 0 <= k < |nodes| && k != (if p + 1 == |nodes| then 0 else p + 1)
      ensures nodes[k].prev == Pred(nodes, k)
    {
      assert old(nodes[k].prev) == Pred(nodes, k);
    }
    InsertRestoresCircle(nodes, p, e);
  }

  /**
   * `list_entry_remove(e)` on the circle `nodes`, with `e` at position `p`:
   * its neighbours are linked to each other and `e` is left pointing to itself.
   */
  method EntryRemove(e: Entry, ghost nodes: seq<Entry>, ghost p: int)
    requires 1 <= p < |nodes| && nodes[p] == e && Circle(nodes) && Distinct(nodes)
    modifies nodes[p - 1], e, Succ(nodes, p)
    ensures Circle(Removed(nodes, p)) && Distinct(Removed(nodes, p))
    ensures e.next == e && e.prev == e
  {
    ghost var c := Succ(nodes, p);
    assert e.prev == nodes[p - 1] && e.next == c by {
      assert nodes[p].prev == Pred(nodes, p) && nodes[p].next == Succ(nodes, p);
    }
    e.prev.next := e.next;
    e.next.prev := e.prev;
    e.next := e;
    e.prev := e;
    forall k | 0 <= k < |nodes| && k != p - 1 && k != p
      ensures nodes[k].next == Succ(nodes, k)
    {
      assert old(nodes[k].next) == Succ(nodes, k);
    }
    forall k | 0 <= k < |nodes| && k != p && nodes[k] != c
      ensures nodes[k].prev == Pred(nodes, k)
    {
      assert old(nodes[k].prev) == Pred(nodes, k);
    }
    RemoveRestoresCircle(nodes, p);
  }

  class List {
    const head: Entry
    ghost var Elems: seq<Entry>
    ghost var Repr: set<Entry>

    /** The head followed by the entries, in `next` order. */
    ghost function Nodes(): seq<Entry>
      reads this
    {
      [head] + Elems
    }

    ghost predicate Valid()
      reads this, Repr
    {
      Repr == (set x | x in Nodes()) &&
      Distinct(Nodes()) && Circle(Nodes())
    }

    /** `DEFINE_LIST`: the head alone, pointing to itself. */
    constructor ()
      ensures Valid() && Elems == [] && fresh(Repr)
    {
      head := new Entry();
      Elems := [];
      new;
      Repr := {head};
      assert Nodes() == [head];
      assert Circle(Nodes()) by {
        assert Nodes()[0].next == Succ(Nodes(), 0);
        assert Nodes()[0].prev == Pred(Nodes(), 0);
      }
    }

    /** `LIST_EMPTY`: the head's successor is the head itself. */
    method IsEmpty() returns (b: bool)
      requires Valid()
      ensures b <==> Elems == []
    {
      HeadLinks();
      b := head.next == head;
    }

    /** The head points forward to the first entry and back to the last one. */
    lemma HeadLinks()
      requires Valid()
      ensures head.next == if Elems == [] then head else Elems[0]
      ensures head.prev == if Elems == [] then head else Elems[|Elems| - 1]
      ensures head.next == head <==> Elems == []
    {
      assert head == Nodes()[0];
      assert head.next == Succ(Nodes(), 0);
      assert head.prev == Pred(Nodes(), 0);
      if Elems != [] {
        assert Nodes()[1] == Elems[0] && Nodes()[1] != Nodes()[0];
      }
    }

    /** Every entry of a valid list is linked both ways with its neighbours. */
    lemma LinkedBothWays(e: Entry)
      requires Valid() && e in Nodes()
      ensures e.next != null && e.prev != null
      ensures e.next.prev == e && e.prev.next == e
    {
      var k := IndexOf(Nodes(), e);
      var n := |Nodes()|;
      if k + 1 < n {
        assert Nodes()[k + 1].prev == Nodes()[k];
      } else {
        assert Nodes()[0].prev == Nodes()[n - 1];
      }
      if k > 0 {
        assert Nodes()[k - 1].next == Nodes()[k];
      } else {
        assert Nodes()[n - 1].next == Nodes()[0];
      }
    }

    /** `list_entry_append_single_element` on an entry of this list: `e` follows `entry`. */
    method Append(entry: Entry, e: Entry)
      requires Valid() && entry in Nodes() && e !in Repr
      modifies this, Repr, e
      ensures Valid() && Repr == old(Repr) + {e}
      ensures var p := old(IndexOf(Nodes(), entry));
        Elems == old(Elems[..p]) + [e] + old(Elems[p..])
    {
      ghost var nodes := Nodes();
      ghost var p := IndexOf(nodes, entry);
      AppendSingleElement(entry, e, nodes, p);
      Elems := Elems[..p] + [e] + Elems[p..];
      Repr := Repr + {e};
      assert Nodes() == Inserted(nodes, p, e);
      ElementsAfterInsert(nodes, p, e);
    }

    /** `list_add_first`: the entry becomes the first of the list. */
    method AddFirst(e: Entry)
      requires Valid() && e !in Repr
      modifies this, Repr, e
      ensures Valid() && Repr == old(Repr) + {e}
      ensures Elems == [e] + old(Elems)
    {
      Append(head, e);
    }

    /** `list_add_last`: the entry becomes the last of the list. */
    method AddLast(e: Entry)
      requires Valid() && e !in Repr
      modifies this, Repr, e
      ensures Valid() && Repr == old(Repr) + {e}
      ensures Elems == old(Elems) + [e]
    {
      HeadLinks();
      assert head.prev == Nodes()[|Nodes()| - 1];
      assert IndexOf(Nodes(), head.prev) == |Elems| by {
        assert Distinct(Nodes());
      }
      Append(head.prev, e);
    }

    /** `list_entry_remove` on an entry of this list: the entry leaves it, pointing to itself. */
    method Remove(e: Entry)
      requires Valid() && e in Elems
      modifies this, Repr
      ensures Valid() && Repr == old(Repr) - {e}
      ensures var p := old(IndexOf(Elems, e));
        Elems == old(Elems[..p]) + old(Elems[p + 1..])
      ensures e.next == e && e.prev == e
    {
      ghost var nodes := Nodes();
      ghost var q := IndexOf(Elems, e);
      assert nodes[q + 1] == e;
      EntryRemove(e, nodes, q + 1);
      Elems := Elems[..q] + Elems[q + 1..];
      Repr := Repr - {e};
      assert Nodes() == Removed(nodes, q + 1);
      ElementsAfterRemove(nodes, q + 1);
    }

    /** `list_remove_first`: `null` on an empty list, else the unlinked first entry. */
    method RemoveFirst() returns (e: Entry?)
      requires Valid()
      modifies this, Repr
      ensures Valid()
      ensures old(Elems) == [] ==> e == null && Elems == [] && unchanged(Repr)
      ensures old(Elems) != [] ==>
        e == old(Elems[0]) && Elems == old(Elems[1..]) && Repr == old(Repr) - {e} &&
        e.next == e && e.prev == e
    {
      HeadLinks();
      if head.next == head {
        return null;
      }
      e := head.next;
      assert IndexOf(Elems, e) == 0;
      Remove(e);
    }

    /** `list_remove_last`: `null` on an empty list, else the unlinked last entry. */
    method RemoveLast() returns (e: Entry?)
      requires Valid()
      modifies this, Repr
      ensures Valid()
      ensures old(Elems) == [] ==> e == null && Elems == [] && unchanged(Repr)
      ensures old(Elems) != [] ==>
        e == old(Elems[|Elems| - 1]) && Elems == old(Elems[..|Elems| - 1]) && Repr == old(Repr) - {e} &&
        e.next == e && e.prev == e
    {
      HeadLinks();
      if head.next == head {
        return null;
      }
      e := head.prev;
      assert IndexOf(Elems, e) == |Elems| - 1 by {
        assert Distinct(Nodes());
        assert Nodes()[IndexOf(Elems, e) + 1] == e == Nodes()[|Elems|];
      }
      Remove(e);
    }
  }

  /**
   * The first half of the ordering scenario of the list tests: `first` added
   * at the front, then `mid` and `last` at the back; the head then points
   * forward to `first` and back to `last`.
   */
  method BuildOrdered() returns (l: List, first: Entry, mid: Entry, last: Entry)
    ensures l.Valid() && l.Elems == [first, mid, last]
    ensures l.head.next == first && l.head.prev == last
  {
    l := new List();
    first := new Entry();
    last := new Entry();
    mid := new Entry();
    l.AddFirst(first);
    assert l.Elems == [first];
    l.AddLast(mid);
    assert l.Elems == [first, mid];
    l.AddLast(last);
    l.HeadLinks();
  }

  /**
   * The second half: removing from the front yields `first`, removing from
   * the back yields `last`, and unlinking `mid` leaves the list empty.
   */
  method RemoveOrdered(l: List, first: Entry, mid: Entry, last: Entry)
    returns (removedFirst: Entry?, removedLast: Entry?, emptyAtEnd: bool)
    requires l.Valid() && l.Elems == [first, mid, last]
    modifies l, l.Repr
    ensures removedFirst == first && removedLast == last && emptyAtEnd
    ensures l.Valid() && l.Elems == []
  {
    removedFirst := l.RemoveFirst();
    removedLast := l.RemoveLast();
    assert l.Elems == [mid];
    assert IndexOf(l.Elems, mid) == 0;
    l.Remove(mid);
    l.HeadLinks();
    emptyAtEnd := l.head.next == l.head;
  }
}
