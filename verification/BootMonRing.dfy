/**
 The file list as it is in memory: entries linked into a ring, forward and back, through
 the root. Insertion, removal and the relinking of a new file into disk order keep
 the ring, and do to it what the list operations of the model do to a sequence.
 */
module BootMonRing {
  import opened BootMonVolume

  class ListEntry {
    var forward: ListEntry
    var back: ListEntry

    /** InitializeListHead: an entry linked to itself. */
    constructor ()
      ensures forward == this && back == this
    {
      forward, back := this, this;
    }
  }

  /** The ring's entry number `i`, counted from the root and back to it. */
  function At(root: ListEntry, nodes: seq<ListEntry>, i: nat): ListEntry
    requires i <= |nodes| + 1
  {
    if i == 0 || i == |nodes| + 1 then root else nodes[i - 1]
  }

  /** No entry occurs twice. */
  ghost predicate Distinct(root: ListEntry, nodes: seq<ListEntry>)
  {
    root !in nodes && forall i, j :: 0 <= i < j < |nodes| ==> nodes[i] != nodes[j]
  }

  /** Neighbours `i` and `i + 1` are linked both ways. */
  ghost predicate Linked(root: ListEntry, nodes: seq<ListEntry>, i: nat)
    requires i <= |nodes|
    reads At(root, nodes, i), At(root, nodes, i + 1)
  {
    At(root, nodes, i).forward == At(root, nodes, i + 1) && At(root, nodes, i + 1).back == At(root, nodes, i)
  }

  /** The root and the entries form one ring in this order. */
  ghost predicate Ring(root: ListEntry, nodes: seq<ListEntry>)
    reads root, nodes
  {
    Distinct(root, nodes) && forall i :: 0 <= i <= |nodes| ==> Linked(root, nodes, i)
  }

  function Inserted<T>(s: seq<T>, k: nat, x: T): (r: seq<T>)
    requires k <= |s|
    ensures |r| == |s| + 1
  {
    s[..k] + [x] + s[k..]
  }

  /** A new ring is empty. */
  method InitializeListHead() returns (root: ListEntry)
    ensures fresh(root) && Ring(root, [])
  {
    root := new ListEntry();
  }

  lemma {:induction false} InsertedAt(root: ListEntry, nodes: seq<ListEntry>, k: nat, e: ListEntry, i: nat)
    requires k <= |nodes| && i <= |nodes| + 2
    ensures At(root, Inserted(nodes, k, e), i) ==
            if i == k + 1 then e else if i <= k then At(root, nodes, i) else At(root, nodes, i - 1)
  {
  }

  lemma {:induction false} InsertedDistinct(root: ListEntry, nodes: seq<ListEntry>, k: nat, e: ListEntry)
    requires Distinct(root, nodes) && k <= |nodes| && e != root && e !in nodes
    ensures Distinct(root, Inserted(nodes, k, e))
  {
    var r := Inserted(nodes, k, e);
    assert forall i :: 0 <= i < |r| ==> r[i] == if i == k then e else if i < k then nodes[i] else nodes[i - 1];
  }

  /** In a ring of distinct entries, different places hold different entries. */
  lemma {:induction false} AtDistinct(root: ListEntry, nodes: seq<ListEntry>, i: nat, j: nat)
    requires Distinct(root, nodes) && i <= |nodes| && j <= |nodes| && i != j
    ensures At(root, nodes, i) != At(root, nodes, j)
  {
  }

  /** Links an entry in front of the one that is at place `k` of the list, or of the root. */
  method InsertBefore(e: ListEntry, link: ListEntry, ghost root: ListEntry, ghost nodes: seq<ListEntry>, ghost k: nat)
    requires Ring(root, nodes) && k <= |nodes| && link == At(root, nodes, k + 1)
    requires e != root && e !in nodes
    modifies e, root, nodes
    ensures Ring(root, Inserted(nodes, k, e))
  {
    ghost var after := Inserted(nodes, k, e);
    InsertedDistinct(root, nodes, k, e);
    assert Linked(root, nodes, k);
    label Before:
    e.back := link.back;
    e.forward := link;
    link.back.forward := e;
    link.back := e;
    forall i | 0 <= i <= |after|
      ensures Linked(root, after, i)
    {
      InsertedAt(root, nodes, k, e, i);
      InsertedAt(root, nodes, k, e, i + 1);
      if i < k {
        assert old@Before(Linked(root, nodes, i));
        AtDistinct(root, nodes, i, k);
      } else if i > k + 1 {
        assert old@Before(Linked(root, nodes, i - 1));
        AtDistinct(root, nodes, i - 1, k);
      }
    }
  }

  /** InsertHeadList. */
  method InsertHeadList(root: ListEntry, e: ListEntry, ghost nodes: seq<ListEntry>)
    requires Ring(root, nodes) && e != root && e !in nodes
    modifies e, root, nodes
    ensures Ring(root, [e] + nodes)
  {
    assert Linked(root, nodes, 0);
    InsertBefore(e, root.forward, root, nodes, 0);
    assert Inserted(nodes, 0, e) == [e] + nodes;
  }

  /** InsertTailList. */
  method InsertTailList(root: ListEntry, e: ListEntry, ghost nodes: seq<ListEntry>)
    requires Ring(root, nodes) && e != root && e !in nodes
    modifies e, root, nodes
    ensures Ring(root, nodes + [e])
  {
    InsertBefore(e, root, root, nodes, |nodes|);
    assert Inserted(nodes, |nodes|, e) == nodes + [e];
  }

  lemma {:induction false} RemovedAt(root: ListEntry, nodes: seq<ListEntry>, k: nat, i: nat)
    requires k < |nodes| && i <= |nodes|
    ensures At(root, Removed(nodes, k), i) == if i <= k then At(root, nodes, i) else At(root, nodes, i + 1)
  {
  }

  lemma {:induction false} RemovedDistinct(root: ListEntry, nodes: seq<ListEntry>, k: nat)
    requires Distinct(root, nodes) && k < |nodes|
    ensures Distinct(root, Removed(nodes, k)) && nodes[k] !in Removed(nodes, k)
  {
    var r := Removed(nodes, k);
    assert forall i :: 0 <= i < |r| ==> r[i] == nodes[if i < k then i else i + 1];
  }

  /** RemoveEntryList, of the entry at place `k`; the entry itself keeps its links. */
  method RemoveEntryList(e: ListEntry, ghost root: ListEntry, ghost nodes: seq<ListEntry>, ghost k: nat) returns (next: ListEntry)
    requires Ring(root, nodes) && k < |nodes| && e == nodes[k]
    modifies root, nodes
    ensures Ring(root, Removed(nodes, k))
    ensures next == At(root, Removed(nodes, k), k + 1)
  {
    ghost var after := Removed(nodes, k);
    RemovedDistinct(root, nodes, k);
    assert Linked(root, nodes, k) && Linked(root, nodes, k + 1);
    label Before:
    next := e.forward;
    e.forward.back := e.back;
    e.back.forward := next;
    RemovedAt(root, nodes, k, k + 1);
    forall i | 0 <= i <= |after|
      ensures Linked(root, after, i)
    {
      RemovedAt(root, nodes, k, i);
      RemovedAt(root, nodes, k, i + 1);
      if i < k {
        assert old@Before(Linked(root, nodes, i));
        AtDistinct(root, nodes, i, k);
      } else if i > k {
        assert old@Before(Linked(root, nodes, i + 1));
      }
    }
  }

  /** Where the entry at place `k` is once the one at place `i` is gone. */
  lemma {:induction false} RelinkedPlace<T>(s: seq<T>, i: nat, k: nat)
    requires i < |s| && k < |s| && i != k
    ensures var j := RelinkedIndex(i, k);
            j < |Removed(s, i)| && Removed(s, i)[j] == s[k] && Inserted(Removed(s, i), j, s[i]) == Relink(s, i, k)
  {
    var j := RelinkedIndex(i, k);
    assert Inserted(Removed(s, i), j, s[i]) == Relink(s, i, k);
  }

  /**
   The relinking of a new file in front of an entry on disk: the ring stays a ring,
   and its order is that of the model's list.
   */
  method RelinkInFront(file: ListEntry, link: ListEntry, ghost root: ListEntry, ghost nodes: seq<ListEntry>, ghost i: nat, ghost k: nat)
    requires Ring(root, nodes) && i < |nodes| && k < |nodes| && i != k && file == nodes[i] && link == nodes[k]
    modifies root, nodes
    ensures Ring(root, Relink(nodes, i, k))
  {
    ghost var rest, j := Removed(nodes, i), RelinkedIndex(i, k);
    RelinkedPlace(nodes, i, k);
    RemovedDistinct(root, nodes, i);
    var next := RemoveEntryList(file, root, nodes, i);
    assert forall x :: x in rest ==> x in nodes;
    InsertBefore(file, link, root, rest, j);
  }

  /** Walking the ring forward from the root visits the entries in order and ends at the root. */
  method NodeAtPosition(root: ListEntry, position: nat, ghost nodes: seq<ListEntry>) returns (found: bool, e: ListEntry)
    requires Ring(root, nodes)
    ensures found <==> position < |nodes|
    ensures found ==> e == nodes[position]
  {
    var k := 0;
    assert Linked(root, nodes, 0);
    e := root.forward;
    while e != root
      invariant 0 <= k <= |nodes| && e == At(root, nodes, k + 1) && k <= position
      decreases |nodes| - k
    {
      if k == position {
        return true, e;
      }
      assert Linked(root, nodes, k + 1);
      e := e.forward;
      k := k + 1;
    }
    return false, e;
  }
}
