/**
 * The two client programs of the repository, src/test.c and src/example.c,
 * with what they print stated as facts about the links.
 */
module Scenarios {
  import opened SeqUtil
  import opened CircularList

  /** The first half of src/test.c: A, B and C inserted at the end of an empty list. */
  method InsertThree() returns (l: List, a: Node, b: Node, c: Node)
    ensures fresh(l) && fresh(a) && fresh(b) && fresh(c)
    ensures l.Valid() && l.elems == [a, b, c] && l.head == a
    ensures a.next == b && b.next == c && c.next == a
    ensures a.prev == c && b.prev == a && c.prev == b
  {
    l := new List();
    a := new Node();
    l.InsertLast(a);
    assert a.next == a && a.prev == a && l.head == a;

    b := new Node();
    l.InsertLast(b);
    assert l.elems == [a, b];
    assert a.next == b && a.prev == b && b.next == a && b.prev == a && l.head == a;

    c := new Node();
    l.InsertLast(c);
    assert l.elems == [a, b, c];
  }

  /** The second half of src/test.c: C, then A, then B removed. */
  method RemoveThree(l: List, a: Node, b: Node, c: Node)
    requires l.Valid() && l.elems == [a, b, c]
    modifies l, a, b, c
    ensures l.Valid() && l.elems == [] && l.head == null
  {
    IndexOfAt(l.elems, 2);
    l.Remove(c);
    assert l.elems == [a, b];
    assert a.next == b && a.prev == b && b.next == a && b.prev == a && l.head == a;

    IndexOfAt(l.elems, 0);
    l.Remove(a);
    assert l.elems == [b];
    assert b.next == b && b.prev == b && l.head == b;

    IndexOfAt(l.elems, 0);
    l.Remove(b);
  }

  /**
   * src/test.c as a whole: the walk between the inserts and the removals
   * sees the three nodes in insertion order, and the list ends empty.
   */
  method TestProgram() returns (inserted: seq<Node>, visited: seq<Node>, head: Node?)
    ensures |inserted| == 3 && visited == inserted && head == null
  {
    var l, a, b, c := InsertThree();
    inserted := [a, b, c];
    var cursor;
    visited, cursor := l.Foreach();
    RemoveThree(l, a, b, c);
    head := l.head;
  }

  /**
   * src/example.c: sixteen nodes inserted at the end, a forward walk, then a
   * safe walk that removes every node.  Both walks visit the nodes in the
   * order they were inserted, which is the order of the printed values, and
   * the list ends empty.
   */
  method ExampleProgram() returns (inserted: seq<Node>, visited: seq<Node>, drained: seq<Node>, head: Node?)
    ensures |inserted| == 16 && visited == inserted && drained == inserted && head == null
  {
    var l := new List();
    inserted := [];
    var i := 0;
    while i < 16
      invariant 0 <= i <= 16
      invariant fresh(l) && l.Valid() && l.elems == inserted && |inserted| == i
      invariant forall j :: 0 <= j < |l.elems| ==> fresh(l.elems[j])
    {
      var node := new Node();
      l.InsertLast(node);
      inserted := inserted + [node];
      i := i + 1;
    }
    var cursor;
    visited, cursor := l.Foreach();
    drained := l.DrainSafe();
    head := l.head;
  }

  /** Removing a node just inserted at the end restores the list. */
  method InsertLastThenRemove(l: List, node: Node)
    requires l.Valid() && node !in l.elems
    modifies l, node, l.elems
    ensures l.Valid() && l.elems == old(l.elems) && l.head == old(l.head)
  {
    ghost var e := l.elems;
    l.InsertLast(node);
    IndexOfAt(l.elems, |e|);
    assert l.elems == e + ([node] + []);
    RemoveAtJoin(e, node, []);
    l.Remove(node);
    assert e + [] == e;
  }

  /** Removing a node just inserted at the start restores the list. */
  method InsertFirstThenRemove(l: List, node: Node)
    requires l.Valid() && node !in l.elems
    modifies l, node, l.elems
    ensures l.Valid() && l.elems == old(l.elems) && l.head == old(l.head)
  {
    ghost var e := l.elems;
    l.InsertFirst(node);
    IndexOfAt(l.elems, 0);
    assert l.elems == [] + ([node] + e);
    RemoveAtJoin([], node, e);
    l.Remove(node);
    assert [] + e == e;
  }
}
