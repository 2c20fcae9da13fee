/**
 * The intrusive circular doubly linked list of src/list.h.
 *
 * A list is a single head slot (`*LIST` in the macros) that is either null or
 * designates the head node.  The nodes belong to the caller; the list only
 * rewrites their `next` and `prev` links.  The ghost field `elems` is the
 * forward order starting at the head; `Valid()` ties it to the links.
 */
module CircularList {
  import opened SeqUtil

  /** Any record that embeds the two links; calloc leaves both null. */
  class Node {
    var next: Node?
    var prev: Node?

    constructor ()
      ensures next == null && prev == null
    {
      next := null;
      prev := null;
    }
  }

  class List {
    /** The head slot: null for the empty list. */
    var head: Node?
    /** The members in forward order, starting at the head. */
    ghost var elems: seq<Node>

    ghost predicate Valid()
      reads this, elems
    {
      (head == null <==> elems == []) &&
      (elems != [] ==>
        head == elems[0] &&
        elems[|elems| - 1].next == elems[0] &&
        elems[0].prev == elems[|elems| - 1]) &&
      (forall i {:trigger elems[i].next} :: 0 <= i < |elems| - 1 ==> elems[i].next == elems[i + 1]) &&
      (forall i {:trigger elems[i].prev} :: 0 < i < |elems| ==> elems[i].prev == elems[i - 1]) &&
      Distinct(elems)
    }

    /** An empty list is a null head slot. */
    constructor ()
      ensures Valid() && elems == [] && head == null
    {
      head := null;
      elems := [];
    }

    /** `list_is_empty`: the head slot is null. */
    function IsEmpty(): (b: bool)
      reads this, elems
      requires Valid()
      ensures b <==> elems == []
    {
      head == null
    }

    /** Every member's links point at members, and `prev` undoes `next`. */
    lemma Linked(x: Node)
      requires Valid() && x in elems
      ensures x.next != null && x.next in elems && x.prev != null && x.prev in elems
      ensures x.next.prev == x && x.prev.next == x
    {
      var i := IndexOf(elems, x);
      if i < |elems| - 1 {
        assert x.next == elems[i + 1];
      }
      if 0 < i {
        assert x.prev == elems[i - 1];
      }
    }

    /** The node reached from the head by following `next` k times. */
    ghost function WalkNext(k: nat): (x: Node)
      reads this, elems
      requires Valid() && head != null
      ensures x in elems
    {
      if k == 0 then head else Linked(WalkNext(k - 1)); WalkNext(k - 1).next
    }

    /** The node reached from the head by following `prev` k times. */
    ghost function WalkPrev(k: nat): (x: Node)
      reads this, elems
      requires Valid() && head != null
      ensures x in elems
    {
      if k == 0 then head else Linked(WalkPrev(k - 1)); WalkPrev(k - 1).prev
    }

    /** Following `next` visits the forward order and returns to the head after |elems| steps. */
    lemma {:induction false} WalkNextAt(k: nat)
      requires Valid() && head != null && k <= |elems|
      ensures WalkNext(k) == if k < |elems| then elems[k] else head
    {
      if k > 0 {
        WalkNextAt(k - 1);
      }
    }

    /** Following `prev` visits the forward order backwards and returns to the head after |elems| steps. */
    lemma {:induction false} WalkPrevAt(k: nat)
      requires Valid() && head != null && k <= |elems|
      ensures WalkPrev(k) == if k == 0 then head else elems[|elems| - k]
    {
      if k > 0 {
        WalkPrevAt(k - 1);
      }
    }

    /** The successor of the member at position m, and whether it is the head. */
    lemma Successor(m: nat)
      requires Valid() && m < |elems|
      ensures elems[m].next == if m + 1 < |elems| then elems[m + 1] else head
      ensures m + 1 < |elems| ==> elems[m + 1] != head
    {
      if m + 1 < |elems| {
        DistinctAt(elems, 0, m + 1);
      }
    }

    /** The predecessor of the member at position m, and whether it is the tail. */
    lemma Predecessor(m: nat)
      requires Valid() && m < |elems|
      ensures elems[m].prev == if 0 < m then elems[m - 1] else elems[|elems| - 1]
      ensures 0 < m ==> elems[m - 1] != elems[|elems| - 1]
    {
      if 0 < m {
        DistinctAt(elems, m - 1, |elems| - 1);
      }
    }

    /**
     * `list_insert_last`: an empty list becomes the self-linked node; otherwise
     * the node is spliced in before the head, becoming the tail.
     */
    method InsertLast(node: Node)
      requires Valid() && node !in elems
      modifies this, node, if elems == [] then {} else {elems[0], elems[|elems| - 1]}
      ensures Valid()
      ensures elems == old(elems) + [node]
      ensures old(head) == null ==> head == node && node.next == node && node.prev == node
      ensures old(head) != null ==>
        head == old(head) && node.next == head && node.prev == old(head.prev) &&
        old(head.prev).next == node && head.prev == node
    {
      DistinctSnoc(elems, node);
      if head == null {
        head := node;
        node.next := node;
        node.prev := node;
      } else {
        node.next := head;
        node.prev := head.prev;
        head.prev.next := node;
        head.prev := node;
      }
      elems := elems + [node];
    }

    /** `list_insert_first`: `list_insert_last` followed by moving the head slot to the node. */
    method InsertFirst(node: Node)
      requires Valid() && node !in elems
      modifies this, node, if elems == [] then {} else {elems[0], elems[|elems| - 1]}
      ensures Valid()
      ensures elems == [node] + old(elems)
      ensures head == node
      ensures old(head) == null ==> node.next == node && node.prev == node
      ensures old(head) != null ==>
        node.next == old(head) && node.prev == old(head.prev) &&
        old(head.prev).next == node && old(head).prev == node
    {
      InsertLast(node);
      ghost var appended := elems;
      head := node;
      elems := [node] + old(elems);
      DistinctCons(node, old(elems));
      assert forall i :: 0 < i < |elems| ==> elems[i] == appended[i - 1];
    }

    /**
     * `list_remove`: the head slot advances past the node if it designated it,
     * becomes null if the node was the only member, and otherwise the node's
     * neighbours are linked to each other.  The node's own links are left as
     * they were, so they still designate its former neighbours.
     */
    method Remove(node: Node)
      requires Valid() && node in elems
      modifies this, node.prev, node.next
      ensures Valid()
      ensures elems == RemoveAt(old(elems), IndexOf(old(elems), node))
      ensures old(head) == node ==> head == (if |old(elems)| == 1 then null else old(node.next))
      ensures old(head) != node ==> head == old(head)
      ensures |old(elems)| > 1 ==>
        old(node.prev) != null && old(node.next) != null &&
        old(node.prev).next == old(node.next) && old(node.next).prev == old(node.prev)
      ensures node.next == old(node.next) && node.prev == old(node.prev)
    {
      ghost var e := elems;
      ghost var n := |e|;
      ghost var k := IndexOf(e, node);
      Linked(node);
      ghost var p := node.prev;
      ghost var q := node.next;
      assert p == e[if k == 0 then n - 1 else k - 1];
      assert q == e[if k == n - 1 then 0 else k + 1];
      if head == node {
        head := node.next;
      }
      if head == node {
        head := null;
        elems := [];
      } else {
        assert n > 1;
        node.next.prev := node.prev;
        node.prev.next := node.next;
        elems := RemoveAt(e, k);
        forall i | 0 <= i < n - 1 && e[i] != p ensures e[i].next == e[i + 1] {
          assert old(e[i].next) == e[i + 1];
        }
        forall i | 0 < i < n && e[i] != q ensures e[i].prev == e[i - 1] {
          assert old(e[i].prev) == e[i - 1];
        }
        RemovedLinks(e, k, p, q);
      }
    }

    /**
     * After `list_remove` has joined the neighbours `p` and `q` of the node at
     * position k of `e`, and changed no other link, the remaining members form
     * a valid list again.
     */
    lemma RemovedLinks(e: seq<Node>, k: nat, p: Node, q: Node)
      requires 1 < |e| && k < |e| && Distinct(e)
      requires p == e[if k == 0 then |e| - 1 else k - 1]
      requires q == e[if k == |e| - 1 then 0 else k + 1]
      requires p.next == q && q.prev == p
      requires forall i :: 0 <= i < |e| - 1 && e[i] != p ==> e[i].next == e[i + 1]
      requires e[|e| - 1] != p ==> e[|e| - 1].next == e[0]
      requires forall i :: 0 < i < |e| && e[i] != q ==> e[i].prev == e[i - 1]
      requires e[0] != q ==> e[0].prev == e[|e| - 1]
      requires head == (if k == 0 then q else e[0])
      requires elems == RemoveAt(e, k)
      ensures Valid()
    {
      var n := |e|;
      SplicedNext(e, k, p, q);
      SplicedPrev(e, k, p, q);
      DistinctElim(e);
      if k == n - 1 {
        assert elems[n - 2] == p && elems[0] == q;
      } else if k == 0 {
        assert elems[n - 2] == p && elems[0] == q;
      } else {
        assert elems[n - 2] == e[n - 1] && elems[0] == e[0];
      }
      DistinctRemoveAt(e, k);
    }

    /** Forward links of the members left after the splice of `list_remove`. */
    lemma SplicedNext(e: seq<Node>, k: nat, p: Node, q: Node)
      requires 1 < |e| && k < |e| && Distinct(e)
      requires p == e[if k == 0 then |e| - 1 else k - 1]
      requires q == e[if k == |e| - 1 then 0 else k + 1]
      requires p.next == q
      requires forall i :: 0 <= i < |e| - 1 && e[i] != p ==> e[i].next == e[i + 1]
      ensures var r := RemoveAt(e, k); forall i :: 0 <= i < |r| - 1 ==> r[i].next == r[i + 1]
    {
      var r := RemoveAt(e, k);
      DistinctElim(e);
      forall i | 0 <= i < |r| - 1
        ensures r[i].next == r[i + 1]
      {
        if i + 1 < k {
          assert r[i] == e[i] && r[i + 1] == e[i + 1];
        } else if i + 1 == k {
          assert r[i] == p && r[i + 1] == q;
        } else {
          assert r[i] == e[i + 1] && r[i + 1] == e[i + 2];
        }
      }
    }

    /** Backward links of the members left after the splice of `list_remove`. */
    lemma SplicedPrev(e: seq<Node>, k: nat, p: Node, q: Node)
      requires 1 < |e| && k < |e| && Distinct(e)
      requires p == e[if k == 0 then |e| - 1 else k - 1]
      requires q == e[if k == |e| - 1 then 0 else k + 1]
      requires q.prev == p
      requires forall i :: 0 < i < |e| && e[i] != q ==> e[i].prev == e[i - 1]
      ensures var r := RemoveAt(e, k); forall i :: 0 < i < |r| ==> r[i].prev == r[i - 1]
    {
      var r := RemoveAt(e, k);
      DistinctElim(e);
      forall i | 0 < i < |r|
        ensures r[i].prev == r[i - 1]
      {
        if i < k {
          assert r[i] == e[i] && r[i - 1] == e[i - 1];
        } else if i == k {
          assert r[i] == q && r[i - 1] == p;
        } else {
          assert r[i] == e[i + 1] && r[i - 1] == e[i];
        }
      }
    }

    /** `list_foreach`: the members in forward order from the head; the cursor ends null. */
    method Foreach() returns (visited: seq<Node>, cursor: Node?)
      requires Valid()
      ensures visited == elems && cursor == null
    {
      visited := [];
      cursor := head;
      while cursor != null
        invariant |visited| <= |elems| && visited == elems[..|visited|]
        invariant cursor == null ==> |visited| == |elems|
        invariant cursor != null ==> |visited| < |elems| && cursor == elems[|visited|]
        decreases |elems| - |visited|
      {
        var node: Node := cursor;
        ghost var k := |visited|;
        Successor(k);
        visited := visited + [node];
        cursor := if node.next == head then null else node.next;
      }
    }

    /** `list_foreach_reverse`: from the tail `head.prev` back to the head; nothing for the empty list. */
    method ForeachReverse() returns (visited: seq<Node>, cursor: Node?)
      requires Valid()
      ensures visited == Reversed(elems) && cursor == null
    {
      visited := [];
      cursor := if head != null then head.prev else null;
      ghost var j: nat := |elems|;
      while cursor != null
        invariant j <= |elems| && visited == Reversed(elems[j..])
        invariant cursor == null ==> j == 0
        invariant cursor != null ==> 0 < j && cursor == elems[j - 1]
        decreases j
      {
        var node: Node := cursor;
        ghost var j' := j - 1;
        SplitAt(elems, j');
        ReversedCons(elems[j'], elems[j..]);
        Predecessor(j');
        visited := visited + [node];
        cursor := if node.prev == head.prev then null else node.prev;
        j := j';
      }
      assert elems[0..] == elems;
    }

    /**
     * `list_foreach_backwards` of include/list.h: the same walk as
     * `list_foreach_reverse`, but it reads `(*LIST)->prev` unguarded, so the
     * list must not be empty.
     */
    method ForeachBackwards() returns (visited: seq<Node>, cursor: Node?)
      requires Valid() && head != null
      ensures visited == Reversed(elems) && cursor == null
    {
      visited := [];
      cursor := head.prev;
      ghost var j: nat := |elems|;
      while cursor != null
        invariant j <= |elems| && visited == Reversed(elems[j..])
        invariant cursor == null ==> j == 0
        invariant cursor != null ==> 0 < j && cursor == elems[j - 1]
        decreases j
      {
        var node: Node := cursor;
        ghost var j' := j - 1;
        SplitAt(elems, j');
        ReversedCons(elems[j'], elems[j..]);
        Predecessor(j');
        visited := visited + [node];
        cursor := if node.prev == head.prev then null else node.prev;
        j := j';
      }
      assert elems[0..] == elems;
    }

    /**
     * One step of `list_foreach_safe`: the list is the kept part of the
     * visited members `done` followed by the unvisited ones `todo`, and the
     * cursor is `todo[0]`.  Its successor is fixed before the body runs, and
     * after the body the list has the same shape one member further on.
     */
    lemma SafeStep(done: seq<Node>, todo: seq<Node>, drop: Node -> bool)
      requires Valid() && todo != []
      requires elems == Kept(done, drop) + todo
      ensures todo[0] in elems && todo[0].prev in done + todo && todo[0].next in done + todo
      ensures todo[0].next == head <==> |todo| == 1
      ensures |todo| > 1 ==> todo[0].next == todo[1]
      ensures (done + [todo[0]]) + todo[1..] == done + todo
      ensures Kept(done + [todo[0]], drop) + todo[1..] ==
        if drop(todo[0]) then RemoveAt(elems, IndexOf(elems, todo[0])) else elems
    {
      var x := todo[0];
      var kept := Kept(done, drop);
      var rest := todo[1..];
      assert todo == [x] + rest;
      JoinAt(kept, x, rest);
      Successor(|kept|);
      Member(elems, |kept|);
      Linked(x);
      InKeptFront<Node>(done, todo, drop, x.prev);
      InKeptFront<Node>(done, todo, drop, x.next);
      KeptSnoc(done, x, drop);
      Assoc(done, [x], rest);
      if drop(x) {
        assert kept + [] == kept;
        IndexOfAt(elems, |kept|);
        RemoveAtJoin(kept, x, rest);
      } else {
        Assoc(kept, [x], rest);
      }
    }

    /**
     * `list_foreach_safe` with a body that removes the current node exactly
     * when `drop` selects it.  The successor is fixed before the body runs, so
     * every original member is visited once, in forward order.
     */
    method ForeachSafe(drop: Node -> bool) returns (visited: seq<Node>)
      requires Valid()
      modifies this, elems
      ensures Valid()
      ensures visited == old(elems)
      ensures elems == Kept(old(elems), drop)
    {
      ghost var orig := elems;
      ghost var todo := elems;
      visited := [];
      var cursor := head;
      var tmp: Node?;
      assert [] + orig == orig;
      while cursor != null
        invariant Valid()
        invariant visited + todo == orig
        invariant elems == Kept(visited, drop) + todo
        invariant cursor == null ==> todo == []
        invariant cursor != null ==> todo != [] && cursor == todo[0]
        decreases |todo|
      {
        var node: Node := cursor;
        SafeStep(visited, todo, drop);
        tmp := if node.next == head then null else node.next;
        visited := visited + [node];
        if drop(node) {
          Remove(node);
        }
        todo := todo[1..];
        cursor := tmp;
      }
      assert visited + [] == visited;
    }

    /**
     * One step of `list_foreach_reverse_safe`: the list is the unvisited
     * members `todo`, ending with the cursor, followed by the kept part of the
     * visited ones `done`.
     */
    lemma ReverseSafeStep(todo: seq<Node>, done: seq<Node>, drop: Node -> bool)
      requires Valid() && todo != []
      requires elems == todo + Kept(done, drop)
      ensures head != null
      ensures Last(todo) in elems && Last(todo).prev in todo + done && Last(todo).next in todo + done
      ensures Last(todo).prev == head.prev <==> |todo| == 1
      ensures |todo| > 1 ==> Last(todo).prev == Last(Front(todo))
      ensures Front(todo) + ([Last(todo)] + done) == todo + done
      ensures Front(todo) + Kept([Last(todo)] + done, drop) ==
        if drop(Last(todo)) then RemoveAt(elems, IndexOf(elems, Last(todo))) else elems
    {
      var k := |todo| - 1;
      var x := todo[k];
      var front := todo[..k];
      var later := Kept(done, drop);
      assert todo == front + [x];
      Assoc(front, [x], later);
      JoinAt(front, x, later);
      Predecessor(k);
      Member(elems, k);
      Linked(x);
      InKeptBack<Node>(todo, done, drop, x.prev);
      InKeptBack<Node>(todo, done, drop, x.next);
      Assoc(front, [x], done);
      KeptCons(x, done, drop);
      if drop(x) {
        assert [] + later == later;
        IndexOfAt(elems, k);
        RemoveAtJoin(front, x, later);
      }
    }

    /**
     * `list_foreach_reverse_safe` with a body that removes the current node
     * exactly when `drop` selects it.  The macro reads `(*LIST)->prev` with no
     * null check, so the list must not be empty.
     */
    method ForeachReverseSafe(drop: Node -> bool) returns (visited: seq<Node>)
      requires Valid() && head != null
      modifies this, elems
      ensures Valid()
      ensures visited == Reversed(old(elems))
      ensures elems == Kept(old(elems), drop)
    {
      ghost var orig := elems;
      ghost var todo := elems;
      ghost var done: seq<Node> := [];
      visited := [];
      var cursor := head.prev;
      var tmp: Node?;
      assert orig + [] == orig;
      while cursor != null
        invariant Valid()
        invariant todo + done == orig
        invariant visited == Reversed(done)
        invariant elems == todo + Kept(done, drop)
        invariant cursor == null ==> todo == []
        invariant cursor != null ==> todo != [] && cursor == Last(todo)
        decreases |todo|
      {
        var node: Node := cursor;
        ReverseSafeStep(todo, done, drop);
        ReversedCons(node, done);
        tmp := if node.prev == head.prev then null else node.prev;
        visited := visited + [node];
        if drop(node) {
          Remove(node);
        }
        todo := Front(todo);
        done := [node] + done;
        cursor := tmp;
      }
      assert [] + done == done;
    }

    /** The drain of src/example.c: a safe traversal whose body removes every node. */
    method DrainSafe() returns (visited: seq<Node>)
      requires Valid()
      modifies this, elems
      ensures Valid()
      ensures visited == old(elems)
      ensures elems == [] && head == null
    {
      var all := (x: Node) => true;
      visited := ForeachSafe(all);
      KeptAll(old(elems), all);
    }
  }
}
