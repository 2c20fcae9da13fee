/**
 * The counting helpers of src/avlist.c, which walk a list with
 * `list_foreach` and never change it.
 */
module AvList {
  import opened CircularList

  /** `_list_size`: one increment per member visited from the head. */
  method Size(l: List) returns (s: int)
    requires l.Valid()
    ensures s == |l.elems|
  {
    s := 0;
    var node := l.head;
    while node != null
      invariant 0 <= s <= |l.elems|
      invariant node == null ==> s == |l.elems|
      invariant node != null ==> s < |l.elems| && node == l.elems[s]
      decreases |l.elems| - s
    {
      l.Successor(s);
      s := s + 1;
      node := if node.next == l.head then null else node.next;
    }
  }

  /**
   * `_list_get`: the member at position `index` counted from the head, and
   * null when `index` is negative or not less than the size, because then
   * the walk never breaks and ends with a null cursor.
   */
  method Get(l: List, index: int) returns (node: Node?)
    requires l.Valid()
    ensures 0 <= index < |l.elems| ==> node == l.elems[index]
    ensures !(0 <= index < |l.elems|) ==> node == null
  {
    var i := 0;
    node := l.head;
    while node != null
      invariant 0 <= i <= |l.elems|
      invariant 0 <= index ==> i <= index
      invariant node == null ==> i == |l.elems|
      invariant node != null ==> i < |l.elems| && node == l.elems[i]
      decreases |l.elems| - i
    {
      if i == index {
        break;
      }
      l.Successor(i);
      i := i + 1;
      node := if node.next == l.head then null else node.next;
    }
  }
}
