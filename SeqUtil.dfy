/** Sequence vocabulary used to state what the list operations do to the forward order. */
module SeqUtil {

  /**
   * No element occurs twice in `s`.  Stated one element at a time so that the
   * solver unfolds it only as far as a proof asks; `DistinctElim` and
   * `DistinctIntro` relate it to the pairwise statement.
   */
  ghost predicate Distinct<T>(s: seq<T>) {
    s == [] || (s[0] !in s[1..] && Distinct(s[1..]))
  }

  lemma {:induction false} DistinctElim<T>(s: seq<T>)
    requires Distinct(s)
    ensures forall i, j :: 0 <= i < j < |s| ==> s[i] != s[j]
  {
    if s != [] {
      DistinctElim(s[1..]);
      forall i, j | 0 <= i < j < |s| ensures s[i] != s[j] {
        assert s[j] == s[1..][j - 1];
        if 0 < i {
          assert s[i] == s[1..][i - 1];
        }
      }
    }
  }

  lemma {:induction false} DistinctIntro<T>(s: seq<T>)
    requires forall i, j :: 0 <= i < j < |s| ==> s[i] != s[j]
    ensures Distinct(s)
  {
    if s != [] {
      forall i, j | 0 <= i < j < |s[1..]| ensures s[1..][i] != s[1..][j] {
        assert s[1..][i] == s[i + 1] && s[1..][j] == s[j + 1];
      }
      DistinctIntro(s[1..]);
      forall i | 0 <= i < |s[1..]| ensures s[1..][i] != s[0] {
        assert s[1..][i] == s[i + 1];
      }
    }
  }

  lemma DistinctAt<T>(s: seq<T>, i: nat, j: nat)
    requires Distinct(s) && i < |s| && j < |s| && i != j
    ensures s[i] != s[j]
  {
    DistinctElim(s);
  }

  /** Appending a new element keeps a sequence distinct. */
  lemma DistinctSnoc<T>(s: seq<T>, x: T)
    requires Distinct(s) && x !in s
    ensures Distinct(s + [x])
  {
    DistinctElim(s);
    forall i, j | 0 <= i < j < |s + [x]| ensures (s + [x])[i] != (s + [x])[j] {
      if j == |s| {
        assert (s + [x])[i] == s[i];
      }
    }
    DistinctIntro(s + [x]);
  }

  /** Prepending a new element keeps a sequence distinct. */
  lemma DistinctCons<T>(x: T, s: seq<T>)
    requires Distinct(s) && x !in s
    ensures Distinct([x] + s)
  {
    assert ([x] + s)[1..] == s;
  }

  /** Removing one element keeps a sequence distinct. */
  lemma DistinctRemoveAt<T>(s: seq<T>, k: nat)
    requires Distinct(s) && k < |s|
    ensures Distinct(RemoveAt(s, k))
  {
    DistinctElim(s);
    var r := RemoveAt(s, k);
    assert |r| == |s| - 1;
    assert forall i :: 0 <= i < k ==> r[i] == s[i];
    assert forall i :: k <= i < |r| ==> r[i] == s[i + 1];
    DistinctIntro(r);
  }

  /** The position of the first occurrence of `x` in `s`. */
  ghost function IndexOf<T>(s: seq<T>, x: T): (k: nat)
    requires x in s
    ensures k < |s| && s[k] == x
  {
    if s[0] == x then 0 else 1 + IndexOf(s[1..], x)
  }

  /** `s` without the element at position `k`. */
  ghost function RemoveAt<T>(s: seq<T>, k: nat): (r: seq<T>)
    requires k < |s|
  {
    s[..k] + s[k + 1..]
  }

  lemma Member<T>(s: seq<T>, i: nat)
    requires i < |s|
    ensures s[i] in s
  {
  }

  /** In a distinct sequence the first occurrence of `s[i]` is position i. */
  lemma IndexOfAt<T>(s: seq<T>, i: nat)
    requires Distinct(s) && i < |s|
    ensures IndexOf(s, s[i]) == i
  {
    var j := IndexOf(s, s[i]);
    if j != i {
      DistinctAt(s, i, j);
    }
  }

  /** Removing the element between `a` and `b` leaves `a + b`. */
  lemma RemoveAtJoin<T>(a: seq<T>, x: T, b: seq<T>)
    ensures RemoveAt(a + ([x] + b), |a|) == a + b
  {
    assert (a + ([x] + b))[..|a|] == a;
    assert (a + ([x] + b))[|a| + 1..] == b;
  }

  /** Splitting a sequence around position k. */
  lemma SplitAt<T>(s: seq<T>, k: nat)
    requires k < |s|
    ensures s[k..] == [s[k]] + s[k + 1..]
    ensures s[..k + 1] == s[..k] + [s[k]]
  {
  }

  /** Positions around `x` in `a + ([x] + b)`. */
  lemma JoinAt<T>(a: seq<T>, x: T, b: seq<T>)
    ensures |a + ([x] + b)| == |a| + 1 + |b|
    ensures (a + ([x] + b))[|a|] == x
    ensures b != [] ==> (a + ([x] + b))[|a| + 1] == b[0]
    ensures a != [] ==> (a + ([x] + b))[|a| - 1] == a[|a| - 1]
  {
  }

  lemma Assoc<T>(a: seq<T>, b: seq<T>, c: seq<T>)
    ensures a + (b + c) == (a + b) + c
  {
  }

  /** The last element of a non-empty sequence. */
  function Last<T>(s: seq<T>): (x: T)
    requires s != []
  {
    s[|s| - 1]
  }

  /** All but the last element of a non-empty sequence. */
  function Front<T>(s: seq<T>): (r: seq<T>)
    requires s != []
    ensures |r| == |s| - 1
  {
    s[..|s| - 1]
  }

  /** `s` read back to front. */
  function Reversed<T>(s: seq<T>): (r: seq<T>)
    ensures |r| == |s|
  {
    if s == [] then [] else Reversed(s[1..]) + [s[0]]
  }

  lemma {:induction false} ReversedAt<T>(s: seq<T>, i: nat)
    requires i < |s|
    ensures Reversed(s)[i] == s[|s| - 1 - i]
  {
    if i < |s| - 1 {
      ReversedAt(s[1..], i);
    }
  }

  /** Reversing a sequence that grows at the front extends its reversal at the back. */
  lemma ReversedCons<T>(x: T, s: seq<T>)
    ensures Reversed([x] + s) == Reversed(s) + [x]
  {
    assert ([x] + s)[1..] == s;
  }

  /** The elements of `s` that `drop` does not select, in their original order. */
  ghost function Kept<T>(s: seq<T>, drop: T -> bool): (r: seq<T>)
    ensures |r| <= |s|
    ensures forall x :: x in r ==> x in s && !drop(x)
    ensures forall x :: x in s && !drop(x) ==> x in r
  {
    if s == [] then [] else (if drop(s[0]) then [] else [s[0]]) + Kept(s[1..], drop)
  }

  lemma KeptSnoc<T>(a: seq<T>, x: T, drop: T -> bool)
    ensures Kept(a + [x], drop) == Kept(a, drop) + (if drop(x) then [] else [x])
  {
    KeptConcat(a, [x], drop);
    assert [x][1..] == [];
  }

  lemma KeptCons<T>(x: T, b: seq<T>, drop: T -> bool)
    ensures Kept([x] + b, drop) == (if drop(x) then [] else [x]) + Kept(b, drop)
  {
    assert ([x] + b)[1..] == b;
  }

  /** Anything in `a` filtered, followed by `b`, is in `a + b`. */
  lemma InKeptFront<T>(a: seq<T>, b: seq<T>, drop: T -> bool, x: T)
    requires x in Kept(a, drop) + b
    ensures x in a + b
  {
    if x in Kept(a, drop) {
      var i :| 0 <= i < |a| && a[i] == x;
      assert (a + b)[i] == x;
    } else {
      var i :| 0 <= i < |b| && b[i] == x;
      assert (a + b)[|a| + i] == x;
    }
  }

  /** Anything in `a`, followed by `b` filtered, is in `a + b`. */
  lemma InKeptBack<T>(a: seq<T>, b: seq<T>, drop: T -> bool, x: T)
    requires x in a + Kept(b, drop)
    ensures x in a + b
  {
    if x in a {
      var i :| 0 <= i < |a| && a[i] == x;
      assert (a + b)[i] == x;
    } else {
      assert x in b;
      var i :| 0 <= i < |b| && b[i] == x;
      assert (a + b)[|a| + i] == x;
    }
  }

  /** Dropping every element leaves nothing. */
  lemma {:induction false} KeptAll<T>(s: seq<T>, drop: T -> bool)
    requires forall x :: x in s ==> drop(x)
    ensures Kept(s, drop) == []
  {
    if s != [] {
      assert forall x :: x in s[1..] ==> x in s;
      KeptAll(s[1..], drop);
    }
  }

  lemma {:induction false} KeptConcat<T>(a: seq<T>, b: seq<T>, drop: T -> bool)
    ensures Kept(a + b, drop) == Kept(a, drop) + Kept(b, drop)
  {
    if a == [] {
      assert a + b == b;
    } else {
      assert (a + b)[0] == a[0] && (a + b)[1..] == a[1..] + b;
      KeptConcat(a[1..], b, drop);
      Assoc((if drop(a[0]) then [] else [a[0]]), Kept(a[1..], drop), Kept(b, drop));
    }
  }
}
