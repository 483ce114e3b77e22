/** Iteration orders of a finite set: what a range over a map can come up with. */
module Orders {

  /** Every element of the set, once. */
  ghost predicate Enumerates<T(!new)>(order: seq<T>, s: set<T>) {
    && (forall m :: m in order <==> m in s)
    && (forall i, j :: 0 <= i < j < |order| ==> order[i] != order[j])
  }

  lemma EnumerateMore<T(!new)>(order: seq<T>, s: set<T>, m: T)
    requires Enumerates(order, s) && m !in s
    ensures Enumerates(order + [m], s + {m})
  {
  }

  /** Some order of the elements left, after those already seen. */
  lemma Complete<T(!new)>(seen: seq<T>, s: set<T>, left: set<T>) returns (rest: seq<T>)
    requires Enumerates(seen, s) && s !! left
    ensures Enumerates(seen + rest, s + left)
    decreases left
  {
    if left == {} {
      rest := [];
      assert seen + rest == seen && s + left == s;
    } else {
      var m :| m in left;
      EnumerateMore(seen, s, m);
      var more := Complete(seen + [m], s + {m}, left - {m});
      rest := [m] + more;
      assert seen + rest == seen + [m] + more;
      assert s + {m} + (left - {m}) == s + left;
    }
  }

  function Without<T>(s: seq<T>, i: nat): seq<T>
    requires i < |s|
  {
    s[..i] + s[i + 1..]
  }

  /** An order of a set without one of its elements. */
  lemma EnumerateLess<T(!new)>(order: seq<T>, s: set<T>, i: nat)
    requires Enumerates(order, s) && i < |order|
    ensures Enumerates(Without(order, i), s - {order[i]})
  {
    var less := Without(order, i);
    assert forall k :: 0 <= k < |less| ==> less[k] == if k < i then order[k] else order[k + 1];
    forall m | m in s - {order[i]} ensures m in less {
      var k :| 0 <= k < |order| && order[k] == m;
      assert less[if k < i then k else k - 1] == m;
    }
  }

  lemma SameTwice<T(!new)>(order: seq<T>, m: T)
    requires |order| > 1
    ensures (forall k :: 0 <= k < |order| ==> order[k] == m) ==> order[0] == order[1]
  {
  }

  /** A set of one element has one order. */
  lemma EnumerateOne<T(!new)>(order: seq<T>, m: T)
    requires Enumerates(order, {m})
    ensures order == [m]
  {
    assert m in order;
    assert forall k :: 0 <= k < |order| ==> order[k] in order;
    if |order| > 1 {
      SameTwice(order, m);
    }
  }
}
