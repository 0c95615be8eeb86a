/** Two lists with the same elements, as needed by the order-independence results. */
module Permutations {
  // Where the first element of one list sits in the other, and that the rests still agree.
  lemma Extract<T>(left: seq<T>, right: seq<T>) returns (k: nat)
    requires multiset(left) == multiset(right) && left != []
    ensures k < |right| && right[k] == left[0]
    ensures right == right[..k] + [left[0]] + right[k + 1..]
    ensures multiset(left[1..]) == multiset(right[..k] + right[k + 1..])
  {
    var x := left[0];
    assert left == [x] + left[1..];
    assert x in multiset(right);
    k :| 0 <= k < |right| && right[k] == x;
    var front, back := right[..k], right[k + 1..];
    assert right == front + [x] + back;
    calc {
      multiset(left[1..]) + multiset{x};
      multiset([x] + left[1..]);
      multiset(front + [x] + back);
      multiset(front) + multiset{x} + multiset(back);
      multiset(front + back) + multiset{x};
    }
    SameRest(multiset(left[1..]), multiset(front + back), x);
  }

  lemma SameRest<T>(a: multiset<T>, b: multiset<T>, x: T)
    requires a + multiset{x} == b + multiset{x}
    ensures a == b
  {
    assert (a + multiset{x}) - multiset{x} == a;
    assert (b + multiset{x}) - multiset{x} == b;
  }
}
