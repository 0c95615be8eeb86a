/** What can be reached from a starting point along the steps of a relation. */
module Reachability {
  ghost predicate Path<T(!new)>(step: (T, T) -> bool, start: T, path: seq<T>, end: T) {
    && path != [] && path[0] == start && path[|path| - 1] == end
    && forall i :: 0 <= i < |path| - 1 ==> step(path[i], path[i + 1])
  }

  ghost predicate Reachable<T(!new)>(step: (T, T) -> bool, start: T, end: T) {
    exists path :: Path(step, start, path, end)
  }

  ghost predicate ClosedUnder<T(!new)>(step: (T, T) -> bool, s: set<T>) {
    forall a, b :: a in s && step(a, b) ==> b in s
  }

  lemma ReachesItself<T(!new)>(step: (T, T) -> bool, start: T)
    ensures Reachable(step, start, start)
  {
    assert Path(step, start, [start], start);
  }

  lemma ReachesFurther<T(!new)>(step: (T, T) -> bool, start: T, a: T, b: T)
    requires Reachable(step, start, a) && step(a, b)
    ensures Reachable(step, start, b)
  {
    var path :| Path(step, start, path, a);
    assert Path(step, start, path + [b], b);
  }

  // Whatever is reached beyond the start is reached from something reached.
  lemma ReachedFrom<T(!new)>(step: (T, T) -> bool, start: T, end: T) returns (from: T)
    requires Reachable(step, start, end) && end != start
    ensures Reachable(step, start, from) && step(from, end)
  {
    var path :| Path(step, start, path, end);
    from := path[|path| - 2];
    assert Path(step, start, path[..|path| - 1], from);
  }

  lemma {:induction false} PathStaysInside<T(!new)>(step: (T, T) -> bool, start: T, path: seq<T>, end: T, s: set<T>)
    requires start in s && ClosedUnder(step, s) && Path(step, start, path, end)
    ensures end in s
    decreases |path|
  {
    if |path| > 1 {
      var shorter := path[..|path| - 1];
      assert Path(step, start, shorter, path[|path| - 2]);
      PathStaysInside(step, start, shorter, path[|path| - 2], s);
      assert step(path[|path| - 2], path[|path| - 1]);
    }
  }

  // A closed set holding the start holds all that can be reached.
  lemma ClosedSetsHoldAll<T(!new)>(step: (T, T) -> bool, start: T, s: set<T>)
    requires start in s && ClosedUnder(step, s)
    ensures forall end :: Reachable(step, start, end) ==> end in s
  {
    forall end | Reachable(step, start, end)
      ensures end in s
    {
      var path :| Path(step, start, path, end);
      PathStaysInside(step, start, path, end, s);
    }
  }

  lemma SameSteps<T(!new)>(step: (T, T) -> bool, other: (T, T) -> bool, start: T)
    requires forall a, b :: step(a, b) ==> other(a, b)
    ensures forall end :: Reachable(step, start, end) ==> Reachable(other, start, end)
  {
    forall end | Reachable(step, start, end)
      ensures Reachable(other, start, end)
    {
      var path :| Path(step, start, path, end);
      assert Path(other, start, path, end);
    }
  }
}
