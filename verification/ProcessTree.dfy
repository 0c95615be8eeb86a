/**
 * The browser process snapshot: from parsed process rows, the set of descendants of a root
 * process is grown by sweeping the rows until a sweep adds nothing, then the Chromium rows in
 * that set are counted and their memory added up.
 */
module ProcessTree {
  import opened Reachability
  import opened Sequences
  import Permutations

  // `chromium` is the verdict of the command-name test.
  datatype Row = Row(pid: nat, parentPid: nat, rssBytes: nat, chromium: bool)

  // ----- what the descendant set should be -----

  // Some row makes child a child of parent.
  ghost function Links(rows: seq<Row>): (nat, nat) -> bool {
    (parent, child) => exists r :: r in rows && r.parentPid == parent && r.pid == child
  }

  // A chain of parent links leads from the pid up to the root.
  ghost predicate Descends(rows: seq<Row>, root: nat, pid: nat) {
    Reachable(Links(rows), root, pid)
  }

  ghost predicate Closed(rows: seq<Row>, d: set<nat>) {
    forall r :: r in rows && r.parentPid in d ==> r.pid in d
  }

  // ----- counting -----

  function ChromiumCount(rows: seq<Row>, d: set<nat>): nat {
    if rows == [] then 0
    else (if rows[0].pid in d && rows[0].chromium then 1 else 0) + ChromiumCount(rows[1..], d)
  }

  function ChromiumRss(rows: seq<Row>, d: set<nat>): nat {
    if rows == [] then 0
    else (if rows[0].pid in d && rows[0].chromium then rows[0].rssBytes else 0) + ChromiumRss(rows[1..], d)
  }

  // ----- the snapshot -----

  // Exactly the reachable pids, for every row list: cycles, duplicate pids and a root without
  // a row included.
  method BrowserProcessSnapshot(rows: seq<Row>, rootPid: nat)
    returns (processCount: nat, rssBytes: nat, descendants: set<nat>)
    ensures forall pid :: pid in descendants <==> Descends(rows, rootPid, pid)
    // row by row: the root, every row below one that is in, and nothing else
    ensures rootPid in descendants
    ensures forall r :: r in rows && r.parentPid in descendants ==> r.pid in descendants
    ensures forall pid :: pid in descendants && pid != rootPid ==>
              exists r :: r in rows && r.pid == pid && r.parentPid in descendants
    ensures processCount == ChromiumCount(rows, descendants)
    ensures rssBytes == ChromiumRss(rows, descendants)
  {
    descendants := {rootPid};
    ghost var pids := set r | r in rows :: r.pid;
    ReachesItself(Links(rows), rootPid);
    var changed := true;
    while changed
      invariant rootPid in descendants
      invariant forall pid :: pid in descendants ==> Descends(rows, rootPid, pid)
      invariant !changed ==> Closed(rows, descendants)
      decreases pids - descendants, changed
    {
      changed := false;
      ghost var before := descendants;
      for i := 0 to |rows|
        invariant before <= descendants
        invariant forall pid :: pid in descendants ==> Descends(rows, rootPid, pid)
        invariant changed ==> pids - descendants < pids - before
        invariant !changed ==> descendants == before
        invariant !changed ==> forall k :: 0 <= k < i && rows[k].parentPid in descendants ==> rows[k].pid in descendants
      {
        var row := rows[i];
        if row.parentPid in descendants && row.pid !in descendants {
          assert row in rows;
          ReachesFurther(Links(rows), rootPid, row.parentPid, row.pid);
          descendants := descendants + {row.pid};
          changed := true;
          assert row.pid in pids;
          assert row.pid in pids - before && row.pid !in pids - descendants;
        }
      }
    }
    ClosedSetsHoldAll(Links(rows), rootPid, descendants);
    forall pid | pid in descendants && pid != rootPid
      ensures exists r :: r in rows && r.pid == pid && r.parentPid in descendants
    {
      var parent := ReachedFrom(Links(rows), rootPid, pid);
    }
    processCount := ChromiumCount(rows, descendants);
    rssBytes := ChromiumRss(rows, descendants);
  }

  // ----- what the totals add up -----

  // The rows counted.
  function Counted(d: set<nat>): Row -> bool {
    (r: Row) => r.chromium && r.pid in d
  }

  // The count is the number of Chromium rows in the set; the memory is theirs, row by row.
  lemma {:induction false} TotalsMean(rows: seq<Row>, d: set<nat>)
    ensures ChromiumCount(rows, d) == |Filter(rows, Counted(d))|
    ensures rows != [] ==>
              ChromiumRss(rows, d) == ChromiumRss(rows[1..], d) + if Counted(d)(rows[0]) then rows[0].rssBytes else 0
    ensures ChromiumRss([], d) == 0
    ensures (forall r :: r in rows ==> !Counted(d)(r)) ==> ChromiumRss(rows, d) == 0
  {
    if rows != [] {
      TotalsMean(rows[1..], d);
      assert Filter(rows, Counted(d))
          == (if Counted(d)(rows[0]) then [rows[0]] else []) + Filter(rows[1..], Counted(d));
    }
  }

  // ----- the order of the rows does not matter -----

  lemma {:induction false} TotalsMove(before: seq<Row>, r: Row, after: seq<Row>, d: set<nat>)
    ensures ChromiumCount(before + [r] + after, d) == ChromiumCount([r] + (before + after), d)
    ensures ChromiumRss(before + [r] + after, d) == ChromiumRss([r] + (before + after), d)
  {
    assert ([r] + (before + after))[1..] == before + after;
    if before == [] {
      assert before + [r] + after == [r] + (before + after);
    } else {
      TotalsMove(before[1..], r, after, d);
      assert (before + [r] + after)[1..] == before[1..] + [r] + after;
      assert (before + after)[1..] == before[1..] + after;
      assert ([r] + (before[1..] + after))[1..] == before[1..] + after;
    }
  }

  lemma {:induction false} TotalsIgnoreOrder(rows: seq<Row>, shuffled: seq<Row>, d: set<nat>)
    requires multiset(rows) == multiset(shuffled)
    ensures ChromiumCount(rows, d) == ChromiumCount(shuffled, d)
    ensures ChromiumRss(rows, d) == ChromiumRss(shuffled, d)
    decreases |rows|
  {
    if rows == [] {
      assert |multiset(shuffled)| == 0;
    } else {
      var k := Permutations.Extract(rows, shuffled);
      var before, after := shuffled[..k], shuffled[k + 1..];
      TotalsMove(before, rows[0], after, d);
      TotalsIgnoreOrder(rows[1..], before + after, d);
      assert ([rows[0]] + (before + after))[1..] == before + after;
    }
  }

  // Set, count and memory total are the same for every order of the rows.
  lemma SnapshotIgnoresRowOrder(rows: seq<Row>, shuffled: seq<Row>, root: nat, d: set<nat>, e: set<nat>)
    requires multiset(rows) == multiset(shuffled)
    requires forall pid :: pid in d <==> Descends(rows, root, pid)
    requires forall pid :: pid in e <==> Descends(shuffled, root, pid)
    ensures d == e
    ensures ChromiumCount(rows, d) == ChromiumCount(shuffled, e)
    ensures ChromiumRss(rows, d) == ChromiumRss(shuffled, e)
  {
    assert forall r :: r in rows <==> r in multiset(rows);
    assert forall r :: r in shuffled <==> r in multiset(shuffled);
    SameSteps(Links(rows), Links(shuffled), root);
    SameSteps(Links(shuffled), Links(rows), root);
    TotalsIgnoreOrder(rows, shuffled, d);
  }
}
