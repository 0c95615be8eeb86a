/**
 * The before/after comparison of QA runs around a fix: the latest run at or before the fix, and
 * the latest later run of the same flow.
 */
module QaComparison {
  import opened Options
  import opened Sequences
  import Separators

  // Text fields are after trimming; `createdAt` is the parsed time in milliseconds, None when
  // the text is not a date.
  datatype Run = Run(
    createdAt: Option<int>,
    runnerType: string,
    baseUrl: string,
    loopId: string,
    route: string,
    goal: string,
    flowKey: string,
    pass: bool)

  datatype Status = NeedsRerun | Fixed | StillBroken | Regressed | StillPassing

  datatype Comparison = Comparison(status: Status, flowKey: string, before: Run, after: Option<Run>)

  function Timestamp(run: Run): int {
    run.createdAt.GetOr(0)
  }

  function FlowKey(run: Run): string {
    if run.flowKey != "" then run.flowKey
    else run.runnerType + "\0" + run.baseUrl + "\0" + run.loopId + "\0" + run.route + "\0" + run.goal
  }

  function ByLatest(): Run -> int {
    (run: Run) => -Timestamp(run)
  }

  function BeforeFix(fixTime: int): Run -> bool {
    (run: Run) => Timestamp(run) <= fixTime
  }

  function AfterFix(fixTime: int, flow: string): Run -> bool {
    (run: Run) => Timestamp(run) > fixTime && FlowKey(run) == flow
  }

  function Verdict(before: Run, after: Option<Run>): Status {
    match after
    case None => NeedsRerun
    case Some(rerun) =>
      if !before.pass && rerun.pass then Fixed
      else if !before.pass && !rerun.pass then StillBroken
      else if before.pass && !rerun.pass then Regressed
      else StillPassing
  }

  // `fixCompletedAt` is None when it is missing or not a date.
  function BuildQaPostFixComparison(runs: seq<Run>, fixCompletedAt: Option<int>): Option<Comparison> {
    if fixCompletedAt.None? || runs == [] then None else
      var fixTime := fixCompletedAt.value;
      var sorted := StableSort(runs, ByLatest());
      var before := Find(sorted, BeforeFix(fixTime));
      if before.None? then None else
        var flow := FlowKey(before.value);
        var after := Find(sorted, AfterFix(fixTime, flow));
        Some(Comparison(Verdict(before.value, after), flow, before.value, after))
  }

  // ----- what the comparison says -----

  // Written out on the runs: `run` is a latest one at or before the fix. A run whose time is
  // missing or not a date counts as one of time zero.
  ghost predicate LatestBefore(runs: seq<Run>, fixTime: int, run: Run) {
    && run in runs && run.createdAt.GetOr(0) <= fixTime
    && forall other :: other in runs && other.createdAt.GetOr(0) <= fixTime ==>
         other.createdAt.GetOr(0) <= run.createdAt.GetOr(0)
  }

  // `run` is a latest one after the fix of the same flow as `before`.
  ghost predicate LatestRerun(runs: seq<Run>, fixTime: int, before: Run, run: Run) {
    && run in runs && run.createdAt.GetOr(0) > fixTime && FlowKey(run) == FlowKey(before)
    && forall other :: other in runs && other.createdAt.GetOr(0) > fixTime && FlowKey(other) == FlowKey(before) ==>
         other.createdAt.GetOr(0) <= run.createdAt.GetOr(0)
  }

  // For every history and fix time.
  lemma ComparisonMeansLatestRuns(runs: seq<Run>, fixTime: int)
    ensures var r := BuildQaPostFixComparison(runs, Some(fixTime));
      // there is a comparison exactly when some run is at or before the fix
      && (r.Some? <==> exists run :: run in runs && run.createdAt.GetOr(0) <= fixTime)
      && (r.Some? ==>
            var c := r.value;
            && LatestBefore(runs, fixTime, c.before)
            && c.flowKey == FlowKey(c.before)
            // it asks for a rerun exactly when no later run of the same flow exists
            && (c.status == NeedsRerun <==>
                  !exists run :: run in runs && run.createdAt.GetOr(0) > fixTime && FlowKey(run) == FlowKey(c.before))
            && (c.status == NeedsRerun <==> c.after.None?)
            && (c.after.Some? ==>
                  && LatestRerun(runs, fixTime, c.before, c.after.value)
                  && (c.status == Fixed <==> !c.before.pass && c.after.value.pass)
                  && (c.status == StillBroken <==> !c.before.pass && !c.after.value.pass)
                  && (c.status == Regressed <==> c.before.pass && !c.after.value.pass)
                  && (c.status == StillPassing <==> c.before.pass && c.after.value.pass)))
    ensures BuildQaPostFixComparison(runs, None) == None
  {
    FindAfterSort(runs, BeforeFix(fixTime), ByLatest());
    var r := BuildQaPostFixComparison(runs, Some(fixTime));
    if r.Some? {
      FindAfterSort(runs, AfterFix(fixTime, r.value.flowKey), ByLatest());
    }
  }

  // ----- what a flow key tells apart -----

  ghost predicate NulFree(run: Run) {
    && '\0' !in run.runnerType && '\0' !in run.baseUrl && '\0' !in run.loopId
    && '\0' !in run.route && '\0' !in run.flowKey
  }

  lemma JoinedFields(run: Run)
    requires run.flowKey == ""
    ensures FlowKey(run) ==
              Separators.Join('\0', run.runnerType,
                Separators.Join('\0', run.baseUrl,
                  Separators.Join('\0', run.loopId, Separators.Join('\0', run.route, run.goal))))
    ensures '\0' in FlowKey(run)
  {
    assert FlowKey(run)[|run.runnerType|] == '\0';
  }

  // Runs are of one flow exactly when both have the same explicit key, or neither has one and the
  // five describing fields agree. (A NUL in a field could blur the fields; the goal comes last.)
  lemma FlowKeyExactly(a: Run, b: Run)
    requires NulFree(a) && NulFree(b)
    ensures FlowKey(a) == FlowKey(b) <==>
              if a.flowKey != "" || b.flowKey != "" then a.flowKey == b.flowKey
              else && a.runnerType == b.runnerType && a.baseUrl == b.baseUrl && a.loopId == b.loopId
                   && a.route == b.route && a.goal == b.goal
  {
    if a.flowKey == "" {
      JoinedFields(a);
    }
    if b.flowKey == "" {
      JoinedFields(b);
    }
    if a.flowKey == "" && b.flowKey == "" && FlowKey(a) == FlowKey(b) {
      var a4, b4 := Separators.Join('\0', a.route, a.goal), Separators.Join('\0', b.route, b.goal);
      var a3, b3 := Separators.Join('\0', a.loopId, a4), Separators.Join('\0', b.loopId, b4);
      var a2, b2 := Separators.Join('\0', a.baseUrl, a3), Separators.Join('\0', b.baseUrl, b3);
      Separators.SplitsOnce('\0', a.runnerType, a2, b.runnerType, b2);
      Separators.SplitsOnce('\0', a.baseUrl, a3, b.baseUrl, b3);
      Separators.SplitsOnce('\0', a.loopId, a4, b.loopId, b4);
      Separators.SplitsOnce('\0', a.route, a.goal, b.route, b.goal);
    }
  }

  // On equal timestamps the run listed first wins: sort-and-find is one scan of the list.
  lemma ComparisonIsOneScan(runs: seq<Run>, fixTime: int)
    requires runs != []
    ensures BuildQaPostFixComparison(runs, Some(fixTime)) ==
              var before := Best(runs, BeforeFix(fixTime), ByLatest());
              if before.None? then None else
                var flow := FlowKey(before.value);
                var after := Best(runs, AfterFix(fixTime, flow), ByLatest());
                Some(Comparison(Verdict(before.value, after), flow, before.value, after))
  {
    FindAfterSort(runs, BeforeFix(fixTime), ByLatest());
    var before := Best(runs, BeforeFix(fixTime), ByLatest());
    if before.Some? {
      FindAfterSort(runs, AfterFix(fixTime, FlowKey(before.value)), ByLatest());
    }
  }

  // With distinct timestamps, permuting the history changes nothing.
  lemma ComparisonIgnoresOrder(runs: seq<Run>, shuffled: seq<Run>, fixCompletedAt: Option<int>)
    requires multiset(runs) == multiset(shuffled)
    requires forall i, j :: 0 <= i < j < |runs| ==> Timestamp(runs[i]) != Timestamp(runs[j])
    ensures BuildQaPostFixComparison(runs, fixCompletedAt) == BuildQaPostFixComparison(shuffled, fixCompletedAt)
  {
    if runs == [] {
      assert |multiset(shuffled)| == 0;
    } else {
      assert runs[0] in multiset(shuffled);
      if fixCompletedAt.Some? {
        var fixTime := fixCompletedAt.value;
        ComparisonIsOneScan(runs, fixTime);
        ComparisonIsOneScan(shuffled, fixTime);
        assert DistinctBy(runs, ByLatest());
        BestIgnoresOrder(runs, shuffled, BeforeFix(fixTime), ByLatest());
        var before := Best(runs, BeforeFix(fixTime), ByLatest());
        if before.Some? {
          BestIgnoresOrder(runs, shuffled, AfterFix(fixTime, FlowKey(before.value)), ByLatest());
        }
      }
    }
  }

  // Distinctness is needed: two runs of the same moment, in either order, decide differently.
  lemma TiedRunsDependOnOrder()
    ensures exists a: Run, b: Run, fixTime: int ::
              BuildQaPostFixComparison([a, b], Some(fixTime)) != BuildQaPostFixComparison([b, a], Some(fixTime))
  {
    var a := Run(Some(5), "", "", "", "", "", "flow", true);
    var b := a.(pass := false);
    ComparisonIsOneScan([a, b], 5);
    ComparisonIsOneScan([b, a], 5);
    assert [a, b][1..] == [b] && [b, a][1..] == [a];
    assert Best([b], BeforeFix(5), ByLatest()) == Some(b);
    assert Best([a], BeforeFix(5), ByLatest()) == Some(a);
    assert BuildQaPostFixComparison([a, b], Some(5)).value.before == a;
    assert BuildQaPostFixComparison([b, a], Some(5)).value.before == b;
  }
}
