/**
 * The claim check of the verification timeline: nine independent detectors and one fallback
 * each contribute anchors; the anchors are sorted by severity, cut to four, and turned into a
 * verdict. An anchor is reduced to the detector that raised it and its status.
 */
module ClaimCheck {
  import opened Options
  import opened Sequences
  import opened QaComparison

  datatype AnchorStatus = Passed | Failed | Stale | Unknown

  datatype Gap =
    | CommandFailedOrStale
    | CommandUnknown
    | AgentClaim
    | EvidenceMissing
    | LatestQaFailed
    | ScopeDrift
    | EditsWithoutEvidence
    | ComparisonOpen
    | PostFixQaMissing
    | ExecutableProofMissing

  datatype Anchor = Anchor(gap: Gap, status: AnchorStatus)

  // `verification` is the verdict of the command-label test on the command text.
  datatype CommandSignal = CommandSignal(status: Option<AnchorStatus>, verification: bool)

  datatype CommandAnchor = CommandAnchor(status: AnchorStatus, verification: bool)

  // `positive` is the verdict of the positive-claim test on the claim text.
  datatype Claim = Claim(positive: bool)

  // Paths are after normalisation.
  datatype Review = Review(findingsCount: int, findingPaths: seq<string>, firstFindingPath: string)

  datatype FixResult = FixResult(success: Option<bool>, changedFiles: Option<int>, changedFileOrigins: seq<string>)

  datatype Input = Input(
    review: Option<Review>,
    latestQaPassed: Option<bool>,
    comparison: Option<Status>,
    reproduced: int,
    fixed: int,
    notReproduced: int,
    fixResult: Option<FixResult>,
    commandSignals: seq<CommandSignal>,
    agentClaims: seq<Claim>)

  datatype Verdict = Done | Active | Blocked | Idle

  // ----- the pieces -----

  function CommandAnchors(signals: seq<CommandSignal>): seq<CommandAnchor> {
    Map(Take(signals, 4), (s: CommandSignal) => CommandAnchor(s.status.GetOr(Unknown), s.verification))
  }

  function EvidenceTotal(input: Input): int {
    input.reproduced + input.fixed + input.notReproduced
  }

  function Max0(n: int): nat {
    if n > 0 then n else 0
  }

  function FindingsCount(input: Input): nat {
    if input.review.Some? then Max0(input.review.value.findingsCount) else 0
  }

  function ComparisonVerdict(status: Status): Verdict {
    match status
    case Fixed => Done
    case StillPassing => Done
    case NeedsRerun => Active
    case StillBroken => Blocked
    case Regressed => Blocked
  }

  predicate ComparisonDone(input: Input) {
    input.comparison.Some? && ComparisonVerdict(input.comparison.value) == Done
  }

  function PassedCommandCount(commands: seq<CommandAnchor>): nat {
    |Filter(commands, (c: CommandAnchor) => c.status == Passed && c.verification)|
  }

  function QaProofCount(input: Input): nat {
    (if input.latestQaPassed == Some(true) then 1 else 0) + (if ComparisonDone(input) then 1 else 0)
  }

  function ReviewedPaths(input: Input): set<string> {
    if input.review.None? then {} else
      var paths := input.review.value.findingPaths + [input.review.value.firstFindingPath];
      set p | p in paths && p != ""
  }

  function ChangedPaths(input: Input): seq<string> {
    if input.fixResult.None? then []
    else Filter(input.fixResult.value.changedFileOrigins, (p: string) => p != "")
  }

  function ChangedFileCount(input: Input): int {
    if input.fixResult.Some? then input.fixResult.value.changedFiles.GetOr(|ChangedPaths(input)|)
    else |ChangedPaths(input)|
  }

  function When(condition: bool, gap: Gap, status: AnchorStatus): seq<Anchor> {
    if condition then [Anchor(gap, status)] else []
  }

  // ----- the detectors -----

  predicate FailedOrStale(c: CommandAnchor) {
    c.status == Failed || c.status == Stale
  }

  function FailedStaleCommandClaims(commands: seq<CommandAnchor>): seq<Anchor> {
    Map(Filter(commands, FailedOrStale), (c: CommandAnchor) => Anchor(CommandFailedOrStale, c.status))
  }

  function UnknownCommandClaims(commands: seq<CommandAnchor>): seq<Anchor> {
    Map(Take(Filter(commands, (c: CommandAnchor) => c.status == Unknown && c.verification), 2),
        (c: CommandAnchor) => Anchor(CommandUnknown, Unknown))
  }

  // A positive claim next to a failed or stale command inherits that command's status.
  function AgentClaims(claims: seq<Claim>, commands: seq<CommandAnchor>): seq<Anchor> {
    var contradicting := Find(commands, FailedOrStale);
    Map(Take(claims, 2), (claim: Claim) =>
      Anchor(AgentClaim, if contradicting.Some? && claim.positive then contradicting.value.status else Unknown))
  }

  predicate QaFailedWithoutComparison(input: Input) {
    input.latestQaPassed == Some(false) && input.comparison.None?
  }

  predicate Drifted(input: Input) {
    && input.fixResult.Some?
    && ReviewedPaths(input) != {}
    && exists p :: p in ChangedPaths(input) && p !in ReviewedPaths(input)
  }

  predicate EditedBlindly(input: Input, proofs: nat) {
    input.fixResult.Some? && ChangedFileCount(input) >= 3 && EvidenceTotal(input) == 0 && proofs == 0
  }

  predicate FixUncompared(input: Input) {
    input.comparison.None? && input.fixResult.Some? && input.fixResult.value.success == Some(true)
  }

  function ComparisonClaim(input: Input): seq<Anchor> {
    if input.comparison.None? || ComparisonDone(input) then []
    else [Anchor(ComparisonOpen, if ComparisonVerdict(input.comparison.value) == Blocked then Failed else Unknown)]
  }

  function Proofs(input: Input): nat {
    PassedCommandCount(CommandAnchors(input.commandSignals)) + QaProofCount(input)
  }

  // The detectors that look at something other than the commands.
  function OtherAnchors(input: Input): seq<Anchor> {
    When(FindingsCount(input) - EvidenceTotal(input) > 0, EvidenceMissing, Unknown)
    + (When(QaFailedWithoutComparison(input), LatestQaFailed, Failed)
    + (When(Drifted(input), ScopeDrift, Unknown)
    + (When(EditedBlindly(input, Proofs(input)), EditsWithoutEvidence, Unknown)
    + (ComparisonClaim(input)
    + When(FixUncompared(input), PostFixQaMissing, Unknown)))))
  }

  function BaseAnchors(input: Input): seq<Anchor> {
    var commands := CommandAnchors(input.commandSignals);
    FailedStaleCommandClaims(commands)
    + (UnknownCommandClaims(commands)
    + (AgentClaims(input.agentClaims, commands)
    + OtherAnchors(input)))
  }

  function AllAnchors(input: Input): seq<Anchor> {
    var base := BaseAnchors(input);
    base + When(base == [] && FindingsCount(input) > 0 && EvidenceTotal(input) >= FindingsCount(input)
                && Proofs(input) == 0, ExecutableProofMissing, Unknown)
  }

  function StatusRank(status: AnchorStatus): int {
    match status
    case Failed => 0
    case Stale => 1
    case Unknown => 1
    case Passed => 2
  }

  function ByRank(): Anchor -> int {
    (a: Anchor) => StatusRank(a.status)
  }

  function ClaimCheckAnchors(input: Input): seq<Anchor> {
    Take(StableSort(AllAnchors(input), ByRank()), 4)
  }

  // ----- the verdict -----

  predicate AnythingToCheck(input: Input) {
    || input.review.Some?
    || CommandAnchors(input.commandSignals) != []
    || input.comparison.Some?
    || input.fixResult.Some?
  }

  function VerdictOf(anchors: seq<Anchor>, input: Input): Verdict {
    if |Filter(anchors, (a: Anchor) => a.status == Failed)| > 0 then Blocked
    else if |Filter(anchors, (a: Anchor) => a.status != Failed)| > 0 then Active
    else if AnythingToCheck(input) then Done
    else Idle
  }

  function ClaimCheckVerdict(input: Input): Verdict {
    VerdictOf(ClaimCheckAnchors(input), input)
  }

  ghost predicate AnyFailed(anchors: seq<Anchor>) {
    exists a :: a in anchors && a.status == Failed
  }

  lemma VerdictMeans(anchors: seq<Anchor>, input: Input)
    ensures VerdictOf(anchors, input) == Blocked <==> AnyFailed(anchors)
    ensures VerdictOf(anchors, input) == Active <==> !AnyFailed(anchors) && anchors != []
    ensures VerdictOf(anchors, input) == Done <==> anchors == [] && AnythingToCheck(input)
  {
    var failed := Filter(anchors, (a: Anchor) => a.status == Failed);
    var other := Filter(anchors, (a: Anchor) => a.status != Failed);
    if AnyFailed(anchors) {
      var a :| a in anchors && a.status == Failed;
      assert a in failed;
    } else {
      FilterNone(anchors, (a: Anchor) => a.status == Failed);
      if anchors != [] {
        assert anchors[0] in other;
      }
    }
  }

  // The cut keeps the most severe anchor.
  lemma CutKeepsSeverest(anchors: seq<Anchor>)
    ensures var kept := Take(StableSort(anchors, ByRank()), 4);
      && (kept == [] <==> anchors == [])
      && (AnyFailed(kept) <==> AnyFailed(anchors))
  {
    StableSortSorts(anchors, ByRank());
    var sorted := StableSort(anchors, ByRank());
    var kept := Take(sorted, 4);
    assert |multiset(sorted)| == |multiset(anchors)|;
    if AnyFailed(anchors) {
      var a :| a in anchors && a.status == Failed;
      assert a in multiset(sorted);
      var k :| 0 <= k < |sorted| && sorted[k] == a;
      assert ByRank()(sorted[0]) <= ByRank()(sorted[k]);
      assert kept[0] in kept && kept[0].status == Failed;
    }
    if AnyFailed(kept) {
      var a :| a in kept && a.status == Failed;
      assert a in multiset(sorted);
      assert a in multiset(anchors);
    }
  }

  // Cutting to four after the sort never changes the verdict.
  lemma CutKeepsVerdict(input: Input)
    ensures ClaimCheckVerdict(input) == VerdictOf(AllAnchors(input), input)
    ensures |ClaimCheckAnchors(input)| <= 4
  {
    CutKeepsSeverest(AllAnchors(input));
    VerdictMeans(AllAnchors(input), input);
    VerdictMeans(ClaimCheckAnchors(input), input);
  }

  predicate HasFailed(a: Anchor) {
    a.status == Failed
  }

  predicate HasNotFailed(a: Anchor) {
    a.status != Failed
  }

  // The cut list in one line: the failed anchors come first and otherwise the order stays.
  lemma AnchorsAreFailedFirst(input: Input)
    ensures var all := AllAnchors(input);
      ClaimCheckAnchors(input) == Take(Filter(all, HasFailed) + Filter(all, HasNotFailed), 4)
  {
    NeverPassed(input);
    FailedFirst(AllAnchors(input));
  }

  lemma NeverPassed(input: Input)
    ensures forall a :: a in AllAnchors(input) ==> a.status != Passed
  {
    AnchorsExactly(input);
    forall a | Raised(input, a)
      ensures a.status != Passed
    {
    }
  }

  lemma FailedFirst(anchors: seq<Anchor>)
    requires forall a :: a in anchors ==> a.status != Passed
    ensures StableSort(anchors, ByRank()) == Filter(anchors, HasFailed) + Filter(anchors, HasNotFailed)
  {
    var parts := Filter(anchors, HasFailed) + Filter(anchors, HasNotFailed);
    StableSortSorts(anchors, ByRank());
    PartsAreSorted(anchors);
    forall rank
      ensures OfRank(StableSort(anchors, ByRank()), ByRank(), rank) == OfRank(parts, ByRank(), rank)
    {
      RanksOfParts(anchors, rank);
    }
    StableSortUnique(StableSort(anchors, ByRank()), parts, ByRank());
  }

  lemma PartsAreSorted(anchors: seq<Anchor>)
    requires forall a :: a in anchors ==> a.status != Passed
    ensures Sorted(Filter(anchors, HasFailed) + Filter(anchors, HasNotFailed), ByRank())
  {
    var failed, other := Filter(anchors, HasFailed), Filter(anchors, HasNotFailed);
    assert forall i :: 0 <= i < |failed| ==> failed[i] in failed;
    assert forall i :: 0 <= i < |other| ==> other[i] in other;
  }

  // The failed anchors are those of rank 0.
  lemma RanksOfParts(anchors: seq<Anchor>, rank: int)
    ensures OfRank(Filter(anchors, HasFailed) + Filter(anchors, HasNotFailed), ByRank(), rank)
         == OfRank(anchors, ByRank(), rank)
  {
    var failed, other := Filter(anchors, HasFailed), Filter(anchors, HasNotFailed);
    OfRankConcat(failed, other, ByRank(), rank);
    if rank == 0 {
      RankMissing(other, ByRank(), rank);
      OfRankKept(anchors, HasFailed, ByRank(), rank);
    } else {
      RankMissing(failed, ByRank(), rank);
      OfRankKept(anchors, HasNotFailed, ByRank(), rank);
    }
  }

  // ----- what each anchor says about the input -----

  // The first four command signals are looked at.
  ghost predicate Retained(input: Input, s: CommandSignal) {
    exists i :: 0 <= i < 4 && i < |input.commandSignals| && input.commandSignals[i] == s
  }

  // The first retained signal that failed or is stale has this status.
  ghost predicate FirstBadIs(input: Input, status: AnchorStatus) {
    exists i ::
      && 0 <= i < 4 && i < |input.commandSignals| && input.commandSignals[i].status == Some(status)
      && forall j :: 0 <= j < i ==>
           input.commandSignals[j].status != Some(Failed) && input.commandSignals[j].status != Some(Stale)
  }

  ghost predicate NoneBad(input: Input) {
    forall s :: Retained(input, s) ==> s.status != Some(Failed) && s.status != Some(Stale)
  }

  // One of the first two claims is positive, or is not.
  ghost predicate Claims(input: Input, positive: bool) {
    exists i :: 0 <= i < 2 && i < |input.agentClaims| && input.agentClaims[i].positive == positive
  }

  // Something executable passed.
  ghost predicate Proven(input: Input) {
    || (exists s :: Retained(input, s) && s.status == Some(Passed) && s.verification)
    || input.latestQaPassed == Some(true)
    || input.comparison == Some(Fixed)
    || input.comparison == Some(StillPassing)
  }

  // Fewer findings were checked than there are.
  ghost predicate Unchecked(input: Input) {
    var checked := input.reproduced + input.fixed + input.notReproduced;
    checked < 0 || (input.review.Some? && checked < input.review.value.findingsCount)
  }

  // A path, if it is not empty, is one of the reviewed ones.
  ghost predicate Reviewed(review: Review, path: string) {
    path in review.findingPaths || path == review.firstFindingPath
  }

  ghost predicate OutOfScope(input: Input) {
    && input.review.Some? && input.fixResult.Some?
    && (exists p :: p != "" && Reviewed(input.review.value, p))
    && exists p :: p in input.fixResult.value.changedFileOrigins && p != "" && !Reviewed(input.review.value, p)
  }

  ghost predicate ThreeFilesChanged(fix: FixResult) {
    if fix.changedFiles.Some? then fix.changedFiles.value >= 3
    else |Filter(fix.changedFileOrigins, (p: string) => p != "")| >= 3
  }

  ghost predicate BlindEdits(input: Input) {
    && input.fixResult.Some? && ThreeFilesChanged(input.fixResult.value)
    && input.reproduced + input.fixed + input.notReproduced == 0
    && !Proven(input)
  }

  // What the nine detectors raise, on the fields of the input.
  ghost predicate Detected(input: Input, gap: Gap, status: AnchorStatus) {
    match gap
    case CommandFailedOrStale =>
      (status == Failed || status == Stale) && exists s :: Retained(input, s) && s.status == Some(status)
    case CommandUnknown =>
      status == Unknown &&
      exists s :: Retained(input, s) && s.verification && (s.status == None || s.status == Some(Unknown))
    case AgentClaim =>
      if status == Failed || status == Stale then FirstBadIs(input, status) && Claims(input, true)
      else status == Unknown && (Claims(input, false) || (Claims(input, true) && NoneBad(input)))
    case EvidenceMissing => status == Unknown && Unchecked(input)
    case LatestQaFailed => status == Failed && input.latestQaPassed == Some(false) && input.comparison == None
    case ScopeDrift => status == Unknown && OutOfScope(input)
    case EditsWithoutEvidence => status == Unknown && BlindEdits(input)
    case ComparisonOpen =>
      || (status == Failed && (input.comparison == Some(StillBroken) || input.comparison == Some(Regressed)))
      || (status == Unknown && input.comparison == Some(NeedsRerun))
    case PostFixQaMissing =>
      && status == Unknown && input.comparison == None
      && input.fixResult.Some? && input.fixResult.value.success == Some(true)
    case ExecutableProofMissing => false
  }

  // And the fallback: findings, all checked, and nothing detected, but nothing executable passed.
  ghost predicate Raised(input: Input, a: Anchor) {
    || Detected(input, a.gap, a.status)
    || (&& a == Anchor(ExecutableProofMissing, Unknown)
        && input.review.Some? && input.review.value.findingsCount > 0
        && !Proven(input)
        && forall gap, status :: !Detected(input, gap, status))
  }

  lemma CommandsOf(input: Input)
    ensures var commands := CommandAnchors(input.commandSignals);
      && |commands| == (if |input.commandSignals| <= 4 then |input.commandSignals| else 4)
      && (forall i :: 0 <= i < |commands| ==>
            && commands[i].verification == input.commandSignals[i].verification
            && commands[i].status == input.commandSignals[i].status.GetOr(Unknown))
  {
  }

  // Silent exactly if no retained command failed or is stale; one anchor of the command's own
  // status for each that did.
  lemma FailedStaleCommandClaimsMeans(input: Input)
    ensures var anchors := FailedStaleCommandClaims(CommandAnchors(input.commandSignals));
      forall a :: a in anchors <==> a.gap == CommandFailedOrStale && Detected(input, a.gap, a.status)
  {
    var commands := CommandAnchors(input.commandSignals);
    CommandsOf(input);
    var bad, anchors := Filter(commands, FailedOrStale), FailedStaleCommandClaims(commands);
    forall a
      ensures a in anchors <==> a.gap == CommandFailedOrStale && Detected(input, a.gap, a.status)
    {
      if a in anchors {
        var k :| 0 <= k < |anchors| && anchors[k] == a;
        assert bad[k] in bad;
        var i :| 0 <= i < |commands| && commands[i] == bad[k];
        assert Retained(input, input.commandSignals[i]);
      }
      if a.gap == CommandFailedOrStale && Detected(input, a.gap, a.status) {
        var s :| Retained(input, s) && s.status == Some(a.status);
        var i :| 0 <= i < 4 && i < |input.commandSignals| && input.commandSignals[i] == s;
        assert commands[i] in bad;
        var k :| 0 <= k < |bad| && bad[k] == commands[i];
        assert anchors[k] == a;
      }
    }
  }

  lemma UnknownCommandClaimsMeans(input: Input)
    ensures var anchors := UnknownCommandClaims(CommandAnchors(input.commandSignals));
      && |anchors| <= 2
      && forall a :: a in anchors <==> a.gap == CommandUnknown && Detected(input, a.gap, a.status)
  {
    var commands := CommandAnchors(input.commandSignals);
    CommandsOf(input);
    var unknown := Filter(commands, (c: CommandAnchor) => c.status == Unknown && c.verification);
    var anchors := UnknownCommandClaims(commands);
    if unknown != [] {
      assert unknown[0] in unknown && anchors[0] == Anchor(CommandUnknown, Unknown);
      var i :| 0 <= i < |commands| && commands[i] == unknown[0];
      assert Retained(input, input.commandSignals[i]);
    }
    if Detected(input, CommandUnknown, Unknown) {
      var s :| Retained(input, s) && s.verification && (s.status == None || s.status == Some(Unknown));
      var i :| 0 <= i < 4 && i < |input.commandSignals| && input.commandSignals[i] == s;
      assert commands[i] in unknown;
    }
  }

  // The contradicting command is the first bad one.
  lemma FirstBad(input: Input)
    ensures var found := Find(CommandAnchors(input.commandSignals), FailedOrStale);
      && (found.None? <==> NoneBad(input))
      && (found.Some? ==>
            && (found.value.status == Failed || found.value.status == Stale)
            && forall status :: FirstBadIs(input, status) && (status == Failed || status == Stale) <==>
                 found.value.status == status)
      && (found.None? ==> !FirstBadIs(input, Failed) && !FirstBadIs(input, Stale))
  {
    var commands := CommandAnchors(input.commandSignals);
    CommandsOf(input);
    if Find(commands, FailedOrStale).Some? {
      var k := FindsFirst(commands, FailedOrStale);
      assert Retained(input, input.commandSignals[k]);
      assert FirstBadIs(input, commands[k].status);
    } else {
      forall s | Retained(input, s)
        ensures s.status != Some(Failed) && s.status != Some(Stale)
      {
        var i :| 0 <= i < 4 && i < |input.commandSignals| && input.commandSignals[i] == s;
        assert commands[i] in commands && !FailedOrStale(commands[i]);
      }
      forall i | 0 <= i < 4 && i < |input.commandSignals|
        ensures input.commandSignals[i].status != Some(Failed) && input.commandSignals[i].status != Some(Stale)
      {
        assert Retained(input, input.commandSignals[i]);
      }
    }
  }

  // Each of the first two claims gives one anchor, failed or stale exactly if the claim is positive
  // and the first bad command is.
  lemma AgentClaimsMeans(input: Input)
    ensures var anchors := AgentClaims(input.agentClaims, CommandAnchors(input.commandSignals));
      && |anchors| == (if |input.agentClaims| <= 2 then |input.agentClaims| else 2)
      && (forall i :: 0 <= i < |anchors| ==>
            && (anchors[i].status == Failed <==> input.agentClaims[i].positive && FirstBadIs(input, Failed))
            && (anchors[i].status == Stale <==> input.agentClaims[i].positive && FirstBadIs(input, Stale))
            && anchors[i].status != Passed)
      && (forall a :: a in anchors <==> a.gap == AgentClaim && Detected(input, a.gap, a.status))
  {
    FirstBad(input);
    var anchors := AgentClaims(input.agentClaims, CommandAnchors(input.commandSignals));
    assert forall i :: 0 <= i < |anchors| ==> anchors[i].gap == AgentClaim;
    forall a
      ensures a in anchors <==> a.gap == AgentClaim && Detected(input, a.gap, a.status)
    {
      if a in anchors {
        var i :| 0 <= i < |anchors| && anchors[i] == a;
        assert Claims(input, input.agentClaims[i].positive);
      }
      if a.gap == AgentClaim && Detected(input, a.gap, a.status) {
        AgentClaimFound(input, a, anchors);
      }
    }
  }

  lemma AgentClaimFound(input: Input, a: Anchor, anchors: seq<Anchor>)
    requires a.gap == AgentClaim && Detected(input, a.gap, a.status)
    requires anchors == AgentClaims(input.agentClaims, CommandAnchors(input.commandSignals))
    ensures a in anchors
  {
    FirstBad(input);
    var positive := a.status == Failed || a.status == Stale || !Claims(input, false);
    assert Claims(input, positive);
    var i :| 0 <= i < 2 && i < |input.agentClaims| && input.agentClaims[i].positive == positive;
    assert anchors[i] == a;
  }

  lemma ProofsMean(input: Input)
    ensures Proofs(input) == 0 <==> !Proven(input)
  {
    var commands := CommandAnchors(input.commandSignals);
    CommandsOf(input);
    var passed := Filter(commands, (c: CommandAnchor) => c.status == Passed && c.verification);
    if passed != [] {
      assert passed[0] in passed;
      var i :| 0 <= i < |commands| && commands[i] == passed[0];
      assert Retained(input, input.commandSignals[i]);
    }
    if s :| Retained(input, s) && s.status == Some(Passed) && s.verification {
      var i :| 0 <= i < 4 && i < |input.commandSignals| && input.commandSignals[i] == s;
      assert commands[i] in passed;
    }
  }

  lemma DriftedMeans(input: Input)
    ensures Drifted(input) <==> OutOfScope(input)
  {
    if input.review.Some? {
      forall p
        ensures p in ReviewedPaths(input) <==> p != "" && Reviewed(input.review.value, p)
      {
      }
      if p :| p != "" && Reviewed(input.review.value, p) {
        assert p in ReviewedPaths(input);
      }
    }
  }

  // The conditions, on the fields.
  lemma ConditionsMean(input: Input)
    ensures FindingsCount(input) - EvidenceTotal(input) > 0 <==> Unchecked(input)
    ensures EditedBlindly(input, Proofs(input)) <==> BlindEdits(input)
    ensures Drifted(input) <==> OutOfScope(input)
  {
    ProofsMean(input);
    DriftedMeans(input);
  }

  predicate OfInput(gap: Gap) {
    gap in [EvidenceMissing, LatestQaFailed, ScopeDrift, EditsWithoutEvidence, ComparisonOpen, PostFixQaMissing]
  }

  // The detectors that look at evidence, QA, scope and fix.
  lemma OtherAnchorsMeans(input: Input)
    ensures forall a :: a in OtherAnchors(input) <==> OfInput(a.gap) && Detected(input, a.gap, a.status)
  {
    ConditionsMean(input);
    ComparisonClaimMeans(input);
    forall a
      ensures a in OtherAnchors(input) <==> OfInput(a.gap) && Detected(input, a.gap, a.status)
    {
      OneOfSix(input, a);
      SixDetected(input, a);
    }
  }

  ghost predicate FromInput(input: Input, a: Anchor) {
    || (Unchecked(input) && a == Anchor(EvidenceMissing, Unknown))
    || (QaFailedWithoutComparison(input) && a == Anchor(LatestQaFailed, Failed))
    || (OutOfScope(input) && a == Anchor(ScopeDrift, Unknown))
    || (BlindEdits(input) && a == Anchor(EditsWithoutEvidence, Unknown))
    || a in ComparisonClaim(input)
    || (FixUncompared(input) && a == Anchor(PostFixQaMissing, Unknown))
  }

  lemma SixDetected(input: Input, a: Anchor)
    ensures FromInput(input, a) <==> OfInput(a.gap) && Detected(input, a.gap, a.status)
  {
    match a.gap
    case CommandFailedOrStale =>
    case CommandUnknown =>
    case AgentClaim =>
    case EvidenceMissing =>
    case LatestQaFailed =>
    case ScopeDrift =>
    case EditsWithoutEvidence =>
    case ComparisonOpen => ComparisonClaimMeans(input);
    case PostFixQaMissing =>
    case ExecutableProofMissing =>
  }

  lemma OneOfSix(input: Input, a: Anchor)
    ensures a in OtherAnchors(input) <==> FromInput(input, a)
  {
    ConditionsMean(input);
    var a1 := When(FindingsCount(input) - EvidenceTotal(input) > 0, EvidenceMissing, Unknown);
    var a2 := When(QaFailedWithoutComparison(input), LatestQaFailed, Failed);
    var a3 := When(Drifted(input), ScopeDrift, Unknown);
    var a4 := When(EditedBlindly(input, Proofs(input)), EditsWithoutEvidence, Unknown);
    var a5, a6 := ComparisonClaim(input), When(FixUncompared(input), PostFixQaMissing, Unknown);
    InSix(a, a1, a2, a3, a4, a5, a6);
  }

  lemma InSix(a: Anchor, a1: seq<Anchor>, a2: seq<Anchor>, a3: seq<Anchor>, a4: seq<Anchor>, a5: seq<Anchor>,
              a6: seq<Anchor>)
    ensures a in a1 + (a2 + (a3 + (a4 + (a5 + a6)))) <==>
              a in a1 || a in a2 || a in a3 || a in a4 || a in a5 || a in a6
  {
  }

  lemma ComparisonClaimMeans(input: Input)
    ensures forall a :: a in ComparisonClaim(input) <==> a.gap == ComparisonOpen && Detected(input, a.gap, a.status)
  {
  }

  // The nine detectors together.
  lemma BaseAnchorsMean(input: Input)
    ensures forall a :: a in BaseAnchors(input) <==> Detected(input, a.gap, a.status)
  {
    var commands := CommandAnchors(input.commandSignals);
    forall a
      ensures a in BaseAnchors(input) <==> Detected(input, a.gap, a.status)
    {
      InFour(a, FailedStaleCommandClaims(commands), UnknownCommandClaims(commands),
             AgentClaims(input.agentClaims, commands), OtherAnchors(input));
      FailedStaleCommandClaimsMeans(input);
      UnknownCommandClaimsMeans(input);
      AgentClaimsMeans(input);
      OtherAnchorsMeans(input);
    }
  }

  lemma InFour(a: Anchor, a1: seq<Anchor>, a2: seq<Anchor>, a3: seq<Anchor>, a4: seq<Anchor>)
    ensures a in a1 + (a2 + (a3 + a4)) <==> a in a1 || a in a2 || a in a3 || a in a4
  {
  }

  // The anchors before the cut, exactly.
  lemma AnchorsExactly(input: Input)
    ensures forall a :: a in AllAnchors(input) <==> Raised(input, a)
  {
    var base := BaseAnchors(input);
    BaseAnchorsMean(input);
    if base == [] {
      forall gap, status
        ensures !Detected(input, gap, status)
      {
        assert Anchor(gap, status) !in base;
      }
    } else {
      assert base[0] in base;
      assert Detected(input, base[0].gap, base[0].status);
    }
    ProofsMean(input);
    ConditionsMean(input);
    assert Detected(input, EvidenceMissing, Unknown) <==> Unchecked(input);
  }

  // ----- when each verdict is given -----

  ghost predicate Blocking(input: Input) {
    || (exists s :: Retained(input, s) && s.status == Some(Failed))
    || (input.latestQaPassed == Some(false) && input.comparison == None)
    || input.comparison == Some(StillBroken)
    || input.comparison == Some(Regressed)
  }

  // Nothing for any detector, nor for the fallback, to report.
  ghost predicate NoGaps(input: Input) {
    && (forall s :: Retained(input, s) ==>
          s.status != Some(Failed) && s.status != Some(Stale)
          && (s.verification ==> s.status == Some(Passed)))
    && input.agentClaims == []
    && !Unchecked(input)
    && !(input.latestQaPassed == Some(false) && input.comparison == None)
    && !OutOfScope(input)
    && !BlindEdits(input)
    && (input.comparison == None || input.comparison == Some(Fixed) || input.comparison == Some(StillPassing))
    && (input.comparison == None ==> input.fixResult.None? || input.fixResult.value.success != Some(true))
    && (input.review.Some? && input.review.value.findingsCount > 0 ==> Proven(input))
  }

  lemma AllAnchorsMeans(input: Input)
    ensures AnyFailed(AllAnchors(input)) <==> Blocking(input)
    ensures AllAnchors(input) == [] <==> NoGaps(input)
  {
    AnchorsExactly(input);
    BlockingMeans(input);
    NoGapsMeans(input);
    var all := AllAnchors(input);
    if AnyFailed(all) {
      var a :| a in all && a.status == Failed;
      assert Detected(input, a.gap, Failed);
    }
    if gap :| Detected(input, gap, Failed) {
      assert Anchor(gap, Failed) in all;
    }
    if all != [] {
      assert all[0] in all;
    } else {
      forall a ensures !Raised(input, a) {
        assert a !in all;
      }
    }
  }

  lemma BlockingMeans(input: Input)
    ensures Blocking(input) <==> exists gap :: Detected(input, gap, Failed)
  {
    if Blocking(input) {
      assert Detected(input, CommandFailedOrStale, Failed) || Detected(input, LatestQaFailed, Failed)
        || Detected(input, ComparisonOpen, Failed);
    }
    if gap :| Detected(input, gap, Failed) {
      if gap == AgentClaim {
        var i :| 0 <= i < 4 && i < |input.commandSignals| && input.commandSignals[i].status == Some(Failed);
        assert Retained(input, input.commandSignals[i]);
      }
    }
  }

  lemma NoGapsMeans(input: Input)
    ensures NoGaps(input) <==> forall a :: !Raised(input, a)
  {
    if NoGaps(input) {
      assert !Claims(input, true) && !Claims(input, false);
      forall gap, status
        ensures !Detected(input, gap, status)
      {
      }
    }
    if forall a :: !Raised(input, a) {
      forall gap, status
        ensures !Detected(input, gap, status)
      {
        assert !Raised(input, Anchor(gap, status));
      }
      NothingDetected(input);
      assert !Raised(input, Anchor(ExecutableProofMissing, Unknown));
    }
  }

  lemma ClaimsMean(input: Input)
    ensures input.agentClaims != [] <==> Claims(input, true) || Claims(input, false)
  {
    if input.agentClaims != [] {
      assert Claims(input, input.agentClaims[0].positive);
    }
  }

  lemma NothingDetected(input: Input)
    requires forall gap, status :: !Detected(input, gap, status)
    ensures input.review.Some? && input.review.value.findingsCount > 0 ==> Proven(input) || !NoGaps(input)
    ensures (input.review.Some? && input.review.value.findingsCount > 0 ==> Proven(input)) ==> NoGaps(input)
  {
    assert !Detected(input, EvidenceMissing, Unknown) && !Detected(input, ScopeDrift, Unknown);
    assert !Detected(input, EditsWithoutEvidence, Unknown) && !Detected(input, CommandUnknown, Unknown);
    assert !Detected(input, ComparisonOpen, Failed) && !Detected(input, ComparisonOpen, Unknown);
    assert !Detected(input, LatestQaFailed, Failed) && !Detected(input, PostFixQaMissing, Unknown);
    forall s | Retained(input, s)
      ensures s.status != Some(Failed) && s.status != Some(Stale) && (s.verification ==> s.status == Some(Passed))
    {
      assert !Detected(input, CommandFailedOrStale, Failed) && !Detected(input, CommandFailedOrStale, Stale);
      if s.status.Some? {
        match s.status.value { case Passed => case Failed => case Stale => case Unknown => }
      }
    }
    if input.comparison.Some? {
      match input.comparison.value { case NeedsRerun => case Fixed => case StillBroken => case Regressed => case _ => }
    }
    assert !Detected(input, AgentClaim, Unknown);
    ClaimsMean(input);
  }

  // The verdict, in full: blocked, done, idle and (otherwise) active.
  lemma VerdictExactly(input: Input)
    ensures ClaimCheckVerdict(input) == Blocked <==> Blocking(input)
    ensures ClaimCheckVerdict(input) == Done <==>
              && NoGaps(input)
              && (input.review.Some? || input.commandSignals != [] || input.comparison.Some? || input.fixResult.Some?)
    ensures ClaimCheckVerdict(input) == Idle <==>
              && NoGaps(input)
              && input.review == None && input.commandSignals == [] && input.comparison == None
              && input.fixResult == None
  {
    CutKeepsVerdict(input);
    AllAnchorsMeans(input);
    VerdictMeans(AllAnchors(input), input);
  }

  // `done` is sound: every finding was checked, something executable passed if there are any, no
  // command failed, is stale or has no outcome, no agent claim stands, the comparison is good, a
  // successful fix was compared, it stayed inside the reviewed files, and three changed files did
  // not go without any evidence.
  lemma DoneIsSound(input: Input)
    requires ClaimCheckVerdict(input) == Done
    ensures input.review.Some? ==>
              input.reproduced + input.fixed + input.notReproduced >= input.review.value.findingsCount
    ensures input.review.Some? && input.review.value.findingsCount > 0 ==> Proven(input)
    ensures forall i :: 0 <= i < 4 && i < |input.commandSignals| ==>
              var s := input.commandSignals[i];
              s.status != Some(Failed) && s.status != Some(Stale) && (s.verification ==> s.status == Some(Passed))
    ensures input.agentClaims == []
    ensures input.comparison.Some? ==> input.comparison.value == Fixed || input.comparison.value == StillPassing
    ensures input.fixResult.Some? && input.fixResult.value.success == Some(true) ==> input.comparison.Some?
    ensures input.review.Some? && input.fixResult.Some? ==>
              var reviewed := input.review.value.findingPaths + [input.review.value.firstFindingPath];
              || (forall p :: p in reviewed ==> p == "")
              || (forall p :: p in input.fixResult.value.changedFileOrigins ==> p == "" || p in reviewed)
    ensures input.fixResult.Some? && ThreeFilesChanged(input.fixResult.value) ==>
              input.reproduced + input.fixed + input.notReproduced != 0 || Proven(input)
  {
    VerdictExactly(input);
    forall i | 0 <= i < 4 && i < |input.commandSignals|
      ensures Retained(input, input.commandSignals[i])
    {
    }
    if input.review.Some? && input.fixResult.Some? {
      InScope(input.review.value, input.fixResult.value, input);
    }
  }

  lemma InScope(review: Review, fix: FixResult, input: Input)
    requires input.review == Some(review) && input.fixResult == Some(fix) && !OutOfScope(input)
    ensures var reviewed := review.findingPaths + [review.firstFindingPath];
            || (forall p :: p in reviewed ==> p == "")
            || (forall p :: p in fix.changedFileOrigins ==> p == "" || p in reviewed)
  {
    var reviewed := review.findingPaths + [review.firstFindingPath];
    assert forall p :: p in reviewed <==> Reviewed(review, p);
  }

  // Across both engines: when the claim check is done after a successful fix, the history holds
  // a passing run after the fix of the very flow that was last run before it, and no later run of
  // that flow exists.
  lemma DoneAfterFixHasPassingRerun(input: Input, runs: seq<Run>, fixTime: int)
    requires var c := BuildQaPostFixComparison(runs, Some(fixTime));
             input.comparison == if c.Some? then Some(c.value.status) else None
    requires input.fixResult.Some? && input.fixResult.value.success == Some(true)
    requires ClaimCheckVerdict(input) == Done
    ensures exists before, after ::
              && LatestBefore(runs, fixTime, before)
              && LatestRerun(runs, fixTime, before, after)
              && after.pass
  {
    DoneIsSound(input);
    ComparisonMeansLatestRuns(runs, fixTime);
    var c := BuildQaPostFixComparison(runs, Some(fixTime)).value;
    assert LatestBefore(runs, fixTime, c.before);
    assert LatestRerun(runs, fixTime, c.before, c.after.value);
  }
}
