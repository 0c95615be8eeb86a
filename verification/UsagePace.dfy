/**
 * The pace label of a usage window: how the used percentage, extrapolated at constant rate,
 * stands at the reset. Percentages and seconds are exact reals.
 */
module UsagePace {
  import opened Options

  datatype Tone = Muted | Warn | Ok

  datatype Pace = NoLabel | AtLimit | CapsIn(secs: real) | OnPace | Headroom(pct: int)

  // Math.round: halves go up.
  function Round(x: real): int {
    (x + 0.5).Floor
  }

  // The window is known, running, and old enough to say something; a length of zero counts as
  // unknown.
  predicate Accepted(pct: real, windowTotal: Option<real>, resetsIn: Option<real>) {
    && windowTotal.Some? && windowTotal.value > 0.0
    && resetsIn.Some? && 0.0 < resetsIn.value <= windowTotal.value
    && windowTotal.value - resetsIn.value >= 600.0
    && pct >= 0.5
  }

  // The label, from the projection to the reset and the seconds to the cap.
  function Classify(projectedEndPct: real, secsToCap: real, resetsIn: real): Pace {
    if projectedEndPct >= 100.0 then
      if secsToCap <= 0.0 then AtLimit
      else if secsToCap < resetsIn then CapsIn(secsToCap)
      else OnPace
    else if projectedEndPct >= 95.0 then OnPace
    else Headroom(Round(100.0 - projectedEndPct))
  }

  function Projection(pct: real, windowTotal: real, elapsed: real): real
    requires elapsed > 0.0
  {
    pct * (windowTotal / elapsed)
  }

  function SecsToCap(pct: real, elapsed: real): real
    requires pct > 0.0
  {
    ((100.0 - pct) * elapsed) / pct
  }

  function ComputeUsagePace(pct: real, windowTotal: Option<real>, resetsIn: Option<real>): Pace {
    if !Accepted(pct, windowTotal, resetsIn) then NoLabel else
      var elapsed := windowTotal.value - resetsIn.value;
      Classify(Projection(pct, windowTotal.value, elapsed), SecsToCap(pct, elapsed), resetsIn.value)
  }

  function ToneOf(pace: Pace): Tone {
    match pace
    case NoLabel => Muted
    case AtLimit => Warn
    case CapsIn(_) => Warn
    case OnPace => Muted
    case Headroom(_) => Ok
  }

  // ----- the meaning: linear extrapolation -----

  // The percentage used `secs` from now if the average rate so far continues.
  ghost function UsedAfter(pct: real, elapsed: real, secs: real): real
    requires elapsed > 0.0
  {
    pct + pct / elapsed * secs
  }

  // Extrapolated use reaches 100% at some moment strictly before the reset.
  ghost predicate CapsBeforeReset(pct: real, elapsed: real, resetsIn: real)
    requires elapsed > 0.0
  {
    exists secs :: 0.0 <= secs < resetsIn && UsedAfter(pct, elapsed, secs) >= 100.0
  }

  lemma CompareQuotient(a: real, b: real, c: real)
    requires b > 0.0
    ensures a / b >= c <==> a >= c * b
    ensures a / b <= c <==> a <= c * b
  {
  }

  // The projection is the extrapolated use at the reset.
  lemma ProjectionIsExtrapolation(pct: real, windowTotal: real, resetsIn: real)
    requires 0.0 < resetsIn < windowTotal
    ensures var elapsed := windowTotal - resetsIn;
      && pct * (windowTotal / elapsed) == UsedAfter(pct, elapsed, resetsIn)
      && (pct * (windowTotal / elapsed) >= 100.0 <==> pct * windowTotal >= 100.0 * elapsed)
  {
  }

  // Extrapolated use passes 100% exactly from secsToCap on.
  lemma CapMoment(pct: real, elapsed: real, secs: real)
    requires pct > 0.0 && elapsed > 0.0
    ensures UsedAfter(pct, elapsed, secs) >= 100.0 <==> secs >= SecsToCap(pct, elapsed)
  {
  }

  lemma CapsBeforeExactly(pct: real, elapsed: real, resetsIn: real)
    requires 0.0 < pct < 100.0 && elapsed > 0.0 && resetsIn > 0.0
    ensures SecsToCap(pct, elapsed) > 0.0
    ensures CapsBeforeReset(pct, elapsed, resetsIn) <==> SecsToCap(pct, elapsed) < resetsIn
  {
    var cap := SecsToCap(pct, elapsed);
    assert (100.0 - pct) * elapsed > 0.0;
    PositiveQuotient((100.0 - pct) * elapsed, pct);
    if CapsBeforeReset(pct, elapsed, resetsIn) {
      var secs :| 0.0 <= secs < resetsIn && UsedAfter(pct, elapsed, secs) >= 100.0;
      CapMoment(pct, elapsed, secs);
    }
    if cap < resetsIn {
      CapMoment(pct, elapsed, cap);
      assert 0.0 <= cap < resetsIn && UsedAfter(pct, elapsed, cap) >= 100.0;
    }
  }

  // The branches of the label, when the projection and the cap moment tell the same story.
  lemma ClassifyMeans(projection: real, cap: real, resetsIn: real)
    requires cap > 0.0 && resetsIn > 0.0
    requires projection >= 100.0 <==> resetsIn >= cap
    ensures Classify(projection, cap, resetsIn) == CapsIn(cap) <==> cap < resetsIn
    ensures Classify(projection, cap, resetsIn).CapsIn? ==> Classify(projection, cap, resetsIn).secs == cap
    ensures projection >= 100.0 && Classify(projection, cap, resetsIn) == OnPace <==> cap == resetsIn
  {
  }

  // Below the limit, "caps in" is shown exactly when extrapolation reaches 100% strictly before
  // the reset, and the moment shown is the first such; the inner "on pace" is exact equality.
  lemma CapsInExactly(pct: real, windowTotal: real, resetsIn: real)
    requires Accepted(pct, Some(windowTotal), Some(resetsIn)) && pct < 100.0
    ensures var elapsed := windowTotal - resetsIn;
            var pace := ComputeUsagePace(pct, Some(windowTotal), Some(resetsIn));
      && (pace.CapsIn? <==> CapsBeforeReset(pct, elapsed, resetsIn))
      && (pace.CapsIn? ==> 0.0 < pace.secs < resetsIn && pace.secs == SecsToCap(pct, elapsed))
      && (Projection(pct, windowTotal, elapsed) >= 100.0 && pace == OnPace <==>
            UsedAfter(pct, elapsed, resetsIn) == 100.0)
  {
    var elapsed := windowTotal - resetsIn;
    var cap, projection := SecsToCap(pct, elapsed), Projection(pct, windowTotal, elapsed);
    ProjectionIsExtrapolation(pct, windowTotal, resetsIn);
    CapMoment(pct, elapsed, resetsIn);
    CapsBeforeExactly(pct, elapsed, resetsIn);
    EqualAtReset(pct, elapsed, resetsIn);
    ClassifyMeans(projection, cap, resetsIn);
  }

  lemma PositiveQuotient(a: real, b: real)
    requires a > 0.0 && b > 0.0
    ensures a / b > 0.0
  {
  }

  lemma StrictlyMore(pct: real, elapsed: real, x: real, y: real)
    requires pct > 0.0 && elapsed > 0.0 && x < y
    ensures UsedAfter(pct, elapsed, x) < UsedAfter(pct, elapsed, y)
  {
  }

  lemma EqualAtReset(pct: real, elapsed: real, resetsIn: real)
    requires pct > 0.0 && elapsed > 0.0
    ensures UsedAfter(pct, elapsed, resetsIn) == 100.0 <==> resetsIn == SecsToCap(pct, elapsed)
  {
    var cap := SecsToCap(pct, elapsed);
    assert cap * pct == (100.0 - pct) * elapsed;
    var q := pct / elapsed;
    assert q * elapsed == pct;
    assert (q * cap) * elapsed == cap * (q * elapsed);
    Cancel(q * cap, 100.0 - pct, elapsed);
    assert UsedAfter(pct, elapsed, cap) == 100.0;
    if resetsIn < cap {
      StrictlyMore(pct, elapsed, resetsIn, cap);
    } else if cap < resetsIn {
      StrictlyMore(pct, elapsed, cap, resetsIn);
    }
  }

  lemma Cancel(a: real, b: real, c: real)
    requires c > 0.0 && a * c == b * c
    ensures a == b
  {
  }

  // At the limit or beyond, the label says so.
  lemma AtLimitExactly(pct: real, windowTotal: real, resetsIn: real)
    requires Accepted(pct, Some(windowTotal), Some(resetsIn))
    ensures ComputeUsagePace(pct, Some(windowTotal), Some(resetsIn)) == AtLimit <==> pct >= 100.0
  {
    var elapsed := windowTotal - resetsIn;
    ProjectionIsExtrapolation(pct, windowTotal, resetsIn);
    CompareQuotient((100.0 - pct) * elapsed, pct, 0.0);
    if pct >= 100.0 {
      assert (pct - 100.0) * windowTotal >= 0.0;
      assert (100.0 - pct) * elapsed <= 0.0;
    } else {
      assert (100.0 - pct) * elapsed > 0.0;
    }
  }

  // The warning tone is shown exactly when the limit is reached or would be before the reset.
  lemma WarnsExactly(pct: real, windowTotal: real, resetsIn: real)
    requires Accepted(pct, Some(windowTotal), Some(resetsIn))
    ensures ToneOf(ComputeUsagePace(pct, Some(windowTotal), Some(resetsIn))) == Warn <==>
              pct >= 100.0 || CapsBeforeReset(pct, windowTotal - resetsIn, resetsIn)
  {
    AtLimitExactly(pct, windowTotal, resetsIn);
    if pct < 100.0 {
      CapsInExactly(pct, windowTotal, resetsIn);
    }
  }

  // Any headroom figure lies between 5 and 99.
  lemma HeadroomRange(pct: real, windowTotal: Option<real>, resetsIn: Option<real>)
    ensures var pace := ComputeUsagePace(pct, windowTotal, resetsIn);
      pace.Headroom? ==> 5 <= pace.pct <= 99
  {
    if Accepted(pct, windowTotal, resetsIn) {
      var elapsed := windowTotal.value - resetsIn.value;
      var factor := windowTotal.value / elapsed;
      CompareQuotient(windowTotal.value, elapsed, 1.0);
      assert factor > 1.0 by {
        assert factor * elapsed == windowTotal.value;
      }
      assert pct * factor - pct == pct * (factor - 1.0);
      assert pct * (factor - 1.0) > 0.0;
    }
  }

  // ----- the label, in full -----

  // No label exactly when the window is unknown, not running, too young or hardly used.
  lemma NoLabelExactly(pct: real, windowTotal: Option<real>, resetsIn: Option<real>)
    ensures ComputeUsagePace(pct, windowTotal, resetsIn) == NoLabel <==>
              || windowTotal.None? || windowTotal.value <= 0.0
              || resetsIn.None? || resetsIn.value <= 0.0 || resetsIn.value > windowTotal.value
              || windowTotal.value - resetsIn.value < 600.0
              || pct < 0.5
    ensures ToneOf(NoLabel) == Muted
  {
  }

  // Otherwise the label follows the use at the reset if the rate so far continues: below 95% the
  // rounded headroom, up to 100% "on pace", beyond it the moment of reaching 100%, and "at limit"
  // once that is past.
  lemma PaceExactly(pct: real, windowTotal: real, resetsIn: real)
    requires 0.0 < resetsIn <= windowTotal && windowTotal - resetsIn >= 600.0 && pct >= 0.5
    ensures var pace := ComputeUsagePace(pct, Some(windowTotal), Some(resetsIn));
            var elapsed := windowTotal - resetsIn;
            var atReset := UsedAfter(pct, elapsed, resetsIn);
      && (pace.Headroom? <==> atReset < 95.0)
      && (pace.Headroom? ==> pace.pct as real - 0.5 <= 100.0 - atReset < pace.pct as real + 0.5)
      && (pace == OnPace <==> pct < 100.0 && 95.0 <= atReset <= 100.0)
      && (pace.CapsIn? <==> pct < 100.0 && atReset > 100.0)
      && (pace.CapsIn? ==> 0.0 < pace.secs < resetsIn && UsedAfter(pct, elapsed, pace.secs) == 100.0)
      && (pace == AtLimit <==> pct >= 100.0)
      && (ToneOf(pace) == Ok <==> atReset < 95.0)
      && (ToneOf(pace) == Warn <==> pct >= 100.0 || atReset > 100.0)
  {
    var elapsed := windowTotal - resetsIn;
    var atReset := UsedAfter(pct, elapsed, resetsIn);
    ProjectionIsExtrapolation(pct, windowTotal, resetsIn);
    AtLimitExactly(pct, windowTotal, resetsIn);
    StrictlyMore(pct, elapsed, 0.0, resetsIn);
    RoundMeans(100.0 - atReset);
    if pct < 100.0 {
      CapsInExactly(pct, windowTotal, resetsIn);
      CapMoment(pct, elapsed, resetsIn);
      EqualAtReset(pct, elapsed, resetsIn);
      EqualAtReset(pct, elapsed, SecsToCap(pct, elapsed));
      CapsBeforeExactly(pct, elapsed, resetsIn);
    }
  }

  lemma RoundMeans(x: real)
    ensures Round(x) as real - 0.5 <= x < Round(x) as real + 0.5
  {
  }

  function Severity(pace: Pace): int {
    match pace
    case NoLabel => 0
    case Headroom(_) => 1
    case OnPace => 2
    case CapsIn(_) => 3
    case AtLimit => 4
  }

  lemma ClassifyMonotone(projection1: real, cap1: real, projection2: real, cap2: real, resetsIn: real)
    requires projection1 <= projection2 && cap2 <= cap1
    ensures Severity(Classify(projection1, cap1, resetsIn)) <= Severity(Classify(projection2, cap2, resetsIn))
  {
  }

  // More use means less time to the cap, below the limit and beyond it.
  lemma CapIsAntitone(p: real, q: real, elapsed: real)
    requires 0.0 < p <= q && elapsed > 0.0
    ensures SecsToCap(q, elapsed) <= SecsToCap(p, elapsed)
  {
  }

  // More use is never less severe.
  lemma SeverityIsMonotone(p: real, q: real, windowTotal: Option<real>, resetsIn: Option<real>)
    requires p <= q
    ensures Severity(ComputeUsagePace(p, windowTotal, resetsIn)) <= Severity(ComputeUsagePace(q, windowTotal, resetsIn))
  {
    if Accepted(p, windowTotal, resetsIn) {
      var elapsed := windowTotal.value - resetsIn.value;
      var factor := windowTotal.value / elapsed;
      PositiveQuotient(windowTotal.value, elapsed);
      assert (q - p) * factor >= 0.0;
      assert p * factor <= q * factor;
      CapIsAntitone(p, q, elapsed);
      ClassifyMonotone(p * factor, SecsToCap(p, elapsed), q * factor, SecsToCap(q, elapsed), resetsIn.value);
    }
  }
}
