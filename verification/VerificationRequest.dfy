/**
 * The two gates a verification request passes: the native one, over Rust strings, and the one of
 * the state bridge, a regular expression over JavaScript strings; and the key under which a
 * waiting request is filed.
 */
module VerificationRequest {
  import opened Options
  import Separators
  import PendingReviewStates

  // A text is a sequence of Unicode scalar values. Rust measures its UTF-8 form in bytes, and
  // JavaScript sees the code units of its UTF-16 form.
  type Text = string

  type CodeUnit = n: nat | n < 0x1_0000

  function Utf8Length(s: Text): nat {
    if s == [] then 0 else
      var c := s[0] as int;
      (if c < 0x80 then 1 else if c < 0x800 then 2 else if c < 0x1_0000 then 3 else 4) + Utf8Length(s[1..])
  }

  function Utf16Of(c: char): (r: seq<CodeUnit>)
    ensures 1 <= |r| <= 2
    ensures c as int < 0x1_0000 ==> r == [c as int]
    ensures c as int >= 0x1_0000 ==> forall i :: 0 <= i < |r| ==> r[i] >= 0xD800
  {
    var n := c as int;
    if n < 0x1_0000 then [n]
    else [0xD800 + (n - 0x1_0000) / 0x400, 0xDC00 + (n - 0x1_0000) % 0x400]
  }

  function Utf16(s: Text): seq<CodeUnit> {
    if s == [] then [] else Utf16Of(s[0]) + Utf16(s[1..])
  }

  // ----- the two id tests -----

  predicate AsciiAlphanumeric(n: nat) {
    ('0' as int <= n <= '9' as int) || ('A' as int <= n <= 'Z' as int) || ('a' as int <= n <= 'z' as int)
  }

  predicate Punctuation(n: nat) {
    n == '.' as int || n == '_' as int || n == ':' as int || n == '-' as int
  }

  // stable_verification_id: not empty, at most 128 bytes, every character allowed at its index.
  predicate StableVerificationId(s: Text) {
    && s != []
    && Utf8Length(s) <= 128
    && forall i :: 0 <= i < |s| ==> AsciiAlphanumeric(s[i] as int) || (i > 0 && Punctuation(s[i] as int))
  }

  // A match of {0,max} of the bracketed class from the start of s to its end.
  predicate MatchTail(s: seq<CodeUnit>, max: nat) {
    s == [] || (max > 0 && (AsciiAlphanumeric(s[0]) || Punctuation(s[0])) && MatchTail(s[1..], max - 1))
  }

  // The regular expression of stableId: one alphanumeric, then up to 127 of the class, anchored at
  // both ends.
  predicate StableId(s: seq<CodeUnit>) {
    s != [] && AsciiAlphanumeric(s[0]) && MatchTail(s[1..], 127)
  }

  predicate Plain(s: Text) {
    forall i :: 0 <= i < |s| ==> AsciiAlphanumeric(s[i] as int) || Punctuation(s[i] as int)
  }

  lemma {:induction false} PlainLength(s: Text)
    ensures Utf8Length(s) >= |s|
    ensures Plain(s) ==> Utf8Length(s) == |s|
  {
    if s != [] {
      PlainLength(s[1..]);
    }
  }

  lemma {:induction false} TailMatchesPlain(s: Text, max: nat)
    ensures MatchTail(Utf16(s), max) <==> Plain(s) && |s| <= max
    decreases |s|
  {
    if s != [] {
      var n := s[0] as int;
      assert Utf16(s)[0] == Utf16Of(s[0])[0];
      if n < 0x1_0000 {
        assert Utf16(s)[1..] == Utf16(s[1..]);
      }
      if max > 0 {
        TailMatchesPlain(s[1..], max - 1);
      }
      assert Plain(s) <==> (AsciiAlphanumeric(n) || Punctuation(n)) && Plain(s[1..]);
    }
  }

  // The two tests accept the same texts.
  lemma IdTestsAgree(s: Text)
    ensures StableVerificationId(s) <==> StableId(Utf16(s))
  {
    if s != [] {
      assert Utf16(s)[0] == Utf16Of(s[0])[0];
      if (s[0] as int) < 0x1_0000 {
        assert Utf16(s)[1..] == Utf16(s[1..]);
      }
      TailMatchesPlain(s[1..], 127);
      PlainLength(s);
      var first := AsciiAlphanumeric(s[0] as int);
      assert first ==> (Plain(s) <==> Plain(s[1..]));
    }
  }

  // What both accept: 1 to 128 of the letters, digits and four marks, a letter or digit first.
  ghost predicate GoodId(s: Text) {
    && 1 <= |s| <= 128
    && forall i :: 0 <= i < |s| ==>
         || 'a' <= s[i] <= 'z' || 'A' <= s[i] <= 'Z' || '0' <= s[i] <= '9'
         || (i > 0 && (s[i] == '.' || s[i] == '_' || s[i] == ':' || s[i] == '-'))
  }

  lemma StableIdsMean(s: Text)
    ensures StableVerificationId(s) <==> GoodId(s)
    ensures StableId(Utf16(s)) <==> GoodId(s)
  {
    IdTestsAgree(s);
    PlainLength(s);
  }

  // ----- the two gates -----

  // What a flag holds: a text, or something else.
  datatype FlagValue = TextFlag(text: Text) | OtherFlag

  datatype Request = Request(
    protocolVersion: int,
    runId: Text,
    scenarioId: Text,
    stateName: Text,
    frozenTime: Text,
    flags: map<Text, FlagValue>)

  datatype ReviewRequest = ReviewRequest(request: Request, reviewId: Text)

  // The list is the same on both sides.
  const REVIEW_STATES: seq<Text> := [
    "review-partial-ready", "review-completed-ready", "review-keyboard-focused", "review-reduced-motion"]

  // build_verification_request_initialization_script, on a parsed request: it is injected only if
  // every test passes. `rfc3339` is the native date parser.
  predicate NativeAccepts(r: Request, rfc3339: Text -> bool) {
    && r.protocolVersion == 1
    && StableVerificationId(r.runId)
    && StableVerificationId(r.scenarioId)
    && r.stateName in REVIEW_STATES
    && rfc3339(r.frozenTime)
    && "reviewId" in r.flags
    && r.flags["reviewId"].TextFlag?
    && StableVerificationId(r.flags["reviewId"].text)
    && Utf8Length(r.flags["reviewId"].text) <= 128
  }

  // validRequest; `dateParse` says whether Date.parse finds a time. Flags are an object here.
  predicate ValidRequest(r: Request, dateParse: Text -> bool) {
    && r.protocolVersion == 1
    && StableId(Utf16(r.runId))
    && StableId(Utf16(r.scenarioId))
    && StableId(Utf16(r.stateName))
    && dateParse(r.frozenTime)
  }

  function GetReviewQualificationRequest(r: Request): Option<ReviewRequest> {
    if r.stateName !in REVIEW_STATES then None
    else if "reviewId" !in r.flags || !r.flags["reviewId"].TextFlag? then None
    else if !StableId(Utf16(r.flags["reviewId"].text)) then None
    else Some(ReviewRequest(r, r.flags["reviewId"].text))
  }

  predicate Hyphenated(s: Text) {
    forall i :: 0 <= i < |s| ==> 'a' <= s[i] <= 'z' || s[i] == '-'
  }

  lemma HyphenatedIsStable(s: Text)
    requires Hyphenated(s) && 0 < |s| <= 128 && 'a' <= s[0] <= 'z'
    ensures StableVerificationId(s)
  {
    PlainLength(s);
  }

  lemma ReviewStateIsHyphenated(k: nat)
    requires k < |REVIEW_STATES|
    ensures Hyphenated(REVIEW_STATES[k]) && |REVIEW_STATES[k]| <= 128 && REVIEW_STATES[k] != []
    ensures REVIEW_STATES[k][0] == 'r'
  {
  }

  // The state names pass the bridge's test on state names.
  lemma ReviewStatesAreStable(name: Text)
    requires name in REVIEW_STATES
    ensures StableVerificationId(name)
  {
    var k :| 0 <= k < |REVIEW_STATES| && REVIEW_STATES[k] == name;
    ReviewStateIsHyphenated(k);
    HyphenatedIsStable(name);
  }

  // As far as the date parsers agree, what the native gate lets through the bridge accepts, and it
  // is a review request with the same review id. Conversely, the bridge's review requests that
  // pass both its tests are natively acceptable but for the date.
  lemma NativeImpliesBridge(r: Request, rfc3339: Text -> bool, dateParse: Text -> bool)
    requires rfc3339(r.frozenTime) ==> dateParse(r.frozenTime)
    ensures NativeAccepts(r, rfc3339) ==>
              && ValidRequest(r, dateParse)
              && GetReviewQualificationRequest(r) == Some(ReviewRequest(r, r.flags["reviewId"].text))
    ensures ValidRequest(r, dateParse) && GetReviewQualificationRequest(r).Some? && rfc3339(r.frozenTime) ==>
              NativeAccepts(r, rfc3339)
  {
    IdTestsAgree(r.runId);
    IdTestsAgree(r.scenarioId);
    IdTestsAgree(r.stateName);
    if r.stateName in REVIEW_STATES {
      ReviewStatesAreStable(r.stateName);
    }
    if "reviewId" in r.flags && r.flags["reviewId"].TextFlag? {
      IdTestsAgree(r.flags["reviewId"].text);
    }
  }

  ghost predicate HasReviewId(r: Request) {
    "reviewId" in r.flags && r.flags["reviewId"].TextFlag? && GoodId(r.flags["reviewId"].text)
  }

  // What a request must be, on its fields, for either gate.
  lemma GatesExactly(r: Request, date: Text -> bool)
    ensures (NativeAccepts(r, date) <==> Acceptable(r, date))
    ensures (ValidRequest(r, date) && GetReviewQualificationRequest(r).Some? <==> Acceptable(r, date))
  {
    StableIdsMean(r.runId);
    StableIdsMean(r.scenarioId);
    StableIdsMean(r.stateName);
    if r.stateName in REVIEW_STATES {
      ReviewStatesAreStable(r.stateName);
    }
    if "reviewId" in r.flags && r.flags["reviewId"].TextFlag? {
      StableIdsMean(r.flags["reviewId"].text);
      PlainLength(r.flags["reviewId"].text);
    }
    FourStates(r.stateName);
  }

  ghost predicate Acceptable(r: Request, date: Text -> bool) {
    && r.protocolVersion == 1
    && GoodId(r.runId) && GoodId(r.scenarioId)
    && (|| r.stateName == "review-partial-ready" || r.stateName == "review-completed-ready"
        || r.stateName == "review-keyboard-focused" || r.stateName == "review-reduced-motion")
    && date(r.frozenTime)
    && HasReviewId(r)
  }

  lemma FourStates(name: Text)
    ensures name in REVIEW_STATES <==>
              || name == "review-partial-ready" || name == "review-completed-ready"
              || name == "review-keyboard-focused" || name == "review-reduced-motion"
  {
  }

  // ----- the key of a waiting request -----

  function RequestKey(runId: Text, scenarioId: Text): Text {
    Separators.Join(':', runId, scenarioId)
  }

  // Two pairs share a key exactly when they are equal or one is another split of the same text:
  // its run id continues the other past a colon, by as much as its scenario id is shorter.
  lemma KeysCollideExactly(run1: Text, scenario1: Text, run2: Text, scenario2: Text)
    ensures RequestKey(run1, scenario1) == RequestKey(run2, scenario2) <==>
              || (run1 == run2 && scenario1 == scenario2)
              || (exists between :: Separators.Shifted(':', run1, scenario1, run2, scenario2, between))
              || (exists between :: Separators.Shifted(':', run2, scenario2, run1, scenario1, between))
  {
    Separators.JoinsAgreeExactly(':', run1, scenario1, run2, scenario2);
  }

  // Hence the key is injective on pairs whose run ids hold no colon.
  lemma KeyIsInjectiveWithoutColons(run1: Text, scenario1: Text, run2: Text, scenario2: Text)
    requires ':' !in run1 && ':' !in run2
    requires RequestKey(run1, scenario1) == RequestKey(run2, scenario2)
    ensures run1 == run2 && scenario1 == scenario2
  {
    Separators.SplitsOnce(':', run1, scenario1, run2, scenario2);
  }

  // On all stable ids it is not, and then a second request supersedes the first although it is for
  // another run and scenario.
  lemma CollidingRequestsSupersede()
    ensures exists run1: Text, scenario1: Text, run2: Text, scenario2: Text ::
              && StableVerificationId(run1) && StableVerificationId(scenario1)
              && StableVerificationId(run2) && StableVerificationId(scenario2)
              && run1 != run2 && scenario1 != scenario2
              && PendingReviewStates.Run(
                   PendingReviewStates.INITIAL,
                   [PendingReviewStates.Wait(RequestKey(run1, scenario1)),
                    PendingReviewStates.Wait(RequestKey(run2, scenario2))]).calls
                 == [[PendingReviewStates.Rejected], []]
  {
    var run1, scenario1, run2, scenario2 := "a", "b:c", "a:b", "c";
    PlainLength(run1);
    PlainLength(scenario1);
    PlainLength(run2);
    PlainLength(scenario2);
    assert Separators.Shifted(':', run1, scenario1, run2, scenario2, "b");
    Separators.ShiftedJoins(':', run1, scenario1, run2, scenario2, "b");
    assert RequestKey(run1, scenario1) == RequestKey(run2, scenario2);
    Superseded(RequestKey(run1, scenario1));
    assert StableVerificationId(run1) && StableVerificationId(scenario1);
    assert StableVerificationId(run2) && StableVerificationId(scenario2);
    assert run1 != run2 && scenario1 != scenario2;
  }

  lemma Superseded(key: Text)
    ensures PendingReviewStates.Run(
              PendingReviewStates.INITIAL,
              [PendingReviewStates.Wait(key), PendingReviewStates.Wait(key)]).calls
            == [[PendingReviewStates.Rejected], []]
  {
    var first := PendingReviewStates.Step(PendingReviewStates.INITIAL, PendingReviewStates.Wait(key));
    assert first.calls == [[]];
    var second := PendingReviewStates.Step(first, PendingReviewStates.Wait(key));
    assert [] + [PendingReviewStates.Rejected] == [PendingReviewStates.Rejected];
    assert second.calls == [[PendingReviewStates.Rejected], []];
    var events := [PendingReviewStates.Wait(key), PendingReviewStates.Wait(key)];
    assert events[1..] == [PendingReviewStates.Wait(key)];
    assert [PendingReviewStates.Wait(key)][1..] == [];
    assert PendingReviewStates.Run(first, events[1..]) == PendingReviewStates.Run(second, []);
  }
}
