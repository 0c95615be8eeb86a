/**
 * Truncation of UTF-8 text at a byte limit without splitting a character, and the rendering of
 * a talk row that uses it twice. Valid UTF-8 is the grammar of section 4 of RFC 3629.
 */
module TalkText {
  import opened Options

  type Byte = b: nat | b < 256

  type Text = seq<Byte>

  // ----- UTF-8 -----

  predicate Tail(b: Byte) {
    0x80 <= b <= 0xBF
  }

  predicate TailAt(s: Text, i: nat) {
    i < |s| && Tail(s[i])
  }

  predicate InRangeAt(s: Text, i: nat, low: Byte, high: Byte) {
    i < |s| && low <= s[i] <= high
  }

  // The length in bytes of the character at the start of s, or 0 when there is none.
  function CharLen(s: Text): (n: nat)
    ensures n <= 4 && n <= |s|
    ensures forall i :: 1 <= i < n ==> Tail(s[i])
    ensures n > 0 ==> !Tail(s[0])
  {
    if s == [] then 0
    else if s[0] <= 0x7F then 1
    else if 0xC2 <= s[0] <= 0xDF && TailAt(s, 1) then 2
    else if s[0] == 0xE0 && InRangeAt(s, 1, 0xA0, 0xBF) && TailAt(s, 2) then 3
    else if 0xE1 <= s[0] <= 0xEC && TailAt(s, 1) && TailAt(s, 2) then 3
    else if s[0] == 0xED && InRangeAt(s, 1, 0x80, 0x9F) && TailAt(s, 2) then 3
    else if 0xEE <= s[0] <= 0xEF && TailAt(s, 1) && TailAt(s, 2) then 3
    else if s[0] == 0xF0 && InRangeAt(s, 1, 0x90, 0xBF) && TailAt(s, 2) && TailAt(s, 3) then 4
    else if 0xF1 <= s[0] <= 0xF3 && TailAt(s, 1) && TailAt(s, 2) && TailAt(s, 3) then 4
    else if s[0] == 0xF4 && InRangeAt(s, 1, 0x80, 0x8F) && TailAt(s, 2) && TailAt(s, 3) then 4
    else 0
  }

  predicate ValidUtf8(s: Text)
    decreases |s|
  {
    s == [] || (CharLen(s) > 0 && ValidUtf8(s[CharLen(s)..]))
  }

  // ----- the same, by encoding -----

  ghost predicate Scalar(c: nat) {
    c < 0x11_0000 && !(0xD800 <= c <= 0xDFFF)
  }

  // The UTF-8 form of a scalar value (section 3 of RFC 3629).
  ghost function Encode(c: nat): Text
    requires Scalar(c)
  {
    if c < 0x80 then [c]
    else if c < 0x800 then [0xC0 + c / 64, 0x80 + c % 64]
    else if c < 0x1_0000 then [0xE0 + c / 64 / 64, 0x80 + c / 64 % 64, 0x80 + c % 64]
    else [0xF0 + c / 64 / 64 / 64, 0x80 + c / 64 / 64 % 64, 0x80 + c / 64 % 64, 0x80 + c % 64]
  }

  ghost function EncodeAll(cs: seq<nat>): Text
    requires forall i :: 0 <= i < |cs| ==> Scalar(cs[i])
  {
    if cs == [] then [] else Encode(cs[0]) + EncodeAll(cs[1..])
  }

  lemma EncodingIsOneChar(c: nat)
    requires Scalar(c)
    ensures CharLen(Encode(c)) == |Encode(c)|
  {
  }

  // What a character at the start of a text encodes.
  ghost function Decode(s: Text): nat
    requires CharLen(s) > 0
  {
    match CharLen(s)
    case 1 => s[0]
    case 2 => (s[0] as int - 0xC0) * 64 + Payload(s[1])
    case 3 => ((s[0] as int - 0xE0) * 64 + Payload(s[1])) * 64 + Payload(s[2])
    case _ => (((s[0] as int - 0xF0) * 64 + Payload(s[1])) * 64 + Payload(s[2])) * 64 + Payload(s[3])
  }

  function Payload(tail: Byte): int {
    tail as int - 0x80
  }

  lemma SixBits(high: nat, low: nat)
    requires low < 64
    ensures (high * 64 + low) / 64 == high && (high * 64 + low) % 64 == low
  {
  }

  lemma CharIsAnEncoding(s: Text)
    requires CharLen(s) > 0
    ensures Scalar(Decode(s)) && Encode(Decode(s)) == s[..CharLen(s)]
  {
    if CharLen(s) == 2 {
      SixBits(s[0] - 0xC0, Payload(s[1]));
    } else if CharLen(s) == 3 {
      ThreeBytes(s);
    } else if CharLen(s) == 4 {
      FourBytes(s);
    }
  }

  lemma ThreeBytes(s: Text)
    requires CharLen(s) == 3
    ensures Scalar(Decode(s)) && Encode(Decode(s)) == s[..3]
  {
    var a, b, c := s[0] as int - 0xE0, Payload(s[1]), Payload(s[2]);
    SixBits(a, b);
    SixBits(a * 64 + b, c);
    assert 0x800 <= Decode(s) < 0x1_0000;
  }

  lemma FourBytes(s: Text)
    requires CharLen(s) == 4
    ensures Scalar(Decode(s)) && Encode(Decode(s)) == s[..4]
  {
    var a, b, c, d := s[0] as int - 0xF0, Payload(s[1]), Payload(s[2]), Payload(s[3]);
    SixBits(a, b);
    SixBits(a * 64 + b, c);
    SixBits((a * 64 + b) * 64 + c, d);
    assert 0x1_0000 <= Decode(s) < 0x11_0000;
  }

  // A text is valid exactly if it encodes some scalar values.
  lemma {:induction false} ValidExactly(s: Text)
    ensures ValidUtf8(s) <==> exists cs: seq<nat> :: (forall i :: 0 <= i < |cs| ==> Scalar(cs[i])) && s == EncodeAll(cs)
    decreases |s|
  {
    if ValidUtf8(s) {
      var cs := Decoded(s);
    }
    if cs: seq<nat> :| (forall i :: 0 <= i < |cs| ==> Scalar(cs[i])) && s == EncodeAll(cs) {
      EncodingIsValid(cs);
    }
  }

  lemma {:induction false} Decoded(s: Text) returns (cs: seq<nat>)
    requires ValidUtf8(s)
    ensures (forall i :: 0 <= i < |cs| ==> Scalar(cs[i])) && s == EncodeAll(cs)
    decreases |s|
  {
    if s == [] {
      cs := [];
    } else {
      var n := CharLen(s);
      CharIsAnEncoding(s);
      var rest := Decoded(s[n..]);
      cs := [Decode(s)] + rest;
      assert cs[1..] == rest && s == s[..n] + s[n..];
    }
  }

  lemma {:induction false} EncodingIsValid(cs: seq<nat>)
    requires forall i :: 0 <= i < |cs| ==> Scalar(cs[i])
    ensures ValidUtf8(EncodeAll(cs))
  {
    if cs != [] {
      EncodingIsValid(cs[1..]);
      EncodingIsOneChar(cs[0]);
      var c := Encode(cs[0]);
      assert c[|c|..] == [];
      ConcatValid(c, EncodeAll(cs[1..]));
    }
  }

  // str::is_char_boundary: the ends, or any byte that does not continue a character.
  predicate IsCharBoundary(s: Text, k: nat) {
    k == 0 || k == |s| || (k < |s| && !Tail(s[k]))
  }

  // A character is recognised by its own bytes alone.
  lemma CharLenOfPrefix(s: Text, k: nat)
    requires k <= |s|
    ensures CharLen(s) <= k ==> CharLen(s[..k]) == CharLen(s)
    ensures CharLen(s[..k]) > 0 ==> CharLen(s) == CharLen(s[..k])
  {
  }

  lemma {:induction false} ConcatValid(a: Text, b: Text)
    requires ValidUtf8(a) && ValidUtf8(b)
    ensures ValidUtf8(a + b)
    decreases |a|
  {
    if a == [] {
      assert a + b == b;
    } else {
      var n := CharLen(a);
      assert (a + b)[..|a|] == a;
      CharLenOfPrefix(a + b, |a|);
      assert (a + b)[n..] == a[n..] + b;
      ConcatValid(a[n..], b);
    }
  }

  // A cut at a boundary leaves two valid texts.
  lemma {:induction false} BoundaryCutsClean(s: Text, k: nat)
    requires ValidUtf8(s) && k <= |s| && IsCharBoundary(s, k)
    ensures ValidUtf8(s[..k]) && ValidUtf8(s[k..])
    decreases |s|
  {
    if k == 0 {
      assert s[..k] == [] && s[k..] == s;
    } else {
      var n := CharLen(s);
      assert k >= n;
      CharLenOfPrefix(s, k);
      assert s[..k][n..] == s[n..][..k - n] && s[n..][k - n..] == s[k..];
      BoundaryCutsClean(s[n..], k - n);
    }
  }

  // And only there: a valid prefix of a valid text ends at a boundary.
  lemma {:induction false} ValidPrefixEndsAtBoundary(s: Text, k: nat)
    requires ValidUtf8(s) && k <= |s| && ValidUtf8(s[..k])
    ensures IsCharBoundary(s, k)
    decreases |s|
  {
    if k > 0 {
      var n := CharLen(s);
      CharLenOfPrefix(s, k);
      assert s[..k][n..] == s[n..][..k - n];
      ValidPrefixEndsAtBoundary(s[n..], k - n);
      if n < k < |s| {
        assert s[n..][k - n] == s[k];
      }
    }
  }

  // Boundaries are never more than three bytes apart from any position.
  lemma {:induction false} BoundaryIsNear(s: Text, k: nat) returns (j: nat)
    requires ValidUtf8(s) && k <= |s|
    ensures j <= k <= j + 3 && IsCharBoundary(s, j)
    decreases |s|
  {
    var n := CharLen(s);
    if k < n || s == [] {
      j := 0;
    } else {
      var i := BoundaryIsNear(s[n..], k - n);
      j := i + n;
      if i > 0 && j < |s| {
        assert s[n..][i] == s[j];
      }
    }
  }

  // ----- truncation -----

  // The bytes of an ASCII literal.
  function Ascii(s: string): (r: Text)
    ensures |r| == |s| && forall i :: 0 <= i < |r| ==> r[i] < 128
    ensures forall i :: 0 <= i < |r| && s[i] < 128 as char ==> r[i] == s[i] as int
  {
    seq(|s|, i requires 0 <= i < |s| => if s[i] as int < 128 then s[i] as int else 0)
  }

  lemma {:induction false} AsciiValid(s: Text)
    requires forall i :: 0 <= i < |s| ==> s[i] < 128
    ensures ValidUtf8(s)
  {
    if s != [] {
      AsciiValid(s[1..]);
    }
  }

  const SUFFIX := Ascii("...[truncated]")

  // end is where the longest valid prefix of at most max bytes ends.
  ghost predicate LongestValidPrefix(s: Text, max: nat, end: nat) {
    && end <= max <= |s|
    && ValidUtf8(s[..end])
    && forall j :: 0 <= j <= max && ValidUtf8(s[..j]) ==> j <= end
  }

  lemma LastBoundaryIsLongest(s: Text, max: nat, e: nat)
    requires ValidUtf8(s) && e <= max <= |s| && IsCharBoundary(s, e)
    requires forall j :: e < j <= max ==> !IsCharBoundary(s, j)
    ensures LongestValidPrefix(s, max, e)
    ensures ValidUtf8(s[..e] + SUFFIX)
  {
    BoundaryCutsClean(s, e);
    forall j | 0 <= j <= max && ValidUtf8(s[..j])
      ensures j <= e
    {
      ValidPrefixEndsAtBoundary(s, j);
    }
    AsciiValid(SUFFIX);
    ConcatValid(s[..e], SUFFIX);
  }

  method TruncateString(s: Text, max: nat) returns (r: Text, ghost end: nat)
    requires ValidUtf8(s)
    ensures |s| <= max ==> r == s
    ensures |s| > max ==>
              && LongestValidPrefix(s, max, end) && max <= end + 3
              && r == s[..end] + Ascii("...[truncated]")
    ensures ValidUtf8(r) && |r| <= max + 14
  {
    end := 0;
    if |s| <= max {
      r := s;
    } else {
      var e := max;
      ghost var near := BoundaryIsNear(s, max);
      while e > 0 && !IsCharBoundary(s, e)
        invariant near <= e <= max
        invariant forall j :: e < j <= max ==> !IsCharBoundary(s, j)
      {
        e := e - 1;
      }
      LastBoundaryIsLongest(s, max, e);
      r := s[..e] + SUFFIX;
      end := e;
    }
  }

  // ----- rendering -----

  const MAX_RENDER_BYTES := 2048
  const MAX_TASK_BYTES := 500

  datatype Talk = Talk(
    agentType: Text,
    createdAt: Text,
    inputPrompt: Text,
    actionsSummary: Option<Text>,
    filesModified: Option<Text>,
    keyDecisions: Option<Text>,
    unfinishedWork: Option<Text>,
    recommendedNextSteps: Option<Text>)

  ghost predicate ValidOption(t: Option<Text>) {
    t.Some? ==> ValidUtf8(t.value)
  }

  // Every field of the row is a Rust string.
  ghost predicate ValidTalk(talk: Talk) {
    && ValidUtf8(talk.agentType) && ValidUtf8(talk.createdAt) && ValidUtf8(talk.inputPrompt)
    && ValidOption(talk.actionsSummary) && ValidOption(talk.filesModified) && ValidOption(talk.keyDecisions)
    && ValidOption(talk.unfinishedWork) && ValidOption(talk.recommendedNextSteps)
  }

  ghost predicate AllValid(parts: seq<Text>) {
    forall i :: 0 <= i < |parts| ==> ValidUtf8(parts[i])
  }

  function Join(parts: seq<Text>): Text {
    if parts == [] then [] else if |parts| == 1 then parts[0] else parts[0] + Ascii("\n") + Join(parts[1..])
  }

  lemma {:induction false} JoinValid(parts: seq<Text>)
    requires AllValid(parts)
    ensures ValidUtf8(Join(parts))
  {
    if |parts| > 1 {
      assert AllValid(parts[1..]);
      JoinValid(parts[1..]);
      AsciiValid(Ascii("\n"));
      ConcatValid(parts[0], Ascii("\n"));
      ConcatValid(parts[0] + Ascii("\n"), Join(parts[1..]));
    }
  }

  // One more part goes on a line of its own.
  lemma {:induction false} JoinLines(parts: seq<Text>, p: Text)
    requires parts != []
    ensures Join([p]) == p
    ensures Join(parts + [p]) == Join(parts) + [10] + p
  {
    assert Ascii("\n") == [10];
    if |parts| == 1 {
      assert (parts + [p])[1..] == [p];
    } else {
      JoinLines(parts[1..], p);
      assert (parts + [p])[1..] == parts[1..] + [p];
    }
  }

  // The files line is also left out for an empty list.
  function ListedFiles(files: Option<Text>): Option<Text> {
    if files == Some(Ascii("[]")) then None else files
  }

  function Heading(talk: Talk): Text {
    Ascii("## Previous Agent Context (") + talk.agentType + Ascii(", ") + talk.createdAt + Ascii(")\n")
  }

  // A labelled line of the preamble, if there is something to put on it.
  function Line(caption: string, value: Option<Text>): seq<Text> {
    if value.Some? then [Ascii(caption) + value.value + Ascii("\n")] else []
  }

  // The parts of the preamble, given the task preview.
  function Parts(talk: Talk, preview: Text): seq<Text> {
    [Heading(talk)]
    + Line("**Task given:** ", Some(preview))
    + Line("**What was done:** ", talk.actionsSummary)
    + Line("**Files modified:** ", ListedFiles(talk.filesModified))
    + Line("**Key decisions:** ", talk.keyDecisions)
    + Line("**Unfinished work:** ", talk.unfinishedWork)
    + Line("**Recommended next steps:** ", talk.recommendedNextSteps)
    + [Ascii("---\n")]
  }

  lemma LineValid(caption: string, value: Option<Text>)
    requires ValidOption(value)
    ensures AllValid(Line(caption, value))
  {
    AsciiValid(Ascii(caption));
    AsciiValid(Ascii("\n"));
    if value.Some? {
      ConcatValid(Ascii(caption), value.value);
      ConcatValid(Ascii(caption) + value.value, Ascii("\n"));
    }
  }

  lemma HeadingValid(talk: Talk)
    requires ValidTalk(talk)
    ensures ValidUtf8(Heading(talk))
  {
    var a, b, c := Ascii("## Previous Agent Context ("), Ascii(", "), Ascii(")\n");
    AsciiValid(a);
    AsciiValid(b);
    AsciiValid(c);
    ConcatValid(a, talk.agentType);
    ConcatValid(a + talk.agentType, b);
    ConcatValid(a + talk.agentType + b, talk.createdAt);
    ConcatValid(a + talk.agentType + b + talk.createdAt, c);
  }

  method BuildParts(talk: Talk, preview: Text) returns (parts: seq<Text>)
    requires ValidTalk(talk) && ValidUtf8(preview)
    ensures parts == Parts(talk, preview) && AllValid(parts)
  {
    HeadingValid(talk);
    parts := [Heading(talk)];
    parts := Push(parts, "**Task given:** ", Some(preview));
    parts := Push(parts, "**What was done:** ", talk.actionsSummary);
    parts := Push(parts, "**Files modified:** ", ListedFiles(talk.filesModified));
    parts := Push(parts, "**Key decisions:** ", talk.keyDecisions);
    parts := Push(parts, "**Unfinished work:** ", talk.unfinishedWork);
    parts := Push(parts, "**Recommended next steps:** ", talk.recommendedNextSteps);
    AsciiValid(Ascii("---\n"));
    parts := parts + [Ascii("---\n")];
  }

  method Push(parts: seq<Text>, caption: string, value: Option<Text>) returns (more: seq<Text>)
    requires AllValid(parts) && ValidOption(value)
    ensures more == parts + Line(caption, value) && AllValid(more)
  {
    LineValid(caption, value);
    more := parts + Line(caption, value);
  }

  // ----- what the parts are -----

  // A field with something in it, under its caption.
  ghost predicate Under(p: Text, caption: string, value: Option<Text>) {
    value.Some? && p == Ascii(caption) + value.value + Ascii("\n")
  }

  // Every part is the heading, the task, a field that is there, or the closing rule, and all of
  // these are parts; a file list that is empty counts as not there.
  lemma PartsExactly(talk: Talk, preview: Text, p: Text)
    ensures p in Parts(talk, preview) <==>
              || p == Ascii("## Previous Agent Context (") + talk.agentType + Ascii(", ") + talk.createdAt
                      + Ascii(")\n")
              || p == Ascii("**Task given:** ") + preview + Ascii("\n")
              || Under(p, "**What was done:** ", talk.actionsSummary)
              || (talk.filesModified != Some(Ascii("[]")) && Under(p, "**Files modified:** ", talk.filesModified))
              || Under(p, "**Key decisions:** ", talk.keyDecisions)
              || Under(p, "**Unfinished work:** ", talk.unfinishedWork)
              || Under(p, "**Recommended next steps:** ", talk.recommendedNextSteps)
              || p == Ascii("---\n")
  {
  }

  // Their order, when all are there.
  lemma PartsInOrder(talk: Talk, preview: Text, done: Text, files: Text, decisions: Text, open: Text, next: Text)
    requires talk.actionsSummary == Some(done) && talk.filesModified == Some(files) && files != Ascii("[]")
    requires talk.keyDecisions == Some(decisions) && talk.unfinishedWork == Some(open)
    requires talk.recommendedNextSteps == Some(next)
    ensures Parts(talk, preview) == [
              Ascii("## Previous Agent Context (") + talk.agentType + Ascii(", ") + talk.createdAt + Ascii(")\n"),
              Ascii("**Task given:** ") + preview + Ascii("\n"),
              Ascii("**What was done:** ") + done + Ascii("\n"),
              Ascii("**Files modified:** ") + files + Ascii("\n"),
              Ascii("**Key decisions:** ") + decisions + Ascii("\n"),
              Ascii("**Unfinished work:** ") + open + Ascii("\n"),
              Ascii("**Recommended next steps:** ") + next + Ascii("\n"),
              Ascii("---\n")]
  {
  }

  // Every rendered talk is valid UTF-8 of at most 2062 bytes. It is the joined parts themselves
  // when they fit, and otherwise their longest valid prefix within the limit and the suffix.
  method RenderTalkForPrompt(talk: Talk) returns (r: Text, ghost preview: Text, ghost taskEnd: nat, ghost end: nat)
    requires ValidTalk(talk)
    ensures ValidUtf8(r) && |r| <= 2062
    ensures if |talk.inputPrompt| <= 500 then preview == talk.inputPrompt
            else LongestValidPrefix(talk.inputPrompt, 500, taskEnd)
                 && preview == talk.inputPrompt[..taskEnd] + Ascii("...[truncated]")
    ensures var whole := Join(Parts(talk, preview));
      if |whole| <= 2048 then r == whole
      else LongestValidPrefix(whole, 2048, end) && r == whole[..end] + Ascii("...[truncated]")
  {
    var taskPreview;
    taskPreview, taskEnd := TruncateString(talk.inputPrompt, MAX_TASK_BYTES);
    preview := taskPreview;
    var parts := BuildParts(talk, taskPreview);
    JoinValid(parts);
    r, end := TruncateString(Join(parts), MAX_RENDER_BYTES);
  }
}
