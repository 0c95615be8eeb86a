/**
 * The live buffers of the unpack agent view: two text buffers and an activity list, each bounded
 * after every event. The reference is unbounded: all text, all activities, cut once at the end.
 */
module AgentStream {
  import opened Options

  // UTF-16 code units, as strings are measured and sliced.
  type CodeUnit = n: nat | n < 0x1_0000

  type Text = seq<CodeUnit>

  const MAX_STREAM_CHARS := 48_000
  const MAX_ACTIVITIES := 80

  datatype Activity = Activity(kind: Text, caption: Text, detail: Option<Text>)

  datatype Event =
    | Output(repoPath: Text, streamId: Text, toStderr: bool, chunk: Text)
    | Action(repoPath: Text, streamId: Text, activity: Activity)

  // The repository and report the view is showing; no report means every stream.
  datatype View = View(repoPath: Text, activeReportId: Option<Text>)

  datatype Buffers = Buffers(stdout: Text, stderr: Text, activities: seq<Activity>)

  const EMPTY := Buffers([], [], [])

  predicate Shown(view: View, e: Event) {
    e.repoPath == view.repoPath &&
    (view.activeReportId.None? || view.activeReportId.value == [] || e.streamId == view.activeReportId.value)
  }

  // slice(-n) of what is longer than n.
  function Latest<T>(s: seq<T>, n: nat): (r: seq<T>)
    ensures |r| == if |s| <= n then |s| else n
    ensures r == s[|s| - |r|..]
  {
    if |s| > n then s[|s| - n..] else s
  }

  predicate SameKey(a: Activity, b: Activity) {
    a.caption == b.caption && a.kind == b.kind
  }

  // ----- the reducers -----

  function Append(prev: Text, chunk: Text): Text {
    Latest(prev + chunk, MAX_STREAM_CHARS)
  }

  function Record(prev: seq<Activity>, a: Activity): seq<Activity> {
    if prev != [] && SameKey(prev[|prev| - 1], a) then prev else Latest(prev + [a], MAX_ACTIVITIES)
  }

  function Handle(view: View, b: Buffers, e: Event): Buffers {
    if !Shown(view, e) then b else
      match e
      case Output(_, _, true, chunk) => b.(stderr := Append(b.stderr, chunk))
      case Output(_, _, false, chunk) => b.(stdout := Append(b.stdout, chunk))
      case Action(_, _, activity) => b.(activities := Record(b.activities, activity))
  }

  function Run(view: View, events: seq<Event>): Buffers {
    if events == [] then EMPTY
    else Handle(view, Run(view, events[..|events| - 1]), events[|events| - 1])
  }

  // ----- the unbounded reference -----

  // The event is of the repository shown and, if a report is active, of that report's stream.
  ghost predicate OfView(view: View, e: Event) {
    e.repoPath == view.repoPath && view.activeReportId in {None, Some([]), Some(e.streamId)}
  }

  // All text of one stream, in order.
  ghost function AllText(view: View, events: seq<Event>, stderr: bool): Text {
    if events == [] then [] else
      var last := events[|events| - 1];
      AllText(view, events[..|events| - 1], stderr)
      + if OfView(view, last) && last.Output? && last.toStderr == stderr then last.chunk else []
  }

  ghost function AllActivities(view: View, events: seq<Event>): seq<Activity> {
    if events == [] then [] else
      var last := events[|events| - 1];
      AllActivities(view, events[..|events| - 1]) + if OfView(view, last) && last.Action? then [last.activity] else []
  }

  ghost predicate Repeats(all: seq<Activity>, i: nat)
    requires 0 < i < |all|
  {
    all[i].caption == all[i - 1].caption && all[i].kind == all[i - 1].kind
  }

  // Each activity whose caption or kind differs from that of the one right before it.
  ghost function Changes(all: seq<Activity>, n: nat): seq<Activity>
    requires n <= |all|
  {
    if n == 0 then []
    else Changes(all, n - 1) + if n == 1 || !Repeats(all, n - 1) then [all[n - 1]] else []
  }

  // ----- bounding at every event is bounding once -----

  lemma LatestOfLatest<T>(s: seq<T>, t: seq<T>, n: nat)
    ensures Latest(Latest(s, n) + t, n) == Latest(s + t, n)
  {
    if |s| > n {
      assert Latest(s, n) + t == (s + t)[|s| - n..];
    }
  }

  lemma {:induction false} LastChange(all: seq<Activity>, n: nat)
    requires 0 < n <= |all|
    ensures var changes := Changes(all, n);
      changes != [] && SameKey(changes[|changes| - 1], all[n - 1])
  {
    if n > 1 {
      LastChange(all, n - 1);
    }
  }

  lemma {:induction false} ChangesOfPrefix(all: seq<Activity>, more: seq<Activity>, n: nat)
    requires n <= |all|
    ensures Changes(all + more, n) == Changes(all, n)
  {
    if n > 0 {
      ChangesOfPrefix(all, more, n - 1);
    }
  }

  // Comparing with the last activity kept is comparing with the last one seen.
  lemma ChangesStep(all: seq<Activity>, a: Activity)
    ensures var changes := Changes(all, |all|);
      Changes(all + [a], |all| + 1) ==
        if changes != [] && SameKey(changes[|changes| - 1], a) then changes else changes + [a]
  {
    ChangesOfPrefix(all, [a], |all|);
    if all != [] {
      LastChange(all, |all|);
      assert (all + [a])[|all| - 1] == all[|all| - 1];
    }
    assert (all + [a])[|all|] == a;
  }

  lemma LatestKeepsLast<T>(s: seq<T>, n: nat)
    requires n > 0
    ensures Latest(s, n) == [] <==> s == []
    ensures s != [] ==> Latest(s, n)[|Latest(s, n)| - 1] == s[|s| - 1]
  {
  }

  lemma RecordLatest(changes: seq<Activity>, a: Activity)
    ensures Record(Latest(changes, MAX_ACTIVITIES), a) ==
              if changes != [] && SameKey(changes[|changes| - 1], a) then Latest(changes, MAX_ACTIVITIES)
              else Latest(changes + [a], MAX_ACTIVITIES)
  {
    LatestKeepsLast(changes, MAX_ACTIVITIES);
    if changes == [] || !SameKey(changes[|changes| - 1], a) {
      LatestOfLatest(changes, [a], MAX_ACTIVITIES);
    }
  }

  lemma RecordStep(all: seq<Activity>, a: Activity)
    ensures Record(Latest(Changes(all, |all|), MAX_ACTIVITIES), a)
         == Latest(Changes(all + [a], |all| + 1), MAX_ACTIVITIES)
  {
    ChangesStep(all, a);
    RecordLatest(Changes(all, |all|), a);
  }

  function BufferOf(b: Buffers, stderr: bool): Text {
    if stderr then b.stderr else b.stdout
  }

  // After any events, each text buffer is the last 48,000 units of all the text of its stream.
  lemma {:induction false} TextIsLatest(view: View, events: seq<Event>, stderr: bool)
    ensures BufferOf(Run(view, events), stderr) == Latest(AllText(view, events, stderr), 48_000)
  {
    if events != [] {
      var front, last := events[..|events| - 1], events[|events| - 1];
      TextIsLatest(view, front, stderr);
      if Shown(view, last) && last.Output? && last.toStderr == stderr {
        LatestOfLatest(AllText(view, front, stderr), last.chunk, MAX_STREAM_CHARS);
      } else {
        assert AllText(view, front, stderr) + [] == AllText(view, front, stderr);
      }
    }
  }

  // And the list is the last 80 of the activities with adjacent repetitions dropped.
  lemma {:induction false} ActivitiesAreLatest(view: View, events: seq<Event>)
    ensures var all := AllActivities(view, events);
            Run(view, events).activities == Latest(Changes(all, |all|), 80)
  {
    if events != [] {
      var front, last := events[..|events| - 1], events[|events| - 1];
      ActivitiesAreLatest(view, front);
      if Shown(view, last) && last.Action? {
        RecordStep(AllActivities(view, front), last.activity);
      } else {
        assert AllActivities(view, front) + [] == AllActivities(view, front);
      }
    }
  }

  // ----- the state cells -----

  class Panel {
    const view: View
    var stdout: Text
    var stderr: Text
    var activities: seq<Activity>

    ghost function Snapshot(): Buffers
      reads this
    {
      Buffers(stdout, stderr, activities)
    }

    constructor (view: View)
      ensures this.view == view && Snapshot() == Run(view, [])
    {
      this.view := view;
      stdout, stderr, activities := [], [], [];
    }

    // When the agent is not running, everything is cleared.
    method Clear()
      modifies this
      ensures Snapshot() == Run(view, []) == Buffers([], [], [])
    {
      stdout, stderr, activities := [], [], [];
    }

    // The listener of the stream event.
    method OnOutput(e: Event, ghost before: seq<Event>)
      requires e.Output? && Snapshot() == Run(view, before)
      modifies this
      ensures Snapshot() == Run(view, before + [e])
    {
      assert (before + [e])[..|before|] == before;
      if Shown(view, e) {
        if e.toStderr {
          var next := stderr + e.chunk;
          stderr := if |next| > MAX_STREAM_CHARS then next[|next| - MAX_STREAM_CHARS..] else next;
        } else {
          var next := stdout + e.chunk;
          stdout := if |next| > MAX_STREAM_CHARS then next[|next| - MAX_STREAM_CHARS..] else next;
        }
      }
    }

    // The listener of the activity event.
    method OnAction(e: Event, ghost before: seq<Event>)
      requires e.Action? && Snapshot() == Run(view, before)
      modifies this
      ensures Snapshot() == Run(view, before + [e])
    {
      assert (before + [e])[..|before|] == before;
      if !Shown(view, e) {
        return;
      }
      if activities != [] {
        var last := activities[|activities| - 1];
        if last.caption == e.activity.caption && last.kind == e.activity.kind {
          return;
        }
      }
      var next := activities + [e.activity];
      activities := if |next| > MAX_ACTIVITIES then next[|next| - MAX_ACTIVITIES..] else next;
    }
  }
}
