/**
 * The waiting side of the verification state bridge: a map of pending review states, each with
 * the two settling functions of a promise and a timer. Four events compete for an entry: a new
 * wait under the same key, completion, failure and the timer.
 *
 * A promise is modelled by the list of settling calls made on it, so that "settled at most once"
 * is a statement about the code and not about promises ignoring later calls. Timers are live
 * from `setTimeout` until they fire or are cleared; only a live timer can fire.
 */
module PendingReviewStates {
  import opened Options

  type Key = string

  // resolve(), reject() and the timer's reject(new Error(...))
  datatype Settlement = Resolved | Rejected | TimedOut

  datatype Entry = Entry(wait: nat, timer: nat)

  datatype Callback = Callback(key: Key, wait: nat)

  datatype State = State(
    pending: map<Key, Entry>,
    timers: map<nat, Callback>,
    nextTimer: nat,
    calls: seq<seq<Settlement>>)

  datatype Event =
    | Wait(key: Key)
    | Complete(key: Key)
    | Fail(key: Key)
    | Fire(timer: nat)

  const INITIAL := State(map[], map[], 0, [])

  function Settle(calls: seq<seq<Settlement>>, wait: nat, how: Settlement): seq<seq<Settlement>> {
    if wait < |calls| then calls[wait := calls[wait] + [how]] else calls
  }

  // Clear the timer, drop the entry, settle the promise.
  function Close(s: State, key: Key, how: Settlement): State
    requires key in s.pending
  {
    var entry := s.pending[key];
    s.(pending := s.pending - {key}, timers := s.timers - {entry.timer}, calls := Settle(s.calls, entry.wait, how))
  }

  function Open(s: State, key: Key): State {
    var wait := |s.calls|;
    s.(pending := s.pending[key := Entry(wait, s.nextTimer)],
       timers := s.timers[s.nextTimer := Callback(key, wait)],
       nextTimer := s.nextTimer + 1,
       calls := s.calls + [[]])
  }

  function Step(s: State, e: Event): State {
    match e
    case Wait(key) => if key in s.pending then Open(Close(s, key, Rejected), key) else Open(s, key)
    case Complete(key) => if key in s.pending then Close(s, key, Resolved) else s
    case Fail(key) => if key in s.pending then Close(s, key, Rejected) else s
    case Fire(timer) =>
      if timer in s.timers then
        // the callback deletes whatever entry its key has, and rejects its own promise
        var callback := s.timers[timer];
        s.(pending := s.pending - {callback.key}, timers := s.timers - {timer},
           calls := Settle(s.calls, callback.wait, TimedOut))
      else s
  }

  function Run(s: State, events: seq<Event>): State
    decreases |events|
  {
    if events == [] then s else Run(Step(s, events[0]), events[1..])
  }

  // Unsettled promises, live timers and map entries correspond one to one: wait w is unsettled
  // exactly when timer w is live, and then the entry under that timer's key is (w, w).
  ghost predicate Inv(s: State) {
    && s.nextTimer == |s.calls|
    && (forall w :: 0 <= w < |s.calls| ==> |s.calls[w]| <= 1)
    && (forall w :: 0 <= w < |s.calls| ==> (s.calls[w] == [] <==> w in s.timers))
    && (forall t :: t in s.timers ==>
          && t < |s.calls|
          && s.timers[t].wait == t
          && s.timers[t].key in s.pending
          && s.pending[s.timers[t].key] == Entry(t, t))
    && (forall k :: k in s.pending ==>
          && s.pending[k].wait == s.pending[k].timer
          && s.pending[k].timer in s.timers
          && s.timers[s.pending[k].timer].key == k)
  }

  lemma CloseKeepsInv(s: State, key: Key, how: Settlement)
    requires Inv(s) && key in s.pending
    ensures Inv(Close(s, key, how))
    ensures Close(s, key, how).calls == s.calls[s.pending[key].wait := [how]]
  {
    var w := s.pending[key].wait;
    assert s.calls[w] == [] && [] + [how] == [how];
  }

  lemma OpenKeepsInv(s: State, key: Key)
    requires Inv(s) && key !in s.pending
    ensures Inv(Open(s, key))
  {
  }

  // A live timer's callback can only close the wait it was set for.
  lemma FiringClosesOwnWait(s: State, timer: nat)
    requires Inv(s) && timer in s.timers
    ensures s.timers[timer].key in s.pending && s.pending[s.timers[timer].key] == Entry(timer, timer)
    ensures Step(s, Fire(timer)) == Close(s, s.timers[timer].key, TimedOut)
  {
  }

  lemma StepKeepsInv(s: State, e: Event)
    requires Inv(s)
    ensures Inv(Step(s, e))
  {
    match e
    case Wait(key) =>
      if key in s.pending {
        CloseKeepsInv(s, key, Rejected);
        OpenKeepsInv(Close(s, key, Rejected), key);
      } else {
        OpenKeepsInv(s, key);
      }
    case Complete(key) => if key in s.pending { CloseKeepsInv(s, key, Resolved); }
    case Fail(key) => if key in s.pending { CloseKeepsInv(s, key, Rejected); }
    case Fire(timer) =>
      if timer in s.timers {
        FiringClosesOwnWait(s, timer);
        CloseKeepsInv(s, s.timers[timer].key, TimedOut);
      }
  }

  // In every run: at most one settling call per wait, and the one-to-one correspondence.
  lemma {:induction false} EveryRunKeepsInv(s: State, events: seq<Event>)
    requires Inv(s)
    ensures Inv(Run(s, events))
    decreases |events|
  {
    if events != [] {
      StepKeepsInv(s, events[0]);
      EveryRunKeepsInv(Step(s, events[0]), events[1..]);
    }
  }

  // What the correspondence means for one reachable state.
  lemma ReachableStates(events: seq<Event>)
    ensures var s := Run(INITIAL, events);
      && (forall w :: 0 <= w < |s.calls| ==> |s.calls[w]| <= 1)
      // every unsettled wait has a live timer, and firing it settles that wait and no other
      && (forall w :: 0 <= w < |s.calls| && s.calls[w] == [] ==>
            && w in s.timers
            && Step(s, Fire(w)).calls == s.calls[w := [TimedOut]])
      // a timer that can still fire belongs to the current entry of its key: it never removes
      // the entry of another wait
      && (forall t :: t in s.timers ==>
            && s.timers[t].key in s.pending
            && s.pending[s.timers[t].key].wait == t
            && Step(s, Fire(t)).pending == s.pending - {s.timers[t].key})
      // and there are as many entries as live timers
      && |s.pending| == |s.timers|
  {
    EveryRunKeepsInv(INITIAL, events);
    var s := Run(INITIAL, events);
    forall t | t in s.timers
      ensures Step(s, Fire(t)).calls == s.calls[t := [TimedOut]]
      ensures Step(s, Fire(t)).pending == s.pending - {s.timers[t].key}
    {
      FiringClosesOwnWait(s, t);
      CloseKeepsInv(s, s.timers[t].key, TimedOut);
    }
    SameSize(s.pending.Keys, s.timers.Keys, s);
  }

  lemma {:induction false} SameSize(keys: set<Key>, timers: set<nat>, s: State)
    requires Inv(s)
    requires keys <= s.pending.Keys
    requires timers == set k | k in keys :: s.pending[k].timer
    ensures |keys| == |timers|
    decreases keys
  {
    if keys != {} {
      var k :| k in keys;
      var t := s.pending[k].timer;
      assert timers - {t} == set k' | k' in keys - {k} :: s.pending[k'].timer by {
        forall k' | k' in keys - {k}
          ensures s.pending[k'].timer != t
        {
          assert s.timers[s.pending[k'].timer].key == k';
        }
      }
      SameSize(keys - {k}, timers - {t}, s);
    }
  }

  // ----- which event settles which wait -----

  // How an event settles the wait, if it concerns it: it names the wait's key or fires its timer.
  function Settles(e: Event, key: Key, wait: nat): Option<Settlement> {
    match e
    case Wait(k) => if k == key then Some(Rejected) else None
    case Complete(k) => if k == key then Some(Resolved) else None
    case Fail(k) => if k == key then Some(Rejected) else None
    case Fire(t) => if t == wait then Some(TimedOut) else None
  }

  // The reference: the first later event that concerns the wait decides.
  function FirstSettling(events: seq<Event>, key: Key, wait: nat): Option<Settlement>
    decreases |events|
  {
    if events == [] then None
    else if Settles(events[0], key, wait).Some? then Settles(events[0], key, wait)
    else FirstSettling(events[1..], key, wait)
  }

  function AsCalls(how: Option<Settlement>): seq<Settlement> {
    match how case None => [] case Some(x) => [x]
  }

  lemma CloseTouchesOne(s: State, key: Key, how: Settlement, wait: nat)
    requires Inv(s) && key in s.pending && wait < |s.calls|
    ensures wait in s.timers ==> (s.timers[wait].key == key <==> s.pending[key].wait == wait)
    ensures Close(s, key, how).calls[wait] == if s.pending[key].wait == wait then [how] else s.calls[wait]
    ensures wait in s.timers && s.timers[wait].key != key ==>
              wait in Close(s, key, how).timers && Close(s, key, how).timers[wait] == s.timers[wait]
    ensures s.calls[wait] != [] ==> s.pending[key].wait != wait
  {
  }

  // What one event does to one wait: settled waits never change, an unsettled one is settled
  // exactly by an event that concerns it, and otherwise keeps its entry.
  lemma OneEvent(s: State, e: Event, wait: nat)
    requires Inv(s) && wait < |s.calls|
    ensures wait < |Step(s, e).calls|
    ensures s.calls[wait] != [] ==> Step(s, e).calls[wait] == s.calls[wait]
    ensures wait in s.timers ==>
              var key := s.timers[wait].key;
              && Step(s, e).calls[wait] == AsCalls(Settles(e, key, wait))
              && (Settles(e, key, wait).None? ==>
                    wait in Step(s, e).timers && Step(s, e).timers[wait].key == key)
  {
    match e
    case Wait(key) => if key in s.pending { CloseTouchesOne(s, key, Rejected, wait); }
    case Complete(key) => if key in s.pending { CloseTouchesOne(s, key, Resolved, wait); }
    case Fail(key) => if key in s.pending { CloseTouchesOne(s, key, Rejected, wait); }
    case Fire(timer) =>
      if timer in s.timers {
        FiringClosesOwnWait(s, timer);
        CloseTouchesOne(s, s.timers[timer].key, TimedOut, wait);
      }
  }

  lemma {:induction false} SettledForever(s: State, events: seq<Event>, wait: nat)
    requires Inv(s) && wait < |s.calls| && s.calls[wait] != []
    ensures wait < |Run(s, events).calls| && Run(s, events).calls[wait] == s.calls[wait]
    decreases |events|
  {
    if events != [] {
      StepKeepsInv(s, events[0]);
      OneEvent(s, events[0], wait);
      SettledForever(Step(s, events[0]), events[1..], wait);
    }
  }

  lemma {:induction false} FirstEventSettles(s: State, events: seq<Event>, key: Key, wait: nat)
    requires Inv(s) && wait in s.timers && s.timers[wait].key == key
    ensures wait < |Run(s, events).calls|
    ensures Run(s, events).calls[wait] == AsCalls(FirstSettling(events, key, wait))
    decreases |events|
  {
    if events != [] {
      StepKeepsInv(s, events[0]);
      OneEvent(s, events[0], wait);
      if Settles(events[0], key, wait).Some? {
        SettledForever(Step(s, events[0]), events[1..], wait);
      } else {
        FirstEventSettles(Step(s, events[0]), events[1..], key, wait);
      }
    }
  }

  function WaitCount(events: seq<Event>): nat
    decreases |events|
  {
    if events == [] then 0 else (if events[0].Wait? then 1 else 0) + WaitCount(events[1..])
  }

  lemma {:induction false} RunSplits(s: State, before: seq<Event>, after: seq<Event>)
    ensures Run(s, before + after) == Run(Run(s, before), after)
    ensures |Run(s, before).calls| == |s.calls| + WaitCount(before)
    decreases |before|
  {
    if before == [] {
      assert before + after == after;
    } else {
      assert (before + after)[1..] == before[1..] + after;
      RunSplits(Step(s, before[0]), before[1..], after);
    }
  }

  lemma WaitOpens(s: State, key: Key, after: seq<Event>)
    requires Inv(s)
    ensures var w := |s.calls|;
            var end := Run(s, [Wait(key)] + after);
            w < |end.calls| && end.calls[w] == AsCalls(FirstSettling(after, key, w))
  {
    assert ([Wait(key)] + after)[1..] == after;
    StepKeepsInv(s, Wait(key));
    FirstEventSettles(Step(s, Wait(key)), after, key, |s.calls|);
  }

  // The whole-run theorem: the wait opened after `before` ends as the first relevant event of
  // `after` says, and is unsettled as long as there is none.
  lemma EveryWaitSettlesByFirstEvent(before: seq<Event>, key: Key, after: seq<Event>)
    ensures var w := WaitCount(before);
            var s := Run(INITIAL, before + [Wait(key)] + after);
            w < |s.calls| && s.calls[w] == AsCalls(FirstSettling(after, key, w))
  {
    EveryRunKeepsInv(INITIAL, before);
    RunSplits(INITIAL, before, [Wait(key)] + after);
    assert before + [Wait(key)] + after == before + ([Wait(key)] + after);
    WaitOpens(Run(INITIAL, before), key, after);
  }

  // ----- the module's state and functions -----

  class Bridge {
    var pending: map<Key, Entry>
    var timers: map<nat, Callback>
    var nextTimer: nat
    var calls: seq<seq<Settlement>>

    ghost function Snapshot(): State
      reads this
    {
      State(pending, timers, nextTimer, calls)
    }

    constructor ()
      ensures Snapshot() == INITIAL
    {
      pending, timers, nextTimer, calls := map[], map[], 0, [];
    }

    // What superseding, completion and failure share: clear the timer, drop the entry, settle.
    method CloseEntry(key: Key, how: Settlement)
      requires key in pending
      modifies this
      ensures Snapshot() == Close(old(Snapshot()), key, how)
    {
      var entry := pending[key];
      timers := timers - {entry.timer};
      pending := pending - {key};
      calls := Settle(calls, entry.wait, how);
    }

    // waitForReviewState; the result is the new promise.
    method WaitForReviewState(key: Key) returns (wait: nat)
      modifies this
      ensures Snapshot() == Step(old(Snapshot()), Wait(key))
      ensures wait == |old(calls)| && |calls| == wait + 1 && calls[wait] == [] && pending[key].wait == wait
    {
      if key in pending {
        CloseEntry(key, Rejected);
      }
      wait := |calls|;
      calls := calls + [[]];
      timers := timers[nextTimer := Callback(key, wait)];
      pending := pending[key := Entry(wait, nextTimer)];
      nextTimer := nextTimer + 1;
    }

    method CompleteReviewQualificationState(key: Key) returns (settled: bool)
      requires Inv(Snapshot())
      modifies this
      ensures Snapshot() == Step(old(Snapshot()), Complete(key))
      ensures settled <==> exists w :: 0 <= w < |calls| && old(calls)[w] == [] && calls[w] == [Resolved]
    {
      settled := key in pending;
      if settled {
        CloseKeepsInv(Snapshot(), key, Resolved);
        ghost var w := pending[key].wait;
        assert calls[w] == [];
        CloseEntry(key, Resolved);
        assert calls[w] == [Resolved];
      }
    }

    method FailReviewQualificationState(key: Key) returns (settled: bool)
      requires Inv(Snapshot())
      modifies this
      ensures Snapshot() == Step(old(Snapshot()), Fail(key))
      ensures settled <==> exists w :: 0 <= w < |calls| && old(calls)[w] == [] && calls[w] == [Rejected]
    {
      settled := key in pending;
      if settled {
        CloseKeepsInv(Snapshot(), key, Rejected);
        ghost var w := pending[key].wait;
        assert calls[w] == [];
        CloseEntry(key, Rejected);
        assert calls[w] == [Rejected];
      }
    }

    // The host fires a live timer, which runs the callback given to setTimeout.
    method FireTimer(timer: nat)
      modifies this
      ensures Snapshot() == Step(old(Snapshot()), Fire(timer))
    {
      if timer in timers {
        var callback := timers[timer];
        timers := timers - {timer};
        pending := pending - {callback.key};
        calls := Settle(calls, callback.wait, TimedOut);
      }
    }
  }
}
