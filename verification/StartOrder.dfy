/**
 What the order in which named threads are started is needed for. The dialog
 (ServerPort/ServerPort/ServerPortDlg.cpp) starts IO before PROCESS_LAUNCHER, which is above it in
 the order of lifetimes; here threads may be registered and started in any order.
 */
module StartOrder {
  import opened Wrappers
  import opened BrowserThread
  import opened LockElision

  predicate Starts(e: Event) {
    e.Register? || e.Start?
  }

  /** Threads still end in the order of lifetimes, the youngest first. */
  predicate EnabledInAnyOrder(s: State, e: Event)
    requires IsSlots(s.slots)
  {
    Possible(s, e) && (Writes(e) && !Starts(e) ==> Youngest(s.slots, e.id))
  }

  function NextInAnyOrder(s: State, e: Event): (next: State)
    requires IsSlots(s.slots)
    ensures IsSlots(next.slots) && |next.actors| == |s.actors|
  {
    if EnabledInAnyOrder(s, e) then Take(s, e) else s
  }

  function RunInAnyOrder(s: State, events: seq<Event>): (end: State)
    requires IsSlots(s.slots)
    ensures IsSlots(end.slots) && |end.actors| == |s.actors|
    decreases |events|
  {
    if events == [] then s else NextInAnyOrder(RunInAnyOrder(s, events[..|events| - 1]), events[|events| - 1])
  }

  lemma OneMore(s: State, before: seq<Event>, e: Event)
    requires IsSlots(s.slots)
    ensures RunInAnyOrder(s, before + [e]) == NextInAnyOrder(RunInAnyOrder(s, before), e)
  {
    assert (before + [e])[..|before|] == before;
  }

  // ----- A thread that is started above a registered thread's call -----

  /** The starting of a thread leaves alone all the slots that registered threads are reading. */
  predicate Harmless(s: State, e: Event)
    requires IsSlots(s.slots)
  {
    Starts(e) && EnabledInAnyOrder(s, e) ==> Below(s, e)
  }

  /** Every call still finds the array as it was when it began, as far as it looks without the lock. */
  ghost predicate CallsUndisturbed(s: State)
    requires IsSlots(s.slots)
  {
    forall a :: 0 <= a < |s.actors| && InCall(s.actors[a]) ==>
      Undisturbed(s.slots, s.actors[a].loop, CallOf(s.actors[a].activity))
  }

  lemma EndsAreBelow(s: State, e: Event)
    requires Inv(s) && EnabledInAnyOrder(s, e) && !Starts(e)
    ensures Below(s, e)
  {
    NothingItReadsIsWritten(s, e);
  }

  lemma HarmlessKeepsInv(s: State, e: Event)
    requires Inv(s) && Harmless(s, e)
    ensures Inv(NextInAnyOrder(s, e))
  {
    hide Inv, Below, Take, Possible;
    InvHasSlots(s);
    if EnabledInAnyOrder(s, e) {
      if !Starts(e) {
        EndsAreBelow(s, e);
      }
      TakeKeepsInv(s, e);
    }
  }

  lemma InvIsUndisturbed(s: State)
    requires Inv(s)
    ensures CallsUndisturbed(s)
  {
    forall a | 0 <= a < |s.actors| && InCall(s.actors[a])
      ensures Undisturbed(s.slots, s.actors[a].loop, CallOf(s.actors[a].activity))
    {
      assert ActorOk(s.slots, s.actors[a].loop, s.actors[a].activity, s.lock == Some(a));
    }
  }

  /** A start that is not harmless is seen by a call that is under way. */
  lemma HarmIsSeen(s: State, e: Event)
    requires Inv(s) && !Harmless(s, e)
    ensures !CallsUndisturbed(NextInAnyOrder(s, e))
  {
    var a :| 0 <= a < |s.actors| && InCall(s.actors[a]) && CallOf(s.actors[a].activity).home.value >= e.id;
    var next, call := NextInAnyOrder(s, e), CallOf(s.actors[a].activity);
    assert ActorOk(s.slots, s.actors[a].loop, s.actors[a].activity, s.lock == Some(a));
    assert s.slots[e.id] == call.start[e.id] && next.slots[e.id] != s.slots[e.id];
    assert InCall(next.actors[a]);
  }

  lemma {:induction false} InvWhileHarmless(loops: seq<Option<Loop>>, events: seq<Event>, m: nat)
    requires m <= |events|
    requires forall k :: 0 <= k < m ==> Harmless(RunInAnyOrder(Initial(loops), events[..k]), events[k])
    ensures Inv(RunInAnyOrder(Initial(loops), events[..m]))
  {
    hide Inv, Harmless, NextInAnyOrder;
    if m == 0 {
      InitialInv(loops);
    } else {
      InvWhileHarmless(loops, events, m - 1);
      var s := RunInAnyOrder(Initial(loops), events[..m - 1]);
      assert events[..m] == events[..m - 1] + [events[m - 1]];
      OneMore(Initial(loops), events[..m - 1], events[m - 1]);
      HarmlessKeepsInv(s, events[m - 1]);
    }
  }

  /**
   With threads started in any order, no call of a registered thread ever sees its part of the
   array change if and only if no thread is started while a registered thread at or below its slot
   is in a call.
   */
  lemma UndisturbedIffHarmless(loops: seq<Option<Loop>>, events: seq<Event>)
    ensures (forall k :: 0 <= k <= |events| ==> CallsUndisturbed(RunInAnyOrder(Initial(loops), events[..k])))
            <==> (forall k :: 0 <= k < |events| ==> Harmless(RunInAnyOrder(Initial(loops), events[..k]), events[k]))
  {
    hide Inv, Harmless, CallsUndisturbed, NextInAnyOrder, RunInAnyOrder;
    if forall k :: 0 <= k < |events| ==> Harmless(RunInAnyOrder(Initial(loops), events[..k]), events[k]) {
      forall k | 0 <= k <= |events| ensures CallsUndisturbed(RunInAnyOrder(Initial(loops), events[..k])) {
        InvWhileHarmless(loops, events, k);
        InvIsUndisturbed(RunInAnyOrder(Initial(loops), events[..k]));
      }
    } else {
      var m := FirstHarm(loops, events, |events|);
      var s := RunInAnyOrder(Initial(loops), events[..m]);
      InvWhileHarmless(loops, events, m);
      HarmIsSeen(s, events[m]);
      assert events[..m + 1] == events[..m] + [events[m]];
      OneMore(Initial(loops), events[..m], events[m]);
    }
  }

  lemma {:induction false} FirstHarm(loops: seq<Option<Loop>>, events: seq<Event>, n: nat) returns (m: nat)
    requires n <= |events|
    requires exists k :: 0 <= k < n && !Harmless(RunInAnyOrder(Initial(loops), events[..k]), events[k])
    ensures m < |events| && !Harmless(RunInAnyOrder(Initial(loops), events[..m]), events[m])
    ensures forall k :: 0 <= k < m ==> Harmless(RunInAnyOrder(Initial(loops), events[..k]), events[k])
  {
    hide Harmless, RunInAnyOrder;
    if exists k :: 0 <= k < n - 1 && !Harmless(RunInAnyOrder(Initial(loops), events[..k]), events[k]) {
      m := FirstHarm(loops, events, n - 1);
    } else {
      m := n - 1;
    }
  }

  // ----- Starting everything first -----

  /** No thread is started after the first call. */
  predicate StartsFirst(events: seq<Event>) {
    forall j, k :: 0 <= j < k < |events| && events[j].Begin? ==> !Starts(events[k])
  }

  lemma {:induction false} NoCallsYet(loops: seq<Option<Loop>>, events: seq<Event>)
    requires forall k :: 0 <= k < |events| ==> !events[k].Begin?
    ensures forall a :: 0 <= a < |loops| ==> RunInAnyOrder(Initial(loops), events).actors[a].activity.Idle?
    decreases |events|
  {
    hide Possible, Youngest;
    if events != [] {
      NoCallsYet(loops, events[..|events| - 1]);
    }
  }

  /**
   In every run in which all starts come before the first call, in whatever order, registered
   threads read an undisturbed array, and what they post without the lock goes where a post under
   the lock would put it.
   */
  lemma StartingFirstIsEnough(loops: seq<Option<Loop>>, events: seq<Event>)
    requires StartsFirst(events)
    ensures var s := RunInAnyOrder(Initial(loops), events);
            && CallsUndisturbed(s)
            && forall a :: 0 <= a < |s.actors| && s.actors[a].loop.Some? && s.actors[a].activity.Posting?
                           && !s.actors[a].activity.locked ==>
                 var call := s.actors[a].activity.call;
                 && Outlives(call) && IsSlots(call.start)
                 && s.actors[a].activity.read == LoopAt(s.slots, call.target) == LoopAt(call.start, call.target)
  {
    forall k | 0 <= k < |events| ensures Harmless(RunInAnyOrder(Initial(loops), events[..k]), events[k]) {
      if Starts(events[k]) {
        forall j | 0 <= j < |events[..k]| ensures !events[..k][j].Begin? {
          assert events[..k][j] == events[j];
        }
        NoCallsYet(loops, events[..k]);
      }
    }
    hide RunInAnyOrder;
    InvWhileHarmless(loops, events, |events|);
    assert events[..|events|] == events;
    var s := RunInAnyOrder(Initial(loops), events);
    InvIsUndisturbed(s);
    forall a | 0 <= a < |s.actors| && s.actors[a].loop.Some? && s.actors[a].activity.Posting? && !s.actors[a].activity.locked
      ensures var call := s.actors[a].activity.call;
              && Outlives(call) && IsSlots(call.start)
              && s.actors[a].activity.read == LoopAt(s.slots, call.target) == LoopAt(call.start, call.target)
    {
      assert ActorOk(s.slots, s.actors[a].loop, s.actors[a].activity, s.lock == Some(a));
    }
  }

  // ----- The dialog's order -----

  function OnlyIO(): seq<Slot> {
    [Empty, Empty, Empty, Empty, Empty, Empty, Empty, Held(Some(1))]
  }

  function IoCall(task: Task): Call {
    Call(PROCESS_LAUNCHER, task, FirstMatch(OnlyIO(), Some(1), 0), OnlyIO())
  }

  function StartIO(task: Task): seq<Event> {
    [Register(IO, None), Start(IO, 1), Begin(0, PROCESS_LAUNCHER, task)]
  }

  function Scans(n: nat): seq<Event> {
    seq(n, _ => Step(0))
  }

  lemma {:induction false} IoScans(task: Task, n: nat)
    requires n <= ID_COUNT
    ensures RunInAnyOrder(Initial([Some(1)]), StartIO(task) + Scans(n))
         == State(OnlyIO(), map[], None,
                  [Actor(Some(1), if n < ID_COUNT then Scanning(IoCall(task), n) else Reading(IoCall(task), false))], [])
  {
    hide RunInAnyOrder, FirstMatch;
    var s0, first := Initial([Some(1)]), StartIO(task);
    if n == 0 {
      assert first + Scans(0) == [] + [first[0]] + [first[1]] + [first[2]];
      assert RunInAnyOrder(s0, []) == s0 by {
        RunNothing(s0);
      }
      assert s0.actors == [Actor(Some(1), Idle)];
      OneMore(s0, [], first[0]);
      OneMore(s0, [] + [first[0]], first[1]);
      OneMore(s0, [] + [first[0]] + [first[1]], first[2]);
      var registered := NextInAnyOrder(s0, first[0]);
      assert registered == State(OnlyIO()[7 := Held(None)], map[], None, [Actor(Some(1), Idle)], []);
      var started := NextInAnyOrder(registered, first[1]);
      assert started == State(OnlyIO(), map[], None, [Actor(Some(1), Idle)], []);
    } else {
      IoScans(task, n - 1);
      assert first + Scans(n) == (first + Scans(n - 1)) + [Step(0)];
      OneMore(s0, first + Scans(n - 1), Step(0));
    }
  }

  lemma RunNothing(s: State)
    requires IsSlots(s.slots)
    ensures RunInAnyOrder(s, []) == s
  {
  }

  /**
   A run in the dialog's order, with IO posting to PROCESS_LAUNCHER while that thread is being
   started: the post without the lock goes to a loop that was not there when the call began.
   */
  lemma IoSeesTheLauncherStart(task: Task)
    ensures var s := RunInAnyOrder(Initial([Some(1)]),
                                   StartIO(task) + Scans(ID_COUNT)
                                   + [Register(PROCESS_LAUNCHER, None), Start(PROCESS_LAUNCHER, 2), Step(0), Step(0)]);
            && |s.answers| == 1 && s.answers[0].elided && s.answers[0].posted == Some(2)
            && IsSlots(s.answers[0].call.start) && LoopAt(s.answers[0].call.start, PROCESS_LAUNCHER).None?
  {
    hide RunInAnyOrder, FirstMatch;
    IoScans(task, ID_COUNT);
    var s0 := Initial([Some(1)]);
    var before := StartIO(task) + Scans(ID_COUNT);
    var register, start, step := Register(PROCESS_LAUNCHER, None), Start(PROCESS_LAUNCHER, 2), Step(0);
    assert before + [register, start, step, step] == before + [register] + [start] + [step] + [step];
    OneMore(s0, before, register);
    OneMore(s0, before + [register], start);
    OneMore(s0, before + [register] + [start], step);
    OneMore(s0, before + [register] + [start] + [step], step);
    var u := RunInAnyOrder(s0, before + [register] + [start]);
    assert u == State(OnlyIO()[5 := Held(Some(2))], map[], None, [Actor(Some(1), Reading(IoCall(task), false))], []);
    var v := NextInAnyOrder(u, step);
    assert v.actors[0].activity == Posting(IoCall(task), false, Some(2));
    assert NextInAnyOrder(v, step).answers == [Answer(0, IoCall(task), true, Some(2))];
  }
}
