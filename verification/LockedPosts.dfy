/**
 When a post under the lock is out of date: Stop() and the start of a thread change its message
 loop without taking the lock (ServerPort/ipc_process/browser_thread_impl.cc, commonlib/common/base/
 threading/thread.cc), while registering and unregistering take it.
 */
module LockedPosts {
  import opened Wrappers
  import opened BrowserThread
  import opened LockElision

  /** Whatever happens, except that this actor goes on. */
  predicate Pauses(a: nat, more: seq<Event>) {
    forall k :: 0 <= k < |more| ==> more[k] != Step(a)
  }

  /** The actor is about to post to the loop that its target has at this moment, or to report that it has none. */
  predicate PostsToCurrent(s: State, a: nat)
    requires IsSlots(s.slots)
  {
    && a < |s.actors| && s.actors[a].activity.Posting?
    && s.actors[a].activity.read == LoopAt(s.slots, s.actors[a].activity.call.target)
  }

  /** This actor is in a call that cannot end without the lock. */
  predicate NeedsTheLock(actor: Actor, loop: Option<Loop>) {
    loop.Some? && actor.loop == loop && !actor.activity.Idle? && !Outlives(CallOf(actor.activity))
  }

  predicate Stuck(s: State, loop: Option<Loop>) {
    exists b :: 0 <= b < |s.actors| && NeedsTheLock(s.actors[b], loop)
  }

  /**
   While someone holds the lock: nobody is registered for the target, or a thread below it is
   registered, or the target's own thread waits for the lock or is on its way there.
   */
  predicate Pinned(s: State, target: ID)
    requires IsSlots(s.slots)
  {
    s.slots[target].Empty? || !Youngest(s.slots, target) || Stuck(s, LoopAt(s.slots, target))
  }

  lemma {:induction false} RunOn(s: State, more: seq<Event>, after: seq<Event>)
    requires IsSlots(s.slots)
    ensures Run(s, more + after) == Run(Run(s, more), after)
    decreases |more|
  {
    hide Next;
    if more == [] {
      assert [] + after == after;
    } else {
      assert (more + after)[0] == more[0] && (more + after)[1..] == more[1..] + after;
      RunOn(Next(s, more[0]), more[1..], after);
    }
  }

  // ----- Forwards: a pinned target keeps its loop -----

  /** What stays as it is while the actor that holds the lock pauses before its post. */
  ghost predicate Holding(s: State, a: nat, activity: Activity, target: ID) {
    && Inv(s) && a < |s.actors| && s.lock == Some(a) && s.actors[a].activity == activity
    && activity.Posting? && activity.call.target == target && activity.read == LoopAt(s.slots, target)
    && Pinned(s, target)
  }

  lemma StaysYoung(s: State, e: Event, target: ID)
    requires Inv(s) && s.lock.Some?
    ensures forall j: ID :: Next(s, e).slots[j].Empty? <==> s.slots[j].Empty?
    ensures Youngest(Next(s, e).slots, target) <==> Youngest(s.slots, target)
  {
    hide Quiet, ActorsOk, HasLoop, LoopsDistinct, AnswerOk, PostedTo, FirstMatch;
    var next := Next(s, e);
    assert forall j: ID :: next.slots[j].Empty? <==> s.slots[j].Empty?;
  }

  /** A call that needs the lock does not end while another actor holds it. */
  lemma StaysStuck(s: State, e: Event, a: nat, b: nat, loop: Option<Loop>)
    requires Inv(s) && s.lock == Some(a) && e != Step(a) && b < |s.actors| && NeedsTheLock(s.actors[b], loop)
    ensures NeedsTheLock(Next(s, e).actors[b], loop)
  {
    hide LoopsDistinct, Quiet, HasLoop, PostedTo, Youngest, AnswerOk, FirstMatch, Undisturbed;
    assert ActorOk(s.slots, s.actors[b].loop, s.actors[b].activity, s.lock == Some(b));
    if Possible(s, e) && e == Step(b) {
      StepKeepsActor(s, b);
    }
  }

  lemma LockStaysHeld(s: State, e: Event, a: nat)
    requires Inv(s) && a < |s.actors| && s.lock == Some(a) && e != Step(a)
    requires !s.actors[a].activity.Idle?
    ensures Next(s, e).lock == Some(a) && Next(s, e).actors[a] == s.actors[a]
  {
    hide LoopsDistinct, Quiet, HasLoop, PostedTo, Youngest, AnswerOk, FirstMatch, Undisturbed;
    if e.Step? && Possible(s, e) {
      assert ActorOk(s.slots, s.actors[e.actor].loop, s.actors[e.actor].activity, s.lock == Some(e.actor));
    }
  }

  lemma TargetIsNotWritten(s: State, e: Event, target: ID)
    requires Inv(s) && s.lock.Some? && Pinned(s, target)
    ensures Next(s, e).slots[target] == s.slots[target]
  {
    hide LoopsDistinct, ActorsOk, HasLoop, PostedTo, AnswerOk, FirstMatch, Stuck;
    StuckIsNotQuiet(s, LoopAt(s.slots, target));
  }

  lemma StuckIsNotQuiet(s: State, loop: Option<Loop>)
    ensures Stuck(s, loop) ==> loop.Some? && !Quiet(s, loop)
  {
  }

  lemma HoldingStep(s: State, a: nat, activity: Activity, target: ID, e: Event)
    requires Holding(s, a, activity, target) && e != Step(a)
    ensures Holding(Next(s, e), a, activity, target)
  {
    hide Inv, Next, Youngest, NeedsTheLock;
    InvHasSlots(s);
    NextKeepsInv(s, e);
    LockStaysHeld(s, e, a);
    TargetIsNotWritten(s, e, target);
    StaysYoung(s, e, target);
    var loop := LoopAt(s.slots, target);
    if Stuck(s, loop) {
      var b :| 0 <= b < |s.actors| && NeedsTheLock(s.actors[b], loop);
      StaysStuck(s, e, a, b, loop);
    }
  }

  lemma {:induction false} HoldingRun(s: State, a: nat, activity: Activity, target: ID, more: seq<Event>)
    requires Holding(s, a, activity, target) && Pauses(a, more)
    ensures IsSlots(s.slots) && Holding(Run(s, more), a, activity, target)
    decreases |more|
  {
    hide Holding, Next;
    assert IsSlots(s.slots) by {
      HoldingHasSlots(s, a, activity, target);
    }
    if more != [] {
      HoldingStep(s, a, activity, target, more[0]);
      assert forall k :: 0 <= k < |more[1..]| ==> more[1..][k] == more[k + 1];
      HoldingRun(Next(s, more[0]), a, activity, target, more[1..]);
    }
  }

  lemma HoldingHasSlots(s: State, a: nat, activity: Activity, target: ID)
    requires Holding(s, a, activity, target)
    ensures IsSlots(s.slots)
  {
  }

  // ----- Backwards: otherwise it can lose it, or get one -----

  /** A number that is no loop's. */
  function Unused(s: State): Loop
    requires IsSlots(s.slots)
  {
    1 + Largest(seq(ID_COUNT, i requires 0 <= i < ID_COUNT => LoopAt(s.slots, i))
                + seq(|s.actors|, i requires 0 <= i < |s.actors| => s.actors[i].loop))
  }

  function Largest(loops: seq<Option<Loop>>): (m: nat)
    ensures forall k :: 0 <= k < |loops| && loops[k].Some? ==> loops[k].value <= m
  {
    if loops == [] then 0
    else
      var m := Largest(loops[1..]);
      if loops[0].Some? && loops[0].value > m then loops[0].value else m
  }

  lemma UnusedIsNew(s: State)
    requires IsSlots(s.slots)
    ensures !HasLoop(s.slots, Unused(s)) && Quiet(s, Some(Unused(s)))
  {
    var inSlots := seq(ID_COUNT, i requires 0 <= i < ID_COUNT => LoopAt(s.slots, i));
    var inActors := seq(|s.actors|, i requires 0 <= i < |s.actors| => s.actors[i].loop);
    var all := inSlots + inActors;
    forall j: ID ensures LoopAt(s.slots, j) != Some(Unused(s)) {
      assert all[j] == LoopAt(s.slots, j);
    }
    forall b | 0 <= b < |s.actors| ensures s.actors[b].loop != Some(Unused(s)) {
      assert all[ID_COUNT + b] == s.actors[b].loop;
    }
  }

  /** How many steps a call that does not need the lock has still to go, at most. */
  function Rank(activity: Activity): nat {
    match activity
    case Idle => 0
    case Posting(_, _, _) => 1
    case Reading(_, _) => 2
    case Waiting(_) => 3
    case Scanning(_, i) => if i <= ID_COUNT then 4 + ID_COUNT - i else 4
  }

  /** Only this actor may have moved. */
  predicate OnlyMoved(s: State, u: State, b: nat) {
    && u.slots == s.slots && u.lock == s.lock && |u.actors| == |s.actors|
    && (forall c :: 0 <= c < |s.actors| && c != b ==> u.actors[c] == s.actors[c])
    && (b < |s.actors| ==> u.actors[b].loop == s.actors[b].loop)
  }

  lemma UnlockedStep(s: State, b: nat)
    requires Inv(s) && b < |s.actors| && s.actors[b].loop.Some? && !s.actors[b].activity.Idle?
    requires Outlives(CallOf(s.actors[b].activity))
    ensures var next := Next(s, Step(b));
            && Inv(next) && OnlyMoved(s, next, b) && Rank(next.actors[b].activity) < Rank(s.actors[b].activity)
            && (!next.actors[b].activity.Idle? ==> CallOf(next.actors[b].activity) == CallOf(s.actors[b].activity))
  {
    NextKeepsInv(s, Step(b));
    hide LoopsDistinct, Quiet, HasLoop, PostedTo, Youngest, AnswerOk, FirstMatch, Undisturbed;
    assert ActorOk(s.slots, s.actors[b].loop, s.actors[b].activity, s.lock == Some(b));
  }

  /** A registered thread whose target outlives it finishes its call without the lock. */
  lemma {:induction false} FinishOne(s: State, b: nat) returns (more: seq<Event>)
    requires Inv(s) && b < |s.actors| && s.actors[b].loop.Some? && !s.actors[b].activity.Idle?
    requires Outlives(CallOf(s.actors[b].activity))
    ensures IsSlots(s.slots) && Inv(Run(s, more)) && OnlyMoved(s, Run(s, more), b) && Run(s, more).actors[b].activity.Idle?
    ensures forall k :: 0 <= k < |more| ==> more[k] == Step(b)
    decreases Rank(s.actors[b].activity)
  {
    UnlockedStep(s, b);
    hide Inv, Next, Rank;
    var next := Next(s, Step(b));
    if next.actors[b].activity.Idle? {
      more := [Step(b)];
    } else {
      var rest := FinishOne(next, b);
      more := [Step(b)] + rest;
      RunOn(s, [Step(b)], rest);
    }
  }

  predicate Ended(s: State, loop: Loop, m: nat) {
    forall c :: 0 <= c < m <= |s.actors| && s.actors[c].loop == Some(loop) ==> s.actors[c].activity.Idle?
  }

  lemma FinishIfBusy(s: State, a: nat, loop: Loop, b: nat) returns (more: seq<Event>)
    requires Inv(s) && a < |s.actors| && s.actors[a].loop != Some(loop) && b < |s.actors|
    requires !Stuck(s, Some(loop))
    ensures IsSlots(s.slots) && Pauses(a, more) && Inv(Run(s, more)) && OnlyMoved(s, Run(s, more), b)
    ensures s.actors[b].loop == Some(loop) ==> Run(s, more).actors[b].activity.Idle?
    ensures s.actors[b].loop != Some(loop) ==> Run(s, more) == s
  {
    InvHasSlots(s);
    hide Inv, Run;
    if s.actors[b].loop == Some(loop) && !s.actors[b].activity.Idle? {
      assert !NeedsTheLock(s.actors[b], Some(loop));
      more := FinishOne(s, b);
    } else {
      more := [];
    }
  }

  /** All threads with this loop can finish; nothing else moves. */
  lemma {:induction false} FinishAll(s: State, a: nat, loop: Loop, m: nat) returns (more: seq<Event>)
    requires Inv(s) && a < |s.actors| && s.actors[a].loop != Some(loop) && m <= |s.actors|
    requires !Stuck(s, Some(loop))
    ensures IsSlots(s.slots) && Pauses(a, more)
    ensures var u := Run(s, more);
            && Inv(u) && u.slots == s.slots && u.lock == s.lock && u.actors[a] == s.actors[a]
            && !Stuck(u, Some(loop)) && Ended(u, loop, m)
    decreases m
  {
    InvHasSlots(s);
    hide Inv, Run, Stuck, Ended;
    if m == 0 {
      more := [];
    } else {
      var before := FinishAll(s, a, loop, m - 1);
      var u := Run(s, before);
      var last := FinishIfBusy(u, a, loop, m - 1);
      more := before + last;
      RunOn(s, before, last);
    }
  }

  /** A target that is not pinned can change its loop before the post. */
  lemma Overtaken(s: State, a: nat) returns (more: seq<Event>)
    requires Inv(s) && a < |s.actors| && s.actors[a].activity.Posting? && s.actors[a].activity.locked
    requires PostsToCurrent(s, a) && !Pinned(s, s.actors[a].activity.call.target)
    ensures IsSlots(s.slots) && Pauses(a, more) && !PostsToCurrent(Run(s, more), a)
  {
    var target := s.actors[a].activity.call.target;
    var now := LoopAt(s.slots, target);
    if now.None? {
      UnusedIsNew(s);
      more := [Start(target, Unused(s))];
    } else {
      var before := FinishAll(s, a, now.value, |s.actors|);
      var u := Run(s, before);
      assert Quiet(u, now);
      more := before + [Stop(target)];
      RunOn(s, before, [Stop(target)]);
    }
  }

  // ----- Main results -----

  /**
   The exact condition for a post under the lock, at the moment when it is about to read the
   target's loop: whatever the other threads do until the post, it goes to the loop that the
   target has then, if and only if the target is pinned.
   */
  lemma LockedPostIsCurrentIff(loops: seq<Option<Loop>>, events: seq<Event>, a: nat)
    requires var s := Run(Initial(loops), events);
             a < |s.actors| && s.actors[a].activity.Reading? && s.actors[a].activity.locked
    ensures var s := Run(Initial(loops), events);
            (forall more :: Pauses(a, more) ==> PostsToCurrent(Run(Next(s, Step(a)), more), a))
            <==> Pinned(s, s.actors[a].activity.call.target)
  {
    hide Run, Inv;
    InvInAnyRun(loops, events);
    var s := Run(Initial(loops), events);
    AfterReading(s, a);
    NextKeepsInv(s, Step(a));
    var read := Next(s, Step(a));
    var activity := read.actors[a].activity;
    var target := activity.call.target;
    if Pinned(s, target) {
      forall more | Pauses(a, more) ensures PostsToCurrent(Run(read, more), a) {
        HoldingRun(read, a, activity, target, more);
      }
    } else {
      var more := Overtaken(read, a);
    }
  }

  lemma AfterReading(s: State, a: nat)
    requires Inv(s) && a < |s.actors| && s.actors[a].activity.Reading? && s.actors[a].activity.locked
    ensures var read := Next(s, Step(a));
            var target := s.actors[a].activity.call.target;
            && s.lock == read.lock == Some(a) && read.slots == s.slots && |read.actors| == |s.actors|
            && read.actors[a].activity == Posting(s.actors[a].activity.call, true, LoopAt(s.slots, target))
            && (Pinned(read, target) <==> Pinned(s, target))
  {
    assert ActorOk(s.slots, s.actors[a].loop, s.actors[a].activity, s.lock == Some(a));
    var read := Next(s, Step(a));
    forall b, loop | 0 <= b < |s.actors| ensures NeedsTheLock(read.actors[b], loop) <==> NeedsTheLock(s.actors[b], loop) {
    }
    var loop := LoopAt(s.slots, s.actors[a].activity.call.target);
    if Stuck(s, loop) {
      var b :| 0 <= b < |s.actors| && NeedsTheLock(s.actors[b], loop);
      assert NeedsTheLock(read.actors[b], loop);
    }
    if Stuck(read, loop) {
      var b :| 0 <= b < |s.actors| && NeedsTheLock(read.actors[b], loop);
      assert NeedsTheLock(s.actors[b], loop);
    }
  }

  /** A run: UI posts to thread 2 under the lock, and thread 2 ends between the read and the post. */
  lemma StopOvertakesALockedPost(task: Task)
    ensures var s := Run(Initial([Some(7)]), [Register(0, Some(7)), Register(2, Some(9)), Begin(0, 2, task),
                                              Step(0), Step(0), Step(0), Stop(2), Step(0)]);
            && LoopAt(s.slots, 2).None?
            && |s.answers| == 1 && s.answers[0].posted == Some(9) && !s.answers[0].elided
            && QueueOf(s.queues, 9) == [task]
  {
    hide Run, Next, Take;
    var s0 := Initial([Some(7)]);
    var slots := [Held(Some(7)), Empty, Held(Some(9)), Empty, Empty, Empty, Empty, Empty];
    var call := Call(2, task, FirstMatch(slots, Some(7), 0), slots);
    var s4 := State(slots, map[], None, [Actor(Some(7), Waiting(call))], []);
    TwoRegister(s0, slots, call, s4);
    ReadsThenPosts(slots, call, s4);
    var head := [Register(0, Some(7)), Register(2, Some(9)), Begin(0, 2, task), Step(0)];
    var tail := [Step(0), Step(0), Stop(2), Step(0)];
    RunOn(s0, head, tail);
    assert head + tail == [Register(0, Some(7)), Register(2, Some(9)), Begin(0, 2, task),
                           Step(0), Step(0), Step(0), Stop(2), Step(0)];
  }

  lemma TwoRegister(s0: State, slots: seq<Slot>, call: Call, s4: State)
    requires s0 == Initial([Some(7)])
    requires slots == [Held(Some(7)), Empty, Held(Some(9)), Empty, Empty, Empty, Empty, Empty]
    requires call == Call(2, call.task, FirstMatch(slots, Some(7), 0), slots)
    requires s4 == State(slots, map[], None, [Actor(Some(7), Waiting(call))], [])
    ensures Run(s0, [Register(0, Some(7)), Register(2, Some(9)), Begin(0, 2, call.task), Step(0)]) == s4
  {
    hide Run, Next, FirstMatch, Possible, Take;
    var idle := [Actor(Some(7), Idle)];
    assert s0.actors == idle;
    var s1 := State([Held(Some(7)), Empty, Empty, Empty, Empty, Empty, Empty, Empty], map[], None, idle, []);
    var s2 := State(slots, map[], None, idle, []);
    OneRegisters(s0, s1);
    AnotherRegisters(s1, s2);
    var s3 := State(slots, map[], None, [Actor(Some(7), Scanning(call, 0))], []);
    ItsOwnSlotIsFirst(s2, s3, s4, call);
    Four(s0, [Register(0, Some(7)), Register(2, Some(9)), Begin(0, 2, call.task), Step(0)], s1, s2, s3, s4);
  }

  lemma OneRegisters(s0: State, s1: State)
    requires s0 == Initial([Some(7)]) && s0.actors == [Actor(Some(7), Idle)]
    requires s1 == s0.(slots := [Held(Some(7)), Empty, Empty, Empty, Empty, Empty, Empty, Empty])
    ensures Next(s0, Register(0, Some(7))) == s1
  {
  }

  lemma AnotherRegisters(s1: State, s2: State)
    requires s1.slots == [Held(Some(7)), Empty, Empty, Empty, Empty, Empty, Empty, Empty]
    requires s1.lock.None? && s1.actors == [Actor(Some(7), Idle)]
    requires s2 == s1.(slots := [Held(Some(7)), Empty, Held(Some(9)), Empty, Empty, Empty, Empty, Empty])
    ensures Next(s1, Register(2, Some(9))) == s2
  {
  }

  lemma ItsOwnSlotIsFirst(s2: State, s3: State, s4: State, call: Call)
    requires s2.slots == [Held(Some(7)), Empty, Held(Some(9)), Empty, Empty, Empty, Empty, Empty]
    requires s2.actors == [Actor(Some(7), Idle)]
    requires call == Call(2, call.task, FirstMatch(s2.slots, Some(7), 0), s2.slots)
    requires s3 == s2.(actors := [Actor(Some(7), Scanning(call, 0))]) && s4 == s2.(actors := [Actor(Some(7), Waiting(call))])
    ensures Next(s2, Begin(0, 2, call.task)) == s3 && Next(s3, Step(0)) == s4
  {
    hide FirstMatch;
  }

  lemma ReadsThenPosts(slots: seq<Slot>, call: Call, s4: State)
    requires slots == [Held(Some(7)), Empty, Held(Some(9)), Empty, Empty, Empty, Empty, Empty] && call.target == 2
    requires s4 == State(slots, map[], None, [Actor(Some(7), Waiting(call))], [])
    ensures Run(s4, [Step(0), Step(0), Stop(2), Step(0)])
         == State(slots[2 := Held(None)], map[9 := [call.task]], None, [Actor(Some(7), Idle)], [Answer(0, call, false, Some(9))])
  {
    hide Run, PostedTo, FirstMatch;
    var s5 := Next(s4, Step(0));
    assert s5 == State(slots, map[], Some(0), [Actor(Some(7), Reading(call, true))], []);
    var s6 := Next(s5, Step(0));
    assert s6 == State(slots, map[], Some(0), [Actor(Some(7), Posting(call, true, Some(9)))], []);
    var s7 := Next(s6, Stop(2));
    assert s7 == s6.(slots := slots[2 := Held(None)]);
    var s8 := Next(s7, Step(0));
    assert s8.answers == [Answer(0, call, false, Some(9))];
    assert QueueOf(s7.queues, 9) + [call.task] == [call.task];
    assert s8.actors == [Actor(Some(7), Idle)];
    Four(s4, [Step(0), Step(0), Stop(2), Step(0)], s5, s6, s7, s8);
  }

  lemma Four(s0: State, events: seq<Event>, s1: State, s2: State, s3: State, s4: State)
    requires |events| == 4 && IsSlots(s0.slots) && s1 == Next(s0, events[0]) && s2 == Next(s1, events[1])
    requires s3 == Next(s2, events[2]) && s4 == Next(s3, events[3])
    ensures Run(s0, events) == s4
  {
    hide Next;
    assert events[1..][0] == events[1] && events[1..][1..] == events[2..];
    assert events[2..][0] == events[2] && events[2..][1..] == events[3..];
    assert events[3..][0] == events[3] && events[3..][1..] == [];
    assert Run(s3, events[3..]) == s4;
    assert Run(s2, events[2..]) == s4;
    assert Run(s1, events[1..]) == s4;
  }
}
