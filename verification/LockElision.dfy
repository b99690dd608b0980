/**
 Posting to named threads while threads come and go: PostTaskHelper and GetCurrentThreadIdentifier
 of ServerPort/ipc_process/browser_thread_impl.cc as interleaved steps of any number of threads,
 under the rule of ServerPort/ipc_process/browser_thread.h that every named thread outlives those
 below it.
 */
module LockElision {
  import opened Wrappers
  import opened BrowserThread

  /** One call; `home` is the caller's own identifier and `start` the array when the call began. */
  datatype Call = Call(target: ID, task: Task, home: Option<ID>, start: seq<Slot>)

  datatype Activity =
    | Idle
      // the loop of GetCurrentThreadIdentifier, before slot i
    | Scanning(call: Call, i: nat)
      // before lock.Acquire()
    | Waiting(call: Call)
      // before reading the target's slot
    | Reading(call: Call, locked: bool)
      // before posting to the loop that was read
    | Posting(call: Call, locked: bool, read: Option<Loop>)

  /** An operating-system thread with what MessageLoop::current() says on it. */
  datatype Actor = Actor(loop: Option<Loop>, activity: Activity)

  datatype Answer = Answer(actor: nat, call: Call, elided: bool, posted: Option<Loop>)

  datatype State = State(slots: seq<Slot>, queues: Queues, lock: Option<nat>, actors: seq<Actor>, answers: seq<Answer>)

  datatype Event =
    | Register(id: ID, loop: Option<Loop>)
    | Start(id: ID, started: Loop)
    | Stop(id: ID)
    | Unregister(id: ID)
    | Begin(actor: nat, target: ID, task: Task)
    | Step(actor: nat)

  // ----- Who may do what -----

  predicate Youngest(slots: seq<Slot>, id: ID)
    requires IsSlots(slots)
  {
    forall j: ID :: id < j ==> slots[j].Empty?
  }

  /** The thread that runs this loop is not in the middle of a call. */
  predicate Quiet(s: State, loop: Option<Loop>) {
    loop.Some? ==> forall a :: 0 <= a < |s.actors| && s.actors[a].loop == loop ==> s.actors[a].activity.Idle?
  }

  predicate Writes(e: Event) {
    e.Register? || e.Start? || e.Stop? || e.Unregister?
  }

  /** What the locks, the debug checks and the joining of threads demand of each event. */
  predicate Possible(s: State, e: Event)
    requires IsSlots(s.slots)
  {
    match e
    case Register(id, loop) =>
      && s.slots[id].Empty? && s.lock.None?
      && (loop.Some? ==> !HasLoop(s.slots, loop.value)) && Quiet(s, loop)
    case Start(id, loop) => s.slots[id] == Held(None) && !HasLoop(s.slots, loop) && Quiet(s, Some(loop))
    case Stop(id) => s.slots[id].Held? && s.slots[id].loop.Some? && Quiet(s, s.slots[id].loop)
    case Unregister(id) => s.slots[id].Held? && s.lock.None? && Quiet(s, s.slots[id].loop)
    case Begin(a, _, _) => a < |s.actors| && s.actors[a].activity.Idle?
    case Step(a) => a < |s.actors| && !s.actors[a].activity.Idle? && (s.actors[a].activity.Waiting? ==> s.lock.None?)
  }

  /** The lifetime order: a thread is made before those below it and ends after them. */
  predicate Enabled(s: State, e: Event)
    requires IsSlots(s.slots)
  {
    Possible(s, e) && (Writes(e) ==> Youngest(s.slots, e.id))
  }

  // ----- The steps of a call -----

  function SetActivity(s: State, a: nat, activity: Activity): State
    requires a < |s.actors|
  {
    s.(actors := s.actors[a := s.actors[a].(activity := activity)])
  }

  function ScanOne(s: State, a: nat, call: Call, i: nat): State
    requires IsSlots(s.slots) && a < |s.actors|
  {
    if i >= ID_COUNT then SetActivity(s, a, Waiting(call))
    else if !Matches(s.slots[i], s.actors[a].loop) then SetActivity(s, a, Scanning(call, i + 1))
    else if i >= call.target then SetActivity(s, a, Reading(call, false))
    else SetActivity(s, a, Waiting(call))
  }

  function StepOf(s: State, a: nat): State
    requires IsSlots(s.slots) && a < |s.actors|
  {
    match s.actors[a].activity
    case Idle => s
    case Scanning(call, i) => ScanOne(s, a, call, i)
    case Waiting(call) => SetActivity(s.(lock := Some(a)), a, Reading(call, true))
    case Reading(call, locked) => SetActivity(s, a, Posting(call, locked, LoopAt(s.slots, call.target)))
    case Posting(call, locked, read) =>
      SetActivity(s.(queues := Post(s.queues, read, call.task).queues,
                     lock := if locked then None else s.lock,
                     answers := s.answers + [Answer(a, call, !locked, read)]), a, Idle)
  }

  /** What the event does. */
  function Take(s: State, e: Event): (next: State)
    requires IsSlots(s.slots) && Possible(s, e)
    ensures IsSlots(next.slots) && |next.actors| == |s.actors|
  {
    match e
    case Register(id, loop) => s.(slots := s.slots[id := Held(loop)])
    case Start(id, loop) => s.(slots := s.slots[id := Held(Some(loop))])
    case Stop(id) => s.(slots := s.slots[id := Held(None)])
    case Unregister(id) => s.(slots := s.slots[id := Empty])
    case Begin(a, target, task) =>
      SetActivity(s, a, Scanning(Call(target, task, FirstMatch(s.slots, s.actors[a].loop, 0), s.slots), 0))
    case Step(a) => StepOf(s, a)
  }

  function Next(s: State, e: Event): (next: State)
    requires IsSlots(s.slots)
    ensures IsSlots(next.slots) && |next.actors| == |s.actors|
  {
    if Enabled(s, e) then Take(s, e) else s
  }

  function Run(s: State, events: seq<Event>): (end: State)
    requires IsSlots(s.slots)
    ensures IsSlots(end.slots) && |end.actors| == |s.actors|
    decreases |events|
  {
    if events == [] then s else Run(Next(s, events[0]), events[1..])
  }

  /** Threads with these message loops, none of them named yet. */
  function Initial(loops: seq<Option<Loop>>): State {
    State([Empty, Empty, Empty, Empty, Empty, Empty, Empty, Empty], map[], None,
          seq(|loops|, i requires 0 <= i < |loops| => Actor(loops[i], Idle)), [])
  }

  // ----- What holds in every run -----

  predicate LoopsDistinct(slots: seq<Slot>)
    requires IsSlots(slots)
  {
    forall j: ID, k: ID :: j != k && LoopAt(slots, j).Some? ==> LoopAt(slots, j) != LoopAt(slots, k)
  }

  /** The target is known to outlive the caller. */
  predicate Outlives(call: Call) {
    call.home.Some? && call.target <= call.home.value
  }

  /** Up to the caller's own slot, the array is as it was when the call began. */
  predicate Undisturbed(slots: seq<Slot>, loop: Option<Loop>, call: Call)
    requires IsSlots(slots)
  {
    && IsSlots(call.start) && call.home == FirstMatch(call.start, loop, 0)
    && (loop.Some? ==>
          match call.home
          case Some(t) => forall j: ID :: j <= t ==> slots[j] == call.start[j]
          case None => !HasLoop(slots, loop.value))
  }

  predicate ActorOk(slots: seq<Slot>, loop: Option<Loop>, activity: Activity, holdsLock: bool)
    requires IsSlots(slots)
  {
    match activity
    case Idle => !holdsLock
    case Scanning(call, i) =>
      && Undisturbed(slots, loop, call) && i <= ID_COUNT && !holdsLock
      && (loop.Some? && call.home.Some? ==> i <= call.home.value)
    case Waiting(call) =>
      Undisturbed(slots, loop, call) && !holdsLock && (loop.Some? ==> !Outlives(call))
    case Reading(call, locked) =>
      Undisturbed(slots, loop, call) && (locked <==> holdsLock) && (loop.Some? ==> (locked <==> !Outlives(call)))
    case Posting(call, locked, read) =>
      && Undisturbed(slots, loop, call) && (locked <==> holdsLock) && (loop.Some? ==> (locked <==> !Outlives(call)))
      && (loop.Some? && !locked ==> read == LoopAt(slots, call.target))
  }

  predicate ActorsOk(s: State)
    requires IsSlots(s.slots)
  {
    forall a :: 0 <= a < |s.actors| ==> ActorOk(s.slots, s.actors[a].loop, s.actors[a].activity, s.lock == Some(a))
  }

  /** The tasks that were posted to a loop, in order. */
  function PostedTo(answers: seq<Answer>, loop: Loop): seq<Task> {
    if answers == [] then []
    else
      var last := answers[|answers| - 1];
      PostedTo(answers[..|answers| - 1], loop) + (if last.posted == Some(loop) then [last.call.task] else [])
  }

  predicate AnswerOk(s: State, answer: Answer) {
    && answer.actor < |s.actors| && IsSlots(answer.call.start)
    && (s.actors[answer.actor].loop.Some? ==>
          && (answer.elided <==> Outlives(answer.call))
          && (answer.elided ==> answer.posted == LoopAt(answer.call.start, answer.call.target)))
  }

  ghost predicate Inv(s: State) {
    && IsSlots(s.slots) && LoopsDistinct(s.slots) && ActorsOk(s)
    && (forall k :: 0 <= k < |s.answers| ==> AnswerOk(s, s.answers[k]))
    && (forall loop :: QueueOf(s.queues, loop) == PostedTo(s.answers, loop))
  }

  /** A caller that is a registered thread: its home slot holds its loop. */
  lemma HomeIsOwn(slots: seq<Slot>, loop: Option<Loop>, call: Call)
    requires IsSlots(slots) && Undisturbed(slots, loop, call) && loop.Some?
    ensures call.home.Some? ==> slots[call.home.value] == Held(loop)
  {
    FirstMatchIs(call.start, loop, 0);
  }

  function CallOf(activity: Activity): Call
    requires !activity.Idle?
  {
    activity.call
  }

  predicate InCall(actor: Actor) {
    actor.loop.Some? && !actor.activity.Idle? && CallOf(actor.activity).home.Some?
  }

  /** A write goes below the slots of all registered threads that are in a call. */
  predicate Below(s: State, e: Event) {
    Writes(e) ==>
      forall a :: 0 <= a < |s.actors| && InCall(s.actors[a]) ==> CallOf(s.actors[a].activity).home.value < e.id
  }

  /** In the lifetime order, no slot that a registered caller reads is written during its call. */
  lemma NothingItReadsIsWritten(s: State, e: Event)
    requires Inv(s) && Enabled(s, e)
    ensures Below(s, e)
  {
    if Writes(e) {
      forall a | 0 <= a < |s.actors| && InCall(s.actors[a]) ensures CallOf(s.actors[a].activity).home.value < e.id {
        assert ActorOk(s.slots, s.actors[a].loop, s.actors[a].activity, s.lock == Some(a));
        HomeIsOwn(s.slots, s.actors[a].loop, CallOf(s.actors[a].activity));
      }
    }
  }

  lemma WriteKeepsActor(s: State, e: Event, a: nat)
    requires Inv(s) && Writes(e) && Possible(s, e) && Below(s, e) && a < |s.actors|
    ensures var slots := Take(s, e).slots;
            IsSlots(slots) && ActorOk(slots, s.actors[a].loop, s.actors[a].activity, s.lock == Some(a))
  {
    var loop, activity := s.actors[a].loop, s.actors[a].activity;
    var slots := Take(s, e).slots;
    assert ActorOk(s.slots, loop, activity, s.lock == Some(a));
    if !activity.Idle? && loop.Some? {
      var call := CallOf(activity);
      assert call.home.Some? ==> InCall(s.actors[a]);
      if call.home.None? {
        assert !HasLoop(slots, loop.value) by {
          forall j: ID ensures LoopAt(slots, j) != loop {
            assert LoopAt(s.slots, j) != loop;
          }
        }
      }
    }
  }

  lemma WriteKeepsDistinct(s: State, e: Event)
    requires IsSlots(s.slots) && LoopsDistinct(s.slots) && Writes(e) && Possible(s, e)
    ensures LoopsDistinct(Take(s, e).slots)
  {
    hide Quiet;
    var slots := Take(s, e).slots;
    forall j: ID, k: ID | j != k && LoopAt(slots, j).Some? ensures LoopAt(slots, j) != LoopAt(slots, k) {
      assert LoopAt(s.slots, j).Some? ==> LoopAt(s.slots, j) != LoopAt(s.slots, k);
      assert LoopAt(s.slots, k).Some? ==> LoopAt(s.slots, k) != LoopAt(s.slots, j);
      assert j != e.id ==> LoopAt(slots, j) == LoopAt(s.slots, j);
      assert k != e.id ==> LoopAt(slots, k) == LoopAt(s.slots, k);
    }
  }

  lemma WriteKeepsInv(s: State, e: Event)
    requires Inv(s) && Writes(e) && Possible(s, e) && Below(s, e)
    ensures Inv(Take(s, e))
  {
    hide ActorOk, LoopsDistinct, Quiet, PostedTo, Below;
    WriteKeepsDistinct(s, e);
    forall a | 0 <= a < |s.actors|
      ensures ActorOk(Take(s, e).slots, s.actors[a].loop, s.actors[a].activity, s.lock == Some(a))
    {
      WriteKeepsActor(s, e, a);
    }
    var next := Take(s, e);
    forall k | 0 <= k < |s.answers| ensures AnswerOk(next, s.answers[k]) {
      assert AnswerOk(s, s.answers[k]);
    }
  }

  /** One actor moves; the others are not affected unless they hold a lock that it takes. */
  lemma MoveKeepsActors(s: State, a: nat, activity: Activity, next: State)
    requires Inv(s) && a < |s.actors|
    requires next.slots == s.slots && next.actors == s.actors[a := s.actors[a].(activity := activity)]
    requires ActorOk(s.slots, s.actors[a].loop, activity, next.lock == Some(a))
    requires forall b :: 0 <= b < |s.actors| && b != a ==> (next.lock == Some(b) <==> s.lock == Some(b))
    ensures ActorsOk(next)
  {
    hide ActorOk;
    forall b | 0 <= b < |next.actors|
      ensures ActorOk(next.slots, next.actors[b].loop, next.actors[b].activity, next.lock == Some(b))
    {
      assert ActorOk(s.slots, s.actors[b].loop, s.actors[b].activity, s.lock == Some(b));
    }
  }

  /** The scan comes to the caller's own slot, and decides as the array at the start would have it. */
  lemma ScanKeepsActor(s: State, a: nat)
    requires Inv(s) && a < |s.actors| && s.actors[a].activity.Scanning?
    ensures ActorOk(s.slots, s.actors[a].loop, Take(s, Step(a)).actors[a].activity, s.lock == Some(a))
  {
    var loop, activity := s.actors[a].loop, s.actors[a].activity;
    var call, i := activity.call, activity.i;
    assert ActorOk(s.slots, loop, activity, s.lock == Some(a));
    FirstMatchIs(call.start, loop, 0);
    if loop.Some? {
      HomeIsOwn(s.slots, loop, call);
      assert call.home.Some? && i <= call.home.value ==> s.slots[i] == call.start[i];
      if i < ID_COUNT && Matches(s.slots[i], loop) {
        assert LoopAt(s.slots, i) == loop;
      }
    }
  }

  lemma StepKeepsActor(s: State, a: nat)
    requires Inv(s) && Possible(s, Step(a))
    ensures var next := Take(s, Step(a));
            && ActorOk(s.slots, s.actors[a].loop, next.actors[a].activity, next.lock == Some(a))
            && (forall b :: 0 <= b < |s.actors| && b != a ==> (next.lock == Some(b) <==> s.lock == Some(b)))
  {
    hide Undisturbed;
    assert ActorOk(s.slots, s.actors[a].loop, s.actors[a].activity, s.lock == Some(a));
    if s.actors[a].activity.Scanning? {
      ScanKeepsActor(s, a);
    } else if s.actors[a].activity.Posting? {
      assert s.actors[a].activity.locked ==> s.lock == Some(a);
    }
  }

  lemma BeginKeepsActor(s: State, a: nat, target: ID, task: Task)
    requires Inv(s) && Possible(s, Begin(a, target, task))
    ensures var next := Take(s, Begin(a, target, task));
            ActorOk(s.slots, s.actors[a].loop, next.actors[a].activity, s.lock == Some(a))
  {
    assert ActorOk(s.slots, s.actors[a].loop, s.actors[a].activity, s.lock == Some(a));
    FirstMatchIs(s.slots, s.actors[a].loop, 0);
    if s.actors[a].loop.Some? && HasLoop(s.slots, s.actors[a].loop.value) {
      var j: ID :| LoopAt(s.slots, j) == s.actors[a].loop;
      assert Matches(s.slots[j], s.actors[a].loop);
    }
  }

  lemma AnswersKept(s: State, next: State)
    requires Inv(s) && |next.actors| == |s.actors|
    requires forall a :: 0 <= a < |s.actors| ==> next.actors[a].loop == s.actors[a].loop
    ensures forall k :: 0 <= k < |s.answers| ==> AnswerOk(next, s.answers[k])
  {
    hide ActorsOk, LoopsDistinct;
    forall k | 0 <= k < |s.answers| ensures AnswerOk(next, s.answers[k]) {
      assert AnswerOk(s, s.answers[k]);
    }
  }

  lemma PostKeepsAnswers(s: State, a: nat)
    requires Inv(s) && a < |s.actors| && s.actors[a].activity.Posting?
    ensures var next := Take(s, Step(a));
            && (forall k :: 0 <= k < |next.answers| ==> AnswerOk(next, next.answers[k]))
            && (forall loop :: QueueOf(next.queues, loop) == PostedTo(next.answers, loop))
  {
    hide LoopsDistinct, FirstMatch;
    var next := Take(s, Step(a));
    var activity := s.actors[a].activity;
    var answer := Answer(a, activity.call, !activity.locked, activity.read);
    AnswersKept(s, next);
    assert next.answers == s.answers + [answer];
    assert AnswerOk(next, answer) by {
      assert ActorOk(s.slots, s.actors[a].loop, activity, s.lock == Some(a));
    }
    forall loop ensures QueueOf(next.queues, loop) == PostedTo(next.answers, loop) {
      assert next.answers[..|next.answers| - 1] == s.answers;
      assert QueueOf(s.queues, loop) == PostedTo(s.answers, loop);
    }
  }

  lemma TakeKeepsInv(s: State, e: Event)
    requires Inv(s) && Possible(s, e) && Below(s, e)
    ensures Inv(Take(s, e))
  {
    hide ActorsOk, LoopsDistinct, AnswerOk, PostedTo, FirstMatch, HasLoop, Quiet, Below, ActorOk;
    var next := Take(s, e);
    match e
    case Begin(a, target, task) =>
      BeginKeepsActor(s, a, target, task);
      MoveKeepsActors(s, a, next.actors[a].activity, next);
      AnswersKept(s, next);
    case Step(a) =>
      StepKeepsActor(s, a);
      MoveKeepsActors(s, a, next.actors[a].activity, next);
      AnswersKept(s, next);
      if s.actors[a].activity.Posting? {
        PostKeepsAnswers(s, a);
      }
    case _ =>
      WriteKeepsInv(s, e);
  }

  lemma NextKeepsInv(s: State, e: Event)
    requires Inv(s)
    ensures Inv(Next(s, e))
  {
    hide ActorsOk, LoopsDistinct, Take, Possible, Youngest, Below;
    if Enabled(s, e) {
      NothingItReadsIsWritten(s, e);
      TakeKeepsInv(s, e);
    }
  }

  lemma {:induction false} RunKeepsInv(s: State, events: seq<Event>)
    requires Inv(s)
    ensures Inv(Run(s, events))
    decreases |events|
  {
    hide Inv, Next;
    assert IsSlots(s.slots) by {
      InvHasSlots(s);
    }
    if events != [] {
      NextKeepsInv(s, events[0]);
      RunKeepsInv(Next(s, events[0]), events[1..]);
    }
  }

  lemma InvHasSlots(s: State)
    requires Inv(s)
    ensures IsSlots(s.slots)
  {
  }

  lemma InitialInv(loops: seq<Option<Loop>>)
    ensures Inv(Initial(loops))
  {
    var s := Initial(loops);
    forall a | 0 <= a < |s.actors| ensures ActorOk(s.slots, s.actors[a].loop, s.actors[a].activity, s.lock == Some(a)) {
    }
  }

  lemma InvInAnyRun(loops: seq<Option<Loop>>, events: seq<Event>)
    ensures Inv(Run(Initial(loops), events))
  {
    hide Run, Inv;
    InitialInv(loops);
    RunKeepsInv(Initial(loops), events);
  }

  // ----- Main results -----

  /**
   While a registered thread is in a call, it reads without the lock only slots at or above its
   own, and whatever can happen writes only slots below its own.
   */
  lemma UnlockedReadsAreStable(loops: seq<Option<Loop>>, events: seq<Event>, a: nat, e: Event)
    requires var s := Run(Initial(loops), events);
             && a < |s.actors| && s.actors[a].loop.Some? && !s.actors[a].activity.Idle?
             && CallOf(s.actors[a].activity).home.Some?
    ensures var s := Run(Initial(loops), events);
            var activity := s.actors[a].activity;
            var home := CallOf(activity).home.value;
            && LoopAt(s.slots, home) == s.actors[a].loop
            && (activity.Scanning? ==> activity.i <= home)
            && (activity.Reading? && !activity.locked ==> activity.call.target <= home)
            && IsSlots(CallOf(activity).start)
            && (forall j: ID :: j <= home ==> s.slots[j] == CallOf(activity).start[j])
            && (Writes(e) && Enabled(s, e) ==> home < e.id)
  {
    hide Run;
    InvInAnyRun(loops, events);
    var s := Run(Initial(loops), events);
    var activity := s.actors[a].activity;
    assert ActorOk(s.slots, s.actors[a].loop, activity, s.lock == Some(a));
    HomeIsOwn(s.slots, s.actors[a].loop, CallOf(activity));
    if Writes(e) && Enabled(s, e) {
      assert InCall(s.actors[a]);
      NothingItReadsIsWritten(s, e);
    }
  }

  /**
   The post without the lock puts the task where a post under the lock would put it at this
   moment, and answers the same; it is also what either would have done when the call began.
   */
  lemma UnlockedPostIsLockedPost(loops: seq<Option<Loop>>, events: seq<Event>, a: nat)
    requires var s := Run(Initial(loops), events);
             && a < |s.actors| && s.actors[a].loop.Some?
             && s.actors[a].activity.Posting? && !s.actors[a].activity.locked
    ensures var s := Run(Initial(loops), events);
            var next := Next(s, Step(a));
            var call := s.actors[a].activity.call;
            var now := LoopAt(s.slots, call.target);
            && IsSlots(call.start) && LoopAt(call.start, call.target) == now
            && next.queues == Post(s.queues, now, call.task).queues
            && next.answers == s.answers + [Answer(a, call, true, now)]
            && s.lock != Some(a) && next.lock == s.lock
  {
    hide Run;
    InvInAnyRun(loops, events);
    var s := Run(Initial(loops), events);
    var activity := s.actors[a].activity;
    assert ActorOk(s.slots, s.actors[a].loop, activity, s.lock == Some(a));
  }

  /**
   Every finished call of a thread with a message loop avoided the lock exactly when it came from
   a registered thread that the target outlives; and what stands in the queues is what the calls
   answered that they had posted, once and in order.
   */
  lemma FinishedCalls(loops: seq<Option<Loop>>, events: seq<Event>, k: nat, loop: Loop)
    requires var s := Run(Initial(loops), events);
             k < |s.answers| && s.answers[k].actor < |s.actors| && s.actors[s.answers[k].actor].loop.Some?
    ensures var s := Run(Initial(loops), events);
            && (s.answers[k].elided <==> Outlives(s.answers[k].call))
            && QueueOf(s.queues, loop) == PostedTo(s.answers, loop)
  {
    hide Run, PostedTo, QueueOf;
    InvInAnyRun(loops, events);
    var s := Run(Initial(loops), events);
    assert AnswerOk(s, s.answers[k]);
  }

  function Positions(answers: seq<Answer>, loop: Loop): seq<nat> {
    if answers == [] then []
    else
      var last := |answers| - 1;
      Positions(answers[..last], loop) + (if answers[last].posted == Some(loop) then [last] else [])
  }

  lemma {:induction false} PositionsArePosts(answers: seq<Answer>, loop: Loop)
    ensures var at, tasks := Positions(answers, loop), PostedTo(answers, loop);
            && |at| == |tasks|
            && (forall m :: 0 <= m < |at| ==>
                  at[m] < |answers| && answers[at[m]].posted == Some(loop) && answers[at[m]].call.task == tasks[m])
            && (forall m, n :: 0 <= m < n < |at| ==> at[m] < at[n])
  {
    if answers != [] {
      PositionsArePosts(answers[..|answers| - 1], loop);
    }
  }

  lemma {:induction false} EveryPostHasAPosition(answers: seq<Answer>, loop: Loop, k: nat)
    requires k < |answers| && answers[k].posted == Some(loop)
    ensures k in Positions(answers, loop)
  {
    if k < |answers| - 1 {
      EveryPostHasAPosition(answers[..|answers| - 1], loop, k);
    }
  }

  /**
   The queue of a loop, entry by entry: there is one task in it for each finished call that answers
   that it posted to this loop, it is that call's task, and they stand in the order of the answers.
   */
  lemma QueueHoldsThePosts(loops: seq<Option<Loop>>, events: seq<Event>, loop: Loop) returns (at: seq<nat>)
    ensures var s := Run(Initial(loops), events);
            var queue := if loop in s.queues then s.queues[loop] else [];
            && |at| == |queue|
            && (forall m :: 0 <= m < |at| ==>
                  at[m] < |s.answers| && s.answers[at[m]].posted == Some(loop) && s.answers[at[m]].call.task == queue[m])
            && (forall m, n :: 0 <= m < n < |at| ==> at[m] < at[n])
            && (forall k :: 0 <= k < |s.answers| && s.answers[k].posted == Some(loop) ==> k in at)
  {
    hide Run, PostedTo, Positions;
    InvInAnyRun(loops, events);
    var s := Run(Initial(loops), events);
    assert QueueOf(s.queues, loop) == PostedTo(s.answers, loop);
    PositionsArePosts(s.answers, loop);
    forall k | 0 <= k < |s.answers| && s.answers[k].posted == Some(loop) ensures k in Positions(s.answers, loop) {
      EveryPostHasAPosition(s.answers, loop, k);
    }
    at := Positions(s.answers, loop);
  }

  /**
   The life of a named thread: once registered and started its slot has its loop, and once it has
   stopped and unregistered everything is as it was before.
   */
  lemma LifeOfAThread(s: State, id: ID, loop: Loop)
    requires IsSlots(s.slots) && Youngest(s.slots, id) && s.slots[id].Empty? && s.lock.None?
    requires !HasLoop(s.slots, loop) && Quiet(s, Some(loop))
    ensures Run(s, [Register(id, None), Start(id, loop)]) == s.(slots := s.slots[id := Held(Some(loop))])
    ensures Run(s, [Register(id, None), Start(id, loop), Stop(id)]) == s.(slots := s.slots[id := Held(None)])
    ensures Run(s, [Register(id, None), Start(id, loop), Stop(id), Unregister(id)]) == s
  {
    var register, start, stop, unregister := Register(id, None), Start(id, loop), Stop(id), Unregister(id);
    var registered := s.(slots := s.slots[id := Held(None)]);
    var started := s.(slots := s.slots[id := Held(Some(loop))]);
    assert Next(s, register) == registered;
    assert forall j: ID :: LoopAt(registered.slots, j) == LoopAt(s.slots, j);
    assert Next(registered, start) == started;
    assert Next(started, stop) == registered;
    assert registered.slots[id := Empty] == s.slots;
    assert Next(registered, unregister) == s;
    hide Next;
    assert [register, start, stop, unregister][1..] == [start, stop, unregister];
    assert [start, stop, unregister][1..] == [stop, unregister] && [stop, unregister][1..] == [unregister];
    assert [register, start, stop][1..] == [start, stop] && [start, stop][1..] == [stop];
    assert [register, start][1..] == [start];
    assert Run(registered, [unregister]) == s;
    assert Run(started, [stop]) == registered;
    assert Run(registered, [start]) == started;
    assert Run(started, [stop, unregister]) == s;
    assert Run(registered, [start, stop]) == registered;
    assert Run(registered, [start, stop, unregister]) == s;
  }

  // ----- Without interleaving -----

  /** The state after `n` steps of one actor alone. */
  function Alone(s: State, a: nat, n: nat): State
    requires IsSlots(s.slots)
    decreases n
  {
    if n == 0 then s else Alone(Next(s, Step(a)), a, n - 1)
  }

  function Finished(s: State, a: nat, call: Call, elided: bool): State
    requires IsSlots(s.slots) && a < |s.actors|
  {
    var loop := LoopAt(s.slots, call.target);
    SetActivity(s.(queues := Post(s.queues, loop, call.task).queues,
                   answers := s.answers + [Answer(a, call, elided, loop)]), a, Idle)
  }

  lemma ReadAndPost(s: State, a: nat, call: Call, locked: bool)
    requires IsSlots(s.slots) && a < |s.actors| && s.lock.None?
    ensures var reading := SetActivity(s.(lock := if locked then Some(a) else None), a, Reading(call, locked));
            Alone(reading, a, 2) == Finished(s, a, call, !locked)
  {
    var held := s.(lock := if locked then Some(a) else None);
    var loop := LoopAt(s.slots, call.target);
    var reading := SetActivity(held, a, Reading(call, locked));
    var posting := SetActivity(held, a, Posting(call, locked, loop));
    assert Next(reading, Step(a)) == posting;
    assert Next(posting, Step(a)) == Finished(s, a, call, !locked);
    assert Alone(reading, a, 2) == Alone(posting, a, 1) == Alone(Next(posting, Step(a)), a, 0);
  }

  lemma {:induction false} ScanAndPost(s: State, a: nat, call: Call, i: nat) returns (n: nat)
    requires IsSlots(s.slots) && a < |s.actors| && s.lock.None? && i <= ID_COUNT
    ensures var caller := FirstMatch(s.slots, s.actors[a].loop, i);
            Alone(SetActivity(s, a, Scanning(call, i)), a, n)
            == Finished(s, a, call, caller.Some? && call.target <= caller.value)
    decreases ID_COUNT - i
  {
    hide Finished;
    var scanning := SetActivity(s, a, Scanning(call, i));
    if i < ID_COUNT && !Matches(s.slots[i], s.actors[a].loop) {
      assert Next(scanning, Step(a)) == SetActivity(s, a, Scanning(call, i + 1));
      var more := ScanAndPost(s, a, call, i + 1);
      n := more + 1;
    } else if i < ID_COUNT && call.target <= i {
      assert Next(scanning, Step(a)) == SetActivity(s, a, Reading(call, false));
      ReadAndPost(s, a, call, false);
      assert s.(lock := None) == s;
      n := 3;
    } else {
      var waiting := SetActivity(s, a, Waiting(call));
      assert Next(scanning, Step(a)) == waiting;
      var reading := SetActivity(s.(lock := Some(a)), a, Reading(call, true));
      assert Next(waiting, Step(a)) == reading;
      ReadAndPost(s, a, call, true);
      assert Alone(scanning, a, 4) == Alone(waiting, a, 3) == Alone(reading, a, 2);
      n := 4;
    }
  }

  /** A call that nobody interrupts does what PostTaskHelper() of BrowserThread promises. */
  lemma AloneItIsPostTaskHelper(s: State, a: nat, target: ID, task: Task) returns (n: nat)
    requires IsSlots(s.slots) && s.lock.None? && Enabled(s, Begin(a, target, task))
    ensures var caller := FirstMatch(s.slots, s.actors[a].loop, 0);
            var end := Alone(Next(s, Begin(a, target, task)), a, n);
            && end.slots == s.slots && end.lock.None? && |end.answers| == |s.answers| + 1
            && var answer := end.answers[|s.answers|];
               && answer.posted == LoopAt(s.slots, target)
               && (answer.elided <==> caller.Some? && target <= caller.value)
               && Posted(end.queues, answer.posted.Some?) == Post(s.queues, LoopAt(s.slots, target), task)
               && end.queues == (match answer.posted
                                 case None => s.queues
                                 case Some(l) => s.queues[l := (if l in s.queues then s.queues[l] else []) + [task]])
  {
    n := ScanAndPost(s, a, Call(target, task, FirstMatch(s.slots, s.actors[a].loop, 0), s.slots), 0);
  }

  // ----- Where the premise of a message loop matters -----

  /** A thread without a message loop is taken for a registered thread that has not been started. */
  lemma NullLoopAvoidsTheLock(task: Task)
    ensures var s := Run(Initial([None]), [Register(3, None), Begin(0, 2, task), Step(0), Step(0), Step(0), Step(0)]);
            s.actors[0].activity.Reading? && !s.actors[0].activity.locked
  {
    hide Run, FirstMatch, HasLoop;
    var s0 := Initial([None]);
    var s1 := Next(s0, Register(3, None));
    assert s1.slots == [Empty, Empty, Empty, Held(None), Empty, Empty, Empty, Empty];
    var s2 := Next(s1, Begin(0, 2, task));
    var call := s2.actors[0].activity.call;
    var s3 := Next(s2, Step(0));
    assert s3.actors[0].activity == Scanning(call, 1);
    var s4 := Next(s3, Step(0));
    assert s4.actors[0].activity == Scanning(call, 2);
    var s5 := Next(s4, Step(0));
    assert s5.actors[0].activity == Scanning(call, 3);
    var s6 := Next(s5, Step(0));
    assert s6.actors[0].activity == Reading(call, false);
    var events := [Register(3, None), Begin(0, 2, task), Step(0), Step(0), Step(0), Step(0)];
    assert events[1..] == [Begin(0, 2, task), Step(0), Step(0), Step(0), Step(0)];
    assert events[1..][1..] == [Step(0), Step(0), Step(0), Step(0)];
    RunTwo(s0, events, s1, s2);
    Repeated(s2, s3, s4, s5, s6);
  }

  lemma RunTwo(s0: State, events: seq<Event>, s1: State, s2: State)
    requires IsSlots(s0.slots) && |events| >= 2 && s1 == Next(s0, events[0]) && s2 == Next(s1, events[1..][0])
    ensures Run(s0, events) == Run(s2, events[1..][1..])
  {
    hide Next;
  }

  lemma Repeated(s2: State, s3: State, s4: State, s5: State, s6: State)
    requires IsSlots(s2.slots) && s3 == Next(s2, Step(0)) && s4 == Next(s3, Step(0))
    requires s5 == Next(s4, Step(0)) && s6 == Next(s5, Step(0))
    ensures Run(s2, [Step(0), Step(0), Step(0), Step(0)]) == s6
  {
    hide Next;
    var one := Step(0);
    assert [one, one, one, one][1..] == [one, one, one];
    assert [one, one, one][1..] == [one, one];
    assert [one, one][1..] == [one];
    assert Run(s5, [one]) == s6;
    assert Run(s4, [one, one]) == s6;
    assert Run(s3, [one, one, one]) == s6;
  }
}
