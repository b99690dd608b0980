/**
 The compare-and-swap loops of commonlib/common/base/atomicops_internals_gcc.h as interleaved
 steps of any number of actors over one 32-bit cell. Each step is one access to the cell; the
 schedule decides who moves. The log records, in order, the moment at which each call takes its
 effect, so that "linearizable" reads: the log is a legal sequential history, and every call
 that returns has exactly one entry in it, made between its start and its return.
 */
module AtomicOps {

  const MODULUS := 0x1_0000_0000

  /** Atomic32, by its bits. */
  type Word = x: int | 0 <= x < 0x1_0000_0000

  function Wrap(x: int): Word {
    x % MODULUS
  }

  datatype Op =
    | Increment(delta: int)
    | Exchange(value: Word)
    | CompareAndSwap(expected: Word, replacement: Word)

  // ----- The sequential meaning -----

  datatype Outcome = Outcome(cell: Word, result: Word)

  function Apply(cell: Word, op: Op): Outcome {
    match op
    case Increment(delta) => Outcome(Wrap(cell + delta), Wrap(cell + delta))
    case Exchange(value) => Outcome(value, cell)
    case CompareAndSwap(expected, replacement) =>
      if cell == expected then Outcome(replacement, expected) else Outcome(cell, cell)
  }

  datatype Effect = Effect(actor: nat, call: nat, op: Op, result: Word)

  /** The cell after the effects, in order. */
  function Replay(cell: Word, log: seq<Effect>): Word
    decreases |log|
  {
    if log == [] then cell else Apply(Replay(cell, log[..|log| - 1]), log[|log| - 1].op).cell
  }

  /** Every logged result is the one its operation has at its place in the log. */
  ghost predicate Legal(cell: Word, log: seq<Effect>) {
    forall p :: 0 <= p < |log| ==> log[p].result == Apply(Replay(cell, log[..p]), log[p].op).result
  }

  // ----- The loops, one access to the cell at a time -----

  datatype Phase =
    | Idle
      // at the head of the loop
    | Starting(op: Op)
      // an increment or exchange has read the cell
    | Loaded(op: Op, seen: Word)
      // NoBarrier_CompareAndSwap has failed and is about to read the cell
    | Missed(op: Op)
      // the result is known; `at` is the entry of the log that it took effect with
    | Done(op: Op, result: Word, at: nat)

  /** `calls` counts the calls begun; `start` is the length of the log when the last one began. */
  datatype Actor = Actor(calls: nat, start: nat, phase: Phase)

  datatype Returned = Returned(actor: nat, call: nat, op: Op, result: Word, start: nat, at: nat, end: nat)

  datatype State = State(cell: Word, actors: seq<Actor>, log: seq<Effect>, returned: seq<Returned>)

  datatype Event = Begin(actor: nat, op: Op) | Step(actor: nat) | Return(actor: nat)

  function Moves(s: State, i: nat, phase: Phase): (r: State)
    requires i < |s.actors|
  {
    s.(actors := s.actors[i := s.actors[i].(phase := phase)])
  }

  /** The actor's call takes effect on the cell now, with this result. */
  function TakesEffect(s: State, i: nat, cell: Word, op: Op, result: Word): State
    requires i < |s.actors|
  {
    Moves(s, i, Done(op, result, |s.log|))
      .(cell := cell, log := s.log + [Effect(i, s.actors[i].calls, op, result)])
  }

  function StepActor(s: State, i: nat): State
    requires i < |s.actors|
  {
    match s.actors[i].phase
    case Idle => s
    case Starting(CompareAndSwap(expected, replacement)) =>
      // __sync_bool_compare_and_swap
      if s.cell == expected then TakesEffect(s, i, replacement, CompareAndSwap(expected, replacement), expected)
      else Moves(s, i, Missed(CompareAndSwap(expected, replacement)))
    case Starting(op) =>
      Moves(s, i, Loaded(op, s.cell))
    case Loaded(op, seen) =>
      if s.cell != seen then Moves(s, i, Starting(op))
      else (
        match op
        case Increment(delta) => TakesEffect(s, i, Wrap(seen + delta), op, Wrap(seen + delta))
        case Exchange(value) => TakesEffect(s, i, value, op, seen)
        case CompareAndSwap(_, _) => s
      )
    case Missed(op) =>
      if op.CompareAndSwap? && s.cell != op.expected then TakesEffect(s, i, s.cell, op, s.cell)
      else Moves(s, i, Starting(op))
    case Done(_, _, _) => s
  }

  /** An event that is not possible leaves the state as it is. */
  function Next(s: State, e: Event): State {
    if e.actor >= |s.actors| then s
    else
      var a := s.actors[e.actor];
      match e
      case Begin(i, op) =>
        if a.phase.Idle? then
          s.(actors := s.actors[i := Actor(a.calls + 1, |s.log|, Starting(op))])
        else s
      case Step(i) => StepActor(s, i)
      case Return(i) =>
        if a.phase.Done? then
          Moves(s, i, Idle)
            .(returned := s.returned
                + [Returned(i, a.calls, a.phase.op, a.phase.result, a.start, a.phase.at, |s.log|)])
        else s
  }

  function Run(s: State, events: seq<Event>): State
    decreases |events|
  {
    if events == [] then s else Run(Next(s, events[0]), events[1..])
  }

  function Initial(cell: Word, actors: nat): State {
    State(cell, seq(actors, i => Actor(0, 0, Idle)), [], [])
  }

  // ----- The invariant -----

  /** The entry at `at` is this call's. */
  predicate Logged(log: seq<Effect>, at: nat, actor: nat, call: nat, op: Op, result: Word) {
    at < |log| && log[at] == Effect(actor, call, op, result)
  }

  predicate ActorOk(log: seq<Effect>, a: Actor, i: nat) {
    && a.start <= |log|
    && (!a.phase.Idle? ==> a.calls > 0)
    && (a.phase.Loaded? ==> !a.phase.op.CompareAndSwap?)
    && (a.phase.Missed? ==> a.phase.op.CompareAndSwap?)
    && (a.phase.Done? ==>
          a.start <= a.phase.at && Logged(log, a.phase.at, i, a.calls, a.phase.op, a.phase.result))
  }

  /** A call that is still under way has no entry yet. */
  predicate UnderWay(phase: Phase) {
    !phase.Idle? && !phase.Done?
  }

  predicate EntryOk(actors: seq<Actor>, e: Effect) {
    && e.actor < |actors|
    && 0 < e.call <= actors[e.actor].calls
    && (UnderWay(actors[e.actor].phase) ==> e.call < actors[e.actor].calls)
  }

  ghost predicate OneEntryPerCall(log: seq<Effect>) {
    forall p, q :: 0 <= p < q < |log| && log[p].actor == log[q].actor ==> log[p].call != log[q].call
  }

  predicate ReturnOk(log: seq<Effect>, r: Returned) {
    r.start <= r.at < r.end <= |log| && Logged(log, r.at, r.actor, r.call, r.op, r.result)
  }

  ghost predicate Linearized(cell: Word, s: State) {
    && Legal(cell, s.log)
    && s.cell == Replay(cell, s.log)
    && OneEntryPerCall(s.log)
    && (forall k :: 0 <= k < |s.returned| ==> ReturnOk(s.log, s.returned[k]))
  }

  ghost predicate Inv(cell: Word, s: State) {
    && Linearized(cell, s)
    && (forall i :: 0 <= i < |s.actors| ==> ActorOk(s.log, s.actors[i], i))
    && (forall p :: 0 <= p < |s.log| ==> EntryOk(s.actors, s.log[p]))
  }

  lemma LogGrows(cell: Word, log: seq<Effect>, e: Effect)
    requires Legal(cell, log)
    requires e.result == Apply(Replay(cell, log), e.op).result
    ensures Legal(cell, log + [e])
    ensures Replay(cell, log + [e]) == Apply(Replay(cell, log), e.op).cell
  {
    var more := log + [e];
    assert more[..|log|] == log;
    forall p | 0 <= p < |more| ensures more[p].result == Apply(Replay(cell, more[..p]), more[p].op).result {
      if p < |log| {
        assert more[..p] == log[..p];
      }
    }
  }

  lemma TakesEffectKeepsInv(cell: Word, s: State, i: nat, op: Op)
    requires Inv(cell, s) && i < |s.actors| && UnderWay(s.actors[i].phase)
    ensures var out := Apply(s.cell, op);
            Inv(cell, TakesEffect(s, i, out.cell, op, out.result))
  {
    hide Apply, Legal, Replay;
    var out := Apply(s.cell, op);
    var e := Effect(i, s.actors[i].calls, op, out.result);
    LogGrows(cell, s.log, e);
    var t := TakesEffect(s, i, out.cell, op, out.result);
    assert ActorOk(s.log, s.actors[i], i);
    forall k | 0 <= k < |t.actors| ensures ActorOk(t.log, t.actors[k], k) {
      assert ActorOk(s.log, s.actors[k], k);
    }
    forall p | 0 <= p < |t.log| ensures EntryOk(t.actors, t.log[p]) {
      assert p < |s.log| ==> EntryOk(s.actors, s.log[p]);
    }
    forall p | 0 <= p < |s.log| && s.log[p].actor == i ensures s.log[p].call != e.call {
      assert EntryOk(s.actors, s.log[p]);
    }
    forall k | 0 <= k < |s.returned| ensures ReturnOk(t.log, t.returned[k]) {
      assert ReturnOk(s.log, s.returned[k]);
    }
  }

  /** Retrying leaves no trace. */
  lemma MoveKeepsInv(cell: Word, s: State, i: nat, phase: Phase)
    requires Inv(cell, s) && i < |s.actors| && UnderWay(s.actors[i].phase)
    requires phase.Starting? || (phase.Loaded? && !phase.op.CompareAndSwap?) || (phase.Missed? && phase.op.CompareAndSwap?)
    ensures Inv(cell, Moves(s, i, phase))
  {
    var t := Moves(s, i, phase);
    forall k | 0 <= k < |t.actors| ensures ActorOk(t.log, t.actors[k], k) {
      assert ActorOk(s.log, s.actors[k], k);
    }
    forall p | 0 <= p < |t.log| ensures EntryOk(t.actors, t.log[p]) {
      assert EntryOk(s.actors, s.log[p]);
    }
  }

  lemma StepKeepsInv(cell: Word, s: State, i: nat)
    requires Inv(cell, s) && i < |s.actors|
    ensures Inv(cell, StepActor(s, i))
  {
    hide Inv, Linearized, TakesEffect, Moves;
    var phase := s.actors[i].phase;
    PhaseOk(cell, s, i);
    if phase.Starting? && !(phase.op.CompareAndSwap? && s.cell == phase.op.expected) {
      MoveKeepsInv(cell, s, i, if phase.op.CompareAndSwap? then Missed(phase.op) else Loaded(phase.op, s.cell));
    } else if (phase.Loaded? && s.cell != phase.seen) || (phase.Missed? && s.cell == phase.op.expected) {
      MoveKeepsInv(cell, s, i, Starting(phase.op));
    } else if UnderWay(phase) {
      TakesEffectKeepsInv(cell, s, i, phase.op);
    }
  }

  lemma PhaseOk(cell: Word, s: State, i: nat)
    requires Inv(cell, s) && i < |s.actors|
    ensures ActorOk(s.log, s.actors[i], i)
  {
  }

  lemma BeginKeepsInv(cell: Word, s: State, i: nat, op: Op)
    requires Inv(cell, s) && i < |s.actors| && s.actors[i].phase.Idle?
    ensures Inv(cell, Next(s, Begin(i, op)))
  {
    var t := Next(s, Begin(i, op));
    forall k | 0 <= k < |t.actors| ensures ActorOk(t.log, t.actors[k], k) {
      assert ActorOk(s.log, s.actors[k], k);
    }
    forall p | 0 <= p < |t.log| ensures EntryOk(t.actors, t.log[p]) {
      assert EntryOk(s.actors, s.log[p]);
    }
  }

  lemma ReturnKeepsInv(cell: Word, s: State, i: nat)
    requires Inv(cell, s) && i < |s.actors| && s.actors[i].phase.Done?
    ensures Inv(cell, Next(s, Return(i)))
  {
    var t := Next(s, Return(i));
    assert ActorOk(s.log, s.actors[i], i);
    forall k | 0 <= k < |t.actors| ensures ActorOk(t.log, t.actors[k], k) {
      assert ActorOk(s.log, s.actors[k], k);
    }
    forall p | 0 <= p < |t.log| ensures EntryOk(t.actors, t.log[p]) {
      assert EntryOk(s.actors, s.log[p]);
    }
    forall k | 0 <= k < |t.returned| ensures ReturnOk(t.log, t.returned[k]) {
      assert k < |s.returned| ==> ReturnOk(s.log, s.returned[k]);
    }
  }

  lemma NextKeepsInv(cell: Word, s: State, e: Event)
    requires Inv(cell, s)
    ensures Inv(cell, Next(s, e))
  {
    hide Inv;
    if e.actor < |s.actors| {
      match e
      case Begin(i, op) => if s.actors[i].phase.Idle? { BeginKeepsInv(cell, s, i, op); }
      case Step(i) => StepKeepsInv(cell, s, i);
      case Return(i) => if s.actors[i].phase.Done? { ReturnKeepsInv(cell, s, i); }
    }
  }

  lemma {:induction false} RunKeepsInv(cell: Word, s: State, events: seq<Event>)
    requires Inv(cell, s)
    ensures Inv(cell, Run(s, events))
    decreases |events|
  {
    if events != [] {
      NextKeepsInv(cell, s, events[0]);
      RunKeepsInv(cell, Next(s, events[0]), events[1..]);
    }
  }

  // ----- Main results -----

  /**
   Under every interleaving the loops are linearizable: the log replays to the cell, and every
   call that returned has exactly one entry in it, with its own operation and result, made after
   its start and before its return.
   */
  lemma LoopsAreLinearizable(cell: Word, actors: nat, events: seq<Event>)
    ensures var s := Run(Initial(cell, actors), events);
            && Legal(cell, s.log)
            && s.cell == Replay(cell, s.log)
            && OneEntryPerCall(s.log)
            && forall k :: 0 <= k < |s.returned| ==> ReturnOk(s.log, s.returned[k])
  {
    RunKeepsInv(cell, Initial(cell, actors), events);
  }

  /** The order of the log respects real time. */
  lemma LogRespectsRealTime(cell: Word, actors: nat, events: seq<Event>, j: nat, k: nat)
    requires var s := Run(Initial(cell, actors), events);
             j < |s.returned| && k < |s.returned| && s.returned[j].end <= s.returned[k].start
    ensures var s := Run(Initial(cell, actors), events);
            s.returned[j].at < s.returned[k].at
  {
    hide Run;
    LoopsAreLinearizable(cell, actors, events);
  }

  lemma EntryOf(cell: Word, log: seq<Effect>, p: nat)
    requires Legal(cell, log) && p < |log|
    ensures log[p].result == Apply(Replay(cell, log[..p]), log[p].op).result
    ensures Replay(cell, log[..p + 1]) == Apply(Replay(cell, log[..p]), log[p].op).cell
  {
    hide Apply;
    assert log[..p + 1][..p] == log[..p];
  }

  /**
   NoBarrier_CompareAndSwap answers with the expected value exactly when it wrote; otherwise with
   a different value, which the cell really held at a moment of the call.
   */
  lemma CompareAndSwapTellsTheTruth(cell: Word, actors: nat, events: seq<Event>, k: nat)
    requires var s := Run(Initial(cell, actors), events);
             k < |s.returned| && s.returned[k].op.CompareAndSwap?
    ensures var s := Run(Initial(cell, actors), events);
            var r := s.returned[k];
            && r.start <= r.at < r.end <= |s.log|
            && r.result == Replay(cell, s.log[..r.at])
            && Replay(cell, s.log[..r.at + 1]) == if r.result == r.op.expected then r.op.replacement else r.result
  {
    hide Run, OneEntryPerCall, Legal, Replay;
    LoopsAreLinearizable(cell, actors, events);
    var s := Run(Initial(cell, actors), events);
    assert ReturnOk(s.log, s.returned[k]);
    EntryOf(cell, s.log, s.returned[k].at);
  }

  function Total(log: seq<Effect>): int {
    if log == [] then 0
    else Total(log[..|log| - 1]) + (if log[|log| - 1].op.Increment? then log[|log| - 1].op.delta else 0)
  }

  ghost predicate OnlyIncrements(log: seq<Effect>) {
    forall p :: 0 <= p < |log| ==> log[p].op.Increment?
  }

  lemma {:induction false} ReplayOfIncrements(cell: Word, log: seq<Effect>)
    requires OnlyIncrements(log)
    ensures Replay(cell, log) == Wrap(cell + Total(log))
    decreases |log|
  {
    if log != [] {
      var init, delta := log[..|log| - 1], log[|log| - 1].op.delta;
      ReplayOfIncrements(cell, init);
    }
  }

  /** When only increments run, the cell is the initial value plus the increments that took effect. */
  lemma IncrementsAddUp(cell: Word, actors: nat, events: seq<Event>)
    requires OnlyIncrements(Run(Initial(cell, actors), events).log)
    ensures var s := Run(Initial(cell, actors), events);
            && s.cell == (cell + Total(s.log)) % 0x1_0000_0000
            && forall p :: 0 <= p < |s.log| ==> s.log[p].result == (cell + Total(s.log[..p + 1])) % 0x1_0000_0000
  {
    hide Run, Replay, Total, Legal, OneEntryPerCall;
    LoopsAreLinearizable(cell, actors, events);
    var s := Run(Initial(cell, actors), events);
    ReplayOfIncrements(cell, s.log);
    forall p | 0 <= p < |s.log| ensures s.log[p].result == Wrap(cell + Total(s.log[..p + 1])) {
      IncrementResult(cell, s.log, p);
    }
  }

  lemma IncrementResult(cell: Word, log: seq<Effect>, p: nat)
    requires OnlyIncrements(log) && Legal(cell, log) && p < |log|
    ensures log[p].result == Wrap(cell + Total(log[..p + 1]))
  {
    hide Replay, Total;
    EntryOf(cell, log, p);
    ReplayOfIncrements(cell, log[..p + 1]);
  }

  // ----- Lock-freedom -----

  /** The steps that this actor's calls take. */
  function Steps(s: State, events: seq<Event>, i: nat): nat
    decreases |events|
  {
    if events == [] then 0
    else
      var counts := i < |s.actors| && events[0] == Step(i) && UnderWay(s.actors[i].phase);
      (if counts then 1 else 0) + Steps(Next(s, events[0]), events[1..], i)
  }

  /** One step ahead as long as the value it relies on is still in the cell, one to be paid back if it is not. */
  function Credit(s: State, i: nat): int {
    if i >= |s.actors| then 0
    else
      match s.actors[i].phase
      case Loaded(_, seen) => if s.cell == seen then 1 else -1
      case Missed(op) => if op.CompareAndSwap? && s.cell != op.expected then 1 else -1
      case _ => 0
  }

  lemma StepIsPaidFor(cell: Word, s: State, e: Event, i: nat)
    requires Inv(cell, s)
    ensures |Next(s, e).log| >= |s.log|
    ensures Steps(s, [e], i) + Credit(s, i) <= 2 * (|Next(s, e).log| - |s.log|) + Credit(Next(s, e), i)
  {
    hide Linearized;
    assert [e][1..] == [];
    assert Steps(Next(s, e), [], i) == 0;
    if i < |s.actors| {
      PhaseOk(cell, s, i);
    }
  }

  lemma {:induction false} StepsArePaidFor(cell: Word, s: State, events: seq<Event>, i: nat)
    requires Inv(cell, s)
    ensures |Run(s, events).log| >= |s.log|
    ensures Steps(s, events, i) + Credit(s, i) <= 2 * (|Run(s, events).log| - |s.log|) + Credit(Run(s, events), i)
    decreases |events|
  {
    hide Inv, Next, Credit;
    if events != [] {
      NextKeepsInv(cell, s, events[0]);
      StepIsPaidFor(cell, s, events[0], i);
      assert [events[0]][1..] == [];
      assert Steps(Next(s, events[0]), [], i) == 0;
      StepsArePaidFor(cell, Next(s, events[0]), events[1..], i);
    }
  }

  /**
   The loops are lock-free: between any two moments of any run, an actor takes at most two steps
   for each call that takes effect, and two more (one more, if it was at the head of its loop). So
   it tries again only because another call has got through.
   */
  lemma RetriesAreBounded(cell: Word, actors: nat, before: seq<Event>, events: seq<Event>, i: nat)
    ensures var s := Run(Initial(cell, actors), before);
            var effects := |Run(s, events).log| - |s.log|;
            && Steps(s, events, i) <= 2 * effects + 2
            && (i < |s.actors| && (s.actors[i].phase.Idle? || s.actors[i].phase.Starting?) ==>
                  Steps(s, events, i) <= 2 * effects + 1)
  {
    hide Run, Steps;
    RunKeepsInv(cell, Initial(cell, actors), before);
    StepsArePaidFor(cell, Run(Initial(cell, actors), before), events, i);
  }
}
