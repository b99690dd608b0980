/**
 commonlib/common/base/atomic_ref_count.h: actors share one counter through the increment loop.
 The discipline is the usual one: an actor increments only while it holds a reference, and never
 releases more references than it holds; fewer than 2^31 are ever out.
 */
module AtomicRefCount {
  import A = AtomicOps

  const LIMIT := 0x8000_0000

  function Sum(xs: seq<nat>): nat {
    if xs == [] then 0 else xs[0] + Sum(xs[1..])
  }

  lemma {:induction false} SumAfterUpdate(xs: seq<nat>, i: nat, x: nat)
    requires i < |xs|
    ensures Sum(xs[i := x]) == Sum(xs) - xs[i] + x
    ensures Sum(xs) >= xs[i]
  {
    if i == 0 {
      assert xs[0 := x][1..] == xs[1..];
    } else {
      assert xs[i := x][1..] == xs[1..][i - 1 := x];
      SumAfterUpdate(xs[1..], i - 1, x);
    }
  }

  lemma {:induction false} SumAtLeastTwo(xs: seq<nat>, i: nat, j: nat)
    requires i < |xs| && j < |xs| && i != j
    ensures Sum(xs) >= xs[i] + xs[j]
  {
    SumAfterUpdate(xs, i, 0);
    SumAfterUpdate(xs[i := 0], j, 0);
  }

  /** `held[i]` references are held by actor i, and it is about to add `inFlight[i]` more. */
  datatype State = State(memory: A.State, held: seq<nat>, inFlight: seq<nat>)

  datatype Event =
    | IncN(actor: nat, n: nat)
    | DecN(actor: nat, n: nat)
      // a reference changes hands
    | Give(actor: nat, to: nat, n: nat)
    | Step(actor: nat)
    | Return(actor: nat)

  function Idle(s: State, i: nat): bool {
    i < |s.memory.actors| && s.memory.actors[i].phase.Idle?
  }

  predicate Enabled(s: State, e: Event) {
    && e.actor < |s.memory.actors| == |s.held| == |s.inFlight|
    && match e
       case IncN(i, n) => Idle(s, i) && n > 0 && s.held[i] > 0 && Sum(s.held) + Sum(s.inFlight) + n < LIMIT
       case DecN(i, n) => Idle(s, i) && 0 < n <= s.held[i]
       case Give(i, to, n) => Idle(s, i) && n <= s.held[i] && to < |s.held|
       case Step(_) => true
       case Return(_) => true
  }

  function Next(s: State, e: Event): State {
    if !Enabled(s, e) then s
    else
      match e
      case IncN(i, n) =>
        s.(memory := A.Next(s.memory, A.Begin(i, A.Increment(n))), inFlight := s.inFlight[i := n])
      case DecN(i, n) =>
        s.(memory := A.Next(s.memory, A.Begin(i, A.Increment(0 - n))))
      case Give(i, to, n) =>
        var left := s.held[i := s.held[i] - n];
        s.(held := left[to := left[to] + n])
      case Step(i) =>
        var memory := A.Next(s.memory, A.Step(i));
        if |memory.log| == |s.memory.log| then s.(memory := memory)
        else
          // the increment has taken effect (the discipline keeps `now` from going below zero)
          var op := memory.log[|memory.log| - 1].op;
          var now := s.held[i] + if op.Increment? then op.delta else 0;
          State(memory, s.held[i := if now >= 0 then now else 0], s.inFlight[i := 0])
      case Return(i) =>
        s.(memory := A.Next(s.memory, A.Return(i)))
  }

  /** The single load of AtomicRefCountIsOne. */
  predicate IsOne(s: State) {
    s.memory.cell == 1
  }

  /** The single load of AtomicRefCountIsZero. */
  predicate IsZero(s: State) {
    s.memory.cell == 0
  }

  /** What AtomicRefCountDecN makes of the result of its increment. */
  predicate StillReferenced(r: A.Returned) {
    r.result != 0
  }

  function Run(s: State, events: seq<Event>): State
    decreases |events|
  {
    if events == [] then s else Run(Next(s, events[0]), events[1..])
  }

  /** The first actor owns `count` references, the others none. */
  function Initial(count: nat, others: nat): State
    requires 0 < count < LIMIT
  {
    State(A.Initial(count, others + 1), [count] + seq(others, i => 0), seq(others + 1, i => 0))
  }

  // ----- The invariant -----

  /** The call under way is covered by the references of its actor. */
  predicate Covered(phase: A.Phase, held: nat, inFlight: nat) {
    if A.UnderWay(phase) then
      && phase.op.Increment? && phase.op.delta != 0
      && (if phase.op.delta > 0 then held > 0 && inFlight == phase.op.delta
          else -phase.op.delta <= held && inFlight == 0)
    else inFlight == 0
  }

  ghost predicate Inv(s: State) {
    && |s.memory.actors| == |s.held| == |s.inFlight|
    && s.memory.cell == Sum(s.held)
    && Sum(s.held) + Sum(s.inFlight) < LIMIT
    && (forall i :: 0 <= i < |s.held| ==> Covered(s.memory.actors[i].phase, s.held[i], s.inFlight[i]))
    // zero is answered by the last effect, when nothing is held any more, and by no other
    && (forall p :: 0 <= p < |s.memory.log| && s.memory.log[p].result == 0 ==>
          p == |s.memory.log| - 1 && Sum(s.held) == 0)
  }

  lemma BeginKeepsInv(s: State, e: Event)
    requires Inv(s) && Enabled(s, e) && (e.IncN? || e.DecN?)
    ensures Inv(Next(s, e))
  {
    var t := Next(s, e);
    if e.IncN? {
      SumAfterUpdate(s.inFlight, e.actor, e.n);
      assert Covered(s.memory.actors[e.actor].phase, s.held[e.actor], s.inFlight[e.actor]);
    }
    forall i | 0 <= i < |t.held| ensures Covered(t.memory.actors[i].phase, t.held[i], t.inFlight[i]) {
      assert Covered(s.memory.actors[i].phase, s.held[i], s.inFlight[i]);
    }
  }

  lemma GiveKeepsInv(s: State, e: Event)
    requires Inv(s) && Enabled(s, e) && e.Give?
    ensures Inv(Next(s, e))
  {
    hide Sum;
    var t := Next(s, e);
    var left := s.held[e.actor := s.held[e.actor] - e.n];
    SumAfterUpdate(s.held, e.actor, s.held[e.actor] - e.n);
    SumAfterUpdate(left, e.to, left[e.to] + e.n);
    forall i | 0 <= i < |t.held| ensures Covered(t.memory.actors[i].phase, t.held[i], t.inFlight[i]) {
      assert Covered(s.memory.actors[i].phase, s.held[i], s.inFlight[i]);
    }
  }

  /** What one step of the increment loop can do to the memory. */
  lemma StepShape(m: A.State, i: nat)
    requires i < |m.actors|
    requires A.UnderWay(m.actors[i].phase) ==> m.actors[i].phase.op.Increment?
    ensures var t := A.Next(m, A.Step(i));
            && |t.actors| == |m.actors|
            && (forall k :: 0 <= k < |m.actors| && k != i ==> t.actors[k] == m.actors[k])
            && if |t.log| == |m.log| then
                 t.cell == m.cell && t.log == m.log
                 && (A.UnderWay(m.actors[i].phase) <==> A.UnderWay(t.actors[i].phase))
                 && (A.UnderWay(m.actors[i].phase) ==> t.actors[i].phase.op == m.actors[i].phase.op)
               else
                 && A.UnderWay(m.actors[i].phase) && !A.UnderWay(t.actors[i].phase)
                 && t.cell == A.Wrap(m.cell + m.actors[i].phase.op.delta)
                 && t.log == m.log + [A.Effect(i, m.actors[i].calls, m.actors[i].phase.op, t.cell)]
  {
  }

  lemma WrapFits(x: int)
    ensures 0 <= x < LIMIT ==> A.Wrap(x) == x
  {
  }

  lemma StepKeepsInv(s: State, i: nat)
    requires Inv(s) && Enabled(s, Step(i))
    ensures Inv(Next(s, Step(i)))
  {
    hide A.Next, A.Wrap, Sum;
    assert Covered(s.memory.actors[i].phase, s.held[i], s.inFlight[i]);
    StepShape(s.memory, i);
    var t := Next(s, Step(i));
    if |t.memory.log| != |s.memory.log| {
      var delta := s.memory.actors[i].phase.op.delta;
      WrapFits(s.memory.cell + delta);
      SumAfterUpdate(s.held, i, s.held[i] + delta);
      SumAfterUpdate(s.inFlight, i, 0);
      assert Sum(s.held) > 0;
      forall p | 0 <= p < |s.memory.log| ensures s.memory.log[p].result != 0 {
      }
    }
    forall k | 0 <= k < |t.held| ensures Covered(t.memory.actors[k].phase, t.held[k], t.inFlight[k]) {
      assert Covered(s.memory.actors[k].phase, s.held[k], s.inFlight[k]);
    }
  }

  lemma ReturnKeepsInv(s: State, i: nat)
    requires Inv(s) && Enabled(s, Return(i))
    ensures Inv(Next(s, Return(i)))
  {
    var t := Next(s, Return(i));
    forall k | 0 <= k < |t.held| ensures Covered(t.memory.actors[k].phase, t.held[k], t.inFlight[k]) {
      assert Covered(s.memory.actors[k].phase, s.held[k], s.inFlight[k]);
    }
  }

  lemma NextKeepsInv(s: State, e: Event)
    requires Inv(s)
    ensures Inv(Next(s, e))
  {
    hide Inv;
    if Enabled(s, e) {
      match e
      case IncN(_, _) => BeginKeepsInv(s, e);
      case DecN(_, _) => BeginKeepsInv(s, e);
      case Give(_, _, _) => GiveKeepsInv(s, e);
      case Step(i) => StepKeepsInv(s, i);
      case Return(i) => ReturnKeepsInv(s, i);
    }
  }

  lemma {:induction false} RunKeepsInv(s: State, events: seq<Event>)
    requires Inv(s)
    ensures Inv(Run(s, events))
    decreases |events|
  {
    hide Inv, Next;
    if events != [] {
      NextKeepsInv(s, events[0]);
      RunKeepsInv(Next(s, events[0]), events[1..]);
    }
  }

  lemma {:induction false} SumOfZeros(n: nat)
    ensures Sum(seq(n, i => 0)) == 0
  {
    if n > 0 {
      assert seq(n, i => 0)[1..] == seq(n - 1, i => 0);
      SumOfZeros(n - 1);
    }
  }

  lemma InitialInv(count: nat, others: nat)
    requires 0 < count < LIMIT
    ensures Inv(Initial(count, others))
  {
    var s := Initial(count, others);
    SumOfZeros(others);
    SumOfZeros(others + 1);
    assert s.held[1..] == seq(others, i => 0);
  }

  // ----- The memory runs under the same steps -----

  lemma NextKeepsMemoryInv(cell: A.Word, s: State, e: Event)
    requires A.Inv(cell, s.memory)
    ensures A.Inv(cell, Next(s, e).memory)
  {
    hide A.Inv, A.Next;
    if Enabled(s, e) {
      match e
      case IncN(i, n) => A.NextKeepsInv(cell, s.memory, A.Begin(i, A.Increment(n)));
      case DecN(i, n) => A.NextKeepsInv(cell, s.memory, A.Begin(i, A.Increment(0 - n)));
      case Give(_, _, _) =>
      case Step(i) => A.NextKeepsInv(cell, s.memory, A.Step(i));
      case Return(i) => A.NextKeepsInv(cell, s.memory, A.Return(i));
    }
  }

  lemma {:induction false} RunKeepsMemoryInv(cell: A.Word, s: State, events: seq<Event>)
    requires A.Inv(cell, s.memory)
    ensures A.Inv(cell, Run(s, events).memory)
    decreases |events|
  {
    hide A.Inv, Next;
    if events != [] {
      NextKeepsMemoryInv(cell, s, events[0]);
      RunKeepsMemoryInv(cell, Next(s, events[0]), events[1..]);
    }
  }

  // ----- Main results -----

  /** In every state of every run the count is the number of references held. */
  lemma CountIsReferencesHeld(count: nat, others: nat, events: seq<Event>)
    requires 0 < count < 0x8000_0000
    ensures var s := Run(Initial(count, others), events);
            s.memory.cell == Sum(s.held) < 0x8000_0000
  {
    InitialInv(count, others);
    RunKeepsInv(Initial(count, others), events);
  }

  /**
   AtomicRefCountDecN answers false (its result is zero) at most once in any run, and then nothing
   is held any more. The calls are told apart by actor and call number.
   */
  lemma LastReleaseIsUnique(count: nat, others: nat, events: seq<Event>, j: nat, k: nat)
    requires 0 < count < 0x8000_0000
    requires var s := Run(Initial(count, others), events);
             j < |s.memory.returned| && k < |s.memory.returned|
             && !StillReferenced(s.memory.returned[j]) && !StillReferenced(s.memory.returned[k])
    ensures var s := Run(Initial(count, others), events);
            && s.memory.returned[j].actor == s.memory.returned[k].actor
            && s.memory.returned[j].call == s.memory.returned[k].call
            && s.memory.returned[j].at == |s.memory.log| - 1
            && Sum(s.held) == 0
  {
    hide Run;
    var s0 := Initial(count, others);
    InitialInv(count, others);
    RunKeepsInv(s0, events);
    RunKeepsMemoryInv(count, s0, events);
    var s := Run(s0, events);
    assert A.ReturnOk(s.memory.log, s.memory.returned[j]);
    assert A.ReturnOk(s.memory.log, s.memory.returned[k]);
  }

  /** The step that makes the answer false is exactly the step that drops the last reference. */
  lemma FalseExactlyAtTheLastDrop(count: nat, others: nat, events: seq<Event>, i: nat)
    requires 0 < count < 0x8000_0000
    requires i <= others
    ensures var s := Run(Initial(count, others), events);
            var t := Next(s, Step(i));
            (Sum(s.held) > 0 && Sum(t.held) == 0)
            <==> |t.memory.log| > |s.memory.log| && t.memory.log[|t.memory.log| - 1].result == 0
  {
    hide Run, A.Next;
    var s0 := Initial(count, others);
    InitialInv(count, others);
    RunKeepsInv(s0, events);
    RunKeepsSize(s0, events);
    var s := Run(s0, events);
    StepKeepsInv(s, i);
    assert Covered(s.memory.actors[i].phase, s.held[i], s.inFlight[i]);
    StepShape(s.memory, i);
    SumAfterUpdate(s.held, i, 0);
  }

  lemma {:induction false} RunKeepsSize(s: State, events: seq<Event>)
    ensures |Run(s, events).held| == |s.held|
    decreases |events|
  {
    if events != [] {
      RunKeepsSize(Next(s, events[0]), events[1..]);
    }
  }

  /**
   AtomicRefCountIsOne: if the count reads one, an actor that holds a reference is alone: nobody
   else holds any, and nobody is adding one.
   */
  lemma OneMeansExclusive(count: nat, others: nat, events: seq<Event>, i: nat, j: nat)
    requires 0 < count < 0x8000_0000
    requires i <= others && j <= others && i != j
    requires var s := Run(Initial(count, others), events);
             IsOne(s) && i < |s.held| && s.held[i] > 0
    ensures var s := Run(Initial(count, others), events);
            && j < |s.held| && j < |s.memory.actors| && s.held[j] == 0
            && !A.UnderWay(s.memory.actors[j].phase)
  {
    hide Run;
    var s0 := Initial(count, others);
    InitialInv(count, others);
    RunKeepsInv(s0, events);
    RunKeepsSize(s0, events);
    var s := Run(s0, events);
    SumAtLeastTwo(s.held, i, j);
    assert Covered(s.memory.actors[j].phase, s.held[j], s.inFlight[j]);
  }
}
