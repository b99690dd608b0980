/**
 The reference count told by the states of a run: which references a call adds or drops, what
 AtomicRefCountDecN answers at the last of them, and what the two loads tell.
 */
module RefCountHistory {
  import A = AtomicOps
  import H = AtomicHistory
  import opened AtomicRefCount

  /** The state of the run before its event number `n`. */
  function At(count: nat, others: nat, events: seq<Event>, n: nat): State
    requires 0 < count < LIMIT && n <= |events|
  {
    Run(Initial(count, others), events[..n])
  }

  lemma {:induction false} RunOn(s: State, more: seq<Event>, e: Event)
    ensures Run(s, more + [e]) == Next(Run(s, more), e)
    decreases |more|
  {
    hide Next;
    if more == [] {
      assert [] + [e] == [e] && [e][1..] == [];
    } else {
      assert (more + [e])[0] == more[0] && (more + [e])[1..] == more[1..] + [e];
      RunOn(Next(s, more[0]), more[1..], e);
    }
  }

  lemma OneMore(count: nat, others: nat, events: seq<Event>, n: nat)
    requires 0 < count < LIMIT && n < |events|
    ensures At(count, others, events, n + 1) == Next(At(count, others, events, n), events[n])
  {
    hide Run;
    assert events[..n + 1] == events[..n] + [events[n]];
    RunOn(Initial(count, others), events[..n], events[n]);
  }

  lemma InvAt(count: nat, others: nat, events: seq<Event>, n: nat)
    requires 0 < count < LIMIT && n <= |events|
    ensures Inv(At(count, others, events, n))
  {
    hide Run;
    InitialInv(count, others);
    RunKeepsInv(Initial(count, others), events[..n]);
  }

  // ----- The count runs on the loops -----

  /** What the event does to the shared cell, if anything. */
  function MemoryEvent(s: State, e: Event): seq<A.Event> {
    if !Enabled(s, e) then []
    else
      match e
      case IncN(i, n) => [A.Begin(i, A.Increment(n))]
      case DecN(i, n) => [A.Begin(i, A.Increment(0 - n))]
      case Give(_, _, _) => []
      case Step(i) => [A.Step(i)]
      case Return(i) => [A.Return(i)]
  }

  /** Every run of the count is a run of the increment loops. */
  lemma {:induction false} MemoryRuns(count: nat, others: nat, events: seq<Event>, n: nat) returns (memory: seq<A.Event>)
    requires 0 < count < LIMIT && n <= |events|
    ensures At(count, others, events, n).memory == A.Run(A.Initial(count, others + 1), memory)
  {
    hide A.Next, A.Run;
    if n == 0 {
      memory := [];
      assert A.Run(A.Initial(count, others + 1), []) == A.Initial(count, others + 1) by {
        NoEvents(A.Initial(count, others + 1));
      }
    } else {
      var before := MemoryRuns(count, others, events, n - 1);
      OneMore(count, others, events, n - 1);
      var s := At(count, others, events, n - 1);
      memory := before + MemoryEvent(s, events[n - 1]);
      if |MemoryEvent(s, events[n - 1])| == 1 {
        H.RunOn(A.Initial(count, others + 1), before, MemoryEvent(s, events[n - 1])[0]);
      } else {
        assert before + [] == before;
      }
    }
  }

  lemma NoEvents(m: A.State)
    ensures A.Run(m, []) == m
  {
  }

  // ----- One event -----

  /** The event makes this log entry: the actor's references change by its amount, nobody else's do. */
  predicate Makes(s: State, e: Event, t: State, entry: A.Effect) {
    && e == Step(entry.actor) && entry.actor < |s.held| == |s.memory.actors|
    && A.UnderWay(s.memory.actors[entry.actor].phase) && s.memory.actors[entry.actor].phase.op == entry.op
    && t.memory.log == s.memory.log + [entry]
    && entry.op.Increment? && entry.op.delta != 0 && s.held[entry.actor] + entry.op.delta >= 0
    && t.held == s.held[entry.actor := s.held[entry.actor] + entry.op.delta]
    && entry.result == Sum(t.held)
  }

  lemma OneEvent(s: State, e: Event)
    requires Inv(s)
    ensures var t := Next(s, e);
            if |t.memory.log| == |s.memory.log| then t.memory.log == s.memory.log && (e.Give? || t.held == s.held)
            else t.memory.log != [] && Makes(s, e, t, t.memory.log[|t.memory.log| - 1])
  {
    hide Sum;
    if Enabled(s, e) && e.Step? {
      NextKeepsInv(s, e);
      assert Covered(s.memory.actors[e.actor].phase, s.held[e.actor], s.inFlight[e.actor]);
      StepShape(s.memory, e.actor);
      hide A.Next, A.Wrap;
    }
  }

  /** What is under way was begun as IncN or DecN with its amount. */
  predicate Begins(e: Event, i: nat, op: A.Op) {
    match e
    case IncN(j, n) => j == i && op == A.Increment(n)
    case DecN(j, n) => j == i && op == A.Increment(0 - n)
    case _ => false
  }

  lemma OneCall(s: State, e: Event, i: nat)
    requires i < |s.memory.actors| && i < |Next(s, e).memory.actors| && !Next(s, e).memory.actors[i].phase.Idle?
    ensures var was, now := s.memory.actors[i], Next(s, e).memory.actors[i];
            if was.phase.Idle? then Begins(e, i, now.phase.op) else now.phase.op == was.phase.op
  {
    if MemoryEvent(s, e) != [] {
      H.OneCall(s.memory, MemoryEvent(s, e)[0], i);
    }
    hide A.StepActor;
  }

  // ----- When it happened -----

  lemma Empty(count: nat, others: nat, events: seq<Event>)
    requires 0 < count < LIMIT
    ensures var s := At(count, others, events, 0);
            s.memory.log == [] && forall i :: 0 <= i < |s.memory.actors| ==> s.memory.actors[i].phase.Idle?
  {
    assert events[..0] == [];
  }

  /** The event that made an entry. */
  lemma {:induction false} MomentOf(count: nat, others: nat, events: seq<Event>, n: nat, p: nat) returns (m: nat)
    requires 0 < count < LIMIT && n <= |events| && p < |At(count, others, events, n).memory.log|
    ensures m < n && |At(count, others, events, m).memory.log| == p
    ensures Makes(At(count, others, events, m), events[m], At(count, others, events, m + 1),
                  At(count, others, events, n).memory.log[p])
    decreases n
  {
    hide At, Next, Inv, Sum;
    m := 0;
    if n == 0 {
      Empty(count, others, events);
    } else {
      OneMore(count, others, events, n - 1);
      InvAt(count, others, events, n - 1);
      OneEvent(At(count, others, events, n - 1), events[n - 1]);
      if p < |At(count, others, events, n - 1).memory.log| {
        m := MomentOf(count, others, events, n - 1, p);
      } else {
        m := n - 1;
      }
    }
  }

  lemma SizeAt(count: nat, others: nat, events: seq<Event>, n: nat)
    requires 0 < count < LIMIT && n <= |events|
    ensures |At(count, others, events, n).memory.actors| == |At(count, others, events, n).held| == others + 1
  {
    hide Run;
    InvAt(count, others, events, n);
    RunKeepsSize(Initial(count, others), events[..n]);
  }

  lemma {:induction false} BeginOf(count: nat, others: nat, events: seq<Event>, n: nat, i: nat) returns (begin: nat)
    requires 0 < count < LIMIT && n <= |events|
    requires i < |At(count, others, events, n).memory.actors|
    requires !At(count, others, events, n).memory.actors[i].phase.Idle?
    ensures begin < n && Begins(events[begin], i, At(count, others, events, n).memory.actors[i].phase.op)
    decreases n
  {
    hide At, Next, Inv;
    begin := 0;
    if n == 0 {
      Empty(count, others, events);
    } else {
      SizeAt(count, others, events, n - 1);
      SizeAt(count, others, events, n);
      OneMore(count, others, events, n - 1);
      OneCall(At(count, others, events, n - 1), events[n - 1], i);
      if At(count, others, events, n - 1).memory.actors[i].phase.Idle? {
        begin := n - 1;
      } else {
        begin := BeginOf(count, others, events, n - 1, i);
      }
    }
  }

  // ----- Sums -----

  lemma {:induction false} SumIsZero(xs: seq<nat>)
    ensures Sum(xs) == 0 <==> forall i :: 0 <= i < |xs| ==> xs[i] == 0
  {
    if xs != [] {
      SumIsZero(xs[1..]);
      assert forall i :: 0 < i < |xs| ==> xs[i] == xs[1..][i - 1];
    }
  }

  /** One reference, and this is where it is. */
  predicate OnlyAt(xs: seq<nat>, i: nat) {
    i < |xs| && xs[i] == 1 && forall j :: 0 <= j < |xs| && j != i ==> xs[j] == 0
  }

  lemma {:induction false} SumIsOne(xs: seq<nat>)
    ensures Sum(xs) == 1 <==> exists i: nat :: OnlyAt(xs, i)
  {
    if Sum(xs) == 1 {
      var i := FirstHeld(xs);
      SumAfterUpdate(xs, i, 0);
      SumIsZero(xs[i := 0]);
      assert forall j :: 0 <= j < |xs| && j != i ==> xs[j] == xs[i := 0][j];
      assert OnlyAt(xs, i);
    }
    if i: nat :| OnlyAt(xs, i) {
      SumAfterUpdate(xs, i, 0);
      SumIsZero(xs[i := 0]);
    }
  }

  lemma {:induction false} FirstHeld(xs: seq<nat>) returns (i: nat)
    requires Sum(xs) > 0
    ensures i < |xs| && xs[i] > 0
  {
    if xs[0] > 0 {
      i := 0;
    } else {
      i := FirstHeld(xs[1..]);
      i := i + 1;
    }
  }

  // ----- Main results -----

  /**
   Every call that returns was begun as IncN or DecN, and at one step of its actor it adds to, or
   drops from, that actor's references just what was asked for. It answers false if and only if
   that step leaves nobody with a reference.
   */
  lemma FalseIffNothingIsLeft(count: nat, others: nat, events: seq<Event>, k: nat) returns (begin: nat, m: nat)
    requires 0 < count < 0x8000_0000
    requires k < |Run(Initial(count, others), events).memory.returned|
    ensures var r := Run(Initial(count, others), events).memory.returned[k];
            && begin < m < |events| && events[m] == Step(r.actor) && r.op.Increment?
            && (match events[begin]
                case IncN(i, n) => i == r.actor && r.op.delta == n
                case DecN(i, n) => i == r.actor && r.op.delta == 0 - n
                case _ => false)
            && var before, after := At(count, others, events, m).held, At(count, others, events, m + 1).held;
               && r.actor < |before| && before[r.actor] + r.op.delta >= 0
               && after == before[r.actor := before[r.actor] + r.op.delta]
               && (!StillReferenced(r) <==> forall i :: 0 <= i < |after| ==> after[i] == 0)
  {
    hide At, Next, Inv, Run, Sum;
    WholeRun(count, others, events);
    var s := Run(Initial(count, others), events);
    var memory := MemoryRuns(count, others, events, |events|);
    A.LoopsAreLinearizable(count, others + 1, memory);
    hide A.Run;
    var r := s.memory.returned[k];
    assert A.ReturnOk(s.memory.log, r);
    m := MomentOf(count, others, events, |events|, r.at);
    begin := BeginOf(count, others, events, m, r.actor);
    SumIsZero(At(count, others, events, m + 1).held);
  }

  lemma WholeRun(count: nat, others: nat, events: seq<Event>)
    requires 0 < count < LIMIT
    ensures At(count, others, events, |events|) == Run(Initial(count, others), events)
  {
    assert events[..|events|] == events;
  }

  /** A call that came to zero: it has returned, or is about to. */
  predicate SaidZero(m: A.State) {
    || (exists k :: 0 <= k < |m.returned| && !StillReferenced(m.returned[k]))
    || exists i :: 0 <= i < |m.actors| && m.actors[i].phase.Done? && m.actors[i].phase.result == 0
  }

  /** The call behind an entry of the log has returned with its result, or is about to. */
  lemma EntryIsAnswered(count: nat, others: nat, events: seq<Event>, p: nat)
    requires 0 < count < LIMIT && p < |Run(Initial(count, others), events).memory.log|
    ensures var m := Run(Initial(count, others), events).memory;
            || (exists k :: 0 <= k < |m.returned| && m.returned[k].at == p && m.returned[k].result == m.log[p].result)
            || exists i :: 0 <= i < |m.actors| && m.actors[i].phase.Done? && m.actors[i].phase.result == m.log[p].result
  {
    hide Run, Next;
    WholeRun(count, others, events);
    var memory := MemoryRuns(count, others, events, |events|);
    hide At;
    var m := A.Run(A.Initial(count, others + 1), memory);
    A.RunKeepsInv(count, A.Initial(count, others + 1), memory);
    var e := m.log[p];
    assert A.EntryOk(m.actors, e);
    H.CallsAreAccountedFor(count, others + 1, memory, e.actor, e.call);
    hide A.Run, A.Legal, A.Replay;
    assert A.ActorOk(m.log, m.actors[e.actor], e.actor);
    if e.call < m.actors[e.actor].calls || m.actors[e.actor].phase.Idle? {
      var k :| 0 <= k < |m.returned| && m.returned[k].actor == e.actor && m.returned[k].call == e.call;
      assert A.ReturnOk(m.log, m.returned[k]);
      assert m.returned[k].at == p;
    } else {
      assert m.actors[e.actor].phase.at == p;
    }
  }

  /** Nobody holds a reference if and only if a call has come to zero, returned or not. */
  lemma DroppedIffSaidZero(count: nat, others: nat, events: seq<Event>)
    requires 0 < count < 0x8000_0000
    ensures var s := Run(Initial(count, others), events);
            (forall i :: 0 <= i < |s.held| ==> s.held[i] == 0) <==> SaidZero(s.memory)
  {
    hide Run, Next, Sum;
    WholeRun(count, others, events);
    InvAt(count, others, events, |events|);
    var memory := MemoryRuns(count, others, events, |events|);
    var s := Run(Initial(count, others), events);
    A.RunKeepsInv(count, A.Initial(count, others + 1), memory);
    SumIsZero(s.held);
    hide At;
    hide A.Run;
    if Sum(s.held) == 0 {
      hide Inv;
      assert s.memory.cell == A.Replay(count, s.memory.log) == 0;
      var p := |s.memory.log| - 1;
      var m := MomentOf(count, others, events, |events|, p);
      A.EntryOf(count, s.memory.log, p);
      assert s.memory.log[..p + 1] == s.memory.log;
      EntryIsAnswered(count, others, events, p);
    }
  }

  /** Once the call that dropped the last reference has returned, exactly one call has answered false. */
  lemma ExactlyOneFalse(count: nat, others: nat, events: seq<Event>) returns (k: nat)
    requires 0 < count < 0x8000_0000
    requires var s := Run(Initial(count, others), events);
             && (forall i :: 0 <= i < |s.held| ==> s.held[i] == 0)
             && (forall i :: 0 <= i < |s.memory.actors| && s.memory.actors[i].phase.Done? ==>
                   s.memory.actors[i].phase.result != 0)
    ensures var returned := Run(Initial(count, others), events).memory.returned;
            && k < |returned| && !StillReferenced(returned[k])
            && forall j :: 0 <= j < |returned| && j != k ==> StillReferenced(returned[j])
  {
    hide Run, Next;
    DroppedIffSaidZero(count, others, events);
    var m := Run(Initial(count, others), events).memory;
    k :| 0 <= k < |m.returned| && !StillReferenced(m.returned[k]);
    forall j | 0 <= j < |m.returned| && j != k ensures StillReferenced(m.returned[j]) {
      if !StillReferenced(m.returned[j]) {
        LastReleaseIsUnique(count, others, events, j, k);
        ReturnedOnce(count, others, events, j, k);
      }
    }
  }

  lemma ReturnedOnce(count: nat, others: nat, events: seq<Event>, j: nat, k: nat)
    requires 0 < count < LIMIT
    requires var m := Run(Initial(count, others), events).memory;
             j < |m.returned| && k < |m.returned| && j != k
    ensures var m := Run(Initial(count, others), events).memory;
            m.returned[j].actor != m.returned[k].actor || m.returned[j].call != m.returned[k].call
  {
    hide Run, Next;
    WholeRun(count, others, events);
    var memory := MemoryRuns(count, others, events, |events|);
    hide At, A.Run, A.Next;
    H.RunKeepsAccounts(A.Initial(count, others + 1), memory);
  }

  /** Two actors, the second in this phase of its first call; what it holds, and what has happened. */
  function Second(phase: A.Phase, cell: A.Word, held: nat, log: seq<A.Effect>, returned: seq<A.Returned>): State {
    State(A.State(cell, [A.Actor(0, 0, A.Idle), A.Actor(1, 0, phase)], log, returned), [0, held], [0, 0])
  }

  lemma HandedOn()
    ensures Next(Initial(1, 1), Give(0, 1, 1))
         == State(A.State(1, [A.Actor(0, 0, A.Idle), A.Actor(0, 0, A.Idle)], [], []), [0, 1], [0, 0])
  {
    var s := Initial(1, 1);
    assert s.held == [1, 0] && s.inFlight == [0, 0] && s.memory.actors == [A.Actor(0, 0, A.Idle), A.Actor(0, 0, A.Idle)];
    assert [1, 0][0 := 0][1 := 1] == [0, 1];
  }

  lemma DropBegins()
    ensures Next(State(A.State(1, [A.Actor(0, 0, A.Idle), A.Actor(0, 0, A.Idle)], [], []), [0, 1], [0, 0]), DecN(1, 1))
         == Second(A.Starting(A.Increment(-1)), 1, 1, [], [])
  {
  }

  lemma DropSteps()
    ensures Next(Second(A.Starting(A.Increment(-1)), 1, 1, [], []), Step(1))
         == Second(A.Loaded(A.Increment(-1), 1), 1, 1, [], [])
    ensures Next(Second(A.Loaded(A.Increment(-1), 1), 1, 1, [], []), Step(1))
         == Second(A.Done(A.Increment(-1), 0, 0), 0, 0, [A.Effect(1, 1, A.Increment(-1), 0)], [])
  {
    assert A.Wrap(1 + -1) == 0;
  }

  lemma DropReturns(log: seq<A.Effect>)
    requires |log| == 1
    ensures Next(Second(A.Done(A.Increment(-1), 0, 0), 0, 0, log, []), Return(1))
         == Second(A.Idle, 0, 0, log, [A.Returned(1, 1, A.Increment(-1), 0, 0, 0, 1)])
  {
  }

  /** A run: the only reference is handed on and dropped by the actor that got it, which is answered false. */
  lemma LastDropByAnother()
    ensures var s := Run(Initial(1, 1), [Give(0, 1, 1), DecN(1, 1), Step(1), Step(1), Return(1)]);
            && |s.memory.returned| == 1 && s.memory.returned[0].actor == 1 && !StillReferenced(s.memory.returned[0])
            && s.held == [0, 0]
  {
    hide Run, Next;
    HandedOn();
    DropBegins();
    DropSteps();
    var log := [A.Effect(1, 1, A.Increment(-1), 0)];
    DropReturns(log);
    FiveEvents(Initial(1, 1), [Give(0, 1, 1), DecN(1, 1), Step(1), Step(1), Return(1)],
               State(A.State(1, [A.Actor(0, 0, A.Idle), A.Actor(0, 0, A.Idle)], [], []), [0, 1], [0, 0]),
               Second(A.Starting(A.Increment(-1)), 1, 1, [], []), Second(A.Loaded(A.Increment(-1), 1), 1, 1, [], []),
               Second(A.Done(A.Increment(-1), 0, 0), 0, 0, log, []),
               Second(A.Idle, 0, 0, log, [A.Returned(1, 1, A.Increment(-1), 0, 0, 0, 1)]));
  }

  lemma FiveEvents(s0: State, events: seq<Event>, s1: State, s2: State, s3: State, s4: State, s5: State)
    requires |events| == 5 && s1 == Next(s0, events[0]) && s2 == Next(s1, events[1]) && s3 == Next(s2, events[2])
    requires s4 == Next(s3, events[3]) && s5 == Next(s4, events[4])
    ensures Run(s0, events) == s5
  {
    hide Next;
    assert events[1..][0] == events[1] && events[1..][1..] == events[2..];
    assert events[2..][0] == events[2] && events[2..][1..] == events[3..];
    assert events[3..][0] == events[3] && events[3..][1..] == events[4..];
    assert events[4..][0] == events[4] && events[4..][1..] == [];
    assert Run(s4, events[4..]) == s5;
    assert Run(s3, events[3..]) == s5;
    assert Run(s2, events[2..]) == s5;
    assert Run(s1, events[1..]) == s5;
  }

  /**
   The two loads: the count reads one exactly when one actor holds one reference and nobody else
   holds any, and it reads zero exactly when nobody holds any.
   */
  lemma LoadsTellTheTruth(count: nat, others: nat, events: seq<Event>)
    requires 0 < count < 0x8000_0000
    ensures var s := Run(Initial(count, others), events);
            && (IsOne(s) <==>
                exists i :: 0 <= i < |s.held| && s.held[i] == 1
                            && forall j :: 0 <= j < |s.held| && j != i ==> s.held[j] == 0)
            && (IsZero(s) <==> forall i :: 0 <= i < |s.held| ==> s.held[i] == 0)
  {
    hide Run;
    CountIsReferencesHeld(count, others, events);
    var s := Run(Initial(count, others), events);
    SumIsZero(s.held);
    SumIsOne(s.held);
    if i: nat :| OnlyAt(s.held, i) {
      assert s.held[i] == 1;
    }
    if i :| 0 <= i < |s.held| && s.held[i] == 1 && forall j :: 0 <= j < |s.held| && j != i ==> s.held[j] == 0 {
      assert OnlyAt(s.held, i);
    }
  }

  /** No reference is made or lost but by the calls: what is held is what there was at first, with what they changed. */
  lemma {:induction false} ReferencesAddUp(count: nat, others: nat, events: seq<Event>, n: nat)
    requires 0 < count < 0x8000_0000 && n <= |events|
    ensures var s := At(count, others, events, n);
            Sum(s.held) == count + A.Total(s.memory.log)
  {
    hide Run, Next, Inv, A.Total;
    if n == 0 {
      assert events[..0] == [];
      StartsWithCount(count, others);
    } else {
      ReferencesAddUp(count, others, events, n - 1);
      OneMore(count, others, events, n - 1);
      hide At;
      InvAt(count, others, events, n - 1);
      OneSum(At(count, others, events, n - 1), events[n - 1]);
    }
  }

  lemma StartsWithCount(count: nat, others: nat)
    requires 0 < count < LIMIT
    ensures var s := Run(Initial(count, others), []);
            Sum(s.held) == count && A.Total(s.memory.log) == 0
  {
    InitialInv(count, others);
  }

  lemma OneSum(s: State, e: Event)
    requires Inv(s)
    ensures Sum(Next(s, e).held) - A.Total(Next(s, e).memory.log) == Sum(s.held) - A.Total(s.memory.log)
  {
    hide Sum, A.Next;
    OneEvent(s, e);
    var t := Next(s, e);
    NextKeepsInv(s, e);
    if |t.memory.log| == |s.memory.log| {
      if Enabled(s, e) && e.Give? {
        assert t.memory == s.memory;
      }
    } else {
      var entry := t.memory.log[|t.memory.log| - 1];
      SumAfterUpdate(s.held, entry.actor, s.held[entry.actor] + entry.op.delta);
      assert t.memory.log[..|t.memory.log| - 1] == s.memory.log;
    }
  }
}
