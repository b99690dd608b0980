/**
 The loops of AtomicOps told by the states of a run themselves, without the log and its sequential
 meaning: when a call was made, the one step at which it changed the cell, and what it answers.
 */
module AtomicHistory {
  import opened AtomicOps

  /** The state of the run before its event number `n`. */
  function At(cell: Word, actors: nat, events: seq<Event>, n: nat): State
    requires n <= |events|
  {
    Run(Initial(cell, actors), events[..n])
  }

  lemma {:induction false} RunOn(s: State, more: seq<Event>, e: Event)
    ensures Run(s, more + [e]) == Next(Run(s, more), e)
    decreases |more|
  {
    hide Next;
    if more == [] {
      assert [] + [e] == [e] && [e][1..] == [];
    } else {
      assert (more + [e])[0] == more[0] && (more + [e])[1..] == more[1..] + [e];
      RunOn(Next(s, more[0]), more[1..], e);
    }
  }

  lemma OneMore(cell: Word, actors: nat, events: seq<Event>, n: nat)
    requires n < |events|
    ensures At(cell, actors, events, n + 1) == Next(At(cell, actors, events, n), events[n])
    ensures Inv(cell, At(cell, actors, events, n))
  {
    hide Run, Inv;
    assert events[..n + 1] == events[..n] + [events[n]];
    RunOn(Initial(cell, actors), events[..n], events[n]);
    InitialInv(cell, actors);
    RunKeepsInv(cell, Initial(cell, actors), events[..n]);
  }

  lemma InitialInv(cell: Word, actors: nat)
    ensures Inv(cell, Initial(cell, actors))
  {
  }

  // ----- One event -----

  /** What the operation is documented to do: the cell before and after it, and its answer. */
  predicate Does(op: Op, before: Word, after: Word, result: Word) {
    match op
    case Increment(delta) => after == result == (before + delta) % 0x1_0000_0000
    case Exchange(value) => after == value && result == before
    case CompareAndSwap(expected, replacement) =>
      result == before && after == if before == expected then replacement else before
  }

  /** The event makes this log entry: it is a step of the entry's actor, in a call of its operation. */
  predicate Makes(s: State, e: Event, t: State, entry: Effect) {
    && e == Step(entry.actor) && entry.actor < |s.actors|
    && UnderWay(s.actors[entry.actor].phase) && s.actors[entry.actor].phase.op == entry.op
    && t.log == s.log + [entry] && Does(entry.op, s.cell, t.cell, entry.result)
  }

  lemma OneEvent(cell: Word, s: State, e: Event)
    requires Inv(cell, s)
    ensures var t := Next(s, e);
            if |t.log| == |s.log| then t.log == s.log && t.cell == s.cell
            else t.log != [] && Makes(s, e, t, t.log[|t.log| - 1])
  {
    hide Linearized;
    if e.actor < |s.actors| {
      PhaseOk(cell, s, e.actor);
    }
  }

  lemma OneReturn(s: State, e: Event)
    ensures var t := Next(s, e);
            if |t.returned| == |s.returned| then t.returned == s.returned
            else
              && e.Return? && e.actor < |s.actors| && s.actors[e.actor].phase.Done?
              && var a := s.actors[e.actor];
                 t.returned == s.returned
                   + [Returned(e.actor, a.calls, a.phase.op, a.phase.result, a.start, a.phase.at, |s.log|)]
  {
  }

  /** A call in progress was begun by this event, or it was in progress before it, as the same call. */
  lemma OneCall(s: State, e: Event, i: nat)
    requires i < |s.actors| && !Next(s, e).actors[i].phase.Idle?
    ensures var was, now := s.actors[i], Next(s, e).actors[i];
            now.calls == was.calls + (if was.phase.Idle? then 1 else 0)
            && if was.phase.Idle? then e == Begin(i, now.phase.op) && now.start == |s.log|
               else now.phase.op == was.phase.op && now.start == was.start
  {
  }

  // ----- When it happened -----

  /** Nothing that was logged or returned is ever taken back. */
  lemma {:induction false} LogsOnlyGrow(cell: Word, actors: nat, events: seq<Event>, m: nat, n: nat)
    requires m <= n <= |events|
    ensures At(cell, actors, events, m).log <= At(cell, actors, events, n).log
    ensures At(cell, actors, events, m).returned <= At(cell, actors, events, n).returned
    decreases n
  {
    hide At, Next, Inv, Makes;
    if m < n {
      LogsOnlyGrow(cell, actors, events, m, n - 1);
      OneMore(cell, actors, events, n - 1);
      Grows(cell, At(cell, actors, events, n - 1), events[n - 1]);
    }
  }

  lemma Grows(cell: Word, s: State, e: Event)
    requires Inv(cell, s)
    ensures s.log <= Next(s, e).log && s.returned <= Next(s, e).returned
  {
    hide Inv, Next, Does;
    OneEvent(cell, s, e);
    OneReturn(s, e);
  }

  lemma Empty(cell: Word, actors: nat, events: seq<Event>)
    ensures var s := At(cell, actors, events, 0);
            s.log == [] && s.returned == [] && forall i :: 0 <= i < |s.actors| ==> s.actors[i].phase.Idle?
  {
    assert events[..0] == [];
  }

  lemma {:induction false} SizeStays(cell: Word, actors: nat, events: seq<Event>, n: nat)
    requires n <= |events|
    ensures |At(cell, actors, events, n).actors| == actors
  {
    if n == 0 {
      assert events[..0] == [];
    } else {
      SizeStays(cell, actors, events, n - 1);
      OneMore(cell, actors, events, n - 1);
    }
  }

  /** The event that made an entry. */
  lemma {:induction false} MomentOf(cell: Word, actors: nat, events: seq<Event>, n: nat, p: nat) returns (m: nat)
    requires n <= |events| && p < |At(cell, actors, events, n).log|
    ensures m < n && |At(cell, actors, events, m).log| == p
    ensures Makes(At(cell, actors, events, m), events[m], At(cell, actors, events, m + 1),
                  At(cell, actors, events, n).log[p])
    decreases n
  {
    hide At, Next, Inv, Does;
    m := 0;
    if n == 0 {
      Empty(cell, actors, events);
    } else {
      OneMore(cell, actors, events, n - 1);
      OneEvent(cell, At(cell, actors, events, n - 1), events[n - 1]);
      LogsOnlyGrow(cell, actors, events, n - 1, n);
      if p < |At(cell, actors, events, n - 1).log| {
        m := MomentOf(cell, actors, events, n - 1, p);
      } else {
        m := n - 1;
      }
    }
  }

  /** The event with which a call returned. */
  lemma {:induction false} ReturnOf(cell: Word, actors: nat, events: seq<Event>, n: nat, k: nat) returns (end: nat)
    requires n <= |events| && k < |At(cell, actors, events, n).returned|
    ensures end < n
    ensures var r, s := At(cell, actors, events, n).returned[k], At(cell, actors, events, end);
            && events[end] == Return(r.actor) && r.actor < |s.actors| && r.end == |s.log|
            && var a := s.actors[r.actor];
               a.phase == Done(r.op, r.result, r.at) && a.calls == r.call && a.start == r.start
    decreases n
  {
    hide At, Next, Inv;
    end := 0;
    if n == 0 {
      Empty(cell, actors, events);
    } else {
      OneMore(cell, actors, events, n - 1);
      OneReturn(At(cell, actors, events, n - 1), events[n - 1]);
      if k < |At(cell, actors, events, n - 1).returned| {
        end := ReturnOf(cell, actors, events, n - 1, k);
      } else {
        end := n - 1;
      }
    }
  }

  /** The event that began the call that is in progress. */
  lemma {:induction false} BeginOf(cell: Word, actors: nat, events: seq<Event>, n: nat, i: nat) returns (begin: nat)
    requires n <= |events| && i < actors
    requires i < |At(cell, actors, events, n).actors| && !At(cell, actors, events, n).actors[i].phase.Idle?
    ensures begin < n && events[begin] == Begin(i, At(cell, actors, events, n).actors[i].phase.op)
    ensures At(cell, actors, events, n).actors[i].start == |At(cell, actors, events, begin).log|
    decreases n
  {
    hide At, Next, Inv;
    begin := 0;
    if n == 0 {
      Empty(cell, actors, events);
    } else {
      SizeStays(cell, actors, events, n - 1);
      OneMore(cell, actors, events, n - 1);
      OneCall(At(cell, actors, events, n - 1), events[n - 1], i);
      if At(cell, actors, events, n - 1).actors[i].phase.Idle? {
        begin := n - 1;
      } else {
        begin := BeginOf(cell, actors, events, n - 1, i);
      }
    }
  }

  // ----- Main results -----

  /**
   Every call that returns was made by a Begin with its operation, ends with a Return, and in
   between, at one step of its own actor, does to the cell at once what its operation is documented
   to do and answers accordingly.
   */
  lemma CallsAreAtomic(cell: Word, actors: nat, events: seq<Event>, k: nat) returns (begin: nat, m: nat, end: nat)
    requires k < |Run(Initial(cell, actors), events).returned|
    ensures var r := Run(Initial(cell, actors), events).returned[k];
            && begin < m < end < |events|
            && events[begin] == Begin(r.actor, r.op) && events[m] == Step(r.actor) && events[end] == Return(r.actor)
            && var before, after := At(cell, actors, events, m).cell, At(cell, actors, events, m + 1).cell;
               match r.op
               case Increment(delta) => after == r.result == (before + delta) % 0x1_0000_0000
               case Exchange(value) => after == value && r.result == before
               case CompareAndSwap(expected, replacement) =>
                 r.result == before && after == if before == expected then replacement else before
  {
    hide At, Next, Inv, Run;
    assert At(cell, actors, events, |events|) == Run(Initial(cell, actors), events) by {
      WholeRun(cell, actors, events);
    }
    LoopsAreLinearizable(cell, actors, events);
    var s := Run(Initial(cell, actors), events);
    var r := s.returned[k];
    assert ReturnOk(s.log, r);
    m := MomentOf(cell, actors, events, |events|, r.at);
    end := ReturnOf(cell, actors, events, |events|, k);
    SizeStays(cell, actors, events, end);
    begin := BeginOf(cell, actors, events, end, r.actor);
    InOrder(cell, actors, events, begin, m, end, r);
  }

  lemma WholeRun(cell: Word, actors: nat, events: seq<Event>)
    ensures At(cell, actors, events, |events|) == Run(Initial(cell, actors), events)
  {
    assert events[..|events|] == events;
  }

  lemma InOrder(cell: Word, actors: nat, events: seq<Event>, begin: nat, m: nat, end: nat, r: Returned)
    requires begin < |events| && m < |events| && end < |events| && r.start <= r.at < r.end
    requires r.start == |At(cell, actors, events, begin).log| && r.at == |At(cell, actors, events, m).log|
    requires r.end == |At(cell, actors, events, end).log| && |At(cell, actors, events, m + 1).log| == r.at + 1
    requires events[begin].Begin? && events[m].Step?
    ensures begin < m < end
  {
    hide At;
    if m < begin {
      LogsOnlyGrow(cell, actors, events, m + 1, begin);
    }
    if end <= m {
      LogsOnlyGrow(cell, actors, events, end, m);
    }
  }

  /** And nothing else changes the cell: an event that changes it is a step of a call that takes effect with it. */
  lemma OnlyCallsChangeTheCell(cell: Word, actors: nat, events: seq<Event>, n: nat)
    requires n < |events|
    requires At(cell, actors, events, n).cell != At(cell, actors, events, n + 1).cell
    ensures var s, t := At(cell, actors, events, n), At(cell, actors, events, n + 1);
            && events[n].Step? && events[n].actor < |s.actors| == |t.actors|
            && UnderWay(s.actors[events[n].actor].phase)
            && t.actors[events[n].actor].phase.Done?
            && t.actors[events[n].actor].phase.op == s.actors[events[n].actor].phase.op
  {
    OneMore(cell, actors, events, n);
    var s := At(cell, actors, events, n);
    OneEvent(cell, s, events[n]);
    SizeStays(cell, actors, events, n);
    SizeStays(cell, actors, events, n + 1);
  }

  /** The replayed log is the history of the cell: after every event it gives the value that stood there. */
  lemma ReplayIsTheCellThen(cell: Word, actors: nat, events: seq<Event>, n: nat)
    requires n <= |events|
    ensures var past, end := At(cell, actors, events, n), Run(Initial(cell, actors), events);
            past.log <= end.log && past.cell == Replay(cell, end.log[..|past.log|])
  {
    hide At, Run, Next, Inv, Replay;
    WholeRun(cell, actors, events);
    LogsOnlyGrow(cell, actors, events, n, |events|);
    AtIsReplayed(cell, actors, events, n);
    var past, end := At(cell, actors, events, n), Run(Initial(cell, actors), events);
    assert end.log[..|past.log|] == past.log;
  }

  lemma AtIsReplayed(cell: Word, actors: nat, events: seq<Event>, n: nat)
    requires n <= |events|
    ensures At(cell, actors, events, n).cell == Replay(cell, At(cell, actors, events, n).log)
  {
    hide Run;
    LoopsAreLinearizable(cell, actors, events[..n]);
  }

  /** NoBarrier_AtomicExchange leaves its value in the cell and answers with what it took out. */
  lemma ExchangeAnswersTheOldValue(cell: Word, actors: nat, events: seq<Event>, k: nat)
    requires var s := Run(Initial(cell, actors), events);
             k < |s.returned| && s.returned[k].op.Exchange?
    ensures var s := Run(Initial(cell, actors), events);
            var r := s.returned[k];
            && r.start <= r.at < r.end <= |s.log|
            && r.result == Replay(cell, s.log[..r.at])
            && Replay(cell, s.log[..r.at + 1]) == r.op.value
  {
    hide Run, OneEntryPerCall, Legal, Replay;
    LoopsAreLinearizable(cell, actors, events);
    var s := Run(Initial(cell, actors), events);
    assert ReturnOk(s.log, s.returned[k]);
    EntryOf(cell, s.log, s.returned[k].at);
  }

  /** NoBarrier_AtomicIncrement answers with the value that it leaves in the cell. */
  lemma IncrementAnswersTheNewValue(cell: Word, actors: nat, events: seq<Event>, k: nat)
    requires var s := Run(Initial(cell, actors), events);
             k < |s.returned| && s.returned[k].op.Increment?
    ensures var s := Run(Initial(cell, actors), events);
            var r := s.returned[k];
            && r.start <= r.at < r.end <= |s.log|
            && r.result == (Replay(cell, s.log[..r.at]) + r.op.delta) % 0x1_0000_0000
            && Replay(cell, s.log[..r.at + 1]) == r.result
  {
    hide Run, OneEntryPerCall, Legal, Replay;
    LoopsAreLinearizable(cell, actors, events);
    var s := Run(Initial(cell, actors), events);
    assert ReturnOk(s.log, s.returned[k]);
    EntryOf(cell, s.log, s.returned[k].at);
  }

  // ----- Exchanges hand values on -----

  ghost predicate OnlyExchanges(log: seq<Effect>) {
    forall p :: 0 <= p < |log| ==> log[p].op.Exchange?
  }

  /** The value that the exchange before this one left behind, or the one the cell had at first. */
  function LeftBefore(cell: Word, log: seq<Effect>, p: nat): Word
    requires p <= |log| && OnlyExchanges(log)
  {
    if p == 0 then cell else log[p - 1].op.value
  }

  lemma ExchangesHandOver(cell: Word, log: seq<Effect>, p: nat)
    requires Legal(cell, log) && OnlyExchanges(log) && p < |log|
    ensures log[p].result == LeftBefore(cell, log, p)
  {
    assert p > 0 ==> Replay(cell, log[..p]) == log[p - 1].op.value;
  }

  lemma LastExchangeStays(cell: Word, log: seq<Effect>)
    requires OnlyExchanges(log)
    ensures Replay(cell, log) == LeftBefore(cell, log, |log|)
  {
  }

  /**
   When only exchanges run, each of them answers with the value that the one before it stored, the
   first one with the initial value, and the cell has the value that the last one stored.
   */
  lemma ExchangesTakeTurns(cell: Word, actors: nat, events: seq<Event>)
    requires OnlyExchanges(Run(Initial(cell, actors), events).log)
    ensures var s := Run(Initial(cell, actors), events);
            && s.cell == (if s.log == [] then cell else s.log[|s.log| - 1].op.value)
            && (s.log != [] ==> s.log[0].result == cell)
            && (forall p, q :: 0 <= p < q < |s.log| && q == p + 1 ==> s.log[q].result == s.log[p].op.value)
            && forall k :: 0 <= k < |s.returned| ==>
                 var r := s.returned[k];
                 && r.at < |s.log| && s.log[r.at].op == r.op
                 && r.result == if r.at == 0 then cell else s.log[r.at - 1].op.value
  {
    hide Run, Replay, Legal, OneEntryPerCall;
    LoopsAreLinearizable(cell, actors, events);
    var s := Run(Initial(cell, actors), events);
    LastExchangeStays(cell, s.log);
    if s.log != [] {
      ExchangesHandOver(cell, s.log, 0);
    }
    forall p, q | 0 <= p < q < |s.log| && q == p + 1 ensures s.log[q].result == s.log[p].op.value {
      ExchangesHandOver(cell, s.log, q);
    }
    forall k | 0 <= k < |s.returned|
      ensures ReturnOk(s.log, s.returned[k]) && s.returned[k].result == LeftBefore(cell, s.log, s.returned[k].at)
    {
      assert ReturnOk(s.log, s.returned[k]);
      ExchangesHandOver(cell, s.log, s.returned[k].at);
    }
  }

  function Values(log: seq<Effect>): (values: seq<Word>)
    requires OnlyExchanges(log)
    ensures |values| == |log| && forall p :: 0 <= p < |log| ==> values[p] == log[p].op.value
  {
    seq(|log|, p requires 0 <= p < |log| => log[p].op.value)
  }

  function Results(log: seq<Effect>): (results: seq<Word>)
    ensures |results| == |log| && forall p :: 0 <= p < |log| ==> results[p] == log[p].result
  {
    seq(|log|, p requires 0 <= p < |log| => log[p].result)
  }

  /** No value is lost and none is handed out twice: what went in and what was there is what came out and what is there. */
  lemma ExchangesLoseNothing(cell: Word, actors: nat, events: seq<Event>)
    requires OnlyExchanges(Run(Initial(cell, actors), events).log)
    ensures var s := Run(Initial(cell, actors), events);
            multiset(Values(s.log)) + multiset{cell} == multiset(Results(s.log)) + multiset{s.cell}
  {
    ExchangesTakeTurns(cell, actors, events);
    hide Run;
    var s := Run(Initial(cell, actors), events);
    var all := [cell] + Values(s.log);
    forall q | 0 <= q < |all| ensures all[q] == (Results(s.log) + [s.cell])[q] {
      assert q > 0 ==> all[q] == s.log[q - 1].op.value;
    }
    assert all == Results(s.log) + [s.cell];
    assert multiset([cell] + Values(s.log)) == multiset(Values(s.log)) + multiset{cell};
    assert multiset(Results(s.log) + [s.cell]) == multiset(Results(s.log)) + multiset{s.cell};
  }

  // ----- Every call is accounted for -----

  predicate Recorded(returned: seq<Returned>, i: nat, call: nat) {
    exists k :: 0 <= k < |returned| && returned[k].actor == i && returned[k].call == call
  }

  /** This call of the actor has been made and is not the one it is in. */
  predicate IsOver(a: Actor, call: nat) {
    0 < call <= a.calls && (call < a.calls || a.phase.Idle?)
  }

  predicate IsOverBy(s: State, r: Returned) {
    && r.actor < |s.actors| && r.call <= s.actors[r.actor].calls
    && (!s.actors[r.actor].phase.Idle? ==> r.call < s.actors[r.actor].calls)
  }

  ghost predicate Accounted(s: State) {
    && (forall i, call: nat | 0 <= i < |s.actors| && IsOver(s.actors[i], call) :: Recorded(s.returned, i, call))
    && (forall k :: 0 <= k < |s.returned| ==> IsOverBy(s, s.returned[k]))
    && (forall j, k :: 0 <= j < k < |s.returned| && s.returned[j].actor == s.returned[k].actor ==>
          s.returned[j].call != s.returned[k].call)
  }

  /** One actor before and after an event: a call that ends is added to what has returned. */
  predicate OneStep(was: Actor, now: Actor, i: nat, returned: seq<Returned>, more: seq<Returned>) {
    && returned <= more
    && (was.phase.Idle? ==>
          (now.calls == was.calls && now.phase.Idle?) || (now.calls == was.calls + 1 && !now.phase.Idle?))
    && (!was.phase.Idle? ==>
          && now.calls == was.calls
          && (now.phase.Idle? ==>
                |more| == |returned| + 1 && more[|returned|].actor == i && more[|returned|].call == was.calls))
  }

  lemma StillRecorded(s: State, t: State, i: nat, call: nat)
    requires Accounted(s) && i < |s.actors| == |t.actors| && IsOver(t.actors[i], call)
    requires OneStep(s.actors[i], t.actors[i], i, s.returned, t.returned)
    ensures Recorded(t.returned, i, call)
  {
    if IsOver(s.actors[i], call) {
      assert Recorded(s.returned, i, call);
      var k :| 0 <= k < |s.returned| && s.returned[k].actor == i && s.returned[k].call == call;
      assert t.returned[k] == s.returned[k];
    } else {
      assert t.returned[|s.returned|].actor == i;
    }
  }

  lemma NextKeepsAccounts(s: State, e: Event)
    requires Accounted(s)
    ensures Accounted(Next(s, e))
  {
    OneReturn(s, e);
    var t := Next(s, e);
    assert |t.actors| == |s.actors|;
    forall i | 0 <= i < |s.actors| ensures OneStep(s.actors[i], t.actors[i], i, s.returned, t.returned) {
    }
    hide Next, Recorded, IsOver;
    forall i, call: nat | 0 <= i < |t.actors| && IsOver(t.actors[i], call) ensures Recorded(t.returned, i, call) {
      StillRecorded(s, t, i, call);
    }
    forall k | 0 <= k < |t.returned| ensures IsOverBy(t, t.returned[k]) {
      assert k < |s.returned| ==> IsOverBy(s, s.returned[k]);
    }
  }

  lemma {:induction false} RunKeepsAccounts(s: State, events: seq<Event>)
    requires Accounted(s)
    ensures Accounted(Run(s, events))
    decreases |events|
  {
    hide Accounted, Next;
    if events != [] {
      NextKeepsAccounts(s, events[0]);
      RunKeepsAccounts(Next(s, events[0]), events[1..]);
    }
  }

  /** Every call that was begun has returned, exactly once, unless it is the one its actor is in. */
  lemma CallsAreAccountedFor(cell: Word, actors: nat, events: seq<Event>, i: nat, call: nat)
    requires var s := Run(Initial(cell, actors), events);
             i < |s.actors| && 0 < call <= s.actors[i].calls
    ensures var s := Run(Initial(cell, actors), events);
            && ((exists k :: 0 <= k < |s.returned| && s.returned[k].actor == i && s.returned[k].call == call)
                <==> call < s.actors[i].calls || s.actors[i].phase.Idle?)
            && forall j, k | 0 <= j < k < |s.returned| ::
                 s.returned[j].actor != s.returned[k].actor || s.returned[j].call != s.returned[k].call
  {
    hide Run;
    RunKeepsAccounts(Initial(cell, actors), events);
    var s := Run(Initial(cell, actors), events);
    assert IsOver(s.actors[i], call) ==> Recorded(s.returned, i, call);
  }

  /** An actor that is left alone gets its call through in two steps, in any state of any run. */
  lemma AloneItReturns(cell: Word, actors: nat, events: seq<Event>, i: nat, op: Op)
    requires var s := Run(Initial(cell, actors), events);
             i < |s.actors| && s.actors[i].phase.Idle?
    ensures var s := Run(Initial(cell, actors), events);
            var t := Run(s, [Begin(i, op), Step(i), Step(i), Return(i)]);
            && t.actors == s.actors[i := Actor(s.actors[i].calls + 1, |s.log|, Idle)]
            && |t.returned| == |s.returned| + 1
            && var r := t.returned[|s.returned|];
               r.actor == i && r.op == op && r.call == s.actors[i].calls + 1 && Does(op, s.cell, t.cell, r.result)
  {
    hide Run;
    var s := Run(Initial(cell, actors), events);
    var a := Next(s, Begin(i, op));
    var b := Next(a, Step(i));
    var c := Next(b, Step(i));
    var d := Next(c, Return(i));
    assert a.actors[i].phase == Starting(op) && a.cell == s.cell;
    assert c.actors[i].phase.Done? && Does(op, s.cell, c.cell, c.actors[i].phase.result);
    assert d.actors == s.actors[i := Actor(s.actors[i].calls + 1, |s.log|, Idle)];
    FourEvents(s, [Begin(i, op), Step(i), Step(i), Return(i)], a, b, c, d);
  }

  lemma FourEvents(s: State, events: seq<Event>, a: State, b: State, c: State, d: State)
    requires |events| == 4 && a == Next(s, events[0]) && b == Next(a, events[1])
    requires c == Next(b, events[2]) && d == Next(c, events[3])
    ensures Run(s, events) == d
  {
    hide Next;
    assert events[1..][0] == events[1] && events[1..][1..] == events[2..];
    assert events[2..][0] == events[2] && events[2..][1..] == events[3..];
    assert events[3..][0] == events[3] && events[3..][1..] == [];
    assert Run(c, events[3..]) == d;
    assert Run(b, events[2..]) == d;
    assert Run(a, events[1..]) == d;
  }
}
