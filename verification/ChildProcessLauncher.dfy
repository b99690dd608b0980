/**
 The handle of a child process in ServerPort/ipc_process/child_process_launcher.cc: who holds it,
 and what is reported about the process.
 */
module ChildProcessLauncher {
  import opened Wrappers

  type Handle = nat

  datatype Status = NormalTermination | AbnormalTermination | WasKilled | Crashed | StillRunning

  /** What base::GetTerminationStatus finds out; some of its branches leave the exit code alone. */
  datatype Reply = Reply(status: Status, exitCode: Option<int>)

  datatype Answer = Answer(status: Status, exitCode: int)

  /**
   The fields of the context, what was handed to the launcher thread for termination, and what was
   closed here.
   */
  datatype State = State(
    client: bool, handle: Option<Handle>, status: Status, exitCode: int, starting: bool, terminateOnShutdown: bool,
    dispatched: seq<Handle>, closed: seq<Handle>)

  const FRESH := State(false, None, NormalTermination, 0, true, true, [], [])

  function Terminated(s: State): State {
    if s.handle.None? || !s.terminateOnShutdown then s
    else s.(dispatched := s.dispatched + [s.handle.value], handle := None)
  }

  function Launched(s: State, handle: Option<Handle>, client: bool): State {
    var started := s.(client := client, starting := false, handle := handle);
    if client then started else Terminated(started)
  }

  function Queried(s: State, reply: Reply): State {
    if s.handle.None? then s
    else
      var known := s.(status := reply.status, exitCode := if reply.exitCode.Some? then reply.exitCode.value else s.exitCode);
      if reply.status.StillRunning? then known
      else known.(closed := known.closed + [s.handle.value], handle := None)
  }

  class Context {
    var client: bool
    var handle: Option<Handle>
    var status: Status
    var exitCode: int
    var starting: bool
    var terminateOnShutdown: bool
    var dispatched: seq<Handle>
    var closed: seq<Handle>

    function Value(): State
      reads this
    {
      State(client, handle, status, exitCode, starting, terminateOnShutdown, dispatched, closed)
    }

    constructor ()
      ensures Value() == FRESH
      ensures !client && handle.None? && status.NormalTermination? && exitCode == 0 && starting && terminateOnShutdown
      ensures dispatched == [] && closed == []
    {
      client, handle, status, exitCode, starting := false, None, NormalTermination, 0, true;
      terminateOnShutdown, dispatched, closed := true, [], [];
    }

    /** `launched` is what LaunchProcess() gave. Ends with the client's OnProcessLaunched() if `notify`. */
    method Launch(launched: Option<Handle>, hasClient: bool) returns (notify: bool)
      modifies this
      ensures Value() == Launched(old(Value()), launched, hasClient) && (notify <==> hasClient)
      ensures client == hasClient && !starting
      ensures if !hasClient && launched.Some? && old(terminateOnShutdown)
              then handle.None? && dispatched == old(dispatched) + [launched.value]
              else handle == launched && dispatched == old(dispatched)
      ensures unchanged(`status, `exitCode, `terminateOnShutdown, `closed)
    {
      client := hasClient;
      starting := false;
      handle := launched;
      if client {
        return true;
      }
      Terminate();
      return false;
    }

    method Terminate()
      modifies this
      ensures Value() == Terminated(old(Value()))
      ensures if old(handle).Some? && old(terminateOnShutdown)
              then handle.None? && dispatched == old(dispatched) + [old(handle).value]
              else unchanged(`handle, `dispatched)
      ensures unchanged(`client, `status, `exitCode, `starting, `terminateOnShutdown, `closed)
    {
      if handle.None? {
        return;
      }
      if !terminateOnShutdown {
        return;
      }
      dispatched := dispatched + [handle.value];
      handle := None;
    }

    /** ~ChildProcessLauncher() and, with it, ~Context(). */
    method Destroy()
      modifies this
      ensures Value() == Terminated(old(Value()).(client := false))
      ensures if old(handle).Some? && old(terminateOnShutdown)
              then handle.None? && dispatched == old(dispatched) + [old(handle).value]
              else unchanged(`handle, `dispatched)
      ensures !client && unchanged(`status, `exitCode, `starting, `terminateOnShutdown, `closed)
    {
      client := false;
      Terminate();
    }

    method SetTerminateChildOnShutdown(flag: bool)
      modifies this`terminateOnShutdown
      ensures terminateOnShutdown == flag
    {
      terminateOnShutdown := flag;
    }

    method GetChildTerminationStatus(reply: Reply) returns (answer: Answer)
      modifies this
      ensures Value() == Queried(old(Value()), reply)
      ensures answer == Answer(status, exitCode)
      ensures old(handle).Some? ==>
                && answer.status == reply.status
                && answer.exitCode == (match reply.exitCode case Some(code) => code case None => old(exitCode))
                && (if reply.status.StillRunning? then unchanged(`handle, `closed)
                    else handle.None? && closed == old(closed) + [old(handle).value])
      ensures old(handle).None? ==> unchanged(this)
      ensures unchanged(`client, `starting, `terminateOnShutdown, `dispatched)
    {
      if handle.None? {
        return Answer(status, exitCode);
      }
      status := reply.status;
      if reply.exitCode.Some? {
        exitCode := reply.exitCode.value;
      }
      answer := Answer(status, exitCode);
      if !status.StillRunning? {
        closed := closed + [handle.value];
        handle := None;
      }
    }
  }

  // ----- Runs -----

  datatype Event =
    | SetFlag(flag: bool)
    | Query(reply: Reply)
    | Destroy

  /** A launcher from its constructor on; it is not used after its end. */
  datatype Life = Life(state: State, alive: bool, answers: seq<Answer>)

  function Next(l: Life, e: Event): Life {
    if !l.alive then l
    else
      match e
      case SetFlag(flag) => l.(state := l.state.(terminateOnShutdown := flag))
      case Query(reply) =>
        var s := Queried(l.state, reply);
        l.(state := s, answers := l.answers + [Answer(s.status, s.exitCode)])
      case Destroy => l.(state := Terminated(l.state.(client := false)), alive := false)
  }

  function Born(launched: Option<Handle>, client: bool): Life {
    Life(Launched(FRESH, launched, client), true, [])
  }

  function After(l: Life, events: seq<Event>): Life
    decreases |events|
  {
    if events == [] then l else After(Next(l, events[0]), events[1..])
  }

  function Held(s: State): seq<Handle> {
    if s.handle.Some? then [s.handle.value] else []
  }

  function Only(launched: Option<Handle>): seq<Handle> {
    if launched.Some? then [launched.value] else []
  }

  /**
   The launched handle is in one place only: held, dispatched or closed. Once it is not held any
   more, or a final status has been given, every answer is the stored one.
   */
  ghost predicate Inv(l: Life, launched: Option<Handle>) {
    && l.state.dispatched + l.state.closed + Held(l.state) == Only(launched)
    && (forall i, j :: 0 <= i <= j < |l.answers| && !l.answers[i].status.StillRunning? ==> l.answers[j] == l.answers[i])
    && (forall i :: 0 <= i < |l.answers| && !l.answers[i].status.StillRunning? ==>
          l.state.handle.None? && l.answers[i] == Answer(l.state.status, l.state.exitCode))
  }

  lemma {:induction false} RunKeepsInv(l: Life, launched: Option<Handle>, events: seq<Event>)
    requires Inv(l, launched)
    ensures Inv(After(l, events), launched)
    decreases |events|
  {
    if events != [] {
      RunKeepsInv(Next(l, events[0]), launched, events[1..]);
    }
  }

  // ----- Main results -----

  /**
   In every run, the launched handle is dispatched for termination at most once and never both
   dispatched and closed; nothing else is ever dispatched or closed.
   */
  lemma HandleIsInOnePlace(launched: Option<Handle>, client: bool, events: seq<Event>)
    ensures var s := After(Born(launched, client), events).state;
            && |s.dispatched| + |s.closed| + |Held(s)| == |Only(launched)| <= 1
            && forall h :: h in s.dispatched || h in s.closed || h in Held(s) ==> launched == Some(h)
  {
    hide After;
    RunKeepsInv(Born(launched, client), launched, events);
    var s := After(Born(launched, client), events).state;
    forall h | h in s.dispatched || h in s.closed || h in Held(s) ensures h in Only(launched) {
      assert h in s.dispatched + s.closed + Held(s);
    }
  }

  /** A handle that is still held at the end is dispatched then, if and only if the flag says so. */
  lemma DispatchedAtTheEnd(launched: Option<Handle>, client: bool, events: seq<Event>)
    requires After(Born(launched, client), events).alive
    ensures var l := After(Born(launched, client), events);
            var s, end := l.state, Next(l, Destroy).state;
            && (end.dispatched != s.dispatched <==> s.handle.Some? && s.terminateOnShutdown)
            && (end.dispatched != s.dispatched ==> s.dispatched == [] && end.dispatched == Only(launched) && end.handle.None?)
            && end.closed == s.closed
            && (client && launched.Some? && events == [] ==> end.dispatched == [launched.value])
  {
    hide After;
    RunKeepsInv(Born(launched, client), launched, events);
    var l := After(Born(launched, client), events);
    if events == [] {
      assert After(Born(launched, client), []) == Born(launched, client) by {
        AfterNothing(Born(launched, client));
      }
    }
    assert |l.state.dispatched + l.state.closed + Held(l.state)| == |l.state.dispatched| + |l.state.closed| + |Held(l.state)|;
  }

  lemma AfterNothing(l: Life)
    ensures After(l, []) == l
  {
  }

  /** Once a status other than still-running was given, all later answers are the same. */
  lemma FinalStatusIsFinal(launched: Option<Handle>, client: bool, events: seq<Event>, i: nat, j: nat)
    requires i <= j < |After(Born(launched, client), events).answers|
    requires !After(Born(launched, client), events).answers[i].status.StillRunning?
    ensures After(Born(launched, client), events).answers[j] == After(Born(launched, client), events).answers[i]
  {
    hide After;
    RunKeepsInv(Born(launched, client), launched, events);
  }

  // ----- The answers of a run, told by the replies -----

  lemma {:induction false} AfterOn(l: Life, more: seq<Event>, e: Event)
    ensures After(l, more + [e]) == Next(After(l, more), e)
    decreases |more|
  {
    hide Next;
    if more == [] {
      assert [] + [e] == [e] && [e][1..] == [];
    } else {
      assert (more + [e])[0] == more[0] && (more + [e])[1..] == more[1..] + [e];
      AfterOn(Next(l, more[0]), more[1..], e);
    }
  }

  /** The exit code of the last reply that brought one, or zero. */
  function LastCode(events: seq<Event>): int
    decreases |events|
  {
    if events == [] then 0
    else
      match events[|events| - 1]
      case Query(Reply(_, Some(code))) => code
      case _ => LastCode(events[..|events| - 1])
  }

  /** What the flag was set to last; at first it is set. */
  function LastFlag(events: seq<Event>): bool
    decreases |events|
  {
    if events == [] then true
    else if events[|events| - 1].SetFlag? then events[|events| - 1].flag
    else LastFlag(events[..|events| - 1])
  }

  predicate NotDestroyed(events: seq<Event>) {
    forall k :: 0 <= k < |events| ==> !events[k].Destroy?
  }

  predicate AllRunning(events: seq<Event>) {
    forall k :: 0 <= k < |events| && events[k].Query? ==> events[k].reply.status.StillRunning?
  }

  function Queries(events: seq<Event>): nat
    decreases |events|
  {
    if events == [] then 0
    else Queries(events[..|events| - 1]) + if events[|events| - 1].Query? then 1 else 0
  }

  /** What the events make of a launcher that has not been destroyed. */
  ghost predicate Tells(l: Life, launched: Option<Handle>, client: bool, events: seq<Event>) {
    && l.alive && |l.answers| == Queries(events) && l.state.terminateOnShutdown == LastFlag(events)
    && l.state.dispatched == (if launched.Some? && !client then [launched.value] else [])
    && (if launched.None? || !client then
          && l.state.handle.None? && l.state.closed == []
          && l.state.status.NormalTermination? && l.state.exitCode == 0
        else if AllRunning(events) then
          l.state.handle == launched && l.state.closed == [] && l.state.exitCode == LastCode(events)
        else l.state.handle.None? && l.state.closed == [launched.value])
  }

  lemma OneMoreEvent(before: seq<Event>, e: Event)
    ensures AllRunning(before + [e]) <==> AllRunning(before) && (e.Query? ==> e.reply.status.StillRunning?)
    ensures LastFlag(before + [e]) == if e.SetFlag? then e.flag else LastFlag(before)
    ensures Queries(before + [e]) == Queries(before) + if e.Query? then 1 else 0
    ensures LastCode(before + [e]) ==
            if e.Query? && e.reply.exitCode.Some? then e.reply.exitCode.value else LastCode(before)
  {
    var events := before + [e];
    assert events[..|events| - 1] == before && events[|before|] == e;
    assert forall k :: 0 <= k < |before| ==> events[k] == before[k];
  }

  lemma TellsOn(l: Life, launched: Option<Handle>, client: bool, before: seq<Event>, e: Event)
    requires Tells(l, launched, client, before) && !e.Destroy?
    ensures Tells(Next(l, e), launched, client, before + [e])
  {
    hide AllRunning, LastFlag, Queries, LastCode;
    OneMoreEvent(before, e);
  }

  /** A launcher with a client holds its handle, and passes on what is reported, as long as the process runs. */
  lemma {:induction false} WhileRunning(launched: Option<Handle>, client: bool, events: seq<Event>)
    requires NotDestroyed(events)
    ensures Tells(After(Born(launched, client), events), launched, client, events)
    decreases |events|
  {
    if events == [] {
      AfterNothing(Born(launched, client));
    } else {
      hide After, Tells;
      var before, e := events[..|events| - 1], events[|events| - 1];
      assert forall k :: 0 <= k < |before| ==> before[k] == events[k];
      WhileRunning(launched, client, before);
      AfterOn(Born(launched, client), before, e);
      assert events == before + [e];
      TellsOn(After(Born(launched, client), before), launched, client, before, e);
    }
  }

  /**
   What a query is answered in any run, by what the system reports. While the launcher has the
   handle and no earlier reply was final, the answer is the reply itself, with the last exit code
   that was reported if this reply brings none. A launcher that never kept a handle answers normal
   termination and zero.
   */
  lemma AnswerIsTheReply(launched: Option<Handle>, client: bool, events: seq<Event>, reply: Reply)
    requires NotDestroyed(events)
    ensures var answers := After(Born(launched, client), events + [Query(reply)]).answers;
            && |answers| == Queries(events) + 1
            && (launched.None? || !client ==> answers[Queries(events)] == Answer(NormalTermination, 0))
            && (launched.Some? && client && AllRunning(events) ==>
                  && answers[Queries(events)].status == reply.status
                  && answers[Queries(events)].exitCode
                     == match reply.exitCode case Some(code) => code case None => LastCode(events))
  {
    hide After;
    WhileRunning(launched, client, events);
    AfterOn(Born(launched, client), events, Query(reply));
  }

  /** Every answer from the first final reply on is exactly that reply, whatever would be reported later. */
  lemma FirstFinalReplyIsKept(handle: Handle, events: seq<Event>, final: Reply, more: seq<Event>, k: nat)
    requires NotDestroyed(events) && AllRunning(events) && !final.status.StillRunning?
    requires Queries(events) <= k < |After(Born(Some(handle), true), events + [Query(final)] + more).answers|
    ensures After(Born(Some(handle), true), events + [Query(final)] + more).answers[k]
         == Answer(final.status, match final.exitCode case Some(code) => code case None => LastCode(events))
  {
    hide After;
    var l, first := Born(Some(handle), true), events + [Query(final)];
    AnswerIsTheReply(Some(handle), true, events, final);
    AnswersOnlyGrow(l, first, more);
    FinalStatusIsFinal(Some(handle), true, first + more, Queries(events), k);
  }

  /**
   What becomes of the process, told by the events: without a client it is terminated at once, and
   with one when the launcher goes, if no final status has been reported by then and the flag was
   last set; its handle is closed here exactly if a final status was reported to a client's launcher.
   */
  lemma DispatchedIff(launched: Option<Handle>, client: bool, events: seq<Event>)
    requires NotDestroyed(events)
    ensures var end := After(Born(launched, client), events + [Destroy]);
            && !end.alive
            && end.state.dispatched ==
               (if launched.Some? && (!client || (AllRunning(events) && LastFlag(events))) then [launched.value] else [])
            && end.state.closed == (if launched.Some? && client && !AllRunning(events) then [launched.value] else [])
  {
    hide After, AllRunning;
    WhileRunning(launched, client, events);
    AfterOn(Born(launched, client), events, Destroy);
  }

  lemma {:induction false} AnswersOnlyGrow(l: Life, before: seq<Event>, more: seq<Event>)
    ensures After(l, before).answers <= After(l, before + more).answers
    decreases |more|
  {
    hide After;
    if more == [] {
      assert before + [] == before;
    } else {
      var init, e := more[..|more| - 1], more[|more| - 1];
      AnswersOnlyGrow(l, before, init);
      assert before + more == (before + init) + [e];
      AfterOn(l, before + init, e);
    }
  }
}
