/**
 Messages of the host until its child process runs: Send, LaunchClientProc and OnProcessLaunched
 of ServerPort/ServerPort/ServerPortDlg.cpp.
 */
module HostQueue {
  import opened Wrappers
  import L = ChildProcessLauncher

  type Message = nat

  /** `sent` is what was handed to the channel. */
  datatype State = State(channel: bool, launcher: Option<L.State>, initialized: bool, queued: seq<Message>, sent: seq<Message>)

  const FRESH := State(false, None, false, [], [])

  predicate StateOk(s: State) {
    (s.initialized ==> s.channel) && (s.launcher.Some? ==> s.channel) && (s.channel ==> s.queued == [])
  }

  datatype Sent = Sent(state: State, ok: bool)

  function SendIt(s: State, msg: Message): Sent {
    if s.channel then Sent(s.(sent := s.sent + [msg]), true)
    else if s.initialized then Sent(s, false)
    else Sent(s.(queued := s.queued + [msg]), true)
  }

  /** One turn of the loop that sends the queue: the front is sent, then popped. */
  function FlushTurn(s: State): State
    requires s.queued != []
  {
    var after := SendIt(s, s.queued[0]).state;
    after.(queued := after.queued[1..])
  }

  /** Without the channel the loop would put back what it takes out, for ever. */
  lemma FlushMakesProgressIff(s: State)
    requires s.queued != []
    ensures |FlushTurn(s).queued| < |s.queued| <==> s.channel || s.initialized
    ensures s.channel ==> FlushTurn(s).sent + FlushTurn(s).queued == s.sent + s.queued
  {
    assert s.queued == [s.queued[0]] + s.queued[1..];
    assert (s.sent + [s.queued[0]]) + s.queued[1..] == s.sent + ([s.queued[0]] + s.queued[1..]);
  }

  function Launch(s: State, launched: Option<L.Handle>): State {
    if s.channel then s
    else State(true, Some(L.Launched(L.FRESH, launched, true)), true, [], s.sent + s.queued)
  }

  class CServerPortDlg {
    var channel: bool
    var launcher: L.Context?
    var isInitialized: bool
    var deletingSoon: bool
    var queuedMessages: seq<Message>
    var sent: seq<Message>

    function Value(): State
      reads this, launcher
    {
      State(channel, if launcher == null then None else Some(launcher.Value()), isInitialized, queuedMessages, sent)
    }

    /** Nothing in the host ever sets deleting_soon_; the launcher comes after the channel. */
    ghost predicate Valid()
      reads this
    {
      !deletingSoon && (launcher != null ==> channel)
    }

    constructor ()
      ensures Valid() && Value() == FRESH
      ensures !channel && launcher == null && !isInitialized && queuedMessages == [] && sent == []
    {
      channel, launcher, isInitialized, deletingSoon, queuedMessages, sent := false, null, false, false, [], [];
    }

    method Send(msg: Message) returns (ok: bool)
      modifies this`queuedMessages, this`sent
      ensures old(Valid()) ==> Valid()
      ensures Sent(Value(), ok) == SendIt(old(Value()), msg)
      ensures channel ==> ok && sent == old(sent) + [msg] && queuedMessages == old(queuedMessages)
      ensures !channel && !isInitialized ==> ok && queuedMessages == old(queuedMessages) + [msg] && sent == old(sent)
      ensures !channel && isInitialized ==> !ok && queuedMessages == old(queuedMessages) && sent == old(sent)
    {
      if !channel {
        if !isInitialized {
          queuedMessages := queuedMessages + [msg];
          return true;
        } else {
          return false;
        }
      }
      sent := sent + [msg];
      return true;
    }

    /** Ends unless Send() would put back what the loop takes out: see FlushMakesProgressIff. */
    method OnProcessLaunched()
      requires Valid() && (channel || isInitialized || queuedMessages == [])
      modifies this`queuedMessages, this`sent
      ensures Valid()
      ensures var was := old(Value());
              Value() == if was.launcher.Some? && was.launcher.value.handle.None? then was
                         else was.(queued := [], sent := if was.channel then was.sent + was.queued else was.sent)
    {
      if deletingSoon {
        return;
      }
      if launcher != null {
        if launcher.handle.None? {
          return;
        }
      }
      assert queuedMessages == [] ==> sent + queuedMessages == sent;
      while queuedMessages != []
        invariant channel || isInitialized || queuedMessages == []
        invariant if channel then sent + queuedMessages == old(sent + queuedMessages) else sent == old(sent)
        decreases |queuedMessages|
      {
        FlushMakesProgressIff(Value());
        var _ := Send(queuedMessages[0]);
        queuedMessages := queuedMessages[1..];
      }
      assert sent + [] == sent;
    }

    /**
     `launched` is what LaunchProcess() will give. The launcher calls back from its constructor, so
     OnProcessLaunched() does not see it yet, and does not look at its handle.
     */
    method LaunchClientProc(launched: Option<L.Handle>) returns (ok: bool)
      requires Valid()
      modifies this`channel, this`launcher, this`isInitialized, this`queuedMessages, this`sent
      ensures Valid()
      ensures ok && Value() == Launch(old(Value()), launched)
      ensures old(channel) ==> unchanged(this)
      ensures !old(channel) ==>
                && channel && isInitialized && queuedMessages == [] && sent == old(sent) + old(queuedMessages)
                && launcher != null && fresh(launcher) && launcher.handle == launched && launcher.client
    {
      if channel {
        return true;
      }
      channel := true;
      var context := new L.Context();
      var notify := context.Launch(launched, true);
      if notify {
        OnProcessLaunched();
      }
      launcher := context;
      isInitialized := true;
      return true;
    }
  }

  // ----- Runs -----

  datatype Event = Post(msg: Message) | Button(launched: Option<L.Handle>)

  /** `answers` are those of Send(), one for each Post. */
  datatype World = World(state: State, answers: seq<bool>)

  function Next(w: World, e: Event): World {
    match e
    case Post(msg) =>
      var r := SendIt(w.state, msg);
      World(r.state, w.answers + [r.ok])
    case Button(launched) => w.(state := Launch(w.state, launched))
  }

  function After(events: seq<Event>): World
    decreases |events|
  {
    if events == [] then World(FRESH, []) else Next(After(events[..|events| - 1]), events[|events| - 1])
  }

  function Posted(events: seq<Event>): seq<Message>
    decreases |events|
  {
    if events == [] then []
    else
      var last := events[|events| - 1];
      Posted(events[..|events| - 1]) + (if last.Post? then [last.msg] else [])
  }

  predicate HasButton(events: seq<Event>) {
    exists k :: 0 <= k < |events| && events[k].Button?
  }

  /**
   In every run: Send() says yes to every message; what the channel was given, followed by what is
   still queued, is every message in order, once each; and from the first launch on the queue is
   empty, whatever the launch gave.
   */
  lemma {:induction false} EveryMessageOnceInOrder(events: seq<Event>)
    ensures var w := After(events);
            && StateOk(w.state)
            && w.state.sent + w.state.queued == Posted(events)
            && |w.answers| == |Posted(events)| && (forall k :: 0 <= k < |w.answers| ==> w.answers[k])
            && (w.state.channel <==> HasButton(events))
            && (HasButton(events) ==> w.state.queued == [] && w.state.sent == Posted(events))
            && (!HasButton(events) ==> w.state.sent == [])
    decreases |events|
  {
    if events != [] {
      var before, last := events[..|events| - 1], events[|events| - 1];
      EveryMessageOnceInOrder(before);
      var s := After(before).state;
    }
  }

  /** Only the first launch counts, and it counts as done even when no process was made. */
  lemma {:induction false} FirstLaunchOnly(events: seq<Event>, launched: Option<L.Handle>, more: Option<L.Handle>)
    requires !HasButton(events)
    ensures var once := Next(After(events), Button(launched));
            && once.state.sent == Posted(events) && once.state.queued == [] && once.state.channel && once.state.initialized
            && once.state.launcher == Some(L.Launched(L.FRESH, launched, true))
            && Next(once, Button(more)) == once
  {
    EveryMessageOnceInOrder(events);
  }
}
