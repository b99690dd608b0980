/**
 The registry of named threads of ServerPort/ipc_process/browser_thread_impl.cc, as one thread
 runs it. What happens when several threads run it at once is the subject of LockElision.
 */
module BrowserThread {
  import opened Wrappers

  /** UI, DB, WEBKIT_DEPRECATED, FILE, FILE_USER_BLOCKING, PROCESS_LAUNCHER, CACHE, IO */
  const ID_COUNT := 8
  const PROCESS_LAUNCHER := 5
  const IO := 7

  type ID = i: nat | i < 8
  type Loop = nat

  /** A registered thread has a message loop only while it runs. */
  datatype Slot = Empty | Held(loop: Option<Loop>)

  datatype Task = Task(closure: int, delay: int, nestable: bool)

  type Queues = map<Loop, seq<Task>>

  function QueueOf(queues: Queues, loop: Loop): seq<Task> {
    if loop in queues then queues[loop] else []
  }

  predicate IsSlots(slots: seq<Slot>) {
    |slots| == ID_COUNT
  }

  function LoopAt(slots: seq<Slot>, id: ID): Option<Loop>
    requires IsSlots(slots)
  {
    if slots[id].Held? then slots[id].loop else None
  }

  /** The test of the scan; the loop of a thread that has not been started is null, like `None`. */
  predicate Matches(slot: Slot, current: Option<Loop>) {
    slot == Held(current)
  }

  function FirstMatch(slots: seq<Slot>, current: Option<Loop>, from: nat): Option<ID>
    requires IsSlots(slots) && from <= ID_COUNT
    decreases ID_COUNT - from
  {
    if from == ID_COUNT then None
    else if Matches(slots[from], current) then Some(from)
    else FirstMatch(slots, current, from + 1)
  }

  lemma {:induction false} FirstMatchIs(slots: seq<Slot>, current: Option<Loop>, from: nat)
    requires IsSlots(slots) && from <= ID_COUNT
    ensures var r := FirstMatch(slots, current, from);
            match r
            case None => forall j :: from <= j < ID_COUNT ==> !Matches(slots[j], current)
            case Some(t) => from <= t && Matches(slots[t], current)
                            && forall j :: from <= j < t ==> !Matches(slots[j], current)
    decreases ID_COUNT - from
  {
    if from < ID_COUNT {
      FirstMatchIs(slots, current, from + 1);
    }
  }

  predicate HasLoop(slots: seq<Slot>, loop: Loop)
    requires IsSlots(slots)
  {
    exists j: ID :: LoopAt(slots, j) == Some(loop)
  }

  predicate SomeUnstarted(slots: seq<Slot>)
    requires IsSlots(slots)
  {
    exists j: ID :: slots[j] == Held(None)
  }

  /** The right answer: the slot that holds the caller's own loop, or none if the caller is not registered. */
  predicate Identifies(slots: seq<Slot>, current: Option<Loop>, found: Option<ID>)
    requires IsSlots(slots)
  {
    match found
    case Some(id) => current.Some? && LoopAt(slots, id) == current
    case None => current.Some? ==> !HasLoop(slots, current.value)
  }

  /**
   The scan gives the right answer, except that a caller without a message loop is taken for the
   first registered thread that has none either; and if no two threads have the same loop, it is
   the caller's own slot.
   */
  lemma IdentifiesCallerIff(slots: seq<Slot>, current: Option<Loop>)
    requires IsSlots(slots)
    ensures Identifies(slots, current, FirstMatch(slots, current, 0)) <==> current.Some? || !SomeUnstarted(slots)
    ensures forall id: ID :: current.Some? && LoopAt(slots, id) == current
                             && (forall j: ID :: j != id ==> LoopAt(slots, j) != current) ==>
              FirstMatch(slots, current, 0) == Some(id)
  {
    FirstMatchIs(slots, current, 0);
    forall j: ID | current.Some? && LoopAt(slots, j) == current ensures Matches(slots[j], current) {
    }
    if current.None? && SomeUnstarted(slots) {
      var j: ID :| slots[j] == Held(None);
      assert Matches(slots[j], current);
    }
  }

  // ----- Posting, in one step -----

  datatype Posted = Posted(queues: Queues, result: bool)

  function Post(queues: Queues, loop: Option<Loop>, task: Task): Posted {
    if loop.None? then Posted(queues, false)
    else Posted(queues[loop.value := QueueOf(queues, loop.value) + [task]], true)
  }

  class BrowserThreadGlobals {
    const threads: array<Slot>
    var queues: Queues
    var lockHeld: bool
    var acquisitions: nat

    ghost predicate Valid()
      reads this
    {
      threads.Length == ID_COUNT && !lockHeld
    }

    constructor ()
      ensures Valid() && fresh(threads) && threads[..] == seq(ID_COUNT, _ => Empty) && queues == map[] && acquisitions == 0
    {
      threads := new Slot[8](_ => Empty);
      queues, lockHeld, acquisitions := map[], false, 0;
    }

    method Acquire()
      requires !lockHeld
      modifies this`lockHeld, this`acquisitions
      ensures lockHeld && acquisitions == old(acquisitions) + 1
    {
      lockHeld, acquisitions := true, acquisitions + 1;
    }

    method Release()
      requires lockHeld
      modifies this`lockHeld
      ensures !lockHeld
    {
      lockHeld := false;
    }

    /** Threads enter and leave the array only under the lock. */
    method SetThread(identifier: ID, slot: Slot)
      requires threads.Length == ID_COUNT && lockHeld
      modifies threads
      ensures threads[..] == old(threads[..])[identifier := slot]
    {
      threads[identifier] := slot;
    }

    method Initialize(identifier: ID, loop: Option<Loop>)
      requires Valid() && threads[identifier].Empty?
      modifies this`lockHeld, this`acquisitions, threads
      ensures Valid() && acquisitions == old(acquisitions) + 1
      ensures threads[..] == old(threads[..])[identifier := Held(loop)]
    {
      Acquire();
      SetThread(identifier, Held(loop));
      Release();
    }

    /** ~BrowserThreadImpl(): Stop(), then out of the array. */
    method Destroy(identifier: ID) returns (ordered: bool)
      requires Valid() && threads[identifier].Held?
      modifies this`lockHeld, this`acquisitions, threads
      ensures Valid() && acquisitions == old(acquisitions) + 1
      ensures threads[..] == old(threads[..])[identifier := Empty]
      ensures ordered <==> forall j :: identifier < j < ID_COUNT ==> old(threads[..])[j].Empty?
    {
      threads[identifier] := Held(None);
      Acquire();
      SetThread(identifier, Empty);
      ordered := true;
      for i := identifier + 1 to ID_COUNT
        invariant threads[..] == old(threads[..])[identifier := Empty]
        invariant ordered <==> forall j :: identifier < j < i ==> old(threads[..])[j].Empty?
      {
        assert threads[i] == threads[..][i] == old(threads[..])[i];
        if threads[i].Held? {
          ordered := false;
        }
      }
      Release();
    }

    method GetCurrentThreadIdentifier(current: Option<Loop>) returns (found: bool, identifier: ID)
      requires threads.Length == ID_COUNT
      ensures FirstMatch(threads[..], current, 0) == if found then Some(identifier) else None
    {
      for i := 0 to ID_COUNT
        invariant FirstMatch(threads[..], current, 0) == FirstMatch(threads[..], current, i)
      {
        if threads[i] == Held(current) {
          return true, i;
        }
      }
      return false, 0;
    }

    /** Takes the lock unless the caller is a registered thread that the target outlives. */
    method PostTaskHelper(current: Option<Loop>, identifier: ID, task: Task) returns (posted: bool)
      requires Valid()
      modifies this`lockHeld, this`acquisitions, this`queues
      ensures Valid()
      ensures posted <==> threads[identifier].Held? && threads[identifier].loop.Some?
      ensures posted ==>
                var loop := threads[identifier].loop.value;
                && loop in queues && queues[loop] == (if loop in old(queues) then old(queues)[loop] else []) + [task]
                && (forall other :: other != loop ==>
                      && (other in queues <==> other in old(queues))
                      && (other in queues ==> queues[other] == old(queues)[other]))
      ensures !posted ==> queues == old(queues)
      ensures Posted(queues, posted) == Post(old(queues), LoopAt(threads[..], identifier), task)
      ensures var caller := FirstMatch(threads[..], current, 0);
              acquisitions == old(acquisitions) + (if caller.Some? && identifier <= caller.value then 0 else 1)
    {
      var found, currentThread := GetCurrentThreadIdentifier(current);
      var targetOutlivesCurrent := found && currentThread >= identifier;
      if !targetOutlivesCurrent {
        Acquire();
      }
      var loop := if threads[identifier].Held? then threads[identifier].loop else None;
      if loop.Some? {
        queues := queues[loop.value := QueueOf(queues, loop.value) + [task]];
      }
      if !targetOutlivesCurrent {
        Release();
      }
      return loop.Some?;
    }

    method CurrentlyOn(current: Option<Loop>, identifier: ID) returns (on: bool)
      requires Valid()
      modifies this`lockHeld, this`acquisitions
      ensures Valid() && (on <==> threads[identifier] == Held(current))
    {
      Acquire();
      on := threads[identifier].Held? && threads[identifier].loop == current;
      Release();
    }
  }
}
