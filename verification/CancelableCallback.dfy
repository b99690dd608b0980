/**
 commonlib/common/base/cancelable_callback.h: a callback that is handed out as a forwarder, bound
 to a weak pointer, and that can be cancelled. The weak pointers are those of
 commonlib/common/base/memory/weak_ptr.cc, and a forwarder whose weak pointer is gone does nothing
 (commonlib/common/base/bind_internal.h).
 */
module CancelableCallback {
  import opened Wrappers

  type Closure = nat

  // ----- The object and its flags as a value -----

  /** `flags` are the validity flags that were ever made; the others name one of them, or none. */
  datatype Cell = Cell(flags: seq<bool>, owner: Option<nat>, forwarder: Option<nat>, callback: Option<Closure>)

  const EMPTY := Cell([], None, None, None)

  predicate CellOk(c: Cell) {
    && (c.owner.Some? ==> c.owner.value < |c.flags|)
    && (c.forwarder.Some? ==> c.forwarder.value < |c.flags|)
  }

  function Invalidated(c: Cell): Cell
    requires CellOk(c)
  {
    if c.owner.None? then c else c.(flags := c.flags[c.owner.value := false], owner := None)
  }

  function Cancelled(c: Cell): (r: Cell)
    requires CellOk(c)
    ensures CellOk(r)
  {
    Invalidated(c).(forwarder := None, callback := None)
  }

  /** InitializeForwarder() on an object whose flag is gone. */
  function Bound(c: Cell): Cell {
    c.(flags := c.flags + [true], owner := Some(|c.flags|), forwarder := Some(|c.flags|))
  }

  function WasReset(c: Cell, callback: Closure): (r: Cell)
    requires CellOk(c)
    ensures CellOk(r)
  {
    Bound(Cancelled(c)).(callback := Some(callback))
  }

  /** What running a copy of the forwarder runs; a copy made before any binding is null. */
  function RunOf(c: Cell, copy: Option<nat>): Option<Closure>
    requires copy.Some? ==> copy.value < |c.flags|
  {
    if copy.None? || !c.flags[copy.value] then None else c.callback
  }

  /** What IsCancelled() looks at. */
  predicate IsNotBound(c: Cell) {
    c.callback.None?
  }

  // ----- The class -----

  class Flag {
    var isValid: bool

    constructor ()
      ensures isValid
    {
      isValid := true;
    }
  }

  datatype Forwarder = NullForwarder | Forwarder(flag: Flag)

  class CancelableCallback {
    var flag: Flag?
    var forwarder: Forwarder
    var callback: Option<Closure>
    /** Every flag that was made, in order. */
    ghost var made: seq<Flag>

    ghost predicate Valid()
      reads this, made
    {
      && (forall i, j :: 0 <= i < j < |made| ==> made[i] != made[j])
      && (flag != null ==> made != [] && flag == made[|made| - 1] && made[|made| - 1].isValid)
      && forwarder == (if flag == null then NullForwarder else Forwarder(made[|made| - 1]))
      && (flag == null <==> callback.None?)
    }

    ghost function Value(): (c: Cell)
      reads this, made
      requires Valid()
      ensures CellOk(c) && |c.flags| == |made|
    {
      var current := if flag == null then None else Some(|made| - 1);
      Cell(seq(|made|, i requires 0 <= i < |made| reads this, made => made[i].isValid), current, current, callback)
    }

    constructor Empty()
      ensures Valid() && Value() == EMPTY
    {
      flag, forwarder, callback, made := null, NullForwarder, None, [];
    }

    constructor (callback: Closure)
      ensures Valid() && Value() == WasReset(EMPTY, callback) && fresh(made)
    {
      flag, forwarder, made := null, NullForwarder, [];
      this.callback := Some(callback);
      new;
      InitializeForwarder();
    }

    method InitializeForwarder()
      requires flag == null && forall i, j :: 0 <= i < j < |made| ==> made[i] != made[j]
      modifies this`flag, this`forwarder, this`made
      ensures flag != null && fresh(flag) && flag.isValid && made == old(made) + [flag] && forwarder == Forwarder(flag)
    {
      flag := new Flag();
      made := made + [flag];
      forwarder := Forwarder(flag);
    }

    method Cancel()
      requires Valid()
      modifies this, flag
      ensures Valid() && made == old(made) && Value() == Cancelled(old(Value()))
      ensures flag == null && forwarder == NullForwarder && callback.None?
      ensures old(flag) != null ==> !old(flag).isValid
    {
      if flag != null {
        flag.isValid := false;
        flag := null;
      }
      forwarder := NullForwarder;
      callback := None;
    }

    /** ~CancelableCallback(): the fields go in reverse order, and the factory invalidates its flag. */
    method Destroy()
      requires Valid()
      modifies this, flag
      ensures Valid() && made == old(made) && Value() == Cancelled(old(Value()))
      ensures flag == null && forwarder == NullForwarder && callback.None?
      ensures old(flag) != null ==> !old(flag).isValid
    {
      callback := None;
      forwarder := NullForwarder;
      if flag != null {
        flag.isValid := false;
        flag := null;
      }
    }

    method Reset(callback: Closure)
      requires Valid()
      modifies this, flag
      ensures Valid() && old(made) <= made && Value() == WasReset(old(Value()), callback)
      ensures flag != null && fresh(flag) && flag.isValid && forwarder == Forwarder(flag) && this.callback == Some(callback)
      ensures old(flag) != null ==> !old(flag).isValid
    {
      Cancel();
      InitializeForwarder();
      this.callback := Some(callback);
    }

    method IsCancelled() returns (cancelled: bool)
      requires Valid()
      ensures cancelled <==> IsNotBound(Value())
      ensures cancelled <==> flag == null
    {
      cancelled := callback.None?;
    }

    method Forward() returns (ran: Option<Closure>)
      ensures ran == callback
    {
      ran := callback;
    }

    /** Runs a copy of the forwarder that was handed out when the k-th flag was made. */
    method Run(copy: Forwarder, ghost k: nat) returns (ran: Option<Closure>)
      requires Valid() && k < |made| && copy == Forwarder(made[k])
      ensures ran == RunOf(Value(), Some(k))
      ensures ran == if copy.flag.isValid then callback else None
      ensures Valid() && Value() == old(Value())
    {
      if !copy.flag.isValid {
        return None;
      }
      ran := Forward();
    }
  }

  // ----- Histories -----

  datatype Event =
    | Reset(callback: Closure)
    | Cancel
    | Destroy
      // someone takes a copy of callback()
    | Copy
    | Run(copy: nat)

  datatype World = World(cell: Cell, alive: bool, copies: seq<Option<nat>>, ran: seq<Option<Closure>>)

  predicate WorldOk(w: World) {
    CellOk(w.cell) && forall i :: 0 <= i < |w.copies| && w.copies[i].Some? ==> w.copies[i].value < |w.cell.flags|
  }

  /** The object is not used after its end; copies may be run at any time. */
  predicate Enabled(w: World, e: Event) {
    match e
    case Run(i) => i < |w.copies|
    case _ => w.alive
  }

  function Next(w: World, e: Event): (next: World)
    requires WorldOk(w) && Enabled(w, e)
    ensures WorldOk(next)
  {
    match e
    case Reset(callback) => w.(cell := WasReset(w.cell, callback))
    case Cancel => w.(cell := Cancelled(w.cell))
    case Destroy => w.(cell := Cancelled(w.cell), alive := false)
    case Copy => w.(copies := w.copies + [w.cell.forwarder])
    case Run(i) => w.(ran := w.ran + [RunOf(w.cell, w.copies[i])])
  }

  function Last<T>(xs: seq<T>): T
    requires xs != []
  {
    xs[|xs| - 1]
  }

  function Front<T>(xs: seq<T>): seq<T>
    requires xs != []
  {
    xs[..|xs| - 1]
  }

  /** The world after these events, if each of them was allowed when it came. */
  function After(events: seq<Event>): (w: Option<World>)
    ensures w.Some? ==> WorldOk(w.value)
    decreases |events|
  {
    if events == [] then Some(World(EMPTY, true, [], []))
    else
      var w := After(Front(events));
      if w.Some? && Enabled(w.value, Last(events)) then Some(Next(w.value, Last(events))) else None
  }

  predicate EndsBinding(e: Event) {
    e.Reset? || e.Cancel? || e.Destroy?
  }

  predicate NoneSince(events: seq<Event>, b: nat) {
    forall k :: b < k < |events| ==> !EndsBinding(events[k])
  }

  /** The event that bound the forwarder that callback() gives now. */
  function Binding(events: seq<Event>): Option<nat>
    decreases |events|
  {
    if events == [] then None
    else if Last(events).Reset? then Some(|events| - 1)
    else if EndsBinding(Last(events)) then None
    else Binding(Front(events))
  }

  function Resets(events: seq<Event>): seq<nat>
    decreases |events|
  {
    if events == [] then []
    else Resets(Front(events)) + (if Last(events).Reset? then [|events| - 1] else [])
  }

  /** For each copy, the event that had bound it. */
  function BindingsOfCopies(events: seq<Event>): seq<Option<nat>>
    decreases |events|
  {
    if events == [] then []
    else BindingsOfCopies(Front(events)) + (if Last(events).Copy? then [Binding(Front(events))] else [])
  }

  lemma {:induction false} BindingIff(events: seq<Event>, b: nat)
    requires b < |events|
    ensures Binding(events) == Some(b) <==> events[b].Reset? && NoneSince(events, b)
    decreases |events|
  {
    if b == |events| - 1 {
      BindingIsEarlier(Front(events));
    } else {
      BindingIff(Front(events), b);
      assert NoneSince(events, b) <==> NoneSince(Front(events), b) && !EndsBinding(Last(events)) by {
        forall k | b < k < |Front(events)| ensures Front(events)[k] == events[k] {
        }
      }
    }
  }

  lemma {:induction false} BindingIsEarlier(events: seq<Event>)
    ensures Binding(events).Some? ==> Binding(events).value < |events|
    decreases |events|
  {
    if events != [] {
      BindingIsEarlier(Front(events));
    }
  }

  lemma NoneSinceStep(before: seq<Event>, e: Event, b: nat)
    requires b < |before|
    ensures NoneSince(before + [e], b) <==> NoneSince(before, b) && !EndsBinding(e)
  {
    var events := before + [e];
    assert events[|before|] == e;
    assert forall k :: 0 <= k < |before| ==> events[k] == before[k];
  }

  // ----- The flags tell what has happened since a binding -----

  ghost predicate FlagsTell(events: seq<Event>, resets: seq<nat>, flags: seq<bool>) {
    && |flags| == |resets|
    && forall e :: 0 <= e < |resets| ==>
         resets[e] < |events| && events[resets[e]].Reset? && (flags[e] <==> NoneSince(events, resets[e]))
  }

  ghost predicate CellTells(events: seq<Event>, resets: seq<nat>, c: Cell) {
    && FlagsTell(events, resets, c.flags)
    && c.forwarder == c.owner
    && match c.owner
       case None => Binding(events).None? && c.callback.None?
       case Some(o) => o < |resets| && Binding(events) == Some(resets[o])
                       && resets[o] < |events| && events[resets[o]].Reset? && c.callback == Some(events[resets[o]].callback)
  }

  ghost predicate CopiesTell(resets: seq<nat>, bindings: seq<Option<nat>>, copies: seq<Option<nat>>) {
    && |copies| == |bindings|
    && forall i :: 0 <= i < |copies| ==>
         match copies[i]
         case None => bindings[i].None?
         case Some(e) => e < |resets| && bindings[i] == Some(resets[e])
  }

  lemma FlagsTellOn(before: seq<Event>, e: Event, resets: seq<nat>, flags: seq<bool>)
    requires FlagsTell(before, resets, flags)
    requires EndsBinding(e) ==> forall k :: 0 <= k < |flags| ==> !flags[k]
    ensures FlagsTell(before + [e], resets, flags)
  {
    hide NoneSince;
    forall k | 0 <= k < |resets|
      ensures (before + [e])[resets[k]].Reset? && (flags[k] <==> NoneSince(before + [e], resets[k]))
    {
      NoneSinceStep(before, e, resets[k]);
    }
  }

  lemma AllInvalid(before: seq<Event>, e: Event, resets: seq<nat>, flags: seq<bool>, none: seq<bool>)
    requires FlagsTell(before, resets, flags) && EndsBinding(e)
    requires |none| == |flags| && forall k :: 0 <= k < |none| ==> !none[k]
    ensures FlagsTell(before + [e], resets, none)
  {
    hide NoneSince;
    forall k | 0 <= k < |resets| ensures (before + [e])[resets[k]].Reset? && !NoneSince(before + [e], resets[k]) {
      NoneSinceStep(before, e, resets[k]);
    }
  }

  lemma OneMoreFlag(events: seq<Event>, resets: seq<nat>, flags: seq<bool>)
    requires FlagsTell(events, resets, flags) && events != [] && Last(events).Reset?
    ensures FlagsTell(events, resets + [|events| - 1], flags + [true])
  {
  }

  /** Only the flag that the object still owns can be valid, so invalidating it leaves none valid. */
  lemma OnlyTheOwned(events: seq<Event>, resets: seq<nat>, c: Cell)
    requires CellTells(events, resets, c) && CellOk(c) && Ascending(resets)
    ensures |Invalidated(c).flags| == |c.flags| && forall e :: 0 <= e < |c.flags| ==> !Invalidated(c).flags[e]
  {
    hide Binding, NoneSince;
    forall e | 0 <= e < |c.flags| ensures !Invalidated(c).flags[e] {
      BindingIff(events, resets[e]);
    }
  }

  predicate Ascending(xs: seq<nat>) {
    forall i, j :: 0 <= i < j < |xs| ==> xs[i] < xs[j]
  }

  ghost predicate Tells(events: seq<Event>, w: World) {
    && WorldOk(w) && Ascending(Resets(events))
    && CellTells(events, Resets(events), w.cell)
    && CopiesTell(Resets(events), BindingsOfCopies(events), w.copies)
  }

  lemma CellTellsStep(before: seq<Event>, e: Event, c: Cell, next: Cell)
    requires CellTells(before, Resets(before), c) && CellOk(c) && Ascending(Resets(before))
    requires next == match e
                     case Reset(callback) => WasReset(c, callback)
                     case Copy => c
                     case Run(_) => c
                     case _ => Cancelled(c)
    ensures CellTells(before + [e], Resets(before + [e]), next)
  {
    hide NoneSince, FlagsTell, Ascending;
    var resets := Resets(before);
    assert Resets(before + [e]) == if e.Reset? then resets + [|before|] else resets;
    assert (before + [e])[|before|] == e;
    if EndsBinding(e) {
      OnlyTheOwned(before, resets, c);
      AllInvalid(before, e, resets, c.flags, Invalidated(c).flags);
      if e.Reset? {
        OneMoreFlag(before + [e], resets, Invalidated(c).flags);
        assert |resets| == |c.flags| by {
          SameLength(before, resets, c.flags);
        }
      }
    } else {
      FlagsTellOn(before, e, resets, c.flags);
    }
  }

  lemma SameLength(events: seq<Event>, resets: seq<nat>, flags: seq<bool>)
    requires FlagsTell(events, resets, flags)
    ensures |resets| == |flags|
  {
  }

  lemma CopiesTellMore(resets: seq<nat>, more: seq<nat>, bindings: seq<Option<nat>>, copies: seq<Option<nat>>)
    requires resets <= more && CopiesTell(resets, bindings, copies)
    ensures CopiesTell(more, bindings, copies)
  {
  }

  lemma OneMoreCopy(resets: seq<nat>, bindings: seq<Option<nat>>, copies: seq<Option<nat>>, b: Option<nat>, f: Option<nat>)
    requires CopiesTell(resets, bindings, copies)
    requires match f case None => b.None? case Some(e) => e < |resets| && b == Some(resets[e])
    ensures CopiesTell(resets, bindings + [b], copies + [f])
  {
  }

  lemma CopiesTellStep(before: seq<Event>, e: Event, w: World, next: World)
    requires Tells(before, w) && Enabled(w, e) && next == Next(w, e)
    ensures CopiesTell(Resets(before + [e]), BindingsOfCopies(before + [e]), next.copies)
  {
    hide NoneSince, FlagsTell, Ascending, CopiesTell, Binding;
    var resets, bindings := Resets(before), BindingsOfCopies(before);
    CopiesTellMore(resets, Resets(before + [e]), bindings, w.copies);
    if e.Copy? {
      assert Resets(before + [e]) == resets + [] == resets;
      OneMoreCopy(resets, bindings, w.copies, Binding(before), w.cell.forwarder);
    } else {
      assert BindingsOfCopies(before + [e]) == bindings + [] == bindings;
    }
  }

  lemma {:induction false} ResetsAscend(events: seq<Event>)
    ensures Ascending(Resets(events))
    ensures forall k :: 0 <= k < |Resets(events)| ==> Resets(events)[k] < |events|
    decreases |events|
  {
    if events != [] {
      ResetsAscend(Front(events));
    }
  }

  lemma {:induction false} HistoryTells(events: seq<Event>)
    requires After(events).Some?
    ensures Tells(events, After(events).value)
    decreases |events|
  {
    hide CellTells, CopiesTell, Next, Enabled, Ascending;
    ResetsAscend(events);
    if events == [] {
      NothingYet();
    } else {
      var before, e := Front(events), Last(events);
      HistoryTells(before);
      assert events == before + [e];
      var w := After(before).value;
      NextCell(w, e);
      CellTellsStep(before, e, w.cell, Next(w, e).cell);
      CopiesTellStep(before, e, w, Next(w, e));
    }
  }

  lemma NothingYet()
    ensures CellTells([], Resets([]), EMPTY) && CopiesTell(Resets([]), BindingsOfCopies([]), [])
  {
  }

  lemma NextCell(w: World, e: Event)
    requires WorldOk(w) && Enabled(w, e)
    ensures Next(w, e).cell == match e
                               case Reset(callback) => WasReset(w.cell, callback)
                               case Copy => w.cell
                               case Run(_) => w.cell
                               case _ => Cancelled(w.cell)
  {
  }

  // ----- Main result -----

  /**
   A copy runs something exactly when nothing has cancelled, reset or destroyed the object since
   the event that had bound the copied forwarder, and then it runs the callback of that event.
   */
  lemma CopyRunsItsBinding(events: seq<Event>, i: nat)
    requires After(events).Some? && i < |After(events).value.copies|
    ensures i < |BindingsOfCopies(events)|
    ensures var w, b := After(events).value, BindingsOfCopies(events)[i];
            && (b.Some? ==> b.value < |events| && events[b.value].Reset?)
            && RunOf(w.cell, w.copies[i]) ==
               if b.Some? && NoneSince(events, b.value) then Some(events[b.value].callback) else None
  {
    HistoryTells(events);
    var w, b := After(events).value, BindingsOfCopies(events)[i];
    if b.Some? {
      BindingIff(events, b.value);
    }
  }

  /** The object says that it is cancelled exactly when nothing is bound: after no Reset() but one that has been ended. */
  lemma CancelledIffNothingBound(events: seq<Event>)
    requires After(events).Some?
    ensures IsNotBound(After(events).value.cell) <==>
            forall b :: 0 <= b < |events| && events[b].Reset? ==> !NoneSince(events, b)
  {
    HistoryTells(events);
    hide NoneSince, FlagsTell, CopiesTell, Ascending;
    forall b | 0 <= b < |events| ensures Binding(events) == Some(b) <==> events[b].Reset? && NoneSince(events, b) {
      BindingIff(events, b);
    }
    BindingIsEarlier(events);
  }

  lemma {:induction false} WorldsOfPrefixes(before: seq<Event>, after: seq<Event>)
    requires After(before + after).Some?
    ensures After(before).Some? && After(before).value.copies <= After(before + after).value.copies
    ensures BindingsOfCopies(before) <= BindingsOfCopies(before + after)
    decreases |after|
  {
    hide Next, Enabled, Binding;
    var all := before + after;
    if after == [] {
      assert all == before;
    } else {
      assert Front(all) == before + Front(after);
      WorldsOfPrefixes(before, Front(after));
      OnlyMoreCopies(After(Front(all)).value, Last(all));
    }
  }

  lemma OnlyMoreCopies(w: World, e: Event)
    requires WorldOk(w) && Enabled(w, e)
    ensures w.copies <= Next(w, e).copies
  {
  }

  lemma SameNumberOfCopies(events: seq<Event>)
    requires After(events).Some?
    ensures |BindingsOfCopies(events)| == |After(events).value.copies|
  {
    HistoryTells(events);
  }

  /** What the copy that is taken between `before` and `after` is bound to. */
  lemma CopyIsBound(before: seq<Event>, after: seq<Event>)
    requires After(before + [Copy] + after).Some?
    ensures After(before).Some?
    ensures var i, all := |After(before).value.copies|, before + [Copy] + after;
            && i < |After(all).value.copies| && i < |BindingsOfCopies(all)| && BindingsOfCopies(all)[i] == Binding(before)
  {
    hide Next, Enabled, Binding;
    var taken := before + [Copy];
    WorldsOfPrefixes(taken, after);
    WorldsOfPrefixes(before, [Copy]);
    SameNumberOfCopies(before);
    SameNumberOfCopies(taken);
  }

  lemma RunIsRecorded(events: seq<Event>, i: nat)
    requires After(events + [Run(i)]).Some?
    ensures After(events).Some? && i < |After(events).value.copies|
    ensures var w := After(events).value;
            After(events + [Run(i)]).value == w.(ran := w.ran + [RunOf(w.cell, w.copies[i])])
  {
  }

  lemma SinceInPrefix(before: seq<Event>, more: seq<Event>, b: nat)
    requires b < |before| && NoneSince(before + more, b)
    ensures NoneSince(before, b)
  {
    assert forall k :: 0 <= k < |before| ==> (before + more)[k] == before[k];
  }

  /**
   What running a copy does, told by the events alone. The copy is taken after `before` and run after
   `after`: it runs the callback of the last Reset() before it was taken, if that has not been ended
   by another Reset(), a Cancel() or the end of the object before the copy is run; and otherwise
   nothing. Running a copy does not change the object.
   */
  lemma RunOfACopy(before: seq<Event>, after: seq<Event>)
    requires After(before).Some?
    requires var i := |After(before).value.copies|; After(before + [Copy] + after + [Run(i)]).Some?
    ensures var i, all := |After(before).value.copies|, before + [Copy] + after;
            var run := After(all + [Run(i)]).value;
            && After(all).Some? && run.cell == After(all).value.cell && |run.ran| == |After(all).value.ran| + 1
            && (forall b :: 0 <= b < |before| && before[b].Reset? && NoneSince(all, b) ==>
                  Last(run.ran) == Some(before[b].callback))
            && ((forall k :: 0 <= k < |before| && before[k].Reset? ==> !NoneSince(all, k)) ==> Last(run.ran).None?)
  {
    hide Next, Enabled, Binding, NoneSince, RunOf, After;
    var i, all := |After(before).value.copies|, before + [Copy] + after;
    RunIsRecorded(all, i);
    CopyIsBound(before, after);
    CopyRunsItsBinding(all, i);
    assert all == before + ([Copy] + after);
    forall b | 0 <= b < |before| && before[b].Reset? && NoneSince(all, b)
      ensures Binding(before) == Some(b) && all[b] == before[b]
    {
      SinceInPrefix(before, [Copy] + after, b);
      BindingIff(before, b);
    }
    BindingIsEarlier(before);
    if Binding(before).Some? {
      BindingIff(before, Binding(before).value);
    }
  }

  // ----- Objects that are made with a callback -----

  /** The world after these events on an object that was in this state. */
  function Onwards(start: World, events: seq<Event>): (w: Option<World>)
    requires WorldOk(start)
    ensures w.Some? ==> WorldOk(w.value)
    decreases |events|
  {
    if events == [] then Some(start)
    else
      var w := Onwards(start, Front(events));
      if w.Some? && Enabled(w.value, Last(events)) then Some(Next(w.value, Last(events))) else None
  }

  /** What the constructor with a callback makes: what Reset() makes of an empty object. */
  function Made(callback: Closure): (w: World)
    ensures WorldOk(w)
  {
    World(WasReset(EMPTY, callback), true, [], [])
  }

  lemma {:induction false} MadeIsReset(callback: Closure, events: seq<Event>)
    ensures After([Reset(callback)] + events) == Onwards(Made(callback), events)
    decreases |events|
  {
    var history := [Reset(callback)] + events;
    if events == [] {
      assert history == [Reset(callback)] && Front([Reset(callback)]) == [];
    } else {
      assert Front(history) == [Reset(callback)] + Front(events) && Last(history) == Last(events);
      MadeIsReset(callback, Front(events));
    }
  }

  /** The same for the copies of an object that began with a callback: its making counts as the first Reset(). */
  lemma MadeCopyRunsItsBinding(callback: Closure, events: seq<Event>, i: nat)
    requires Onwards(Made(callback), events).Some? && i < |Onwards(Made(callback), events).value.copies|
    ensures var history := [Reset(callback)] + events;
            && i < |BindingsOfCopies(history)|
            && var w, b := Onwards(Made(callback), events).value, BindingsOfCopies(history)[i];
               && (b.Some? ==> b.value < |history| && history[b.value].Reset?)
               && RunOf(w.cell, w.copies[i]) ==
                  if b.Some? && NoneSince(history, b.value) then Some(history[b.value].callback) else None
  {
    hide NoneSince, RunOf, Onwards;
    MadeIsReset(callback, events);
    CopyRunsItsBinding([Reset(callback)] + events, i);
  }
}
