/** commonlib/common/base/atomic_sequence_num.h, on top of the interleaved increments. */
module AtomicSequenceNum {
  import opened AtomicOps

  /** static_cast<int> of an Atomic32. */
  function Signed(w: Word): (n: int)
    ensures -0x8000_0000 <= n < 0x8000_0000 && (n - w) % 0x1_0000_0000 == 0
  {
    if w < 0x8000_0000 then w else w - MODULUS
  }

  class StaticAtomicSequenceNumber {
    var seqNum: Word

    method GetNext() returns (n: int)
      modifies this
      ensures -0x8000_0000 <= n < 0x8000_0000 && (n - old(seqNum)) % 0x1_0000_0000 == 0
      ensures seqNum == (if old(seqNum) == 0xFFFF_FFFF then 0 else old(seqNum) + 1)
    {
      var out := Apply(seqNum, Increment(1));
      seqNum := out.cell;
      n := Signed(Wrap(out.result - 1));
    }

    method Reset()
      modifies this
      ensures seqNum == 0
    {
      seqNum := 0;
    }
  }

  /** Every call is GetNext's increment by one. */
  ghost predicate OnlyGetNext(log: seq<Effect>) {
    forall p :: 0 <= p < |log| ==> log[p].op == Increment(1)
  }

  function Number(r: Returned): int {
    Signed(Wrap(r.result - 1))
  }

  lemma {:induction false} TotalOfOnes(log: seq<Effect>)
    requires OnlyGetNext(log)
    ensures Total(log) == |log|
  {
    if log != [] {
      TotalOfOnes(log[..|log| - 1]);
    }
  }

  /** The number of a call is the initial value plus the count of calls that took effect earlier, to 32 bits. */
  lemma NumberIsPlaceInLog(cell: Word, actors: nat, events: seq<Event>, k: nat)
    requires var s := Run(Initial(cell, actors), events);
             OnlyGetNext(s.log) && k < |s.returned|
    ensures var s := Run(Initial(cell, actors), events);
            var r := s.returned[k];
            && r.start <= r.at < r.end <= |s.log|
            && -0x8000_0000 <= Number(r) < 0x8000_0000
            && (Number(r) - (cell + r.at)) % 0x1_0000_0000 == 0
            && (cell + r.at < 0x8000_0000 ==> Number(r) == cell + r.at)
  {
    hide Run, Total, Signed, Wrap, Legal, Replay;
    LoopsAreLinearizable(cell, actors, events);
    IncrementsAddUp(cell, actors, events);
    var s := Run(Initial(cell, actors), events);
    var r := s.returned[k];
    assert ReturnOk(s.log, r);
    TotalOfOnes(s.log[..r.at + 1]);
    assert s.log[r.at].result == (cell + Total(s.log[..r.at + 1])) % 0x1_0000_0000;
    NumberOf(r, cell + r.at);
  }

  lemma NumberOf(r: Returned, x: nat)
    requires r.result == (x + 1) % 0x1_0000_0000
    ensures -0x8000_0000 <= Number(r) < 0x8000_0000 && (Number(r) - x) % 0x1_0000_0000 == 0
    ensures x < 0x8000_0000 ==> Number(r) == x
  {
  }

  /**
   Under any interleaving two different calls get the same number if and only if a multiple of
   2^32 calls lies between them; so at most 2^32 calls get numbers of their own.
   */
  lemma NumbersAreDistinct(cell: Word, actors: nat, events: seq<Event>, j: nat, k: nat)
    requires var s := Run(Initial(cell, actors), events);
             && OnlyGetNext(s.log)
             && j < |s.returned| && k < |s.returned|
             && (s.returned[j].actor != s.returned[k].actor || s.returned[j].call != s.returned[k].call)
    ensures var s := Run(Initial(cell, actors), events);
            && s.returned[j].at != s.returned[k].at
            && (Number(s.returned[j]) == Number(s.returned[k]) <==>
                  (s.returned[j].at - s.returned[k].at) % 0x1_0000_0000 == 0)
            && (|s.log| <= 0x1_0000_0000 ==> Number(s.returned[j]) != Number(s.returned[k]))
  {
    hide Run, Signed, Wrap, Number;
    var s := Run(Initial(cell, actors), events);
    CallsHaveTheirOwnEntries(cell, actors, events, j, k);
    NumberIsPlaceInLog(cell, actors, events, j);
    NumberIsPlaceInLog(cell, actors, events, k);
  }

  /** Two returned calls are the same call when they share an entry of the log. */
  lemma CallsHaveTheirOwnEntries(cell: Word, actors: nat, events: seq<Event>, j: nat, k: nat)
    requires var s := Run(Initial(cell, actors), events);
             j < |s.returned| && k < |s.returned|
             && (s.returned[j].actor != s.returned[k].actor || s.returned[j].call != s.returned[k].call)
    ensures var s := Run(Initial(cell, actors), events);
            s.returned[j].at != s.returned[k].at
  {
    hide Run;
    LoopsAreLinearizable(cell, actors, events);
    var s := Run(Initial(cell, actors), events);
    assert ReturnOk(s.log, s.returned[j]) && ReturnOk(s.log, s.returned[k]);
  }
}
