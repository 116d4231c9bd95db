/** EvtInterruptIsr and EvtInterruptDpc in their own form. Between any two interlocked operations of one
    call the other calls take any number of steps. */
module InterruptDriver {
  import opened Interrupt

  class InterruptObject {
    var s: State
    ghost var trace: seq<Label>

    constructor ()
      ensures Valid() && s == INIT
    {
      s, trace := INIT, [];
    }

    ghost predicate Valid()
      reads this
    {
      s == Exec(INIT, trace) && Inv(s) == true
    }

    method Step(l: Label)
      requires Valid()
      modifies this
      ensures Valid() && s == Apply(old(s), l)
    {
      ExecSnoc(INIT, trace, l);
      StepKeeps(s, l);
      s, trace := Apply(s, l), trace + [l];
    }

    // Anything the DPC calls may do while the ISR runs.
    method DpcsRun()
      requires Valid()
      modifies this
      ensures Valid() && s.isr == old(s).isr && s.count == old(s).count && old(s).places.Keys == s.places.Keys
    {
      var n: nat :| true;
      for i := 0 to n
        invariant Valid() && s.isr == old(s).isr && s.count == old(s).count && old(s).places.Keys == s.places.Keys
      {
        var l: Label :| true;
        if l.DpcBegin? || l.DpcStep? {
          DpcSparesIsr(s, l);
          Step(l);
        }
      }
    }

    // Anything the ISR and the other DPC calls may do while DPC call `d` runs.
    method OthersRun(d: nat)
      requires Valid() && d < |s.dpcs|
      modifies this
      ensures Valid() && SameForDpc(old(s), s, d)
    {
      var n: nat :| true;
      for i := 0 to n
        invariant Valid() && SameForDpc(old(s), s, d)
      {
        var l: Label :| true;
        if l != DpcStep(d) {
          OthersSpareDpc(s, l, d);
          Step(l);
        }
      }
    }

    // One interlocked operation of the ISR.
    method IsrOperation()
      requires Valid() && s.isr != IsrIdle
      modifies this
      ensures Valid() && s.isr == NextIsr(old(s).isr) && s.count == old(s).count && old(s).places.Keys == s.places.Keys
      ensures old(s).isr == QueueDpc ==> s.queued
    {
      DpcsRun();
      Step(IsrStep);
    }

    // EvtInterruptIsr; `eicrReg` and `icrReg` are what E1000_EICR and E1000_ICR read. The causes accepted
    // under the number of this interrupt are named by the bits of these values.
    method EvtInterruptIsr(msix: bool, isMisc: bool, messageId: nat, eicrReg: set<nat>, icrReg: set<nat>)
        returns (handled: bool)
      requires Valid() && s.isr == IsrIdle && (msix && !isMisc ==> messageId < 4)
      requires forall b :: b in eicrReg ==> b < 32
      modifies this
      ensures Valid() && s.isr == IsrIdle
      ensures handled <==> msix || eicrReg != {}
      ensures !msix && (eicrReg == {} || forall b: nat :: b < 32 ==> b in eicrReg) ==> s == old(s)
      ensures msix || (eicrReg != {} && exists b: nat :: b < 32 && b !in eicrReg) ==>
                s.queued && s.count == old(s).count + 1
      ensures msix && isMisc ==> forall c: Cause :: c.n == old(s).count ==>
                (c in s.places <==> c.IcrCause? && c.bit in icrReg && c.bit <= 2)
      ensures msix && !isMisc ==> forall c: Cause :: c.n == old(s).count ==>
                (c in s.places <==> c.RxCause? && c.bit == messageId)
      ensures !msix && (exists b: nat :: b < 32 && b !in eicrReg) ==> forall c: Cause :: c.n == old(s).count ==>
                (c in s.places <==>
                  if c.RxCause? then c.bit in eicrReg && c.bit < 4 else 31 in eicrReg && c.bit in icrReg && c.bit <= 2)
    {
      if msix {
        if isMisc {
          Take(Misc(icrReg));
          IsrOperation();
          IsrOperation();
        } else {
          Take(Message(messageId));
          IsrOperation();
        }
        IsrOperation();
        return true;
      } else {
        // Hot eject
        if forall b: nat :: b < 32 ==> b in eicrReg {
          EjectedHasBits(eicrReg);
          return true;
        }
        if eicrReg != {} {
          Take(Shared(eicrReg, icrReg));
          if OTHER in eicrReg {
            IsrOperation();
          }
          IsrOperation();
          IsrOperation();
          return true;
        }
        NothingAhead(s);
        return false;
      }
    }

    // The registers have been read: the causes that the interrupt brings are accepted.
    method Take(source: Source)
      requires Valid() && Enabled(s, Interrupt(source)) && EicrBits(source) != {}
      modifies this
      ensures Valid() && s.count == old(s).count + 1
      ensures s.isr == if ReadsIcr(source) then OrIcr(IcrBits(source), EicrBits(source)) else OrEicr(EicrBits(source))
      ensures forall c: Cause :: c.n == old(s).count ==> (c in s.places <==> Brings(source, old(s).count, c))
    {
      InterruptAccepts(s, source);
      Step(Interrupt(source));
    }

    // One operation of DPC call `d`.
    method DpcOperation(d: nat) returns (ghost was: State)
      requires Valid() && d < |s.dpcs| && s.dpcs[d] != Finished
      modifies this
      ensures Valid() && Inv(was) && SameForDpc(old(s), was, d) && s == DpcAccess(was, d)
    {
      OthersRun(d);
      was := s;
      Step(DpcStep(d));
    }

    // EvtInterruptDpc: which RX queues it notified, in order, whether it notified TX completion, and
    // whether it checked the link. Every cause this call took was acted on, and every notification it made
    // was for a cause that this call, and so no other, consumed.
    method EvtInterruptDpc() returns (d: nat, rx: seq<nat>, tx: bool, link: bool)
      requires Valid() && s.queued
      modifies this
      ensures Valid() && d == |old(s).dpcs| < |s.dpcs| && s.dpcs[d] == Finished
      ensures forall i :: 0 <= i < |rx| ==> rx[i] < 4
      ensures forall i, j :: 0 <= i < j < |rx| ==> rx[i] < rx[j]
      ensures forall c :: c in s.places && s.places[c] == Consumed(d) ==> ActedOn(c, rx, tx, link)
      ensures forall c :: c in s.places ==> s.places[c] != AtDpc(d)
      ensures Warranted(s, d, rx, tx, link)
    {
      d, tx, link := |s.dpcs|, false, false;
      NewDpcHasNothing(s);
      Step(DpcBegin);
      ghost var was;
      was := DpcOperation(d);
      var eicr := s.dpcs[d].eicr;
      rx := NotifyRxQueues(d, eicr);
      was := Operation(d, rx, false, false);
      if OTHER in eicr {
        tx, link := HandleIcr(d, rx);
      }
    }

    // The loop over the RX queues.
    method NotifyRxQueues(d: nat, eicr: set<nat>) returns (rx: seq<nat>)
      requires Valid() && d < |s.dpcs| && s.dpcs[d] == NotifyRx(0, eicr)
      requires forall c :: c in s.places ==> s.places[c] != Consumed(d)
      modifies this
      ensures Valid() && d < |s.dpcs| && s.dpcs[d] == NotifyRx(RX_QUEUES, eicr)
      ensures forall i :: 0 <= i < |rx| ==> rx[i] < RX_QUEUES
      ensures forall i, j :: 0 <= i < j < |rx| ==> rx[i] < rx[j]
      ensures forall c :: c in s.places && s.places[c] == Consumed(d) ==> c.RxCause? && c.bit in rx
      ensures Warranted(s, d, rx, false, false)
    {
      rx := [];
      var i := 0;
      while i < RX_QUEUES
        invariant Valid() && d < |s.dpcs| && 0 <= i <= RX_QUEUES && s.dpcs[d] == NotifyRx(i, eicr)
        invariant forall k :: 0 <= k < |rx| ==> rx[k] < i
        invariant forall k, j :: 0 <= k < j < |rx| ==> rx[k] < rx[j]
        invariant forall c :: c in s.places && s.places[c] == Consumed(d) ==> c.RxCause? && c.bit in rx
        invariant Warranted(s, d, rx, false, false)
      {
        ghost var was := Operation(d, rx, false, false);
        RxStepConsumes(was, d);
        if i in eicr {
          rx := rx + [i];
        }
        i := i + 1;
      }
    }

    // The part under EICR_OTHER.
    method HandleIcr(d: nat, ghost rx: seq<nat>) returns (tx: bool, link: bool)
      requires Valid() && d < |s.dpcs| && s.dpcs[d] == SwapIcr
      requires forall c :: c in s.places && s.places[c] == Consumed(d) ==> c.RxCause? && c.bit in rx
      requires Warranted(s, d, rx, false, false)
      modifies this
      ensures Valid() && d < |s.dpcs| && s.dpcs[d] == Finished
      ensures forall c :: c in s.places && s.places[c] == Consumed(d) ==> ActedOn(c, rx, tx, link)
      ensures Warranted(s, d, rx, tx, link)
    {
      ghost var was := DpcOperation(d);
      StillWarranted(old(s), was, d, rx, false, false);
      StepWarrants(was, d, rx, false, false);
      var icr := s.dpcs[d].icr;
      tx := HandleTx(d, icr, rx);
      link := HandleLink(d, icr, rx, tx);
    }

    // The TX completion causes.
    method HandleTx(d: nat, icr: set<nat>, ghost rx: seq<nat>) returns (tx: bool)
      requires Valid() && d < |s.dpcs| && s.dpcs[d] == NotifyTx(icr) && Warranted(s, d, rx, false, false)
      requires forall c :: c in s.places && s.places[c] == Consumed(d) ==> ActedOn(c, rx, false, false)
      modifies this
      ensures Valid() && d < |s.dpcs| && s.dpcs[d] == NotifyLink(icr) && Warranted(s, d, rx, tx, false)
      ensures forall c :: c in s.places && s.places[c] == Consumed(d) ==> ActedOn(c, rx, tx, false)
    {
      ghost var was := Operation(d, rx, false, false);
      tx := TXDW in icr || TXQE in icr;
      TxStepConsumes(was, d);
    }

    // The link cause.
    method HandleLink(d: nat, icr: set<nat>, ghost rx: seq<nat>, ghost tx: bool) returns (link: bool)
      requires Valid() && d < |s.dpcs| && s.dpcs[d] == NotifyLink(icr) && Warranted(s, d, rx, tx, false)
      requires forall c :: c in s.places && s.places[c] == Consumed(d) ==> ActedOn(c, rx, tx, false)
      modifies this
      ensures Valid() && d < |s.dpcs| && s.dpcs[d] == Finished && Warranted(s, d, rx, tx, link)
      ensures forall c :: c in s.places && s.places[c] == Consumed(d) ==> ActedOn(c, rx, tx, link)
    {
      ghost var was := Operation(d, rx, tx, false);
      link := LSC in icr;
      LinkStepConsumes(was, d);
    }

    // One operation of DPC call `d`, which has made these notifications before.
    method Operation(d: nat, ghost rx: seq<nat>, ghost tx: bool, ghost link: bool) returns (ghost was: State)
      requires Valid() && d < |s.dpcs| && s.dpcs[d] != Finished && Warranted(s, d, rx, tx, link)
      modifies this
      ensures Valid() && Inv(was) && SameForDpc(old(s), was, d) && s == DpcAccess(was, d)
      ensures Warranted(s, d, MoreRx(was.dpcs[d], rx), tx || IsTx(was.dpcs[d]), link || IsLink(was.dpcs[d]))
    {
      ghost var start := s;
      was := DpcOperation(d);
      StillWarranted(start, was, d, rx, tx, link);
      StepWarrants(was, d, rx, tx, link);
    }
  }

  /** The notification that belongs to a cause was made. */
  ghost predicate ActedOn(c: Cause, rx: seq<nat>, tx: bool, link: bool) {
    if c.RxCause? then c.bit in rx else if c.bit == 2 then link else tx
  }

  /** Each notification made was for a cause that DPC call `d` consumed. */
  ghost predicate Warranted(s: State, d: nat, rx: seq<nat>, tx: bool, link: bool) {
    && (forall q :: q in rx ==> Has(s.places, true, q, Consumed(d)))
    && (tx ==> Has(s.places, false, 0, Consumed(d)) || Has(s.places, false, 1, Consumed(d)))
    && (link ==> Has(s.places, false, 2, Consumed(d)))
  }

  // The notifications a step at `pc` makes.
  function MoreRx(pc: DpcPc, rx: seq<nat>): seq<nat> {
    if pc.NotifyRx? && pc.i < RX_QUEUES && pc.i in pc.eicr then rx + [pc.i] else rx
  }
  predicate IsTx(pc: DpcPc) { pc.NotifyTx? && (TXDW in pc.icr || TXQE in pc.icr) }
  predicate IsLink(pc: DpcPc) { pc.NotifyLink? && LSC in pc.icr }

  /** What the call consumed before stays consumed by it. */
  lemma StillWarranted(s: State, t: State, d: nat, rx: seq<nat>, tx: bool, link: bool)
    requires SameForDpc(s, t, d) && Warranted(s, d, rx, tx, link)
    ensures Warranted(t, d, rx, tx, link)
  {
    forall k, b | Has(s.places, k, b, Consumed(d)) ensures Has(t.places, k, b, Consumed(d)) {
      var c :| c in s.places && s.places[c] == Consumed(d) && c.RxCause? == k && c.bit == b;
      assert t.places[c] == Consumed(d);
    }
  }

  /** A step of the call warrants what it notifies. */
  lemma StepWarrants(s: State, d: nat, rx: seq<nat>, tx: bool, link: bool)
    requires Inv(s) && d < |s.dpcs| && s.dpcs[d] != Finished && Warranted(s, d, rx, tx, link)
    ensures Warranted(DpcAccess(s, d), d, MoreRx(s.dpcs[d], rx), tx || IsTx(s.dpcs[d]), link || IsLink(s.dpcs[d]))
  {
    var t := DpcAccess(s, d);
    var pc := s.dpcs[d];
    DpcIsForward(s, d);
    forall k, b | Has(s.places, k, b, Consumed(d)) ensures Has(t.places, k, b, Consumed(d)) {
      var c :| c in s.places && s.places[c] == Consumed(d) && c.RxCause? == k && c.bit == b;
      assert t.places[c] == Consumed(d);
    }
    assert DpcBacked(pc, d, s.places);
    if pc.NotifyRx? && pc.i < RX_QUEUES && pc.i in pc.eicr {
      MovedArrives(s.places, RxBit(pc.i), AtDpc(d), Consumed(d), true, pc.i);
    } else if IsTx(pc) {
      MovedArrives(s.places, TxBits(), AtDpc(d), Consumed(d), false, if TXDW in pc.icr then TXDW else TXQE);
    } else if IsLink(pc) {
      MovedArrives(s.places, LinkBit(), AtDpc(d), Consumed(d), false, LSC);
    }
  }

  function NextIsr(pc: IsrPc): IsrPc {
    match pc
    case IsrIdle => IsrIdle
    case OrIcr(_, eicr) => OrEicr(eicr)
    case OrEicr(_) => QueueDpc
    case QueueDpc => IsrIdle
  }

  /** DPC call `d` has not moved, and what it has consumed is the same. */
  ghost predicate SameForDpc(s: State, t: State, d: nat) {
    && d < |s.dpcs| <= |t.dpcs| && t.dpcs[d] == s.dpcs[d]
    && forall c :: (c in t.places && t.places[c] == Consumed(d)) <==> (c in s.places && s.places[c] == Consumed(d))
  }

  lemma {:induction false} ExecSnoc(s: State, ls: seq<Label>, l: Label)
    ensures Exec(s, ls + [l]) == Apply(Exec(s, ls), l)
    decreases |ls|
  {
    if ls == [] {
      assert (ls + [l])[1..] == [];
    } else {
      ExecSnoc(Apply(s, ls[0]), ls[1..], l);
      assert (ls + [l])[1..] == ls[1..] + [l];
    }
  }

  lemma EjectedHasBits(eicr: set<nat>)
    requires Ejected(eicr)
    ensures eicr != {}
  {
    assert 0 in eicr;
  }

  lemma DpcSparesIsr(s: State, l: Label)
    requires l.DpcBegin? || l.DpcStep?
    ensures Apply(s, l).isr == s.isr && Apply(s, l).count == s.count && Apply(s, l).places.Keys == s.places.Keys
  {
    if l.DpcStep? && l.d < |s.dpcs| {
      DpcIsForward(s, l.d);
    }
  }

  lemma OthersSpareDpc(s: State, l: Label, d: nat)
    requires d < |s.dpcs| && l != DpcStep(d)
    ensures SameForDpc(s, Apply(s, l), d)
  {
  }

  lemma NewDpcHasNothing(s: State)
    requires Inv(s)
    ensures forall c :: c in s.places ==> s.places[c] != AtDpc(|s.dpcs|) && s.places[c] != Consumed(|s.dpcs|)
  {
    forall c | c in s.places ensures s.places[c] != AtDpc(|s.dpcs|) && s.places[c] != Consumed(|s.dpcs|) {
      assert PlaceInv(s, c, s.places[c]);
    }
  }

  lemma RxStepConsumes(s: State, d: nat)
    requires d < |s.dpcs| && s.dpcs[d].NotifyRx? && s.dpcs[d].i < RX_QUEUES
    ensures var t := DpcAccess(s, d);
            forall c :: c in t.places && t.places[c] == Consumed(d) ==>
              s.places[c] == Consumed(d) || (c.RxCause? && c.bit == s.dpcs[d].i && s.dpcs[d].i in s.dpcs[d].eicr)
  {
  }

  lemma TxStepConsumes(s: State, d: nat)
    requires d < |s.dpcs| && s.dpcs[d].NotifyTx?
    ensures var t := DpcAccess(s, d);
            forall c :: c in t.places && t.places[c] == Consumed(d) ==>
              s.places[c] == Consumed(d) ||
                  (c.IcrCause? && c.bit != LSC && (TXDW in s.dpcs[d].icr || TXQE in s.dpcs[d].icr))
  {
  }

  lemma LinkStepConsumes(s: State, d: nat)
    requires d < |s.dpcs| && s.dpcs[d].NotifyLink?
    ensures var t := DpcAccess(s, d);
            forall c :: c in t.places && t.places[c] == Consumed(d) ==>
              s.places[c] == Consumed(d) || (c.IcrCause? && c.bit == LSC && LSC in s.dpcs[d].icr)
  {
  }
}
