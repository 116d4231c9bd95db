/** The hand-over of interrupt causes from the ISR to the DPC of one interrupt object.

    The two words EICR and ICR of the object are joined by the ISR and emptied by the DPC, each by one
    interlocked operation. The ISR of an object never runs twice at a time; a DPC is taken off the queue
    before it runs, so the ISR may queue it again meanwhile and several DPC calls may overlap. A register
    word is the set of its set bits. */
module Interrupt {

  const RX_QUEUES: nat := 4
  const OTHER: nat := 31
  const TXDW: nat := 0
  const TXQE: nat := 1
  const LSC: nat := 2

  /** What the ISR finds: the miscellaneous MSI-X message with the value of ICR, an RX queue's MSI-X
      message, or a shared interrupt with the values of EICR and ICR. */
  datatype Source = Misc(icr: set<nat>) | Message(id: nat) | Shared(eicr: set<nat>, icr: set<nat>)

  /** Where the ISR is: about to join `icr` into ICR, about to join `eicr` into EICR, about to queue. */
  datatype IsrPc = IsrIdle | OrIcr(icr: set<nat>, eicr: set<nat>) | OrEicr(eicr: set<nat>) | QueueDpc

  /** Where a DPC call is: about to exchange EICR, at RX queue `i` of its loop, about to exchange ICR,
      about to act on TX causes, about to act on a link change, finished. */
  datatype DpcPc =
    | SwapEicr
    | NotifyRx(i: nat, eicr: set<nat>)
    | SwapIcr
    | NotifyTx(icr: set<nat>)
    | NotifyLink(icr: set<nat>)
    | Finished

  /** One cause the ISR accepted: the number of the interrupt, the word, and the bit. */
  datatype Cause = RxCause(n: nat, bit: nat) | IcrCause(n: nat, bit: nat)

  /** Where an accepted cause is. */
  datatype Place = AtIsr | InEicr | InIcr | AtDpc(d: nat) | Consumed(d: nat)

  /** `places` follows every accepted cause; `count` numbers the interrupts. */
  datatype State = State(eicr: set<nat>, icr: set<nat>, isr: IsrPc, queued: bool, dpcs: seq<DpcPc>,
                         places: map<Cause, Place>, count: nat)

  datatype Label = Interrupt(source: Source) | IsrStep | DpcBegin | DpcStep(d: nat)

  /** All bits set: the device is gone. */
  predicate Ejected(eicr: set<nat>) { forall b: nat :: b < 32 ==> b in eicr }

  /** The EICR bits the ISR joins for an interrupt; none if it does nothing. */
  function EicrBits(source: Source): set<nat> {
    match source
    case Misc(_) => {OTHER}
    case Message(id) => {id}
    case Shared(eicr, _) => if Ejected(eicr) then {} else eicr
  }

  /** The ICR bits the ISR reads and joins: only the miscellaneous message, or a shared interrupt with
      EICR_OTHER. */
  function IcrBits(source: Source): set<nat> {
    match source
    case Misc(icr) => icr
    case Message(_) => {}
    case Shared(eicr, icr) => if OTHER in EicrBits(source) then icr else {}
  }

  predicate ReadsIcr(source: Source) { OTHER in EicrBits(source) && !source.Message? }

  /** The causes the driver acts on: RX queue bits of EICR, and TX and link bits of ICR. */
  function CausesOf(n: nat, source: Source): set<Cause> {
    (set b | b in EicrBits(source) && b < RX_QUEUES :: RxCause(n, b))
    + (set b | b in IcrBits(source) && b <= LSC :: IcrCause(n, b))
  }

  predicate Enabled(s: State, l: Label) {
    match l
    case Interrupt(source) => s.isr == IsrIdle && (source.Message? ==> source.id < RX_QUEUES)
    case IsrStep => s.isr != IsrIdle
    case DpcBegin => s.queued
    case DpcStep(d) => d < |s.dpcs| && s.dpcs[d] != Finished
  }

  /** Move the causes selected by `from` to `to`. */
  function Moved(places: map<Cause, Place>, select: Cause -> bool, from: Place, to: Place): map<Cause, Place> {
    map c | c in places :: if places[c] == from && select(c) then to else places[c]
  }

  function Every(): Cause -> bool { (c: Cause) => true }

  function RxBit(i: nat): Cause -> bool { (c: Cause) => c.RxCause? && c.bit == i }

  function TxBits(): Cause -> bool { (c: Cause) => c.IcrCause? && (c.bit == TXDW || c.bit == TXQE) }

  function LinkBit(): Cause -> bool { (c: Cause) => c.IcrCause? && c.bit == LSC }

  function IsIcr(): Cause -> bool { (c: Cause) => c.IcrCause? }

  function IsRx(): Cause -> bool { (c: Cause) => c.RxCause? }

  /** The ISR reads the registers and accepts the causes. */
  function Accept(s: State, source: Source): State {
    if EicrBits(source) == {} then s else
    s.(isr := if ReadsIcr(source) then OrIcr(IcrBits(source), EicrBits(source)) else OrEicr(EicrBits(source)),
       places := map c | c in s.places.Keys + CausesOf(s.count, source) :: if c in s.places then s.places[c] else AtIsr,
       count := s.count + 1)
  }

  function IsrAccess(s: State): State {
    match s.isr
    case IsrIdle => s
    case OrIcr(icr, eicr) =>
      s.(icr := s.icr + icr, isr := OrEicr(eicr), places := Moved(s.places, IsIcr(), AtIsr, InIcr))
    case OrEicr(eicr) =>
      s.(eicr := s.eicr + eicr, isr := QueueDpc, places := Moved(s.places, IsRx(), AtIsr, InEicr))
    case QueueDpc => s.(queued := true, isr := IsrIdle)
  }

  function DpcAccess(s: State, d: nat): State
    requires d < |s.dpcs|
  {
    match s.dpcs[d]
    case SwapEicr =>
      s.(eicr := {}, dpcs := s.dpcs[d := NotifyRx(0, s.eicr)], places := Moved(s.places, Every(), InEicr, AtDpc(d)))
    case NotifyRx(i, eicr) =>
      if i < RX_QUEUES then
        s.(dpcs := s.dpcs[d := NotifyRx(i + 1, eicr)],
           places := if i in eicr then Moved(s.places, RxBit(i), AtDpc(d), Consumed(d)) else s.places)
      else s.(dpcs := s.dpcs[d := if OTHER in eicr then SwapIcr else Finished])
    case SwapIcr =>
      s.(icr := {}, dpcs := s.dpcs[d := NotifyTx(s.icr)], places := Moved(s.places, Every(), InIcr, AtDpc(d)))
    case NotifyTx(icr) =>
      s.(dpcs := s.dpcs[d := NotifyLink(icr)],
         places := if TXDW in icr || TXQE in icr then Moved(s.places, TxBits(), AtDpc(d), Consumed(d)) else s.places)
    case NotifyLink(icr) =>
      s.(dpcs := s.dpcs[d := Finished],
         places := if LSC in icr then Moved(s.places, LinkBit(), AtDpc(d), Consumed(d)) else s.places)
    case Finished => s
  }

  function Apply(s: State, l: Label): State {
    if !Enabled(s, l) then s else
    match l
    case Interrupt(source) => Accept(s, source)
    case IsrStep => IsrAccess(s)
    case DpcBegin => s.(queued := false, dpcs := s.dpcs + [SwapEicr])
    case DpcStep(d) => DpcAccess(s, d)
  }

  function Exec(s: State, ls: seq<Label>): State
    decreases |ls|
  {
    if ls == [] then s else Exec(Apply(s, ls[0]), ls[1..])
  }

  const INIT: State := State({}, {}, IsrIdle, false, [], map[], 0)

  // ---- the invariant ----------------------------------------------------------------------------

  /** A DPC call that will still exchange ICR. */
  predicate WillSwapIcr(pc: DpcPc) { pc.SwapIcr? || (pc.NotifyRx? && OTHER in pc.eicr) }

  /** Nothing is left in a word without somebody on the way to fetch it. */
  ghost predicate NoneStranded(s: State) {
    && (s.icr != {} ==>
          OTHER in s.eicr || (s.isr.OrEicr? && OTHER in s.isr.eicr) ||
          exists d :: 0 <= d < |s.dpcs| && WillSwapIcr(s.dpcs[d]))
    && (s.eicr != {} ==> s.queued || s.isr == QueueDpc || exists d :: 0 <= d < |s.dpcs| && s.dpcs[d] == SwapEicr)
    && (s.isr.OrIcr? ==> OTHER in s.isr.eicr)
  }

  /** A cause is where its place says: its bit is in that word, or in the value that party holds. */
  predicate PlaceInv(s: State, c: Cause, p: Place) {
    && (c.RxCause? ==> c.bit < RX_QUEUES)
    && (c.IcrCause? ==> c.bit <= LSC)
    && c.n < s.count
    && match p
       case AtIsr =>
         if c.RxCause? then (s.isr.OrIcr? || s.isr.OrEicr?) && c.bit in s.isr.eicr
         else s.isr.OrIcr? && c.bit in s.isr.icr
       case InEicr => c.RxCause? && c.bit in s.eicr
       case InIcr => c.IcrCause? && c.bit in s.icr
       case AtDpc(d) =>
         && d < |s.dpcs|
         && (if c.RxCause? then s.dpcs[d].NotifyRx? && s.dpcs[d].i <= c.bit && c.bit in s.dpcs[d].eicr
             else (s.dpcs[d].NotifyTx? || (s.dpcs[d].NotifyLink? && c.bit == LSC)) && c.bit in s.dpcs[d].icr)
       case Consumed(d) => d < |s.dpcs|
  }

  /** Some accepted cause with this bit, of the RX or of the ICR kind, is at place `p`. */
  ghost predicate Has(places: map<Cause, Place>, rx: bool, bit: nat, p: Place) {
    exists c :: c in places && places[c] == p && c.RxCause? == rx && c.bit == bit
  }

  /** Every bit the driver acts on, in a word or in a value that a party holds, is there for a cause that
      is at just that place. A bit that stayed in a word after an exchange would have none. */
  ghost predicate Backed(s: State) {
    && (forall b :: b in s.eicr && b < RX_QUEUES ==> Has(s.places, true, b, InEicr))
    && (forall b :: b in s.icr && b <= LSC ==> Has(s.places, false, b, InIcr))
    && IsrBacked(s.isr, s.places)
    && forall d :: 0 <= d < |s.dpcs| ==> DpcBacked(s.dpcs[d], d, s.places)
  }

  ghost predicate IsrBacked(pc: IsrPc, places: map<Cause, Place>) {
    && (pc.OrIcr? || pc.OrEicr? ==> forall b :: b in pc.eicr && b < RX_QUEUES ==> Has(places, true, b, AtIsr))
    && (pc.OrIcr? ==> forall b :: b in pc.icr && b <= LSC ==> Has(places, false, b, AtIsr))
  }

  ghost predicate DpcBacked(pc: DpcPc, d: nat, places: map<Cause, Place>) {
    && (pc.NotifyRx? ==> forall b :: b in pc.eicr && pc.i <= b < RX_QUEUES ==> Has(places, true, b, AtDpc(d)))
    && (pc.NotifyTx? ==> forall b :: b in pc.icr && b <= LSC ==> Has(places, false, b, AtDpc(d)))
    && (pc.NotifyLink? && LSC in pc.icr ==> Has(places, false, LSC, AtDpc(d)))
  }

  ghost predicate Inv(s: State) {
    NoneStranded(s) && Backed(s) && forall c :: c in s.places ==> PlaceInv(s, c, s.places[c])
  }

  // ---- moving causes ----------------------------------------------------------------------------

  lemma MovedElsewhere(places: map<Cause, Place>, select: Cause -> bool, from: Place, to: Place)
    ensures forall rx, b, p :: p != from && Has(places, rx, b, p) ==> Has(Moved(places, select, from, to), rx, b, p)
  {
    forall rx, b, p | p != from && Has(places, rx, b, p) ensures Has(Moved(places, select, from, to), rx, b, p) {
      var c :| c in places && places[c] == p && c.RxCause? == rx && c.bit == b;
      assert Moved(places, select, from, to)[c] == p;
    }
  }

  lemma MovedArrives(places: map<Cause, Place>, select: Cause -> bool, from: Place, to: Place, rx: bool, b: nat)
    requires Has(places, rx, b, from) && forall c: Cause :: c.RxCause? == rx && c.bit == b ==> select(c)
    ensures Has(Moved(places, select, from, to), rx, b, to)
  {
    var c :| c in places && places[c] == from && c.RxCause? == rx && c.bit == b;
    assert Moved(places, select, from, to)[c] == to;
  }

  lemma MovedStays(places: map<Cause, Place>, select: Cause -> bool, from: Place, to: Place, rx: bool, b: nat)
    requires Has(places, rx, b, from) && forall c: Cause :: c.RxCause? == rx && c.bit == b ==> !select(c)
    ensures Has(Moved(places, select, from, to), rx, b, from)
  {
    var c :| c in places && places[c] == from && c.RxCause? == rx && c.bit == b;
    assert Moved(places, select, from, to)[c] == from;
  }

  // ---- preservation -----------------------------------------------------------------------------

  lemma AcceptKeeps(s: State, source: Source)
    requires Inv(s) && Enabled(s, Interrupt(source))
    ensures Inv(Accept(s, source))
  {
    AcceptKeepsBacked(s, source);
  }

  lemma AcceptKeepsBacked(s: State, source: Source)
    requires Backed(s) && s.isr == IsrIdle && forall c :: c in s.places ==> PlaceInv(s, c, s.places[c])
    ensures Backed(Accept(s, source))
  {
    var t := Accept(s, source);
    if EicrBits(source) != {} {
      forall rx, b, p | Has(s.places, rx, b, p) ensures Has(t.places, rx, b, p) {
        var c :| c in s.places && s.places[c] == p && c.RxCause? == rx && c.bit == b;
        assert t.places[c] == p;
      }
      AcceptedAtIsr(s, source);
    }
  }

  lemma AcceptedAtIsr(s: State, source: Source)
    requires EicrBits(source) != {} && forall c :: c in s.places ==> c.n < s.count
    ensures forall b :: b in EicrBits(source) && b < RX_QUEUES ==> Has(Accept(s, source).places, true, b, AtIsr)
    ensures forall b :: b in IcrBits(source) && b <= LSC ==> Has(Accept(s, source).places, false, b, AtIsr)
  {
    var places := Accept(s, source).places;
    forall b | b in EicrBits(source) && b < RX_QUEUES ensures Has(places, true, b, AtIsr) {
      assert RxCause(s.count, b) in CausesOf(s.count, source) && places[RxCause(s.count, b)] == AtIsr;
    }
    forall b | b in IcrBits(source) && b <= LSC ensures Has(places, false, b, AtIsr) {
      assert IcrCause(s.count, b) in CausesOf(s.count, source) && places[IcrCause(s.count, b)] == AtIsr;
    }
  }

  lemma IsrKeeps(s: State)
    requires Inv(s) && Enabled(s, IsrStep)
    ensures Inv(IsrAccess(s))
  {
    IsrKeepsBacked(s);
  }

  lemma IsrKeepsBacked(s: State)
    requires Backed(s)
    ensures Backed(IsrAccess(s))
  {
    match s.isr
    case IsrIdle =>
    case QueueDpc =>
    case OrIcr(icr, _) =>
      MovedElsewhere(s.places, IsIcr(), AtIsr, InIcr);
      forall b | b in icr && b <= LSC { MovedArrives(s.places, IsIcr(), AtIsr, InIcr, false, b); }
      forall b | b in s.isr.eicr && b < RX_QUEUES { MovedStays(s.places, IsIcr(), AtIsr, InIcr, true, b); }
    case OrEicr(eicr) =>
      MovedElsewhere(s.places, IsRx(), AtIsr, InEicr);
      forall b | b in eicr && b < RX_QUEUES { MovedArrives(s.places, IsRx(), AtIsr, InEicr, true, b); }
  }

  lemma DpcKeepsBacked(s: State, d: nat)
    requires Inv(s) && d < |s.dpcs|
    ensures Backed(DpcAccess(s, d))
  {
    assert DpcBacked(s.dpcs[d], d, s.places);
    match s.dpcs[d]
    case SwapEicr => SwapEicrKeepsBacked(s, d);
    case SwapIcr => SwapIcrKeepsBacked(s, d);
    case NotifyRx(_, _) => RxKeepsBacked(s, d);
    case NotifyTx(_) => TxKeepsBacked(s, d);
    case NotifyLink(_) => LinkKeepsBacked(s, d);
    case Finished =>
  }

  /** The exchange takes the causes along with the bits. */
  lemma SwapEicrKeepsBacked(s: State, d: nat)
    requires Backed(s) && d < |s.dpcs| && s.dpcs[d] == SwapEicr
    ensures Backed(DpcAccess(s, d))
  {
    MovedElsewhere(s.places, Every(), InEicr, AtDpc(d));
    forall b | b in s.eicr && b < RX_QUEUES { MovedArrives(s.places, Every(), InEicr, AtDpc(d), true, b); }
  }

  lemma SwapIcrKeepsBacked(s: State, d: nat)
    requires Backed(s) && d < |s.dpcs| && s.dpcs[d] == SwapIcr
    ensures Backed(DpcAccess(s, d))
  {
    MovedElsewhere(s.places, Every(), InIcr, AtDpc(d));
    forall b | b in s.icr && b <= LSC { MovedArrives(s.places, Every(), InIcr, AtDpc(d), false, b); }
  }

  lemma RxKeepsBacked(s: State, d: nat)
    requires Backed(s) && d < |s.dpcs| && s.dpcs[d].NotifyRx? && DpcBacked(s.dpcs[d], d, s.places)
    ensures Backed(DpcAccess(s, d))
  {
    var i, eicr := s.dpcs[d].i, s.dpcs[d].eicr;
    if i < RX_QUEUES && i in eicr {
      MovedElsewhere(s.places, RxBit(i), AtDpc(d), Consumed(d));
      forall b | b in eicr && i < b < RX_QUEUES { MovedStays(s.places, RxBit(i), AtDpc(d), Consumed(d), true, b); }
    }
  }

  lemma TxKeepsBacked(s: State, d: nat)
    requires Backed(s) && d < |s.dpcs| && s.dpcs[d].NotifyTx? && DpcBacked(s.dpcs[d], d, s.places)
    ensures Backed(DpcAccess(s, d))
  {
    MovedElsewhere(s.places, TxBits(), AtDpc(d), Consumed(d));
    if LSC in s.dpcs[d].icr {
      MovedStays(s.places, TxBits(), AtDpc(d), Consumed(d), false, LSC);
    }
  }

  lemma LinkKeepsBacked(s: State, d: nat)
    requires Backed(s) && d < |s.dpcs| && s.dpcs[d].NotifyLink?
    ensures Backed(DpcAccess(s, d))
  {
    MovedElsewhere(s.places, LinkBit(), AtDpc(d), Consumed(d));
  }

  lemma DpcStrandsNone(s: State, d: nat)
    requires NoneStranded(s) && Enabled(s, DpcStep(d))
    ensures NoneStranded(DpcAccess(s, d))
  {
    var t := DpcAccess(s, d);
    assert forall w :: 0 <= w < |s.dpcs| && w != d ==> t.dpcs[w] == s.dpcs[w];
    if t.eicr != {} && !t.queued && t.isr != QueueDpc {
      var w :| 0 <= w < |s.dpcs| && s.dpcs[w] == SwapEicr;
      assert t.dpcs[w] == SwapEicr;
    }
    if t.icr != {} && OTHER !in t.eicr && !(t.isr.OrEicr? && OTHER in t.isr.eicr) {
      if s.dpcs[d] == SwapEicr && OTHER in s.eicr {
        assert WillSwapIcr(t.dpcs[d]);
      } else {
        var w :| 0 <= w < |s.dpcs| && WillSwapIcr(s.dpcs[w]);
        assert WillSwapIcr(t.dpcs[w]);
      }
    }
  }

  lemma DpcKeeps(s: State, d: nat)
    requires Inv(s) && Enabled(s, DpcStep(d))
    ensures Inv(DpcAccess(s, d))
  {
    DpcStrandsNone(s, d);
    DpcKeepsBacked(s, d);
    var t := DpcAccess(s, d);
    forall c | c in t.places ensures PlaceInv(t, c, t.places[c]) {
      DpcKeepsPlace(s, d, c);
    }
  }

  lemma DpcKeepsPlace(s: State, d: nat, c: Cause)
    requires Enabled(s, DpcStep(d)) && c in s.places && PlaceInv(s, c, s.places[c])
    ensures var t := DpcAccess(s, d); c in t.places && PlaceInv(t, c, t.places[c])
  {
    match s.dpcs[d]
    case SwapEicr => SwapKeepsPlace(s, d, c);
    case SwapIcr => SwapKeepsPlace(s, d, c);
    case NotifyRx(_, _) => RxKeepsPlace(s, d, c);
    case NotifyTx(_) => TxLinkKeepsPlace(s, d, c);
    case NotifyLink(_) => TxLinkKeepsPlace(s, d, c);
  }

  lemma SwapKeepsPlace(s: State, d: nat, c: Cause)
    requires d < |s.dpcs| && (s.dpcs[d] == SwapEicr || s.dpcs[d] == SwapIcr) && c in s.places &&
             PlaceInv(s, c, s.places[c])
    ensures var t := DpcAccess(s, d); c in t.places && PlaceInv(t, c, t.places[c])
  {
  }

  lemma RxKeepsPlace(s: State, d: nat, c: Cause)
    requires d < |s.dpcs| && s.dpcs[d].NotifyRx? && c in s.places && PlaceInv(s, c, s.places[c])
    ensures var t := DpcAccess(s, d); c in t.places && PlaceInv(t, c, t.places[c])
  {
  }

  lemma TxLinkKeepsPlace(s: State, d: nat, c: Cause)
    requires d < |s.dpcs| && (s.dpcs[d].NotifyTx? || s.dpcs[d].NotifyLink?) && c in s.places &&
             PlaceInv(s, c, s.places[c])
    ensures var t := DpcAccess(s, d); c in t.places && PlaceInv(t, c, t.places[c])
  {
  }

  lemma StepKeeps(s: State, l: Label)
    requires Inv(s)
    ensures Inv(Apply(s, l))
  {
    if Enabled(s, l) {
      match l
      case Interrupt(source) => AcceptKeeps(s, source);
      case IsrStep => IsrKeeps(s);
      case DpcBegin => BeginKeeps(s);
      case DpcStep(d) => DpcKeeps(s, d);
    }
  }

  lemma BeginKeeps(s: State)
    requires Inv(s) && s.queued
    ensures Inv(Apply(s, DpcBegin))
  {
    var t := Apply(s, DpcBegin);
    assert forall w :: 0 <= w < |s.dpcs| ==> t.dpcs[w] == s.dpcs[w];
    assert t.dpcs[|s.dpcs|] == SwapEicr;
    if s.icr != {} && OTHER !in s.eicr && !(s.isr.OrEicr? && OTHER in s.isr.eicr) {
      var w :| 0 <= w < |s.dpcs| && WillSwapIcr(s.dpcs[w]);
      assert WillSwapIcr(t.dpcs[w]);
    }
  }

  lemma {:induction false} RunKeeps(s: State, ls: seq<Label>)
    requires Inv(s)
    ensures Inv(Exec(s, ls))
    decreases |ls|
  {
    if ls == [] {
    } else {
      StepKeeps(s, ls[0]);
      RunKeeps(Apply(s, ls[0]), ls[1..]);
    }
  }

  // ---- main results -----------------------------------------------------------------------------

  /** Nothing is stranded: whenever the ISR is idle, no DPC is queued and every DPC call has finished,
      both words are empty and every cause ever accepted has been acted on. */
  lemma NothingStranded(ls: seq<Label>)
    requires var t := Exec(INIT, ls);
             t.isr == IsrIdle && !t.queued && forall d :: 0 <= d < |t.dpcs| ==> t.dpcs[d] == Finished
    ensures var t := Exec(INIT, ls);
            t.eicr == {} && t.icr == {} && forall c :: c in t.places ==> t.places[c].Consumed?
  {
    RunKeeps(INIT, ls);
  }

  /** A cause, once consumed, stays with the DPC call that consumed it; a cause is never forgotten; and
      it can only move forward: ISR, word, DPC, consumed. */
  function Stage(p: Place): nat {
    match p
    case AtIsr => 0
    case InEicr => 1
    case InIcr => 1
    case AtDpc(_) => 2
    case Consumed(_) => 3
  }

  predicate Forward(p: Place, q: Place) {
    Stage(p) <= Stage(q) && (p.AtDpc? ==> q == p || q == Consumed(p.d)) && (p.Consumed? ==> q == p)
  }

  lemma StepIsForward(s: State, l: Label)
    ensures s.places.Keys <= Apply(s, l).places.Keys
    ensures forall c :: c in s.places ==> Forward(s.places[c], Apply(s, l).places[c])
  {
    if Enabled(s, l) && l.DpcStep? {
      DpcIsForward(s, l.d);
    }
  }

  lemma DpcIsForward(s: State, d: nat)
    requires d < |s.dpcs|
    ensures s.places.Keys == DpcAccess(s, d).places.Keys
    ensures forall c :: c in s.places ==> Forward(s.places[c], DpcAccess(s, d).places[c])
  {
  }

  /** Over any run an accepted cause is never lost, and the DPC call that consumed it stays the only one. */
  lemma {:induction false} ConsumedOnce(s: State, ls: seq<Label>, c: Cause)
    requires c in s.places
    ensures c in Exec(s, ls).places && Forward(s.places[c], Exec(s, ls).places[c])
    decreases |ls|
  {
    if ls == [] {
    } else {
      StepIsForward(s, ls[0]);
      ConsumedOnce(Apply(s, ls[0]), ls[1..], c);
    }
  }

  /** A step in which a DPC call notifies a queue, the TX side or the link. */
  ghost predicate Notifies(s: State, l: Label) {
    Enabled(s, l) && l.DpcStep? &&
    match s.dpcs[l.d]
    case NotifyRx(i, eicr) => i < 4 && i in eicr
    case NotifyTx(icr) => 0 in icr || 1 in icr
    case NotifyLink(icr) => 2 in icr
    case _ => false
  }

  function ConsumedCauses(s: State): set<Cause> { set c | c in s.places && s.places[c].Consumed? }

  /** Every notification consumes a cause of its own, one that no DPC call had acted on before. */
  lemma NotificationConsumes(s: State, l: Label)
    requires Inv(s) && Notifies(s, l)
    ensures exists c :: c in s.places && s.places[c] == AtDpc(l.d) && Apply(s, l).places[c] == Consumed(l.d)
  {
    var d, rx, b := l.d, s.dpcs[l.d].NotifyRx?, LSC;
    assert DpcBacked(s.dpcs[d], d, s.places);
    if rx {
      b := s.dpcs[d].i;
    } else if s.dpcs[d].NotifyTx? {
      b := if TXDW in s.dpcs[d].icr then TXDW else TXQE;
    }
    assert Has(s.places, rx, b, AtDpc(d));
    var c :| c in s.places && s.places[c] == AtDpc(d) && c.RxCause? == rx && c.bit == b;
    assert Apply(s, l).places[c] == Consumed(d);
  }

  ghost function Notifications(s: State, ls: seq<Label>): nat
    decreases |ls|
  {
    if ls == [] then 0 else (if Notifies(s, ls[0]) then 1 else 0) + Notifications(Apply(s, ls[0]), ls[1..])
  }

  lemma ConsumedGrows(s: State, l: Label)
    requires Inv(s)
    ensures |ConsumedCauses(s)| + (if Notifies(s, l) then 1 else 0) <= |ConsumedCauses(Apply(s, l))|
  {
    StepIsForward(s, l);
    var old', new' := ConsumedCauses(s), ConsumedCauses(Apply(s, l));
    assert old' <= new';
    if Notifies(s, l) {
      NotificationConsumes(s, l);
      var c :| c in s.places && s.places[c] == AtDpc(l.d) && Apply(s, l).places[c] == Consumed(l.d);
      Smaller(old' + {c}, new');
    } else {
      Smaller(old', new');
    }
  }

  lemma Smaller(x: set<Cause>, y: set<Cause>)
    requires x <= y
    ensures |x| <= |y|
  {
    assert y == x + (y - x);
  }

  lemma {:induction false} NotificationsGrow(s: State, ls: seq<Label>)
    requires Inv(s)
    ensures |ConsumedCauses(s)| + Notifications(s, ls) <= |ConsumedCauses(Exec(s, ls))|
    decreases |ls|
  {
    if ls == [] {
    } else {
      ConsumedGrows(s, ls[0]);
      StepKeeps(s, ls[0]);
      NotificationsGrow(Apply(s, ls[0]), ls[1..]);
    }
  }

  /** In every run the DPC calls make no more notifications than there are accepted causes they consumed:
      no cause is acted on twice, however the calls overlap. */
  lemma NotificationsAnswerCauses(ls: seq<Label>)
    ensures Notifications(INIT, ls) <= |ConsumedCauses(Exec(INIT, ls))|
  {
    NotificationsGrow(INIT, ls);
  }

  /** The causes that interrupt number `n` brings: the TX and link bits of ICR for the miscellaneous message,
      its queue for an RX message, and for a shared interrupt, unless all bits of EICR are set, the RX queue
      bits of EICR and, with bit 31 of EICR, those of ICR. */
  ghost predicate Brings(source: Source, n: nat, c: Cause) {
    c.n == n &&
    match source
    case Misc(icr) => c.IcrCause? && c.bit in icr && c.bit <= 2
    case Message(id) => c.RxCause? && c.bit == id
    case Shared(eicr, icr) =>
      && !(forall b: nat :: b < 32 ==> b in eicr)
      && if c.RxCause? then c.bit in eicr && c.bit < 4 else 31 in eicr && c.bit in icr && c.bit <= 2
  }

  /** An interrupt taken at any point of a run is answered: the causes accepted under its number are just
      those it brings, and each has been consumed by a DPC call once the object is at rest again. */
  lemma InterruptIsAnswered(before: seq<Label>, source: Source, after: seq<Label>)
    requires Enabled(Exec(INIT, before), Interrupt(source))
    requires var t := Exec(Apply(Exec(INIT, before), Interrupt(source)), after);
             t.isr == IsrIdle && !t.queued && forall d :: 0 <= d < |t.dpcs| ==> t.dpcs[d] == Finished
    ensures var s := Exec(INIT, before);
            var t := Exec(Apply(s, Interrupt(source)), after);
            && (forall c :: Brings(source, s.count, c) ==> c in t.places && t.places[c].Consumed?)
            && forall c: Cause :: c.n == s.count && c in Apply(s, Interrupt(source)).places ==>
               Brings(source, s.count, c)
  {
    var s := Exec(INIT, before);
    RunKeeps(INIT, before);
    StepKeeps(s, Interrupt(source));
    RunKeeps(Apply(s, Interrupt(source)), after);
    InterruptAccepts(s, source);
    forall c | Brings(source, s.count, c)
      ensures c in Exec(Apply(s, Interrupt(source)), after).places
    {
      ConsumedOnce(Apply(s, Interrupt(source)), after, c);
    }
    AtRest(Exec(Apply(s, Interrupt(source)), after));
  }

  /** At rest nothing is under way. */
  lemma AtRest(t: State)
    requires Inv(t) && t.isr == IsrIdle && !t.queued && forall d :: 0 <= d < |t.dpcs| ==> t.dpcs[d] == Finished
    ensures t.eicr == {} && t.icr == {} && forall c :: c in t.places ==> t.places[c].Consumed?
  {
    forall c | c in t.places ensures t.places[c].Consumed? { assert PlaceInv(t, c, t.places[c]); }
  }

  /** No cause has the number of an interrupt to come. */
  lemma NothingAhead(s: State)
    requires Inv(s)
    ensures forall c :: c in s.places ==> c.n < s.count
  {
    forall c | c in s.places ensures c.n < s.count {
      assert PlaceInv(s, c, s.places[c]);
    }
  }

  /** Just the causes an interrupt brings are accepted under its number. */
  lemma InterruptAccepts(s: State, source: Source)
    requires Inv(s) && Enabled(s, Interrupt(source))
    ensures forall c: Cause :: c.n == s.count ==>
              (c in Apply(s, Interrupt(source)).places <==> Brings(source, s.count, c))
  {
    NothingAhead(s);
    forall c: Cause | c.n == s.count
      ensures c in Apply(s, Interrupt(source)).places <==> Brings(source, s.count, c)
    {
      assert c in CausesOf(s.count, source) <==> Brings(source, s.count, c);
    }
  }
}
