/** The mailbox between one virtual function (VF) and the physical function (PF) as a state machine over
    single register accesses. The two sides share a message buffer. VFU and PFU say who owns it; each
    latches only while the other is clear, and is dropped by the write that posts or acknowledges a
    message. Reading V2PMAILBOX clears some of its status bits, so the VF keeps them in a shadow. */
module Mailbox {

  type Word = w: nat | w < 0x1_0000_0000

  const SIZE: nat := 16

  /** `count` in the lock loops starts at 10: eleven attempts. */
  const LAST_ATTEMPT: nat := 10

  /** The bits of V2PMAILBOX that can be read. */
  datatype Bit = VFU | PFU | PFSTS | PFACK | RSTI | RSTD

  /** E1000_V2PMAILBOX_R2C_BITS. */
  const R2C: set<Bit> := {PFSTS, PFACK, RSTD}

  datatype Side = Vf | Pf

  datatype Op = Send(msg: seq<Word>) | Receive(size: nat) | CheckMsg | CheckAck | CheckRst

  /** The next register access of a side. The flush and check steps of the PF take two accesses, the
      second of which clears the bit the first one found. */
  datatype Pc =
    | Idle
    | Claim(i: nat)
    | Confirm(i: nat)
    | FlushMsg
    | ClearMsg
    | FlushAck
    | ClearAck
    | Copy(i: nat)
    | Post
    | Fetch(i: nat)
    | Return
    | Look
    | Take

  /** One side: its call in progress, the words received so far (or last), whether it has consumed a
      message notification since its own last message, and the result of its last call. */
  datatype Party = Party(pc: Pc, op: Op, got: seq<Word>, noticed: bool, result: bool)

  /** The buffer, its owner bits, the status bits of V2PMAILBOX, and this VF's two bits in MBVFICR. */
  datatype Hw = Hw(vfu: bool, pfu: bool, mem: seq<Word>, status: set<Bit>, req: bool, ack: bool)

  /** A completed write: who posted, and the whole buffer at that moment. */
  datatype Message = Message(from: Side, content: seq<Word>)

  /** `shadow` is hw->dev_spec.vf.v2p_mailbox; `sent` records the completed writes. `pfGot` is what the PF
      received last, when `pfRead` writes had been completed. */
  datatype System = System(hw: Hw, vf: Party, pf: Party, shadow: set<Bit>, sent: seq<Message>, pfGot: seq<Word>,
      pfRead: nat)

  datatype Label = Start(side: Side, op: Op) | Run(side: Side) | Reset(bits: set<Bit>)

  // ---- register accesses ------------------------------------------------------------------------

  /** read_v2p_mailbox: the register joined with the shadow; the shadow collects the read-to-clear bits. */
  function ReadV2p(s: System): (set<Bit>, System) {
    var flags := (if s.hw.vfu then {VFU} else {}) + (if s.hw.pfu then {PFU} else {});
    var v := flags + s.hw.status + s.shadow;
    (v, s.(hw := s.hw.(status := s.hw.status - R2C), shadow := s.shadow + v * R2C))
  }

  /** check_for_bit_vf. */
  function CheckBit(s: System, mask: set<Bit>): (bool, System) {
    var (v, t) := ReadV2p(s);
    (v * mask != {}, t.(shadow := t.shadow - mask))
  }

  /** Events that were signalled to the VF and not yet reported. */
  ghost function Pending(s: System): set<Bit> { (s.hw.status + s.shadow) * {PFSTS, PFACK, RSTD} }

  /** The event a check asks for is there; RSTI is no event, but a state of the register. */
  ghost predicate Signalled(op: Op, s: System) {
    || (op == CheckMsg && PFSTS in Pending(s))
    || (op == CheckAck && PFACK in Pending(s))
    || (op == CheckRst && (RSTD in Pending(s) || RSTI in s.hw.status))
  }

  /** The event a check takes away. */
  ghost function Reported(op: Op): set<Bit> {
    match op
    case CheckMsg => {PFSTS}
    case CheckAck => {PFACK}
    case CheckRst => {RSTD}
    case _ => {}
  }

  // ---- one access of the VF ---------------------------------------------------------------------

  function AfterLock(p: Party): Party {
    p.(pc := if p.op.Send? then FlushMsg else if p.op.Receive? && p.op.size > 0 then Fetch(0) else Return, got := [])
  }

  function AfterFlush(p: Party): Party {
    p.(pc := if p.op.Send? && |p.op.msg| > 0 then Copy(0) else Post)
  }

  function AfterCopy(p: Party, i: nat): Party {
    p.(pc := if p.op.Send? && i + 1 < |p.op.msg| then Copy(i + 1) else Post)
  }

  function AfterFetch(p: Party, i: nat, w: Word): Party {
    p.(pc := if p.op.Receive? && i + 1 < p.op.size then Fetch(i + 1) else Return, got := p.got + [w])
  }

  function Failed(p: Party): Party { p.(pc := Idle, result := false) }

  function Done(p: Party): Party { p.(pc := Idle, result := true) }

  function CopyWord(p: Party, mem: seq<Word>, i: nat): seq<Word> {
    if p.op.Send? && i < |p.op.msg| && i < |mem| then mem[i := p.op.msg[i]] else mem
  }

  function FetchWord(mem: seq<Word>, i: nat): Word { if i < |mem| then mem[i] else 0 }

  /** The status bits a check of the VF tests and clears. */
  function CheckMask(op: Op): set<Bit> {
    match op
    case CheckMsg => {PFSTS}
    case CheckAck => {PFACK}
    case CheckRst => {RSTD, RSTI}
    case _ => {}
  }

  function VfAccess(s: System): System {
    var p := s.vf;
    match p.pc
    case Claim(i) => s.(hw := s.hw.(vfu := !s.hw.pfu), vf := p.(pc := Confirm(i)))
    case Confirm(i) =>
      var (v, t) := ReadV2p(s);
      t.(vf := if VFU in v then AfterLock(p) else if i < LAST_ATTEMPT then p.(pc := Claim(i + 1)) else Failed(p))
    case FlushMsg => CheckBit(s, {PFSTS}).1.(vf := p.(pc := FlushAck))
    case FlushAck => CheckBit(s, {PFACK}).1.(vf := AfterFlush(p))
    case Copy(i) => s.(hw := s.hw.(mem := CopyWord(p, s.hw.mem, i)), vf := AfterCopy(p, i))
    case Post =>
      s.(hw := s.hw.(vfu := false, req := true), vf := Done(p).(noticed := false),
         sent := s.sent + [Message(Vf, s.hw.mem)])
    case Fetch(i) => s.(vf := AfterFetch(p, i, FetchWord(s.hw.mem, i)))
    case Return => s.(hw := s.hw.(vfu := false, ack := true), vf := Done(p))
    case Look =>
      var (found, t) := CheckBit(s, CheckMask(p.op));
      t.(vf := p.(pc := Idle, result := found, noticed := p.noticed || (p.op == CheckMsg && found)))
    case _ => s
  }

  // ---- one access of the PF ---------------------------------------------------------------------

  function PfAccess(s: System): System {
    var p := s.pf;
    match p.pc
    case Claim(i) => s.(hw := s.hw.(pfu := !s.hw.vfu), pf := p.(pc := Confirm(i)))
    case Confirm(i) =>
      s.(pf := if s.hw.pfu then AfterLock(p) else if i < LAST_ATTEMPT then p.(pc := Claim(i + 1)) else Failed(p))
    case FlushMsg => s.(pf := p.(pc := if s.hw.req then ClearMsg else FlushAck))
    case ClearMsg => s.(hw := s.hw.(req := false), pf := p.(pc := FlushAck))
    case FlushAck => s.(pf := if s.hw.ack then p.(pc := ClearAck) else AfterFlush(p))
    case ClearAck => s.(hw := s.hw.(ack := false), pf := AfterFlush(p))
    case Copy(i) => s.(hw := s.hw.(mem := CopyWord(p, s.hw.mem, i)), pf := AfterCopy(p, i))
    case Post =>
      s.(hw := s.hw.(pfu := false, status := s.hw.status + {PFSTS}), pf := Done(p).(noticed := false),
         sent := s.sent + [Message(Pf, s.hw.mem)])
    case Fetch(i) => s.(pf := AfterFetch(p, i, FetchWord(s.hw.mem, i)))
    case Return =>
      s.(hw := s.hw.(pfu := false, status := s.hw.status + {PFACK}), pf := Done(p), pfGot := p.got, pfRead := |s.sent|)
    case Look =>
      s.(pf := if (p.op == CheckMsg && s.hw.req) || (p.op == CheckAck && s.hw.ack) then p.(pc := Take) else Failed(p))
    case Take =>
      if p.op == CheckMsg then s.(hw := s.hw.(req := false), pf := Done(p).(noticed := true))
      else s.(hw := s.hw.(ack := false), pf := Done(p))
    case Idle => s
  }

  // ---- runs -------------------------------------------------------------------------------------

  function Begin(p: Party, op: Op): Party {
    p.(pc := if op.Send? || op.Receive? then Claim(0) else Look, op := op)
  }

  /** Messages fit the buffer. The reset bits may be raised at any time. */
  predicate Enabled(s: System, l: Label) {
    match l
    case Start(side, op) =>
      && (if side == Vf then s.vf.pc == Idle else s.pf.pc == Idle && op != CheckRst)
      && (op.Send? ==> |op.msg| <= SIZE)
      && (op.Receive? ==> op.size <= SIZE)
    case Run(side) => true
    case Reset(bits) => bits <= {RSTI, RSTD}
  }

  function Apply(s: System, l: Label): System {
    if !Enabled(s, l) then s else
    match l
    case Start(Vf, op) => s.(vf := Begin(s.vf, op))
    case Start(Pf, op) => s.(pf := Begin(s.pf, op))
    case Run(Vf) => VfAccess(s)
    case Run(Pf) => PfAccess(s)
    case Reset(bits) => s.(hw := s.hw.(status := s.hw.status + bits))
  }

  function Exec(s: System, ls: seq<Label>): System
    decreases |ls|
  {
    if ls == [] then s else Exec(Apply(s, ls[0]), ls[1..])
  }

  predicate Init(s: System) {
    && !s.hw.vfu && !s.hw.pfu && |s.hw.mem| == SIZE && s.hw.status <= {RSTI, RSTD} && !s.hw.req && !s.hw.ack
    && s.vf.pc == Idle && !s.vf.noticed && s.pf.pc == Idle && !s.pf.noticed
    && s.shadow == {} && s.sent == []
  }

  /** The caller of the PF's receive knows that there is a message: it consumed a notification since its
      own last message. */
  predicate PfWaits(s: System, ls: seq<Label>)
    decreases |ls|
  {
    ls == [] || (!PfReadsBlindly(s, ls[0]) && PfWaits(Apply(s, ls[0]), ls[1..]))
  }

  predicate PfReadsBlindly(s: System, l: Label) {
    Enabled(s, l) && l.Start? && l.side == Pf && l.op.Receive? && !s.pf.noticed
  }

  /** The side has confirmed the lock and not yet given it back. */
  predicate Owns(p: Party) {
    p.pc.FlushMsg? || p.pc.ClearMsg? || p.pc.FlushAck? || p.pc.ClearAck? || p.pc.Copy? || p.pc.Post? ||
        p.pc.Fetch? || p.pc.Return?
  }

  /** The whole buffer after the last completed write. */
  function LastContent(s: System, initial: seq<Word>): seq<Word> {
    if s.sent == [] then initial else s.sent[|s.sent| - 1].content
  }

  predicate LastBy(s: System, side: Side) {
    s.sent != [] && s.sent[|s.sent| - 1].from == side
  }
}
