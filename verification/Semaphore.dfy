/** The SW/FW semaphore as a state machine over single register accesses.

    Any number of software agents (ports and drivers) and the firmware share two registers. SWSM holds
    SMBI, which arbitrates between software agents, and SWESMBI, which arbitrates between software and
    firmware. SW_FW_SYNC holds one bit per resource and side; it is changed by a plain read followed by
    a plain write of the whole register. One step of the machine is one access by one party. */
module Semaphore {

  datatype Option<+T> = None | Some(value: T)

  /** The value of SWSM as far as the semaphore uses it. */
  datatype Swsm = Swsm(smbi: bool, swesmbi: bool)

  /** SW_FW_SYNC: the resource bits of the software half and of the firmware half, by resource number. */
  datatype Sync = Sync(sw: set<nat>, fw: set<nat>)

  /** The two registers, and whether the firmware holds its side of the SWESMBI arbitration. */
  datatype Device = Device(swsm: Swsm, fwSem: bool, sync: Sync)

  /** `limit` bounds both polling loops of get_hw_semaphore (E1000_SWSM_TIMEOUT, or word_size + 1 on the
      i210); `i210` enables the one-shot forced clear. */
  datatype Config = Config(limit: nat, i210: bool) {
    predicate Valid() { 1 <= limit }
  }

  /** Rounds of acquire_swfw_sync. */
  const ROUNDS: nat := 200

  datatype Job = Acquire(mask: set<nat>) | Release(mask: set<nat>)

  /** Why put_hw_semaphore runs: the resource was busy, the firmware bit did not latch, or all is done. */
  datatype Why = Busy | GaveUp | Finish

  /** The next register access of a software agent. */
  datatype Pc =
    | Idle
    | PollSmbi(i: nat)
    | ForceRead
    | ForceWrite
    | PollAgain(i: nat)
    | ReadSwsm(i: nat)
    | LatchFw(i: nat, seen: Swsm)
    | CheckFw(i: nat)
    | ReadSync
    | WriteSync(sync: Sync)
    | PutRead(why: Why)
    | PutWrite(why: Why)

  /** A software agent: its call in progress (or last call), the round of the acquire loop, the resources
      it holds, what it held when the call began, how the call ended, and the one-shot flag. */
  datatype Agent = Agent(pc: Pc, job: Job, round: nat, held: set<nat>, before: set<nat>,
                         result: Option<bool>, clearOnce: bool)

  datatype FwPc = FwIdle | FwHave | FwSeen(sync: Sync)

  datatype Firmware = Firmware(pc: FwPc, held: set<nat>)

  datatype System = System(dev: Device, agents: seq<Agent>, fw: Firmware)

  datatype Label =
    | Start(a: nat, job: Job)
    | Run(a: nat)
    | FwTake
    | FwRead
    | FwClaim(mask: set<nat>)
    | FwYield(mask: set<nat>)
    | FwDrop

  // ---- the device -------------------------------------------------------------------------------

  /** Reading SWSM returns its value and sets SMBI. */
  function OnReadSwsm(d: Device): Device { d.(swsm := d.swsm.(smbi := true)) }

  /** Writing SWSM: SMBI can only be cleared, SWESMBI latches only while the firmware does not hold it. */
  function OnWriteSwsm(d: Device, v: Swsm): Device {
    d.(swsm := Swsm(d.swsm.smbi && v.smbi, v.swesmbi && !d.fwSem))
  }

  // ---- a software agent -------------------------------------------------------------------------

  predicate ReadsSwsm(pc: Pc) {
    pc.PollSmbi? || pc.ForceRead? || pc.PollAgain? || pc.ReadSwsm? || pc.CheckFw? || pc.PutRead?
  }

  predicate WritesSwsm(pc: Pc) { pc.ForceWrite? || pc.LatchFw? || pc.PutWrite? }

  /** get_hw_semaphore failed: an acquire returns an error, a release tries again. */
  function GetFailed(a: Agent): Agent {
    if a.job.Acquire? then a.(pc := Idle, result := Some(false)) else a.(pc := PollSmbi(0))
  }

  /** What an agent does next after a read of SWSM returned `v`. */
  function AfterReadSwsm(cfg: Config, a: Agent, v: Swsm): Agent
    requires ReadsSwsm(a.pc)
  {
    match a.pc
    case PollSmbi(i) =>
      if !v.smbi then a.(pc := ReadSwsm(0))
      else if i + 1 < cfg.limit then a.(pc := PollSmbi(i + 1))
      else if cfg.i210 && a.clearOnce then a.(pc := ForceRead, clearOnce := false)
      else GetFailed(a)
    case ForceRead => a.(pc := ForceWrite)
    case PollAgain(i) =>
      if !v.smbi then a.(pc := ReadSwsm(0))
      else if i + 1 < cfg.limit then a.(pc := PollAgain(i + 1))
      else GetFailed(a)
    case ReadSwsm(i) => a.(pc := LatchFw(i, v))
    case CheckFw(i) =>
      if v.swesmbi then a.(pc := ReadSync)
      else if i + 1 < cfg.limit then a.(pc := ReadSwsm(i + 1))
      else a.(pc := PutRead(GaveUp))
    case PutRead(why) => a.(pc := PutWrite(why))
  }

  /** The value an agent writes to SWSM. */
  function SwsmToWrite(pc: Pc): Swsm
    requires WritesSwsm(pc)
  {
    if pc.LatchFw? then pc.seen.(swesmbi := true) else Swsm(false, false)
  }

  function AfterWriteSwsm(a: Agent): Agent
    requires WritesSwsm(a.pc)
  {
    match a.pc
    case ForceWrite => a.(pc := PollAgain(0))
    case LatchFw(i, _) => a.(pc := CheckFw(i))
    case PutWrite(why) =>
      match why
      case Finish => a.(pc := Idle, result := Some(true))
      case GaveUp => GetFailed(a)
      case Busy =>
        if a.round + 1 < ROUNDS then a.(pc := PollSmbi(0), round := a.round + 1)
        else a.(pc := Idle, result := Some(false))
  }

  function AfterReadSync(a: Agent, v: Sync): Agent {
    if a.job.Acquire? && (v.sw + v.fw) * a.job.mask != {} then a.(pc := PutRead(Busy))
    else a.(pc := WriteSync(v))
  }

  /** The value an agent writes to SW_FW_SYNC, computed from the value it read before. */
  function SyncToWrite(a: Agent): Sync
    requires a.pc.WriteSync?
  {
    var s := a.pc.sync;
    if a.job.Acquire? then s.(sw := s.sw + a.job.mask) else s.(sw := s.sw - a.job.mask)
  }

  function AfterWriteSync(a: Agent): Agent {
    a.(pc := PutRead(Finish), held := if a.job.Acquire? then a.held + a.job.mask else a.held - a.job.mask)
  }

  /** One register access of an agent with a call in progress. */
  function Access(cfg: Config, a: Agent, d: Device): (Agent, Device)
    requires a.pc != Idle
  {
    if ReadsSwsm(a.pc) then (AfterReadSwsm(cfg, a, d.swsm), OnReadSwsm(d))
    else if WritesSwsm(a.pc) then (AfterWriteSwsm(a), OnWriteSwsm(d, SwsmToWrite(a.pc)))
    else if a.pc.ReadSync? then (AfterReadSync(a, d.sync), d)
    else (AfterWriteSync(a), d.(sync := SyncToWrite(a)))
  }

  function Begin(a: Agent, job: Job): Agent {
    a.(pc := PollSmbi(0), job := job, round := 0, before := a.held, result := None)
  }

  // ---- the whole system -------------------------------------------------------------------------

  /** A caller may ask for any mask, and may give back only what it holds. The firmware follows the same
      discipline on its own half of SW_FW_SYNC. */
  predicate Enabled(s: System, l: Label) {
    match l
    case Start(a, job) =>
      a < |s.agents| && s.agents[a].pc == Idle && (job.Release? ==> job.mask <= s.agents[a].held)
    case Run(a) => a < |s.agents| && s.agents[a].pc != Idle
    case FwTake => s.fw.pc == FwIdle && !s.dev.swsm.swesmbi
    case FwRead => s.fw.pc == FwHave
    case FwClaim(mask) => s.fw.pc.FwSeen? && (s.fw.pc.sync.sw + s.fw.pc.sync.fw) * mask == {}
    case FwYield(mask) => s.fw.pc.FwSeen? && mask <= s.fw.held
    case FwDrop => s.fw.pc == FwHave
  }

  /** One step; a label that is not enabled changes nothing. */
  function Apply(cfg: Config, s: System, l: Label): System {
    if !Enabled(s, l) then s else
    match l
    case Start(a, job) => s.(agents := s.agents[a := Begin(s.agents[a], job)])
    case Run(a) =>
      var (agent, dev) := Access(cfg, s.agents[a], s.dev);
      s.(dev := dev, agents := s.agents[a := agent])
    case FwTake => s.(dev := s.dev.(fwSem := true), fw := s.fw.(pc := FwHave))
    case FwRead => s.(fw := s.fw.(pc := FwSeen(s.dev.sync)))
    case FwClaim(mask) =>
      s.(dev := s.dev.(sync := s.fw.pc.sync.(fw := s.fw.pc.sync.fw + mask)),
         fw := Firmware(FwHave, s.fw.held + mask))
    case FwYield(mask) =>
      s.(dev := s.dev.(sync := s.fw.pc.sync.(fw := s.fw.pc.sync.fw - mask)),
         fw := Firmware(FwHave, s.fw.held - mask))
    case FwDrop => s.(dev := s.dev.(fwSem := false), fw := s.fw.(pc := FwIdle))
  }

  /** The state after a run. */
  function Exec(cfg: Config, s: System, ls: seq<Label>): System
    decreases |ls|
  {
    if ls == [] then s else Exec(cfg, Apply(cfg, s, ls[0]), ls[1..])
  }

  /** Nobody holds anything. `stuck` lets SMBI start out set although no agent holds it, the situation
      the forced clear of the i210 exists for. */
  predicate Init(s: System, stuck: bool) {
    && s.dev == Device(Swsm(stuck, false), false, Sync({}, {}))
    && s.fw == Firmware(FwIdle, {})
    && forall a :: 0 <= a < |s.agents| ==>
       s.agents[a].pc == Idle && s.agents[a].held == {} && s.agents[a].result == None
  }

  /** The agent is between winning SMBI and giving it back. */
  predicate InLock(a: Agent) {
    a.pc.ReadSwsm? || a.pc.LatchFw? || a.pc.CheckFw? || InBoth(a) || a.pc.PutRead? || a.pc.PutWrite?
  }

  /** The agent holds SMBI and SWESMBI. */
  predicate InBoth(a: Agent) {
    a.pc.ReadSync? || a.pc.WriteSync? || ((a.pc.PutRead? || a.pc.PutWrite?) && a.pc.why != GaveUp)
  }

  /** Some agent other than `a` is inside the two-level lock. */
  predicate LiveHolder(s: System, a: nat) {
    exists b :: 0 <= b < |s.agents| && b != a && InLock(s.agents[b])
  }

  /** The step is the write of a forced clear while another agent is inside the lock. */
  predicate BadForce(s: System, l: Label) {
    l.Run? && l.a < |s.agents| && s.agents[l.a].pc == ForceWrite && LiveHolder(s, l.a)
  }

  /** No forced clear of the run hits a live holder. */
  predicate Clean(cfg: Config, s: System, ls: seq<Label>)
    decreases |ls|
  {
    ls == [] || (!BadForce(s, ls[0]) && Clean(cfg, Apply(cfg, s, ls[0]), ls[1..]))
  }
}
