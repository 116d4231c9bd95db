/** Mutual exclusion and accounting of the SW/FW semaphore, over every run of the machine. */
module SemaphoreSafety {
  import opened Semaphore

  // ---- the invariant ----------------------------------------------------------------------------

  /** At most one agent is inside the lock, and the register bits agree with who is. */
  ghost predicate LockInv(s: System) {
    && (forall a, b :: 0 <= a < |s.agents| && 0 <= b < |s.agents| && InLock(s.agents[a]) && InLock(s.agents[b])
          ==> a == b)
    && (forall a :: 0 <= a < |s.agents| && InLock(s.agents[a]) ==> s.dev.swsm.smbi)
    && (forall a :: 0 <= a < |s.agents| && InBoth(s.agents[a]) ==> s.dev.swsm.swesmbi)
    && (s.dev.swsm.swesmbi ==> !s.dev.fwSem && exists a :: 0 <= a < |s.agents| && InLock(s.agents[a]))
    && (s.fw.pc != FwIdle <==> s.dev.fwSem)
  }

  /** What each agent remembers between two accesses still agrees with the device. */
  ghost predicate AgentInv(s: System, a: Agent) {
    && (a.pc.LatchFw? ==> a.pc.seen.smbi)
    && (a.pc.WriteSync? ==> a.pc.sync == s.dev.sync)
    && (a.pc.WriteSync? && a.job.Acquire? ==> (s.dev.sync.sw + s.dev.sync.fw) * a.job.mask == {})
    && ((a.pc.PutRead? || a.pc.PutWrite?) && a.pc.why == Busy ==> a.job.Acquire?)
    && (a.job.Release? && a.pc != Idle && !Finishing(a) ==> a.job.mask <= a.held)
    && (a.pc != Idle ==> a.result == None && a.held == HeldWhile(a))
    && (a.pc == Idle && a.result.Some? ==> a.held == HeldAfter(a) && (a.job.Release? ==> a.result.value))
  }

  /** The resource bits of SW_FW_SYNC are exactly what the parties hold, each held once. */
  ghost predicate SyncInv(s: System) {
    && (forall r :: r in s.dev.sync.sw ==> exists a :: 0 <= a < |s.agents| && r in s.agents[a].held)
    && (forall a :: 0 <= a < |s.agents| ==> s.agents[a].held <= s.dev.sync.sw)
    && (forall a, b :: 0 <= a < b < |s.agents| ==> s.agents[a].held !! s.agents[b].held)
    && s.dev.sync.fw == s.fw.held
    && s.dev.sync.sw !! s.dev.sync.fw
    && (s.fw.pc.FwSeen? ==> s.fw.pc.sync == s.dev.sync)
  }

  ghost predicate Inv(s: System) {
    && LockInv(s)
    && SyncInv(s)
    && forall a :: 0 <= a < |s.agents| ==> AgentInv(s, s.agents[a])
  }

  /** The call has changed SW_FW_SYNC and only gives the lock back. */
  predicate Finishing(a: Agent) { (a.pc.PutRead? || a.pc.PutWrite?) && a.pc.why == Finish }

  /** What an agent holds during its call. */
  function HeldWhile(a: Agent): set<nat> {
    if !Finishing(a) then a.before else if a.job.Acquire? then a.before + a.job.mask else a.before - a.job.mask
  }

  /** What an agent holds after its call returned. */
  function HeldAfter(a: Agent): set<nat>
    requires a.result.Some?
  {
    if a.job.Release? then a.before - a.job.mask else if a.result.value then a.before + a.job.mask else a.before
  }

  // ---- preservation -----------------------------------------------------------------------------

  lemma InitInv(s: System, stuck: bool)
    requires Init(s, stuck)
    ensures Inv(s)
  {
  }

  lemma StartKeeps(cfg: Config, s: System, a: nat, job: Job)
    requires Inv(s) && Enabled(s, Start(a, job))
    ensures Inv(Apply(cfg, s, Start(a, job)))
  {
    var s' := Apply(cfg, s, Start(a, job));
    assert forall b :: 0 <= b < |s.agents| ==> s'.agents[b].held == s.agents[b].held;
    assert forall b :: 0 <= b < |s.agents| ==> InLock(s'.agents[b]) == InLock(s.agents[b]);
  }

  lemma DisjointFromEmpty(x: set<nat>, y: set<nat>)
    requires x * y == {}
    ensures forall r :: r in y ==> r !in x
  {
    assert forall r :: r in x && r in y ==> r in x * y;
  }

  lemma FirmwareKeeps(cfg: Config, s: System, l: Label)
    requires Inv(s) && Enabled(s, l) && !l.Start? && !l.Run?
    ensures Inv(Apply(cfg, s, l))
  {
    if l.FwClaim? {
      assert forall r :: r in l.mask ==> r !in s.dev.sync.sw + s.dev.sync.fw by {
        DisjointFromEmpty(s.dev.sync.sw + s.dev.sync.fw, l.mask);
      }
    }
  }

  /** An access of agent `a` to SWSM leaves the other agents and every holding alone. */
  lemma SwsmFrame(cfg: Config, s: System, a: nat)
    requires Enabled(s, Run(a)) && (ReadsSwsm(s.agents[a].pc) || WritesSwsm(s.agents[a].pc))
    ensures var s' := Apply(cfg, s, Run(a));
            && |s'.agents| == |s.agents| && s'.fw == s.fw && s'.dev.sync == s.dev.sync && s'.dev.fwSem == s.dev.fwSem
            && (forall b :: 0 <= b < |s.agents| && b != a ==> s'.agents[b] == s.agents[b])
            && (forall b :: 0 <= b < |s.agents| ==> s'.agents[b].held == s.agents[b].held)
            && s'.agents[a] == Access(cfg, s.agents[a], s.dev).0
  {
  }

  /** A read of SWSM, as far as its agent is concerned. */
  lemma ReadSwsmAgent(cfg: Config, s: System, g: Agent, v: Swsm)
    requires AgentInv(s, g) && ReadsSwsm(g.pc) && (InLock(g) ==> v.smbi)
    ensures var g' := AfterReadSwsm(cfg, g, v);
            && AgentInv(s, g') && (InLock(g) ==> InLock(g'))
            && (InLock(g') ==> InLock(g) || !v.smbi) && (InBoth(g') ==> InBoth(g) || v.swesmbi)
  {
  }

  /** Facts about an agent depend on SW_FW_SYNC only. */
  lemma SameSync(s: System, s': System, g: Agent)
    requires s'.dev.sync == s.dev.sync
    ensures AgentInv(s', g) == AgentInv(s, g)
  {
  }

  /** A read of SWSM keeps the invariant; it can only set SMBI, which nobody else then wins. */
  lemma ReadSwsmKeeps(cfg: Config, s: System, a: nat)
    requires Inv(s) && Enabled(s, Run(a)) && ReadsSwsm(s.agents[a].pc)
    ensures Inv(Apply(cfg, s, Run(a)))
  {
    var s' := Apply(cfg, s, Run(a));
    SwsmFrame(cfg, s, a);
    ReadSwsmAgent(cfg, s, s.agents[a], s.dev.swsm);
    forall b | 0 <= b < |s.agents| ensures AgentInv(s', s'.agents[b]) { SameSync(s, s', s'.agents[b]); }
    if s.dev.swsm.swesmbi {
      var w :| 0 <= w < |s.agents| && InLock(s.agents[w]);
      assert InLock(s'.agents[w]);
    }
    assert LockInv(s');
  }

  /** A write of SWSM, as far as its agent is concerned. */
  lemma WriteSwsmAgent(s: System, g: Agent)
    requires AgentInv(s, g) && WritesSwsm(g.pc)
    ensures AgentInv(s, AfterWriteSwsm(g)) && !InBoth(AfterWriteSwsm(g)) &&
            (InLock(AfterWriteSwsm(g)) <==> g.pc.LatchFw?)
  {
  }

  /** ... and what it leaves of the lock, no other agent being inside. */
  lemma WriteSwsmLock(cfg: Config, s: System, a: nat)
    requires LockInv(s) && Enabled(s, Run(a)) && WritesSwsm(s.agents[a].pc) && AgentInv(s, s.agents[a])
    requires forall b :: 0 <= b < |s.agents| && b != a ==> !InLock(s.agents[b])
    ensures LockInv(Apply(cfg, s, Run(a)))
  {
    WriteSwsmAgent(s, s.agents[a]);
    var s' := Apply(cfg, s, Run(a));
    assert s'.agents[a] == AfterWriteSwsm(s.agents[a]) && InLock(s'.agents[a]) == s.agents[a].pc.LatchFw?;
  }

  /** A write of SWSM keeps the invariant, unless it is a forced clear that hits a live holder. */
  lemma WriteSwsmKeeps(cfg: Config, s: System, a: nat)
    requires Inv(s) && Enabled(s, Run(a)) && WritesSwsm(s.agents[a].pc) && !BadForce(s, Run(a))
    ensures Inv(Apply(cfg, s, Run(a)))
  {
    var s' := Apply(cfg, s, Run(a));
    SwsmFrame(cfg, s, a);
    WriteSwsmAgent(s, s.agents[a]);
    forall b | 0 <= b < |s.agents| ensures AgentInv(s', s'.agents[b]) { SameSync(s, s', s'.agents[b]); }
    assert forall b :: 0 <= b < |s.agents| && b != a ==> !InLock(s.agents[b]);
    WriteSwsmLock(cfg, s, a);
  }

  /** The read and the write of SW_FW_SYNC keep the invariant. */
  lemma SyncAccessKeeps(cfg: Config, s: System, a: nat)
    requires Inv(s) && Enabled(s, Run(a)) && (s.agents[a].pc.ReadSync? || s.agents[a].pc.WriteSync?)
    ensures Inv(Apply(cfg, s, Run(a)))
  {
    var s' := Apply(cfg, s, Run(a));
    var me := s.agents[a];
    assert forall b :: 0 <= b < |s.agents| && b != a ==> s'.agents[b] == s.agents[b];
    assert InLock(me) && InLock(s'.agents[a]);
    assert AgentInv(s', s'.agents[a]) by { assert AgentInv(s, me); }
    if me.pc.ReadSync? {
      assert forall b :: 0 <= b < |s.agents| ==> s'.agents[b].held == s.agents[b].held;
    } else {
      SyncWriteKeeps(cfg, s, a);
    }
  }

  lemma SyncWriteKeeps(cfg: Config, s: System, a: nat)
    requires Inv(s) && Enabled(s, Run(a)) && s.agents[a].pc.WriteSync?
    ensures SyncInv(Apply(cfg, s, Run(a)))
  {
    var s' := Apply(cfg, s, Run(a));
    var me := s.agents[a];
    assert AgentInv(s, me);
    if me.job.Acquire? {
      DisjointFromEmpty(s.dev.sync.sw + s.dev.sync.fw, me.job.mask);
    }
    assert forall b :: 0 <= b < |s.agents| && b != a ==> s'.agents[b] == s.agents[b];
    forall r | r in s'.dev.sync.sw ensures exists b :: 0 <= b < |s'.agents| && r in s'.agents[b].held {
      if r in s'.agents[a].held {
      } else {
        var b :| 0 <= b < |s.agents| && r in s.agents[b].held;
        assert r in s'.agents[b].held;
      }
    }
    forall b | 0 <= b < |s.agents| && b != a ensures s.agents[b].held !! s'.agents[a].held {
      assert s.agents[b].held <= s.dev.sync.sw;
      assert s.agents[b].held !! me.held;
    }
  }

  lemma StepKeeps(cfg: Config, s: System, l: Label)
    requires Inv(s) && !BadForce(s, l)
    ensures Inv(Apply(cfg, s, l))
  {
    if Enabled(s, l) {
      match l
      case Start(a, job) => StartKeeps(cfg, s, a, job);
      case Run(a) =>
        if ReadsSwsm(s.agents[a].pc) {
          ReadSwsmKeeps(cfg, s, a);
        } else if WritesSwsm(s.agents[a].pc) {
          WriteSwsmKeeps(cfg, s, a);
        } else {
          SyncAccessKeeps(cfg, s, a);
        }
      case _ => FirmwareKeeps(cfg, s, l);
    }
  }

  lemma {:induction false} RunKeeps(cfg: Config, s: System, ls: seq<Label>)
    requires Inv(s) && Clean(cfg, s, ls)
    ensures Inv(Exec(cfg, s, ls)) && |Exec(cfg, s, ls).agents| == |s.agents|
    decreases |ls|
  {
    if ls == [] {
    } else {
      StepKeeps(cfg, s, ls[0]);
      RunKeeps(cfg, Apply(cfg, s, ls[0]), ls[1..]);
    }
  }

  // ---- main results -----------------------------------------------------------------------------

  /** In every run no resource is held by two agents, no software bit is set together with its firmware
      bit, and the register shows exactly who holds what. */
  lemma MutualExclusion(cfg: Config, s: System, stuck: bool, ls: seq<Label>)
    requires Init(s, stuck) && Clean(cfg, s, ls)
    ensures var t := Exec(cfg, s, ls);
            && (forall a, b :: 0 <= a < b < |t.agents| ==> t.agents[a].held !! t.agents[b].held)
            && (forall a :: 0 <= a < |t.agents| ==> t.agents[a].held !! t.fw.held)
            && t.dev.sync.sw !! t.dev.sync.fw
            && (forall r :: r in t.dev.sync.sw <==> exists a :: 0 <= a < |t.agents| && r in t.agents[a].held)
            && t.dev.sync.fw == t.fw.held
  {
    InitInv(s, stuck);
    RunKeeps(cfg, s, ls);
    var t := Exec(cfg, s, ls);
    forall a | 0 <= a < |t.agents| ensures t.agents[a].held !! t.fw.held {
      assert t.agents[a].held <= t.dev.sync.sw;
    }
  }

  /** A call that has returned left its agent outside the lock. An acquire that succeeded added exactly
      its mask to what the agent held, one that failed added nothing, a release took away its mask. */
  lemma CallOutcome(cfg: Config, s: System, stuck: bool, ls: seq<Label>, a: nat)
    requires Init(s, stuck) && Clean(cfg, s, ls) && a < |s.agents|
    ensures a < |Exec(cfg, s, ls).agents|
    ensures var t := Exec(cfg, s, ls);
            var me := t.agents[a];
            me.pc == Idle && me.result.Some? ==>
              && !InLock(me)
              && (me.job.Acquire? && me.result.value ==>
                 me.held == me.before + me.job.mask && me.job.mask <= t.dev.sync.sw)
              && (me.job.Acquire? && !me.result.value ==> me.held == me.before)
              && (me.job.Release? ==> me.result.value && me.held == me.before - me.job.mask && me.job.mask !! me.held)
  {
    InitInv(s, stuck);
    RunKeeps(cfg, s, ls);
    var t := Exec(cfg, s, ls);
    assert AgentInv(t, t.agents[a]);
    assert t.agents[a].held <= t.dev.sync.sw;
  }

  // ---- the semaphore bits are given back --------------------------------------------------------

  /** SMBI is set only while someone is about to clear it. */
  ghost predicate SmbiOwned(s: System) {
    s.dev.swsm.smbi ==> exists a :: 0 <= a < |s.agents| && (InLock(s.agents[a]) || s.agents[a].pc == ForceWrite)
  }

  lemma StepKeepsSmbi(cfg: Config, s: System, l: Label)
    requires Inv(s) && SmbiOwned(s) && !BadForce(s, l)
    ensures SmbiOwned(Apply(cfg, s, l))
  {
    var s' := Apply(cfg, s, l);
    if l.Run? && Enabled(s, l) {
      var a := l.a;
      assert forall b :: 0 <= b < |s.agents| && b != a ==> s'.agents[b] == s.agents[b];
      if s'.dev.swsm.smbi {
        if s.dev.swsm.smbi {
          var w :| 0 <= w < |s.agents| && (InLock(s.agents[w]) || s.agents[w].pc == ForceWrite);
          assert InLock(s.agents[a]) && !s.agents[a].pc.PutWrite? ==> InLock(s'.agents[a]);
          assert w != a ==> s'.agents[w] == s.agents[w];
        } else {
          assert ReadsSwsm(s.agents[a].pc);
          assert InLock(s'.agents[a]) || s'.agents[a].pc == ForceWrite;
        }
      }
    } else if s'.dev.swsm.smbi {
      var w :| 0 <= w < |s.agents| && (InLock(s.agents[w]) || s.agents[w].pc == ForceWrite);
      assert InLock(s'.agents[w]) || s'.agents[w].pc == ForceWrite;
    }
  }

  lemma {:induction false} RunKeepsSmbi(cfg: Config, s: System, ls: seq<Label>)
    requires Inv(s) && SmbiOwned(s) && Clean(cfg, s, ls)
    ensures SmbiOwned(Exec(cfg, s, ls))
    decreases |ls|
  {
    if ls == [] {
    } else {
      StepKeeps(cfg, s, ls[0]);
      StepKeepsSmbi(cfg, s, ls[0]);
      RunKeepsSmbi(cfg, Apply(cfg, s, ls[0]), ls[1..]);
    }
  }

  /** Whatever happened in between: once every call has returned, SMBI and SWESMBI are clear again. */
  lemma SemaphoreGivenBack(cfg: Config, s: System, ls: seq<Label>)
    requires Init(s, false) && Clean(cfg, s, ls)
    requires var t := Exec(cfg, s, ls); forall a :: 0 <= a < |t.agents| ==> t.agents[a].pc == Idle
    ensures Exec(cfg, s, ls).dev.swsm == Swsm(false, false)
  {
    InitInv(s, false);
    RunKeeps(cfg, s, ls);
    RunKeepsSmbi(cfg, s, ls);
  }

  // ---- the forced clear of the i210 -------------------------------------------------------------

  /** The parts without the forced clear never reach it, so every one of their runs is clean. */
  lemma {:induction false} GenericRunsAreClean(cfg: Config, s: System, ls: seq<Label>)
    requires !cfg.i210
    requires forall a :: 0 <= a < |s.agents| ==> !s.agents[a].pc.ForceRead? && !s.agents[a].pc.ForceWrite?
    ensures Clean(cfg, s, ls)
    decreases |ls|
  {
    if ls == [] {
    } else {
      GenericRunsAreClean(cfg, Apply(cfg, s, ls[0]), ls[1..]);
    }
  }

  /** A forced clear keeps the invariant exactly when no other agent is inside the lock at that moment. */
  lemma ForcedClearIsSafeIff(cfg: Config, s: System, a: nat)
    requires Inv(s) && a < |s.agents| && s.agents[a].pc == ForceWrite
    ensures Inv(Apply(cfg, s, Run(a))) <==> !LiveHolder(s, a)
  {
    var s' := Apply(cfg, s, Run(a));
    if LiveHolder(s, a) {
      var b :| 0 <= b < |s.agents| && b != a && InLock(s.agents[b]);
      assert InLock(s'.agents[b]) && !s'.dev.swsm.smbi;
    } else {
      WriteSwsmKeeps(cfg, s, a);
    }
  }

  /** How often agent `a` performs the write of a forced clear in a run. */
  function ForcedClears(cfg: Config, s: System, ls: seq<Label>, a: nat): nat
    decreases |ls|
  {
    if ls == [] then 0 else
    (if ls[0] == Run(a) && a < |s.agents| && s.agents[a].pc == ForceWrite then 1 else 0)
    + ForcedClears(cfg, Apply(cfg, s, ls[0]), ls[1..], a)
  }

  /** Clears the agent may still perform. */
  function ClearsLeft(a: Agent): nat {
    if a.clearOnce || a.pc == ForceRead || a.pc == ForceWrite then 1 else 0
  }

  /** The one-shot flag is used up before the clear begins. */
  predicate FlagInv(s: System, a: nat) {
    a < |s.agents| && ((s.agents[a].pc == ForceRead || s.agents[a].pc == ForceWrite) ==> !s.agents[a].clearOnce)
  }

  lemma {:induction false} ForcedClearsBounded(cfg: Config, s: System, ls: seq<Label>, a: nat)
    requires FlagInv(s, a)
    ensures ForcedClears(cfg, s, ls, a) <= ClearsLeft(s.agents[a])
    decreases |ls|
  {
    if ls == [] {
    } else {
      var s' := Apply(cfg, s, ls[0]);
      assert !(ls[0] == Run(a) || (ls[0].Start? && ls[0].a == a)) ==> s'.agents[a] == s.agents[a];
      ForcedClearsBounded(cfg, s', ls[1..], a);
    }
  }

  /** After initialisation an agent forces the semaphore at most once in any run, whatever the others do. */
  lemma ForcedClearAtMostOnce(cfg: Config, s: System, stuck: bool, ls: seq<Label>, a: nat)
    requires Init(s, stuck) && a < |s.agents|
    ensures ForcedClears(cfg, s, ls, a) <= 1
    ensures !s.agents[a].clearOnce ==> ForcedClears(cfg, s, ls, a) == 0
  {
    ForcedClearsBounded(cfg, s, ls, a);
  }

  // ---- bounded polling --------------------------------------------------------------------------

  /** Loop counters stay below their limits. */
  predicate Counting(cfg: Config, a: Agent) {
    && cfg.Valid()
    && a.round < ROUNDS
    && (a.pc.PollSmbi? || a.pc.PollAgain? || a.pc.ReadSwsm? || a.pc.LatchFw? || a.pc.CheckFw? ==> a.pc.i < cfg.limit)
  }

  /** Register accesses one round of acquire can take at most. */
  function RoundCost(cfg: Config): nat { 5 * cfg.limit + 7 }

  function RoundsCost(cfg: Config, rounds: nat): nat {
    if rounds == 0 then 0 else RoundsCost(cfg, rounds - 1) + RoundCost(cfg)
  }

  /** Accesses left in the current round at most. */
  function Phase(cfg: Config, a: Agent): nat
    requires Counting(cfg, a)
  {
    match a.pc
    case Idle => 0
    case PollSmbi(i) => (cfg.limit - i) + (if cfg.i210 && a.clearOnce then 2 + cfg.limit else 0) + 3 * cfg.limit + 5
    case ForceRead => 4 * cfg.limit + 7
    case ForceWrite => 4 * cfg.limit + 6
    case PollAgain(i) => (cfg.limit - i) + 3 * cfg.limit + 5
    case ReadSwsm(i) => 3 * (cfg.limit - i) + 5
    case LatchFw(i, _) => 3 * (cfg.limit - i) + 4
    case CheckFw(i) => 3 * (cfg.limit - i) + 3
    case ReadSync => 4
    case WriteSync(_) => 3
    case PutRead(_) => 2
    case PutWrite(_) => 1
  }

  /** Accesses an acquire call still needs at most. */
  function AccessesLeft(cfg: Config, a: Agent): nat
    requires Counting(cfg, a)
  {
    RoundsCost(cfg, ROUNDS - 1 - a.round) + Phase(cfg, a)
  }

  /** Whatever the device answers, each access of an acquire brings it closer to its return. */
  lemma AccessMakesProgress(cfg: Config, a: Agent, d: Device)
    requires Counting(cfg, a) && a.pc != Idle && a.job.Acquire?
    ensures var a' := Access(cfg, a, d).0;
            Counting(cfg, a') && a'.job == a.job && (a'.pc == Idle || AccessesLeft(cfg, a') < AccessesLeft(cfg, a))
  {
    var a' := Access(cfg, a, d).0;
    assert a'.round != a.round ==> a'.round == a.round + 1 && a.pc == PutWrite(Busy);
  }

  /** Own accesses of agent `a` in a run. */
  function OwnAccesses(ls: seq<Label>, a: nat): nat {
    if ls == [] then 0 else (if ls[0] == Run(a) then 1 else 0) + OwnAccesses(ls[1..], a)
  }

  lemma {:induction false} AcquireReturns(cfg: Config, s: System, ls: seq<Label>, a: nat) returns (k: nat)
    requires a < |s.agents| && s.agents[a].pc != Idle && s.agents[a].job.Acquire? && Counting(cfg, s.agents[a])
    requires AccessesLeft(cfg, s.agents[a]) <= OwnAccesses(ls, a)
    ensures k <= |ls| && a < |Exec(cfg, s, ls[..k]).agents| && Exec(cfg, s, ls[..k]).agents[a].pc == Idle
    decreases |ls|
  {
    assert 0 < Phase(cfg, s.agents[a]);
    var s' := Apply(cfg, s, ls[0]);
    if ls[0] == Run(a) {
      AccessMakesProgress(cfg, s.agents[a], s.dev);
    } else {
      assert s'.agents[a] == s.agents[a];
    }
    var j: nat;
    if s'.agents[a].pc == Idle {
      j := 0;
    } else {
      j := AcquireReturns(cfg, s', ls[1..], a);
    }
    k := j + 1;
    assert ls[..k][0] == ls[0] && ls[..k][1..] == ls[1..][..j];
    assert Exec(cfg, s, ls[..k]) == Exec(cfg, s', ls[1..][..j]);
  }

  lemma {:induction false} RoundsCostIsProduct(cfg: Config, rounds: nat)
    ensures RoundsCost(cfg, rounds) == rounds * RoundCost(cfg)
  {
    if rounds == 0 {
    } else {
      RoundsCostIsProduct(cfg, rounds - 1);
      assert (rounds - 1) * RoundCost(cfg) + RoundCost(cfg) == rounds * RoundCost(cfg);
    }
  }

  /** An acquire call returns within ROUNDS * (5 * limit + 7) of its own register accesses, however the
      other agents and the firmware interleave with it. */
  lemma AcquireIsBounded(cfg: Config, s: System, ls: seq<Label>, a: nat, mask: set<nat>)
    requires cfg.Valid() && a < |s.agents| && s.agents[a].pc == Idle
    requires ROUNDS * RoundCost(cfg) <= OwnAccesses(ls, a)
    ensures exists k :: 0 <= k <= |ls| &&
              var t := Exec(cfg, Apply(cfg, s, Start(a, Acquire(mask))), ls[..k]);
              a < |t.agents| && t.agents[a].pc == Idle
  {
    var s' := Apply(cfg, s, Start(a, Acquire(mask)));
    RoundsCostIsProduct(cfg, ROUNDS);
    assert RoundsCost(cfg, ROUNDS) == RoundsCost(cfg, ROUNDS - 1) + RoundCost(cfg);
    var k := AcquireReturns(cfg, s', ls, a);
  }

  // ---- why the condition on the forced clear is needed ------------------------------------------

  lemma {:induction false} Extend(cfg: Config, s: System, ls: seq<Label>, l: Label)
    ensures Exec(cfg, s, ls + [l]) == Apply(cfg, Exec(cfg, s, ls), l)
    decreases |ls|
  {
    if ls == [] {
      assert (ls + [l])[1..] == [];
    } else {
      Extend(cfg, Apply(cfg, s, ls[0]), ls[1..], l);
      assert (ls + [l])[1..] == ls[1..] + [l];
    }
  }

  lemma Then(cfg: Config, s: System, ls: seq<Label>, l: Label) returns (ls': seq<Label>)
    ensures Exec(cfg, s, ls') == Apply(cfg, Exec(cfg, s, ls), l)
  {
    Extend(cfg, s, ls, l);
    ls' := ls + [l];
  }

  /** Four accesses take an agent through the free lock. */
  lemma PassFreeLock(cfg: Config, s: System, ls: seq<Label>, a: nat) returns (ls': seq<Label>)
    requires var t := Exec(cfg, s, ls);
             && a < |t.agents| && (t.agents[a].pc.PollSmbi? || t.agents[a].pc.PollAgain?)
             && t.dev.swsm == Swsm(false, false) && !t.dev.fwSem
    ensures var t := Exec(cfg, s, ls);
            Exec(cfg, s, ls') == t.(dev := t.dev.(swsm := Swsm(true, true)),
                                    agents := t.agents[a := t.agents[a].(pc := ReadSync)])
  {
    var t := Exec(cfg, s, ls);
    ls' := Then(cfg, s, ls, Run(a));
    assert Exec(cfg, s, ls').agents[a].pc == ReadSwsm(0);
    ls' := Then(cfg, s, ls', Run(a));
    assert Exec(cfg, s, ls').agents[a].pc == LatchFw(0, Swsm(true, false));
    ls' := Then(cfg, s, ls', Run(a));
    assert Exec(cfg, s, ls').agents[a].pc == CheckFw(0);
    ls' := Then(cfg, s, ls', Run(a));
    assert Exec(cfg, s, ls').agents == t.agents[a := t.agents[a].(pc := ReadSync)];
  }

  /** The polls from number `i` on fail, and the agent is about to force the semaphore. */
  lemma {:induction false} PollsFail(cfg: Config, s: System, ls: seq<Label>, a: nat, i: nat) returns (ls': seq<Label>)
    requires cfg.i210 && i < cfg.limit
    requires var t := Exec(cfg, s, ls);
             && a < |t.agents| && t.agents[a].pc == PollSmbi(i) && t.agents[a].clearOnce &&
                t.dev.swsm == Swsm(true, true)
    ensures var t := Exec(cfg, s, ls);
            Exec(cfg, s, ls') == t.(agents := t.agents[a := t.agents[a].(pc := ForceRead, clearOnce := false)])
    decreases cfg.limit - i
  {
    var t := Exec(cfg, s, ls);
    ls' := Then(cfg, s, ls, Run(a));
    if i + 1 < cfg.limit {
      assert Exec(cfg, s, ls').agents == t.agents[a := t.agents[a].(pc := PollSmbi(i + 1))];
      ls' := PollsFail(cfg, s, ls', a, i + 1);
    } else {
      assert Exec(cfg, s, ls').agents == t.agents[a := t.agents[a].(pc := ForceRead, clearOnce := false)];
    }
  }

  /** All polls fail, then the two accesses of the forced clear. */
  lemma ForceLock(cfg: Config, s: System, ls: seq<Label>, a: nat) returns (ls': seq<Label>)
    requires var t := Exec(cfg, s, ls);
             && cfg.Valid() && cfg.i210 && a < |t.agents| && t.agents[a].pc == PollSmbi(0) && t.agents[a].clearOnce
             && t.dev.swsm == Swsm(true, true)
    ensures var t := Exec(cfg, s, ls);
            Exec(cfg, s, ls') == t.(dev := t.dev.(swsm := Swsm(false, false)),
                                    agents := t.agents[a := t.agents[a].(pc := PollAgain(0), clearOnce := false)])
  {
    var t := Exec(cfg, s, ls);
    ls' := PollsFail(cfg, s, ls, a, 0);
    ls' := Then(cfg, s, ls', Run(a));
    assert Exec(cfg, s, ls').agents[a].pc == ForceWrite;
    ls' := Then(cfg, s, ls', Run(a));
    assert Exec(cfg, s, ls').agents == t.agents[a := t.agents[a].(pc := PollAgain(0), clearOnce := false)];
  }

  /** Agent 1 has read SW_FW_SYNC for an acquire and not written it back. */
  lemma FirstHasRead(cfg: Config, s: System, idle: Agent) returns (ls: seq<Label>)
    requires cfg.Valid() && idle == Agent(Idle, Release({}), 0, {}, {}, None, true)
    requires s == System(Device(Swsm(false, false), false, Sync({}, {})), [idle, idle], Firmware(FwIdle, {}))
    ensures var t := Exec(cfg, s, ls);
            && t.dev == Device(Swsm(true, true), false, Sync({}, {})) && t.fw == s.fw && |t.agents| == 2 &&
               t.agents[0] == idle
            && t.agents[1].pc == WriteSync(Sync({}, {})) && t.agents[1].job == Acquire({0}) && t.agents[1].held == {}
  {
    ls := Then(cfg, s, [], Start(1, Acquire({0})));
    ls := PassFreeLock(cfg, s, ls, 1);
    ls := Then(cfg, s, ls, Run(1));
  }

  /** However long the polling, agent 0 then gives up waiting, forces the semaphore and takes the same
      resource; when agent 1 writes back what it read, both calls hold resource 0. */
  lemma ForcedClearCanBreakExclusion(cfg: Config) returns (s: System, ls: seq<Label>)
    requires cfg.Valid() && cfg.i210
    ensures Init(s, false) && |s.agents| == 2
    ensures var t := Exec(cfg, s, ls);
            |t.agents| == 2 && t.agents[0].held == {0} && t.agents[1].held == {0}
  {
    var idle := Agent(Idle, Release({}), 0, {}, {}, None, true);
    s := System(Device(Swsm(false, false), false, Sync({}, {})), [idle, idle], Firmware(FwIdle, {}));
    ls := FirstHasRead(cfg, s, idle);
    var one := Exec(cfg, s, ls).agents[1];
    ls := Then(cfg, s, ls, Start(0, Acquire({0})));
    ls := ForceLock(cfg, s, ls, 0);
    ls := PassFreeLock(cfg, s, ls, 0);
    var t := Exec(cfg, s, ls);
    assert t.agents[0].pc == ReadSync && t.agents[0].job == Acquire({0}) && t.agents[0].held == {};
    assert t.agents[1] == one && t.dev.sync == Sync({}, {});
    ls := SecondTakes(cfg, s, ls, one);
  }

  lemma SecondTakes(cfg: Config, s: System, ls: seq<Label>, one: Agent) returns (ls': seq<Label>)
    requires var t := Exec(cfg, s, ls);
             && |t.agents| == 2 && t.agents[1] == one && t.dev.sync == Sync({}, {})
             && t.agents[0].pc == ReadSync && t.agents[0].job == Acquire({0}) && t.agents[0].held == {}
    requires one.pc == WriteSync(Sync({}, {})) && one.job == Acquire({0}) && one.held == {}
    ensures var t := Exec(cfg, s, ls'); |t.agents| == 2 && t.agents[0].held == {0} && t.agents[1].held == {0}
  {
    ls' := Then(cfg, s, ls, Run(0));
    ls' := Then(cfg, s, ls', Run(0));
    ls' := Then(cfg, s, ls', Run(1));
  }
}
