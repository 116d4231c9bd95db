/** get_hw_semaphore, put_hw_semaphore, acquire_swfw_sync and release_swfw_sync in their own form: loops
    over register accesses. Between two accesses the other agents and the firmware take any number of
    steps. Every access of the code is one step of the machine in Semaphore, so the results over all
    runs in SemaphoreSafety apply to this code. */
module SemaphoreDriver {
  import opened Semaphore
  import opened SemaphoreSafety

  /** What an agent holds nobody else holds, and the register says so. */
  lemma HoldsAlone(cfg: Config, start: System, trace: seq<Label>, me: nat, mask: set<nat>)
    requires Init(start, start.dev.swsm.smbi) && Clean(cfg, start, trace) && me < |Exec(cfg, start, trace).agents|
    requires mask <= Exec(cfg, start, trace).agents[me].held
    ensures var s := Exec(cfg, start, trace);
            && mask <= s.dev.sync.sw && mask !! s.dev.sync.fw
            && forall b :: 0 <= b < |s.agents| && b != me ==> s.agents[b].held !! mask
  {
    InitInv(start, start.dev.swsm.smbi);
    RunKeeps(cfg, start, trace);
    var s := Exec(cfg, start, trace);
    forall b | 0 <= b < |s.agents| && b != me ensures s.agents[b].held !! mask {
      assert s.agents[b].held !! s.agents[me].held;
    }
  }

  // ---- what an agent saw ------------------------------------------------------------------------

  /** The values of SWSM that agent `me` read in a run, oldest first. */
  ghost function SwsmReads(cfg: Config, s: System, ls: seq<Label>, me: nat): seq<Swsm>
    decreases |ls|
  {
    if ls == [] then [] else
    (if SwsmRead(s, ls[0], me) then [s.dev.swsm] else []) + SwsmReads(cfg, Apply(cfg, s, ls[0]), ls[1..], me)
  }

  ghost predicate SwsmRead(s: System, l: Label, me: nat) {
    l == Run(me) && me < |s.agents| && ReadsSwsm(s.agents[me].pc)
  }

  /** The values of SW_FW_SYNC that agent `me` read in a run, oldest first. */
  ghost function SyncReads(cfg: Config, s: System, ls: seq<Label>, me: nat): seq<Sync>
    decreases |ls|
  {
    if ls == [] then [] else
    (if SyncRead(s, ls[0], me) then [s.dev.sync] else []) + SyncReads(cfg, Apply(cfg, s, ls[0]), ls[1..], me)
  }

  ghost predicate SyncRead(s: System, l: Label, me: nat) {
    l == Run(me) && me < |s.agents| && s.agents[me].pc == Pc.ReadSync
  }

  /** `sys` is the state after the run, and these are the values `me` read in it. */
  ghost predicate Recorded(cfg: Config, start: System, trace: seq<Label>, me: nat, sys: System,
                           swsms: seq<Swsm>, syncs: seq<Sync>)
  {
    && cfg.Valid()
    && Init(start, start.dev.swsm.smbi)
    && sys == Exec(cfg, start, trace)
    && swsms == SwsmReads(cfg, start, trace, me)
    && syncs == SyncReads(cfg, start, trace, me)
  }

  lemma {:induction false} ReadsExtend(cfg: Config, s: System, ls: seq<Label>, l: Label, me: nat)
    ensures var t := Exec(cfg, s, ls);
            && SwsmReads(cfg, s, ls + [l], me)
               == SwsmReads(cfg, s, ls, me) + (if SwsmRead(t, l, me) then [t.dev.swsm] else [])
            && SyncReads(cfg, s, ls + [l], me)
               == SyncReads(cfg, s, ls, me) + (if SyncRead(t, l, me) then [t.dev.sync] else [])
    decreases |ls|
  {
    if ls == [] {
      assert (ls + [l])[1..] == [];
    } else {
      assert (ls + [l])[0] == ls[0] && (ls + [l])[1..] == ls[1..] + [l];
      ReadsExtend(cfg, Apply(cfg, s, ls[0]), ls[1..], l, me);
    }
  }

  /** `limit` polls, each of which showed SMBI. */
  ghost predicate PollsLost(r: seq<Swsm>, limit: nat) {
    |r| == limit && forall i :: 0 <= i < |r| ==> r[i].smbi
  }

  /** At most `limit` polls, of which the last alone did not show SMBI. */
  ghost predicate PollsWon(r: seq<Swsm>, limit: nat) {
    1 <= |r| <= limit && !r[|r| - 1].smbi && forall i :: 0 <= i < |r| - 1 ==> r[i].smbi
  }

  /** SMBI was not won: all polls showed it, and so did all of a second round if the forced clear was
      there to be used. The clear itself reads SWSM once. */
  ghost predicate SmbiLost(r: seq<Swsm>, limit: nat, force: bool) {
    if force then limit < |r| && PollsLost(r[..limit], limit) && PollsLost(r[limit + 1..], limit)
    else PollsLost(r, limit)
  }

  ghost predicate SmbiWon(r: seq<Swsm>, limit: nat, force: bool) {
    PollsWon(r, limit) || (force && limit < |r| && PollsLost(r[..limit], limit) && PollsWon(r[limit + 1..], limit))
  }

  /** `limit` times the register was read, written and read back without SWESMBI; then the semaphore was
      given back, which reads once more. */
  ghost predicate ChecksLost(r: seq<Swsm>, limit: nat) {
    |r| == 2 * limit + 1 && forall i :: 0 <= i < limit ==> NotLatched(r, i)
  }

  /** The first read back that showed SWESMBI was the last read. */
  ghost predicate ChecksWon(r: seq<Swsm>, limit: nat) {
    && 2 <= |r| <= 2 * limit && |r| % 2 == 0
    && r[|r| - 1].swesmbi
    && forall i :: 0 <= i < |r| / 2 - 1 ==> NotLatched(r, i)
  }

  ghost predicate NotLatched(r: seq<Swsm>, i: nat)
    requires 2 * i + 1 < |r|
  {
    !r[2 * i + 1].swesmbi
  }

  /** What get_hw_semaphore read when it failed, and when it succeeded. */
  ghost predicate GetLost(r: seq<Swsm>, limit: nat, force: bool) {
    || SmbiLost(r, limit, force)
    || exists k :: 0 <= k <= |r| && SmbiWon(r[..k], limit, force) && ChecksLost(r[k..], limit)
  }

  ghost predicate GetWon(r: seq<Swsm>, limit: nat, force: bool) {
    exists k :: 0 <= k <= |r| && SmbiWon(r[..k], limit, force) && ChecksWon(r[k..], limit)
  }

  /** One more poll of a round. */
  lemma Polled(from: seq<Swsm>, was: seq<Swsm>, v: Swsm, i: nat, limit: nat)
    requires from <= was && PollsLost(was[|from|..], i) && i < limit
    ensures from <= was + [v]
    ensures v.smbi ==> PollsLost((was + [v])[|from|..], i + 1)
    ensures !v.smbi ==> PollsWon((was + [v])[|from|..], limit)
  {
    assert (was + [v])[|from|..] == was[|from|..] + [v];
  }

  /** The forced clear and the second round behind a lost first round. */
  lemma Forced(was: seq<Swsm>, lost: seq<Swsm>, from: seq<Swsm>, now: seq<Swsm>, limit: nat)
    requires was <= lost <= from <= now && PollsLost(lost[|was|..], limit) && |from| == |lost| + 1
    ensures PollsLost(now[|from|..], limit) ==> SmbiLost(now[|was|..], limit, true)
    ensures PollsWon(now[|from|..], limit) ==> SmbiWon(now[|was|..], limit, true)
  {
    var r := now[|was|..];
    assert r[..limit] == lost[|was|..] && r[limit + 1..] == now[|from|..];
  }

  /** `i` checks without SWESMBI. */
  ghost predicate Checking(from: seq<Swsm>, now: seq<Swsm>, i: nat) {
    from <= now && |now| == |from| + 2 * i && forall j :: 0 <= j < i ==> NotLatched(now[|from|..], j)
  }

  /** One more check. */
  lemma Checked(from: seq<Swsm>, was: seq<Swsm>, u: Swsm, v: Swsm, i: nat, limit: nat)
    requires Checking(from, was, i) && i < limit
    ensures !v.swesmbi ==> Checking(from, was + [u] + [v], i + 1)
    ensures v.swesmbi ==> from <= was + [u] + [v] && ChecksWon((was + [u] + [v])[|from|..], limit)
  {
    var r := (was + [u] + [v])[|from|..];
    assert r == was[|from|..] + [u, v];
    forall j | 0 <= j < i ensures NotLatched(r, j) {
      assert NotLatched(was[|from|..], j);
    }
  }

  /** All checks failed, and the semaphore was given back. */
  lemma NoneLatched(from: seq<Swsm>, was: seq<Swsm>, now: seq<Swsm>, limit: nat)
    requires Checking(from, was, limit) && was <= now && |now| == |was| + 1
    ensures ChecksLost(now[|from|..], limit)
  {
    forall j | 0 <= j < limit ensures NotLatched(now[|from|..], j) {
      assert NotLatched(was[|from|..], j);
    }
  }

  /** The reads of the two parts of get_hw_semaphore are the reads of the call. */
  lemma Joined(was: seq<Swsm>, from: seq<Swsm>, now: seq<Swsm>, limit: nat, force: bool)
    requires was <= from <= now && SmbiWon(from[|was|..], limit, force)
    ensures ChecksLost(now[|from|..], limit) ==> GetLost(now[|was|..], limit, force)
    ensures ChecksWon(now[|from|..], limit) ==> GetWon(now[|was|..], limit, force)
  {
    var r, k := now[|was|..], |from| - |was|;
    assert r[..k] == from[|was|..] && r[k..] == now[|from|..];
  }

  /** Between any two neighbouring cuts lie the reads of a lost get_hw_semaphore. */
  ghost predicate Lost(swsms: seq<Swsm>, cuts: seq<nat>, limit: nat) {
    forall i :: 0 <= i < |cuts| - 1 ==> LostBetween(swsms, cuts[i], cuts[i + 1], limit)
  }

  ghost predicate LostBetween(swsms: seq<Swsm>, from: nat, to: nat, limit: nat) {
    from <= to <= |swsms| && (GetLost(swsms[from..to], limit, false) || GetLost(swsms[from..to], limit, true))
  }

  lemma LostSoFar(was: seq<Swsm>, now: seq<Swsm>, cuts: seq<nat>, limit: nat)
    requires was <= now && Lost(was, cuts, limit)
    ensures Lost(now, cuts, limit) == true
  {
    forall i | 0 <= i < |cuts| - 1 ensures LostBetween(now, cuts[i], cuts[i + 1], limit) {
      assert LostBetween(was, cuts[i], cuts[i + 1], limit);
      assert now[cuts[i]..cuts[i + 1]] == was[cuts[i]..cuts[i + 1]];
    }
  }

  lemma LostAgain(now: seq<Swsm>, cuts: seq<nat>, to: nat, limit: nat, force: bool)
    requires cuts != [] && Lost(now, cuts, limit) && cuts[|cuts| - 1] <= to == |now|
    requires GetLost(now[cuts[|cuts| - 1]..], limit, force)
    ensures Lost(now, cuts + [to], limit) == true
  {
    assert now[cuts[|cuts| - 1]..to] == now[cuts[|cuts| - 1]..];
    forall i | 0 <= i < |cuts + [to]| - 1 ensures LostBetween(now, (cuts + [to])[i], (cuts + [to])[i + 1], limit) {
      if i < |cuts| - 1 {
        assert LostBetween(now, cuts[i], cuts[i + 1], limit);
      }
    }
  }

  /** Some resource of the mask was taken, by software or by firmware, in every value read. */
  ghost predicate AllBusy(r: seq<Sync>, mask: set<nat>) {
    forall i :: 0 <= i < |r| ==> (r[i].sw + r[i].fw) * mask != {}
  }

  /** An acquire before round `i`, or refused after the last one. */
  ghost predicate InRound(a: Agent, begun: Agent, i: nat) {
    if i < ROUNDS then a == begun.(pc := PollSmbi(0), round := i, clearOnce := a.clearOnce)
    else a == begun.(pc := Idle, result := Some(false), round := ROUNDS - 1, clearOnce := a.clearOnce)
  }

  /** A round that found the mask busy leads to the next one. */
  lemma NextRound(cfg: Config, asked: Agent, got: Agent, begun: Agent, i: nat, mask: set<nat>)
    requires InRound(asked, begun, i) && i < ROUNDS && begun.job == Acquire(mask)
    requires got == asked.(pc := ReadSync, clearOnce := got.clearOnce)
    ensures forall v: Sync :: (v.sw + v.fw) * mask != {} ==>
              InRound(AfterWriteSwsm(AfterReadSwsm(cfg, AfterReadSync(got, v), Swsm(true, true))), begun, i + 1)
    ensures forall v: Sync :: (v.sw + v.fw) * mask == {} ==> AfterReadSync(got, v) == got.(pc := WriteSync(v))
  {
  }

  /** SW_FW_SYNC was read at most 200 times, and the mask was free in the last value alone. */
  ghost predicate Granted(r: seq<Sync>, mask: set<nat>) {
    1 <= |r| <= 200 && AllBusy(r[..|r| - 1], mask) && (r[|r| - 1].sw + r[|r| - 1].fw) * mask == {}
  }

  /** The mask was busy in every value read, and there were 200 of them or get_hw_semaphore failed, in the
      reads of SWSM from position `last` on. */
  ghost predicate Denied(r: seq<Sync>, mask: set<nat>, swsms: seq<Swsm>, last: nat, limit: nat, force: bool) {
    AllBusy(r, mask) && (|r| == 200 || (|r| < 200 && last <= |swsms| && GetLost(swsms[last..], limit, force)))
  }

  lemma Busier(from: seq<Sync>, was: seq<Sync>, v: Sync, mask: set<nat>)
    requires from <= was && AllBusy(was[|from|..], mask)
    ensures from <= was + [v]
    ensures (v.sw + v.fw) * mask == {} && |was| < |from| + 200 ==> Granted((was + [v])[|from|..], mask)
    ensures (v.sw + v.fw) * mask != {} ==> AllBusy((was + [v])[|from|..], mask)
  {
    assert (was + [v])[|from|..] == was[|from|..] + [v];
  }

  /** One software agent's view of the hardware. `trace` records the run so far from `start`; `swsms` and
      `syncs` are the values this agent read in it. */
  class Port {
    const cfg: Config
    const me: nat
    var sys: System
    ghost const start: System
    ghost var trace: seq<Label>
    ghost var swsms: seq<Swsm>
    ghost var syncs: seq<Sync>

    constructor (cfg: Config, sys: System, me: nat)
      requires cfg.Valid() && me < |sys.agents| && Init(sys, sys.dev.swsm.smbi)
      ensures Valid() && Mine().pc == Idle && this.sys == sys && start == sys && this.cfg == cfg && this.me == me
    {
      this.cfg, this.sys, this.me := cfg, sys, me;
      start, trace := sys, [];
      swsms, syncs := [], [];
    }

    ghost predicate Valid()
      reads this
    {
      && me < |sys.agents|
      && Recorded(cfg, start, trace, me, sys, swsms, syncs) == true
    }

    /** No forced clear so far hit a live holder. */
    ghost predicate NoBadForce()
      reads this
    {
      Clean(cfg, start, trace)
    }

    function Mine(): Agent
      requires me < |sys.agents|
      reads this
    {
      sys.agents[me]
    }

    // One step of the machine.
    method Step(l: Label)
      requires Valid()
      modifies this
      ensures Valid() && sys == Apply(cfg, old(sys), l) && trace == old(trace) + [l]
      ensures |sys.agents| == |old(sys).agents|
      ensures swsms == old(swsms) + if SwsmRead(old(sys), l, me) then [old(sys).dev.swsm] else []
      ensures syncs == old(syncs) + if SyncRead(old(sys), l, me) then [old(sys).dev.sync] else []
    {
      Extend(cfg, start, trace, l);
      ReadsExtend(cfg, start, trace, l, me);
      swsms := swsms + if SwsmRead(sys, l, me) then [sys.dev.swsm] else [];
      syncs := syncs + if SyncRead(sys, l, me) then [sys.dev.sync] else [];
      sys, trace := Apply(cfg, sys, l), trace + [l];
    }

    // Any steps of the other agents and of the firmware.
    method Others()
      requires Valid()
      modifies this
      ensures Valid() && Mine() == old(Mine()) && old(trace) <= trace
      ensures swsms == old(swsms) && syncs == old(syncs)
    {
      var n: nat :| true;
      for i := 0 to n
        invariant Valid() && Mine() == old(Mine()) && old(trace) <= trace
        invariant swsms == old(swsms) && syncs == old(syncs)
      {
        var l: Label :| true;
        if !((l.Start? || l.Run?) && l.a == me) {
          Step(l);
        }
      }
    }

    // READ_REG(SWSM)
    method ReadSwsmReg() returns (v: Swsm)
      requires Valid() && ReadsSwsm(Mine().pc)
      modifies this
      ensures Valid() && Mine() == AfterReadSwsm(cfg, old(Mine()), v)
      ensures swsms == old(swsms) + [v] && syncs == old(syncs)
    {
      Others();
      v := sys.dev.swsm;
      Step(Run(me));
    }

    // WRITE_REG(SWSM)
    method WriteSwsmReg(v: Swsm)
      requires Valid() && WritesSwsm(Mine().pc) && v == SwsmToWrite(Mine().pc)
      modifies this
      ensures Valid() && Mine() == AfterWriteSwsm(old(Mine()))
      ensures (sys.dev.swsm.smbi ==> v.smbi) && (sys.dev.swsm.swesmbi ==> v.swesmbi)
      ensures swsms == old(swsms) && syncs == old(syncs)
    {
      Others();
      Step(Run(me));
    }

    // READ_REG(SW_FW_SYNC)
    method ReadSyncReg() returns (v: Sync)
      requires Valid() && Mine().pc.ReadSync?
      modifies this
      ensures Valid() && Mine() == AfterReadSync(old(Mine()), v)
      ensures swsms == old(swsms) && syncs == old(syncs) + [v]
    {
      Others();
      v := sys.dev.sync;
      Step(Run(me));
    }

    // WRITE_REG(SW_FW_SYNC)
    method WriteSyncReg(v: Sync)
      requires Valid() && Mine().pc.WriteSync? && v == SyncToWrite(Mine())
      modifies this
      ensures Valid() && Mine() == AfterWriteSync(old(Mine()))
      ensures swsms == old(swsms) && syncs == old(syncs)
    {
      Others();
      Step(Run(me));
    }

    // put_hw_semaphore: both bits are clear afterwards, though the read in front sets SMBI.
    method PutHwSemaphore()
      requires Valid() && (Mine().pc.PutRead? || Mine().pc.ForceRead?)
      modifies this
      ensures Valid() && sys.dev.swsm == Swsm(false, false)
      ensures Mine() == AfterWriteSwsm(AfterReadSwsm(cfg, old(Mine()), Swsm(true, true)))
      ensures old(swsms) <= swsms && |swsms| == |old(swsms)| + 1 && syncs == old(syncs)
    {
      var swsm := ReadSwsmReg();
      swsm := Swsm(false, false);
      WriteSwsmReg(swsm);
    }

    // Both variants: cfg.i210 decides whether a failed first loop may force the semaphore once. What was
    // read in the call says how it ends.
    method GetHwSemaphore() returns (ok: bool)
      requires Valid() && Mine().pc == PollSmbi(0)
      modifies this
      ensures Valid() && old(swsms) <= swsms && syncs == old(syncs)
      ensures Mine().clearOnce ==> old(Mine()).clearOnce
      ensures ok ==> Mine() == old(Mine()).(pc := ReadSync, clearOnce := Mine().clearOnce)
      ensures !ok ==> Mine() == GetFailed(old(Mine())).(clearOnce := Mine().clearOnce)
      ensures ok ==> GetWon(swsms[|old(swsms)|..], cfg.limit, cfg.i210 && old(Mine()).clearOnce)
      ensures !ok ==> GetLost(swsms[|old(swsms)|..], cfg.limit, cfg.i210 && old(Mine()).clearOnce)
    {
      ok := GetSw();
      if !ok { return; }
      ghost var from := swsms;
      ok := GetFw();
      Joined(old(swsms), from, swsms, cfg.limit, cfg.i210 && old(Mine()).clearOnce);
    }

    // The SWESMBI part of get_hw_semaphore.
    method GetFw() returns (ok: bool)
      requires Valid() && Mine().pc == ReadSwsm(0)
      modifies this
      ensures Valid() && old(swsms) <= swsms && syncs == old(syncs)
      ensures ok ==> Mine() == old(Mine()).(pc := ReadSync) && ChecksWon(swsms[|old(swsms)|..], cfg.limit)
      ensures !ok ==> Mine() == GetFailed(old(Mine())) && ChecksLost(swsms[|old(swsms)|..], cfg.limit)
    {
      var i := 0;
      while i < cfg.limit
        invariant Valid() && i <= cfg.limit && syncs == old(syncs)
        invariant i < cfg.limit ==> Mine() == old(Mine()).(pc := ReadSwsm(i))
        invariant i == cfg.limit ==> Mine() == old(Mine()).(pc := PutRead(GaveUp))
        invariant Checking(old(swsms), swsms, i) == true
      {
        ghost var was := swsms;
        var swsm := ReadSwsmReg();
        ghost var first := swsm;
        WriteSwsmReg(swsm.(swesmbi := true));
        swsm := ReadSwsmReg();
        Checked(old(swsms), was, first, swsm, i, cfg.limit);
        if swsm.swesmbi { return true; }
        i := i + 1;
      }
      ghost var was := swsms;
      PutHwSemaphore();
      NoneLatched(old(swsms), was, swsms, cfg.limit);
      return false;
    }

    // The SMBI part of get_hw_semaphore.
    method GetSw() returns (ok: bool)
      requires Valid() && Mine().pc == PollSmbi(0)
      modifies this
      ensures Valid() && old(swsms) <= swsms && syncs == old(syncs)
      ensures Mine().clearOnce ==> old(Mine()).clearOnce
      ensures ok ==> Mine() == old(Mine()).(pc := ReadSwsm(0), clearOnce := Mine().clearOnce)
      ensures !ok ==> Mine() == GetFailed(old(Mine())).(clearOnce := Mine().clearOnce)
      ensures ok ==> SmbiWon(swsms[|old(swsms)|..], cfg.limit, cfg.i210 && old(Mine()).clearOnce)
      ensures !ok ==> SmbiLost(swsms[|old(swsms)|..], cfg.limit, cfg.i210 && old(Mine()).clearOnce)
    {
      var clearOnce := cfg.i210 && Mine().clearOnce;
      ghost var asked := Mine();
      var i := 0;
      while i < cfg.limit
        invariant Valid() && i <= cfg.limit && old(swsms) <= swsms && syncs == old(syncs)
        invariant i < cfg.limit ==> Mine() == asked.(pc := PollSmbi(i))
        invariant i == cfg.limit ==>
                  Mine() == AfterReadSwsm(cfg, asked.(pc := PollSmbi(cfg.limit - 1)), Swsm(true, true))
        invariant PollsLost(swsms[|old(swsms)|..], i) == true
      {
        ghost var was := swsms;
        var swsm := ReadSwsmReg();
        Polled(old(swsms), was, swsm, i, cfg.limit);
        if !swsm.smbi { return true; }
        i := i + 1;
      }
      if clearOnce {
        ok := ForceSemaphore(old(swsms));
        return;
      }
      return false;
    }

    // The forced clear and the second polling loop; `was` is what had been read before the first loop.
    method ForceSemaphore(ghost was: seq<Swsm>) returns (ok: bool)
      requires Valid() && Mine().pc == ForceRead && was <= swsms && PollsLost(swsms[|was|..], cfg.limit)
      modifies this
      ensures Valid() && old(swsms) <= swsms && syncs == old(syncs)
      ensures ok ==> Mine() == old(Mine()).(pc := ReadSwsm(0)) && SmbiWon(swsms[|was|..], cfg.limit, true)
      ensures !ok ==> Mine() == GetFailed(old(Mine())) && SmbiLost(swsms[|was|..], cfg.limit, true)
    {
      PutHwSemaphore();
      ghost var from := swsms;
      var i := 0;
      while i < cfg.limit
        invariant Valid() && i <= cfg.limit && from <= swsms && syncs == old(syncs)
        invariant i < cfg.limit ==> Mine() == old(Mine()).(pc := PollAgain(i))
        invariant i == cfg.limit ==> Mine() == GetFailed(old(Mine()))
        invariant PollsLost(swsms[|from|..], i) == true
      {
        ghost var before := swsms;
        var swsm := ReadSwsmReg();
        Polled(from, before, swsm, i, cfg.limit);
        if !swsm.smbi {
          Forced(was, old(swsms), from, swsms, cfg.limit);
          return true;
        }
        i := i + 1;
      }
      Forced(was, old(swsms), from, swsms, cfg.limit);
      return false;
    }

    // acquire_swfw_sync: success adds exactly the mask, failure adds nothing, and the lock is given back.
    // It fails when get_hw_semaphore failed, in the reads from position `last` on, or when the mask was busy
    // in each of 200 rounds.
    method AcquireSwfwSync(mask: set<nat>) returns (ok: bool, ghost last: nat, ghost force: bool)
      requires Valid() && Mine().pc == Idle
      modifies this
      ensures Valid() && Mine().pc == Idle && Mine().result == Some(ok)
      ensures Mine().held == if ok then old(Mine()).held + mask else old(Mine()).held
      ensures ok && NoBadForce() ==>
        && mask <= sys.dev.sync.sw && mask !! sys.dev.sync.fw
        && forall b :: 0 <= b < |sys.agents| && b != me ==> sys.agents[b].held !! mask
      ensures old(swsms) <= swsms && old(syncs) <= syncs
      ensures ok ==> Granted(syncs[|old(syncs)|..], mask) == true
      ensures !ok ==> Denied(syncs[|old(syncs)|..], mask, swsms, last, cfg.limit, force) == true
      ensures |old(swsms)| <= last && (force ==> cfg.i210 && old(Mine()).clearOnce)
      ensures !force ==> !(cfg.i210 && Mine().clearOnce)
    {
      Step(Start(me, Acquire(mask)));
      last, force := |swsms|, cfg.i210 && Mine().clearOnce;
      ghost var begun := Mine();
      var i := 0;
      while i < ROUNDS
        invariant Valid() && i <= ROUNDS && old(swsms) <= swsms && old(syncs) <= syncs
        invariant InRound(Mine(), begun, i) == true
        invariant (Mine().clearOnce ==> begun.clearOnce) && |old(swsms)| <= last
        invariant force ==> cfg.i210 && begun.clearOnce
        invariant !force ==> !(cfg.i210 && Mine().clearOnce)
        invariant |syncs| == |old(syncs)| + i
        invariant AllBusy(syncs[|old(syncs)|..], mask) == true
      {
        last, force := |swsms|, cfg.i210 && Mine().clearOnce;
        var free;
        ok, free := Round(mask, begun, i, old(syncs));
        if !ok { return; }
        if free { break; }
        i := i + 1;
      }
      if i == ROUNDS {
        ok := false;
        return;
      }
      Claim(mask);
      ok := true;
    }

    // One round of acquire_swfw_sync, number `i`: whether get_hw_semaphore succeeded, and then whether the
    // mask was free. `from` is what had been read before the call.
    method Round(mask: set<nat>, ghost begun: Agent, i: nat, ghost from: seq<Sync>) returns (ok: bool, free: bool)
      requires Valid() && InRound(Mine(), begun, i) && i < ROUNDS && begun.job == Acquire(mask)
      requires from <= syncs && |syncs| == |from| + i && AllBusy(syncs[|from|..], mask)
      modifies this
      ensures Valid() && old(swsms) <= swsms && old(syncs) <= syncs && |syncs| == |old(syncs)| + if ok then 1 else 0
      ensures (Mine().clearOnce ==> old(Mine()).clearOnce) && (free ==> ok)
      ensures !ok ==> Mine() == old(Mine()).(pc := Idle, result := Some(false), clearOnce := Mine().clearOnce)
      ensures !ok ==> GetLost(swsms[|old(swsms)|..], cfg.limit, cfg.i210 && old(Mine()).clearOnce) == true
      ensures free ==> Mine().pc.WriteSync? && Mine().job == Acquire(mask) && Mine().held == begun.held
      ensures free ==> Granted(syncs[|from|..], mask) == true
      ensures ok && !free ==> InRound(Mine(), begun, i + 1) && AllBusy(syncs[|from|..], mask)
    {
      free := false;
      ghost var seen, asked := syncs, Mine();
      ok := GetHwSemaphore();
      if !ok { return; }
      NextRound(cfg, asked, Mine(), begun, i, mask);
      var sync := ReadSyncReg();
      Busier(from, seen, sync, mask);
      if (sync.sw + sync.fw) * mask == {} {
        free := true;
        return;
      }
      PutHwSemaphore();
    }

    // The write of SW_FW_SYNC for an acquire and the release of the semaphore.
    method Claim(mask: set<nat>)
      requires Valid() && Mine().pc.WriteSync? && Mine().job == Acquire(mask)
      modifies this
      ensures Valid() && Mine() == old(Mine()).(pc := Idle, result := Some(true), held := old(Mine()).held + mask)
      ensures old(swsms) <= swsms && syncs == old(syncs)
      ensures NoBadForce() ==>
        && mask <= sys.dev.sync.sw && mask !! sys.dev.sync.fw
        && forall b :: 0 <= b < |sys.agents| && b != me ==> sys.agents[b].held !! mask
    {
      WriteSyncReg(SyncToWrite(Mine()));
      PutHwSemaphore();
      if NoBadForce() {
        HoldsAlone(cfg, start, trace, me, mask);
      }
    }

    // release_swfw_sync retries until it gets the lock; `patience` bounds the attempts followed here. `cuts`
    // divides what was read of SWSM into the attempts: all were lost but the last one of a call that is done.
    method ReleaseSwfwSync(mask: set<nat>, patience: nat) returns (done: bool, ghost cuts: seq<nat>)
      requires Valid() && Mine().pc == Idle && mask <= Mine().held
      modifies this
      ensures Valid()
      ensures done ==> Mine().pc == Idle && Mine().held == old(Mine()).held - mask
      ensures !done ==> Mine().pc == PollSmbi(0) && Mine().held == old(Mine()).held
      ensures cuts != [] && cuts[0] == |old(swsms)| && Lost(swsms, cuts, cfg.limit) == true
      ensures if done then |cuts| <= patience else |cuts| == patience + 1
    {
      Step(Start(me, Release(mask)));
      ghost var begun := Mine();
      var attempts := 0;
      done, cuts := false, [|swsms|];
      while !done && attempts < patience
        invariant Valid() && attempts <= patience
        invariant Mine() == begun.(pc := if done then ReadSync else PollSmbi(0), clearOnce := Mine().clearOnce)
        invariant |cuts| == attempts + if done then 0 else 1
        invariant cuts != [] && cuts[0] == |old(swsms)| && Lost(swsms, cuts, cfg.limit) == true
        invariant !done ==> cuts[|cuts| - 1] == |swsms|
      {
        ghost var was, force := swsms, cfg.i210 && Mine().clearOnce;
        done := GetHwSemaphore();
        LostSoFar(was, swsms, cuts, cfg.limit);
        if !done {
          LostAgain(swsms, cuts, |swsms|, cfg.limit, force);
          cuts := cuts + [|swsms|];
        }
        attempts := attempts + 1;
      }
      if !done { return; }
      GiveBack(mask, cuts);
    }

    // The read and the write of SW_FW_SYNC for a release, and the release of the semaphore.
    method GiveBack(mask: set<nat>, ghost cuts: seq<nat>)
      requires Valid() && Mine().pc == Pc.ReadSync && Mine().job == Release(mask) && Lost(swsms, cuts, cfg.limit)
      modifies this
      ensures Valid() && Mine().pc == Idle && Mine().held == old(Mine()).held - mask
      ensures Lost(swsms, cuts, cfg.limit) == true
    {
      ghost var was := swsms;
      var sync := ReadSyncReg();
      WriteSyncReg(sync.(sw := sync.sw - mask));
      PutHwSemaphore();
      LostSoFar(was, swsms, cuts, cfg.limit);
    }
  }
}
