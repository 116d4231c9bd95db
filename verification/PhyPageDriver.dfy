/** read_phy_reg_mdic, write_phy_reg_mdic and the gs40g functions in their own form: retry and poll loops
    over MDIC. Between two accesses the other agents, the firmware and the PHY take any number of steps.
    Every access is a step of the machine in PhyPage, so the results in PhyPageSafety apply. */
module PhyPageDriver {
  import S = Semaphore
  import SS = SemaphoreSafety
  import opened PhyPage
  import opened PhyPageSafety

  /** What MDIC shows. */
  datatype MdicReg = MdicReg(ready: bool, error: bool, reg: nat, data: nat)

  /** MDIC was ready, without error, and named the register. */
  ghost predicate Names(m: MdicReg, reg: nat) { m.ready && !m.error && m.reg == reg }

  ghost predicate NoneNames(lasts: seq<MdicReg>, reg: nat) {
    forall i :: 0 <= i < |lasts| ==> !Names(lasts[i], reg)
  }

  /** The attempts at an access: all failed, one more than there are retries, or the last alone succeeded. */
  ghost predicate Attempts(lasts: seq<MdicReg>, reg: nat, retries: nat, ok: bool, data: nat) {
    && 1 <= |lasts| <= retries + 1
    && NoneNames(lasts[..|lasts| - 1], reg)
    && (ok <==> Names(lasts[|lasts| - 1], reg))
    && (if ok then data == lasts[|lasts| - 1].data else |lasts| == retries + 1)
  }

  /** How a call that had the lock ends, by what MDIC showed. */
  ghost predicate Course(r: Outcome, sel: seq<MdicReg>, acc: seq<MdicReg>, offset: nat, retries: nat, write: bool,
                         value: nat)
  {
    match r
    case SelectFailed => Attempts(sel, 0x16, retries, false, 0)
    case BadOffset => sel != [] && Attempts(sel, 0x16, retries, true, sel[|sel| - 1].data) && offset > 0x1F
    case AccessFailed =>
      && sel != [] && Attempts(sel, 0x16, retries, true, sel[|sel| - 1].data)
      && offset <= 0x1F && Attempts(acc, offset, retries, false, 0)
    case Done(v) =>
      && sel != [] && Attempts(sel, 0x16, retries, true, sel[|sel| - 1].data)
      && offset <= 0x1F && acc != [] && Attempts(acc, offset, retries, true, acc[|acc| - 1].data)
      && v == if write then value else acc[|acc| - 1].data
    case _ => false
  }

  /** A step that agent `a` takes. */
  predicate Own(l: Label, a: nat) {
    match l
    case Sem(sl) => (sl.Start? || sl.Run?) && sl.a == a
    case Complete(_, _, _, _) => false
    case _ => l.a == a
  }

  lemma OthersSpare(cfg: Config, w: World, l: Label, a: nat)
    requires a < |w.threads| == |w.sem.agents| && !Own(l, a)
    ensures var w' := Apply(cfg, w, l);
            |w'.threads| == |w'.sem.agents| == |w.threads| && w'.threads[a] == w.threads[a] &&
                w'.sem.agents[a] == w.sem.agents[a]
    ensures l != Sem(S.Run(a))
  {
  }

  /** How many accesses of the semaphore by agent `me` a run has. */
  ghost function OwnRuns(ls: seq<Label>, me: nat): nat {
    if ls == [] then 0 else OwnRuns(ls[..|ls| - 1], me) + if ls[|ls| - 1] == Sem(S.Run(me)) then 1 else 0
  }

  lemma RunsGrow(ls: seq<Label>, l: Label, me: nat)
    ensures OwnRuns(ls + [l], me) == OwnRuns(ls, me) + if l == Sem(S.Run(me)) then 1 else 0
  {
    assert (ls + [l])[..|ls|] == ls;
  }

  /** The access of a call, by page and offset. */
  lemma AccessedAt(log: seq<Entry>, a: nat, t: Thread, v: nat)
    requires Accessed(log, a, t, v)
    ensures forall page: nat, offset: nat ::
              offset <= 0x1F && t.address == page * 0x1_0000 + offset ==>
              Carried(log, a, t.call, page, offset, t.write, v)
  {
    forall page: nat, offset: nat | offset <= 0x1F && t.address == page * 0x1_0000 + offset
      ensures Carried(log, a, t.call, page, offset, t.write, v)
    {
      assert page == Page(t) && offset == Offset(t);
    }
  }

  class PhyPort {
    const cfg: Config
    const me: nat
    var w: World
    ghost const start: World
    ghost var trace: seq<Label>

    constructor (cfg: Config, w: World, me: nat)
      requires cfg.sem.Valid() && me < |w.threads| && Init(w, w.sem.dev.swsm.smbi)
      ensures Valid() && Mine().prog == Out && this.w == w && this.cfg == cfg && this.me == me && start == w &&
              trace == []
    {
      this.cfg, this.w, this.me := cfg, w, me;
      start, trace := w, [];
    }

    ghost predicate Valid()
      reads this
    {
      && cfg.sem.Valid() && me < |w.threads| == |w.sem.agents|
      && Init(start, start.sem.dev.swsm.smbi) && w == Exec(cfg, start, trace)
    }

    /** No forced clear so far hit a live holder. */
    ghost predicate NoBadForce()
      reads this
    {
      Clean(cfg, start, trace)
    }

    function Mine(): Thread
      requires me < |w.threads|
      reads this
    {
      w.threads[me]
    }

    function Agent(): S.Agent
      requires me < |w.sem.agents|
      reads this
    {
      w.sem.agents[me]
    }

    // One step of the machine.
    method Step(l: Label)
      requires Valid()
      modifies this`w, this`trace
      ensures Valid() && w == Apply(cfg, old(w), l) && trace == old(trace) + [l]
    {
      Extend(cfg, start, trace, l);
      w, trace := Apply(cfg, w, l), trace + [l];
    }

    // Any steps of the others and of the PHY.
    method Others()
      requires Valid()
      modifies this`w, this`trace
      ensures Valid() && Mine() == old(Mine()) && Agent() == old(Agent())
      ensures OwnRuns(trace, me) == old(OwnRuns(trace, me))
    {
      var n: nat :| true;
      for i := 0 to n
        invariant Valid() && Mine() == old(Mine()) && Agent() == old(Agent())
        invariant OwnRuns(trace, me) == old(OwnRuns(trace, me))
      {
        var l: Label :| true;
        if !Own(l, me) {
          RunsGrow(trace, l, me);
          OthersSpare(cfg, w, l, me);
          Step(l);
        }
      }
    }

    // One access of the acquire.
    method AcquireAccess()
      requires Valid() && Agent().pc != S.Idle && SS.Counting(cfg.sem, Agent()) && Agent().job == S.Acquire({PHY})
      modifies this`w, this`trace
      ensures Valid() && Mine() == old(Mine()) && SS.Counting(cfg.sem, Agent()) && Agent().job == S.Acquire({PHY})
      ensures Agent().pc == S.Idle || SS.AccessesLeft(cfg.sem, Agent()) < old(SS.AccessesLeft(cfg.sem, Agent()))
      ensures Agent().pc == S.Idle ==> Agent().result.Some?
    {
      Others();
      SS.AccessMakesProgress(cfg.sem, Agent(), w.sem.dev);
      SemFrame(cfg.sem, w.sem, S.Run(me), me);
      Step(Sem(S.Run(me)));
    }

    // phy.ops.acquire: the accesses of acquire_swfw_sync, until it returns.
    method Acquire(address: nat, write: bool, value: nat) returns (ok: bool)
      requires Valid() && Mine().prog == Out && Agent().pc == S.Idle
      modifies this`w, this`trace
      ensures Valid() && Agent().pc == S.Idle
      ensures Mine() == Thread(if ok then Writing(Select, 0) else Out, address, write, value, old(Mine()).call + 1,
                               if ok then Pending else NoLock)
      ensures Agent().result == S.Some(ok)
    {
      Step(Call(me, address, write, value));
      ghost var call := Mine();
      while Agent().pc != S.Idle
        invariant Valid() && Mine() == call && SS.Counting(cfg.sem, Agent()) && Agent().job == S.Acquire({PHY})
        invariant Agent().pc == S.Idle ==> Agent().result.Some?
        decreases if Agent().pc == S.Idle then 0 else 1 + SS.AccessesLeft(cfg.sem, Agent())
      {
        AcquireAccess();
      }
      ok := Agent().result == S.Some(true);
      assert ok == Agent().result.value;
      Step(Enter(me));
    }

    // phy.ops.release: release_swfw_sync tries again until it gets the semaphore; `patience` bounds the
    // accesses followed here, and a release that is not done has made that many.
    method Release(patience: nat) returns (done: bool)
      requires Valid() && Mine().prog == Leaving
      modifies this`w, this`trace
      ensures Valid() && Mine() == old(Mine()).(prog := if done then Out else Releasing)
      ensures done ==> Agent().pc == S.Idle
      ensures !done ==> OwnRuns(trace, me) >= old(OwnRuns(trace, me)) + patience
    {
      Step(Leave(me));
      RunsGrow(old(trace), Leave(me), me);
      var i := 0;
      while Agent().pc != S.Idle && i < patience
        invariant Valid() && Mine() == old(Mine()).(prog := Releasing) && i <= patience
        invariant OwnRuns(trace, me) >= old(OwnRuns(trace, me)) + i
      {
        Others();
        RunsGrow(trace, Sem(S.Run(me)), me);
        Step(Sem(S.Run(me)));
        i := i + 1;
      }
      done := Agent().pc == S.Idle;
      if done { Step(Return(me)); }
    }

    // WRITE_REG(MDIC)
    method WriteMdicReg(c: Command)
      requires Valid() && Mine().prog.Writing? && c == CommandOf(me, Mine(), Mine().prog.stage)
      modifies this`w, this`trace
      ensures Valid() && Agent() == old(Agent())
      ensures Mine() == old(Mine()).(prog := Polling(old(Mine()).prog.stage, old(Mine()).prog.tries, 0))
    {
      Others();
      Step(Mdic(me));
    }

    // READ_REG(MDIC)
    method ReadMdicReg() returns (m: MdicReg, ghost p: Phy)
      requires Valid() && Mine().prog.Polling?
      modifies this`w, this`trace
      ensures Valid() && Agent() == old(Agent())
      ensures m == MdicReg(!p.busy, p.error, p.reported, p.value) && Mine() == AfterPoll(cfg, old(Mine()), p)
    {
      Others();
      p := w.phy;
      m := MdicReg(!w.phy.busy, w.phy.error, w.phy.reported, w.phy.value);
      Step(Mdic(me));
    }

    /** The call after an attempt that MDIC reported done, or failed. */
    function AfterAttempt(t: Thread, stage: Stage, tries: nat, success: bool, data: nat): Thread {
      if success then
        if stage == Target then t.(prog := Leaving, result := Done(if t.write then t.value else data))
        else if Offset(t) > MAX_PHY_REG_ADDRESS then t.(prog := Leaving, result := BadOffset)
        else t.(prog := Writing(Target, 0))
      else if tries < cfg.retries then t.(prog := Writing(stage, tries + 1))
      else t.(prog := Leaving, result := if stage == Select then SelectFailed else AccessFailed)
    }

    // One turn of the retry loop: write the command, poll until ready, check error and offset. `last` is
    // what the last of the `polls` reads of MDIC returned.
    method Attempt(stage: Stage, offset: nat, tries: nat)
        returns (success: bool, data: nat, ghost last: MdicReg, ghost polls: nat)
      requires Valid() && Mine().prog == Writing(stage, tries)
      requires offset == if stage == Select then PAGE_SELECT else Offset(Mine())
      modifies this`w, this`trace
      ensures Valid() && Agent() == old(Agent()) && Mine() == AfterAttempt(old(Mine()), stage, tries, success, data)
      ensures success <==> last.ready && !last.error && last.reg == offset
      ensures success ==> data == last.data
      ensures 1 <= polls <= 1920 && (!last.ready ==> polls == 1920)
    {
      success, data, polls := true, 0, 0;
      WriteMdicReg(CommandOf(me, Mine(), stage));
      var m := MdicReg(false, false, 0, 0);
      ghost var p;
      var i := 0;
      while i < POLLS
        invariant Valid() && Agent() == old(Agent()) && polls == i <= POLLS && (i == POLLS ==> !m.ready)
        invariant i < POLLS ==> Mine() == old(Mine()).(prog := Polling(stage, tries, i))
        invariant i == POLLS ==> Mine() == AfterAttempt(old(Mine()), stage, tries, false, 0)
      {
        m, p := ReadMdicReg();
        polls := polls + 1;
        if m.ready { break; }
        i := i + 1;
      }
      if !m.ready { success := false; }
      if m.error { success := false; }
      if m.reg != offset { success := false; }
      if success { data := m.data; }
      last := m;
    }

    // read_phy_reg_mdic and write_phy_reg_mdic, which differ in the command only. `lasts` are the last
    // readings of the attempts.
    method PhyRegMdic(stage: Stage, offset: nat) returns (ok: bool, data: nat, ghost lasts: seq<MdicReg>)
      requires Valid() && offset == if stage == Select then PAGE_SELECT else Offset(Mine())
      requires if offset > MAX_PHY_REG_ADDRESS then Mine().prog == Leaving else Mine().prog == Writing(stage, 0)
      modifies this`w, this`trace
      ensures Valid() && Agent() == old(Agent())
      ensures offset > 0x1F ==> !ok && Mine() == old(Mine()) && lasts == []
      ensures offset <= 0x1F ==> Mine() == AfterAttempt(old(Mine()), stage, cfg.retries, ok, data)
      ensures offset <= 0x1F ==> Attempts(lasts, offset, cfg.retries, ok, data)
    {
      ok, data, lasts := false, 0, [];
      if offset > MAX_PHY_REG_ADDRESS { return; }
      var retryCounter := 0;
      while retryCounter <= cfg.retries && !ok
        invariant Valid() && Agent() == old(Agent()) && retryCounter <= cfg.retries + 1
        invariant !ok && retryCounter <= cfg.retries ==> Mine() == old(Mine()).(prog := Writing(stage, retryCounter))
        invariant ok || retryCounter == cfg.retries + 1 ==>
                  Mine() == AfterAttempt(old(Mine()), stage, cfg.retries, ok, data)
        invariant ok ==> Attempts(lasts, offset, cfg.retries, true, data) == true
        invariant !ok ==> |lasts| == retryCounter && NoneNames(lasts, offset)
        decreases cfg.retries + 1 - retryCounter, !ok
      {
        ghost var last, polls;
        ok, data, last, polls := Attempt(stage, offset, retryCounter);
        lasts := lasts + [last];
        if !ok { retryCounter := retryCounter + 1; }
      }
    }

    // read_phy_reg_gs40g and write_phy_reg_gs40g. With no bad forced clear, success means the register
    // (page, offset) was accessed by this call, and a failure before the second half that it was not.
    // `sel` and `acc` are the readings that ended the attempts at the two halves.
    method Gs40g(address: nat, write: bool, value: nat, patience: nat)
        returns (r: Outcome, returned: bool, ghost sel: seq<MdicReg>, ghost acc: seq<MdicReg>)
      requires Valid() && Mine().prog == Out && Agent().pc == S.Idle
      modifies this`w, this`trace
      ensures Valid() && Mine().result == r && !r.Pending? && Mine().call == old(Mine()).call + 1
      ensures Mine().address == address && Mine().write == write && Mine().value == value
      ensures returned ==> Mine().prog == Out && Agent().pc == S.Idle
      ensures !returned ==> OwnRuns(trace, me) >= patience
      ensures r.NoLock? || Course(r, sel, acc, address % 0x1_0000, cfg.retries, write, value)
      ensures NoBadForce() && r.Done? ==> forall page: nat, offset: nat ::
                page < 0x1_0000 && offset <= 0x1F && offset != 0x16 && address == page * 0x1_0000 + offset ==>
                Carried(w.phy.log, me, Mine().call, page, offset, write, r.value)
      ensures NoBadForce() && (r.NoLock? || r.SelectFailed? || r.BadOffset?) ==>
                forall e :: e in w.phy.log ==> !(e.issuer == me && e.call == Mine().call)
    {
      var ok := Acquire(address, write, value);
      sel, acc := [], [];
      if !ok {
        r, returned := NoLock, true;
      } else {
        var offset := address % 0x1_0000;
        var data;
        ok, data, sel := PhyRegMdic(Select, PAGE_SELECT);
        if ok {
          ok, data, acc := PhyRegMdic(Target, offset);
        }
        r := Mine().result;
        returned := Release(patience);
      }
      if NoBadForce() {
        Conclude(r);
      }
    }

    lemma Conclude(r: Outcome)
      requires Valid() && NoBadForce() && Mine().result == r
      ensures r.Done? ==> forall page: nat, offset: nat ::
                offset <= 0x1F && offset != 0x16 && Mine().address == page * 0x1_0000 + offset ==>
                Carried(w.phy.log, me, Mine().call, page, offset, Mine().write, r.value)
      ensures (r.NoLock? || r.SelectFailed? || r.BadOffset?) ==>
                forall e :: e in w.phy.log ==> !(e.issuer == me && e.call == Mine().call)
    {
      PhyPageSafety.InitInv(start, start.sem.dev.swsm.smbi);
      PhyPageSafety.RunKeeps(cfg, start, trace);
      assert PhyOk(me, Mine(), w.phy) && IssuedOk(me, Mine(), w.issued, w.asked);
      if r.Done? && Offset(Mine()) != 0x16 {
        AccessedAt(w.phy.log, me, Mine(), r.value);
      }
    }
  }
}
