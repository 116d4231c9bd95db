/** What a forced clear that hits a live holder leads to: from any such state some continuation makes two
    agents hold the same resource. */
module SemaphoreForced {
  import opened Semaphore
  import opened SemaphoreSafety

  // ---- runs without a further bad clear ---------------------------------------------------------

  ghost predicate Reach(cfg: Config, s: System, t: System) {
    exists ls :: Clean(cfg, s, ls) && Exec(cfg, s, ls) == t
  }

  lemma ReachSelf(cfg: Config, s: System)
    ensures Reach(cfg, s, s)
  {
    assert Clean(cfg, s, []) && Exec(cfg, s, []) == s;
  }

  lemma ReachStep(cfg: Config, s: System, l: Label)
    requires !BadForce(s, l)
    ensures Reach(cfg, s, Apply(cfg, s, l))
  {
    assert Clean(cfg, Apply(cfg, s, l), []) && Exec(cfg, Apply(cfg, s, l), []) == Apply(cfg, s, l);
    assert [l][1..] == [];
    assert Clean(cfg, s, [l]) && Exec(cfg, s, [l]) == Apply(cfg, s, l);
  }

  lemma {:induction false} Joined(cfg: Config, s: System, xs: seq<Label>, ys: seq<Label>)
    ensures Exec(cfg, s, xs + ys) == Exec(cfg, Exec(cfg, s, xs), ys)
    ensures Clean(cfg, s, xs + ys) <==> Clean(cfg, s, xs) && Clean(cfg, Exec(cfg, s, xs), ys)
    decreases |xs|
  {
    if xs == [] {
      assert [] + ys == ys;
    } else {
      assert (xs + ys)[1..] == xs[1..] + ys;
      Joined(cfg, Apply(cfg, s, xs[0]), xs[1..], ys);
    }
  }

  lemma ReachTrans(cfg: Config, s: System, t: System, u: System)
    requires Reach(cfg, s, t) && Reach(cfg, t, u)
    ensures Reach(cfg, s, u)
  {
    var xs :| Clean(cfg, s, xs) && Exec(cfg, s, xs) == t;
    var ys :| Clean(cfg, t, ys) && Exec(cfg, t, ys) == u;
    Joined(cfg, s, xs, ys);
    assert Clean(cfg, s, xs + ys) && Exec(cfg, s, xs + ys) == u;
  }

  // ---- one agent running alone ------------------------------------------------------------------

  /** An agent and the device after `k` accesses of this agent, none of them a forced clear; None if its
      call is over before. */
  function Alone(cfg: Config, g: Agent, d: Device, k: nat): Option<(Agent, Device)>
    decreases k
  {
    if k == 0 then Some((g, d))
    else if g.pc == Idle || g.pc == ForceWrite then None
    else
      var (g', d') := Access(cfg, g, d);
      Alone(cfg, g', d', k - 1)
  }

  lemma {:induction false} AloneJoined(cfg: Config, g: Agent, d: Device, j: nat, k: nat)
    requires Alone(cfg, g, d, j).Some?
    ensures var (h, e) := Alone(cfg, g, d, j).value; Alone(cfg, g, d, j + k) == Alone(cfg, h, e, k)
    decreases j
  {
    if j == 0 {
    } else {
      var (g', d') := Access(cfg, g, d);
      AloneJoined(cfg, g', d', j - 1, k);
    }
  }

  function With(s: System, x: nat, g: Agent, d: Device): System
    requires x < |s.agents|
  {
    s.(dev := d, agents := s.agents[x := g])
  }

  lemma {:induction false} AloneReaches(cfg: Config, s: System, x: nat, k: nat)
    requires x < |s.agents| && Alone(cfg, s.agents[x], s.dev, k).Some?
    ensures var (g, d) := Alone(cfg, s.agents[x], s.dev, k).value; Reach(cfg, s, With(s, x, g, d))
    decreases k
  {
    if k == 0 {
      assert With(s, x, s.agents[x], s.dev) == s;
      ReachSelf(cfg, s);
    } else {
      var t := Apply(cfg, s, Run(x));
      var (g, d) := Alone(cfg, s.agents[x], s.dev, k).value;
      ReachStep(cfg, s, Run(x));
      AloneReaches(cfg, t, x, k - 1);
      assert With(t, x, g, d) == With(s, x, g, d);
      ReachTrans(cfg, s, t, With(s, x, g, d));
    }
  }

  /** Running alone, the agent gets from one state to the other. */
  ghost predicate Gets(cfg: Config, g: Agent, d: Device, h: Agent, e: Device) {
    exists k: nat :: Alone(cfg, g, d, k) == Some((h, e))
  }

  lemma GetsSelf(cfg: Config, g: Agent, d: Device)
    ensures Gets(cfg, g, d, g, d)
  {
    assert Alone(cfg, g, d, 0) == Some((g, d));
  }

  lemma GetsOne(cfg: Config, g: Agent, d: Device)
    requires g.pc != Idle && g.pc != ForceWrite
    ensures Gets(cfg, g, d, Access(cfg, g, d).0, Access(cfg, g, d).1)
  {
    var (h, e) := Access(cfg, g, d);
    assert Alone(cfg, h, e, 0) == Some((h, e));
    assert Alone(cfg, g, d, 1) == Some((h, e));
  }

  lemma GetsTrans(cfg: Config, g: Agent, d: Device, h: Agent, e: Device, i: Agent, f: Device)
    requires Gets(cfg, g, d, h, e) && Gets(cfg, h, e, i, f)
    ensures Gets(cfg, g, d, i, f)
  {
    var j: nat :| Alone(cfg, g, d, j) == Some((h, e));
    var k: nat :| Alone(cfg, h, e, k) == Some((i, f));
    AloneJoined(cfg, g, d, j, k);
  }

  /** One access and then the rest. */
  lemma GetsThen(cfg: Config, g: Agent, d: Device, i: Agent, f: Device)
    requires g.pc != Idle && g.pc != ForceWrite && Gets(cfg, Access(cfg, g, d).0, Access(cfg, g, d).1, i, f)
    ensures Gets(cfg, g, d, i, f)
  {
    GetsOne(cfg, g, d);
    GetsTrans(cfg, g, d, Access(cfg, g, d).0, Access(cfg, g, d).1, i, f);
  }

  lemma GetsReach(cfg: Config, s: System, x: nat, g: Agent, d: Device)
    requires x < |s.agents| && Gets(cfg, s.agents[x], s.dev, g, d)
    ensures Reach(cfg, s, With(s, x, g, d))
  {
    var k: nat :| Alone(cfg, s.agents[x], s.dev, k) == Some((g, d));
    AloneReaches(cfg, s, x, k);
  }

  // ---- through the open lock and out again ------------------------------------------------------

  /** SWSM is clear, whoever is inside the lock, and the firmware stays out. */
  predicate Open(d: Device) { d.swsm == Swsm(false, false) && !d.fwSem }

  /** Resource `r` is neither in SW_FW_SYNC nor can the agent's call put it there. */
  predicate Unused(r: nat, g: Agent, d: Device) {
    && r !in d.sync.sw && r !in d.sync.fw && r !in g.job.mask
    && (g.pc.WriteSync? ==> r !in g.pc.sync.sw && r !in g.pc.sync.fw)
  }

  /** The agent is on its way out of the lock: SWSM ends up clear, and it is back before the polls with a
      round used up, or its call is over. */
  predicate Out(g: Agent, h: Agent, e: Device) {
    Open(e) && h.job == g.job &&
        (h.pc == Idle || (h.pc == PollSmbi(0) && (g.job.Acquire? ==> g.round < h.round < ROUNDS)))
  }

  lemma Put(cfg: Config, g: Agent, d: Device) returns (h: Agent, e: Device)
    requires (g.pc.PutRead? || g.pc.PutWrite?) && !d.fwSem && (g.pc.why == Busy ==> g.job.Acquire?)
    ensures Gets(cfg, g, d, h, e) && Out(g, h, e) && e.sync == d.sync && (g.pc.why == Finish ==> h.pc == Idle)
    decreases g.pc.PutRead?
  {
    if g.pc.PutRead? {
      h, e := Put(cfg, Access(cfg, g, d).0, Access(cfg, g, d).1);
      GetsThen(cfg, g, d, h, e);
    } else {
      GetsOne(cfg, g, d);
      h, e := Access(cfg, g, d).0, Access(cfg, g, d).1;
    }
  }

  lemma FromSync(cfg: Config, g: Agent, d: Device, r: nat) returns (h: Agent, e: Device)
    requires (g.pc.ReadSync? || g.pc.WriteSync?) && !d.fwSem && Unused(r, g, d)
    ensures Gets(cfg, g, d, h, e) && Out(g, h, e) && r !in e.sync.sw && r !in e.sync.fw &&
            (g.job.Release? ==> h.pc == Idle)
    decreases g.pc.ReadSync?
  {
    var (g1, d1) := Access(cfg, g, d);
    if g1.pc.WriteSync? {
      h, e := FromSync(cfg, g1, d1, r);
    } else {
      h, e := Put(cfg, g1, d1);
    }
    GetsThen(cfg, g, d, h, e);
  }

  lemma FromLatch(cfg: Config, g: Agent, d: Device) returns (e: Device)
    requires (g.pc.ReadSwsm? || g.pc.LatchFw? || (g.pc.CheckFw? && d.swsm.swesmbi)) && !d.fwSem
    ensures Gets(cfg, g, d, g.(pc := ReadSync), e) && e == d.(swsm := e.swsm)
    decreases if g.pc.ReadSwsm? then 2 else if g.pc.LatchFw? then 1 else 0
  {
    var (g1, d1) := Access(cfg, g, d);
    if g.pc.CheckFw? {
      e := d1;
      GetsSelf(cfg, g1, d1);
    } else {
      e := FromLatch(cfg, g1, d1);
    }
    GetsThen(cfg, g, d, g.(pc := ReadSync), e);
  }

  lemma Leave(cfg: Config, g: Agent, d: Device, r: nat) returns (h: Agent, e: Device)
    requires InLock(g) && !d.fwSem && Unused(r, g, d) &&
             ((g.pc.PutRead? || g.pc.PutWrite?) && g.pc.why == Busy ==> g.job.Acquire?)
    ensures Gets(cfg, g, d, h, e) && Out(g, h, e) && r !in e.sync.sw && r !in e.sync.fw
  {
    if g.pc.PutRead? || g.pc.PutWrite? {
      h, e := Put(cfg, g, d);
    } else if g.pc.ReadSync? || g.pc.WriteSync? {
      h, e := FromSync(cfg, g, d, r);
    } else if g.pc.CheckFw? && !d.swsm.swesmbi {
      h, e := FromFailedCheck(cfg, g, d, r);
    } else {
      var e1 := FromLatch(cfg, g, d);
      h, e := FromSync(cfg, g.(pc := ReadSync), e1, r);
      GetsTrans(cfg, g, d, g.(pc := ReadSync), e1, h, e);
    }
  }

  lemma FromFailedCheck(cfg: Config, g: Agent, d: Device, r: nat) returns (h: Agent, e: Device)
    requires g.pc.CheckFw? && !d.swsm.swesmbi && !d.fwSem && Unused(r, g, d)
    ensures Gets(cfg, g, d, h, e) && Out(g, h, e) && r !in e.sync.sw && r !in e.sync.fw
  {
    var (g1, d1) := Access(cfg, g, d);
    if g1.pc.ReadSwsm? {
      var e1 := FromLatch(cfg, g1, d1);
      h, e := FromSync(cfg, g1.(pc := ReadSync), e1, r);
      GetsTrans(cfg, g1, d1, g1.(pc := ReadSync), e1, h, e);
    } else {
      h, e := Put(cfg, g1, d1);
    }
    GetsThen(cfg, g, d, h, e);
  }

  /** A call finds the lock open in every round and comes to its end. */
  lemma Complete(cfg: Config, g: Agent, d: Device, r: nat) returns (h: Agent, e: Device)
    requires (g.pc == Idle || g.pc.PollSmbi? || g.pc.PollAgain?) && Open(d) && Unused(r, g, d)
    ensures Gets(cfg, g, d, h, e) && h.pc == Idle && Open(e) && r !in e.sync.sw && r !in e.sync.fw
    decreases if g.pc == Idle then 0 else if g.job.Acquire? && g.round < ROUNDS then 1 + ROUNDS - g.round else 1
  {
    if g.pc == Idle {
      GetsSelf(cfg, g, d);
      h, e := g, d;
    } else {
      var (g1, d1) := Access(cfg, g, d);
      var e1 := FromLatch(cfg, g1, d1);
      var g2 := g1.(pc := ReadSync);
      var h2, e2 := FromSync(cfg, g2, e1, r);
      h, e := Complete(cfg, h2, e2, r);
      GetsTrans(cfg, g2, e1, h2, e2, h, e);
      GetsTrans(cfg, g1, d1, g2, e1, h, e);
      GetsThen(cfg, g, d, h, e);
    }
  }

  // ---- both inside ------------------------------------------------------------------------------

  /** The firmware gives up its side, changing nothing in SW_FW_SYNC. */
  lemma FirmwareLeaves(cfg: Config, s: System) returns (t: System)
    requires (s.fw.pc.FwSeen? ==> s.fw.pc.sync == s.dev.sync) && (s.fw.pc != FwIdle <==> s.dev.fwSem)
    ensures Reach(cfg, s, t) && t == s.(dev := s.dev.(fwSem := false), fw := Firmware(FwIdle, s.fw.held))
    decreases if s.fw.pc.FwSeen? then 2 else if s.fw.pc.FwHave? then 1 else 0
  {
    if s.fw.pc == FwIdle {
      t := s;
      ReachSelf(cfg, s);
    } else {
      var l := if s.fw.pc == FwHave then FwDrop else FwYield({});
      var u := Apply(cfg, s, l);
      assert s.dev.sync.fw - {} == s.dev.sync.fw && s.fw.held - {} == s.fw.held;
      ReachStep(cfg, s, l);
      if l == FwDrop {
        t := u;
      } else {
        t := FirmwareLeaves(cfg, u);
        ReachTrans(cfg, s, u, t);
      }
    }
  }

  lemma Fresh(x: set<nat>) returns (r: nat)
    ensures forall y :: y in x ==> y < r
    decreases |x|
  {
    if x == {} {
      r := 0;
    } else {
      var y :| y in x;
      r := Fresh(x - {y});
      if r <= y { r := y + 1; }
      assert forall z :: z in x ==> z == y || z in x - {y};
    }
  }

  predicate BothHold(s: System, x: nat, y: nat, r: nat) {
    x < |s.agents| && y < |s.agents| && x != y && r in s.agents[x].held && r in s.agents[y].held
  }

  /** Agent `y` is inside an open lock with an acquire of a free resource, agent `x` is idle: both read
      SW_FW_SYNC before either writes it, and both end up with the resource. */
  lemma BothAcquire(cfg: Config, s: System, x: nat, y: nat, r: nat) returns (t: System)
    requires x < |s.agents| && y < |s.agents| && x != y && s.agents[x].pc == Idle && Open(s.dev)
    requires s.agents[y].pc == ReadSwsm(0) && s.agents[y].job == Acquire({r}) && r !in s.dev.sync.sw + s.dev.sync.fw
    ensures Reach(cfg, s, t) && BothHold(t, x, y, r)
  {
    var s1 := Apply(cfg, s, Start(x, Acquire({r})));
    ReachStep(cfg, s, Start(x, Acquire({r})));
    var s2 := UpToWrite(cfg, s1, x, r);
    ReachTrans(cfg, s, s1, s2);
    var s3 := UpToWrite(cfg, s2, y, r);
    ReachTrans(cfg, s, s2, s3);
    var s4 := Apply(cfg, s3, Run(y));
    ReachStep(cfg, s3, Run(y));
    ReachTrans(cfg, s, s3, s4);
    t := Apply(cfg, s4, Run(x));
    ReachStep(cfg, s4, Run(x));
    ReachTrans(cfg, s, s4, t);
  }

  lemma UpToWrite(cfg: Config, s: System, x: nat, r: nat) returns (t: System)
    requires x < |s.agents| && !s.dev.fwSem && s.agents[x].job == Acquire({r}) && r !in s.dev.sync.sw + s.dev.sync.fw
    requires s.agents[x].pc == ReadSwsm(0) || (s.agents[x].pc == PollSmbi(0) && Open(s.dev))
    ensures Reach(cfg, s, t) && |t.agents| == |s.agents| && t.agents[x] == s.agents[x].(pc := WriteSync(s.dev.sync))
    ensures !t.dev.fwSem && t.dev.sync == s.dev.sync
    ensures forall y :: 0 <= y < |s.agents| && y != x ==> t.agents[y] == s.agents[y]
  {
    var g, d := s.agents[x], s.dev;
    var g1, d1 := g, d;
    if g.pc.PollSmbi? {
      g1, d1 := Access(cfg, g, d).0, Access(cfg, g, d).1;
      GetsOne(cfg, g, d);
    } else {
      GetsSelf(cfg, g, d);
    }
    var e := FromLatch(cfg, g1, d1);
    var g2 := g1.(pc := ReadSync);
    var h := g1.(pc := WriteSync(d.sync));
    assert (e.sync.sw + e.sync.fw) * {r} == {};
    GetsOne(cfg, g2, e);
    GetsTrans(cfg, g1, d1, g2, e, h, e);
    GetsTrans(cfg, g, d, g1, d1, h, e);
    GetsReach(cfg, s, x, h, e);
    t := With(s, x, h, e);
  }

  /** An agent inside an open lock and another one outside or idle lead to a resource held by both. */
  lemma InsideOpenLock(cfg: Config, s: System, a: nat, b: nat) returns (t: System, r: nat)
    requires a < |s.agents| && b < |s.agents| && a != b && Open(s.dev) && Outside(s.agents[a]) && InLock(s.agents[b])
    requires (s.agents[b].pc.PutRead? || s.agents[b].pc.PutWrite?) && s.agents[b].pc.why == Busy ==>
             s.agents[b].job.Acquire?
    ensures Reach(cfg, s, t) && BothHold(t, b, a, r)
  {
    var ga, gb, d := s.agents[a], s.agents[b], s.dev;
    r := Fresh(Known(ga, d) + Known(gb, d));
    // agent a ends its call
    var h, e := Complete(cfg, ga, d, r);
    GetsReach(cfg, s, a, h, e);
    var s1 := With(s, a, h, e);
    // it asks for the fresh resource and gets into the lock, too
    var s2 := Apply(cfg, s1, Start(a, Acquire({r})));
    ReachStep(cfg, s1, Start(a, Acquire({r})));
    ReachTrans(cfg, s, s1, s2);
    var s3 := Apply(cfg, s2, Run(a));
    ReachStep(cfg, s2, Run(a));
    ReachTrans(cfg, s, s2, s3);
    assert s3.agents[a].pc == ReadSwsm(0) && s3.agents[a].job == Acquire({r}) && s3.agents[b] == gb;
    // agent b leaves the lock, which opens it again, and ends its call
    var h1, e1 := Leave(cfg, gb, s3.dev, r);
    var h2, e2 := Complete(cfg, h1, e1, r);
    GetsTrans(cfg, gb, s3.dev, h1, e1, h2, e2);
    GetsReach(cfg, s3, b, h2, e2);
    var s4 := With(s3, b, h2, e2);
    ReachTrans(cfg, s, s3, s4);
    t := BothAcquire(cfg, s4, b, a, r);
    ReachTrans(cfg, s, s4, t);
  }

  predicate Outside(g: Agent) { g.pc == Idle || g.pc.PollSmbi? || g.pc.PollAgain? }

  function Known(g: Agent, d: Device): set<nat> {
    d.sync.sw + d.sync.fw + g.job.mask + if g.pc.WriteSync? then g.pc.sync.sw + g.pc.sync.fw else {}
  }

  // ---- main result ------------------------------------------------------------------------------

  /** No resource is held by two agents. */
  ghost predicate Exclusive(s: System) {
    forall x: nat, y: nat, r: nat :: !BothHold(s, x, y, r)
  }

  /** The exact condition: after a forced clear no continuation without a further bad one makes two agents
      hold the same resource if and only if no other agent was inside the lock. */
  lemma ForcedClearKeepsExclusionIff(cfg: Config, s: System, a: nat)
    requires Inv(s) && a < |s.agents| && s.agents[a].pc == ForceWrite
    ensures (forall t :: Reach(cfg, Apply(cfg, s, Run(a)), t) ==> Exclusive(t)) <==> !LiveHolder(s, a)
  {
    var u := Apply(cfg, s, Run(a));
    if LiveHolder(s, a) {
      var b :| 0 <= b < |s.agents| && b != a && InLock(s.agents[b]);
      assert AgentInv(s, s.agents[b]);
      var v := FirmwareLeaves(cfg, u);
      var t, r := InsideOpenLock(cfg, v, a, b);
      ReachTrans(cfg, u, v, t);
      assert !Exclusive(t);
    } else {
      StepKeeps(cfg, s, Run(a));
      forall t | Reach(cfg, u, t) ensures Exclusive(t) {
        var ls :| Clean(cfg, u, ls) && Exec(cfg, u, ls) == t;
        RunKeeps(cfg, u, ls);
        InvIsExclusive(t);
      }
    }
  }

  lemma InvIsExclusive(t: System)
    requires Inv(t)
    ensures Exclusive(t)
  {
    forall x: nat, y: nat, r: nat ensures !BothHold(t, x, y, r) {
      if x < |t.agents| && y < |t.agents| && x != y {
        var i, j := if x < y then x else y, if x < y then y else x;
        assert t.agents[i].held !! t.agents[j].held;
      }
    }
  }
}
