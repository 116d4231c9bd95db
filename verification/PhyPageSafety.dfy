/** Paged PHY access is atomic, over every run of the machine. */
module PhyPageSafety {
  import S = Semaphore
  import SS = SemaphoreSafety
  import opened PhyPage

  predicate Inside(t: Thread) { t.prog.Writing? || t.prog.Polling? || t.prog == Leaving }

  /** The call's second half has not reached MDIC, and will not. */
  predicate NotIssued(t: Thread) {
    t.prog == Acquiring || ((t.prog.Writing? || t.prog.Polling?) && t.prog.stage == Select)
    || t.result == NoLock || t.result == SelectFailed || t.result == BadOffset
  }

  /** A thread and its semaphore agent. */
  predicate LockedOk(t: Thread, g: S.Agent) {
    && (t.prog == Acquiring ==> g.job == S.Acquire({PHY}) && (g.pc == S.Idle ==> g.result.Some?))
    && (Inside(t) ==> g.pc == S.Idle && PHY in g.held)
  }

  /** A thread and the PHY. */
  ghost predicate PhyOk(a: nat, t: Thread, p: Phy) {
    && (t.prog.Polling? ==> p.cmd == CommandOf(a, t, t.prog.stage))
    && (t.prog.Writing? && t.prog.stage == Target && p.busy ==> p.cmd == CommandOf(a, t, Target))
    && ((t.prog.Writing? || t.prog.Polling?) && t.prog.stage == Target && Offset(t) != PAGE_SELECT ==>
       p.page == Page(t))
    && (t.prog.Polling? && t.prog.stage == Select && Success(p, PAGE_SELECT) ==> p.page == Page(t))
    && (t.prog.Polling? && t.prog.stage == Target && Offset(t) != PAGE_SELECT && Success(p, Offset(t)) ==>
          Accessed(p.log, a, t, if t.write then t.value else p.value))
    && (t.result.Done? && Offset(t) != PAGE_SELECT ==> Accessed(p.log, a, t, t.result.value))
  }

  /** The access that a thread is for is in the log. */
  ghost predicate Accessed(log: seq<Entry>, a: nat, t: Thread, v: nat) {
    Carried(log, a, t.call, Page(t), Offset(t), t.write, v)
  }

  /** What a thread has issued, and that it is at the call that was asked for. */
  ghost predicate IssuedOk(a: nat, t: Thread, issued: set<(nat, nat)>, asked: map<(nat, nat), Request>) {
    && (NotIssued(t) ==> (a, t.call) !in issued)
    && (t.prog == Acquiring || t.prog.Writing? || t.prog.Polling? ==>
          && t.result == Pending
          && (a, t.call) in asked && asked[(a, t.call)] == Request(t.address, t.write, t.value))
    && ((t.prog.Writing? || t.prog.Polling?) && t.prog.stage == Target ==> Offset(t) <= MAX_PHY_REG_ADDRESS)
    && (t.result.Done? && t.write ==> t.result.value == t.value)
  }

  /** The log is a history of a two-dimensional register file, and a command in progress will extend it. */
  ghost predicate LogOk(p: Phy, issued: set<(nat, nat)>, asked: map<(nat, nat), Request>) {
    && (p.busy && p.cmd.reg != PAGE_SELECT ==>
          p.cmd.page == p.page && (p.cmd.issuer, p.cmd.call) in issued && AsAsked(asked, EntryOf(p.cmd)))
    && (forall e :: e in p.log ==> e.page == e.want && (e.issuer, e.call) in issued && AsAsked(asked, e))
    && p.regs == After(p.log) && ReadsAgree(p.log)
  }

  function EntryOf(c: Command): Entry { Entry(c.issuer, c.call, c.page, c.page, c.reg, c.write, c.value) }

  ghost predicate Inv(w: World) {
    && |w.threads| == |w.sem.agents| && SS.Inv(w.sem) == true
    && (forall a :: 0 <= a < |w.threads| ==> LockedOk(w.threads[a], w.sem.agents[a]))
    && (forall a :: 0 <= a < |w.threads| ==> PhyOk(a, w.threads[a], w.phy))
    && (forall a :: 0 <= a < |w.threads| ==> IssuedOk(a, w.threads[a], w.issued, w.asked))
    && (forall c :: c in w.issued ==> c.0 < |w.threads| && c.1 <= w.threads[c.0].call)
    && LogOk(w.phy, w.issued, w.asked)
  }

  /** Under the lock there is one thread at a time. */
  lemma OneInside(w: World, a: nat, b: nat)
    requires Inv(w) && a < |w.threads| && b < |w.threads| && Inside(w.threads[a]) && Inside(w.threads[b])
    ensures a == b
  {
    assert LockedOk(w.threads[a], w.sem.agents[a]) && LockedOk(w.threads[b], w.sem.agents[b]);
    assert PHY in w.sem.agents[a].held && PHY in w.sem.agents[b].held;
  }

  // ---- semaphore steps --------------------------------------------------------------------------

  /** A step of the semaphore never touches an idle agent that did not start it, and a call that ends has
      a result. */
  lemma SemFrame(cfg: S.Config, s: S.System, l: S.Label, a: nat)
    requires S.Enabled(s, l) && a < |s.agents|
    ensures |S.Apply(cfg, s, l).agents| == |s.agents|
    ensures s.agents[a].pc == S.Idle && !(l.Start? && l.a == a) ==> S.Apply(cfg, s, l).agents[a] == s.agents[a]
    ensures !(l.Start? && l.a == a) ==>
              var g := S.Apply(cfg, s, l).agents[a];
              g.job == s.agents[a].job && (s.agents[a].pc != S.Idle && g.pc == S.Idle ==> g.result.Some?)
  {
  }

  lemma SemKeeps(cfg: Config, w: World, l: S.Label)
    requires Inv(w) && Enabled(w, Sem(l)) && !S.BadForce(w.sem, l)
    ensures Inv(Apply(cfg, w, Sem(l)))
  {
    SS.StepKeeps(cfg.sem, w.sem, l);
    var w' := Apply(cfg, w, Sem(l));
    forall a | 0 <= a < |w.threads|
      ensures |w'.threads| == |w'.sem.agents| && LockedOk(w'.threads[a], w'.sem.agents[a])
    {
      SemFrame(cfg.sem, w.sem, l, a);
      assert LockedOk(w.threads[a], w.sem.agents[a]);
    }
    SameAgents(cfg.sem, w.sem, l);
  }

  lemma SameAgents(cfg: S.Config, s: S.System, l: S.Label)
    ensures |S.Apply(cfg, s, l).agents| == |s.agents|
  {
  }

  /** The arguments of a new call leave those of the calls so far alone. */
  lemma AskedGrows(w: World, key: (nat, nat), asked: map<(nat, nat), Request>)
    requires Inv(w) && key.0 < |w.threads| && w.threads[key.0].call < key.1
    requires asked == w.asked || (key in asked && asked == w.asked[key := asked[key]])
    ensures LogOk(w.phy, w.issued, asked) == true
    ensures forall b :: 0 <= b < |w.threads| && b != key.0 ==> IssuedOk(b, w.threads[b], w.issued, asked)
  {
    assert key !in w.issued;
  }

  /** Starting a semaphore call for thread `a`, which takes `t'` for its new state. */
  lemma StartKeeps(cfg: Config, w: World, a: nat, job: S.Job, t': Thread, asked: map<(nat, nat), Request>)
    requires Inv(w) && a < |w.threads| && S.Enabled(w.sem, S.Start(a, job))
    requires !Inside(t') && (t'.prog == Acquiring ==> job == S.Acquire({PHY}))
    requires asked == w.asked || asked == w.asked[(a, w.threads[a].call + 1) := Request(t'.address, t'.write, t'.value)]
    requires asked != w.asked ==> t'.call == w.threads[a].call + 1
    requires PhyOk(a, t', w.phy) && IssuedOk(a, t', w.issued, asked) && t'.call >= w.threads[a].call
    ensures Inv(SetThread(w, a, t').(sem := S.Apply(cfg.sem, w.sem, S.Start(a, job)), asked := asked))
  {
    SS.StepKeeps(cfg.sem, w.sem, S.Start(a, job));
    var w' := SetThread(w, a, t').(sem := S.Apply(cfg.sem, w.sem, S.Start(a, job)), asked := asked);
    AskedGrows(w, (a, w.threads[a].call + 1), asked);
    forall b | 0 <= b < |w.threads| ensures LockedOk(w'.threads[b], w'.sem.agents[b]) {
      if b != a {
        SemFrame(cfg.sem, w.sem, S.Start(a, job), b);
        assert LockedOk(w.threads[b], w.sem.agents[b]);
      }
    }
  }

  /** A step that only changes thread `a`. */
  lemma ThreadKeeps(w: World, a: nat, t': Thread)
    requires Inv(w) && a < |w.threads|
    requires LockedOk(t', w.sem.agents[a]) && PhyOk(a, t', w.phy) && IssuedOk(a, t', w.issued, w.asked) &&
             t'.call == w.threads[a].call
    ensures Inv(SetThread(w, a, t'))
  {
  }

  lemma CallKeeps(cfg: Config, w: World, l: Label)
    requires Inv(w) && l.Call? && Enabled(w, l)
    ensures Inv(Apply(cfg, w, l)) == true
  {
    var t := Thread(Acquiring, l.address, l.write, l.value, w.threads[l.a].call + 1, Pending);
    var asked := w.asked[(l.a, t.call) := Request(l.address, l.write, l.value)];
    assert IssuedOk(l.a, t, w.issued, asked) && PhyOk(l.a, t, w.phy);
    StartKeeps(cfg, w, l.a, S.Acquire({PHY}), t, asked);
  }

  lemma EnterKeeps(cfg: Config, w: World, a: nat)
    requires Inv(w) && Enabled(w, Enter(a))
    ensures Inv(Apply(cfg, w, Enter(a)))
  {
    var t := w.threads[a];
    assert LockedOk(t, w.sem.agents[a]) && PhyOk(a, t, w.phy) && IssuedOk(a, t, w.issued, w.asked);
    assert SS.AgentInv(w.sem, w.sem.agents[a]);
    ThreadKeeps(w, a, Apply(cfg, w, Enter(a)).threads[a]);
  }

  lemma LeaveKeeps(cfg: Config, w: World, a: nat)
    requires Inv(w) && Enabled(w, Leave(a))
    ensures Inv(Apply(cfg, w, Leave(a)))
  {
    var t := w.threads[a];
    assert LockedOk(t, w.sem.agents[a]) && PhyOk(a, t, w.phy) && IssuedOk(a, t, w.issued, w.asked);
    StartKeeps(cfg, w, a, S.Release({PHY}), t.(prog := Releasing), w.asked);
  }

  lemma ReturnKeeps(cfg: Config, w: World, a: nat)
    requires Inv(w) && Enabled(w, Return(a))
    ensures Inv(Apply(cfg, w, Return(a)))
  {
    var t := w.threads[a];
    assert LockedOk(t, w.sem.agents[a]) && PhyOk(a, t, w.phy) && IssuedOk(a, t, w.issued, w.asked);
    ThreadKeeps(w, a, t.(prog := Out));
  }

  // ---- MDIC accesses ----------------------------------------------------------------------------

  lemma PollKeeps(cfg: Config, w: World, a: nat)
    requires Inv(w) && Enabled(w, Mdic(a)) && w.threads[a].prog.Polling?
    ensures Inv(Apply(cfg, w, Mdic(a)))
  {
    var t := w.threads[a];
    assert LockedOk(t, w.sem.agents[a]) && PhyOk(a, t, w.phy) && IssuedOk(a, t, w.issued, w.asked);
    ThreadKeeps(w, a, AfterPoll(cfg, t, w.phy));
  }

  lemma WriteKeeps(cfg: Config, w: World, a: nat)
    requires Inv(w) && Enabled(w, Mdic(a)) && w.threads[a].prog.Writing?
    ensures Inv(Apply(cfg, w, Mdic(a)))
  {
    var w' := Apply(cfg, w, Mdic(a));
    forall b | 0 <= b < |w.threads| ensures ThreadOk(w', b) == true {
      WriteSpares(cfg, w, a, b);
    }
    assert forall b :: 0 <= b < |w.threads| ==> ThreadOk(w', b);
    WriteKeepsLog(cfg, w, a);
  }

  /** The command written is one that its caller's page fits. */
  lemma WriteKeepsLog(cfg: Config, w: World, a: nat)
    requires Inv(w) && Enabled(w, Mdic(a)) && w.threads[a].prog.Writing?
    ensures var w' := Apply(cfg, w, Mdic(a));
            && LogOk(w'.phy, w'.issued, w'.asked) == true
            && (forall c :: c in w'.issued ==> c.0 < |w'.threads| && c.1 <= w'.threads[c.0].call)
  {
    assert ThreadOk(w, a);
  }

  /** What the invariant says of thread `b`. */
  ghost predicate ThreadOk(w: World, b: nat)
    requires b < |w.threads| == |w.sem.agents|
  {
    LockedOk(w.threads[b], w.sem.agents[b]) && PhyOk(b, w.threads[b], w.phy) &&
        IssuedOk(b, w.threads[b], w.issued, w.asked)
  }

  lemma WriteSpares(cfg: Config, w: World, a: nat, b: nat)
    requires Inv(w) && Enabled(w, Mdic(a)) && w.threads[a].prog.Writing? && b < |w.threads|
    ensures ThreadOk(Apply(cfg, w, Mdic(a)), b) == true
  {
    assert ThreadOk(w, b);
    if b != a && Inside(w.threads[b]) {
      OneInside(w, a, b);
    }
  }

  // ---- the PHY finishes a command ---------------------------------------------------------------

  lemma AccessedGrows(log: seq<Entry>, e: Entry, a: nat, t: Thread, v: nat)
    requires Accessed(log, a, t, v)
    ensures Accessed(log + [e], a, t, v)
  {
    var i :| 0 <= i < |log| && log[i] == Entry(a, t.call, Page(t), Page(t), Offset(t), t.write, v);
    assert (log + [e])[i] == log[i];
  }

  lemma LogGrows(log: seq<Entry>, e: Entry)
    requires ReadsAgree(log) && (!e.write ==> e.value == Get(After(log), e.want, e.reg))
    ensures ReadsAgree(log + [e])
    ensures After(log + [e]) == if e.write then After(log)[(e.want, e.reg) := e.value] else After(log)
  {
    assert (log + [e])[..|log|] == log;
    forall i | 0 <= i < |log + [e]| && !(log + [e])[i].write
      ensures (log + [e])[i].value == Get(After((log + [e])[..i]), (log + [e])[i].want, (log + [e])[i].reg)
    {
      if i < |log| {
        assert (log + [e])[..i] == log[..i];
      }
    }
  }

  lemma LongerLogOk(p: Phy, q: Phy, e: Entry, issued: set<(nat, nat)>, asked: map<(nat, nat), Request>)
    requires LogOk(p, issued, asked) && q.log == p.log + [e] && !q.busy
    requires q.regs == After(q.log) && ReadsAgree(q.log)
    requires e.page == e.want && (e.issuer, e.call) in issued && AsAsked(asked, e) == true
    ensures LogOk(q, issued, asked)
  {
  }

  lemma EffectKeepsLog(p: Phy, issued: set<(nat, nat)>, asked: map<(nat, nat), Request>)
    requires LogOk(p, issued, asked) && p.busy
    ensures var q := Effect(p); LogOk(q.(busy := false), issued, asked)
  {
    if p.cmd.reg != PAGE_SELECT {
      var q := Effect(p);
      var e := q.log[|p.log|];
      assert q.log == p.log + [e] && AsAsked(asked, e) == AsAsked(asked, EntryOf(p.cmd));
      LogGrows(p.log, e);
      LongerLogOk(p, q.(busy := false), e, issued, asked);
    }
  }

  lemma CompleteKeepsThread(p: Phy, a: nat, t: Thread, q: Phy, l: Label)
    requires PhyOk(a, t, p) && p.busy && l.Complete? && (!l.error && l.reported == p.cmd.reg ==> l.effect)
    requires q == OnComplete(p, l.effect, l.error, l.reported, l.junk)
    ensures PhyOk(a, t, q)
  {
    if q.log != p.log {
      var e := q.log[|p.log|];
      assert q.log == p.log + [e];
      if t.result.Done? && Offset(t) != PAGE_SELECT {
        AccessedGrows(p.log, e, a, t, t.result.value);
      }
      if t.prog.Polling? && t.prog.stage == Target {
        assert q.log[|p.log|] == e;
      }
    }
  }

  lemma CompleteKeeps(cfg: Config, w: World, l: Label)
    requires Inv(w) && l.Complete? && Enabled(w, l)
    ensures Inv(Apply(cfg, w, l))
  {
    var w' := Apply(cfg, w, l);
    EffectKeepsLog(w.phy, w.issued, w.asked);
    forall a | 0 <= a < |w.threads| ensures PhyOk(a, w.threads[a], w'.phy) {
      CompleteKeepsThread(w.phy, a, w.threads[a], w'.phy, l);
    }
  }

  // ---- runs -------------------------------------------------------------------------------------

  lemma InitInv(w: World, stuck: bool)
    requires Init(w, stuck)
    ensures Inv(w)
  {
    SS.InitInv(w.sem, stuck);
  }

  lemma StepKeeps(cfg: Config, w: World, l: Label)
    requires Inv(w) && !(l.Sem? && S.BadForce(w.sem, l.l))
    ensures Inv(Apply(cfg, w, l))
  {
    if Enabled(w, l) {
      match l
      case Sem(sl) => SemKeeps(cfg, w, sl);
      case Call(_, _, _, _) => CallKeeps(cfg, w, l);
      case Enter(a) => EnterKeeps(cfg, w, a);
      case Mdic(a) => if w.threads[a].prog.Writing? { WriteKeeps(cfg, w, a); } else { PollKeeps(cfg, w, a); }
      case Complete(_, _, _, _) => CompleteKeeps(cfg, w, l);
      case Leave(a) => LeaveKeeps(cfg, w, a);
      case Return(a) => ReturnKeeps(cfg, w, a);
    }
  }

  lemma {:induction false} RunKeeps(cfg: Config, w: World, ls: seq<Label>)
    requires Inv(w) && Clean(cfg, w, ls)
    ensures Inv(Exec(cfg, w, ls))
    decreases |ls|
  {
    if ls == [] {
    } else {
      StepKeeps(cfg, w, ls[0]);
      RunKeeps(cfg, Apply(cfg, w, ls[0]), ls[1..]);
    }
  }

  // ---- main results -----------------------------------------------------------------------------

  /** In every run each access the PHY carries out is the one its call asked for: its page is the upper half
      of the address, its register the lower half. The registers are those of a two-dimensional register
      file accessed in the order of the log, and at most one call is between taking and giving back the
      lock. */
  lemma PagedAccessIsAtomic(cfg: Config, w: World, stuck: bool, ls: seq<Label>)
    requires Init(w, stuck) && Clean(cfg, w, ls)
    ensures var t := Exec(cfg, w, ls);
            && (forall e :: e in t.phy.log ==> e.page == e.want && AsAsked(t.asked, e))
            && t.phy.regs == After(t.phy.log) && ReadsAgree(t.phy.log)
            && forall a, b ::
                 0 <= a < |t.threads| && 0 <= b < |t.threads| && Inside(t.threads[a]) && Inside(t.threads[b]) ==> a == b
  {
    InitInv(w, stuck);
    RunKeeps(cfg, w, ls);
    var t := Exec(cfg, w, ls);
    forall a, b | 0 <= a < |t.threads| && 0 <= b < |t.threads| && Inside(t.threads[a]) && Inside(t.threads[b])
      ensures a == b
    {
      OneInside(t, a, b);
    }
  }

  /** A call on a register other than the page select that reports success was carried out: a write put
      its value into (page, offset), a read returns what (page, offset) held. */
  lemma SuccessIsAnAccess(cfg: Config, w: World, stuck: bool, ls: seq<Label>, a: nat, page: nat, offset: nat)
    requires Init(w, stuck) && Clean(cfg, w, ls) && a < |Exec(cfg, w, ls).threads|
    requires offset < 0x1_0000 && offset != 0x16
    requires Exec(cfg, w, ls).threads[a].address == page * 0x1_0000 + offset
    ensures var t := Exec(cfg, w, ls).threads[a];
            t.result.Done? ==>
              && Carried(Exec(cfg, w, ls).phy.log, a, t.call, page, offset, t.write, t.result.value)
              && (t.write ==> t.result.value == t.value)
  {
    InitInv(w, stuck);
    RunKeeps(cfg, w, ls);
    var t := Exec(cfg, w, ls).threads[a];
    assert PhyOk(a, t, Exec(cfg, w, ls).phy) && IssuedOk(a, t, Exec(cfg, w, ls).issued, Exec(cfg, w, ls).asked);
    assert Page(t) == page && Offset(t) == offset;
  }

  /** Call `c` of agent `a` is over, or about to give the lock back, without its second half. */
  predicate Closed(w: World, a: nat, c: nat) {
    && a < |w.threads| && (a, c) !in w.issued
    && (w.threads[a].call > c ||
       (w.threads[a].call == c &&
           (w.threads[a].prog == Leaving || w.threads[a].prog == Releasing || w.threads[a].prog == Out)))
  }

  lemma {:induction false} StaysClosed(cfg: Config, w: World, ls: seq<Label>, a: nat, c: nat)
    requires Closed(w, a, c)
    ensures Closed(Exec(cfg, w, ls), a, c)
    decreases |ls|
  {
    if ls == [] {
    } else {
      StaysClosed(cfg, Apply(cfg, w, ls[0]), ls[1..], a, c);
    }
  }

  /** If the lock was not had, the page select failed or the offset is out of range, the call's register
      is not accessed, neither before the call returns nor ever after. */
  lemma FailedCallTouchesNothing(cfg: Config, w: World, stuck: bool, before: seq<Label>, after: seq<Label>, a: nat)
    requires Init(w, stuck) && Clean(cfg, w, before) && a < |Exec(cfg, w, before).threads|
    requires var t := Exec(cfg, w, before).threads[a];
             t.result == NoLock || t.result == SelectFailed || t.result == BadOffset
    requires Clean(cfg, Exec(cfg, w, before), after)
    ensures forall e :: e in Exec(cfg, Exec(cfg, w, before), after).phy.log ==>
              !(e.issuer == a && e.call == Exec(cfg, w, before).threads[a].call)
  {
    InitInv(w, stuck);
    RunKeeps(cfg, w, before);
    var t := Exec(cfg, w, before);
    assert IssuedOk(a, t.threads[a], t.issued, t.asked);
    StaysClosed(cfg, t, after, a, t.threads[a].call);
    RunKeeps(cfg, t, after);
  }

  lemma {:induction false} Extend(cfg: Config, w: World, ls: seq<Label>, l: Label)
    ensures Exec(cfg, w, ls + [l]) == Apply(cfg, Exec(cfg, w, ls), l)
    ensures Clean(cfg, w, ls + [l]) <==> Clean(cfg, w, ls) && !(l.Sem? && S.BadForce(Exec(cfg, w, ls).sem, l.l))
    decreases |ls|
  {
    if ls == [] {
      assert [] + [l] == [l];
      assert Exec(cfg, Apply(cfg, w, l), []) == Apply(cfg, w, l);
    } else {
      assert (ls + [l])[1..] == ls[1..] + [l];
      Extend(cfg, Apply(cfg, w, ls[0]), ls[1..], l);
    }
  }
}
