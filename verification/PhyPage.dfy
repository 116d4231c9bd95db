/** Paged PHY access of the i210 (gs40g) as a state machine over single accesses to MDIC, with the SW/FW
    semaphore it takes as a part of it. Any number of software agents call the same functions; the PHY
    finishes a command at any later time, with or without effect, or never. */
module PhyPage {
  import S = Semaphore

  /** The resource number that E1000_SWFW_PHY0_SM stands for. */
  const PHY: nat := 1

  const MAX_PHY_REG_ADDRESS: nat := 0x1F
  const PAGE_SELECT: nat := 0x16

  /** Polls of MDIC: E1000_GEN_POLL_TIMEOUT * 3. */
  const POLLS: nat := 1920

  /** `retries` is phy.current_retry_counter. */
  datatype Config = Config(sem: S.Config, retries: nat)

  /** Both halves of a paged access: selecting the page and accessing the register. */
  datatype Stage = Select | Target

  /** What is written to MDIC, with the call it is for. */
  datatype Command = Command(issuer: nat, call: nat, reg: nat, page: nat, write: bool, value: nat)

  /** An access the PHY carried out on a register other than the page select: on which page, and on which
      page the call wanted it. */
  datatype Entry = Entry(issuer: nat, call: nat, page: nat, want: nat, reg: nat, write: bool, value: nat)

  /** The PHY and MDIC: the command written last, whether it is still in progress, and what MDIC shows
      when it is ready. */
  datatype Phy = Phy(page: nat, regs: map<(nat, nat), nat>, cmd: Command, busy: bool, error: bool, reported: nat,
                     value: nat, log: seq<Entry>)

  datatype Outcome = Pending | Done(value: nat) | NoLock | SelectFailed | AccessFailed | BadOffset

  datatype Prog =
    | Out
    | Acquiring
    | Writing(stage: Stage, tries: nat)
    | Polling(stage: Stage, tries: nat, polls: nat)
    | Leaving
    | Releasing

  /** A call of read_phy_reg_gs40g or write_phy_reg_gs40g, in progress or the last one. */
  datatype Thread = Thread(prog: Prog, address: nat, write: bool, value: nat, call: nat, result: Outcome)

  /** The arguments of a call. */
  datatype Request = Request(address: nat, write: bool, value: nat)

  /** `issued` are the calls whose second half has reached MDIC; `asked` are the arguments of all calls, by
      agent and number. */
  datatype World = World(sem: S.System, threads: seq<Thread>, phy: Phy, issued: set<(nat, nat)>,
                         asked: map<(nat, nat), Request>)

  datatype Label =
    | Sem(l: S.Label)
    | Call(a: nat, address: nat, write: bool, value: nat)
    | Enter(a: nat)
    | Mdic(a: nat)
    | Complete(effect: bool, error: bool, reported: nat, junk: nat)
    | Leave(a: nat)
    | Return(a: nat)

  // The upper half of the argument is the page, the lower half the register.
  function Page(t: Thread): nat { t.address / 0x1_0000 }
  function Offset(t: Thread): nat { t.address % 0x1_0000 }

  function CommandOf(a: nat, t: Thread, stage: Stage): Command {
    if stage == Select then Command(a, t.call, PAGE_SELECT, Page(t), true, Page(t))
    else Command(a, t.call, Offset(t), Page(t), t.write, t.value)
  }

  function Get(regs: map<(nat, nat), nat>, page: nat, reg: nat): nat {
    if (page, reg) in regs then regs[(page, reg)] else 0
  }

  // ---- the PHY ----------------------------------------------------------------------------------

  function OnWriteMdic(p: Phy, c: Command): Phy { p.(cmd := c, busy := true) }

  /** The effect of the command in MDIC. */
  function Effect(p: Phy): Phy {
    var c := p.cmd;
    if c.reg == PAGE_SELECT then
      if c.write then p.(page := c.value) else p.(value := p.page)
    else if c.write then
      p.(regs := p.regs[(p.page, c.reg) := c.value],
          log := p.log + [Entry(c.issuer, c.call, p.page, c.page, c.reg, true, c.value)])
    else
      var v := Get(p.regs, p.page, c.reg);
      p.(value := v, log := p.log + [Entry(c.issuer, c.call, p.page, c.page, c.reg, false, v)])
  }

  /** The PHY is done with the command; what it reports without error has had its effect. */
  function OnComplete(p: Phy, effect: bool, error: bool, reported: nat, junk: nat): Phy {
    (if effect then Effect(p) else p.(value := junk)).(busy := false, error := error, reported := reported)
  }

  // ---- a call -----------------------------------------------------------------------------------

  /** MDIC is ready, without error, and names the register asked for. */
  predicate Success(p: Phy, reg: nat) { !p.busy && !p.error && p.reported == reg }

  /** What a call does after reading MDIC. */
  function AfterPoll(cfg: Config, t: Thread, p: Phy): Thread
    requires t.prog.Polling?
  {
    var stage := t.prog.stage;
    if p.busy && t.prog.polls + 1 < POLLS then t.(prog := Polling(stage, t.prog.tries, t.prog.polls + 1))
    else if Success(p, if stage == Select then PAGE_SELECT else Offset(t)) then
      if stage == Target then t.(prog := Leaving, result := Done(if t.write then t.value else p.value))
      else if Offset(t) > MAX_PHY_REG_ADDRESS then t.(prog := Leaving, result := BadOffset)
      else t.(prog := Writing(Target, 0))
    else if t.prog.tries < cfg.retries then t.(prog := Writing(stage, t.prog.tries + 1))
    else t.(prog := Leaving, result := if stage == Select then SelectFailed else AccessFailed)
  }

  // ---- the whole system -------------------------------------------------------------------------

  /** The agent has no semaphore call in progress. */
  predicate Resting(w: World, a: nat) {
    a < |w.threads| && a < |w.sem.agents| && w.sem.agents[a].pc == S.Idle
  }

  /** Outside these calls an agent may use the semaphore for other resources. */
  predicate Enabled(w: World, l: Label) {
    match l
    case Sem(sl) =>
      S.Enabled(w.sem, sl) && (sl.Start? ==> sl.a < |w.threads| && w.threads[sl.a].prog == Out && PHY !in sl.job.mask)
    case Call(a, _, _, _) => Resting(w, a) && w.threads[a].prog == Out
    case Enter(a) => Resting(w, a) && w.threads[a].prog == Acquiring
    case Mdic(a) => a < |w.threads| && (w.threads[a].prog.Writing? || w.threads[a].prog.Polling?)
    case Complete(effect, error, reported, _) => w.phy.busy && (!error && reported == w.phy.cmd.reg ==> effect)
    case Leave(a) => a < |w.threads| && w.threads[a].prog == Leaving
    case Return(a) => Resting(w, a) && w.threads[a].prog == Releasing
  }

  function SetThread(w: World, a: nat, t: Thread): World
    requires a < |w.threads|
  {
    w.(threads := w.threads[a := t])
  }

  function Apply(cfg: Config, w: World, l: Label): World {
    if !Enabled(w, l) then w else
    match l
    case Sem(sl) => w.(sem := S.Apply(cfg.sem, w.sem, sl))
    case Call(a, address, write, value) =>
      SetThread(w, a, Thread(Acquiring, address, write, value, w.threads[a].call + 1, Pending))
        .(sem := S.Apply(cfg.sem, w.sem, S.Start(a, S.Acquire({PHY}))),
          asked := w.asked[(a, w.threads[a].call + 1) := Request(address, write, value)])
    case Enter(a) =>
      SetThread(w, a, if w.sem.agents[a].result == S.Some(true) then w.threads[a].(prog := Writing(Select, 0))
                      else w.threads[a].(prog := Out, result := NoLock))
    case Mdic(a) =>
      var t := w.threads[a];
      if t.prog.Writing? then
        SetThread(w, a, t.(prog := Polling(t.prog.stage, t.prog.tries, 0)))
          .(phy := OnWriteMdic(w.phy, CommandOf(a, t, t.prog.stage)),
            issued := if t.prog.stage == Target then w.issued + {(a, t.call)} else w.issued)
      else SetThread(w, a, AfterPoll(cfg, t, w.phy))
    case Complete(effect, error, reported, junk) => w.(phy := OnComplete(w.phy, effect, error, reported, junk))
    case Leave(a) =>
      SetThread(w, a, w.threads[a].(prog := Releasing)).(sem := S.Apply(cfg.sem, w.sem, S.Start(a, S.Release({PHY}))))
    case Return(a) => SetThread(w, a, w.threads[a].(prog := Out))
  }

  function Exec(cfg: Config, w: World, ls: seq<Label>): World
    decreases |ls|
  {
    if ls == [] then w else Exec(cfg, Apply(cfg, w, ls[0]), ls[1..])
  }

  /** No call is in progress and nothing was accessed; the page register may stand anywhere. */
  predicate Init(w: World, stuck: bool) {
    && S.Init(w.sem, stuck)
    && |w.threads| == |w.sem.agents|
    && (forall a :: 0 <= a < |w.threads| ==> w.threads[a].prog == Out && w.threads[a].result == Pending)
    && w.phy.regs == map[] && w.phy.log == [] && !w.phy.busy && w.issued == {}
  }

  /** No forced clear of the semaphore hits a live holder. */
  predicate Clean(cfg: Config, w: World, ls: seq<Label>)
    decreases |ls|
  {
    ls == [] || (!(ls[0].Sem? && S.BadForce(w.sem, ls[0].l)) && Clean(cfg, Apply(cfg, w, ls[0]), ls[1..]))
  }

  // ---- the register file the calls see ----------------------------------------------------------

  /** The two-dimensional register file after a series of accesses. */
  function After(log: seq<Entry>): map<(nat, nat), nat> {
    if log == [] then map[]
    else
      var e := log[|log| - 1];
      if e.write then After(log[..|log| - 1])[(e.want, e.reg) := e.value] else After(log[..|log| - 1])
  }

  /** Every read of the series returns what the register held. */
  predicate ReadsAgree(log: seq<Entry>) {
    forall i :: 0 <= i < |log| && !log[i].write ==> log[i].value == Get(After(log[..i]), log[i].want, log[i].reg)
  }

  /** The log has an access of this call to this register of this page, made on that page. */
  ghost predicate Carried(log: seq<Entry>, issuer: nat, call: nat, page: nat, reg: nat, write: bool, v: nat) {
    exists i :: 0 <= i < |log| && log[i] == Entry(issuer, call, page, page, reg, write, v)
  }

  /** An access is the one its call asked for: on the page in the upper half of the address, to the register
      in the lower half. */
  ghost predicate AsAsked(asked: map<(nat, nat), Request>, e: Entry) {
    && (e.issuer, e.call) in asked
    && var r := asked[(e.issuer, e.call)];
       && e.reg <= 0x1F && r.address == e.page * 0x1_0000 + e.reg
       && e.write == r.write && (e.write ==> e.value == r.value)
  }
}
