/** What every step of the mailbox protocol keeps, and the results over all runs. */
module MailboxSafety {
  import opened Mailbox

  // ---- the invariant ----------------------------------------------------------------------------

  /** At most one side owns the buffer, and a side outside a call holds no owner bit. */
  ghost predicate LockInv(s: System) {
    && !(s.hw.vfu && s.hw.pfu)
    && (Owns(s.vf) ==> s.hw.vfu)
    && (Owns(s.pf) ==> s.hw.pfu)
    && (s.hw.vfu ==> Owns(s.vf) || s.vf.pc.Confirm?)
    && (s.hw.pfu ==> Owns(s.pf) || s.pf.pc.Confirm?)
    && s.shadow <= R2C
    && s.hw.status <= R2C + {RSTI}
  }

  /** The call in progress fits the access it is at. */
  predicate PartyInv(p: Party) {
    && (p.pc != Idle && p.op.Send? ==> |p.op.msg| <= SIZE)
    && (p.pc != Idle && p.op.Receive? ==> p.op.size <= SIZE)
    && (p.pc.FlushMsg? || p.pc.ClearMsg? || p.pc.FlushAck? || p.pc.ClearAck? || p.pc.Copy? || p.pc.Post? ==> p.op.Send?)
    && (p.pc.Fetch? || p.pc.Return? ==> p.op.Receive?)
    && (p.pc.Copy? ==> p.pc.i < |p.op.msg|)
    && (p.pc.Fetch? ==> p.pc.i < p.op.size && |p.got| == p.pc.i)
    && (p.pc.Return? ==> |p.got| == p.op.size)
    && (p.pc.Claim? || p.pc.Confirm? ==> p.op.Send? || p.op.Receive?)
  }

  /** Words a side has already written into the buffer. */
  function Written(p: Party): seq<Word>
    requires PartyInv(p)
  {
    if p.pc.Copy? then p.op.msg[..p.pc.i] else if p.pc.Post? then p.op.msg else []
  }

  /** The buffer is what the last completed write left, overlaid with the words of a write in progress. */
  ghost predicate ContentInv(s: System, initial: seq<Word>) {
    && PartyInv(s.vf) && PartyInv(s.pf)
    && |initial| == SIZE && |s.hw.mem| == SIZE
    && (forall m :: m in s.sent ==> |m.content| == SIZE)
    && s.hw.mem == Overlay(Written(s.vf), Overlay(Written(s.pf), LastContent(s, initial)))
    && GotPrefix(s.vf, LastContent(s, initial))
    && GotPrefix(s.pf, LastContent(s, initial))
  }

  /** A read in progress has copied the front of the buffer. */
  predicate GotPrefix(p: Party, content: seq<Word>) {
    (p.pc.Fetch? || p.pc.Return?) && |p.got| <= |content| ==> p.got == content[..|p.got|]
  }

  /** `w` written over the front of `base`. */
  function Overlay(w: seq<Word>, base: seq<Word>): seq<Word> {
    if |w| <= |base| then w + base[|w|..] else base
  }

  /** A notification that is pending or was consumed belongs to the last completed write. */
  ghost predicate NoticeInv(s: System) {
    && (PFSTS in s.hw.status + s.shadow ==> LastBy(s, Pf))
    && (s.vf.noticed ==> LastBy(s, Pf))
    && (s.hw.req ==> LastBy(s, Vf))
    && (s.pf.noticed ==> LastBy(s, Vf))
    && (s.vf.pc.FlushAck? || s.vf.pc.Copy? || s.vf.pc.Post? ==> PFSTS !in s.hw.status + s.shadow)
    && (s.pf.pc.FlushAck? || s.pf.pc.ClearAck? || s.pf.pc.Copy? || s.pf.pc.Post? ==> !s.hw.req)
    && (s.pf.pc.Take? && s.pf.op == CheckMsg ==> s.hw.req)
  }

  ghost predicate Inv(s: System, initial: seq<Word>) {
    LockInv(s) && ContentInv(s, initial) && NoticeInv(s)
  }

  lemma InitInv(s: System)
    requires Init(s)
    ensures Inv(s, s.hw.mem)
  {
  }

  /** A read of V2PMAILBOX moves bits between the register and the shadow and loses none. */
  lemma CheckBitFacts(s: System, mask: set<Bit>)
    requires s.shadow <= R2C && s.hw.status <= R2C + {RSTI}
    ensures var t := CheckBit(s, mask).1;
            && t == s.(hw := s.hw.(status := t.hw.status), shadow := t.shadow)
            && t.shadow <= R2C && t.hw.status <= R2C + {RSTI}
            && t.hw.status + t.shadow <= s.hw.status + s.shadow
            && mask !! t.shadow && t.hw.status !! R2C
  {
  }

  /** A step that leaves the buffer, the messages and the progress of both sides alone. */
  predicate Quiet(p: Party, q: Party) {
    PartyInv(p) && PartyInv(q) && Written(q) == Written(p) && (q.pc.Fetch? || q.pc.Return? ==> q == p || q.got == [])
  }

  lemma ContentFrame(s: System, t: System, initial: seq<Word>)
    requires ContentInv(s, initial) && t.hw.mem == s.hw.mem && t.sent == s.sent && Quiet(s.vf, t.vf) &&
             Quiet(s.pf, t.pf)
    ensures ContentInv(t, initial)
  {
  }

  lemma ReadV2pFacts(s: System)
    requires s.shadow <= R2C && s.hw.status <= R2C + {RSTI}
    ensures var (v, t) := ReadV2p(s);
            && t == s.(hw := s.hw.(status := t.hw.status), shadow := t.shadow)
            && t.shadow <= R2C && t.hw.status <= R2C + {RSTI}
            && t.hw.status + t.shadow <= s.hw.status + s.shadow
            && (VFU in v <==> s.hw.vfu)
  {
  }

  /** Winning the lock starts a call with nothing written and nothing received. */
  lemma Locked(p: Party)
    requires PartyInv(p) && p.pc.Confirm?
    ensures var q := AfterLock(p);
            PartyInv(q) && Owns(q) && Quiet(p, q) && q.noticed == p.noticed
            && !q.pc.FlushAck? && !q.pc.ClearAck? && !q.pc.Copy? && !q.pc.Post? && !q.pc.Take?
  {
  }

  lemma Flushed(p: Party)
    requires PartyInv(p) && (p.pc.FlushAck? || p.pc.ClearAck?)
    ensures var q := AfterFlush(p);
            PartyInv(q) && Owns(q) && Quiet(p, q) && q.noticed == p.noticed && (q.pc.Copy? || q.pc.Post?)
  {
  }

  /** One more word written or fetched. */
  lemma OverlayGrows(w: seq<Word>, base: seq<Word>, x: Word)
    requires |w| < |base|
    ensures Overlay(w + [x], base) == Overlay(w, base)[|w| := x]
  {
  }

  lemma CopyStep(p: Party, mem: seq<Word>, base: seq<Word>)
    requires PartyInv(p) && p.pc.Copy? && |base| == SIZE && mem == Overlay(Written(p), base)
    ensures PartyInv(AfterCopy(p, p.pc.i)) && CopyWord(p, mem, p.pc.i) == Overlay(Written(AfterCopy(p, p.pc.i)), base)
  {
    var i := p.pc.i;
    assert Written(AfterCopy(p, i)) == p.op.msg[..i] + [p.op.msg[i]];
    OverlayGrows(Written(p), base, p.op.msg[i]);
  }

  lemma FetchStep(p: Party, mem: seq<Word>)
    requires PartyInv(p) && p.pc.Fetch? && |mem| == SIZE && GotPrefix(p, mem)
    ensures var q := AfterFetch(p, p.pc.i, FetchWord(mem, p.pc.i));
            PartyInv(q) && GotPrefix(q, mem) && Written(q) == [] && Owns(q) && q.noticed == p.noticed &&
                (q.pc.Fetch? || q.pc.Return?)
  {
  }

  /** A completed write becomes the last content. */
  lemma Posted(s: System, t: System, initial: seq<Word>)
    requires ContentInv(s, initial) && t.hw.mem == s.hw.mem && |t.sent| == |s.sent| + 1 && t.sent[..|s.sent|] == s.sent
    requires t.sent[|s.sent|].content == s.hw.mem && PartyInv(t.vf) && PartyInv(t.pf)
    requires Written(t.vf) == [] && Written(t.pf) == []
    requires !t.vf.pc.Fetch? && !t.vf.pc.Return? && !t.pf.pc.Fetch? && !t.pf.pc.Return?
    ensures ContentInv(t, initial)
  {
    assert LastContent(t, initial) == s.hw.mem;
    forall m | m in t.sent ensures |m.content| == SIZE {
      assert m in t.sent[..|s.sent|] || m == t.sent[|s.sent|];
    }
  }

  lemma VfClaims(s: System, initial: seq<Word>)
    requires Inv(s, initial) && s.vf.pc.Claim?
    ensures Inv(VfAccess(s), initial)
  {
    ContentFrame(s, VfAccess(s), initial);
  }

  lemma VfConfirms(s: System, initial: seq<Word>)
    requires Inv(s, initial) && s.vf.pc.Confirm?
    ensures Inv(VfAccess(s), initial)
  {
    ReadV2pFacts(s);
    Locked(s.vf);
    ContentFrame(s, VfAccess(s), initial);
  }

  lemma VfFlushes(s: System, initial: seq<Word>)
    requires Inv(s, initial) && (s.vf.pc.FlushMsg? || s.vf.pc.FlushAck?)
    ensures Inv(VfAccess(s), initial)
  {
    CheckBitFacts(s, {PFSTS});
    CheckBitFacts(s, {PFACK});
    if s.vf.pc.FlushAck? {
      Flushed(s.vf);
    }
    ContentFrame(s, VfAccess(s), initial);
  }

  lemma VfLooks(s: System, initial: seq<Word>)
    requires Inv(s, initial) && s.vf.pc.Look?
    ensures Inv(VfAccess(s), initial)
  {
    CheckBitFacts(s, CheckMask(s.vf.op));
    ContentFrame(s, VfAccess(s), initial);
  }

  lemma VfCopies(s: System, initial: seq<Word>)
    requires Inv(s, initial) && s.vf.pc.Copy?
    ensures Inv(VfAccess(s), initial)
  {
    var base := LastContent(s, initial);
    assert Written(s.pf) == [] && Overlay([], base) == base;
    CopyStep(s.vf, s.hw.mem, base);
    var t := VfAccess(s);
    assert LockInv(t) && NoticeInv(t);
    assert t.pf == s.pf && LastContent(t, initial) == base;
    assert t.hw.mem == Overlay(Written(t.vf), Overlay(Written(t.pf), base));
  }

  lemma VfPosts(s: System, initial: seq<Word>)
    requires Inv(s, initial) && s.vf.pc.Post?
    ensures Inv(VfAccess(s), initial)
  {
    Posted(s, VfAccess(s), initial);
  }

  lemma VfFetches(s: System, initial: seq<Word>)
    requires Inv(s, initial) && s.vf.pc.Fetch?
    ensures Inv(VfAccess(s), initial)
  {
    Reading(s, initial);
    FetchStep(s.vf, s.hw.mem);
    VfFetched(s, initial, AfterFetch(s.vf, s.vf.pc.i, FetchWord(s.hw.mem, s.vf.pc.i)));
  }

  lemma VfFetched(s: System, initial: seq<Word>, p: Party)
    requires Inv(s, initial) && s.vf.pc.Fetch? && Written(s.vf) == []
    requires PartyInv(p) && (p.pc.Fetch? || p.pc.Return?) && GotPrefix(p, LastContent(s, initial))
    requires Written(p) == [] && Owns(p) && p.noticed == s.vf.noticed
    ensures Inv(s.(vf := p), initial)
  {
  }

  lemma VfReturns(s: System, initial: seq<Word>)
    requires Inv(s, initial) && s.vf.pc.Return?
    ensures Inv(VfAccess(s), initial)
  {
    ContentFrame(s, VfAccess(s), initial);
  }

  /** While a side reads nobody has a write in progress. */
  lemma Reading(s: System, initial: seq<Word>)
    requires LockInv(s) && ContentInv(s, initial) && (s.vf.pc.Fetch? || s.pf.pc.Fetch?)
    ensures Written(s.vf) == [] && Written(s.pf) == [] && s.hw.mem == LastContent(s, initial)
  {
    assert Overlay([], LastContent(s, initial)) == LastContent(s, initial);
  }

  lemma PfLocks(s: System, initial: seq<Word>)
    requires Inv(s, initial) && (s.pf.pc.Claim? || s.pf.pc.Confirm?)
    ensures Inv(PfAccess(s), initial)
  {
    if s.pf.pc.Confirm? {
      Locked(s.pf);
    }
    ContentFrame(s, PfAccess(s), initial);
  }

  lemma PfFlushes(s: System, initial: seq<Word>)
    requires Inv(s, initial) && (s.pf.pc.FlushMsg? || s.pf.pc.ClearMsg? || s.pf.pc.FlushAck? || s.pf.pc.ClearAck?)
    ensures Inv(PfAccess(s), initial)
  {
    if s.pf.pc.FlushAck? || s.pf.pc.ClearAck? {
      Flushed(s.pf);
    }
    ContentFrame(s, PfAccess(s), initial);
  }

  lemma PfCopies(s: System, initial: seq<Word>)
    requires Inv(s, initial) && s.pf.pc.Copy?
    ensures Inv(PfAccess(s), initial)
  {
    assert Written(s.vf) == [];
    CopyStep(s.pf, s.hw.mem, LastContent(s, initial));
    PfCopied(s, initial, AfterCopy(s.pf, s.pf.pc.i), CopyWord(s.pf, s.hw.mem, s.pf.pc.i));
  }

  /** One more word of the message in the buffer. */
  lemma PfCopied(s: System, initial: seq<Word>, q: Party, mem: seq<Word>)
    requires Inv(s, initial) && s.pf.pc.Copy? && Written(s.vf) == []
    requires PartyInv(q) && (q.pc.Copy? || q.pc.Post?) && q.noticed == s.pf.noticed && |mem| == SIZE
    requires mem == Overlay(Written(q), LastContent(s, initial))
    ensures Inv(s.(hw := s.hw.(mem := mem), pf := q), initial)
  {
  }

  lemma PfPosts(s: System, initial: seq<Word>)
    requires Inv(s, initial) && s.pf.pc.Post?
    ensures Inv(PfAccess(s), initial)
  {
    Posted(s, PfAccess(s), initial);
  }

  lemma PfFetches(s: System, initial: seq<Word>)
    requires Inv(s, initial) && s.pf.pc.Fetch?
    ensures Inv(PfAccess(s), initial)
  {
    Reading(s, initial);
    FetchStep(s.pf, s.hw.mem);
    PfFetched(s, initial, AfterFetch(s.pf, s.pf.pc.i, FetchWord(s.hw.mem, s.pf.pc.i)));
  }

  /** Fetching changes this side's progress alone. */
  lemma PfFetched(s: System, initial: seq<Word>, q: Party)
    requires Inv(s, initial) && s.pf.pc.Fetch? && Written(s.pf) == []
    requires PartyInv(q) && (q.pc.Fetch? || q.pc.Return?) && GotPrefix(q, LastContent(s, initial))
    requires Written(q) == [] && Owns(q) && q.noticed == s.pf.noticed
    ensures Inv(s.(pf := q), initial)
  {
  }

  lemma PfReturns(s: System, initial: seq<Word>)
    requires Inv(s, initial) && s.pf.pc.Return?
    ensures Inv(PfAccess(s), initial)
  {
    ContentFrame(s, PfAccess(s), initial);
  }

  lemma PfLooks(s: System, initial: seq<Word>)
    requires Inv(s, initial) && s.pf.pc.Look?
    ensures Inv(PfAccess(s), initial)
  {
    ContentFrame(s, PfAccess(s), initial);
  }

  lemma PfTakes(s: System, initial: seq<Word>)
    requires Inv(s, initial) && s.pf.pc.Take?
    ensures Inv(PfAccess(s), initial)
  {
    ContentFrame(s, PfAccess(s), initial);
  }

  lemma StepKeeps(s: System, initial: seq<Word>, l: Label)
    requires Inv(s, initial)
    ensures Inv(Apply(s, l), initial)
  {
    if l.Run? {
      if l.side == Vf {
        VfKeeps(s, initial);
      } else {
        PfKeeps(s, initial);
      }
    } else if Enabled(s, l) {
      OthersKeep(s, initial, l);
    }
  }

  lemma OthersKeep(s: System, initial: seq<Word>, l: Label)
    requires Inv(s, initial) && Enabled(s, l) && !l.Run?
    ensures Inv(Apply(s, l), initial)
  {
    match l
    case Start(Vf, op) => VfStarts(s, initial, op);
    case Start(Pf, op) => PfStarts(s, initial, op);
    case Reset(bits) => ContentFrame(s, Apply(s, l), initial);
  }

  lemma VfStarts(s: System, initial: seq<Word>, op: Op)
    requires Inv(s, initial) && Enabled(s, Start(Vf, op))
    ensures Inv(s.(vf := Begin(s.vf, op)), initial)
  {
    ContentFrame(s, s.(vf := Begin(s.vf, op)), initial);
  }

  lemma PfStarts(s: System, initial: seq<Word>, op: Op)
    requires Inv(s, initial) && Enabled(s, Start(Pf, op))
    ensures Inv(s.(pf := Begin(s.pf, op)), initial)
  {
    ContentFrame(s, s.(pf := Begin(s.pf, op)), initial);
  }

  lemma VfKeeps(s: System, initial: seq<Word>)
    requires Inv(s, initial)
    ensures Inv(VfAccess(s), initial)
  {
    match s.vf.pc
    case Claim(_) => VfClaims(s, initial);
    case Confirm(_) => VfConfirms(s, initial);
    case FlushMsg => VfFlushes(s, initial);
    case FlushAck => VfFlushes(s, initial);
    case Copy(_) => VfCopies(s, initial);
    case Post => VfPosts(s, initial);
    case Fetch(_) => VfFetches(s, initial);
    case Return => VfReturns(s, initial);
    case Look => VfLooks(s, initial);
    case _ =>
  }

  lemma PfKeeps(s: System, initial: seq<Word>)
    requires Inv(s, initial)
    ensures Inv(PfAccess(s), initial)
  {
    match s.pf.pc
    case Claim(_) => PfLocks(s, initial);
    case Confirm(_) => PfLocks(s, initial);
    case FlushMsg => PfFlushes(s, initial);
    case ClearMsg => PfFlushes(s, initial);
    case FlushAck => PfFlushes(s, initial);
    case ClearAck => PfFlushes(s, initial);
    case Copy(_) => PfCopies(s, initial);
    case Post => PfPosts(s, initial);
    case Fetch(_) => PfFetches(s, initial);
    case Return => PfReturns(s, initial);
    case Look => PfLooks(s, initial);
    case Take => PfTakes(s, initial);
    case Idle =>
  }

  lemma {:induction false} RunKeeps(s: System, initial: seq<Word>, ls: seq<Label>)
    requires Inv(s, initial)
    ensures Inv(Exec(s, ls), initial)
    decreases |ls|
  {
    if ls == [] {
    } else {
      StepKeeps(s, initial, ls[0]);
      RunKeeps(Apply(s, ls[0]), initial, ls[1..]);
    }
  }

  // ---- main results -----------------------------------------------------------------------------

  /** In every run the two sides never own the buffer together, and a side that is not in a call has
      dropped its owner bit. */
  lemma BufferHasOneOwner(s: System, ls: seq<Label>)
    requires Init(s)
    ensures var t := Exec(s, ls);
            && !(t.hw.vfu && t.hw.pfu) && !(Owns(t.vf) && Owns(t.pf))
            && (t.vf.pc == Idle ==> !t.hw.vfu) && (t.pf.pc == Idle ==> !t.hw.pfu)
  {
    InitInv(s);
    RunKeeps(s, s.hw.mem, ls);
  }

  /** Only a step of the side that owns the buffer changes it. */
  lemma OnlyOwnerWrites(s: System, ls: seq<Label>, l: Label)
    requires Init(s) && Apply(Exec(s, ls), l).hw.mem != Exec(s, ls).hw.mem
    ensures var t := Exec(s, ls);
            l.Run? &&
            if l.side == Vf then Owns(t.vf) && t.hw.vfu && !t.hw.pfu else Owns(t.pf) && t.hw.pfu && !t.hw.vfu
  {
    InitInv(s);
    RunKeeps(s, s.hw.mem, ls);
    WriterOwns(Exec(s, ls), s.hw.mem, l);
  }

  lemma WriterOwns(s: System, initial: seq<Word>, l: Label)
    requires Inv(s, initial) && Apply(s, l).hw.mem != s.hw.mem
    ensures l.Run? &&
            if l.side == Vf then Owns(s.vf) && s.hw.vfu && !s.hw.pfu else Owns(s.pf) && s.hw.pfu && !s.hw.vfu
  {
    if l.Run? && l.side == Vf && !s.vf.pc.Copy? {
      VfWrites(s);
    } else if l.Run? && l.side == Pf && !s.pf.pc.Copy? {
      PfWrites(s);
    }
  }

  lemma VfWrites(s: System)
    requires !s.vf.pc.Copy?
    ensures VfAccess(s).hw.mem == s.hw.mem
  {
    var v := ReadV2p(s);
    assert v.1.hw.mem == s.hw.mem;
  }

  lemma PfWrites(s: System)
    requires !s.pf.pc.Copy?
    ensures PfAccess(s).hw.mem == s.hw.mem
  {
  }

  /** A read that is about to acknowledge holds exactly the front of the buffer one completed write left
      (or of the initial buffer), never a mix of two writes; and if its side had seen a notification since
      its own last message, that write was made by the other side. */
  lemma ReadIsOneMessage(s: System, ls: seq<Label>)
    requires Init(s)
    ensures var t := Exec(s, ls);
            && (t.vf.pc == Return ==>
                  && t.vf.op.Receive? && |t.vf.got| == t.vf.op.size <= 16 == |LastContent(t, s.hw.mem)|
                  && t.vf.got == LastContent(t, s.hw.mem)[..t.vf.op.size]
                  && (t.vf.noticed ==> LastBy(t, Pf)))
            && (t.pf.pc == Return ==>
                  && t.pf.op.Receive? && |t.pf.got| == t.pf.op.size <= 16 == |LastContent(t, s.hw.mem)|
                  && t.pf.got == LastContent(t, s.hw.mem)[..t.pf.op.size]
                  && (t.pf.noticed ==> LastBy(t, Vf)))
  {
    InitInv(s);
    RunKeeps(s, s.hw.mem, ls);
  }

  /** A message notification is never stale: while it is pending at one side, the last completed write is
      the other side's. */
  lemma NoticesAreCurrent(s: System, ls: seq<Label>)
    requires Init(s)
    ensures var t := Exec(s, ls);
            (PFSTS in Pending(t) ==> LastBy(t, Pf)) && (t.hw.req ==> LastBy(t, Vf)) &&
                !(PFSTS in Pending(t) && t.hw.req)
  {
    InitInv(s);
    RunKeeps(s, s.hw.mem, ls);
  }

  /** The events a step is meant to clear. */
  ghost function Cleared(s: System, l: Label): set<Bit> {
    if l != Run(Vf) then {}
    else if s.vf.pc == FlushMsg then {PFSTS}
    else if s.vf.pc == FlushAck then {PFACK}
    else if s.vf.pc == Look then Reported(s.vf.op)
    else {}
  }

  /** The events a step signals: the PF posts or acknowledges, or the reset is done. */
  ghost function Raised(s: System, l: Label): set<Bit> {
    if l == Run(Pf) && s.pf.pc == Post then {PFSTS}
    else if l == Run(Pf) && s.pf.pc == Return then {PFACK}
    else if l.Reset? && l.bits <= {RSTI, RSTD} then l.bits * {RSTD}
    else {}
  }

  /** The same for the two bits of the PF: the VF's writes set them, and the PF clears one when it flushes
      it, or when it checks for it, having found it. */
  ghost predicate PfAccount(t: System, l: Label, u: System) {
    && u.hw.req == (if l == Run(Vf) && t.vf.pc == Post then true
                    else if l == Run(Pf) && (t.pf.pc == ClearMsg || (t.pf.pc == Take && t.pf.op == CheckMsg)) then false
                    else t.hw.req)
    && u.hw.ack == (if l == Run(Vf) && t.vf.pc == Return then true
                    else if l == Run(Pf) && (t.pf.pc == ClearAck || (t.pf.pc == Take && t.pf.op != CheckMsg)) then false
                    else t.hw.ack)
    && (l == Run(Pf) && t.pf.pc == Look && t.pf.op == CheckMsg ==>
         if t.hw.req then u.pf.pc == Take else u.pf.pc == Idle && !u.pf.result)
    && (l == Run(Pf) && t.pf.pc == Look && t.pf.op == CheckAck ==>
         if t.hw.ack then u.pf.pc == Take else u.pf.pc == Idle && !u.pf.result)
    && (l == Run(Pf) && t.pf.pc == Take ==> u.pf.pc == Idle && u.pf.result)
  }

  lemma PfAccounts(t: System, l: Label)
    ensures PfAccount(t, l, Apply(t, l)) == true
  {
    if l.Run? {
      if l.side == Vf {
        VfBits(t);
      } else {
        PfBits(t);
      }
    }
  }

  lemma VfBits(t: System)
    ensures PfAccount(t, Run(Vf), VfAccess(t)) == true
  {
  }

  lemma PfBits(t: System)
    ensures PfAccount(t, Run(Pf), PfAccess(t)) == true
  {
  }

  /** Events signalled to the VF are never lost: each step adds what it signals and takes away what it
      is meant to clear, and a check reports whether its event was there. The same goes for the PF's bits. */
  lemma EventsAreNotLost(s: System, ls: seq<Label>, l: Label)
    requires Init(s)
    ensures var t := Exec(s, ls);
            var u := Apply(t, l);
            && Pending(u) == Pending(t) - Cleared(t, l) + Raised(t, l)
            && (l == Run(Vf) && t.vf.pc == Look ==> (u.vf.result <==> Signalled(t.vf.op, t)))
            && PfAccount(t, l, u)
  {
    InitInv(s);
    RunKeeps(s, s.hw.mem, ls);
    EventsKept(Exec(s, ls), s.hw.mem, l);
    PfAccounts(Exec(s, ls), l);
  }

  lemma EventsKept(t: System, initial: seq<Word>, l: Label)
    requires Inv(t, initial)
    ensures var u := Apply(t, l);
            && Pending(u) == Pending(t) - Cleared(t, l) + Raised(t, l)
            && (l == Run(Vf) && t.vf.pc == Look ==> (u.vf.result <==> Signalled(t.vf.op, t)))
  {
    if l == Run(Vf) {
      VfEvents(t);
    } else if l.Run? {
      PfEvents(t);
    } else {
      OtherEvents(t, l);
    }
  }

  lemma OtherEvents(t: System, l: Label)
    requires !l.Run?
    ensures Pending(Apply(t, l)) == Pending(t) + Raised(t, l)
  {
  }

  lemma PfEvents(t: System)
    ensures Pending(PfAccess(t)) == Pending(t) + Raised(t, Run(Pf))
  {
    var u := PfAccess(t);
    assert u.shadow == t.shadow;
    assert u.hw.status == t.hw.status + Raised(t, Run(Pf));
  }

  lemma VfEvents(t: System)
    requires t.shadow <= R2C
    ensures Pending(VfAccess(t)) == Pending(t) - Cleared(t, Run(Vf))
    ensures t.vf.pc == Look ==> (VfAccess(t).vf.result <==> Signalled(t.vf.op, t))
  {
    if t.vf.pc.FlushMsg? || t.vf.pc.FlushAck? {
      CheckBitEvents(t, Cleared(t, Run(Vf)));
    } else if t.vf.pc.Look? {
      var mask := CheckMask(t.vf.op);
      CheckBitEvents(t, mask);
      LookReports(t, mask);
    } else if t.vf.pc.Confirm? {
      ReadV2pEvents(t);
    } else {
      assert VfAccess(t).hw.status == t.hw.status && VfAccess(t).shadow == t.shadow;
    }
  }

  /** The bits a check tests are events, except RSTI, which the register keeps. */
  lemma LookReports(t: System, mask: set<Bit>)
    requires t.shadow <= R2C && mask <= R2C + {RSTI}
    ensures (t.hw.status + t.shadow) * mask != {} <==> Pending(t) * mask != {} || (RSTI in t.hw.status && RSTI in mask)
  {
    var seen := (t.hw.status + t.shadow) * mask;
    if seen != {} {
      var b :| b in seen;
      assert b in Pending(t) * mask || b == RSTI;
    }
    if Pending(t) * mask != {} {
      var b :| b in Pending(t) * mask;
      assert b in seen;
    }
    if RSTI in t.hw.status && RSTI in mask {
      assert RSTI in seen;
    }
  }

  lemma CheckBitEvents(s: System, mask: set<Bit>)
    requires s.shadow <= R2C
    ensures Pending(CheckBit(s, mask).1) == Pending(s) - mask
    ensures VFU !in mask && PFU !in mask ==> (CheckBit(s, mask).0 <==> (s.hw.status + s.shadow) * mask != {})
  {
    var (v, t) := ReadV2p(s);
    ReadV2pEvents(s);
    if VFU !in mask && PFU !in mask {
      assert v * mask == (s.hw.status + s.shadow) * mask;
    }
    assert t.hw.status * R2C == {};
  }

  lemma ReadV2pEvents(s: System)
    requires s.shadow <= R2C
    ensures Pending(ReadV2p(s).1) == Pending(s)
  {
    var (v, t) := ReadV2p(s);
    assert forall b :: b in Pending(s) ==> b in t.shadow;
  }

  /** The lock test of the VF succeeds exactly if the hardware latched VFU: the shadow cannot fake it. */
  lemma LockTestIsHardware(s: System, ls: seq<Label>)
    requires Init(s) && Exec(s, ls).vf.pc.Confirm?
    ensures VFU !in Exec(s, ls).shadow
    ensures Owns(Apply(Exec(s, ls), Run(Vf)).vf) <==> Exec(s, ls).hw.vfu
  {
    InitInv(s);
    RunKeeps(s, s.hw.mem, ls);
    LockTest(Exec(s, ls));
  }

  lemma LockTest(s: System)
    requires LockInv(s) && PartyInv(s.vf) && s.vf.pc.Confirm?
    ensures VFU !in s.shadow && (Owns(VfAccess(s).vf) <==> s.hw.vfu)
  {
    ReadV2pFacts(s);
    Locked(s.vf);
  }

  // ---- acknowledgements -------------------------------------------------------------------------

  /** Message number `k` is the most recent one of the VF. */
  ghost predicate LatestOfVf(s: System, k: nat) {
    k < |s.sent| && s.sent[k].from == Vf && forall j :: k < j < |s.sent| ==> s.sent[j].from == Pf
  }

  /** The PF has received (the front of) the most recent message of the VF. */
  ghost predicate PfReceivedLatest(s: System) {
    && 0 < s.pfRead && LatestOfVf(s, s.pfRead - 1)
    && |s.pfGot| <= |s.sent[s.pfRead - 1].content| && s.pfGot == s.sent[s.pfRead - 1].content[..|s.pfGot|]
  }

  lemma SameReceived(s: System, t: System)
    requires PfReceivedLatest(s) && t.sent == s.sent && t.pfGot == s.pfGot && t.pfRead == s.pfRead
    ensures PfReceivedLatest(t)
  {
    assert LatestOfVf(t, t.pfRead - 1);
  }

  ghost predicate AckInv(s: System) {
    && (PFACK in s.hw.status + s.shadow ==> PfReceivedLatest(s))
    && (s.vf.pc.Copy? || s.vf.pc.Post? ==> PFACK !in s.hw.status + s.shadow)
    && (s.pf.pc != Idle && s.pf.op.Receive? ==> s.pf.noticed)
  }

  lemma AckKept(s: System, initial: seq<Word>, l: Label)
    requires Inv(s, initial) && AckInv(s) && !PfReadsBlindly(s, l)
    ensures AckInv(Apply(s, l))
  {
    if l.Run? {
      if l.side == Vf {
        VfKeepsAck(s);
      } else {
        PfKeepsAck(s, initial);
      }
    }
  }

  lemma VfKeepsAck(s: System)
    requires LockInv(s) && PartyInv(s.vf) && AckInv(s)
    ensures AckInv(VfAccess(s))
  {
    var t := VfAccess(s);
    VfFrame(s);
    assert PFACK in t.hw.status + t.shadow ==> PFACK in s.hw.status + s.shadow && t.sent == s.sent;
    assert t.sent == s.sent && PfReceivedLatest(s) ==> PfReceivedLatest(t);
  }

  lemma VfFrame(s: System)
    requires LockInv(s) && PartyInv(s.vf)
    ensures var t := VfAccess(s);
            && t.pf == s.pf && t.pfGot == s.pfGot && t.pfRead == s.pfRead
            && t.hw.status + t.shadow <= s.hw.status + s.shadow
            && (s.vf.pc != Post ==> t.sent == s.sent)
            && (t.vf.pc.Copy? || t.vf.pc.Post? ==> s.vf.pc.Copy? || PFACK !in t.hw.status + t.shadow)
  {
    match s.vf.pc
    case FlushMsg => CheckBitFacts(s, {PFSTS});
    case FlushAck => CheckBitFacts(s, {PFACK});
    case Look => CheckBitFacts(s, CheckMask(s.vf.op));
    case Confirm(_) =>
      ReadV2pFacts(s);
      Locked(s.vf);
    case _ =>
  }

  lemma PfKeepsAck(s: System, initial: seq<Word>)
    requires Inv(s, initial) && AckInv(s)
    ensures AckInv(PfAccess(s))
  {
    var t := PfAccess(s);
    if s.pf.pc.Post? {
      PfPostKeepsAck(s);
    } else if s.pf.pc.Return? {
      PfReturnAcks(s, initial);
    } else {
      if s.pf.pc.Confirm? {
        Locked(s.pf);
      }
      PfOtherKeepsAck(s);
    }
  }

  lemma PfOtherKeepsAck(s: System)
    requires AckInv(s) && !s.pf.pc.Post? && !s.pf.pc.Return?
    ensures AckInv(PfAccess(s))
  {
    var t := PfAccess(s);
    PfFrame(s);
    PfStays(s);
    if PfReceivedLatest(s) { SameReceived(s, t); }
  }

  lemma PfFrame(s: System)
    requires !s.pf.pc.Post? && !s.pf.pc.Return?
    ensures var t := PfAccess(s);
            && t.hw.status == s.hw.status && t.shadow == s.shadow && t.sent == s.sent && t.vf == s.vf
            && t.pfGot == s.pfGot && t.pfRead == s.pfRead
  {
  }

  lemma PfStays(s: System)
    requires !s.pf.pc.Post? && !s.pf.pc.Return?
    ensures var q := PfAccess(s).pf;
            q.op == s.pf.op && (s.pf.noticed ==> q.noticed) && (s.pf.pc == Idle ==> q == s.pf)
  {
  }

  lemma PfPostKeepsAck(s: System)
    requires AckInv(s) && s.pf.pc.Post?
    ensures AckInv(PfAccess(s))
  {
    var t := PfAccess(s);
    if PFACK in s.hw.status + s.shadow {
      assert LatestOfVf(t, t.pfRead - 1);
    }
  }

  lemma PfReturnAcks(s: System, initial: seq<Word>)
    requires LockInv(s) && ContentInv(s, initial) && NoticeInv(s) && AckInv(s) && s.pf.pc.Return?
    ensures AckInv(PfAccess(s))
  {
    var t := PfAccess(s);
    assert s.pf.noticed && LastBy(s, Vf);
    assert LatestOfVf(t, |s.sent| - 1);
    assert PfReceivedLatest(t);
  }

  lemma {:induction false} RunKeepsAck(s: System, initial: seq<Word>, ls: seq<Label>)
    requires Inv(s, initial) && AckInv(s) && PfWaits(s, ls)
    ensures AckInv(Exec(s, ls))
    decreases |ls|
  {
    if ls == [] {
    } else {
      AckKept(s, initial, ls[0]);
      StepKeeps(s, initial, ls[0]);
      RunKeepsAck(Apply(s, ls[0]), initial, ls[1..]);
    }
  }

  /** An acknowledgement the VF sees is for its own last message: if the PF reads only when it knows of a
      message, a successful check for an ack means the PF has received the VF's most recent message. */
  lemma AckMeansReceived(s: System, ls: seq<Label>)
    requires Init(s) && PfWaits(s, ls)
    requires var t := Exec(s, ls); t.vf.pc == Look && t.vf.op == CheckAck && Apply(t, Run(Vf)).vf.result
    ensures PfReceivedLatest(Exec(s, ls))
  {
    FromStart(s, ls);
    AckVisible(Exec(s, ls), s.hw.mem);
  }

  lemma FromStart(s: System, ls: seq<Label>)
    requires Init(s) && PfWaits(s, ls)
    ensures Inv(Exec(s, ls), s.hw.mem) == true && AckInv(Exec(s, ls)) == true
  {
    InitInv(s);
    RunKeeps(s, s.hw.mem, ls);
    RunKeepsAck(s, s.hw.mem, ls);
  }

  lemma AckVisible(t: System, initial: seq<Word>)
    requires Inv(t, initial) == true && AckInv(t) == true
    requires t.vf.pc == Look && t.vf.op == CheckAck && Apply(t, Run(Vf)).vf.result
    ensures PfReceivedLatest(t) == true
  {
    CheckBitEvents(t, {PFACK});
  }
}
