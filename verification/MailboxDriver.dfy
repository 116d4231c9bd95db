/** The VF's mailbox functions in their own form, running against any behaviour of the PF. Every register
    access is one step of the machine in Mailbox, taken after any number of steps of the PF and of the
    reset indication, so the results of MailboxSafety apply to every point of this code. */
module MailboxDriver {
  import opened Mailbox
  import opened MailboxSafety
  import Numbers

  type Byte = Numbers.Byte

  const INIT_TIMEOUT: nat := 2000
  const RESET_TIMEOUT: nat := 200
  const CTRL_RST: nat := 26
  const RESET_MSG: Word := 0x01
  const ACK_FLAG: Word := 0x8000_0000

  datatype Posted = ReadPosted(size: nat) | WritePosted(msg: seq<Word>)

  class VfMailbox {
    var sys: System
    // mbx->timeout
    var timeout: nat
    // hw->mac.perm_addr
    var permAddr: seq<Byte>
    // CTRL as written last, as a set of bit numbers
    var ctrl: set<nat>
    ghost const start: System
    ghost var trace: seq<Label>
    // register accesses of the VF so far
    ghost var accesses: nat

    constructor (sys: System)
      requires Init(sys)
      ensures Valid() && Quiet() && timeout == 0 && this.sys == sys
    {
      this.sys, timeout, permAddr, ctrl := sys, 0, [], {};
      start, trace, accesses := sys, [], 0;
    }

    ghost predicate Valid()
      reads this
    {
      Init(start) && sys == Exec(start, trace)
    }

    /** No call in progress. */
    predicate Quiet()
      reads this
    {
      sys.vf.pc == Idle
    }

    method Step(l: Label)
      requires Valid()
      modifies this`sys, this`trace
      ensures Valid() && sys == Apply(old(sys), l) && trace == old(trace) + [l]
    {
      ExecSnoc(start, trace, l);
      sys, trace := Apply(sys, l), trace + [l];
    }

    /** So far the PF read only when it knew of a message. */
    ghost predicate Disciplined()
      reads this
    {
      PfWaits(start, trace)
    }

    /** What every state of a run satisfies. */
    lemma Reached()
      requires Valid()
      ensures Inv(sys, start.hw.mem) == true
    {
      InitInv(start);
      RunKeeps(start, start.hw.mem, trace);
    }

    // Any steps of the PF and of the reset indication.
    method Others()
      requires Valid()
      modifies this`sys, this`trace
      ensures Valid() && sys.vf == old(sys).vf && sys.hw.vfu == old(sys).hw.vfu && OnlyPfSent(old(sys).sent, sys.sent)
      ensures Pending(old(sys)) <= Pending(sys)
    {
      var n: nat :| true;
      for i := 0 to n
        invariant Valid() && sys.vf == old(sys).vf && sys.hw.vfu == old(sys).hw.vfu &&
                  OnlyPfSent(old(sys).sent, sys.sent)
        invariant Pending(old(sys)) <= Pending(sys)
      {
        var l: Label :| true;
        if l.Reset? || l.side == Pf {
          OthersSpareVf(sys, l);
          Step(l);
        }
      }
    }

    // One register access of the VF. `was` is the state it acted on.
    method Access() returns (ghost was: System)
      requires Valid()
      modifies this`sys, this`trace, this`accesses
      ensures Valid() && was.vf == old(sys).vf && was.hw.vfu == old(sys).hw.vfu && Inv(was, start.hw.mem) == true &&
              sys == VfAccess(was)
      ensures OnlyPfSent(old(sys).sent, was.sent) && (Disciplined() ==> AckInv(was) == true)
      ensures Pending(old(sys)) <= Pending(was)
      ensures accesses == old(accesses) + 1
    {
      Others();
      Reached();
      was := sys;
      ghost var before := trace;
      Step(Run(Vf));
      if Disciplined() {
        PfWaitsPrefix(start, before, Run(Vf));
        InitInv(start);
        RunKeepsAck(start, start.hw.mem, before);
      }
      accesses := accesses + 1;
    }

    // e1000_read_v2p_mailbox, when it confirms the lock. The answer shows VFU exactly if the hardware has it,
    // and every pending event; though the read clears the register, no event gets lost.
    method ReadV2pMailbox() returns (v: set<Bit>, ghost was: System)
      requires Valid() && sys.vf.pc.Confirm?
      modifies this`sys, this`trace, this`accesses
      ensures Valid() && was.vf == old(sys).vf && was.hw.vfu == old(sys).hw.vfu && Inv(was, start.hw.mem) == true
      ensures (VFU in v <==> was.hw.vfu) && (PFU in v <==> was.hw.pfu) && sys.hw.vfu == was.hw.vfu
      ensures Pending(old(sys)) <= Pending(was) == v * {PFSTS, PFACK, RSTD} == Pending(sys) == sys.shadow
      ensures VFU in v ==> sys.vf == AfterLock(was.vf) && !sys.hw.pfu
      ensures VFU !in v ==>
                sys.vf == if was.vf.pc.i < LAST_ATTEMPT then was.vf.(pc := Claim(was.vf.pc.i + 1)) else Failed(was.vf)
      ensures accesses == old(accesses) + 1
    {
      Others();
      Reached();
      v, was := ReadV2p(sys).0, sys;
      ConfirmOutcome(was, start.hw.mem);
      ConfirmReports(was);
      Step(Run(Vf));
      accesses := accesses + 1;
    }

    // e1000_check_for_bit_vf and its three callers. `was` is the state the access met: the check reports
    // whether its event was there, and takes away that event alone.
    method Check(op: Op) returns (found: bool, ghost was: System)
      requires Valid() && Quiet() && (op == CheckMsg || op == CheckAck || op == CheckRst)
      modifies this`sys, this`trace, this`accesses
      ensures Valid() && Quiet() && sys.vf.noticed == (old(sys).vf.noticed || (op == CheckMsg && found)) &&
              found == sys.vf.result
      ensures accesses == old(accesses) + 1 && OnlyPfSent(old(sys).sent, sys.sent)
      ensures op == CheckAck && found && Disciplined() ==> PfReceivedLatest(sys) == true
      ensures Pending(old(sys)) <= Pending(was) && OnlyPfSent(old(sys).sent, was.sent)
      ensures op == CheckMsg ==> (found <==> PFSTS in Pending(was)) && Pending(sys) == Pending(was) - {PFSTS}
      ensures op == CheckAck ==> (found <==> PFACK in Pending(was)) && Pending(sys) == Pending(was) - {PFACK}
      ensures op == CheckRst ==> (found <==> RSTD in Pending(was) || RSTI in was.hw.status) &&
                                 Pending(sys) == Pending(was) - {RSTD}
    {
      Step(Start(Vf, op));
      was := Access();
      LookStep(was);
      LookMeans(was, start.hw.mem);
      found := sys.vf.result;
      if op == CheckAck {
        AckMeans(was, start.hw.mem);
      }
    }

    // Writing VFU; `taken` tells whether the PF owned the buffer at that moment.
    method ClaimAccess() returns (ghost taken: bool)
      requires Valid() && sys.vf.pc.Claim?
      modifies this`sys, this`trace, this`accesses
      ensures Valid() && sys.vf == old(sys).vf.(pc := Confirm(old(sys).vf.pc.i)) && sys.hw.vfu == !taken
    {
      ghost var was := Access();
      taken := was.hw.pfu;
    }

    // One attempt at the lock: take ownership of the buffer, then see whether it was granted.
    method Attempt() returns (ok: bool, ghost taken: bool)
      requires Valid() && sys.vf.pc.Claim?
      modifies this`sys, this`trace, this`accesses
      ensures Valid()
      ensures ok == !taken
      ensures ok ==> sys.vf == AfterLock(old(sys).vf) && sys.hw.vfu && !sys.hw.pfu
      ensures !ok ==> !sys.hw.vfu
      ensures !ok && old(sys).vf.pc.i < LAST_ATTEMPT ==> sys.vf == old(sys).vf.(pc := Claim(old(sys).vf.pc.i + 1))
      ensures !ok && old(sys).vf.pc.i >= LAST_ATTEMPT ==> sys.vf == Failed(old(sys).vf)
    {
      taken := ClaimAccess();
      ghost var was;
      var v;
      v, was := ReadV2pMailbox();
      ok := VFU in v;
    }

    // e1000_obtain_mbx_lock_vf: eleven attempts; it fails exactly if the PF owned the buffer at each.
    method ObtainLock() returns (ok: bool, ghost taken: seq<bool>)
      requires Valid() && sys.vf.pc == Claim(0)
      modifies this`sys, this`trace, this`accesses
      ensures Valid() && LockOutcome(taken, ok)
      ensures ok ==> sys.vf == AfterLock(old(sys).vf) && sys.hw.vfu && !sys.hw.pfu
      ensures !ok ==> sys.vf == Failed(old(sys).vf) && !sys.hw.vfu
    {
      var count: nat := LAST_ATTEMPT;
      taken := [];
      while true
        invariant Valid() && count <= LAST_ATTEMPT
        invariant sys.vf == old(sys).vf.(pc := Claim(LAST_ATTEMPT - count))
        invariant |taken| == LAST_ATTEMPT - count && forall i :: 0 <= i < |taken| ==> taken[i]
        decreases count
      {
        ghost var one;
        ok, one := Attempt();
        taken := taken + [one];
        if ok || count == 0 { return; }
        count := count - 1;
      }
    }

    // e1000_write_mbx_vf: success leaves the message at the front of the buffer, as the last completed
    // write, with the lock dropped; failure leaves no message of the VF and no lock.
    method WriteMbx(msg: seq<Word>) returns (ok: bool, ghost taken: seq<bool>)
      requires Valid() && Quiet() && |msg| <= SIZE
      modifies this`sys, this`trace, this`accesses
      ensures Valid() && Quiet() && !sys.hw.vfu && LockOutcome(taken, ok)
      ensures ok ==> LastBy(sys, Vf) && msg <= LastContent(sys, start.hw.mem) && sys.hw.req && !sys.vf.noticed
      ensures !ok ==> sys.vf.noticed == old(sys).vf.noticed
    {
      Step(Start(Vf, Send(msg)));
      ok, taken := ObtainLock();
      if !ok { return; }
      Flush();
      CopyMessage(msg);
      ghost var was := Access();
      PostedMessage(was, start.hw.mem);
    }

    // Flush message and ack notifications, as the buffer is overwritten.
    method Flush()
      requires Valid() && sys.vf.pc == FlushMsg && sys.vf.op.Send?
      modifies this`sys, this`trace, this`accesses
      ensures Valid() && sys.vf == AfterFlush(old(sys).vf)
    {
      ghost var was := Access();
      FlushStep(was);
      was := Access();
      FlushStep(was);
    }

    // The copy loop.
    method CopyMessage(msg: seq<Word>)
      requires Valid() && sys.vf.op == Send(msg) && sys.vf.pc == if |msg| > 0 then Copy(0) else Post
      modifies this`sys, this`trace, this`accesses
      ensures Valid() && sys.vf.op == Send(msg) && sys.vf.pc == Post
    {
      var i := 0;
      while i < |msg|
        invariant Valid() && i <= |msg|
        invariant sys.vf.op == Send(msg) && sys.vf.pc == if i < |msg| then Copy(i) else Post
      {
        ghost var was := Access();
        i := i + 1;
      }
    }

    // e1000_read_mbx_vf: success returns the front of the last completed write; if the VF had seen a
    // notification, that write is the PF's.
    method ReadMbx(size: nat) returns (ok: bool, msg: seq<Word>, ghost taken: seq<bool>)
      requires Valid() && Quiet() && size <= SIZE
      modifies this`sys, this`trace, this`accesses
      ensures Valid() && Quiet() && !sys.hw.vfu && sys.vf.noticed == old(sys).vf.noticed && LockOutcome(taken, ok)
      ensures ok ==> |msg| == size && msg <= LastContent(sys, start.hw.mem) && sys.hw.ack
      ensures ok && sys.vf.noticed ==> LastBy(sys, Pf)
    {
      Step(Start(Vf, Receive(size)));
      msg := [];
      ok, taken := ObtainLock();
      if !ok { return; }
      ghost var was;
      var i := 0;
      while i < size
        invariant Valid() && i <= size
        invariant sys.vf.op == Receive(size) && sys.vf.pc == (if i < size then Fetch(i) else Return)
        invariant msg == sys.vf.got && |msg| == i && sys.vf.noticed == old(sys).vf.noticed
      {
        var word := ReadBuffer();
        msg := msg + [word];
        i := i + 1;
      }
      was := Access();
      ReturnOutcome(was, start.hw.mem);
    }

    // One word of the mailbox buffer.
    method ReadBuffer() returns (word: Word)
      requires Valid() && sys.vf.pc.Fetch?
      modifies this`sys, this`trace, this`accesses
      ensures Valid() && sys.vf == AfterFetch(old(sys).vf, old(sys).vf.pc.i, word)
    {
      ghost var was := Access();
      FetchedWord(was);
      word := sys.vf.got[|sys.vf.got| - 1];
    }

    // e1000_poll_for_msg and e1000_poll_for_ack. `results` are the outcomes of the polls made.
    method PollFor(op: Op) returns (ok: bool, ghost results: seq<bool>)
      requires Valid() && Quiet() && (op == CheckMsg || op == CheckAck)
      modifies this`sys, this`trace, this`accesses, this`timeout
      ensures Valid() && Quiet()
      ensures PollOutcome(old(timeout), results, ok)
      ensures timeout == if ok then old(timeout) else 0
      ensures accesses == old(accesses) + |results|
      ensures ok && op == CheckMsg ==> sys.vf.noticed
      ensures op == CheckAck ==> sys.vf.noticed == old(sys).vf.noticed
      ensures old(timeout) == 0 ==> sys == old(sys)
      ensures old(timeout) > 0 && Signalled(op, old(sys)) ==> ok && |results| == 1
      ensures OnlyPfSent(old(sys).sent, sys.sent)
      ensures op == CheckAck && ok && Disciplined() ==> PfReceivedLatest(sys)
    {
      if timeout == 0 { return false, []; }
      var countdown;
      countdown, results := PollLoop(op);
      // The calls to come return at once, as long as nothing sets the timeout again.
      if countdown == 0 {
        timeout := 0;
      }
      ok := countdown != 0;
      AllFailedSplit(results);
    }

    // The loop of the polls, returning the countdown.
    method PollLoop(op: Op) returns (countdown: nat, ghost results: seq<bool>)
      requires Valid() && Quiet() && timeout > 0 && (op == CheckMsg || op == CheckAck)
      modifies this`sys, this`trace, this`accesses
      ensures Valid() && Quiet() && accesses == old(accesses) + |results|
      ensures results != [] && |results| <= timeout && AllFailed(results[..|results| - 1])
      ensures results[|results| - 1] == (countdown != 0)
      ensures countdown == 0 ==> |results| == timeout
      ensures Signalled(op, old(sys)) ==> countdown != 0 && |results| == 1
      ensures countdown != 0 && op == CheckMsg ==> sys.vf.noticed
      ensures op == CheckAck ==> sys.vf.noticed == old(sys).vf.noticed
      ensures OnlyPfSent(old(sys).sent, sys.sent)
      ensures op == CheckAck && countdown != 0 && Disciplined() ==> PfReceivedLatest(sys)
    {
      countdown := timeout;
      var found;
      ghost var met;
      found, met := Check(op);
      results := [found];
      while countdown != 0 && !found
        invariant Valid() && Quiet() && countdown <= timeout && (countdown == 0 ==> !found)
        invariant results != [] && results[|results| - 1] == found && AllFailed(results[..|results| - 1])
        invariant |results| == timeout - countdown + if countdown == 0 then 0 else 1
        invariant accesses == old(accesses) + |results|
        invariant Signalled(op, old(sys)) ==> found && |results| == 1
        invariant found && op == CheckMsg ==> sys.vf.noticed
        invariant op == CheckAck ==> sys.vf.noticed == old(sys).vf.noticed
        invariant OnlyPfSent(old(sys).sent, sys.sent)
        invariant op == CheckAck && found && Disciplined() ==> PfReceivedLatest(sys)
        decreases countdown
      {
        countdown := countdown - 1;
        if countdown == 0 { break; }
        found, met := Check(op);
        assert (results + [found])[..|results|] == results[..|results| - 1] + [results[|results| - 1]];
        results := results + [found];
      }
    }

    // e1000_read_posted_mbx: succeeds exactly if a poll found a message and the lock was had.
    method ReadPostedMbx(size: nat) returns (ok: bool, msg: seq<Word>, ghost polls: seq<bool>, ghost taken: seq<bool>)
      requires Valid() && Quiet() && size <= SIZE
      modifies this`sys, this`trace, this`accesses, this`timeout
      ensures Valid() && Quiet()
      ensures old(timeout) == 0 ==> !ok && timeout == 0 && accesses == old(accesses) && sys == old(sys)
      ensures timeout == old(timeout) || (timeout == 0 && !ok)
      ensures ok ==> |msg| == size && msg <= LastContent(sys, start.hw.mem) && LastBy(sys, Pf)
      ensures PollOutcome(old(timeout), polls, Found(polls))
      ensures if Found(polls) then LockOutcome(taken, ok) else !ok
    {
      ok, polls := PollFor(CheckMsg);
      msg, taken := [], [];
      if ok {
        ok, msg, taken := ReadMbx(size);
      }
    }

    // e1000_write_posted_mbx: succeeds exactly if the lock was had and a poll found the acknowledgement.
    method WritePostedMbx(msg: seq<Word>) returns (ok: bool, ghost taken: seq<bool>, ghost polls: seq<bool>)
      requires Valid() && Quiet() && |msg| <= SIZE
      modifies this`sys, this`trace, this`accesses, this`timeout
      ensures Valid() && Quiet()
      ensures old(timeout) == 0 ==> !ok && timeout == 0 && accesses == old(accesses) && sys == old(sys)
      ensures timeout == old(timeout) || (timeout == 0 && !ok)
      ensures ok && Disciplined() ==>
              exists content :: msg <= content && sys.pfGot <= content && LastVfContent(sys, content)
      ensures old(timeout) > 0 ==> LockOutcome(taken, Freed(taken))
      ensures old(timeout) > 0 ==> if Freed(taken) then PollOutcome(old(timeout), polls, ok) else !ok
    {
      taken, polls := [], [];
      if timeout == 0 { return false, [], []; }
      ok, taken := WriteMbx(msg);
      if ok {
        ghost var k, content := |sys.sent| - 1, LastContent(sys, start.hw.mem);
        ok, polls := PollFor(CheckAck);
        if ok && Disciplined() {
          assert LatestOfVf(sys, k) && LatestOfVf(sys, sys.pfRead - 1);
          assert LastVfContent(sys, content);
        }
      }
    }

    // Any sequence of posted calls after a timeout: each fails without one register access.
    method PostedAfterTimeout(calls: seq<Posted>) returns (results: seq<bool>)
      requires Valid() && Quiet() && timeout == 0
      requires forall c :: c in calls ==> (c.ReadPosted? ==> c.size <= SIZE) && (c.WritePosted? ==> |c.msg| <= SIZE)
      modifies this`sys, this`trace, this`accesses, this`timeout
      ensures Valid() && Quiet() && timeout == 0
      ensures |results| == |calls| && forall j :: 0 <= j < |results| ==> !results[j]
      ensures accesses == old(accesses) && sys.vf == old(sys).vf
    {
      results := [];
      for i := 0 to |calls|
        invariant Valid() && Quiet() && timeout == 0
        invariant |results| == i && forall j :: 0 <= j < i ==> !results[j]
        invariant accesses == old(accesses) && sys.vf == old(sys).vf
      {
        Others();
        var ok;
        var c := calls[i];
        if c.ReadPosted? {
          var msg;
          ghost var polls, taken;
          ok, msg, polls, taken := ReadPostedMbx(c.size);
        } else {
          ghost var taken, polls;
          ok, taken, polls := WritePostedMbx(c.msg);
        }
        results := results + [ok];
      }
    }

    // e1000_reset_hw_vf: requests a function level reset, re-arms the mailbox once the reset indication is
    // gone, then asks the PF for the permanent address. `rst` are the answers of the reset checks; `polls`,
    // `taken` and `reply` are those of the read, `left` is the timeout the write before it left.
    method ResetHwVf() returns (ok: bool, ghost rst: seq<bool>, ghost left: nat, ghost polls: seq<bool>,
                                ghost taken: seq<bool>, ghost reply: seq<Word>)
      requires Valid() && Quiet()
      modifies this
      ensures Valid() && Quiet()
      ensures ctrl == old(ctrl) + {26}
      ensures ResetWaits(rst)
      ensures |rst| == 201 ==> !ok && timeout == old(timeout) && accesses == old(accesses) + 201
      ensures |rst| <= 200 ==> (timeout == 2000 || (timeout == 0 && !ok)) && (left == 2000 || left == 0)
      ensures |rst| <= 200 ==> PollOutcome(left, polls, Found(polls))
      ensures |rst| <= 200 && Found(polls) ==> LockOutcome(taken, Freed(taken))
      ensures |rst| <= 200 ==>
                (ok <==> Found(polls) && Freed(taken) && |reply| == 3 && reply[0] == 0x8000_0001)
      ensures ok ==> LastBy(sys, Pf) && reply <= LastContent(sys, start.hw.mem) && AddressIn(permAddr, reply)
      ensures !ok ==> permAddr == old(permAddr)
    {
      ctrl := ctrl + {CTRL_RST};
      rst, left, polls, taken, reply := [], 0, [], [], [];
      var tries: nat := RESET_TIMEOUT;
      var asserted;
      ghost var met;
      asserted, met := Check(CheckRst);
      rst := [asserted];
      while asserted && tries != 0
        invariant Valid() && Quiet() && timeout == old(timeout) && permAddr == old(permAddr)
        invariant ctrl == old(ctrl) + {CTRL_RST}
        invariant |rst| == 201 - tries && rst[|rst| - 1] == asserted && forall i :: 0 <= i < |rst| - 1 ==> rst[i]
        invariant accesses == old(accesses) + |rst|
        decreases tries
      {
        tries := tries - 1;
        asserted, met := Check(CheckRst);
        rst := rst + [asserted];
      }
      if tries == 0 { return false, rst, left, polls, taken, reply; }
      ok, left, polls, taken, reply := AskAddress();
    }

    // The part of e1000_reset_hw_vf behind the reset: the request, and the PF's answer.
    method AskAddress() returns (ok: bool, ghost left: nat, ghost polls: seq<bool>, ghost taken: seq<bool>,
                                 ghost reply: seq<Word>)
      requires Valid() && Quiet()
      modifies this
      ensures Valid() && Quiet() && ctrl == old(ctrl)
      ensures (timeout == 2000 || (timeout == 0 && !ok)) && (left == 2000 || left == 0)
      ensures PollOutcome(left, polls, Found(polls)) == true
      ensures Found(polls) ==> LockOutcome(taken, Freed(taken)) == true
      ensures ok <==> Found(polls) && Freed(taken) && |reply| == 3 && reply[0] == 0x8000_0001
      ensures ok ==> LastBy(sys, Pf) && reply <= LastContent(sys, start.hw.mem)
      ensures ok ==> AddressIn(permAddr, reply) == true
      ensures !ok ==> permAddr == old(permAddr)
    {
      timeout := INIT_TIMEOUT;
      var sentOk;
      sentOk, taken, polls := WritePostedMbx([RESET_MSG]);
      left := timeout;
      var msg;
      ok, msg, polls, taken := ReadPostedMbx(3);
      reply := msg;
      if ok {
        ok := msg[0] == RESET_MSG + ACK_FLAG;
        if ok {
          AddressTaken(msg);
          permAddr := Bytes(msg[1]) + Bytes(msg[2])[..2];
        }
      }
    }
  }

  /** The six bytes lie behind the first word of the reply. */
  ghost predicate AddressIn(addr: seq<nat>, reply: seq<Word>) {
    && |addr| == 6 && |reply| >= 3
    && reply[1] == addr[0] + 0x100 * addr[1] + 0x1_0000 * addr[2] + 0x100_0000 * addr[3]
    && reply[2] % 0x1_0000 == addr[4] + 0x100 * addr[5]
  }

  lemma AddressTaken(msg: seq<Word>)
    requires |msg| == 3
    ensures AddressIn(Bytes(msg[1]) + Bytes(msg[2])[..2], msg) == true
  {
  }

  /** The reset was asserted in every check but the last of at most 201; the last of 201 does not count. */
  ghost predicate ResetWaits(rst: seq<bool>) {
    && 1 <= |rst| <= 201 && (forall i :: 0 <= i < |rst| - 1 ==> rst[i])
    && (|rst| <= 200 ==> !rst[|rst| - 1])
  }

  /** A word as it lies in memory. */
  function Bytes(w: Word): (bytes: seq<Byte>)
    ensures |bytes| == 4
    ensures w == Number(bytes[0], bytes[1], bytes[2], bytes[3])
  {
    var b := w / 0x100;
    var c := b / 0x100;
    [w % 0x100, b % 0x100, c % 0x100, c / 0x100]
  }

  /** The number that four bytes stand for, lowest first. */
  function Number(a: nat, b: nat, c: nat, d: nat): nat { a + 0x100 * (b + 0x100 * (c + 0x100 * d)) }

  /** `taken` tells for each attempt at the lock whether the PF owned the buffer: all did but the last, and
      the last too if the attempts ran out. */
  predicate LockOutcome(taken: seq<bool>, ok: bool) {
    && 1 <= |taken| <= 11 && (forall i :: 0 <= i < |taken| - 1 ==> taken[i])
    && taken[|taken| - 1] == !ok && (!ok ==> |taken| == 11)
  }

  predicate Freed(taken: seq<bool>) { taken != [] && !taken[|taken| - 1] }

  /** The last poll succeeded. */
  predicate Found(polls: seq<bool>) { polls != [] && polls[|polls| - 1] }

  /** Since `before`, only the PF completed writes. */
  ghost predicate OnlyPfSent(before: seq<Message>, after: seq<Message>) {
    before <= after && forall j :: |before| <= j < |after| ==> after[j].from == Pf
  }

  /** `content` is what the most recent completed write of the VF left in the buffer. */
  ghost predicate LastVfContent(s: System, content: seq<Word>) {
    exists k: nat :: LatestOfVf(s, k) && s.sent[k].content == content
  }

  lemma {:induction false} PfWaitsPrefix(s: System, ls: seq<Label>, l: Label)
    requires PfWaits(s, ls + [l])
    ensures PfWaits(s, ls)
    decreases |ls|
  {
    if ls == [] {
    } else {
      assert (ls + [l])[1..] == ls[1..] + [l];
      PfWaitsPrefix(Apply(s, ls[0]), ls[1..], l);
    }
  }

  /** A check that finds an ack: the PF has the VF's latest message. */
  lemma AckSeen(s: System)
    requires s.vf.pc == Look && s.vf.op == CheckAck && s.shadow <= R2C
    ensures VfAccess(s).sent == s.sent && VfAccess(s).pfGot == s.pfGot && VfAccess(s).pfRead == s.pfRead
    ensures VfAccess(s).vf.result ==> PFACK in s.hw.status + s.shadow
  {
    CheckBitEvents(s, {PFACK});
  }

  lemma AckMeans(s: System, initial: seq<Word>)
    requires Inv(s, initial) == true && s.vf.pc == Look && s.vf.op == CheckAck
    ensures AckInv(s) && VfAccess(s).vf.result ==> PfReceivedLatest(VfAccess(s)) == true
  {
    AckSeen(s);
    if AckInv(s) && VfAccess(s).vf.result {
      SameReceived(s, VfAccess(s));
    }
  }

  predicate AllFailed(results: seq<bool>) {
    forall j :: 0 <= j < |results| ==> !results[j]
  }

  lemma AllFailedSplit(results: seq<bool>)
    requires results != []
    ensures AllFailed(results) <==> AllFailed(results[..|results| - 1]) && !results[|results| - 1]
  {
  }

  /** A poll loop with `timeout` tries fails exactly when every one of its `timeout` polls failed. */
  ghost predicate PollOutcome(timeout: nat, results: seq<bool>, ok: bool) {
    && |results| <= timeout
    && (ok <==> results != [] && results[|results| - 1])
    && (!ok <==> |results| == timeout && AllFailed(results))
    && (results != [] ==> AllFailed(results[..|results| - 1]))
  }

  /** The write that acknowledges a message: what was read is the front of the last completed write. */
  lemma ReturnOutcome(s: System, initial: seq<Word>)
    requires Inv(s, initial) == true && s.vf.pc == Return
    ensures var t := VfAccess(s);
            && !t.hw.vfu && t.hw.ack && t.vf == Done(s.vf) && s.vf.got <= LastContent(t, initial)
            && (s.vf.noticed ==> LastBy(t, Pf))
  {
  }

  /** The write that posts a message publishes what was copied. */
  lemma PostedMessage(s: System, initial: seq<Word>)
    requires Inv(s, initial) == true && s.vf.pc == Post
    ensures var t := VfAccess(s);
            && !t.hw.vfu && t.hw.req && t.vf.pc == Idle && !t.vf.noticed && LastBy(t, Vf)
            && s.vf.op.Send? && |s.vf.op.msg| <= SIZE == |LastContent(t, initial)|
            && s.vf.op.msg == LastContent(t, initial)[..|s.vf.op.msg|]
  {
    assert Written(s.vf) == s.vf.op.msg && Written(s.pf) == [];
    assert LastContent(VfAccess(s), initial) == s.hw.mem;
  }

  lemma {:induction false} ExecSnoc(s: System, ls: seq<Label>, l: Label)
    ensures Exec(s, ls + [l]) == Apply(Exec(s, ls), l)
    decreases |ls|
  {
    if ls == [] {
      assert (ls + [l])[1..] == [];
    } else {
      ExecSnoc(Apply(s, ls[0]), ls[1..], l);
      assert (ls + [l])[1..] == ls[1..] + [l];
    }
  }

  lemma LookStep(s: System)
    requires s.vf.pc == Look
    ensures var p := VfAccess(s).vf;
            p.pc == Idle && p.op == s.vf.op && p.noticed == (s.vf.noticed || (s.vf.op == CheckMsg && p.result))
    ensures VfAccess(s).sent == s.sent
  {
  }

  /** A check reports its event and takes it away. */
  lemma LookMeans(s: System, initial: seq<Word>)
    requires Inv(s, initial) == true && s.vf.pc == Look
    ensures Pending(VfAccess(s)) == Pending(s) - Reported(s.vf.op)
    ensures VfAccess(s).vf.result <==> Signalled(s.vf.op, s)
  {
    VfEvents(s);
  }

  lemma FetchedWord(s: System)
    requires s.vf.pc.Fetch?
    ensures var i := s.vf.pc.i; VfAccess(s).vf == AfterFetch(s.vf, i, FetchWord(s.hw.mem, i))
  {
  }

  lemma FlushStep(s: System)
    ensures s.vf.pc == FlushMsg ==> VfAccess(s).vf == s.vf.(pc := FlushAck)
    ensures s.vf.pc == FlushAck ==> VfAccess(s).vf == AfterFlush(s.vf)
  {
  }

  /** The lock test: VFU seen means the buffer is ours, otherwise the next attempt or failure. */
  lemma ConfirmOutcome(s: System, initial: seq<Word>)
    requires Inv(s, initial) == true && s.vf.pc.Confirm?
    ensures var t := VfAccess(s);
            (VFU in ReadV2p(s).0 <==> s.hw.vfu) &&
            if VFU in ReadV2p(s).0 then t.vf == AfterLock(s.vf) && t.hw.vfu && !t.hw.pfu
            else
              && !t.hw.vfu
              && t.vf == if s.vf.pc.i < LAST_ATTEMPT then s.vf.(pc := Claim(s.vf.pc.i + 1)) else Failed(s.vf)
  {
    ReadV2pFacts(s);
  }

  /** The lock test shows every pending event and keeps each in the shadow. */
  lemma ConfirmReports(s: System)
    requires s.vf.pc.Confirm? && s.shadow <= R2C && s.hw.status <= R2C + {RSTI}
    ensures PFU in ReadV2p(s).0 <==> s.hw.pfu
    ensures ReadV2p(s).0 * {PFSTS, PFACK, RSTD} == Pending(s) == Pending(VfAccess(s)) == VfAccess(s).shadow
  {
    ReadV2pEvents(s);
  }

  lemma OthersSpareVf(s: System, l: Label)
    requires l.Reset? || l.side == Pf
    ensures Apply(s, l).vf == s.vf && Apply(s, l).hw.vfu == s.hw.vfu && Pending(s) <= Pending(Apply(s, l))
  {
    if l.Run? {
      PfEvents(s);
    }
  }
}
