/** Runs of the TX queue: offers, reports of the hardware and advances in any order. */
module TxRuns {
  import opened RingIndex
  import opened TxDescriptors
  import opened TxRing
  import opened TxCourse
  import opened TxQueue

  const NO_OFFLOAD: Offload := Offload(0, 0, false, false, false, false, 0, 0, 0)

  function RingSize(fragments: seq<Fragment>): nat { if |fragments| > 0xFFFF then 0xFFFF else |fragments| }

  /** The queue has gone through the run `ops` of its index and the packets waiting. */
  ghost predicate Served(q: TxQueue, limit: nat, ops: seq<Op>)
    reads q, q.txd, q.tcb
  {
    q.Valid() && Within(limit, ops) && q.Here() == Exec(q.n, Extra(q.cfg), START, ops)
  }

  // Any run from the start in which no packet has more than `limit` fragments: the queue is stuck only if
  // such packets can get it stuck.
  method Serve(cfg: TxConfig, packets: seq<Packet>, fragments: seq<Fragment>, limit: nat)
      returns (q: TxQueue, ghost ops: seq<Op>)
    requires 0 < |packets| && 0 < |fragments| && 1 <= limit
    ensures q.cfg == cfg && q.n == RingSize(fragments) && fresh(q) && fresh(q.txd) && fresh(q.tcb)
    ensures Served(q, limit, ops) == true
    ensures q.Stuck() ==> CanStick(q.n, Extra(cfg), limit)
  {
    q := new TxQueue(cfg, packets, fragments);
    ops := [];
    var rounds: nat :| true;
    for i := 0 to rounds
      invariant Served(q, limit, ops) == true
      invariant q.cfg == cfg && q.n == RingSize(fragments) && fresh(q) && fresh(q.txd) && fresh(q.tcb)
    {
      ops := ServeOnce(q, limit, ops);
    }
    StuckOnlyIf(q, limit, ops);
  }

  // The hardware reports a packet, the driver advances where its pass has room, or the framework offers.
  method ServeOnce(q: TxQueue, limit: nat, ghost ops: seq<Op>) returns (ghost ops': seq<Op>)
    requires Served(q, limit, ops) == true && 1 <= limit
    modifies q, q.txd, q.tcb
    ensures Served(q, limit, ops') == true
  {
    ops' := ops;
    var k: nat :| true;
    if k < |q.out| && q.out[k].used {
      q.HardwareReports(k, Desc(0, {}, 0, 1));
    } else if k % 2 == 0 && q.Room() {
      ops' := AdvanceOnce(q, limit, ops);
    } else {
      ops' := OfferSome(q, limit, ops);
    }
  }

  method AdvanceOnce(q: TxQueue, limit: nat, ghost ops: seq<Op>) returns (ghost ops': seq<Op>)
    requires Served(q, limit, ops) == true && q.Room()
    modifies q, q.txd, q.tcb
    ensures Served(q, limit, ops') == true
  {
    q.PassIsStep();
    ghost var posted := q.Advance();
    ops' := ops + [Pass];
    ServedNext(q, limit, ops, Pass);
  }

  lemma ServedNext(q: TxQueue, limit: nat, ops: seq<Op>, op: Op)
    requires q.Valid() && Within(limit, ops) && (op.Offer? ==> 1 <= op.count <= limit)
    requires q.Here() == Step(q.n, Extra(q.cfg), Exec(q.n, Extra(q.cfg), START, ops), op)
    ensures Served(q, limit, ops + [op]) == true
  {
    ExecSnoc(q.n, Extra(q.cfg), START, ops, op);
  }

  lemma StuckOnlyIf(q: TxQueue, limit: nat, ops: seq<Op>)
    requires Served(q, limit, ops) == true && 1 <= limit
    ensures q.Stuck() ==> CanStick(q.n, Extra(q.cfg), limit)
  {
    if q.Stuck() {
      WaitingFrom(q.packets, q.pr.next, q.pr.end);
      CanGetStuckIff(q.n, Extra(q.cfg), limit);
      assert StuckAt(q.n, Exec(q.n, Extra(q.cfg), START, ops));
    }
  }

  // A packet the framework may offer, if there is space in the packet ring.
  method OfferSome(q: TxQueue, limit: nat, ghost ops: seq<Op>) returns (ghost ops': seq<Op>)
    requires Served(q, limit, ops) == true && 1 <= limit
    modifies q`packets, q`fragments, q`pr
    ensures Served(q, limit, ops') == true
  {
    ops' := ops;
    if Dist(q.pr.begin, q.pr.end, |q.packets|) + 1 < |q.packets| {
      var ignore: bool := *;
      var count: nat :| 1 <= count <= limit;
      OfferPacket(q, ignore, count);
      if !ignore {
        ops' := ops + [Op.Offer(count)];
        ServedNext(q, limit, ops, Op.Offer(count));
      }
    }
  }

  // A packet with its fragments behind those of the packets waiting.
  method OfferPacket(q: TxQueue, ignore: bool, count: nat)
    requires q.Valid() && 1 <= count && Dist(q.pr.begin, q.pr.end, |q.packets|) + 1 < |q.packets|
    modifies q`packets, q`fragments, q`pr
    ensures q.Valid() && |q.packets| == |old(q.packets)|
    ensures q.pr.begin == old(q.pr.begin) && q.pr.next == old(q.pr.next)
    ensures Dist(q.pr.begin, q.pr.end, |q.packets|) == Dist(old(q.pr.begin), old(q.pr.end), |q.packets|) + 1
    ensures q.Here() == if ignore then old(q.Here()) else Step(q.n, Extra(q.cfg), old(q.Here()), Op.Offer(count))
  {
    DistInc(q.pr.begin, q.pr.end, |q.packets|);
    q.Offer(Packet(ignore, ChainEnd(q.packets, q.pr.next, q.pr.end, q.fr.next, |q.fragments|), count, NO_OFFLOAD),
            q.fragments);
  }

  lemma {:induction false} ExecSnoc(n: nat, extra: nat, c: Cursor, ops: seq<Op>, op: Op)
    requires c.index < n && extra <= 1
    ensures Exec(n, extra, c, ops + [op]) == Step(n, extra, Exec(n, extra, c, ops), op)
    decreases |ops|
  {
    if ops == [] {
      assert (ops + [op])[1..] == [];
    } else {
      ExecSnoc(n, extra, Step(n, extra, c, ops[0]), ops[1..], op);
      assert (ops + [op])[1..] == ops[1..] + [op];
    }
  }

  /** Nothing is outstanding, and `count` packets are waiting, all of one fragment. */
  ghost predicate Resting(q: TxQueue, count: nat)
    reads q, q.txd, q.tcb
  {
    && q.Valid() && q.out == [] && q.Here().waiting == Ones(count)
    && q.pr.next < |q.packets| && q.pr.end < |q.packets| && Dist(q.pr.next, q.pr.end, |q.packets|) == count
  }

  function Ones(count: nat): seq<nat> { seq(count, _ => 1) }

  // One more packet of one fragment.
  method OfferOne(q: TxQueue, ghost count: nat)
    requires Resting(q, count) == true && count + 1 < |q.packets|
    modifies q`packets, q`fragments, q`pr
    ensures Resting(q, count + 1) == true && |q.packets| == |old(q.packets)|
  {
    assert q.pr.begin == q.pr.next by {
      AdvDist(q.pr.begin, q.pr.next, |q.packets|);
      AdvSmall(q.pr.begin, 0, |q.packets|);
    }
    OfferPacket(q, false, 1);
    assert Ones(count) + [1] == Ones(count + 1);
  }

  /** Slots that `count` packets of one fragment take. */
  function Slots(count: nat, extra: nat): nat { if extra == 0 then count else 2 * count }

  lemma {:induction false} PassTakesAll(extra: nat, count: nat, available: nat)
    requires extra <= 1 && Slots(count, extra) <= available && (extra == 0 ==> count < available)
    ensures PassOver(extra, Ones(count), available) == (Slots(count, extra), [])
    decreases count
  {
    if count == 0 {
    } else {
      PassTakesAll(extra, count - 1, available - 1 - extra);
      assert Ones(count)[1..] == Ones(count - 1);
    }
  }

  // All packets waiting are transmitted, if there are slots enough up to the end of the ring.
  method TransmitAll(q: TxQueue, ghost count: nat)
    requires Resting(q, count) == true && q.txDescIndex + Slots(count, Extra(q.cfg)) <= q.n
    requires Extra(q.cfg) == 0 ==> q.txDescIndex + count < q.n
    modifies q, q.txd, q.tcb
    ensures q.Valid() && |q.out| == count && Total(q.out) == Slots(count, Extra(q.cfg))
    ensures q.txDescIndex == Adv(old(q.txDescIndex), Slots(count, Extra(q.cfg)), q.n)
    ensures |q.packets| == |old(q.packets)| && q.pr.next == q.pr.end && Unreported(q.out) == true
  {
    ghost var next, end, available := q.pr.next, q.pr.end, q.n - q.txDescIndex;
    CourseIsPass(q.cfg, q.packets, next, end, available);
    PassTakesAll(Extra(q.cfg), count, available);
    NoneLeft(q.cfg, q.packets, next, end, available);
    assert Total(q.out) == 0 && q.pr.begin == q.pr.next by {
      AdvDist(q.pr.begin, q.pr.next, |q.packets|);
      AdvSmall(q.pr.begin, 0, |q.packets|);
    }
    ghost var posted := q.TransmitPackets();
    NoneReported(q.Abs(), q.fragments, old(q.txDescIndex));
  }

  lemma NoneReported(v: View, fragments: seq<Fragment>, start: nat)
    requires PassInv(v, fragments, start, 0)
    ensures Unreported(v.out) == true
  {
    forall k | 0 <= k < |v.out| && v.out[k].used ensures !v.out[k].done {
      assert InPass(v, fragments, start, 0, k);
    }
  }

  /** The hardware has reported none of these packets. */
  predicate Unreported(out: seq<Rec>) { forall k :: 0 <= k < |out| && out[k].used ==> !out[k].done }

  /** A pass after which nothing waits has come to the end. */
  lemma NoneLeft(cfg: TxConfig, packets: seq<Packet>, next: nat, end: nat, available: nat)
    requires next < |packets| && end < |packets|
    requires Waiting(packets, CourseOf(cfg, packets, next, end, available).stop, end) == []
    ensures CourseOf(cfg, packets, next, end, available).stop == end
  {
    var stop := CourseOf(cfg, packets, next, end, available).stop;
    if stop != end {
      WaitingFrom(packets, stop, end);
    }
  }

  // The only packet outstanding is reported and completed.
  method CompleteOne(q: TxQueue)
    requires q.Valid() && |q.out| == 1 && Total(q.out) > 0 && q.pr.next == q.pr.end
    modifies q, q.txd, q.tcb
    ensures Resting(q, 0) == true && |q.packets| == |old(q.packets)| && q.txDescIndex == old(q.txDescIndex)
  {
    OneOutstanding(q.Abs());
    q.HardwareReports(0, Desc(0, {}, 0, 1));
    assert CompletePrefix(q.out[1..]) == 0;
    q.CompleteTransmitPackets();
  }

  /** If one packet makes up all that is outstanding, it was posted. */
  lemma OneOutstanding(v: View)
    requires OutInv(v) && |v.out| == 1 && Total(v.out) > 0
    ensures v.out[0].used
  {
    assert RecOk(v, 0) && v.out[..0] == [];
  }

  // The other half: with packets of one fragment only, each completed before the next is offered, a queue
  // without offloads, or with a ring of odd size, gets stuck.
  method GetStuck(cfg: TxConfig, packets: seq<Packet>, fragments: seq<Fragment>) returns (q: TxQueue)
    requires 2 <= |packets| && 2 <= |fragments| && CanStick(RingSize(fragments), Extra(cfg), 1)
    ensures q.Valid() && q.cfg == cfg && q.n == RingSize(fragments) && fresh(q) && fresh(q.txd) && fresh(q.tcb)
    ensures q.Stuck() && q.out == [] && q.packets[q.pr.next].fragmentCount == 1
  {
    q := new TxQueue(cfg, packets, fragments);
    SendUpToLast(q);
    OfferOne(q, 0);
    OneWaiting(q);
  }

  // Packets one by one until the index is at the last slot.
  method SendUpToLast(q: TxQueue)
    requires Resting(q, 0) == true && 2 <= |q.packets| && CanStick(q.n, Extra(q.cfg), 1) && q.txDescIndex == 0
    modifies q, q.txd, q.tcb
    ensures Resting(q, 0) == true && |q.packets| == |old(q.packets)| && q.txDescIndex == q.n - 1
  {
    ghost var left: int := if Extra(q.cfg) == 0 then q.n - 1 else q.n / 2;
    while q.txDescIndex != q.n - 1
      invariant Resting(q, 0) == true && |q.packets| == |old(q.packets)|
      invariant 0 <= left && q.txDescIndex + Slots(left, Extra(q.cfg)) == q.n - 1
      decreases left
    {
      SendOne(q);
      left := left - 1;
    }
  }

  /** A single packet waiting is not ignored. */
  lemma OneWaiting(q: TxQueue)
    requires Resting(q, 1) == true
    ensures q.pr.next < |q.packets| && q.pr.next != q.pr.end
    ensures !q.packets[q.pr.next].ignore && q.packets[q.pr.next].fragmentCount == 1
  {
    WaitingFrom(q.packets, q.pr.next, q.pr.end);
    DistIncStart(q.pr.next, q.pr.end, |q.packets|);
    assert Waiting(q.packets, q.pr.end, q.pr.end) == [];
  }

  // One packet through a queue at rest: offered, transmitted, reported and completed.
  method SendOne(q: TxQueue)
    requires Resting(q, 0) == true && 2 <= |q.packets| && q.txDescIndex + 1 + Extra(q.cfg) < q.n
    modifies q, q.txd, q.tcb
    ensures Resting(q, 0) == true && |q.packets| == |old(q.packets)|
    ensures q.txDescIndex == old(q.txDescIndex) + 1 + Extra(q.cfg)
  {
    ghost var index := q.txDescIndex;
    OfferOne(q, 0);
    TransmitAll(q, 1);
    AdvSmall(index, 1 + Extra(q.cfg), q.n);
    CompleteOne(q);
  }

  // Half as many packets as a ring of even size has slots, with a context descriptor each, fill it and bring
  // the tail round to the head.
  method FillRing(cfg: TxConfig, packets: seq<Packet>, fragments: seq<Fragment>) returns (q: TxQueue)
    requires cfg.UsesContext() && 0 < |fragments| && RingSize(fragments) % 2 == 0
    requires RingSize(fragments) / 2 + 1 < |packets|
    ensures q.cfg == cfg && q.n == RingSize(fragments) && fresh(q) && fresh(q.txd) && fresh(q.tcb)
    ensures q.Valid() && |q.packets| == |packets| && |q.out| == q.n / 2
    ensures Total(q.out) == q.n && Unreported(q.out) == true
    ensures q.tail == q.head && q.txDescIndex == 0 && q.pr.next == q.pr.end
  {
    q := new TxQueue(cfg, packets, fragments);
    var half := q.n / 2;
    for i := 0 to half
      invariant Resting(q, i) == true && |q.packets| == |packets| && q.txDescIndex == 0
      invariant q.cfg == cfg && q.n == RingSize(fragments) && fresh(q) && fresh(q.txd) && fresh(q.tcb)
    {
      OfferOne(q, i);
    }
    TransmitAll(q, half);
    AdvSmall(0, q.n, q.n);
    q.TailMeetsHeadIff();
  }

  // The condition of TransmitPackets can fail on every such ring: with one more packet the next pass would
  // overwrite two outstanding descriptors.
  method RoomCanFail(cfg: TxConfig, packets: seq<Packet>, fragments: seq<Fragment>) returns (q: TxQueue)
    requires cfg.UsesContext() && 0 < |fragments| && RingSize(fragments) % 2 == 0
    requires RingSize(fragments) / 2 + 1 < |packets|
    ensures q.cfg == cfg && q.n == RingSize(fragments) && fresh(q) && fresh(q.txd) && fresh(q.tcb)
    ensures q.Valid() && Total(q.out) == q.n && Unreported(q.out) && q.tail == q.head && !q.Room()
    ensures q.txDescIndex == 0 && Dist(q.pr.next, q.pr.end, |q.packets|) == 1
    ensures CourseOf(cfg, q.packets, q.pr.next, q.pr.end, q.n) == Course(2, q.pr.end)
  {
    q := FillRing(cfg, packets, fragments);
    OfferPacket(q, false, 1);
    assert Ones(1) == [] + [1];
    FullRing(q);
  }

  /** With everything outstanding and one packet waiting, the pass to come posts that packet. */
  lemma FullRing(q: TxQueue)
    requires q.Valid() && Total(q.out) == q.n && q.txDescIndex == 0 && 2 <= q.n && q.cfg.UsesContext()
    requires q.Here().waiting == Ones(1)
    ensures !q.Room() && q.pr.next != q.pr.end
    ensures CourseOf(q.cfg, q.packets, q.pr.next, q.pr.end, q.n) == Course(2, q.pr.end)
  {
    CourseIsPass(q.cfg, q.packets, q.pr.next, q.pr.end, q.n);
    PassTakesAll(1, 1, q.n);
    NoneLeft(q.cfg, q.packets, q.pr.next, q.pr.end, q.n);
  }

  // And it does: with all `n` slots outstanding in `before` and none of them reported, the first two come to
  // hold the descriptors of the new packet.
  method Overwrite(cfg: TxConfig, packets: seq<Packet>, fragments: seq<Fragment>)
      returns (q: TxQueue, ghost before: seq<Rec>)
    requires cfg.UsesContext() && 0 < |fragments| && RingSize(fragments) % 2 == 0
    requires RingSize(fragments) / 2 + 1 < |packets|
    ensures fresh(q) && fresh(q.txd) && fresh(q.tcb) && 0 < |q.packets| && 0 < |q.fragments|
    ensures before < q.out && Total(before) == q.n && Unreported(before) && Total(q.out) == q.n + 2
    ensures Carries(q.txd[..], cfg, q.fragments, 0, q.packets[PacketOf(q.Abs(), |before|)])
  {
    q := RoomCanFail(cfg, packets, fragments);
    before := q.out;
    ghost var posted := q.TransmitPackets();
    NewInPass(q.Abs(), q.fragments, before);
  }

  /** If a pass from slot 0 posted a single packet, its descriptors are from slot 0 on. */
  lemma NewInPass(v: View, fragments: seq<Fragment>, before: seq<Rec>)
    requires PassInv(v, fragments, 0, |before|) && before <= v.out && |v.out| == |before| + 1
    requires Total(v.out) > Total(before)
    ensures Carries(v.txd, v.cfg, fragments, 0, v.packets[PacketOf(v, |before|)])
  {
    assert v.out[..|before|] == before && v.out == before + [v.out[|before|]];
    TotalSnoc(before, v.out[|before|]);
    assert InPass(v, fragments, 0, |before|, |before|);
  }
}
