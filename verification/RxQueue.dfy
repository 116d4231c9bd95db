/** The RX queue: indicating what the device received and posting buffers, with the device at work. */
module RxQueue {
  import opened RingIndex
  import opened RxRing

  /** Indices of a NET_RING. */
  datatype Ring = Ring(begin: nat, next: nat, end: nat)
  datatype RxPacket = RxPacket(fragmentIndex: nat, fragmentCount: nat)
  datatype RxFragment = RxFragment(validLength: nat, capacity: nat, offset: nat)

  /** A packet handed to the framework: its index, its fragment and the length of that fragment. */
  datatype Indication = Indication(packet: nat, fragment: nat, length: nat)

  /** Packet k, for k from `from` on, is linked to its own fragment with the length indicated. */
  ghost predicate Linked(n: nat, packets: seq<RxPacket>, fragments: seq<RxFragment>, indicated: seq<Indication>,
                         from: nat)
    requires n > 0
  {
    && |packets| == |fragments| == n
    && forall k :: from <= k < |indicated| ==>
         && packets[Slot(k, n)] == RxPacket(Slot(k, n), 1)
         && fragments[Slot(k, n)] == RxFragment(indicated[k].length, indicated[k].length, 0)
  }

  lemma LinkedNext(n: nat, packets: seq<RxPacket>, fragments: seq<RxFragment>, indicated: seq<Indication>, from: nat,
                   i: Indication)
    requires n > 0 && Linked(n, packets, fragments, indicated, from) && from <= |indicated| < from + n
    requires i.packet == i.fragment == Slot(|indicated|, n)
    ensures Linked(n, packets[i.packet := RxPacket(i.fragment, 1)],
                fragments[i.fragment := RxFragment(i.length, i.length, 0)], indicated + [i], from) == true
  {
    forall j | from <= j < |indicated| ensures Slot(j, n) != Slot(|indicated|, n) { SlotsDiffer(j, |indicated|, n); }
  }

  class RxQueue {
    const n: nat
    const rxd: array<RxDesc>
    var packets: seq<RxPacket>
    var pr: Ring
    var fragments: seq<RxFragment>
    var fr: Ring
    // logical addresses of the fragments, an extension of the fragment ring
    var addresses: seq<nat>
    // the device's RDH and RDT
    var rdh: nat
    var rdt: nat
    // buffers posted since the start
    var posted: nat
    // every descriptor the device wrote back, every packet indicated, and what the framework offered
    ghost var received: seq<RxDesc>
    ghost var indicated: seq<Indication>
    ghost var offered: nat
    ghost var packetsOffered: nat

    ghost function Abs(): View
      reads this, rxd
    {
      View(n, rxd[..], addresses, received, |indicated|, posted, offered)
    }

    ghost predicate Valid()
      reads this, rxd
    {
      && Inv(Abs())
      && |packets| == |fragments| == n
      && fr == Ring(Slot(|indicated|, n), Slot(posted, n), Slot(offered, n))
      && pr.begin == Slot(|indicated|, n) && pr.end == Slot(packetsOffered, n)
      && |indicated| <= packetsOffered < |indicated| + n
      && rdh == Slot(|received|, n) && rdt == Tail(Abs())
      && Exact()
    }

    /** Packet k carries fragment k and the length the device wrote for buffer k. */
    ghost predicate Exact()
      requires n > 0
      reads this
    {
      && |indicated| <= |received|
      && forall k :: 0 <= k < |indicated| ==>
           && indicated[k].packet == indicated[k].fragment == Slot(k, n)
           && indicated[k].length == received[k].upper / 0x1_0000_0000 % 0x1_0000
    }

    /** Packets `from` on, as long as the framework has not reused their slots: each is linked to its own
        fragment, which is valid from its first byte for the length the device wrote. */
    ghost predicate Handed(from: nat)
      requires n > 0
      reads this
    {
      Linked(n, packets, fragments, indicated, from) == true
    }

    // EvtRxQueueStart on empty rings: descriptors zeroed, head 0, tail NumRxDesc - 1.
    constructor (packets: seq<RxPacket>, fragments: seq<RxFragment>, addresses: seq<nat>)
      requires 0 < |packets| == |fragments| == |addresses| <= 4096
      ensures Valid() && fresh(rxd) && n == |packets|
      ensures received == [] && indicated == [] && posted == 0 && offered == 0 && packetsOffered == 0
    {
      n := |packets|;
      rxd := new RxDesc[|packets|](_ => RxDesc(0, 0));
      this.packets, pr := packets, Ring(0, 0, 0);
      this.fragments, fr, this.addresses := fragments, Ring(0, 0, 0), addresses;
      rdh, rdt := 0, |packets| - 1;
      received, indicated, posted, offered, packetsOffered := [], [], 0, 0, 0;
    }

    // The device fills the slot at its head, if it owns one.
    method Receive(d: RxDesc)
      requires Valid() && posted > 0 && rdh != rdt && d.upper % 2 == 1
      modifies this`rdh, this`received, rxd
      ensures Valid() && received == old(received) + [d]
      ensures posted < offered ==> rxd[Slot(posted, n)] == old(rxd[Slot(posted, n)])
    {
      ghost var v := Abs();
      SlotsDiffer(|received|, posted, n);
      MayReceiveIff(v);
      ReceiveKeeps(v, d);
      SlotNext(|received|, n);
      rxd[rdh] := d;
      rdh := Inc(rdh, n);
      received := received + [d];
      assert Abs() == v.(rxd := v.rxd[Slot(|v.received|, n) := d], received := v.received + [d]);
    }

    // Anything the device may write back.
    static method WriteBack() returns (d: RxDesc)
      ensures d.upper % 2 == 1
    {
      assert RxDesc(0, 1).upper % 2 == 1;
      d :| d.upper % 2 == 1;
    }

    // The device at work between two steps of the driver.
    method Device()
      requires Valid()
      modifies this`rdh, this`received, rxd
      ensures Valid() && old(received) <= received
      ensures posted < offered ==> rxd[Slot(posted, n)] == old(rxd[Slot(posted, n)])
    {
      var frames: nat :| true;
      for i := 0 to frames
        invariant Valid() && old(received) <= received
        invariant posted < offered ==> rxd[Slot(posted, n)] == old(rxd[Slot(posted, n)])
      {
        if posted > 0 && rdh != rdt {
          var d := WriteBack();
          Receive(d);
        }
      }
    }

    // The driver's half of RxIndicateReceives for one packet, the descriptor's length having been read.
    method Indicate(length: nat)
      requires Valid() && |indicated| < |received| && pr.begin != pr.end
      requires length == Length(received[|indicated|])
      modifies this`packets, this`pr, this`fragments, this`fr, this`indicated
      ensures Valid() && indicated == old(indicated) + [Indication(old(pr).begin, old(fr).begin, length)]
      ensures old(pr).begin == old(fr).begin
      ensures packets == old(packets)[old(pr).begin := RxPacket(old(fr).begin, 1)]
      ensures fragments == old(fragments)[old(fr).begin := RxFragment(length, length, 0)]
    {
      ghost var v := Abs();
      DeliverKeeps(v);
      SlotNext(|indicated|, n);
      fragments := fragments[fr.begin := RxFragment(length, length, 0)];
      packets := packets[pr.begin := RxPacket(fr.begin, 1)];
      indicated := indicated + [Indication(pr.begin, fr.begin, length)];
      pr := pr.(begin := Inc(pr.begin, n));
      fr := fr.(begin := Inc(fr.begin, n));
      assert Abs() == v.(delivered := v.delivered + 1);
    }

    // The loop's test: fragments posted, descriptor done, a packet to fill.
    method Ready() returns (ready: bool)
      requires Valid()
      ensures ready <==> |indicated| < |received| && |indicated| < packetsOffered
      ensures ready ==> pr.begin != pr.end
    {
      ghost var v := Abs();
      BeginIsNextIff(|indicated|, posted, n);
      BeginIsNextIff(|indicated|, packetsOffered, n);
      if fr.begin == fr.next { return false; }
      DoneIffReceived(v);
      if rxd[fr.begin].upper % 0x1_0000_0000 % 2 == 0 { return false; }
      ready := pr.begin != pr.end;
    }

    // One turn of the loop: DD was seen; the length is read later.
    method IndicateNext(ghost from: nat)
      requires Valid() && Handed(from) && from <= |indicated| < from + n
      requires |indicated| < |received| && |indicated| < packetsOffered && pr.begin != pr.end
      modifies this`packets, this`pr, this`fragments, this`fr, this`indicated, this`rdh, this`received, rxd
      ensures Valid() && old(received) <= received && |indicated| == |old(indicated)| + 1 && old(indicated) <= indicated
      ensures Handed(from)
    {
      Device();
      DoneIffReceived(Abs());
      var length := (rxd[fr.begin].upper / 0x1_0000_0000) % 0x1_0000;
      LinkedNext(n, packets, fragments, indicated, from, Indication(pr.begin, fr.begin, length));
      Indicate(length);
      Device();
    }

    // RxIndicateReceives with the device at work, also between the test of DD and the read of the length.
    // Everything received before the call is indicated as far as packets go.
    method IndicateReceives()
      requires Valid()
      modifies this`packets, this`pr, this`fragments, this`fr, this`indicated, this`rdh, this`received, rxd
      ensures Valid() && old(received) <= received && old(indicated) <= indicated
      ensures |indicated| >= |old(received)| || |indicated| == packetsOffered
      ensures Handed(|old(indicated)|)
    {
      var ready := Ready();
      while ready
        invariant Valid() && old(received) <= received && old(indicated) <= indicated
        invariant Handed(|old(indicated)|) && packetsOffered == old(packetsOffered)
        invariant ready ==> |indicated| < |received| && |indicated| < packetsOffered && pr.begin != pr.end
        invariant !ready ==> |indicated| >= |old(received)| || |indicated| == packetsOffered
        decreases packetsOffered - |indicated|, ready
      {
        IndicateNext(|old(indicated)|);
        ready := Ready();
      }
    }

    // IgbPostRxDescriptor, and then the tail write, for one buffer; the device may be at work in between.
    method PostOne()
      requires Valid() && fr.next != fr.end
      modifies this`fr, this`posted, this`rdt, this`rdh, this`received, rxd
      ensures Valid() && posted == old(posted) + 1 <= offered && old(received) <= received
      ensures fr == old(fr).(next := Inc(old(fr).next, n)) && rdt == old(fr).next
      ensures rxd[old(fr).next] == RxDesc(addresses[old(fr).next], 0)
    {
      WriteDescriptor();
      Device();
      ghost var v := Abs();
      PostKeeps(v);
      SlotNext(posted, n);
      rdt := fr.next;
      fr := fr.(next := Inc(fr.next, n));
      posted := posted + 1;
      assert Abs() == v.(rxd := v.rxd[Slot(v.posted, n) := RxDesc(v.addresses[Slot(v.posted, n)], 0)],
             posted := v.posted + 1);
    }

    // IgbPostRxDescriptor on a slot that is not the device's yet.
    method WriteDescriptor()
      requires Valid() && fr.next != fr.end
      modifies rxd
      ensures Valid() && rxd[Slot(posted, n)] == RxDesc(addresses[Slot(posted, n)], 0)
    {
      ghost var v := Abs();
      WriteKeeps(v, ReadLayout(addresses[fr.next], 0));
      rxd[fr.next] := ReadLayout(addresses[fr.next], 0);
      assert Abs() == v.(rxd := v.rxd[Slot(v.posted, n) := ReadLayout(v.addresses[Slot(v.posted, n)], 0)]);
    }

    // RxPostBuffers
    method PostBuffers()
      requires Valid()
      modifies this`fr, this`posted, this`rdt, this`rdh, this`received, rxd
      ensures Valid() && posted == offered && fr.next == fr.end && fr.begin == old(fr).begin &&
              old(received) <= received
    {
      while fr.next != fr.end
        invariant Valid() && old(received) <= received && fr.begin == old(fr).begin
        decreases offered - posted
      {
        PostOne();
        Device();
      }
      BeginIsNextIff(posted, offered, n);
    }

    // EvtRxQueueAdvance
    method Advance()
      requires Valid()
      modifies this, rxd
      ensures Valid() && old(received) <= received && old(indicated) <= indicated
      ensures |indicated| >= |old(received)| || |indicated| == packetsOffered
      ensures Handed(|old(indicated)|)
      ensures posted == offered == old(offered) && packetsOffered == old(packetsOffered)
    {
      IndicateReceives();
      PostBuffers();
    }

    // The framework offers an empty packet, or a buffer.
    method OfferPacket()
      requires Valid() && packetsOffered + 1 < |indicated| + n
      modifies this`pr, this`packetsOffered
      ensures Valid() && packetsOffered == old(packetsOffered) + 1
    {
      SlotNext(packetsOffered, n);
      pr := pr.(end := Inc(pr.end, n));
      packetsOffered := packetsOffered + 1;
    }

    method OfferBuffer(address: nat)
      requires Valid() && offered + 1 < |indicated| + n
      modifies this`fr, this`addresses, this`offered
      ensures Valid() && offered == old(offered) + 1 && addresses == old(addresses)[old(fr).end := address]
    {
      ghost var v := Abs();
      OfferKeeps(v, address);
      SlotNext(offered, n);
      addresses := addresses[fr.end := address];
      fr := fr.(end := Inc(fr.end, n));
      offered := offered + 1;
      assert Abs() == v.(addresses := v.addresses[Slot(v.offered, n) := address], offered := v.offered + 1);
    }
  }

  // Any run from the start: the framework offers packets and buffers, the device receives, the driver
  // advances. What was indicated is what was received, in order and once each, with its own fragment and
  // length; after one more advance nothing received before it is left as far as packets go.
  method Serve(packets: seq<RxPacket>, fragments: seq<RxFragment>, addresses: seq<nat>)
      returns (q: RxQueue, ghost before: seq<RxDesc>)
    requires 0 < |packets| == |fragments| == |addresses| <= 4096
    ensures q.Valid() && q.n == |packets| && fresh(q) && fresh(q.rxd)
    ensures |q.indicated| <= |q.received| && before <= q.received
    ensures forall k :: 0 <= k < |q.indicated| ==>
              && q.indicated[k].packet == q.indicated[k].fragment == Slot(k, q.n)
              && q.indicated[k].length == q.received[k].upper / 0x1_0000_0000 % 0x1_0000
    ensures |q.indicated| >= |before| || |q.indicated| == q.packetsOffered
    ensures q.posted == q.offered
  {
    q := new RxQueue(packets, fragments, addresses);
    var rounds: nat :| true;
    for i := 0 to rounds
      invariant q.Valid() && q.n == |packets| && fresh(q) && fresh(q.rxd)
    {
      ServeOnce(q);
    }
    before := q.received;
    q.Advance();
  }

  method ServeOnce(q: RxQueue)
    requires q.Valid()
    modifies q, q.rxd
    ensures q.Valid() && old(q.received) <= q.received && old(q.indicated) <= q.indicated
  {
    var choice, address: nat :| true;
    if choice == 0 && Inc(q.pr.end, q.n) != q.pr.begin {
      RoomToOffer(|q.indicated|, q.packetsOffered, q.n);
      q.OfferPacket();
    } else if choice == 1 && Inc(q.fr.end, q.n) != q.fr.begin {
      RoomToOffer(|q.indicated|, q.offered, q.n);
      q.OfferBuffer(address);
    } else if choice == 2 {
      q.Device();
    } else {
      q.Advance();
    }
  }

  /** A ring has room while the element behind its end is not its first one. */
  lemma RoomToOffer(j: nat, k: nat, n: nat)
    requires j <= k < j + n && Inc(Slot(k, n), n) != Slot(j, n)
    ensures k + 1 < j + n
  {
    SlotNext(k, n);
    if k + 1 == j + n {
      AdvAdv(0, j, n, n);
      AdvSmall(Slot(j, n), n, n);
    }
  }

  lemma BeginIsNextIff(j: nat, k: nat, n: nat)
    requires j <= k < j + n
    ensures Slot(j, n) == Slot(k, n) <==> j == k
  {
    if j < k { SlotsDiffer(j, k, n); }
  }
}
