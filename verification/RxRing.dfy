/** The RX ring as values: which slots are delivered, filled, posted and offered, and what they hold. */
module RxRing {
  import opened Numbers
  import opened RingIndex

  /** union e1000_adv_rx_desc as its two little-endian 64-bit words. */
  datatype RxDesc = RxDesc(lower: nat, upper: nat)

  // The driver's layout (read) and the device's layout (wb) of the same sixteen bytes.
  function ReadLayout(pktAddr: nat, hdrAddr: nat): RxDesc { RxDesc(pktAddr, hdrAddr) }
  function StatusError(d: RxDesc): nat { d.upper % 0x1_0000_0000 }
  function Length(d: RxDesc): nat { (d.upper / 0x1_0000_0000) % 0x1_0000 }

  /** E1000_RXD_STAT_DD is bit 0 of status_error. */
  predicate Done(d: RxDesc) { StatusError(d) % 2 == 1 }

  lemma DoneBit(d: RxDesc)
    ensures Done(d) <==> d.upper % 2 == 1
  {
    assert d.upper == 0x1_0000_0000 * (d.upper / 0x1_0000_0000) + d.upper % 0x1_0000_0000;
  }

  /** The header address lies under the status: a posted descriptor reads as done iff it is odd. */
  lemma DoneIffHeaderOdd(pktAddr: nat, hdrAddr: nat)
    ensures Done(ReadLayout(pktAddr, hdrAddr)) <==> hdrAddr % 2 == 1
  {
    DoneBit(ReadLayout(pktAddr, hdrAddr));
  }

  function Slot(j: nat, n: nat): (s: nat)
    requires n > 0
    ensures s < n
  {
    j % n
  }

  lemma SlotsDiffer(j: nat, k: nat, n: nat)
    requires j < k < j + n
    ensures Slot(j, n) != Slot(k, n)
  {
    AdvAdv(0, j, k - j, n);
    AdvSmall(Slot(j, n), k - j, n);
  }

  lemma SlotNext(j: nat, n: nat)
    requires n > 0
    ensures Slot(j + 1, n) == Inc(Slot(j, n), n)
  {
    AdvAdv(0, j, 1, n);
  }

  /** Buffers are numbered from the start of the queue; buffer j is in slot j mod n. Of the buffers
      offered by the framework, `posted` were posted, |received| filled by the device and `delivered`
      indicated. */
  datatype View = View(n: nat, rxd: seq<RxDesc>, addresses: seq<nat>, received: seq<RxDesc>,
                       delivered: nat, posted: nat, offered: nat)

  /** The circular order Begin, device head, Next, End, over at most all but one slot. The last posted
      buffer is never the device's. */
  predicate Ordered(v: View) {
    && 0 < v.n == |v.rxd| == |v.addresses|
    && v.delivered <= |v.received| <= v.posted <= v.offered < v.delivered + v.n
    && (v.posted > 0 ==> |v.received| < v.posted)
  }

  /** A filled slot holds what the device wrote for that buffer; a slot posted and not yet filled holds
      the read layout with its own buffer's address. */
  ghost predicate SlotOk(v: View, j: nat)
    requires Ordered(v) && v.delivered <= j < v.posted
  {
    if j < |v.received| then v.received[j].upper % 2 == 1 && v.rxd[Slot(j, v.n)] == v.received[j]
    else v.rxd[Slot(j, v.n)] == RxDesc(v.addresses[Slot(j, v.n)], 0)
  }

  ghost predicate Inv(v: View) {
    Ordered(v) && forall j :: v.delivered <= j < v.posted ==> SlotOk(v, j)
  }

  /** The oldest posted slot reads as done iff the device has filled it. */
  lemma DoneIffReceived(v: View)
    requires Inv(v) && v.delivered < v.posted
    ensures Done(v.rxd[Slot(v.delivered, v.n)]) <==> v.delivered < |v.received|
    ensures v.delivered < |v.received| ==> v.rxd[Slot(v.delivered, v.n)] == v.received[v.delivered]
  {
    assert SlotOk(v, v.delivered);
    DoneBit(v.rxd[Slot(v.delivered, v.n)]);
  }

  // ---- the four steps ---------------------------------------------------------------------------

  lemma ReceiveKeeps(v: View, d: RxDesc)
    requires Inv(v) && |v.received| + 1 < v.posted && d.upper % 2 == 1
    ensures Inv(v.(rxd := v.rxd[Slot(|v.received|, v.n) := d], received := v.received + [d]))
  {
    var h := |v.received|;
    var w := v.(rxd := v.rxd[Slot(h, v.n) := d], received := v.received + [d]);
    forall j | w.delivered <= j < w.posted ensures SlotOk(w, j) {
      assert SlotOk(v, j);
      if j < h {
        SlotsDiffer(j, h, v.n);
      } else if j > h {
        SlotsDiffer(h, j, v.n);
      }
    }
  }

  lemma DeliverKeeps(v: View)
    requires Inv(v) && v.delivered < |v.received|
    ensures Inv(v.(delivered := v.delivered + 1))
  {
    var w := v.(delivered := v.delivered + 1);
    forall j | w.delivered <= j < w.posted ensures SlotOk(w, j) {
      assert SlotOk(v, j);
    }
  }

  lemma PostKeeps(v: View)
    requires Inv(v) && v.posted < v.offered
    ensures var s := Slot(v.posted, v.n);
            Inv(v.(rxd := v.rxd[s := RxDesc(v.addresses[s], 0)], posted := v.posted + 1))
  {
    var s := Slot(v.posted, v.n);
    var w := v.(rxd := v.rxd[s := RxDesc(v.addresses[s], 0)], posted := v.posted + 1);
    forall j | w.delivered <= j < w.posted ensures SlotOk(w, j) {
      if j < v.posted {
        assert SlotOk(v, j);
        SlotsDiffer(j, v.posted, v.n);
      }
    }
  }

  /** The slot behind the last one posted is nobody's. */
  lemma WriteKeeps(v: View, d: RxDesc)
    requires Inv(v) && v.posted < v.offered
    ensures Inv(v.(rxd := v.rxd[Slot(v.posted, v.n) := d]))
  {
    var w := v.(rxd := v.rxd[Slot(v.posted, v.n) := d]);
    forall j | w.delivered <= j < w.posted ensures SlotOk(w, j) {
      assert SlotOk(v, j);
      SlotsDiffer(j, v.posted, v.n);
    }
  }

  lemma OfferKeeps(v: View, address: nat)
    requires Inv(v) && v.offered + 1 < v.delivered + v.n
    ensures Inv(v.(addresses := v.addresses[Slot(v.offered, v.n) := address], offered := v.offered + 1))
  {
    var w := v.(addresses := v.addresses[Slot(v.offered, v.n) := address], offered := v.offered + 1);
    forall j | w.delivered <= j < w.posted ensures SlotOk(w, j) {
      assert SlotOk(v, j);
      SlotsDiffer(j, v.offered, v.n);
    }
  }

  // ---- what the device owns ---------------------------------------------------------------------

  /** The tail register: NumRxDesc - 1 from EvtRxQueueStart, then the last slot posted. */
  function Tail(v: View): nat
    requires Ordered(v)
  {
    if v.posted == 0 then v.n - 1 else Slot(v.posted - 1, v.n)
  }

  /** The device fills from its head up to but not including the tail. Those slots are all posted, with
      their buffer's address, exactly when a buffer was ever posted (or the ring has a single slot). */
  ghost predicate DeviceOwnsOnlyPosted(v: View)
    requires Ordered(v)
  {
    forall k :: 0 <= k < Dist(Slot(|v.received|, v.n), Tail(v), v.n) ==> OwnedIsPosted(v, k)
  }

  ghost predicate OwnedIsPosted(v: View, k: nat)
    requires Ordered(v)
  {
    && |v.received| + k < v.posted
    && var s := Adv(Slot(|v.received|, v.n), k, v.n);
       s == Slot(|v.received| + k, v.n) && v.rxd[s] == RxDesc(v.addresses[s], 0)
  }

  lemma DeviceShare(v: View)
    requires Ordered(v)
    ensures Dist(Slot(|v.received|, v.n), Tail(v), v.n) ==
            if v.posted == 0 then v.n - 1 else v.posted - 1 - |v.received|
  {
    var h := |v.received|;
    if v.posted == 0 {
      AdvSmall(0, 0, v.n);
    } else {
      AdvAdv(0, h, v.posted - 1 - h, v.n);
      DistAdv(Slot(h, v.n), v.posted - 1 - h, v.n);
    }
  }

  lemma OwnsOnlyPostedIff(v: View)
    requires Inv(v)
    ensures DeviceOwnsOnlyPosted(v) <==> v.posted > 0 || v.n == 1
  {
    DeviceShare(v);
    var h := |v.received|;
    if v.posted == 0 {
      assert v.n > 1 ==> !OwnedIsPosted(v, 0);
    } else {
      forall k: nat | k < v.posted - 1 - h ensures OwnedIsPosted(v, k) {
        AdvAdv(0, h, k, v.n);
        assert SlotOk(v, h + k);
      }
    }
  }

  /** The device can fill another slot, its head differing from the tail, iff it has one left. */
  lemma MayReceiveIff(v: View)
    requires Ordered(v) && v.posted > 0
    ensures Slot(|v.received|, v.n) != Tail(v) <==> |v.received| + 1 < v.posted
  {
    DeviceShare(v);
  }
}
