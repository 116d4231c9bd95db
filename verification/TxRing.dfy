/** The part of the TX rings that is outstanding: posted to the hardware and not yet completed. */
module TxRing {
  import opened RingIndex
  import opened TxDescriptors

  /** Where the descriptors of a packet are. */
  datatype Tcb = Tcb(first: nat, num: nat)

  /** One packet between BeginIndex and NextIndex: whether it was posted (an ignored packet is not), its
      descriptors, its fragments, and whether the hardware has reported it since. */
  datatype Rec = Rec(used: bool, first: nat, num: nat, frags: nat, done: bool)

  /** The rings as values. `out` describes the packets from `begin` on; `head` is the slot of the oldest
      outstanding descriptor. */
  datatype View = View(cfg: TxConfig, n: nat, txd: seq<Desc>, tcb: seq<Tcb>, packets: seq<Packet>,
                       begin: nat, head: nat, out: seq<Rec>)

  function Total(out: seq<Rec>): nat {
    if out == [] then 0 else Total(out[..|out| - 1]) + out[|out| - 1].num
  }

  function FragTotal(out: seq<Rec>): nat {
    if out == [] then 0 else FragTotal(out[..|out| - 1]) + out[|out| - 1].frags
  }

  function Extra(cfg: TxConfig): nat { if cfg.UsesContext() then 1 else 0 }

  predicate Geometry(v: View) {
    && 0 < v.n == |v.txd| && |v.tcb| == |v.packets| && v.begin < |v.packets| && v.head < v.n
    && |v.out| < |v.packets| && Total(v.out) <= v.n
  }

  /** The packet of the k-th outstanding record. */
  function PacketOf(v: View, k: nat): nat
    requires |v.packets| > 0
  {
    Adv(v.begin, k, |v.packets|)
  }

  /** The slot polled for a packet; a posted packet has at least one descriptor. */
  function LastSlot(t: Tcb, n: nat): nat
    requires n > 0
  {
    Adv(t.first, if t.num == 0 then 0 else t.num - 1, n)
  }

  /** Record k agrees with its packet, its control block, and the slot that is polled for it: the slot
      carries EOP and RS until the hardware reports, and reads as done exactly since then. */
  predicate RecOk(v: View, k: nat)
    requires Geometry(v) && k < |v.out|
  {
    var r := v.out[k];
    var p := PacketOf(v, k);
    && v.packets[p].ignore == !r.used
    && (!r.used ==> r.num == 0 && r.frags == 0)
    && (r.used ==>
          && 1 <= r.frags == v.packets[p].fragmentCount && r.num == r.frags + Extra(v.cfg)
          && r.first == Adv(v.head, Total(v.out[..k]), v.n) && v.tcb[p] == Tcb(r.first, r.num)
          && DescriptorDone(v.txd[LastSlot(v.tcb[p], v.n)]) == r.done
          && (!r.done ==> EOP in v.txd[LastSlot(v.tcb[p], v.n)].flags && RS in v.txd[LastSlot(v.tcb[p], v.n)].flags))
  }

  predicate OutInv(v: View) {
    Geometry(v) && forall k :: 0 <= k < |v.out| ==> RecOk(v, k)
  }

  // ---- sums -------------------------------------------------------------------------------------

  lemma {:induction false} TotalPrefix(out: seq<Rec>, k: nat)
    requires k < |out|
    ensures Total(out[..k]) + out[k].num <= Total(out)
    ensures Total(out[..k + 1]) == Total(out[..k]) + out[k].num
  {
    assert out[..k + 1][..k] == out[..k];
    if k == |out| - 1 {
      assert out[..k + 1] == out;
    } else {
      TotalPrefix(out[..|out| - 1], k);
      assert out[..|out| - 1][..k] == out[..k];
    }
  }

  lemma {:induction false} TotalCons(out: seq<Rec>)
    requires out != []
    ensures Total(out) == out[0].num + Total(out[1..])
    ensures FragTotal(out) == out[0].frags + FragTotal(out[1..])
  {
    if |out| == 1 {
      assert out[..0] == [] && out[1..] == [];
    } else {
      var m := |out| - 1;
      TotalCons(out[..m]);
      assert out[..m][1..] == out[1..][..m - 1];
    }
  }

  lemma {:induction false} TotalGrows(out: seq<Rec>, k: nat)
    requires k <= |out|
    ensures Total(out[..k]) <= Total(out) && FragTotal(out[..k]) <= FragTotal(out)
  {
    if k == |out| {
      assert out[..k] == out;
    } else {
      TotalGrows(out[..|out| - 1], k);
      assert out[..|out| - 1][..k] == out[..k];
    }
  }

  lemma {:induction false} TotalSuffix(out: seq<Rec>, k: nat)
    requires k <= |out|
    ensures Total(out[k..]) <= Total(out)
  {
    if k == 0 {
      assert out[0..] == out;
    } else {
      TotalCons(out);
      TotalSuffix(out[1..], k - 1);
      assert out[1..][k - 1..] == out[k..];
    }
  }

  lemma FragPrefix(out: seq<Rec>, k: nat)
    requires k < |out|
    ensures FragTotal(out[..k + 1]) == FragTotal(out[..k]) + out[k].frags
  {
    assert out[..k + 1][..k] == out[..k];
  }

  lemma TotalSnoc(out: seq<Rec>, r: Rec)
    ensures Total(out + [r]) == Total(out) + r.num && FragTotal(out + [r]) == FragTotal(out) + r.frags
  {
    assert (out + [r])[..|out|] == out;
  }

  // ---- a packet is posted -----------------------------------------------------------------------

  /** The slot of a record that is polled is inside the outstanding stretch. */
  lemma PolledOffset(v: View, k: nat)
    requires OutInv(v) && k < |v.out| && v.out[k].used
    ensures var off := Total(v.out[..k]) + v.out[k].num - 1;
            0 <= off < Total(v.out) && LastSlot(v.tcb[PacketOf(v, k)], v.n) == Adv(v.head, off, v.n)
  {
    assert RecOk(v, k);
    TotalPrefix(v.out, k);
    AdvAdv(v.head, Total(v.out[..k]), v.out[k].num - 1, v.n);
  }

  /** Slots beyond the outstanding stretch are not polled for an outstanding packet. */
  lemma FreeSlot(v: View, k: nat, j: nat)
    requires OutInv(v) && k < |v.out| && v.out[k].used && Total(v.out) + j < v.n
    ensures Adv(Adv(v.head, Total(v.out), v.n), j, v.n) != LastSlot(v.tcb[PacketOf(v, k)], v.n)
  {
    PolledOffset(v, k);
    AdvAdv(v.head, Total(v.out), j, v.n);
    AdvDistinct(v.head, Total(v.out[..k]) + v.out[k].num - 1, Total(v.out) + j, v.n);
  }

  /** What posting a packet changes: a stretch of free slots from `first` on, and one control block. */
  ghost predicate Posts(v: View, w: View, r: Rec) {
    && Geometry(v) && |v.out| + 1 < |v.packets|
    && var p := PacketOf(v, |v.out|);
    && w == v.(txd := w.txd, tcb := w.tcb, out := v.out + [r])
    && |w.txd| == |v.txd| && |w.tcb| == |v.tcb|
    && (if r.used then
          && !v.packets[p].ignore && 1 <= r.frags == v.packets[p].fragmentCount && r.num == r.frags + Extra(v.cfg) &&
             !r.done
          && r.first == Adv(v.head, Total(v.out), v.n) && Total(v.out) + r.num <= v.n && r.first + r.num <= v.n
          && w.tcb == v.tcb[p := Tcb(r.first, r.num)]
          && (forall s :: 0 <= s < v.n && !(r.first <= s < r.first + r.num) ==> w.txd[s] == v.txd[s])
          && var last := w.txd[r.first + r.num - 1]; EOP in last.flags && RS in last.flags && !DescriptorDone(last)
        else
          && v.packets[p].ignore && r.num == 0 && r.frags == 0 && w.txd == v.txd && w.tcb == v.tcb)
  }

  lemma PostKeeps(v: View, w: View, r: Rec)
    requires OutInv(v) && Posts(v, w, r)
    ensures OutInv(w)
  {
    TotalSnoc(v.out, r);
    assert (v.out + [r])[..|v.out|] == v.out;
    forall k | 0 <= k < |w.out| ensures RecOk(w, k) {
      if k < |v.out| {
        PostSparesOlder(v, w, r, k);
      } else if r.used {
        AdvSmall(r.first, r.num - 1, v.n);
      }
    }
  }

  lemma PostSparesOlder(v: View, w: View, r: Rec, k: nat)
    requires OutInv(v) && Posts(v, w, r) && Geometry(w) && k < |v.out|
    ensures RecOk(w, k)
  {
    assert RecOk(v, k);
    assert w.out[..k] == v.out[..k];
    AdvDistinct(v.begin, k, |v.out|, |v.packets|);
    if r.used && v.out[k].used {
      var s := LastSlot(v.tcb[PacketOf(v, k)], v.n);
      if r.first <= s < r.first + r.num {
        FreeSlot(v, k, s - r.first);
        AdvSmall(r.first, s - r.first, v.n);
      }
    }
  }

  // ---- the hardware reports ---------------------------------------------------------------------

  /** Two outstanding packets are never polled at the same slot. */
  lemma PolledSlotsDiffer(v: View, j: nat, k: nat)
    requires OutInv(v) && j < k < |v.out| && v.out[j].used && v.out[k].used
    ensures LastSlot(v.tcb[PacketOf(v, j)], v.n) != LastSlot(v.tcb[PacketOf(v, k)], v.n)
  {
    PolledOffset(v, j);
    PolledOffset(v, k);
    assert RecOk(v, k);
    TotalPrefix(v.out[..k], j);
    assert v.out[..k][..j] == v.out[..j];
    AdvDistinct(v.head, Total(v.out[..j]) + v.out[j].num - 1, Total(v.out[..k]) + v.out[k].num - 1, v.n);
  }

  lemma SameSums(xs: seq<Rec>, ys: seq<Rec>)
    requires |xs| == |ys| && forall i :: 0 <= i < |xs| ==> xs[i].num == ys[i].num && xs[i].frags == ys[i].frags
    ensures Total(xs) == Total(ys) && FragTotal(xs) == FragTotal(ys)
  {
  }

  lemma ReportKeeps(v: View, k: nat, d: Desc)
    requires OutInv(v) && k < |v.out| && v.out[k].used && DescriptorDone(d)
    ensures OutInv(v.(txd := v.txd[LastSlot(v.tcb[PacketOf(v, k)], v.n) := d],
            out := v.out[k := v.out[k].(done := true)]))
  {
    var w := v.(txd := v.txd[LastSlot(v.tcb[PacketOf(v, k)], v.n) := d], out := v.out[k := v.out[k].(done := true)]);
    SameSums(v.out, w.out);
    forall j | 0 <= j < |w.out| ensures RecOk(w, j) {
      assert RecOk(v, j);
      SameSums(v.out[..j], w.out[..j]);
      if v.out[j].used && j < k {
        PolledSlotsDiffer(v, j, k);
      } else if v.out[j].used && j > k {
        PolledSlotsDiffer(v, k, j);
      }
    }
  }

  // ---- the oldest packet leaves -----------------------------------------------------------------

  /** The view without its oldest packet. */
  function Popped(v: View): View
    requires Geometry(v) && v.out != []
  {
    v.(begin := Inc(v.begin, |v.packets|), head := Adv(v.head, v.out[0].num, v.n), out := v.out[1..])
  }

  lemma PopKeeps(v: View)
    requires OutInv(v) && v.out != []
    ensures OutInv(Popped(v))
  {
    var w := Popped(v);
    TotalCons(v.out);
    forall k | 0 <= k < |w.out| ensures RecOk(w, k) {
      assert RecOk(v, k + 1);
      AdvAdv(v.begin, 1, k, |v.packets|);
      TotalCons(v.out[..k + 1]);
      assert v.out[..k + 1][1..] == w.out[..k];
      AdvAdv(v.head, v.out[0].num, Total(w.out[..k]), v.n);
    }
  }

  /** How many packets a completion pass takes: all up to the first one the hardware has not reported. */
  function CompletePrefix(out: seq<Rec>): (k: nat)
    ensures k <= |out|
    ensures forall i :: 0 <= i < k ==> !out[i].used || out[i].done
    ensures k < |out| ==> out[k].used && !out[k].done
  {
    if out == [] || (out[0].used && !out[0].done) then 0 else 1 + CompletePrefix(out[1..])
  }

  // ---- one pass ---------------------------------------------------------------------------------

  /** The fragments of a packet, in order. */
  function Frags(fragments: seq<Fragment>, from: nat, count: nat): (fs: seq<Fragment>)
    requires |fragments| > 0
    ensures |fs| == count
  {
    seq(count, j requires 0 <= j < count => fragments[Adv(from, j, |fragments|)])
  }

  /** The slots from `first` on hold exactly the descriptors of packet `p`. */
  ghost predicate Carries(txd: seq<Desc>, cfg: TxConfig, fragments: seq<Fragment>, first: nat, p: Packet)
    requires |fragments| > 0
  {
    && 1 <= p.fragmentCount && first + p.fragmentCount + Extra(cfg) <= |txd|
    && txd[first..first + p.fragmentCount + Extra(cfg)]
       == PacketDescs(cfg, p.offload, Frags(fragments, p.fragmentIndex, p.fragmentCount))
  }

  /** Slot `first + j` describes fragment number j of `count` from index `from` of the fragment ring on. */
  ghost predicate Describes(txd: seq<Desc>, first: nat, cfg: TxConfig, o: Offload, fragments: seq<Fragment>,
                            from: nat, count: nat, length: nat, j: nat)
  {
    && 0 < |fragments| && first + j < |txd|
    && IsData(txd[first + j], cfg.vlan, cfg.gso, cfg.checksum, o, fragments[(from + j) % |fragments|], length,
              j == count - 1)
  }

  /** The slots from `first` on are the packet's, field by field: the context descriptor if an offload is
      enabled, then one data descriptor for each fragment, all announcing the same length. */
  ghost predicate CarriesFields(txd: seq<Desc>, cfg: TxConfig, fragments: seq<Fragment>, first: nat, p: Packet)
    requires |fragments| > 0
  {
    var used := if cfg.vlan || cfg.gso || cfg.checksum then 1 else 0;
    var length := TotalLength(Frags(fragments, p.fragmentIndex, p.fragmentCount));
    && first < |txd| && (used == 1 ==> IsContext(txd[first], cfg.vlan, cfg.gso, cfg.checksum, p.offload))
    && EachDescribed(txd, first + used, cfg, p.offload, fragments, p.fragmentIndex, p.fragmentCount, length)
  }

  ghost predicate EachDescribed(txd: seq<Desc>, first: nat, cfg: TxConfig, o: Offload, fragments: seq<Fragment>,
                                from: nat, count: nat, length: nat)
  {
    forall j :: 0 <= j < count ==> Describes(txd, first, cfg, o, fragments, from, count, length, j)
  }

  lemma CarriesEveryField(txd: seq<Desc>, cfg: TxConfig, fragments: seq<Fragment>, first: nat, p: Packet)
    requires |fragments| > 0 && Carries(txd, cfg, fragments, first, p)
    ensures CarriesFields(txd, cfg, fragments, first, p) == true
  {
    var fs := Frags(fragments, p.fragmentIndex, p.fragmentCount);
    var ds := PacketDescs(cfg, p.offload, fs);
    var data := MarkLast(DataDescs(cfg, p.offload, TotalLength(fs), fs));
    var m := first + Extra(cfg);
    if Extra(cfg) == 1 {
      assert txd[first] == txd[first..first + |ds|][0] == ContextDesc(cfg, p.offload);
      ContextDescIs(cfg, p.offload);
    }
    assert txd[m..m + p.fragmentCount] == txd[first..first + |ds|][Extra(cfg)..] == data;
    MarkedFields(cfg, p.offload, TotalLength(fs), fragments, p.fragmentIndex, p.fragmentCount, txd, m);
  }

  /** The data descriptors of a packet in the ring, field by field. */
  lemma MarkedFields(cfg: TxConfig, o: Offload, length: nat, fragments: seq<Fragment>, from: nat, count: nat,
                     txd: seq<Desc>, first: nat)
    requires |fragments| > 0 && 1 <= count && first + count <= |txd|
    requires txd[first..first + count] == MarkLast(DataDescs(cfg, o, length, Frags(fragments, from, count)))
    ensures EachDescribed(txd, first, cfg, o, fragments, from, count, length)
  {
    forall j | 0 <= j < count ensures Describes(txd, first, cfg, o, fragments, from, count, length, j) {
      MarkedField(cfg, o, length, fragments, from, count, txd[first..first + count], j);
    }
  }

  lemma MarkedField(cfg: TxConfig, o: Offload, length: nat, fragments: seq<Fragment>, from: nat, count: nat,
                    ds: seq<Desc>, j: nat)
    requires |fragments| > 0 && j < count
    requires ds == MarkLast(DataDescs(cfg, o, length, Frags(fragments, from, count)))
    ensures IsData(ds[j], cfg.vlan, cfg.gso, cfg.checksum, o, fragments[(from + j) % |fragments|], length,
                   j == count - 1) == true
  {
    DataDescIs(cfg, o, length, fragments[(from + j) % |fragments|], j == count - 1);
  }

  /** Writing the descriptors of the next packet and its control block keeps the rings consistent. */
  lemma PostedPacket(v: View, w: View, fragments: seq<Fragment>, r: Rec)
    requires OutInv(v) && |v.out| + 1 < |v.packets| && |fragments| > 0 && r.used && !r.done && |w.txd| == |v.txd|
    requires w == v.(txd := w.txd, tcb := v.tcb[PacketOf(v, |v.out|) := Tcb(r.first, r.num)], out := v.out + [r])
    requires var p := v.packets[PacketOf(v, |v.out|)];
             !p.ignore && r.frags == p.fragmentCount && r.num == r.frags + Extra(v.cfg) &&
                 Carries(w.txd, v.cfg, fragments, r.first, p)
    requires r.first == Adv(v.head, Total(v.out), v.n) && Total(v.out) + r.num <= v.n
    requires forall s :: 0 <= s < v.n && !(r.first <= s < r.first + r.num) ==> w.txd[s] == v.txd[s]
    ensures OutInv(w)
  {
    var p := v.packets[PacketOf(v, |v.out|)];
    OnlyLastReports(v.cfg, p.offload, Frags(fragments, p.fragmentIndex, r.frags));
    assert w.txd[r.first..r.first + r.num][r.num - 1] == w.txd[r.first + r.num - 1];
    PostKeeps(v, w, r);
  }

  /** The records from number `from` on were posted by one pass, which started at slot `start`: their
      descriptors are in consecutive slots up to the end of the ring at most, in packet order. */
  ghost predicate PassInv(v: View, fragments: seq<Fragment>, start: nat, from: nat) {
    && from <= |v.out| && |v.packets| > 0 && |fragments| > 0
    && Total(v.out[..from]) <= Total(v.out) && start + (Total(v.out) - Total(v.out[..from])) <= v.n
    && forall k :: from <= k < |v.out| ==> InPass(v, fragments, start, from, k)
  }

  ghost predicate InPass(v: View, fragments: seq<Fragment>, start: nat, from: nat, k: nat)
    requires from <= k < |v.out| && |v.packets| > 0 && |fragments| > 0
  {
    if v.out[k].used then PostedInPass(v, fragments, start, from, k) else v.out[k].num == 0
  }

  /** Every packet posted since record `from` has its descriptors, field by field, from its first slot on. */
  ghost predicate EachCarried(v: View, fragments: seq<Fragment>, from: nat) {
    && |v.packets| > 0 && |fragments| > 0
    && forall k :: from <= k < |v.out| && v.out[k].used ==>
         CarriesFields(v.txd, v.cfg, fragments, v.out[k].first, v.packets[(v.begin + k) % |v.packets|])
  }

  lemma PassCarries(v: View, fragments: seq<Fragment>, start: nat, from: nat)
    requires PassInv(v, fragments, start, from)
    ensures EachCarried(v, fragments, from) == true
  {
    forall k | from <= k < |v.out| && v.out[k].used
      ensures CarriesFields(v.txd, v.cfg, fragments, v.out[k].first, v.packets[(v.begin + k) % |v.packets|])
    {
      assert InPass(v, fragments, start, from, k);
      CarriesEveryField(v.txd, v.cfg, fragments, v.out[k].first, v.packets[PacketOf(v, k)]);
    }
  }

  ghost predicate PostedInPass(v: View, fragments: seq<Fragment>, start: nat, from: nat, k: nat)
    requires from <= k < |v.out| && |v.packets| > 0 && |fragments| > 0
  {
    && !v.out[k].done && v.out[k].first == start + (Total(v.out[..k]) - Total(v.out[..from]))
    && v.out[k].num == v.packets[PacketOf(v, k)].fragmentCount + Extra(v.cfg)
    && Carries(v.txd, v.cfg, fragments, v.out[k].first, v.packets[PacketOf(v, k)])
  }

  /** Posting the next packet right behind, or passing over an ignored one, continues the pass. */
  lemma PassGrows(v: View, w: View, fragments: seq<Fragment>, start: nat, from: nat, r: Rec)
    requires PassInv(v, fragments, start, from) && w == v.(txd := w.txd, tcb := w.tcb, out := v.out + [r])
    requires |w.txd| == |v.txd| == v.n
    requires !r.used ==> r.num == 0 && w.txd == v.txd
    requires r.used ==>
      var end := start + (Total(v.out) - Total(v.out[..from]));
      && !r.done && r.first == end && end + r.num <= v.n
      && r.num == v.packets[PacketOf(v, |v.out|)].fragmentCount + Extra(v.cfg)
      && Carries(w.txd, v.cfg, fragments, end, v.packets[PacketOf(v, |v.out|)])
      && forall s :: 0 <= s < v.n && !(end <= s < end + r.num) ==> w.txd[s] == v.txd[s]
    ensures PassInv(w, fragments, start, from)
  {
    TotalSnoc(v.out, r);
    assert w.out[..from] == v.out[..from];
    forall k | from <= k < |w.out| ensures InPass(w, fragments, start, from, k) {
      if k < |v.out| {
        assert InPass(v, fragments, start, from, k);
        if v.out[k].used {
          EarlierInPass(v, w, fragments, start, from, r, k);
        }
      } else {
        assert w.out[..k] == v.out;
      }
    }
  }

  lemma EarlierInPass(v: View, w: View, fragments: seq<Fragment>, start: nat, from: nat, r: Rec, k: nat)
    requires from <= k < |v.out| && |fragments| > 0 && |v.packets| > 0
    requires w == v.(txd := w.txd, tcb := w.tcb, out := v.out + [r]) && |w.txd| == |v.txd| == v.n
    requires v.out[k].used && PostedInPass(v, fragments, start, from, k)
    requires Total(v.out[..from]) <= Total(v.out)
    requires forall s :: 0 <= s < start + (Total(v.out) - Total(v.out[..from])) && s < v.n ==> w.txd[s] == v.txd[s]
    ensures PostedInPass(w, fragments, start, from, k)
  {
    assert w.out[..k] == v.out[..k] && w.out[..from] == v.out[..from];
    TotalPrefix(v.out, k);
    StillCarries(v.txd, w.txd, v.cfg, fragments, v.out[k].first, v.packets[PacketOf(v, k)]);
  }

  lemma StillCarries(txd: seq<Desc>, txd': seq<Desc>, cfg: TxConfig, fragments: seq<Fragment>, first: nat, p: Packet)
    requires |fragments| > 0 && Carries(txd, cfg, fragments, first, p) && |txd'| == |txd|
    requires forall s :: first <= s < first + p.fragmentCount + Extra(cfg) ==> txd'[s] == txd[s]
    ensures Carries(txd', cfg, fragments, first, p)
  {
    var m := p.fragmentCount + Extra(cfg);
    assert txd'[first..first + m] == txd[first..first + m];
  }
}
