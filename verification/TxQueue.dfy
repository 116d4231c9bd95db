/** The TX queue: posting packets as descriptors, polling for completion, and returning packets. */
module TxQueue {
  import opened RingIndex
  import opened TxDescriptors
  import opened TxRing
  import opened TxCourse

  /** Indices of a NET_RING. */
  datatype Ring = Ring(begin: nat, next: nat, end: nat)

  class TxQueue {
    const cfg: TxConfig
    const n: nat
    const txd: array<Desc>
    const tcb: array<Tcb>
    var txDescIndex: nat
    // the tail register TDT
    var tail: nat
    var packets: seq<Packet>
    var pr: Ring
    var fragments: seq<Fragment>
    var fr: Ring
    ghost var head: nat
    // what the hardware has to do and has done, in order
    var out: seq<Rec>

    ghost function Abs(): View
      reads this, txd, tcb
    {
      View(cfg, n, txd[..], tcb[..], packets, pr.begin, head, out)
    }

    /** The rings and indices agree when `next` stands for the packet ring's NextIndex. */
    ghost predicate SoundAt(next: nat)
      reads this, txd, tcb
    {
      Sound(Abs(), txDescIndex, next, pr.end, fragments, fr.begin, fr.next)
    }

    /** ... and every outstanding packet still has its descriptors. */
    ghost predicate Valid()
      reads this, txd, tcb
    {
      SoundAt(pr.next) == true && tail == txDescIndex && OutInv(Abs()) == true
    }

    /** The index and the packets waiting. */
    ghost function Here(): Cursor
      requires pr.next < |packets| && pr.end < |packets|
      reads this
    {
      Cursor(txDescIndex, Waiting(packets, pr.next, pr.end))
    }

    /** The same after a pass. */
    ghost function Ahead(): Cursor
      requires pr.next < |packets| && pr.end < |packets| && txDescIndex < n
      reads this
    {
      var c := CourseOf(cfg, packets, pr.next, pr.end, n - txDescIndex);
      Cursor(Adv(txDescIndex, c.length, n), Waiting(packets, c.stop, pr.end))
    }

    // EvtTxQueueStart on empty rings
    constructor (cfg: TxConfig, packets: seq<Packet>, fragments: seq<Fragment>)
      requires 0 < |packets| && 0 < |fragments|
      ensures Valid() && out == [] && txDescIndex == 0 && fresh(txd) && fresh(tcb)
      ensures this.packets == packets && this.fragments == fragments && pr == fr == Ring(0, 0, 0)
      ensures this.cfg == cfg && n == if |fragments| > 0xFFFF then 0xFFFF else |fragments|
    {
      this.cfg := cfg;
      n := if |fragments| > 0xFFFF then 0xFFFF else |fragments|;
      txd := new Desc[if |fragments| > 0xFFFF then 0xFFFF else |fragments|](_ => Desc(0, {}, 0, 0));
      tcb := new Tcb[|packets|](_ => Tcb(0, 0));
      txDescIndex, tail := 0, 0;
      this.packets, pr := packets, Ring(0, 0, 0);
      this.fragments, fr := fragments, Ring(0, 0, 0);
      head, out := 0, [];
      new;
      AdvSmall(0, 0, n);
      AdvSmall(0, 0, |fragments|);
    }

    // IgbPostContextDescriptor: the slot is always written, and taken only if an offload is enabled. The
    // command and the checksums to insert, for the data descriptors, are what the offloads make of `cmd`.
    method PostContextDescriptor(p: nat, cmd: set<nat>)
        returns (used: nat, cmdTypeLen: set<nat>, olinfo: nat)
      requires p < |packets| && txDescIndex < n == txd.Length
      modifies this`txDescIndex, txd
      ensures used == Extra(cfg) && txDescIndex == Adv(old(txDescIndex), used, n)
      ensures used == if cfg.vlan || cfg.gso || cfg.checksum then 1 else 0
      ensures txd[old(txDescIndex)] == ContextDesc(cfg, packets[p].offload)
      ensures IsContext(txd[old(txDescIndex)], cfg.vlan, cfg.gso, cfg.checksum, packets[p].offload)
      ensures var o := packets[p].offload;
              && cmdTypeLen == cmd + (if cfg.vlan then {30} else {}) + (if cfg.gso && o.mss > 0 then {31} else {})
              && olinfo == (if (cfg.gso && o.mss > 0 && o.ipv4) || (cfg.checksum && o.layer3) then 0x100 else 0)
                           + (if (cfg.gso && o.mss > 0) || (cfg.checksum && o.layer4) then 0x200 else 0)
      ensures forall s :: 0 <= s < n && s != old(txDescIndex) ==> txd[s] == old(txd[s])
    {
      var o := packets[p].offload;
      var macipLens, mssL4len, tucmd := 0, 0, {DEXT} + DTYP_CTXT;
      var contextUsed := false;
      var ixsm, txsm := false, false;
      cmdTypeLen := cmd;
      if cfg.vlan {
        macipLens := macipLens + o.vlanId * 0x1_0000;
        cmdTypeLen := cmdTypeLen + {VLE};
        contextUsed := true;
      }
      if cfg.gso && o.mss > 0 {
        cmdTypeLen := cmdTypeLen + {TSE};
        ixsm := o.ipv4;
        txsm := true;
        mssL4len := mssL4len + o.mss * 0x1_0000;
      }
      if cfg.checksum {
        ixsm := ixsm || o.layer3;
        txsm := txsm || o.layer4;
      }
      if cfg.checksum || cfg.gso {
        macipLens := macipLens + o.l2Len * 0x200;
        macipLens := macipLens + o.l3Len;
        mssL4len := mssL4len + o.l4Len * 0x100;
        if o.ipv4 { tucmd := tucmd + {TUCMD_IPV4}; }
        if o.tcp { tucmd := tucmd + {TUCMD_TCP}; }
        contextUsed := true;
      }
      ContextDescIs(cfg, o);
      txd[txDescIndex] := Desc(macipLens, tucmd, 0, mssL4len);
      olinfo := (if ixsm then POPTS_IXSM else 0) + (if txsm then POPTS_TXSM else 0);
      used := 0;
      AdvSmall(txDescIndex, 0, n);
      if contextUsed {
        txDescIndex := Inc(txDescIndex, n);
        used := 1;
      }
    }

    // The first loop over the fragments.
    method PacketLength(from: nat, count: nat) returns (length: nat)
      requires |fragments| > 0 && from < |fragments| && count < |fragments|
      ensures length == TotalLength(Frags(fragments, from, count))
    {
      length := 0;
      var index, i := from, 0;
      ghost var fs := Frags(fragments, from, count);
      AdvSmall(from, 0, |fragments|);
      assert fs[..0] == [];
      while index != Adv(from, count, |fragments|)
        invariant i <= count && index == Adv(from, i, |fragments|)
        invariant length == TotalLength(fs[..i])
        decreases count - i
      {
        assert fs[..i + 1][..i] == fs[..i];
        length := length + Length16(fragments[index]);
        AdvAdv(from, i, 1, |fragments|);
        index := Inc(index, |fragments|);
        i := i + 1;
      }
      if i < count {
        AdvDistinct(from, i, count, |fragments|);
      }
      assert fs[..count] == fs;
    }

    // The second loop over the fragments: one data descriptor each, from slot txDescIndex on.
    method WriteFragments(p: nat, from: nat, count: nat, ghost length: nat, cmd: set<nat>, olinfo: nat)
        returns (last: nat)
      requires p < |packets| && |fragments| > 0 && from < |fragments| && 1 <= count < |fragments|
      requires cmd == DataFlags(cfg, packets[p].offload) && olinfo == Olinfo(cfg, packets[p].offload, length)
      requires n == txd.Length && txDescIndex + count <= n
      modifies this`txDescIndex, txd
      ensures txDescIndex == Adv(old(txDescIndex), count, n) && last == old(txDescIndex) + count - 1
      ensures txd[old(txDescIndex)..old(txDescIndex) + count]
           == DataDescs(cfg, packets[p].offload, length, Frags(fragments, from, count))
      ensures forall s :: 0 <= s < n && !(old(txDescIndex) <= s < old(txDescIndex) + count) ==> txd[s] == old(txd[s])
    {
      ghost var first := txDescIndex;
      ghost var ds := DataDescs(cfg, packets[p].offload, length, Frags(fragments, from, count));
      var index, i := from, 0;
      last := 0;
      AdvSmall(from, 0, |fragments|);
      while index != Adv(from, count, |fragments|)
        invariant i <= count && index == Adv(from, i, |fragments|)
        invariant txDescIndex == if first + i < n then first + i else 0
        invariant txd[first..first + i] == ds[..i]
        invariant forall s :: 0 <= s < n && !(first <= s < first + i) ==> txd[s] == old(txd[s])
        invariant i > 0 ==> last == first + i - 1
        decreases count - i
      {
        last := txDescIndex;
        var f := fragments[index];
        txd[last] := Desc((f.address + f.offset) % 0x1_0000_0000_0000_0000, cmd, f.validLength % 0x1_0000, olinfo);
        assert txd[first..first + i + 1] == txd[first..first + i] + [ds[i]];
        AdvSmall(first + i, 1, n);
        AdvNext(from, i, |fragments|);
        txDescIndex := Inc(txDescIndex, n);
        index := Inc(index, |fragments|);
        i := i + 1;
      }
      if i < count {
        AdvDistinct(from, i, count, |fragments|);
      }
      AdvSmall(first, count, n);
    }

    // The descriptors of the fragments, the last one marked.
    method PostFragments(p: nat, from: nat, count: nat, ghost length: nat, cmd: set<nat>, olinfo: nat)
      requires p < |packets| && |fragments| > 0 && from < |fragments| && 1 <= count < |fragments|
      requires cmd == DataFlags(cfg, packets[p].offload) && olinfo == Olinfo(cfg, packets[p].offload, length)
      requires n == txd.Length && txDescIndex + count <= n
      modifies this`txDescIndex, txd
      ensures txDescIndex == Adv(old(txDescIndex), count, n)
      ensures txd[old(txDescIndex)..old(txDescIndex) + count]
           == MarkLast(DataDescs(cfg, packets[p].offload, length, Frags(fragments, from, count)))
      ensures EachDescribed(txd[..], old(txDescIndex), cfg, packets[p].offload, fragments, from, count, length)
      ensures forall s :: 0 <= s < n && !(old(txDescIndex) <= s < old(txDescIndex) + count) ==> txd[s] == old(txd[s])
    {
      ghost var first := txDescIndex;
      var last := WriteFragments(p, from, count, length, cmd, olinfo);
      ghost var ds := txd[first..first + count];
      assert txd[last] == ds[count - 1];
      txd[last] := txd[last].(flags := txd[last].flags + {EOP, RS});
      assert txd[first..first + count] == MarkLast(ds);
      assert txd[..][first..first + count] == txd[first..first + count];
      MarkedFields(cfg, packets[p].offload, length, fragments, from, count, txd[..], first);
    }

    // The descriptors of one packet, from slot txDescIndex on.
    method WriteDescriptors(p: nat) returns (num: nat)
      requires p < |packets| && |fragments| > 0 && n == txd.Length && n <= |fragments|
      requires packets[p].fragmentIndex < |fragments| && 1 <= packets[p].fragmentCount
      requires packets[p].fragmentCount + 1 <= n - txDescIndex
      modifies this`txDescIndex, txd
      ensures num == packets[p].fragmentCount + Extra(cfg) && txDescIndex == Adv(old(txDescIndex), num, n)
      ensures Carries(txd[..], cfg, fragments, old(txDescIndex), packets[p])
      ensures forall s :: 0 <= s < n && !(old(txDescIndex) <= s < old(txDescIndex) + num) ==> txd[s] == old(txd[s])
    {
      var packet := packets[p];
      ghost var first := txDescIndex;
      var cmd, olinfo;
      num, cmd, olinfo := PostContextDescriptor(p, {DEXT, IFCS} + DTYP_DATA);
      AdvSmall(first, num, n);
      var length := PacketLength(packet.fragmentIndex, packet.fragmentCount);
      olinfo := olinfo + (length % PAYLEN_LIMIT) * PAYLEN_UNIT;
      PostFragments(p, packet.fragmentIndex, packet.fragmentCount, length, cmd, olinfo);
      AdvAdv(first, num, packet.fragmentCount, n);
      ContextThenData(txd[..], cfg, fragments, first, packet);
      num := num + packet.fragmentCount;
    }

    // The body of the loop of IgbTransmitPackets for a packet that is not ignored. If the descriptors fit
    // beside the outstanding ones, these stay as they are.
    method PostPacket(p: nat) returns (num: nat)
      requires SoundAt(p) == true && p != pr.end && !packets[p].ignore
      requires packets[p].fragmentCount + 1 <= n - txDescIndex
      modifies this`txDescIndex, this`fr, this`out, txd, tcb
      ensures SoundAt(Inc(p, |packets|)) == true && fr == old(fr).(next := fr.next)
      ensures num == packets[p].fragmentCount + Extra(cfg) && 1 <= num
      ensures txDescIndex == Adv(old(txDescIndex), num, n)
      ensures PostedAs(old(Abs()), Abs(), fragments,
                       Rec(true, old(txDescIndex), num, packets[p].fragmentCount, false)) == true
    {
      ghost var v := Abs();
      var packet := packets[p];
      var first := txDescIndex;
      NextToPost(p);
      num := WriteDescriptors(p);
      tcb[p] := Tcb(first, num);
      fr := fr.(next := Adv(packet.fragmentIndex, packet.fragmentCount, |fragments|));
      ghost var r := Rec(true, first, num, packet.fragmentCount, false);
      out := out + [Rec(true, first, num, packet.fragmentCount, false)];
      assert Abs() == v.(txd := txd[..], tcb := v.tcb[p := Tcb(first, num)], out := v.out + [r]);
      if OutInv(v) && Total(v.out) + num <= n {
        PostedPacket(v, Abs(), fragments, r);
      }
      PostedSums(v.out, r);
    }

    /** The packet at the loop's index is the one behind the outstanding ones. */
    lemma NextToPost(p: nat)
      requires SoundAt(p) == true && p != pr.end
      ensures p == PacketOf(Abs(), |out|) && |out| + 1 < |packets|
      ensures Dist(pr.begin, Inc(p, |packets|), |packets|) == |out| + 1 <= Dist(pr.begin, pr.end, |packets|)
      ensures Dist(Inc(p, |packets|), pr.end, |packets|) + 1 == Dist(p, pr.end, |packets|)
    {
      AdvDist(pr.begin, p, |packets|);
      DistIncStart(p, pr.end, |packets|);
      DistRoom(pr.begin, p, pr.end, |packets|);
    }

    /** The indices after posting a packet. */
    lemma PostedSums(before: seq<Rec>, r: Rec)
      requires 0 < n && 0 < |fragments|
      ensures Total(before + [r]) == Total(before) + r.num
      ensures Adv(Adv(head, Total(before), n), r.num, n) == Adv(head, Total(before + [r]), n)
      ensures Adv(Adv(fr.begin, FragTotal(before), |fragments|), r.frags, |fragments|)
           == Adv(fr.begin, FragTotal(before + [r]), |fragments|)
    {
      TotalSnoc(before, r);
      AdvAdv(head, Total(before), r.num, n);
      AdvAdv(fr.begin, FragTotal(before), r.frags, |fragments|);
    }

    // An ignored packet is passed over.
    method SkipPacket(p: nat)
      requires SoundAt(p) == true && p != pr.end && packets[p].ignore
      modifies this`out
      ensures SoundAt(Inc(p, |packets|)) == true && out == old(out) + [Rec(false, 0, 0, 0, false)]
      ensures old(OutInv(Abs())) ==> OutInv(Abs())
    {
      ghost var v := Abs();
      var r := Rec(false, 0, 0, 0, false);
      NextToPost(p);
      TotalSnoc(out, r);
      out := out + [r];
      if OutInv(v) {
        PostKeeps(v, Abs(), r);
      }
    }

    /** The loop of IgbTransmitPackets is at packet `p`. */
    ghost predicate Passing(p: nat, start: nat, before: seq<Rec>, txd0: seq<Desc>, posted: nat, goal: Course)
      reads this, txd, tcb
    {
      && SoundAt(p) && OnCourse(cfg, packets, p, pr.end, n, start, posted, goal)
      && ProgressOf(Abs(), txDescIndex, fragments, start, before, txd0, goal.length) == Posted(posted)
    }

    /** Packet `p` needs more than the `available` descriptors. */
    predicate Blocked(p: nat, available: nat)
      requires p < |packets|
      reads this
    {
      !packets[p].ignore && packets[p].fragmentCount + 1 > available
    }

    // One turn of the loop; `stop` when the packet does not fit.
    method Turn(p: nat, available: nat, ghost start: nat, ghost before: seq<Rec>, ghost txd0: seq<Desc>,
        ghost goal: Course)
        returns (stop: bool, posted: bool, available': nat, p': nat)
      requires start + available <= n &&
               Passing(p, start, before, txd0, n - start - available, goal) && p != pr.end && start < n
      modifies this`txDescIndex, this`fr, this`out, txd, tcb
      ensures fr.begin == old(fr).begin && fr.end == old(fr).end && available' <= available
      ensures Passing(p', start, before, txd0, n - start - available', goal) == true
      ensures stop <==> Blocked(p, available)
      ensures stop ==> p' == p
      ensures posted <==> available' != available
      ensures !stop ==> Dist(p', pr.end, |packets|) < Dist(p, pr.end, |packets|)
      ensures stop ==> !posted
    {
      stop, posted, available', p' := false, false, available, Inc(p, |packets|);
      DistIncStart(p, pr.end, |packets|);
      if packets[p].ignore {
        SkipTurn(p, start, before, txd0, n - start - available, goal);
      } else if packets[p].fragmentCount + 1 > available {
        stop, p' := true, p;
      } else {
        posted := true;
        available' := PostTurn(p, available, start, before, txd0, goal);
      }
    }

    // The two cases of a turn.
    method SkipTurn(p: nat, ghost start: nat, ghost before: seq<Rec>, ghost txd0: seq<Desc>, ghost posted: nat,
        ghost goal: Course)
      requires Passing(p, start, before, txd0, posted, goal) == true && p != pr.end && packets[p].ignore
      modifies this`out
      ensures Passing(Inc(p, |packets|), start, before, txd0, posted, goal) == true
    {
      ghost var v := Abs();
      CourseNext(cfg, packets, p, pr.end, n, start, posted, posted, goal);
      SkipPacket(p);
      SkipStep(v, Abs(), txDescIndex, fragments, start, before, txd0, posted, goal.length);
    }

    method PostTurn(p: nat, available: nat, ghost start: nat, ghost before: seq<Rec>, ghost txd0: seq<Desc>,
        ghost goal: Course)
        returns (available': nat)
      requires start + available <= n && Passing(p, start, before, txd0, n - start - available, goal) == true
      requires p != pr.end && start < n && !packets[p].ignore && packets[p].fragmentCount + 1 <= available
      modifies this`txDescIndex, this`fr, this`out, txd, tcb
      ensures fr == old(fr).(next := fr.next) && available' < available
      ensures Passing(Inc(p, |packets|), start, before, txd0, n - start - available', goal) == true
    {
      ghost var v, index, posted := Abs(), txDescIndex, n - start - available;
      InPass(p, start, before, txd0, posted, goal);
      var num := PostPacket(p);
      available' := available - num;
      Continues(v, index, num, p, start, before, txd0, posted, n - start - available', goal);
    }

    /** Where a pass stands that has slots left. */
    lemma InPass(p: nat, start: nat, before: seq<Rec>, txd0: seq<Desc>, posted: nat, goal: Course)
      requires Passing(p, start, before, txd0, posted, goal) == true && start < n && start + posted < n
      ensures SoundAt(p) == true && OnCourse(cfg, packets, p, pr.end, n, start, posted, goal) == true
      ensures ProgressOf(Abs(), txDescIndex, fragments, start, before, txd0, goal.length) == Posted(posted)
      ensures txDescIndex == start + posted && n == txd.Length
    {
      AdvSmall(start, posted, n);
    }

    /** Packet `p` was posted as the next of the pass. */
    lemma Continues(v: View, index: nat, num: nat, p: nat, start: nat, before: seq<Rec>, txd0: seq<Desc>, posted: nat,
                    posted': nat, goal: Course)
      requires ProgressOf(v, index, fragments, start, before, txd0, goal.length) == Posted(posted) && start < n
      requires p < |packets| && pr.end < |packets| && p != pr.end && !packets[p].ignore && n == txd.Length
      requires OnCourse(cfg, packets, p, pr.end, n, start, posted, goal) == true
      requires num == packets[p].fragmentCount + Extra(cfg) && packets[p].fragmentCount + 1 <= n - start - posted
      requires posted' == posted + num
      requires PostedAs(v, Abs(), fragments, Rec(true, index, num, packets[p].fragmentCount, false)) == true
      requires SoundAt(Inc(p, |packets|)) == true && txDescIndex == Adv(index, num, n)
      ensures Passing(Inc(p, |packets|), start, before, txd0, posted', goal) == true
    {
      CourseNext(cfg, packets, p, pr.end, n, start, posted, posted', goal);
      var r := Rec(true, index, num, packets[p].fragmentCount, false);
      PostStep(v, Abs(), index, fragments, start, before, txd0, posted, goal.length, r, txDescIndex, posted');
    }

    /** The next packet needs more descriptors than there are slots up to the end of the ring. */
    predicate Stuck()
      requires pr.next < |packets| && txDescIndex <= n
      reads this
    {
      pr.next != pr.end && Blocked(pr.next, n - txDescIndex)
    }

    /** The descriptors of one pass fit beside the outstanding ones. */
    predicate Room()
      requires pr.next < |packets| && pr.end < |packets| && txDescIndex <= n
      reads this
    {
      Fits(n, out, CourseOf(cfg, packets, pr.next, pr.end, n - txDescIndex))
    }

    // IgbTransmitPackets. The pass writes exactly `posted` descriptors into consecutive slots and never runs
    // past the end of the ring. It writes over no outstanding slot, and leaves the queue consistent, where
    // its descriptors fit beside the outstanding ones.
    method TransmitPackets() returns (ghost posted: nat)
      requires Valid()
      modifies this, txd, tcb
      ensures SoundAt(pr.next) == true && tail == txDescIndex && (old(Room()) ==> Valid())
      ensures packets == old(packets) && fragments == old(fragments) && head == old(head)
      ensures pr == old(pr).(next := pr.next) && fr == old(fr).(next := fr.next)
      ensures old(out) <= out && Total(out) == Total(old(out)) + posted
      ensures PassInv(Abs(), fragments, old(txDescIndex), |old(out)|)
      ensures old(txDescIndex) + posted <= n && txDescIndex == Adv(old(txDescIndex), posted, n)
      ensures forall s :: 0 <= s < n && !(old(txDescIndex) <= s < old(txDescIndex) + posted) ==> txd[s] == old(txd[s])
      ensures Course(posted, pr.next) == old(CourseOf(cfg, packets, pr.next, pr.end, n - txDescIndex))
      ensures EachCarried(Abs(), fragments, |old(out)|) == true
    {
      ghost var before := out;
      ghost var goal := CourseOf(cfg, packets, pr.next, pr.end, n - txDescIndex);
      StartPass();
      var p, programmed;
      p, programmed, posted := LoopOverPackets(txDescIndex, before, txd[..], goal);
      FinishPass(p, programmed, old(txDescIndex), before, old(txd[..]), posted, goal);
      PassCarries(Abs(), fragments, old(txDescIndex), |before|);
    }

    // The indices and the tail after the pass.
    method FinishPass(p: nat, programmed: bool, ghost start: nat, ghost before: seq<Rec>, ghost txd0: seq<Desc>,
        ghost posted: nat, ghost goal: Course)
      requires start < n && Passing(p, start, before, txd0, posted, goal) == true && (programmed <==> posted > 0)
      requires p == pr.end || Blocked(p, n - start - posted)
      requires tail == start
      modifies this`pr, this`tail
      ensures SoundAt(pr.next) == true && tail == txDescIndex == Adv(start, posted, n) &&
              (Fits(n, before, goal) ==> Valid())
      ensures pr == old(pr).(next := p) && Abs() == old(Abs()) && goal == Course(posted, p)
    {
      PassDone(p, start, before, txd0, posted, goal);
      pr := pr.(next := p);
      if programmed {
        tail := txDescIndex;
      }
    }

    lemma StartPass()
      requires Valid()
      ensures Passing(pr.next, txDescIndex, out, txd[..], 0,
              CourseOf(cfg, packets, pr.next, pr.end, n - txDescIndex)) == true
    {
      AdvSmall(txDescIndex, 0, n);
      assert out[..|out|] == out;
    }

    /** What a pass has done when it ends at packet `p`. */
    lemma PassDone(p: nat, start: nat, before: seq<Rec>, txd0: seq<Desc>, posted: nat, goal: Course)
      requires start < n && Passing(p, start, before, txd0, posted, goal) == true
      requires SoundAt(p) == true && (p == pr.end || Blocked(p, n - start - posted))
      ensures goal == Course(posted, p) && txDescIndex == Adv(start, posted, n)
      ensures posted == 0 ==> txDescIndex == start
    {
      AdvSmall(start, posted, n);
    }

    // The loop of IgbTransmitPackets.
    method LoopOverPackets(ghost start: nat, ghost before: seq<Rec>, ghost txd0: seq<Desc>, ghost goal: Course)
        returns (p: nat, programmed: bool, ghost posted: nat)
      requires start == txDescIndex < n && Passing(pr.next, start, before, txd0, 0, goal) == true
      modifies this`txDescIndex, this`fr, this`out, txd, tcb
      ensures Passing(p, start, before, txd0, posted, goal) == true && (programmed <==> posted > 0)
      ensures fr.begin == old(fr).begin && fr.end == old(fr).end
      ensures p == pr.end || Blocked(p, n - start - posted)
    {
      p, programmed := pr.next, false;
      var available := n - txDescIndex;
      while p != pr.end
        invariant start + available <= n && Passing(p, start, before, txd0, n - start - available, goal) == true
        invariant fr.begin == old(fr).begin && fr.end == old(fr).end && (programmed <==> start + available < n)
        decreases Dist(p, pr.end, |packets|)
      {
        var stop, more;
        stop, more, available, p := Turn(p, available, start, before, txd0, goal);
        programmed := programmed || more;
        if stop { break; }
      }
      posted := n - start - available;
    }

    /** Room is exactly what the pass needs: no outstanding slot is among those the pass writes if and only if
        its descriptors fit beside the outstanding ones. */
    lemma RoomIff(posts: nat)
      requires Valid() && posts == CourseOf(cfg, packets, pr.next, pr.end, n - txDescIndex).length
      ensures Room() == Spares(head, Total(out), txDescIndex, posts, n)
    {
      Overlap(head, Total(out), posts, n);
    }

    /** When everything is outstanding the tail has come round to the head, which the device reads as an empty
        ring. */
    lemma TailMeetsHeadIff()
      requires Valid()
      ensures tail == head <==> Total(out) == 0 || Total(out) == n
    {
      AdvSmall(head, Total(out), n);
    }

    /** The pass to come is a step of the queue as an index and the packets waiting. */
    lemma PassIsStep()
      requires Valid()
      ensures Ahead() == Step(n, Extra(cfg), Here(), Pass)
    {
      CourseIsPass(cfg, packets, pr.next, pr.end, n - txDescIndex);
    }

    /** Outstanding descriptors that do not reach around the end of the ring always leave room. */
    lemma RoomBehindHead()
      requires Valid() && Total(out) <= txDescIndex
      ensures Room()
    {
    }

    // The hardware writes back the slot polled for outstanding packet `k`.
    method HardwareReports(k: nat, writeBack: Desc)
      requires Valid() && k < |out| && out[k].used && DescriptorDone(writeBack)
      modifies txd, this`out
      ensures Valid() && out == old(out)[k := old(out)[k].(done := true)] && Here() == old(Here())
    {
      ghost var v := Abs();
      var t := tcb[Adv(pr.begin, k, |packets|)];
      txd[LastSlot(t, n)] := writeBack;
      out := out[k := out[k].(done := true)];
      ReportKeeps(v, k, writeBack);
      assert Abs() == v.(txd := v.txd[LastSlot(t, n) := writeBack], out := out);
      SameSums(v.out, out);
    }

    // IgbIsPacketTransferComplete, for the control block of packet `k` of those outstanding: whether the
    // hardware has reported that packet.
    method IsPacketTransferComplete(t: Tcb, ghost v: View, ghost k: nat) returns (complete: bool)
      requires OutInv(v) && v.n == n && v.txd == txd[..]
      requires k < |v.out| && v.out[k].used && t == v.tcb[PacketOf(v, k)]
      ensures complete == v.out[k].done
    {
      assert RecOk(v, k);
      var last := Adv(t.first, t.num - 1, n);
      complete := txd[last].status % 2 == 1;
    }

    /** The completion loop has reached packet `p` and fragment `f`; `v` is what is still outstanding. */
    ghost predicate Completing(v: View, p: nat, f: nat)
      reads this, txd, tcb
    {
      && OutInv(v) && v == View(cfg, n, txd[..], tcb[..], packets, p, v.head, v.out)
      && pr.next < |packets| && pr.end < |packets| && f < |fragments|
      && |v.out| == Dist(p, pr.next, |packets|) <= Dist(p, pr.end, |packets|)
      && txDescIndex == Adv(v.head, Total(v.out), n) && fr.next == Adv(f, FragTotal(v.out), |fragments|)
    }

    /** ... after taking off `popped` complete packets. */
    ghost predicate CompletingAfter(v: View, p: nat, f: nat, popped: nat)
      reads this, txd, tcb
    {
      && 0 < |packets| && 0 < |fragments|
      && Completing(v, p, f) && popped <= |out| && v.out == out[popped..]
      && p == Adv(pr.begin, popped, |packets|) && f == Adv(fr.begin, FragTotal(out[..popped]), |fragments|)
      && CompletePrefix(out) == popped + CompletePrefix(out[popped..])
    }

    // One turn of the completion loop; `stop` at a packet that is not complete.
    method CompleteOne(p: nat, f: nat, ghost v: View) returns (stop: bool, p': nat, f': nat)
      requires Completing(v, p, f) && p != pr.next
      ensures stop == (v.out[0].used && !v.out[0].done)
      ensures stop ==> p' == p && f' == f
      ensures !stop ==> p' == Inc(p, |packets|) && f' == Adv(f, v.out[0].frags, |fragments|)
      ensures !stop ==> Completing(Popped(v), p', f')
    {
      assert RecOk(v, 0);
      AdvSmall(p, 0, |packets|);
      AdvSmall(f, 0, |fragments|);
      stop, p', f' := false, p, f;
      if !packets[p].ignore {
        var complete := IsPacketTransferComplete(tcb[p], v, 0);
        if !complete { return true, p, f; }
        f' := Adv(f, packets[p].fragmentCount, |fragments|);
      }
      TotalCons(v.out);
      AdvAdv(f, v.out[0].frags, FragTotal(v.out[1..]), |fragments|);
      PopCompletes(v, p, f');
      p' := Inc(p, |packets|);
    }

    // The same with the count of packets taken off.
    method CompleteNext(p: nat, f: nat, ghost v: View, ghost popped: nat)
        returns (stop: bool, p': nat, f': nat, ghost v': View, ghost popped': nat)
      requires CompletingAfter(v, p, f, popped) && p != pr.next
      ensures CompletingAfter(v', p', f', popped')
      ensures stop ==> CompletePrefix(v'.out) == 0
      ensures !stop ==> |v'.out| < |v.out|
      ensures stop ==> |v'.out| == |v.out|
    {
      stop, p', f' := CompleteOne(p, f, v);
      v', popped' := v, popped;
      if !stop {
        CountPopped(out, popped);
        v', popped' := Popped(v), popped + 1;
      }
    }

    // The completion loop.
    method CompleteLoop() returns (p: nat, f: nat, ghost v: View)
      requires Valid()
      ensures var done := CompletePrefix(out);
              && Completing(v, p, f) && v.out == out[done..]
              && p == Adv(pr.begin, done, |packets|) && f == Adv(fr.begin, FragTotal(out[..done]), |fragments|)
    {
      p, f, v := pr.begin, fr.begin, Abs();
      ghost var popped := 0;
      AdvSmall(p, 0, |packets|);
      AdvSmall(f, 0, |fragments|);
      assert out[..0] == [] && out[0..] == out;
      var stop := false;
      while p != pr.next && !stop
        invariant CompletingAfter(v, p, f, popped)
        invariant stop ==> CompletePrefix(v.out) == 0
        decreases |v.out|, !stop
      {
        stop, p, f, v, popped := CompleteNext(p, f, v, popped);
      }
      assert CompletePrefix(v.out) == 0;
    }

    // IgbCompleteTransmitPackets: exactly the packets before the first one that is not reported leave the
    // ring, and the fragment ring moves on by exactly their fragments.
    method CompleteTransmitPackets()
      requires Valid()
      modifies this`pr, this`fr, this`head, this`out
      ensures Valid()
      ensures var done := CompletePrefix(old(out));
              && out == old(out)[done..]
              && pr == old(pr).(begin := Adv(old(pr).begin, done, |packets|))
              && fr == old(fr).(begin := Adv(old(fr).begin, FragTotal(old(out)[..done]), |fragments|))
      ensures Here() == old(Here())
    {
      ghost var v;
      var p, f;
      p, f, v := CompleteLoop();
      pr := pr.(begin := p);
      fr := fr.(begin := f);
      head, out := v.head, out[CompletePrefix(out)..];
      assert Abs() == v;
    }

    lemma CountPopped(out: seq<Rec>, popped: nat)
      requires popped < |out| && !(out[popped].used && !out[popped].done) && 0 < |packets| && 0 < |fragments|
      ensures out[popped..][1..] == out[popped + 1..]
      ensures CompletePrefix(out[popped..]) == 1 + CompletePrefix(out[popped + 1..])
      ensures Inc(Adv(pr.begin, popped, |packets|), |packets|) == Adv(pr.begin, popped + 1, |packets|)
      ensures Adv(Adv(fr.begin, FragTotal(out[..popped]), |fragments|), out[popped].frags, |fragments|)
           == Adv(fr.begin, FragTotal(out[..popped + 1]), |fragments|)
    {
      FragPrefix(out, popped);
      AdvAdv(pr.begin, popped, 1, |packets|);
      AdvAdv(fr.begin, FragTotal(out[..popped]), out[popped].frags, |fragments|);
    }

    /** Taking the oldest packet off keeps the completion loop on track. */
    lemma PopCompletes(v: View, p: nat, f: nat)
      requires v.out != [] && OutInv(v) && v == View(cfg, n, txd[..], tcb[..], packets, p, v.head, v.out)
      requires p < |packets| && pr.next < |packets| && pr.end < |packets| && f < |fragments|
      requires |v.out| == Dist(p, pr.next, |packets|) <= Dist(p, pr.end, |packets|)
      requires txDescIndex == Adv(v.head, Total(v.out), n)
      requires fr.next == Adv(f, FragTotal(v.out[1..]), |fragments|)
      ensures Completing(Popped(v), Inc(p, |packets|), f)
    {
      PopKeeps(v);
      TotalCons(v.out);
      AdvAdv(v.head, v.out[0].num, Total(v.out[1..]), n);
      DistIncStart(p, pr.next, |packets|);
      DistIncStart(p, pr.end, |packets|);
    }

    // EvtTxQueueAdvance: the pass, and what has been reported leaves.
    method Advance() returns (ghost posted: nat)
      requires Valid() && Room()
      modifies this, txd, tcb
      ensures Valid() && packets == old(packets) && fragments == old(fragments) && pr.end == old(pr).end
      ensures Course(posted, pr.next) == old(CourseOf(cfg, packets, pr.next, pr.end, n - txDescIndex))
      ensures tail == txDescIndex == Adv(old(txDescIndex), posted, n)
    {
      posted := TransmitPackets();
      CompleteTransmitPackets();
    }

    // An advance leaves the first packet waiting where it is exactly if the queue is stuck; it is stuck
    // afterwards then.
    method AdvanceOrStay() returns (ghost posted: nat)
      requires Valid() && Room()
      modifies this, txd, tcb
      ensures Valid() && packets == old(packets) && fragments == old(fragments) && pr.end == old(pr).end
      ensures old(pr).next != pr.end ==> old(Stuck()) == (pr.next == old(pr).next)
      ensures old(Stuck()) ==> Stuck() && posted == 0 && txDescIndex == old(txDescIndex) && tail == old(tail)
    {
      ghost var next, end, available := pr.next, pr.end, n - txDescIndex;
      if next != end {
        StopsAtOnceIff(cfg, packets, next, end, available);
      }
      if Stuck() {
        PostsNothing(cfg, packets, next, end, available);
        AdvSmall(txDescIndex, 0, n);
      }
      posted := Advance();
    }

    // Anything the hardware reports and the framework offers.
    method Others()
      requires Valid()
      modifies this`packets, this`fragments, this`pr, this`out, txd
      ensures Valid() && txDescIndex == old(txDescIndex) && tail == old(tail) && pr.next == old(pr).next
      ensures old(Stuck()) ==> Stuck()
    {
      var rounds: nat :| true;
      for i := 0 to rounds
        invariant Valid() && txDescIndex == old(txDescIndex) && tail == old(tail) && pr.next == old(pr).next
        invariant old(Stuck()) ==> Stuck()
      {
        var k: nat :| true;
        if k < |out| && out[k].used {
          HardwareReports(k, Desc(0, {}, 0, 1));
        } else {
          OfferAny();
        }
      }
    }

    // A queue that is stuck stays stuck, however often it is advanced, and whatever the hardware reports
    // and the framework offers in between: nothing is posted any more.
    method AdvanceWhileStuck(rounds: nat)
      requires Valid() && Stuck()
      modifies this, txd, tcb
      ensures Valid() && Stuck() && txDescIndex == old(txDescIndex) && pr.next == old(pr).next && tail == old(tail)
    {
      for i := 0 to rounds
        invariant Valid() && Stuck()
        invariant txDescIndex == old(txDescIndex) && pr.next == old(pr).next && tail == old(tail)
      {
        Others();
        ghost var posted := AdvanceOrStay();
      }
    }

    // A packet the framework may offer, if there is space in the packet ring.
    method OfferAny()
      requires Valid()
      modifies this`packets, this`fragments, this`pr
      ensures Valid() && pr.next == old(pr).next && (old(Stuck()) ==> Stuck())
    {
      if Dist(pr.begin, pr.end, |packets|) + 1 < |packets| {
        var p: Packet :| true;
        var count: nat :| true;
        p := p.(fragmentIndex := ChainEnd(packets, pr.next, pr.end, fr.next, |fragments|), fragmentCount := count + 1);
        AdvSmall(pr.end, 1, |packets|);
        Offer(p, fragments);
      }
    }

    // The framework adds a packet and its fragments at the end of the rings.
    method Offer(p: Packet, fragments': seq<Fragment>)
      requires Valid() && Dist(pr.begin, pr.end, |packets|) + 1 < |packets| && |fragments'| == |fragments|
      requires p.ignore || (p.fragmentIndex == ChainEnd(packets, pr.next, pr.end, fr.next, |fragments|) &&
               1 <= p.fragmentCount)
      modifies this`packets, this`fragments, this`pr
      ensures Valid() && packets == old(packets)[old(pr).end := p] && pr == old(pr).(end := Inc(old(pr).end, |packets|))
      ensures fragments == fragments'
      ensures Here() == if p.ignore then old(Here()) else Step(n, Extra(cfg), old(Here()), Op.Offer(p.fragmentCount))
    {
      ghost var v := Abs();
      WaitingGrows(packets, pr.next, pr.end, p);
      OfferKeeps(v, pr.end, p);
      DistInc(pr.begin, pr.end, |packets|);
      DistSplit(pr.begin, pr.next, pr.end, |packets|);
      ChainGrows(packets, pr.next, pr.end, fr.next, |fragments|, p);
      packets := packets[pr.end := p];
      fragments := fragments';
      pr := pr.(end := Inc(pr.end, |packets|));
      assert Abs() == v.(packets := packets);
    }
  }

  /** None of the `total` outstanding slots from `head` on is among the `posts` slots from `index` on. */
  predicate Spares(head: nat, total: nat, index: nat, posts: nat, n: nat)
    requires n > 0
  {
    forall k :: 0 <= k < total ==> !(index <= Adv(head, k, n) < index + posts)
  }

  /** Of two stretches of slots, one right behind the other and ending within the ring, none is in both iff
      together they fit. */
  lemma Overlap(head: nat, total: nat, posts: nat, n: nat)
    requires head < n && total <= n && Adv(head, total, n) + posts <= n
    ensures Spares(head, total, Adv(head, total, n), posts, n) == (total + posts <= n)
  {
    var index := Adv(head, total, n);
    AdvSmall(head, total, n);
    if total + posts <= n {
      forall k | 0 <= k < total ensures !(index <= Adv(head, k, n) < index + posts) {
        AdvSmall(head, k, n);
      }
    } else {
      AdvSmall(head, 0, n);
      assert index <= Adv(head, 0, n) < index + posts;
    }
  }

  lemma DistSplit(a: nat, b: nat, c: nat, n: nat)
    requires a < n && b < n && c < n && Dist(a, b, n) <= Dist(a, c, n)
    ensures Dist(a, b, n) + Dist(b, c, n) == Dist(a, c, n)
  {
  }

  /** A packet outside the outstanding stretch can be replaced. */
  lemma OfferKeeps(v: View, end: nat, p: Packet)
    requires OutInv(v) && end < |v.packets| && |v.out| <= Dist(v.begin, end, |v.packets|)
    ensures OutInv(v.(packets := v.packets[end := p]))
  {
    var w := v.(packets := v.packets[end := p]);
    forall k | 0 <= k < |w.out| ensures RecOk(w, k) {
      assert RecOk(v, k);
      AdvDist(v.begin, end, |v.packets|);
      AdvDistinct(v.begin, k, Dist(v.begin, end, |v.packets|), |v.packets|);
    }
  }

  /** A context descriptor if one is used, followed by the data descriptors, is a posted packet. */
  lemma ContextThenData(txd: seq<Desc>, cfg: TxConfig, fragments: seq<Fragment>, first: nat, p: Packet)
    requires |fragments| > 0 && 1 <= p.fragmentCount && first + Extra(cfg) + p.fragmentCount <= |txd|
    requires Extra(cfg) == 1 ==> txd[first] == ContextDesc(cfg, p.offload)
    requires var fs := Frags(fragments, p.fragmentIndex, p.fragmentCount);
             txd[first + Extra(cfg)..first + Extra(cfg) + p.fragmentCount] ==
                 MarkLast(DataDescs(cfg, p.offload, TotalLength(fs), fs))
    ensures Carries(txd, cfg, fragments, first, p)
  {
    var m := first + Extra(cfg);
    assert txd[first..m + p.fragmentCount] == txd[first..m] + txd[m..m + p.fragmentCount];
    assert Extra(cfg) == 1 ==> txd[first..m] == [ContextDesc(cfg, p.offload)];
  }

  lemma DistRoom(a: nat, b: nat, c: nat, n: nat)
    requires a < n && b < n && c < n && b != c && Dist(a, b, n) <= Dist(a, c, n)
    ensures Dist(a, b, n) + 1 < n && Dist(a, Inc(b, n), n) == Dist(a, b, n) + 1 <= Dist(a, c, n)
  {
    DistInc(a, b, n);
  }
}
