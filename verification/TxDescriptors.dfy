/** The descriptors one transmitted packet is posted as, as values. */
module TxDescriptors {

  /** Bits of cmd_type_len. */
  const DTYP_CTXT: set<nat> := {21}
  const DTYP_DATA: set<nat> := {20, 21}
  const EOP: nat := 24
  const IFCS: nat := 25
  const RS: nat := 27
  const DEXT: nat := 29
  const VLE: nat := 30
  const TSE: nat := 31
  const TUCMD_IPV4: nat := 10
  const TUCMD_TCP: nat := 11

  /** Fields of olinfo_status. */
  const POPTS_IXSM: nat := 0x100
  const POPTS_TXSM: nat := 0x200
  const PAYLEN_UNIT: nat := 0x4000
  const PAYLEN_LIMIT: nat := 0x4_0000

  /** Which offloads the queue has enabled. Any of them makes every packet use a context descriptor. */
  datatype TxConfig = TxConfig(vlan: bool, gso: bool, checksum: bool) {
    predicate UsesContext() { vlan || gso || checksum }
  }

  /** What the extensions and the layout of a packet say. */
  datatype Offload = Offload(vlanId: nat, mss: nat, ipv4: bool, tcp: bool, layer3: bool, layer4: bool,
                             l2Len: nat, l3Len: nat, l4Len: nat)

  datatype Packet = Packet(ignore: bool, fragmentIndex: nat, fragmentCount: nat, offload: Offload)

  datatype Fragment = Fragment(address: nat, offset: nat, validLength: nat)

  /** A 16-byte descriptor: the first eight bytes, the flag bits and the length field of the third word,
      and the last word, which is olinfo_status when posted and the status when written back. */
  datatype Desc = Desc(addr: nat, flags: set<nat>, dtalen: nat, status: nat)

  /** E1000_TXD_STAT_DD of the status word. */
  predicate DescriptorDone(d: Desc) { d.status % 2 == 1 }

  /** The context descriptor, all fields disjoint. */
  function ContextDesc(cfg: TxConfig, o: Offload): Desc {
    var layout := cfg.checksum || cfg.gso;
    Desc((if cfg.vlan then o.vlanId * 0x1_0000 else 0) + (if layout then o.l2Len * 0x200 + o.l3Len else 0),
         {DEXT} + DTYP_CTXT + (if layout && o.ipv4 then {TUCMD_IPV4} else {}) +
             (if layout && o.tcp then {TUCMD_TCP} else {}),
         0,
         (if cfg.gso && o.mss > 0 then o.mss * 0x1_0000 else 0) + (if layout then o.l4Len * 0x100 else 0))
  }

  /** The command flags shared by the data descriptors of a packet. */
  function DataFlags(cfg: TxConfig, o: Offload): set<nat> {
    {DEXT, IFCS} + DTYP_DATA + (if cfg.vlan then {VLE} else {}) + (if cfg.gso && o.mss > 0 then {TSE} else {})
  }

  /** The checksum options of a packet. */
  function Popts(cfg: TxConfig, o: Offload): nat {
    (if (cfg.gso && o.mss > 0 && o.ipv4) || (cfg.checksum && o.layer3) then POPTS_IXSM else 0)
    + (if (cfg.gso && o.mss > 0) || (cfg.checksum && o.layer4) then POPTS_TXSM else 0)
  }

  /** olinfo_status: the packet length sits above bit 14 of a 32-bit word. */
  function Olinfo(cfg: TxConfig, o: Offload, packetLength: nat): nat {
    Popts(cfg, o) + (packetLength % PAYLEN_LIMIT) * PAYLEN_UNIT
  }

  /** The length the hardware reads from olinfo_status. */
  function Paylen(d: Desc): nat { d.status / 0x4000 }

  function Length16(f: Fragment): nat { f.validLength % 0x1_0000 }

  /** The packet length: the 16-bit lengths of the fragments. */
  function TotalLength(fs: seq<Fragment>): nat {
    if fs == [] then 0 else TotalLength(fs[..|fs| - 1]) + Length16(fs[|fs| - 1])
  }

  function DataDesc(cfg: TxConfig, o: Offload, packetLength: nat, f: Fragment): Desc {
    Desc((f.address + f.offset) % 0x1_0000_0000_0000_0000, DataFlags(cfg, o), Length16(f), Olinfo(cfg, o, packetLength))
  }

  function DataDescs(cfg: TxConfig, o: Offload, packetLength: nat, fs: seq<Fragment>): (ds: seq<Desc>)
    ensures |ds| == |fs|
  {
    seq(|fs|, i requires 0 <= i < |fs| => DataDesc(cfg, o, packetLength, fs[i]))
  }

  function MarkLast(ds: seq<Desc>): (r: seq<Desc>)
    requires ds != []
    ensures |r| == |ds|
  {
    var last := ds[|ds| - 1];
    ds[|ds| - 1 := last.(flags := last.flags + {EOP, RS})]
  }

  /** Everything that is posted for a packet with fragments `fs`. */
  function PacketDescs(cfg: TxConfig, o: Offload, fs: seq<Fragment>): (ds: seq<Desc>)
    requires fs != []
    ensures |ds| == |fs| + if cfg.UsesContext() then 1 else 0
  {
    (if cfg.UsesContext() then [ContextDesc(cfg, o)] else []) + MarkLast(DataDescs(cfg, o, TotalLength(fs), fs))
  }

  /** Length fields of data descriptors. */
  function SumLengths(ds: seq<Desc>): nat {
    if ds == [] then 0 else SumLengths(ds[..|ds| - 1]) + ds[|ds| - 1].dtalen
  }

  // ---- what a descriptor has to say, field by field ---------------------------------------------

  /** The data descriptor of fragment `f`: its address and length, the command bits, and the checksums to
      insert and the packet length of olinfo_status; the last one also ends the packet and asks for a report. */
  ghost predicate IsData(d: Desc, vlan: bool, gso: bool, checksum: bool, o: Offload, f: Fragment, length: nat,
                         last: bool)
  {
    && d.addr == (f.address + f.offset) % 0x1_0000_0000_0000_0000
    && d.dtalen == f.validLength % 0x1_0000
    && (20 in d.flags && 21 in d.flags && 25 in d.flags && 29 in d.flags)
    && (30 in d.flags <==> vlan) && (31 in d.flags <==> gso && o.mss > 0)
    && (24 in d.flags <==> last) && (27 in d.flags <==> last)
    && (forall b :: b in d.flags ==> b in {20, 21, 24, 25, 27, 29, 30, 31})
    && d.status % 0x4000 == (if (gso && o.mss > 0 && o.ipv4) || (checksum && o.layer3) then 0x100 else 0)
                            + (if (gso && o.mss > 0) || (checksum && o.layer4) then 0x200 else 0)
    && d.status / 0x4000 == length % 0x4_0000
  }

  /** The context descriptor: VLAN tag and header lengths, MSS, and the protocols. */
  ghost predicate IsContext(d: Desc, vlan: bool, gso: bool, checksum: bool, o: Offload) {
    && d.addr == (if vlan then o.vlanId * 0x1_0000 else 0)
                 + (if gso || checksum then o.l2Len * 0x200 + o.l3Len else 0)
    && d.status == (if gso && o.mss > 0 then o.mss * 0x1_0000 else 0) + (if gso || checksum then o.l4Len * 0x100 else 0)
    && (21 in d.flags && 29 in d.flags)
    && (10 in d.flags <==> (gso || checksum) && o.ipv4) && (11 in d.flags <==> (gso || checksum) && o.tcp)
    && (forall b :: b in d.flags ==> b in {10, 11, 21, 29})
  }

  lemma DataDescIs(cfg: TxConfig, o: Offload, length: nat, f: Fragment, last: bool)
    ensures var d := DataDesc(cfg, o, length, f);
            IsData(if last then d.(flags := d.flags + {EOP, RS}) else d, cfg.vlan, cfg.gso, cfg.checksum, o, f, length,
                   last) == true
  {
    OlinfoFields(Popts(cfg, o), length);
  }

  lemma OlinfoFields(popts: nat, length: nat)
    requires popts < PAYLEN_UNIT
    ensures var x := popts + (length % PAYLEN_LIMIT) * PAYLEN_UNIT;
            x % PAYLEN_UNIT == popts && x / PAYLEN_UNIT == length % PAYLEN_LIMIT
  {
  }

  lemma ContextDescIs(cfg: TxConfig, o: Offload)
    ensures IsContext(ContextDesc(cfg, o), cfg.vlan, cfg.gso, cfg.checksum, o)
  {
  }

  // ---- what holds of a posted packet ------------------------------------------------------------

  /** EOP and RS are on the last descriptor and nowhere else, and no descriptor reads as done. */
  lemma OnlyLastReports(cfg: TxConfig, o: Offload, fs: seq<Fragment>)
    requires fs != []
    ensures var ds := PacketDescs(cfg, o, fs);
            && 24 in ds[|ds| - 1].flags && 27 in ds[|ds| - 1].flags
            && (forall i :: 0 <= i < |ds| - 1 ==> 24 !in ds[i].flags && 27 !in ds[i].flags)
            && (forall i :: 0 <= i < |ds| ==> ds[i].status % 2 == 0)
  {
    var ds := PacketDescs(cfg, o, fs);
    forall i | 0 <= i < |ds| ensures ds[i].status % 2 == 0 {
      EvenStatus(cfg, o, TotalLength(fs));
    }
  }

  lemma EvenStatus(cfg: TxConfig, o: Offload, packetLength: nat)
    ensures Olinfo(cfg, o, packetLength) % 2 == 0 && ContextDesc(cfg, o).status % 2 == 0
  {
    var q := packetLength % PAYLEN_LIMIT;
    Doubled(Olinfo(cfg, o, packetLength), Popts(cfg, o) / 2 + q * 0x2000);
    var mss := if cfg.gso && o.mss > 0 then o.mss else 0;
    var l4 := if cfg.checksum || cfg.gso then o.l4Len else 0;
    Doubled(ContextDesc(cfg, o).status, mss * 0x8000 + l4 * 0x80);
  }

  lemma Doubled(x: nat, half: nat)
    requires x == 2 * half
    ensures x % 2 == 0
  {
  }

  lemma {:induction false} LengthsAddUp(cfg: TxConfig, o: Offload, packetLength: nat, fs: seq<Fragment>)
    ensures SumLengths(DataDescs(cfg, o, packetLength, fs)) == TotalLength(fs)
  {
    if fs == [] {
    } else {
      LengthsAddUp(cfg, o, packetLength, fs[..|fs| - 1]);
      assert DataDescs(cfg, o, packetLength, fs)[..|fs| - 1] == DataDescs(cfg, o, packetLength, fs[..|fs| - 1]);
    }
  }

  /** Every data descriptor of a packet announces the sum of all data lengths of the packet exactly if
      that sum fits the 18-bit field. */
  lemma PaylenIsExactIff(cfg: TxConfig, o: Offload, fs: seq<Fragment>)
    requires fs != []
    ensures var data := PacketDescs(cfg, o, fs)[if cfg.UsesContext() then 1 else 0..];
            forall i :: 0 <= i < |data| ==> (Paylen(data[i]) == SumLengths(data) <==> SumLengths(data) < 0x4_0000)
  {
    var data := PacketDescs(cfg, o, fs)[if cfg.UsesContext() then 1 else 0..];
    var plain := DataDescs(cfg, o, TotalLength(fs), fs);
    assert data == MarkLast(plain);
    assert data[..|data| - 1] == plain[..|plain| - 1];
    LengthsAddUp(cfg, o, TotalLength(fs), fs);
    assert SumLengths(data) == TotalLength(fs);
    PaylenDecodes(cfg, o, TotalLength(fs));
    forall i | 0 <= i < |data| ensures Paylen(data[i]) == SumLengths(data) <==> SumLengths(data) < 0x4_0000 {
      assert data[i].status == Olinfo(cfg, o, TotalLength(fs));
    }
  }

  lemma PaylenDecodes(cfg: TxConfig, o: Offload, packetLength: nat)
    ensures Olinfo(cfg, o, packetLength) / PAYLEN_UNIT == packetLength % PAYLEN_LIMIT
  {
    assert Popts(cfg, o) < PAYLEN_UNIT;
  }
}
