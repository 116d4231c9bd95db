/** Flow-control negotiation: what an end advertises, how it resolves the partner's ability, and what two
    ends that run this code agree on. */
module FlowControl {

  datatype FcMode = None | RxPause | TxPause | Full | Default
  datatype Media = Copper | Fiber | Serdes | Unknown
  datatype Status = Success | PhyError | NvmError | ConfigError

  /** The PAUSE and ASM_DIR bits of an advertisement. */
  datatype Ability = Ability(pause: bool, asmDir: bool)

  predicate MayTransmit(m: FcMode) { m == TxPause || m == Full }
  predicate Honours(m: FcMode) { m == RxPause || m == Full }

  /** What an end advertises for the mode asked of it. */
  function Advertised(m: FcMode): Ability {
    match m
    case None => Ability(false, false)
    case RxPause => Ability(true, true)
    case TxPause => Ability(false, true)
    case Full => Ability(true, true)
    case Default => Ability(false, false)
  }

  /** The pause resolution of IEEE 802.3, Annex 28B.3 (Table 28B-3), row by row: whether the local end
      sends and whether it honours PAUSE frames. */
  function Table28B3(local: Ability, partner: Ability): FcMode {
    match (local.pause, local.asmDir, partner.pause, partner.asmDir)
    case (false, false, _, _) => None
    case (false, true, false, _) => None
    case (false, true, true, false) => None
    case (false, true, true, true) => TxPause
    case (true, false, false, _) => None
    case (true, _, true, _) => Full
    case (true, true, false, false) => None
    case (true, true, false, true) => RxPause
  }

  /** The table with transmission withheld from an end that did not ask for both directions. */
  function Resolved(requested: FcMode, local: Ability, partner: Ability): FcMode {
    if Table28B3(local, partner) == Full && requested != Full then RxPause else Table28B3(local, partner)
  }

  /** Facing any partner that resolves by the standard, an end of this code only sends to one that
      honours, and honours whenever the partner sends. */
  lemma SafeWithStandardPartner(requested: FcMode, partner: Ability)
    ensures var local := Advertised(requested);
            && (MayTransmit(Resolved(requested, local, partner)) ==> Honours(Table28B3(partner, local)))
            && (MayTransmit(Table28B3(partner, local)) ==> Honours(Resolved(requested, local, partner)))
  {
  }

  /** What an end asked for `a` that advertises `adv` and its partner asked for `b` make of the link: PAUSE
      frames flow from one to the other exactly if the one asked to send and the other to receive. In
      particular an end that may send faces one that honours, no end gets a direction it did not ask for,
      and neither loses one both asked for; the third clause says when an end is left listening. */
  predicate Agrees(a: FcMode, adv: Ability, b: FcMode) {
    var ra := Resolved(a, adv, Advertised(b));
    var rb := Resolved(b, Advertised(b), adv);
    && (MayTransmit(ra) <==> MayTransmit(a) && Honours(b))
    && (MayTransmit(ra) ==> Honours(rb))
    && (Honours(ra) <==> Honours(a) && b != None)
    && (Honours(ra) ==> Honours(a))
  }

  /** Two ends that advertise and resolve as this code does agree, whatever the two modes. */
  lemma PauseAgreement(a: FcMode, b: FcMode)
    requires a != Default && b != Default
    ensures Agrees(a, Advertised(a), b)
  {
    match a { case None => case RxPause => case TxPause => case Full => }
    match b { case None => case RxPause => case TxPause => case Full => }
  }

  /** No other advertisement does: an end agrees with every partner iff it advertises as this code would. */
  lemma AgreementNeedsAdvertisement(a: FcMode, adv: Ability)
    requires a != Default
    ensures (forall b: FcMode :: b != Default ==> Agrees(a, adv, b)) <==> adv == Advertised(a)
  {
    if adv == Advertised(a) {
      forall b: FcMode | b != Default ensures Agrees(a, adv, b) {
        PauseAgreement(a, b);
      }
    } else {
      assert !Agrees(a, adv, TxPause) || !Agrees(a, adv, Full) || !Agrees(a, adv, RxPause);
    }
  }

  // Bit numbers: CTRL.RFCE and TFCE, PAUSE and ASM_DIR of the PHY and of the PCS advertisement.
  const RFCE: nat := 27
  const TFCE: nat := 28
  const NWAY_PAUSE: nat := 10
  const NWAY_ASM_DIR: nat := 11
  const TXCW_PAUSE: nat := 7
  const TXCW_ASM_DIR: nat := 8
  const SPEED_BITS: set<nat> := {5, 6, 7, 8}
  // PAUSE and ASM_DIR of NVM word 0x0F, the two 1000BASE-T abilities, and ADVERTISE_1000_FULL
  const WORD0F_PAUSE: nat := 12
  const WORD0F_ASM_DIR: nat := 13
  const CR_1000T_HD: nat := 8
  const CR_1000T_FD: nat := 9
  const ADVERTISE_1000_FULL: nat := 5

  function NwayAbility(reg: set<nat>): Ability { Ability(NWAY_PAUSE in reg, NWAY_ASM_DIR in reg) }
  function PcsAbility(reg: set<nat>): Ability { Ability(TXCW_PAUSE in reg, TXCW_ASM_DIR in reg) }

  /** The advertised ability by bit number: 10 and 11 in the register of the PHY, 7 and 8 in that of the PCS. */
  ghost function Nway(reg: set<nat>): Ability { Ability(10 in reg, 11 in reg) }
  ghost function Pcs(reg: set<nat>): Ability { Ability(7 in reg, 8 in reg) }

  /** Whether the settings are forced whatever the negotiation comes to: on copper, or after a failed
      negotiation on fiber and SerDes. */
  ghost predicate Forces(media: Media, autonegFailed: bool) {
    (media == Copper && !autonegFailed) || ((media == Fiber || media == Serdes) && autonegFailed)
  }

  /** A register with its bits `x` and `y` set as told, and no other changed. */
  ghost function WithBits(reg: set<nat>, x: nat, vx: bool, y: nat, vy: bool): (r: set<nat>)
    requires x != y
    ensures (x in r <==> vx) && (y in r <==> vy) && forall k :: k != x && k != y ==> (k in r <==> k in reg)
  {
    reg - {x, y} + (if vx then {x} else {}) + (if vy then {y} else {})
  }

  /** CTRL with its two flow-control bits standing for mode `m`. */
  ghost function CtrlFor(ctrl: set<nat>, m: FcMode): set<nat> { WithBits(ctrl, 27, Honours(m), 28, MayTransmit(m)) }

  class LinkPort {
    // whether every PHY access succeeds
    const responding: bool
    // the link speeds that may be advertised, by bit number
    const autonegMask: set<nat>
    // firmware has blocked the reset of the PHY, as a link is up
    var resetBlocked: bool
    var autonegAdvertised: set<nat>
    var requested: FcMode
    var current: FcMode
    var media: Media
    var autoneg: bool
    var autonegFailed: bool
    var halfDuplex: bool
    // registers as sets of bit numbers
    var ctrl: set<nat>
    var phyAdv: set<nat>
    var gigCtrl: set<nat>
    var phyLp: set<nat>
    var phyComplete: bool
    var pcsAdv: set<nat>
    var pcsLp: set<nat>
    var pcsComplete: bool
    var forceFctrl: bool

    // A PHY access that may fail.
    method PhyAccess() returns (ok: bool)
      ensures responding ==> ok
    {
      ok := *;
      ok := ok || responding;
    }

    // e1000_set_default_fc_generic, on NVM word 0x0F: the end will advertise the two bits of that word, with
    // ASM_DIR added to PAUSE.
    method SetDefaultFc(ok: bool, word0f: set<nat>) returns (s: Status)
      modifies this`requested
      ensures ok <==> s == Success
      ensures !ok ==> requested == old(requested)
      ensures ok ==> requested != Default && requested != RxPause
      ensures ok ==> Advertised(requested)
                       == Ability(12 in word0f, 12 in word0f || 13 in word0f)
    {
      if !ok { return NvmError; }
      if WORD0F_PAUSE !in word0f && WORD0F_ASM_DIR !in word0f {
        requested := None;
      } else if WORD0F_PAUSE !in word0f && WORD0F_ASM_DIR in word0f {
        requested := TxPause;
      } else {
        requested := Full;
      }
      s := Success;
    }

    /** The mode in effect is the one asked for, and it is advertised. */
    ghost predicate LinkSetUp()
      reads this`requested, this`current, this`phyAdv
    {
      current == requested != Default && Nway(phyAdv) == Advertised(requested)
    }

    // e1000_setup_link_generic on copper, up to the advertisement. With the reset of the PHY blocked it
    // succeeds without a change.
    method SetupLink(ok: bool, word0f: set<nat>) returns (s: Status)
      requires media == Copper && autoneg
      modifies this`requested, this`current, this`phyAdv, this`gigCtrl, this`autonegAdvertised
      ensures s == Success && !resetBlocked ==> LinkSetUp()
      ensures resetBlocked ==>
                && s == Success && requested == old(requested) && current == old(current)
                && phyAdv == old(phyAdv) && gigCtrl == old(gigCtrl) && autonegAdvertised == old(autonegAdvertised)
      ensures old(requested) != Default ==> requested == old(requested)
      ensures responding && (ok || old(requested) != Default) ==> s == Success
    {
      if resetBlocked { return Success; }
      s := Success;
      if requested == Default {
        s := SetDefaultFc(ok, word0f);
        if s != Success { return; }
      }
      current := requested;
      s := PhySetupAutoneg();
    }

    // The 10/100 capability bits for autoneg_advertised, as bits 0 to 3.
    function SpeedBits(advertised: set<nat>): set<nat> {
      set k | k in SPEED_BITS && k - 5 in advertised
    }

    /** The advertisement shows the mode in effect and the 10/100 speeds to advertise. */
    ghost predicate Advertises(adv: set<nat>)
      reads this`current, this`autonegAdvertised
    {
      && current != Default && Nway(adv) == Advertised(current)
      && forall k :: k in {5, 6, 7, 8} ==> (k in adv <==> k - 5 in autonegAdvertised)
    }

    // The switch over the mode in effect; the default is no mode.
    method AdvertiseMode(reg: set<nat>) returns (known: bool, adv: set<nat>)
      ensures known <==> current != Default
      ensures known ==> Nway(adv) == Advertised(current)
      ensures forall k :: k != 10 && k != 11 ==> (k in adv <==> k in reg)
    {
      known, adv := true, reg;
      match current {
        case None => adv := adv - {NWAY_ASM_DIR, NWAY_PAUSE};
        case RxPause => adv := adv + {NWAY_ASM_DIR, NWAY_PAUSE};
        case TxPause =>
          adv := adv + {NWAY_ASM_DIR};
          adv := adv - {NWAY_PAUSE};
        case Full => adv := adv + {NWAY_ASM_DIR, NWAY_PAUSE};
        case Default => known := false;
      }
    }

    // e1000_phy_setup_autoneg. The 1000BASE-T register is written last, so a failure there leaves the new
    // advertisement in the PHY; any other failure leaves the old one.
    method PhySetupAutoneg() returns (s: Status)
      modifies this`phyAdv, this`gigCtrl, this`autonegAdvertised
      ensures autonegAdvertised == old(autonegAdvertised) * autonegMask
      ensures s == Success ==> Advertises(phyAdv)
      ensures s != Success ==> gigCtrl == old(gigCtrl)
      ensures s != Success ==> phyAdv == old(phyAdv) || (s == PhyError && Advertises(phyAdv))
      ensures 5 !in autonegMask ==>
              gigCtrl == old(gigCtrl) && (s != Success ==> phyAdv == old(phyAdv))
      ensures s == Success && 5 in autonegMask ==>
                8 !in gigCtrl && (9 in gigCtrl <==> 5 in autonegAdvertised)
      ensures forall k :: k !in {5, 6, 7, 8} + {10, 11} ==> (k in phyAdv <==> k in old(phyAdv))
      ensures forall k :: k != 8 && k != 9 ==> (k in gigCtrl <==> k in old(gigCtrl))
      ensures s == ConfigError ==> current == Default
      ensures responding && current != Default ==> s == Success
    {
      autonegAdvertised := autonegAdvertised * autonegMask;
      var ok := PhyAccess();
      if !ok { return PhyError; }
      var adv, gig := phyAdv, {};
      if ADVERTISE_1000_FULL in autonegMask {
        ok := PhyAccess();
        if !ok { return PhyError; }
        gig := gigCtrl;
      }
      adv := adv - SPEED_BITS + SpeedBits(autonegAdvertised);
      gig := gig - {CR_1000T_HD, CR_1000T_FD};
      if ADVERTISE_1000_FULL in autonegAdvertised {
        gig := gig + {CR_1000T_FD};
      }
      var known;
      known, adv := AdvertiseMode(adv);
      if !known { return ConfigError; }
      ok := PhyAccess();
      if !ok { return PhyError; }
      phyAdv := adv;
      if ADVERTISE_1000_FULL in autonegMask {
        ok := PhyAccess();
        if !ok { return PhyError; }
        gigCtrl := gig;
      }
      s := Success;
    }

    // The advertisement of e1000_setup_serdes_link_82575.
    method PcsSetupAutoneg()
      modifies this`pcsAdv
      ensures Pcs(pcsAdv) == Advertised(requested)
      ensures forall k :: k != 7 && k != 8 ==> (k in pcsAdv <==> k in old(pcsAdv))
    {
      var adv := pcsAdv - {TXCW_ASM_DIR, TXCW_PAUSE};
      if requested == Full || requested == RxPause {
        adv := adv + {TXCW_ASM_DIR};
        adv := adv + {TXCW_PAUSE};
      } else if requested == TxPause {
        adv := adv + {TXCW_ASM_DIR};
      }
      pcsAdv := adv;
    }

    // e1000_force_mac_fc_generic
    method ForceMacFc() returns (s: Status)
      modifies this`ctrl
      ensures s == if current == Default then ConfigError else Success
      ensures ctrl == if current == Default then old(ctrl) else CtrlFor(old(ctrl), current)
    {
      var c := ctrl;
      match current {
        case None => c := c - {TFCE, RFCE};
        case RxPause =>
          c := c - {TFCE};
          c := c + {RFCE};
        case TxPause =>
          c := c - {RFCE};
          c := c + {TFCE};
        case Full => c := c + {TFCE, RFCE};
        case Default => return ConfigError;
      }
      ctrl := c;
      s := Success;
    }

    // The branches that both the copper and the SerDes part go through.
    method Resolve(local: Ability, partner: Ability)
      modifies this`current
      ensures current == Resolved(requested, local, partner)
    {
      if local.pause && partner.pause {
        if requested == Full {
          current := Full;
        } else {
          current := RxPause;
        }
      } else if !local.pause && local.asmDir && partner.pause && partner.asmDir {
        current := TxPause;
      } else if local.pause && local.asmDir && !partner.pause && partner.asmDir {
        current := RxPause;
      } else {
        current := None;
      }
    }

    /** Whether the settings are forced before looking at the negotiation. */
    predicate ForcedFirst()
      reads this`media, this`autonegFailed
    {
      if autonegFailed then media == Fiber || media == Serdes else media == Copper
    }

    // e1000_config_fc_after_link_up_generic. After success CTRL shows the mode in effect if anything was
    // forced; the mode is the resolved one once negotiation has completed, and none for half duplex on
    // copper. The SerDes part does not look at the duplex.
    method ConfigFcAfterLinkUp() returns (s: Status)
      modifies this`current, this`ctrl, this`forceFctrl
      ensures s == Success && media == Copper && autoneg && phyComplete ==>
                && current == (if halfDuplex then None
                               else Resolved(requested, Nway(phyAdv), Nway(phyLp)))
                && ctrl == CtrlFor(old(ctrl), current)
      ensures s == Success && media == Serdes && autoneg && pcsComplete ==>
                && current == Resolved(requested, Pcs(pcsAdv), Pcs(pcsLp))
                && ctrl == CtrlFor(old(ctrl), current) && forceFctrl
      ensures s == Success && !(media == Copper && autoneg && phyComplete) &&
              !(media == Serdes && autoneg && pcsComplete) ==>
                && current == old(current) && forceFctrl == old(forceFctrl)
                && ctrl == if Forces(media, autonegFailed) then CtrlFor(old(ctrl), current) else old(ctrl)
      ensures forall k :: k != 27 && k != 28 ==> (k in ctrl <==> k in old(ctrl))
      ensures s == ConfigError <==> Forces(media, autonegFailed) && old(current) == Default
      ensures responding ==> s == Success || s == ConfigError
    {
      s := Success;
      if ForcedFirst() {
        s := ForceMacFc();
      }
      if s != Success { return; }
      if media == Copper && autoneg {
        s := ConfigCopper();
        if s != Success { return; }
      }
      if media == Serdes && autoneg {
        s := ConfigSerdes();
      }
    }

    method ConfigCopper() returns (s: Status)
      modifies this`current, this`ctrl
      ensures s == Success || s == PhyError
      ensures s == Success && phyComplete ==>
                && current == (if halfDuplex then None
                               else Resolved(requested, Nway(phyAdv), Nway(phyLp)))
                && ctrl == CtrlFor(old(ctrl), current)
      ensures s == Success && !phyComplete ==> current == old(current) && ctrl == old(ctrl)
      ensures s == PhyError ==> ctrl == old(ctrl)
      ensures responding ==> s == Success
    {
      // PHY_STATUS twice, as it latches
      var ok := PhyAccess();
      if !ok { return PhyError; }
      ok := PhyAccess();
      if !ok { return PhyError; }
      if !phyComplete { return Success; }
      ok := PhyAccess();
      if !ok { return PhyError; }
      ok := PhyAccess();
      if !ok { return PhyError; }
      Resolve(NwayAbility(phyAdv), NwayAbility(phyLp));
      ok := PhyAccess();
      if !ok { return PhyError; }
      if halfDuplex { current := None; }
      s := ForceMacFc();
    }

    method ConfigSerdes() returns (s: Status)
      modifies this`current, this`ctrl, this`forceFctrl
      ensures s == Success
      ensures pcsComplete ==>
                && current == Resolved(requested, Pcs(pcsAdv), Pcs(pcsLp))
                && ctrl == CtrlFor(old(ctrl), current) && forceFctrl
      ensures !pcsComplete ==> current == old(current) && ctrl == old(ctrl) && forceFctrl == old(forceFctrl)
    {
      if !pcsComplete { return Success; }
      Resolve(PcsAbility(pcsAdv), PcsAbility(pcsLp));
      forceFctrl := true;
      s := ForceMacFc();
    }

    // It has seen the partner's advertisement and the link is up.
    method FinishCopper(partner: set<nat>, half: bool) returns (s: Status)
      requires media == Copper && autoneg
      modifies this`current, this`ctrl, this`forceFctrl, this`phyLp, this`phyComplete, this`halfDuplex
      ensures s == Success ==>
                && current == (if half then None else Resolved(requested, Nway(phyAdv), Nway(partner)))
                && (27 in ctrl <==> Honours(current)) && (28 in ctrl <==> MayTransmit(current))
      ensures forall k :: k != 27 && k != 28 ==> (k in ctrl <==> k in old(ctrl))
      ensures responding && (autonegFailed || old(current) != Default) ==> s == Success
    {
      phyLp, phyComplete, halfDuplex := partner, true, half;
      s := ConfigFcAfterLinkUp();
    }
  }

  // Two copper ports set up autoneg from the modes asked of them, exchange their advertisements, and
  // resolve. A port whose PHY reset is blocked keeps its set-up, so it must stem from the mode asked of it.
  // If both report success, PAUSE frames flow as both bits of CTRL say, and exactly where asked.
  method Negotiate(a: LinkPort, b: LinkPort, half: bool) returns (s: Status)
    requires a != b && a.media == b.media == Copper && a.autoneg && b.autoneg
    requires a.requested != Default && b.requested != Default
    modifies a, b
    ensures a.requested == old(a.requested) && b.requested == old(b.requested)
    ensures a.responding && b.responding && old(Ready(a) && Ready(b)) ==> s == Success
    ensures s == Success && half ==> a.current == None && b.current == None
    ensures s == Success && !half && old(Ready(a) && Ready(b)) ==>
              && (28 in a.ctrl <==> MayTransmit(a.requested) && Honours(b.requested))
              && (28 in b.ctrl <==> MayTransmit(b.requested) && Honours(a.requested))
              && (27 in a.ctrl <==> Honours(a.requested) && b.requested != None)
              && (27 in b.ctrl <==> Honours(b.requested) && a.requested != None)
    ensures s == Success && (half || old(Ready(a) && Ready(b))) ==>
              (28 in a.ctrl ==> 27 in b.ctrl) && (28 in b.ctrl ==> 27 in a.ctrl)
    ensures forall k :: k != 27 && k != 28 ==>
              (k in a.ctrl <==> k in old(a.ctrl)) && (k in b.ctrl <==> k in old(b.ctrl))
  {
    PauseAgreement(a.requested, b.requested);
    PauseAgreement(b.requested, a.requested);
    s := a.SetupLink(true, {});
    if s != Success { return; }
    s := b.SetupLink(true, {});
    if s != Success { return; }
    s := a.FinishCopper(b.phyAdv, half);
    if s != Success { return; }
    s := b.FinishCopper(a.phyAdv, half);
  }

  /** Set-up either runs or has left the advertisement of the mode asked for. */
  ghost predicate Ready(p: LinkPort)
    reads p
  {
    p.resetBlocked ==> p.current != Default && Nway(p.phyAdv) == Advertised(p.requested)
  }
}
