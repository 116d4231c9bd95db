/** The multicast hash table: the filter bits of a list of addresses, and the hashes a VF sends its PF. */
module Multicast {
  import opened Numbers

  const MAX_MTA_REG: nat := 128
  const VF_HASHES: nat := 30

  type Address = a: seq<Byte> | |a| == 6 witness [0, 0, 0, 0, 0, 0]

  /** The register counts the hash is written for. */
  predicate TableSize(regs: nat) { regs == 16 || regs == 32 || regs == 64 || regs == 128 }

  /** Left shifts after which 0xFF still ends at the top of the hash mask. */
  function BaseShift(regs: nat): nat {
    if regs == 16 then 1 else if regs == 32 then 2 else if regs == 64 then 3 else 4
  }

  /** How many times further up than for type 0 the window of a filter type is cut. */
  ghost function Further(filterType: nat): (f: nat)
    ensures f == 1 || f == 2 || f == 4 || f == 16
  {
    if filterType == 1 then 2 else if filterType == 2 then 4 else if filterType == 3 then 16 else 1
  }

  /** The hash is a window of the last two bytes of the address, as wide as the table has bits; for type 0
      it ends at their top. */
  ghost function Hash(regs: nat, filterType: nat, a: Address): (h: nat)
    requires TableSize(regs)
    ensures h < 32 * regs
  {
    (a[5] * 256 + a[4]) / (2048 / regs / Further(filterType)) % (32 * regs)
  }

  /** The hashes of the address for which the comment of the source works out an example. Its value for
      type 2, 0x163, is not what its own expression gives. */
  lemma DocumentedHashes()
    ensures var a: Address := [0x01, 0xAA, 0x00, 0x12, 0x34, 0x56];
            Hash(128, 0, a) == 0x563 && Hash(128, 1, a) == 0xAC6 && Hash(128, 2, a) == 0x58D && Hash(128, 3, a) == 0x634
  {
  }

  lemma Powers()
    ensures Pow2(0) == 1 && Pow2(1) == 2 && Pow2(2) == 4 && Pow2(3) == 8 && Pow2(4) == 16
    ensures Pow2(5) == 32 && Pow2(6) == 64 && Pow2(7) == 128 && Pow2(8) == 256
  {
    assert Pow2(4) == 16;
  }

  /** The two shifted bytes do not overlap, so joining them is adding them. */
  lemma JoinIsSum(low: bv16, high: bv16, s: bv16)
    requires low < 256 && high < 256 && 1 <= s <= 8
    ensures ((low >> (8 - s)) | (high << s)) == (low >> (8 - s)) + (high << s)
  {
  }

  /** Joining the bytes shifted by `s` cuts the window out of the last two bytes. */
  lemma JoinIsWindow(low: Byte, high: Byte, s: nat)
    requires s <= 8
    ensures Window(low, high, s) == (high * 256 + low) / Pow2(8 - s)
  {
    Powers();
    if s == 0 { assert low / 256 == 0; }
  }

  /** The bits of `x` under a mask. */
  function Masked(x: nat, mask: nat): nat
    decreases mask
  {
    if mask == 0 then 0
    else (if mask % 2 == 1 && x % 2 == 1 then 1 else 0) + 2 * Masked(x / 2, mask / 2)
  }

  /** A mask with `k` ones below the bits of `m`. */
  function OnesBelow(k: nat, m: nat): nat { if k == 0 then m else 2 * OnesBelow(k - 1, m) + 1 }

  /** Under `k` ones the low `k` bits stay. */
  lemma {:induction false} OnesAreRemainder(x: nat, k: nat)
    ensures Masked(x, OnesBelow(k, 0)) == x % Pow2(k)
    decreases k
  {
    if k == 0 {
    } else {
      OnesAreRemainder(x / 2, k - 1);
      Halves(x, Pow2(k - 1));
    }
  }

  lemma Halves(x: nat, p: nat)
    requires p > 0
    ensures x % (2 * p) == x % 2 + 2 * (x / 2 % p)
  {
    var q, r := x / 2 / p, x / 2 % p;
    assert 2 * (p * q) == (2 * p) * q;
    DivUnique(x, 2 * p, q, x % 2 + 2 * r);
  }

  /** A number below 2^k passes a mask with `k` ones at its low end. */
  lemma {:induction false} SmallPasses(x: nat, k: nat, m: nat)
    requires x < Pow2(k)
    ensures Masked(x, OnesBelow(k, m)) == x
    decreases k
  {
    if k == 0 {
      NothingMasked(m);
    } else {
      SmallPasses(x / 2, k - 1, m);
    }
  }

  lemma {:induction false} NothingMasked(m: nat)
    ensures Masked(0, m) == 0
    decreases m
  {
    if m == 0 {
    } else {
      NothingMasked(m / 2);
    }
  }

  /** Numbers below 32 pass the mask of every table. */
  lemma SmallMasked(x: nat, regs: nat)
    requires x < 32 && regs > 0
    ensures Masked(x, 32 * regs - 1) == x
  {
    var m := regs - 1;
    Powers();
    SmallPasses(x, 5, m);
    assert OnesBelow(1, m) == 2 * m + 1;
    assert OnesBelow(2, m) == 4 * m + 3;
    assert OnesBelow(3, m) == 8 * m + 7;
    assert OnesBelow(4, m) == 16 * m + 15;
  }

  /** For a table whose size is a power of two the mask is a remainder. */
  lemma TableMask(x: nat, regs: nat)
    requires TableSize(regs)
    ensures Masked(x, 32 * regs - 1) == x % (32 * regs)
  {
    var k := if regs == 16 then 9 else if regs == 32 then 10 else if regs == 64 then 11 else 12;
    OnesAreRemainder(x, k);
    TableOnes();
  }

  lemma TableOnes()
    ensures OnesBelow(9, 0) == 511 && OnesBelow(10, 0) == 1023 && OnesBelow(11, 0) == 2047 && OnesBelow(12, 0) == 4095
    ensures Pow2(9) == 512 && Pow2(10) == 1024 && Pow2(11) == 2048 && Pow2(12) == 4096
  {
    assert OnesBelow(6, 0) == 63 && Pow2(6) == 64;
  }

  // Both hash functions join the bytes under the mask; OR of the disjoint parts is written as a sum.
  function Window(low: Byte, high: Byte, s: nat): nat
    requires s <= 8
  {
    low / Pow2(8 - s) + high * Pow2(s)
  }

  function Joined(a: Address, s: nat, regs: nat): nat
    requires s <= 8 && regs > 0
  {
    Masked(Window(a[4], a[5], s), 32 * regs - 1)
  }

  /** 0xFF, shifted left by `s`, ends at the top of the hash mask. */
  predicate Fills(regs: nat, s: nat) { regs > 0 && (regs * 32 - 1) / Pow2(s) == 0xFF }

  // The loop of e1000_hash_mc_addr_generic, which stops at four.
  method GenericBitShift(regs: nat) returns (bitShift: nat)
    requires regs > 0
    ensures bitShift == BaseShift(regs)
    ensures Fills(regs, bitShift) <==> TableSize(regs)
  {
    Powers();
    var hashMask := regs * 32 - 1;
    bitShift := 1;
    while hashMask / Pow2(bitShift) != 0xFF && bitShift < 4
      invariant 1 <= bitShift <= BaseShift(regs)
      decreases 4 - bitShift
    {
      bitShift := bitShift + 1;
    }
  }

  // e1000_hash_mc_addr_generic
  method HashMcAddrGeneric(regs: nat, filterType: nat, a: Address) returns (h: nat)
    requires TableSize(regs)
    ensures h == Hash(regs, filterType, a)
  {
    var bitShift := GenericBitShift(regs);
    match filterType {
      case 1 => bitShift := bitShift + 1;
      case 2 => bitShift := bitShift + 2;
      case 3 => bitShift := bitShift + 4;
      case _ =>
    }
    h := Joined(a, bitShift, regs);
    JoinIsWindow(a[4], a[5], bitShift);
    TableMask(Window(a[4], a[5], bitShift), regs);
    Divisor(regs, filterType);
  }

  /** The right shift that is left, as a division. */
  lemma Divisor(regs: nat, filterType: nat)
    requires TableSize(regs)
    ensures var s := BaseShift(regs) + (if filterType == 1 then 1 else if filterType == 2 then 2
                                        else if filterType == 3 then 4 else 0);
            s <= 8 && Pow2(8 - s) == 2048 / regs / Further(filterType)
  {
    Powers();
  }

  /** The shift at which the VF's loop ends, which starts at 0 and has no bound of its own. A shift beyond
      eight leaves `8 - bit_shift` negative, for which the C expression has no value. */
  predicate VfShift(regs: nat, s: nat) { s <= 8 && Fills(regs, s) }

  lemma VfShiftIsUnique(regs: nat, s: nat, t: nat)
    requires VfShift(regs, s) && VfShift(regs, t)
    ensures s == t
  {
    Powers();
  }

  // e1000_hash_mc_addr_vf
  method HashMcAddrVf(regs: nat, a: Address, ghost s: nat) returns (h: nat)
    requires VfShift(regs, s)
    ensures h == Joined(a, s, regs)
    ensures TableSize(regs) ==> h == Hash(regs, 0, a)
  {
    var hashMask := regs * 32 - 1;
    var bitShift := 0;
    while hashMask / Pow2(bitShift) != 0xFF
      invariant bitShift <= s
      decreases s - bitShift
    {
      bitShift := bitShift + 1;
    }
    VfShiftIsUnique(regs, s, bitShift);
    h := Joined(a, bitShift, regs);
    if TableSize(regs) {
      TableShift(regs, a);
      VfShiftIsUnique(regs, s, BaseShift(regs));
    }
  }

  lemma TableShift(regs: nat, a: Address)
    requires TableSize(regs)
    ensures VfShift(regs, BaseShift(regs)) && Joined(a, BaseShift(regs), regs) == Hash(regs, 0, a)
  {
    TableFills(regs);
    var s := BaseShift(regs);
    JoinIsWindow(a[4], a[5], s);
    TableMask(Window(a[4], a[5], s), regs);
    Divisor(regs, 0);
  }

  lemma TableFills(regs: nat)
    requires TableSize(regs)
    ensures VfShift(regs, BaseShift(regs))
  {
    Powers();
  }

  lemma RegistersOf(regs: nat, s: nat)
    requires VfShift(regs, s)
    ensures s == 0 ==> regs == 8
    ensures 1 <= s <= 4 ==> TableSize(regs) && s == BaseShift(regs)
    ensures 5 <= s ==> regs > 128
  {
    Powers();
  }

  /** Address `k` of a packed list. */
  function Listed(list: seq<Byte>, k: nat): Address
    requires 6 * k + 6 <= |list|
  {
    list[6 * k..6 * k + 6]
  }

  /** Some of the first `count` addresses hashes to `h`. */
  ghost predicate Hit(regs: nat, filterType: nat, list: seq<Byte>, count: nat, h: nat)
    requires TableSize(regs) && 6 * count <= |list|
  {
    exists k :: 0 <= k < count && Hash(regs, filterType, Listed(list, k)) == h
  }

  /** Bit `b` of register `r` belongs in the table. */
  ghost predicate BitHit(regs: nat, filterType: nat, list: seq<Byte>, count: nat, r: nat, b: nat)
    requires TableSize(regs) && 6 * count <= |list|
  {
    Hit(regs, filterType, list, count, 32 * r + b)
  }

  class McFilter {
    const regs: nat
    const filterType: nat
    // registers as sets of bit numbers: the shadow and the device's MTA
    const mtaShadow: array<set<nat>>
    const mta: array<set<nat>>

    constructor (regs: nat, filterType: nat)
      requires TableSize(regs)
      ensures Valid() && this.regs == regs && this.filterType == filterType && fresh(mtaShadow) && fresh(mta)
    {
      this.regs, this.filterType := regs, filterType;
      mtaShadow := new set<nat>[MAX_MTA_REG](_ => {});
      mta := new set<nat>[MAX_MTA_REG](_ => {});
    }

    ghost predicate Valid() {
      TableSize(regs) && mtaShadow.Length == mta.Length == MAX_MTA_REG && mtaShadow != mta
    }

    /** The receive filter: an address passes if the bit of its hash is set. */
    ghost predicate Passes(a: Address)
      requires Valid()
      reads mta
    {
      var h := Hash(regs, filterType, a);
      h % 32 in mta[h / 32]
    }

    // The shadow's part of e1000_update_mc_addr_list_generic.
    method FillShadow(list: seq<Byte>, count: nat)
      requires Valid() && 6 * count <= |list|
      modifies mtaShadow
      ensures forall r, b :: 0 <= r < regs && 0 <= b < 32 ==>
              (b in mtaShadow[r] <==> BitHit(regs, filterType, list, count, r, b))
      ensures forall r, b :: 0 <= r < MAX_MTA_REG && b in mtaShadow[r] ==> r < regs && b < 32
    {
      for r := 0 to MAX_MTA_REG
        invariant forall j :: 0 <= j < r ==> mtaShadow[j] == {}
      {
        mtaShadow[r] := {};
      }
      var at := 0;
      for i := 0 to count
        invariant at == 6 * i
        invariant forall r, b :: 0 <= r < regs && 0 <= b < 32 ==>
                  (b in mtaShadow[r] <==> BitHit(regs, filterType, list, i, r, b))
        invariant forall r, b :: 0 <= r < MAX_MTA_REG && b in mtaShadow[r] ==> r < regs && b < 32
      {
        var h := HashMcAddrGeneric(regs, filterType, list[at..at + 6]);
        forall r, b | 0 <= r < regs && 0 <= b < 32
          ensures BitHit(regs, filterType, list, i + 1, r, b) <==>
                  BitHit(regs, filterType, list, i, r, b) || (r == h / 32 && b == h % 32)
        {
          HitNext(list, i, h, r, b);
        }
        var reg := (h / 32) % regs;
        ModSmall(h / 32, regs);
        mtaShadow[reg] := mtaShadow[reg] + {h % 32};
        at := at + 6;
      }
    }

    lemma HitNext(list: seq<Byte>, i: nat, h: nat, r: nat, b: nat)
      requires Valid() && 6 * i + 6 <= |list| && h == Hash(regs, filterType, Listed(list, i)) && b < 32
      ensures BitHit(regs, filterType, list, i + 1, r, b) <==>
              BitHit(regs, filterType, list, i, r, b) || (r == h / 32 && b == h % 32)
    {
      DivUnique(32 * r + b, 32, r, b);
    }

    // e1000_update_mc_addr_list_generic: the table holds exactly the bits of the listed addresses. No
    // listed address is filtered out, and any other passes iff it collides with a listed one.
    method UpdateMcAddrList(list: seq<Byte>, count: nat)
      requires Valid() && 6 * count <= |list|
      modifies mtaShadow, mta
      ensures forall r, b :: 0 <= r < regs && 0 <= b < 32 ==>
              (b in mta[r] <==> BitHit(regs, filterType, list, count, r, b))
      ensures forall r :: regs <= r < MAX_MTA_REG ==> mta[r] == old(mta[r])
      ensures forall k :: 0 <= k < count ==> Passes(Listed(list, k))
      ensures forall a: Address :: Passes(a) <==> Hit(regs, filterType, list, count, Hash(regs, filterType, a))
    {
      FillShadow(list, count);
      ghost var shadow := mtaShadow[..];
      var i := regs;
      while i > 0
        invariant 0 <= i <= regs && mtaShadow[..] == shadow
        invariant forall r :: i <= r < regs ==> mta[r] == shadow[r]
        invariant forall r :: regs <= r < MAX_MTA_REG ==> mta[r] == old(mta[r])
      {
        i := i - 1;
        mta[i] := mtaShadow[i];
      }
      forall a: Address ensures Passes(a) <==> Hit(regs, filterType, list, count, Hash(regs, filterType, a)) {
        var h := Hash(regs, filterType, a);
        assert 32 * (h / 32) + h % 32 == h;
      }
    }
  }

  lemma ModSmall(x: nat, n: nat)
    requires x < n
    ensures x % n == x
  {
  }

  /** Of all tables for which the VF's loop ends at a shift that the C defines, the two hashes agree on
      every address exactly for those of 16 to 128 registers. With eight the VF's shift is 0 and the other 4;
      with 256 and more the other stops at 4 below the VF's shift. */
  lemma VfAgreesIff(regs: nat, s: nat)
    requires VfShift(regs, s)
    ensures (forall a: Address :: Joined(a, s, regs) == Joined(a, BaseShift(regs), regs)) <==> 16 <= regs <= 128
  {
    RegistersOf(regs, s);
    if s == 0 {
      LowTable();
    } else if s > 4 {
      HighTable(regs, s);
    }
  }

  lemma LowTable()
    ensures Joined([0, 0, 0, 0, 0, 1], 0, 8) != Joined([0, 0, 0, 0, 0, 1], 4, 8)
  {
    Powers();
    assert Window(0, 1, 0) == 1 && Window(0, 1, 4) == 16;
    SmallMasked(1, 8);
    SmallMasked(16, 8);
  }

  lemma HighTable(regs: nat, s: nat)
    requires 5 <= s <= 8 && regs > 128
    ensures Joined([0, 0, 0, 0, 8, 0], s, regs) != Joined([0, 0, 0, 0, 8, 0], 4, regs)
  {
    Powers();
    var q := 8 / Pow2(8 - s);
    assert 0 < q <= 8;
    assert Window(8, 0, s) == q && Window(8, 0, 4) == 0;
    SmallMasked(q, regs);
    SmallMasked(0, regs);
  }

  /** The multicast message to the PF: the count in word 0 and thirty hash slots. */
  datatype McMessage = McMessage(count: nat, overflow: bool, hashes: seq<nat>)

  /** The first `i` slots hold the hashes of the first `i` addresses. */
  ghost predicate FirstHashes(regs: nat, list: seq<Byte>, hashes: seq<nat>, i: nat)
    requires TableSize(regs) && 6 * i <= |list| && i <= |hashes|
  {
    forall j :: 0 <= j < i ==> hashes[j] == Hash(regs, 0, Listed(list, j))
  }

  lemma HashAdded(regs: nat, list: seq<Byte>, hashes: seq<nat>, i: nat, h: nat)
    requires TableSize(regs) && 6 * i + 6 <= |list| && i < |hashes| && FirstHashes(regs, list, hashes, i)
    requires h == Hash(regs, 0, Listed(list, i))
    ensures FirstHashes(regs, list, hashes[i := h % 0x1000], i + 1) == true
  {
  }

  // e1000_update_mc_addr_list_vf: the overflow bit is set first and then overwritten with the whole word.
  method BuildMcMessage(regs: nat, list: seq<Byte>, mcAddrCount: nat) returns (m: McMessage)
    requires TableSize(regs) && 6 * mcAddrCount <= |list|
    ensures m.count == (if mcAddrCount > 30 then 30 else mcAddrCount) && |m.hashes| == 30
    ensures forall i :: 0 <= i < m.count ==> m.hashes[i] == Hash(regs, 0, Listed(list, i))
    ensures forall i :: m.count <= i < 30 ==> m.hashes[i] == 0
    ensures !m.overflow
  {
    var count := mcAddrCount;
    m := McMessage(0, false, seq(VF_HASHES, _ => 0));
    if count > VF_HASHES {
      m := m.(overflow := true);
      count := VF_HASHES;
    }
    m := m.(count := count, overflow := false);
    var at := 0;
    for i := 0 to count
      invariant at == 6 * i && m.count == count && !m.overflow && |m.hashes| == VF_HASHES
      invariant FirstHashes(regs, list, m.hashes, i) == true
      invariant forall j :: i <= j < VF_HASHES ==> m.hashes[j] == 0
    {
      TableFills(regs);
      var h := HashMcAddrVf(regs, list[at..at + 6], BaseShift(regs));
      HashAdded(regs, list, m.hashes, i, h);
      m := m.(hashes := m.hashes[i := h % 0x1000]);
      at := at + 6;
    }
  }

  /** The addresses a PF lets through that sets exactly the bits a message lists. */
  ghost predicate MessagePasses(regs: nat, m: McMessage, a: Address)
    requires TableSize(regs) && m.count <= |m.hashes|
  {
    exists i :: 0 <= i < m.count && m.hashes[i] == Hash(regs, 0, a)
  }

  /** Through the message every listed address passes iff each address beyond the thirtieth collides with
      one of the first thirty; the lost overflow bit tells the PF of none of this. */
  lemma MessageCoversListIff(regs: nat, list: seq<Byte>, count: nat, m: McMessage)
    requires TableSize(regs) && 6 * count <= |list| && |m.hashes| == 30
    requires m.count == if count > 30 then 30 else count
    requires forall i :: 0 <= i < m.count ==> m.hashes[i] == Hash(regs, 0, Listed(list, i))
    ensures (forall k :: 0 <= k < count ==> MessagePasses(regs, m, Listed(list, k)))
            <==> forall k :: 30 <= k < count ==> Hit(regs, 0, list, 30, Hash(regs, 0, Listed(list, k)))
  {
    forall k | 0 <= k < count
      ensures MessagePasses(regs, m, Listed(list, k))
              <==> k < 30 || Hit(regs, 0, list, 30, Hash(regs, 0, Listed(list, k)))
    {
      if k < m.count {
        assert m.hashes[k] == Hash(regs, 0, Listed(list, k));
      } else {
        MessageHit(regs, list, count, m, Hash(regs, 0, Listed(list, k)));
      }
    }
  }

  lemma MessageHit(regs: nat, list: seq<Byte>, count: nat, m: McMessage, h: nat)
    requires TableSize(regs) && 6 * count <= |list| && |m.hashes| == 30 && m.count == 30 <= count
    requires forall i :: 0 <= i < m.count ==> m.hashes[i] == Hash(regs, 0, Listed(list, i))
    ensures (exists i :: 0 <= i < m.count && m.hashes[i] == h) <==> Hit(regs, 0, list, 30, h)
  {
    if i :| 0 <= i < m.count && m.hashes[i] == h {
      assert Hash(regs, 0, Listed(list, i)) == h;
    }
    if k :| 0 <= k < 30 && Hash(regs, 0, Listed(list, k)) == h {
      assert m.hashes[k] == h;
    }
  }
}
