/** Checksums of NVM regions: 64 words that add up to 0xBABA in sixteen bits. */
module Checksum {
  import opened Numbers

  const NVM_SUM: nat := 0xBABA
  const NVM_CHECKSUM_REG: nat := 0x3F
  const NVM_COMPATIBILITY_REG_3: nat := 3

  /** What the accumulating loops leave in their u16 after `n` words from `from` on. */
  function Sum(words: seq<Word>, from: nat, n: nat): Word
    requires from + n <= |words|
  {
    if n == 0 then 0 else (Sum(words, from, n - 1) + words[from + n - 1]) % 0x1_0000
  }

  /** The sum of `n` words from `from` on. */
  ghost function Total(words: seq<Word>, from: nat, n: nat): nat
    requires from + n <= |words|
  {
    if n == 0 then 0 else Total(words, from, n - 1) + words[from + n - 1]
  }

  /** The accumulated value is the sum in sixteen bits. */
  lemma {:induction false} SumIsTotal(words: seq<Word>, from: nat, n: nat)
    requires from + n <= |words|
    ensures Sum(words, from, n) == Total(words, from, n) % 0x1_0000
  {
    if n == 0 {
    } else {
      SumIsTotal(words, from, n - 1);
      AddedLow(Total(words, from, n - 1), words[from + n - 1]);
    }
  }

  lemma AddedLow(t: nat, w: nat)
    ensures (t % 0x1_0000 + w) % 0x1_0000 == (t + w) % 0x1_0000
  {
  }

  /** The 64 words from `offset` on add up to 0xBABA in sixteen bits. */
  ghost predicate RegionValid(words: seq<Word>, offset: nat) {
    offset + 0x3F < |words| && Total(words, offset, 0x40) % 0x1_0000 == 0xBABA
  }

  /** By what the loops accumulate. */
  lemma ValidIff(words: seq<Word>, offset: nat)
    requires offset + 0x3F < |words|
    ensures RegionValid(words, offset) <==> Sum(words, offset, 0x40) == 0xBABA
  {
    SumIsTotal(words, offset, 0x40);
  }

  /** NVM_82580_LAN_FUNC_OFFSET */
  function RegionOffset(port: nat): nat { if port != 0 then 0x40 + 0x40 * port else 0 }

  /** The regions of the four ports. */
  ghost predicate AllValid(words: seq<Word>) {
    && RegionValid(words, 0) && RegionValid(words, 0x80)
    && RegionValid(words, 0xC0) && RegionValid(words, 0x100)
  }

  lemma FourPorts(words: seq<Word>)
    ensures AllValid(words) <==> forall port :: 0 <= port < 4 ==> RegionValid(words, RegionOffset(port))
  {
    assert RegionOffset(0) == 0 && RegionOffset(1) == 0x80 && RegionOffset(2) == 0xC0 && RegionOffset(3) == 0x100;
  }

  /** Bit 15 of word 3: the image has checksums for all four ports. */
  predicate Compatible(words: seq<Word>)
    requires |words| > 3
  {
    words[3] >= 0x8000
  }

  function SetCompatible(w: Word): Word { if w >= 0x8000 then w else w + 0x8000 }

  /** The checksum word the update writes. */
  function Fix(words: seq<Word>, offset: nat): Word
    requires offset + 0x3F <= |words|
  {
    (0xBABA + 0x1_0000 - Sum(words, offset, 0x3F)) % 0x1_0000
  }

  /** `words` with the region's checksum word rewritten. */
  function Fixed(words: seq<Word>, offset: nat): seq<Word>
    requires offset + 0x3F < |words|
  {
    words[offset + 0x3F := Fix(words, offset)]
  }

  lemma {:induction false} SumFrame(a: seq<Word>, b: seq<Word>, from: nat, n: nat)
    requires from + n <= |a| && |a| == |b| && a[from..from + n] == b[from..from + n]
    ensures Sum(a, from, n) == Sum(b, from, n)
  {
    if n == 0 {
    } else {
      assert a[from..from + n - 1] == a[from..from + n][..n - 1] && b[from..from + n - 1] == b[from..from + n][..n - 1];
      assert a[from + n - 1] == a[from..from + n][n - 1] && b[from + n - 1] == b[from..from + n][n - 1];
      SumFrame(a, b, from, n - 1);
    }
  }

  lemma ShiftedSum(s: Word, w: Word, v: Word, a: Word)
    ensures ((s + v + 0x1_0000 - a) % 0x1_0000 + w) % 0x1_0000 == ((s + w) % 0x1_0000 + v + 0x1_0000 - a) % 0x1_0000
  {
  }

  lemma ReplacedLast(s: Word, w: Word, v: Word)
    ensures (s + v) % 0x1_0000 == ((s + w) % 0x1_0000 + v + 0x1_0000 - w) % 0x1_0000
  {
  }

  /** Changing one word shifts the sum by the difference. */
  lemma {:induction false} SumUpdate(words: seq<Word>, from: nat, n: nat, k: nat, v: Word)
    requires from <= k < from + n <= |words|
    ensures Sum(words[k := v], from, n) == (Sum(words, from, n) + v + 0x1_0000 - words[k]) % 0x1_0000
  {
    if k == from + n - 1 {
      SumFrame(words, words[k := v], from, n - 1);
      ReplacedLast(Sum(words, from, n - 1), words[k], v);
    } else {
      SumUpdate(words, from, n - 1, k, v);
      ShiftedSum(Sum(words, from, n - 1), words[from + n - 1], v, words[k]);
    }
  }

  /** Exactly one checksum word makes a region valid: the one the update writes. */
  lemma FixIsUnique(words: seq<Word>, offset: nat, v: Word)
    requires offset + 0x3F < |words|
    ensures RegionValid(words[offset + 0x3F := v], offset) <==> v == Fix(words, offset)
  {
    SumFrame(words, words[offset + 0x3F := v], offset, 0x3F);
    ValidIff(words[offset + 0x3F := v], offset);
  }

  /** A valid region that has one word changed is no longer valid. */
  lemma OneWordIsDetected(words: seq<Word>, offset: nat, k: nat, v: Word)
    requires RegionValid(words, offset) && offset <= k <= offset + 0x3F
    ensures RegionValid(words[k := v], offset) <==> v == words[k]
  {
    SumUpdate(words, offset, 0x40, k, v);
    ValidIff(words, offset);
    ValidIff(words[k := v], offset);
  }

  /** No two regions share a word. */
  lemma RegionsDisjoint(p: nat, q: nat, k: nat)
    requires p != q && RegionOffset(p) <= k <= RegionOffset(p) + 0x3F
    ensures !(RegionOffset(q) <= k <= RegionOffset(q) + 0x3F)
  {
  }

  /** Rewriting one region's checksum leaves the others as they were. */
  lemma FixSparesOthers(words: seq<Word>, p: nat, q: nat)
    requires p != q && RegionOffset(p) + 0x3F < |words|
    ensures RegionValid(Fixed(words, RegionOffset(p)), RegionOffset(q)) == RegionValid(words, RegionOffset(q))
  {
    RegionsDisjoint(p, q, RegionOffset(p) + 0x3F);
    if RegionOffset(q) + 0x3F < |words| {
      var o := RegionOffset(q);
      assert Fixed(words, RegionOffset(p))[o..o + 0x40] == words[o..o + 0x40];
      SumFrame(words, Fixed(words, RegionOffset(p)), o, 0x40);
      ValidIff(words, o);
      ValidIff(Fixed(words, RegionOffset(p)), o);
    }
  }

  /** `words` with the checksums of ports [0, ports) rewritten, one after the other. */
  function FixedUpTo(words: seq<Word>, ports: nat): (r: seq<Word>)
    requires ports > 0 ==> RegionOffset(ports - 1) + 0x3F < |words|
    ensures |r| == |words|
  {
    if ports == 0 then words else Fixed(FixedUpTo(words, ports - 1), RegionOffset(ports - 1))
  }

  /** It makes those ports valid and changes only their checksum words. */
  lemma {:induction false} FixedUpToValid(words: seq<Word>, ports: nat)
    requires ports > 0 ==> RegionOffset(ports - 1) + 0x3F < |words|
    ensures forall p :: 0 <= p < ports ==> RegionValid(FixedUpTo(words, ports), RegionOffset(p))
    ensures forall k :: 0 <= k < |words| && (forall p :: 0 <= p < ports ==> k != RegionOffset(p) + 0x3F)
                        ==> FixedUpTo(words, ports)[k] == words[k]
  {
    if ports == 0 {
    } else {
      var before := FixedUpTo(words, ports - 1);
      FixedUpToValid(words, ports - 1);
      FixIsUnique(before, RegionOffset(ports - 1), Fix(before, RegionOffset(ports - 1)));
      forall p | 0 <= p < ports - 1 ensures RegionValid(FixedUpTo(words, ports), RegionOffset(p)) {
        FixSparesOthers(before, ports - 1, p);
      }
    }
  }

  /** An image whose ports are valid is not changed at all. */
  lemma {:induction false} FixedUpToIdempotent(words: seq<Word>, ports: nat)
    requires ports > 0 ==> RegionOffset(ports - 1) + 0x3F < |words|
    requires forall p :: 0 <= p < ports ==> RegionValid(words, RegionOffset(p))
    ensures FixedUpTo(words, ports) == words
  {
    if ports == 0 {
    } else {
      FixedUpToIdempotent(words, ports - 1);
      var k := RegionOffset(ports - 1) + 0x3F;
      assert words[k := words[k]] == words;
      FixIsUnique(words, RegionOffset(ports - 1), words[k]);
    }
  }

  /** Setting the compatibility bit where it was clear invalidates a valid region 0, and only that one. */
  lemma CompatibleBitBreaksRegion0(words: seq<Word>)
    requires RegionValid(words, 0) && !Compatible(words)
    ensures var w := words[3 := SetCompatible(words[3])];
            !RegionValid(w, 0) &&
            forall port :: 0 < port < 4 ==>
              RegionValid(w, RegionOffset(port)) == RegionValid(words, RegionOffset(port))
  {
    var w := words[3 := SetCompatible(words[3])];
    OneWordIsDetected(words, 0, 3, w[3]);
    forall port | 0 < port < 4 ensures RegionValid(w, RegionOffset(port)) == RegionValid(words, RegionOffset(port)) {
      var o := RegionOffset(port);
      if o + 0x3F < |words| {
        assert w[o..o + 0x40] == words[o..o + 0x40];
        SumFrame(words, w, o, 0x40);
        ValidIff(words, o);
        ValidIff(w, o);
      }
    }
  }
}
