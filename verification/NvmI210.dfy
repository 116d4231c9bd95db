/** The shadow RAM of the i210: word access through EERD and SRWR under the EEPROM lock, the checksum
    functions that already hold the lock, and the commit to flash. */
module NvmI210 {
  import opened Numbers
  import opened Checksum

  const EERD_EEWR_MAX_COUNT: nat := 512
  const ATTEMPTS: nat := 100000
  const FLUDONE_ATTEMPTS: nat := 20000

  datatype Status = Success | NvmError | LockError

  /** The two values of nvm.ops.read: e1000_read_nvm_srrd_i210, which takes the lock, and e1000_read_nvm_eerd. */
  datatype ReadOp = Srrd | Eerd

  /** SRWR as written: the address from bit 2 on, the data from bit 16 on, and the start bit. */
  function Srwr(address: nat, data: Word): nat {
    4 * (address % 0x4000) + 0x1_0000 * Carried(address, data) + 1
  }

  /** The data field of SRWR: bit 14 of an address falls on the lowest bit of the data. */
  function Carried(address: nat, data: Word): Word {
    if address >= 0x4000 && data % 2 == 0 then data + 1 else data
  }

  function AddressOf(reg: nat): nat { (reg / 4) % 0x4000 }
  function DataOf(reg: nat): nat { reg / 0x1_0000 }

  /** The register as the code packs it. */
  function Packed(address: bv32, data: bv32): bv32 { (address << 2) | (data << 16) | 1 }

  /** Its fields joined by OR are the sums of Srwr. */
  lemma SrwrIsPacked(address: bv32, data: bv32)
    requires address < 0x8000 && data < 0x1_0000
    ensures Packed(address, data) == ((address & 0x3FFF) << 2) + ((data | (address >> 14)) << 16) + 1
  {
  }

  lemma PackedData(address: bv32, data: bv32)
    requires address < 0x8000 && data < 0x1_0000
    ensures Packed(address, data) >> 16 == data | (address >> 14)
  {
    assert Packed(address, data) >> 16 == ((address << 2) >> 16) | ((data << 16) >> 16);
  }

  lemma PackedAddress(address: bv32, data: bv32)
    requires address < 0x8000 && data < 0x1_0000
    ensures (Packed(address, data) >> 2) & 0x3FFF == address & 0x3FFF
  {
    assert ((address << 2) | (data << 16) | 1) >> 2 == ((address << 2) >> 2) | ((data << 16) >> 2);
  }

  /** Address bits above the fourteenth. */
  lemma HighBit(address: bv32)
    requires address < 0x8000
    ensures if address < 0x4000 then address >> 14 == 0 && address & 0x3FFF == address else 0 | (address >> 14) == 1
  {
  }

  lemma NoBits(data: bv32)
    ensures data | 0 == data
  {
  }

  predicate Comes(address: bv32, data: bv32) {
    (Packed(address, data) >> 2) & 0x3FFF == address && Packed(address, data) >> 16 == data
  }

  /** The same in the register itself: address and data come out as meant iff the address fits the field. */
  lemma PackedIsExactIff(address: bv32)
    requires address < 0x8000
    ensures (forall data: bv32 :: data < 0x1_0000 ==> Comes(address, data)) <==> address < 0x4000
  {
    HighBit(address);
    if address < 0x4000 {
      forall data: bv32 | data < 0x1_0000 ensures Comes(address, data) {
        PackedData(address, data);
        PackedAddress(address, data);
        NoBits(data);
      }
    } else {
      PackedData(address, 0);
      assert !Comes(address, 0);
    }
  }

  lemma SrwrFields(address: nat, data: Word)
    ensures AddressOf(Srwr(address, data)) == address % 0x4000 &&
            DataOf(Srwr(address, data)) == Carried(address, data)
  {
    var q := Srwr(address, data) / 4;
    assert q == 0x4000 * Carried(address, data) + address % 0x4000;
    DivUnique(q, 0x4000, Carried(address, data), address % 0x4000);
  }

  /** The device finds every word at the address meant iff the address fits the field. */
  lemma SrwrIsExactIff(address: nat)
    requires address < 0x8000
    ensures (forall data: Word :: AddressOf(Srwr(address, data)) == address && DataOf(Srwr(address, data)) == data)
            <==> address < 0x4000
  {
    forall data: Word ensures AddressOf(Srwr(address, data)) == address % 0x4000 {
      SrwrFields(address, data);
    }
    forall data: Word ensures DataOf(Srwr(address, data)) == Carried(address, data) {
      SrwrFields(address, data);
    }
    if address >= 0x4000 {
      assert AddressOf(Srwr(address, 0)) == address % 0x4000;
    }
  }

  /** The counter of the burst loops after `n` turns. */
  function Counter(n: nat): Word { n * 512 % 0x1_0000 }

  /** The burst loops can end without an error iff there are at most 0xFE00 words. */
  lemma CounterReachesIff(words: Word)
    ensures (exists n: nat :: Counter(n) >= words) <==> words <= 0xFE00
  {
    if words <= 0xFE00 {
      assert Counter(127) == 0xFE00;
    } else {
      forall n: nat ensures Counter(n) <= 0xFE00 {
        var q := n * 512 / 0x1_0000;
        assert Counter(n) == 512 * (n - 128 * q);
      }
    }
  }

  /** A range that is not empty and inside the shadow RAM. */
  ghost predicate InRange(wordSize: nat, offset: nat, words: nat) { 1 <= words && offset + words <= wordSize }

  ghost predicate AllInTime(waits: seq<nat>) { forall i :: 0 <= i < |waits| ==> InTime(waits[i]) }

  /** The last of at most `words` words read was the first one that was not in time. */
  ghost predicate ReadStopped(waits: seq<nat>, words: nat) {
    1 <= |waits| <= words && !InTime(waits[|waits| - 1]) && AllInTime(waits[..|waits| - 1])
  }

  /** The device was done within 100000 polls. */
  ghost predicate InTime(wait: nat) { wait < 100000 }

  lemma Waited(waits: seq<nat>, w: nat, words: nat)
    requires AllInTime(waits) && |waits| < words
    ensures if InTime(w) then AllInTime(waits + [w]) else ReadStopped(waits + [w], words)
  {
    assert (waits + [w])[..|waits|] == waits;
  }

  function Min(a: nat, b: nat): nat { if a <= b then a else b }

  /** The end of the range that the bursts of a call cover. */
  function BurstEnd(offset: nat, words: nat): nat { offset + Min(words, 512) }

  /** What a burst read returns: every burst starts at `offset` again. */
  function BurstRead(image: seq<Word>, offset: nat, words: nat): (r: seq<Word>)
    requires BurstEnd(offset, words) <= |image|
    ensures |r| == words
  {
    seq(words, k requires 0 <= k < words => image[offset + k % 512])
  }

  /** What a burst write leaves. */
  function BurstWrite(image: seq<Word>, offset: nat, data: seq<Word>): (r: seq<Word>)
    requires BurstEnd(offset, |data|) <= |image|
    ensures |r| == |image|
    decreases |data|
  {
    if |data| <= 512 then Store(image, offset, data)
    else BurstWrite(Store(image, offset, data[..512]), offset, data[512..])
  }

  /** A burst read returns the range asked for, whatever the image, iff it takes a single burst. */
  lemma BurstReadIsExactIff(size: nat, offset: nat, words: nat)
    requires offset + words <= size
    ensures (forall image: seq<Word> | |image| == size ::
               BurstRead(image, offset, words) == image[offset..offset + words])
            <==> words <= 512
  {
    if words > 512 {
      var image: seq<Word> := seq(size, i => if i == offset then 1 else 0);
      assert BurstRead(image, offset, words)[512] != image[offset..offset + words][512];
    }
  }

  /** Words a full burst or more behind `offset` are never written. */
  lemma {:induction false} BurstWriteMisses(image: seq<Word>, offset: nat, data: seq<Word>, k: nat)
    requires BurstEnd(offset, |data|) <= |image| && offset + 512 <= k < |image|
    ensures BurstWrite(image, offset, data)[k] == image[k]
    decreases |data|
  {
    if |data| <= 512 {
    } else {
      BurstWriteMisses(Store(image, offset, data[..512]), offset, data[512..], k);
    }
  }

  /** A burst write stores the range, whatever data and image, iff it takes a single burst. */
  lemma BurstWriteIsExactIff(size: nat, offset: nat, words: nat)
    requires offset + words <= size
    ensures (forall image: seq<Word>, data: seq<Word> | |image| == size && |data| == words ::
               BurstWrite(image, offset, data) == Store(image, offset, data))
            <==> words <= 512
  {
    if words > 512 {
      var image: seq<Word> := seq(size, i => 0);
      var data: seq<Word> := seq(words, i => 1);
      BurstWriteMisses(image, offset, data, offset + 512);
      var k := offset + 512;
      assert BurstWrite(image, offset, data)[k] != Store(image, offset, data)[k];
    }
  }

  class I210Nvm {
    const wordSize: nat
    // the device finishes every access within the polls, and the lock can be had
    const responding: bool
    var readOp: ReadOp
    var shadow: seq<Word>
    var flash: seq<Word>
    // EERD, SRWR and EECD: the register without its done bit, and how many polls the access still takes
    var eerd: nat
    var readWait: nat
    var srwr: nat
    var writeWait: nat
    var writing: bool
    var flashWait: nat
    var committing: bool
    // the EEPROM lock as this driver holds it, and how often it was taken and given back
    var held: bool
    ghost var taken: nat
    ghost var given: nat

    ghost predicate Valid()
      reads this
    {
      && |shadow| == wordSize <= 0x8000
      && taken == given + (if held then 1 else 0)
      && (responding && committing ==> flashWait < 20000)
    }

    constructor (image: seq<Word>, responding: bool)
      requires |image| <= 0x8000
      ensures Valid() && !held && readOp == Srrd && shadow == image && wordSize == |image| &&
              this.responding == responding
    {
      wordSize, this.responding, readOp, shadow, flash := |image|, responding, Srrd, image, image;
      eerd, readWait, srwr, writeWait, writing := 0, 0, 0, 0, false;
      flashWait, committing, held, taken, given := 0, false, false, 0, 0;
    }

    // nvm.ops.acquire and nvm.ops.release. Requesting the lock while holding it is excluded.
    method Acquire() returns (ok: bool)
      requires Valid() && !held
      modifies this`held, this`taken
      ensures Valid() && held == ok && (responding ==> ok)
      ensures taken == old(taken) + (if ok then 1 else 0)
    {
      ok := *;
      ok := ok || responding;
      held := ok;
      if ok { taken := taken + 1; }
    }

    method Release()
      requires Valid() && held
      modifies this`held, this`given
      ensures Valid() && !held && given == old(given) + 1
    {
      held := false;
      given := given + 1;
    }

    // One word through EERD: start, poll, read. The device looks at fourteen bits of the address.
    // `latency` is the number of polls in which the device is not yet done.
    method ReadWord(address: nat) returns (ok: bool, v: Word, ghost latency: nat)
      requires Valid() && address < wordSize
      modifies this`eerd, this`readWait
      ensures Valid() && (ok ==> v == shadow[address % 0x4000]) && (responding ==> ok)
      ensures ok <==> latency < 100000
    {
      var wait: nat :| responding ==> wait < 100000;
      latency := wait;
      eerd, readWait := 4 * address + 1, wait;
      ok, v := false, 0;
      var i := 0;
      while i < ATTEMPTS && !ok
        invariant i <= ATTEMPTS
        invariant !ok ==> eerd == 4 * address + 1 && readWait + i == latency
        invariant ok ==> DataOf(eerd) == shadow[address % 0x4000] && latency < 100000
        decreases ATTEMPTS - i, !ok
      {
        if readWait == 0 {
          eerd := 0x1_0000 * shadow[AddressOf(eerd)] + eerd % 0x1_0000;
          ok := true;
        } else {
          readWait, i := readWait - 1, i + 1;
        }
      }
      if ok { v := DataOf(eerd); }
    }

    // e1000_read_nvm_eerd, into `data` from index `at` on. `waits` are the polls that the words took: it fails
    // on a bad range, or on the first word that took too many.
    method ReadEerd(offset: nat, words: nat, data: array<Word>, at: nat) returns (s: Status, ghost waits: seq<nat>)
      requires Valid() && at + words <= data.Length
      modifies this`eerd, this`readWait, data
      ensures Valid() && s != LockError
      ensures s == Success ==> InRange(wordSize, offset, words) && |waits| == words && AllInTime(waits)
      ensures s != Success && InRange(wordSize, offset, words) ==> ReadStopped(waits, words) == true
      ensures s == Success && offset + words <= 0x4000 ==> data[at..at + words] == shadow[offset..offset + words]
      ensures data[..at] == old(data[..at]) && data[at + words..] == old(data[at + words..])
      ensures responding && InRange(wordSize, offset, words) ==> s == Success
    {
      waits := [];
      if offset >= wordSize || words > wordSize - offset || words == 0 { return NvmError, waits; }
      s := Success;
      for i := 0 to words
        invariant Valid() && |waits| == i && AllInTime(waits) == true
        invariant offset + words <= 0x4000 ==> data[at..at + i] == shadow[offset..offset + i]
        invariant data[..at] == old(data[..at]) && data[at + words..] == old(data[at + words..])
      {
        ghost var latency;
        var ok, v;
        ok, v, latency := ReadWord(offset + i);
        Waited(waits, latency, words);
        waits := waits + [latency];
        if !ok { return NvmError, waits; }
        data[at + i] := v;
        assert shadow[offset..offset + i + 1] == shadow[offset..offset + i] + [shadow[offset + i]];
        assert data[at..at + i + 1] == data[at..at + i] + [v];
      }
    }

    // e1000_read_nvm_srrd_i210, with the 16-bit counter of its loop. Up to `patience` turns are followed;
    // `returned` tells whether the call was over by then. With more than 0xFE00 words it only ends by an error.
    method ReadSrrd(offset: nat, words: Word, data: array<Word>, patience: nat) returns (s: Status, returned: bool)
      requires Valid() && !held && words <= data.Length
      modifies this`eerd, this`readWait, this`held, this`taken, this`given, data
      ensures Valid() && !held
      ensures returned && s == Success && words > 0 ==> words <= 0xFE00 && BurstEnd(offset, words) <= wordSize
      ensures returned && s == Success && words > 0 && BurstEnd(offset, words) <= 0x4000 ==>
                data[..words] == BurstRead(shadow, offset, words)
      ensures responding && BurstEnd(offset, words) <= wordSize ==> s == Success
      ensures words <= 0xFE00 && words <= 512 * patience ==> returned
    {
      s, returned := Success, true;
      var i: Word := 0;
      var turns := 0;
      while i < words && turns < patience
        invariant turns <= patience && i % 512 == 0
        invariant words <= 0xFE00 ==> i == 512 * turns
        invariant Valid() && !held && s == Success
        invariant i > 0 ==> BurstEnd(offset, words) <= wordSize
        invariant BurstEnd(offset, words) <= 0x4000 ==>
                    forall k :: 0 <= k < i && k < words ==> data[k] == shadow[offset + k % 512]
        decreases patience - turns
      {
        var count := if (words - i) / EERD_EEWR_MAX_COUNT > 0 then EERD_EEWR_MAX_COUNT else words - i;
        var locked := Acquire();
        if !locked { return LockError, true; }
        ghost var was := data[..];
        ghost var waits;
        s, waits := ReadEerd(offset, count, data, i);
        Release();
        if s != Success { return; }
        if BurstEnd(offset, words) <= 0x4000 {
          BurstArrived(was, data[..], shadow, offset, i, count);
        }
        i, turns := (i + EERD_EEWR_MAX_COUNT) % 0x1_0000, turns + 1;
      }
      returned := i >= words;
    }

    // e1000_write_nvm_srwr. The result only tells whether the range was in bounds: `waits` are the polls that
    // the words took, and exactly those in time were written.
    method WriteSrwr(offset: nat, words: nat, data: array<Word>, at: nat) returns (s: Status, ghost waits: seq<nat>)
      requires Valid() && held && at + words <= data.Length
      modifies this`shadow, this`srwr, this`writeWait, this`writing
      ensures Valid() && s == (if InRange(wordSize, offset, words) then Success else NvmError)
      ensures s != Success ==> shadow == old(shadow)
      ensures s == Success ==> |waits| == words && (responding ==> forall i :: 0 <= i < words ==> InTime(waits[i]))
      ensures s == Success && offset + words <= 0x4000 ==>
                && (forall i :: 0 <= i < words ==>
                   shadow[offset + i] == if InTime(waits[i]) then data[at + i] else old(shadow)[offset + i])
                && (forall k :: 0 <= k < wordSize && !(offset <= k < offset + words) ==> shadow[k] == old(shadow)[k])
    {
      waits := [];
      if offset >= wordSize || words > wordSize - offset || words == 0 { return NvmError, []; }
      s := Success;
      for i := 0 to words
        invariant Valid() && s == Success && |waits| == i
        invariant responding ==> forall j :: 0 <= j < i ==> InTime(waits[j])
        invariant offset + words <= 0x4000 ==>
                    forall j :: 0 <= j < i ==>
                      shadow[offset + j] == if InTime(waits[j]) then data[at + j] else old(shadow)[offset + j]
        invariant offset + words <= 0x4000 ==>
                    forall k :: 0 <= k < wordSize && !(offset <= k < offset + i) ==> shadow[k] == old(shadow)[k]
      {
        ghost var latency;
        var done;
        done, latency := WriteWord(offset + i, data[at + i]);
        if done { s := Success; }
        waits := waits + [latency];
      }
    }

    // One word through SRWR: start, then poll until done or out of attempts. The device takes address and
    // data from the register.
    method WriteWord(address: nat, v: Word) returns (done: bool, ghost latency: nat)
      requires Valid() && held && address < wordSize
      modifies this`shadow, this`srwr, this`writeWait, this`writing
      ensures Valid() && (responding ==> done) && (done <==> latency < 100000)
      ensures shadow == if done then old(shadow)[address % 0x4000 := Carried(address, v)] else old(shadow)
    {
      var wait: nat :| responding ==> wait < 100000;
      latency := wait;
      SrwrFields(address, v);
      srwr, writeWait, writing := Srwr(address, v), wait, true;
      done := false;
      var k := 0;
      while k < ATTEMPTS && !done
        invariant k <= ATTEMPTS && Valid() && srwr == Srwr(address, v)
        invariant !done ==> writing && writeWait + k == latency && shadow == old(shadow)
        invariant done ==> shadow == old(shadow)[address % 0x4000 := Carried(address, v)] && latency < 100000
        decreases ATTEMPTS - k, !done
      {
        if writing && writeWait == 0 { shadow, writing := shadow[AddressOf(srwr) := DataOf(srwr)], false; }
        if writing { writeWait, k := writeWait - 1, k + 1; } else { done := true; }
      }
    }

    // e1000_write_nvm_srwr_i210, followed in the same way
    method WriteSrwrI210(offset: nat, words: Word, data: array<Word>, patience: nat)
        returns (s: Status, returned: bool)
      requires Valid() && !held && words <= data.Length
      modifies this`shadow, this`srwr, this`writeWait, this`writing, this`held, this`taken, this`given
      ensures Valid() && !held
      ensures responding && BurstEnd(offset, words) <= wordSize ==> s == Success
      ensures returned && s == Success ==> words <= 0xFE00
      ensures words <= 0xFE00 && words <= 512 * patience ==> returned
      ensures returned && responding && BurstEnd(offset, words) <= wordSize && BurstEnd(offset, words) <= 0x4000
                && words > 0 ==>
                shadow == BurstWrite(old(shadow), offset, data[..words])
      ensures BurstEnd(offset, words) <= 0x4000 ==>
                forall k :: 0 <= k < wordSize && !(offset <= k < BurstEnd(offset, words)) ==>
                    shadow[k] == old(shadow)[k]
    {
      s, returned := Success, true;
      var i: Word := 0;
      var turns := 0;
      ghost var end := BurstEnd(offset, words);
      ghost var exact := responding && end <= wordSize && end <= 0x4000 && words <= 0xFE00;
      while i < words && turns < patience
        invariant turns <= patience && i % 512 == 0
        invariant words <= 0xFE00 ==> i == 512 * turns
        invariant Valid() && !held && s == Success
        invariant end <= 0x4000 ==>
                    forall k :: 0 <= k < wordSize && !(offset <= k < end) ==> shadow[k] == old(shadow)[k]
        invariant exact && i < words ==>
                    BurstWrite(old(shadow), offset, data[..words]) == BurstWrite(shadow, offset, data[i..words])
        invariant exact && i >= words && words > 0 ==> shadow == BurstWrite(old(shadow), offset, data[..words])
        decreases patience - turns
      {
        var count := if (words - i) / EERD_EEWR_MAX_COUNT > 0 then EERD_EEWR_MAX_COUNT else words - i;
        var locked := Acquire();
        if !locked { return LockError, true; }
        ghost var was := shadow;
        ghost var waits;
        s, waits := WriteSrwr(offset, count, data, i);
        Release();
        if s != Success { return; }
        if exact {
          forall j | 0 <= j < count ensures shadow[offset + j] == data[i..words][j] {
            assert InTime(waits[j]);
          }
          BurstStored(was, shadow, offset, data[i..words], count);
          assert data[i..words][count..] == data[i + count..words];
        }
        i, turns := (i + EERD_EEWR_MAX_COUNT) % 0x1_0000, turns + 1;
      }
      returned := i >= words;
    }

    // hw->nvm.ops.read of one word
    method Read(i: nat) returns (s: Status, v: Word)
      requires Valid() && (readOp == Srrd <==> !held)
      modifies this`eerd, this`readWait, this`held, this`taken, this`given
      ensures Valid() && held == old(held)
      ensures s == Success ==> i < wordSize && (i < 0x4000 ==> v == shadow[i])
      ensures responding && i < wordSize ==> s == Success
    {
      var data := new Word[1](_ => 0);
      if readOp == Srrd {
        var returned;
        s, returned := ReadSrrd(i, 1, data, 1);
        assert s == Success && i < 0x4000 ==> data[..1][0] == BurstRead(shadow, i, 1)[0];
      } else {
        ghost var waits;
        s, waits := ReadEerd(i, 1, data, 0);
        assert s == Success && i < 0x4000 ==> data[0..1][0] == shadow[i..i + 1][0];
      }
      v := data[0];
    }

    // e1000_validate_nvm_checksum_generic
    method ValidateGeneric() returns (s: Status, ghost complete: bool)
      requires Valid() && (readOp == Srrd <==> !held)
      modifies this`eerd, this`readWait, this`held, this`taken, this`given
      ensures Valid() && held == old(held)
      ensures s == Success ==> complete
      ensures complete ==> 0x3F < wordSize && (s == Success <==> RegionValid(shadow, 0))
      ensures responding && 0x3F < wordSize ==> complete
    {
      var checksum: Word := 0;
      complete := false;
      for i := 0 to NVM_CHECKSUM_REG + 1
        invariant Valid() && held == old(held) && (i > 0 ==> i <= wordSize)
        invariant checksum == if i == 0 then 0 else Sum(shadow, 0, i)
      {
        var data;
        s, data := Read(i);
        if s != Success { return; }
        checksum := (checksum + data) % 0x1_0000;
      }
      complete := true;
      ValidIff(shadow, 0);
      s := if checksum != NVM_SUM then NvmError else Success;
    }

    // e1000_validate_nvm_checksum_i210
    method ValidateChecksum() returns (s: Status, ghost complete: bool)
      requires Valid() && !held
      modifies this`readOp, this`eerd, this`readWait, this`held, this`taken, this`given
      ensures Valid() && !held && readOp == old(readOp)
      ensures s == Success ==> complete
      ensures complete ==> 0x3F < wordSize && (s == Success <==> RegionValid(shadow, 0))
      ensures responding && 0x3F < wordSize ==> complete
    {
      complete := false;
      var locked := Acquire();
      if locked {
        var readOpPtr := readOp;
        readOp := Eerd;
        s, complete := ValidateGeneric();
        readOp := readOpPtr;
        Release();
      } else {
        s := LockError;
      }
    }

    // The sum of the words before the checksum, read under the lock that the caller holds.
    method SumBelow() returns (s: Status, checksum: Word)
      requires Valid() && held
      modifies this`eerd, this`readWait
      ensures Valid()
      ensures s == Success ==> 0x3F <= wordSize && checksum == Sum(shadow, 0, 0x3F)
      ensures responding && 0x3F < wordSize ==> s == Success
    {
      checksum := 0;
      var data := new Word[1](_ => 0);
      for i := 0 to NVM_CHECKSUM_REG
        invariant Valid() && i <= wordSize && checksum == Sum(shadow, 0, i)
      {
        ghost var waits;
        s, waits := ReadEerd(i, 1, data, 0);
        if s != Success { return; }
        assert data[0..1][0] == shadow[i..i + 1][0];
        checksum := (checksum + data[0]) % 0x1_0000;
      }
      s := Success;
    }

    // e1000_update_nvm_checksum_i210. Success means the shadow RAM was committed; whether it is valid
    // depends on `stored`, the device having finished the write of the checksum word in time.
    method UpdateChecksum() returns (s: Status, ghost stored: bool)
      requires Valid() && !held
      modifies this
      ensures Valid() && !held && readOp == old(readOp)
      ensures |shadow| == |old(shadow)|
      ensures stored ==> 0x3F < wordSize && shadow == Fixed(old(shadow), 0)
      ensures !stored ==> shadow == old(shadow)
      ensures s == Success ==> flash == shadow && 0x3F < wordSize
      ensures s == Success ==> (RegionValid(flash, 0) <==> stored || RegionValid(old(shadow), 0))
      ensures responding && 0x3F < wordSize ==> s == Success && stored
    {
      stored := false;
      var buffer := new Word[1](_ => 0);
      ghost var waits;
      s, waits := ReadEerd(0, 1, buffer, 0);
      if s != Success { return; }
      var locked := Acquire();
      if !locked { return LockError, false; }
      var checksum;
      s, checksum := SumBelow();
      if s != Success { Release(); return; }
      checksum := (NVM_SUM + 0x1_0000 - checksum) % 0x1_0000;
      buffer[0] := checksum;
      s, waits := WriteSrwr(NVM_CHECKSUM_REG, 1, buffer, 0);
      if s != Success { Release(); return; }
      stored := InTime(waits[0]);
      assert shadow == if stored then Fixed(old(shadow), 0) else old(shadow);
      FixIsUnique(old(shadow), 0, checksum);
      Release();
      s := UpdateFlash();
    }

    // e1000_pool_flash_update_done_i210
    method PollFlashDone() returns (s: Status)
      requires Valid()
      modifies this`flash, this`flashWait, this`committing
      ensures Valid() && (s == Success || s == NvmError) && (s == Success <==> !committing)
      ensures s == Success <==> !old(committing) || old(flashWait) < 20000
      ensures s == Success ==> flash == if old(committing) then shadow else old(flash)
      ensures responding ==> s == Success
    {
      s := NvmError;
      var i := 0;
      while i < FLUDONE_ATTEMPTS && s != Success
        invariant i <= FLUDONE_ATTEMPTS && Valid() && (s == Success || s == NvmError)
        invariant s == Success ==> !committing && flash == if old(committing) then shadow else old(flash)
        invariant s == Success ==> !old(committing) || old(flashWait) < 20000
        invariant s != Success ==> i == 0 || committing
        invariant s != Success ==> committing == old(committing) && flash == old(flash)
        invariant s != Success && committing ==> flashWait + i == old(flashWait)
        decreases FLUDONE_ATTEMPTS - i, s != Success
      {
        if committing && flashWait == 0 { flash, committing := shadow, false; }
        if !committing { s := Success; } else { flashWait, i := flashWait - 1, i + 1; }
      }
    }

    // e1000_update_flash_i210
    method UpdateFlash() returns (s: Status)
      requires Valid()
      modifies this`flash, this`flashWait, this`committing
      ensures Valid() && (s == Success ==> flash == shadow) && (responding ==> s == Success)
    {
      s := PollFlashDone();
      if s == NvmError { return; }
      StartCommit();
      s := PollFlashDone();
    }

    // Setting FLUPD in EECD, which is only done with no commit running.
    method StartCommit()
      requires Valid() && !committing
      modifies this`flashWait, this`committing
      ensures Valid() && committing
    {
      var latency: nat :| responding ==> latency < 20000;
      committing, flashWait := true, latency;
    }
  }

  /** A burst of `count` words arrived behind the `i` words already there. */
  lemma BurstArrived(was: seq<Word>, now: seq<Word>, image: seq<Word>, offset: nat, i: nat, count: nat)
    requires |was| == |now| && i + count <= |now| && offset + count <= |image| && i % 512 == 0 &&
             count <= 512
    requires now[..i] == was[..i] && now[i..i + count] == image[offset..offset + count]
    requires i > 0 ==> offset + 512 <= |image|
    requires forall k :: 0 <= k < i ==> was[k] == image[offset + k % 512]
    ensures forall k :: 0 <= k < i + count ==>
              offset + k % 512 < |image| && now[k] == image[offset + k % 512]
  {
    forall k | 0 <= k < i + count
      ensures offset + k % 512 < |image| && now[k] == image[offset + k % 512]
    {
      if k < i {
        assert now[..i][k] == was[..i][k];
      } else if k < i + 512 {
        assert now[i..i + count][k - i] == image[offset..offset + count][k - i];
      }
    }
  }

  /** A first burst of `count` words was stored. */
  lemma BurstStored(was: seq<Word>, now: seq<Word>, offset: nat, data: seq<Word>, count: nat)
    requires |was| == |now| && 0 < count == Min(|data|, 512) && offset + count <= |was|
    requires forall i :: 0 <= i < count ==> now[offset + i] == data[i]
    requires forall k :: 0 <= k < |was| && !(offset <= k < offset + count) ==> now[k] == was[k]
    ensures BurstWrite(was, offset, data) == if count == |data| then now else BurstWrite(now, offset, data[count..])
  {
    assert now == Store(was, offset, data[..count]);
    assert data[..|data|] == data;
  }

  // With a device that responds, update and then validate succeed.
  method UpdateThenValidate(nvm: I210Nvm) returns (updated: Status, validated: Status)
    requires nvm.Valid() && !nvm.held && nvm.responding && 0x3F < nvm.wordSize
    modifies nvm
    ensures updated == Success && validated == Success && nvm.flash == nvm.shadow == Fixed(old(nvm.shadow), 0)
    ensures nvm.Valid() && !nvm.held && nvm.readOp == old(nvm.readOp)
  {
    ghost var stored, complete;
    updated, stored := nvm.UpdateChecksum();
    validated, complete := nvm.ValidateChecksum();
  }
}
