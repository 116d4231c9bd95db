/** What whole SPI instructions mean for the memory seen as 16-bit words. */
module SpiWords {
  import opened Numbers
  import opened SpiBits
  import opened SpiEeprom

  function Zeros(n: nat): seq<bool> { seq(n, _ => false) }

  /** The next `n` output bits of a chip that is not disturbed. */
  function Outs(g: Geometry, d: Eeprom, n: nat): seq<bool>
    requires d.Fits(g)
  {
    seq(n, j requires 0 <= j < n => OutBit(g, d.(bits := d.bits + Zeros(j))))
  }

  lemma OpcodeOf(op: Byte, rest: seq<bool>)
    ensures 8 <= |Msb(op, 8) + rest| && Opcode(Msb(op, 8) + rest) == op
  {
    assert (Msb(op, 8) + rest)[0..8] == Msb(op, 8);
    ValueOfMsb(op, 8);
    PowersUpTo16();
  }

  // ---- addresses --------------------------------------------------------------------------------

  /** The opcode the driver sends for an access at word `offset`. */
  function OpcodeFor(g: Geometry, base: Byte, offset: nat): (op: nat) {
    if g.addressBits == 8 && offset >= 128 then base + A8 else base
  }

  /** The word that word `k` of a write starting at `offset` really reaches: with 8 address bits the ninth
      bit is taken from `offset` alone. */
  function Mapped(g: Geometry, offset: nat, k: nat): nat {
    if g.addressBits == 8 then (offset + k) % 128 + (if offset >= 128 then 128 else 0) else offset + k
  }

  /** The range does not cross word 128 on a chip with 8 address bits. */
  predicate OneSide(g: Geometry, offset: nat, n: nat) {
    g.addressBits == 8 ==> offset >= 128 || offset + n <= 128
  }

  lemma MappedBound(g: Geometry, offset: nat, k: nat)
    requires g.Valid() && offset + k < g.wordSize
    ensures Mapped(g, offset, k) < g.wordSize
  {
  }

  lemma SmallMod(x: nat, m: nat)
    requires x < m
    ensures x % m == x
  {
  }

  lemma AddressValue(g: Geometry, offset: nat, k: nat)
    requires g.Valid() && offset + k < g.wordSize
    ensures var v := ((offset + k) * 2) % 0x1_0000;
            var field := if g.addressBits == 8 then v % 256 + (if offset >= 128 then 256 else 0) else v;
            field == 2 * Mapped(g, offset, k)
  {
    if g.addressBits == 8 {
      var v := ((offset + k) * 2) % 0x1_0000;
      assert v == 2 * (offset + k);
      assert offset + k < 128 ==> v % 256 == v && (offset + k) % 128 == offset + k;
      assert offset + k >= 128 ==> v % 256 == v - 256 && (offset + k) % 128 == offset + k - 128;
    }
  }

  lemma AddressField(g: Geometry, op: Byte, v: Word, rest: seq<bool>)
    requires g.Valid()
    ensures var bits := Msb(op, 8) + Msb(v, g.addressBits) + rest;
            && Header(g) <= |bits| && Opcode(bits) == op
            && Field(bits, 8, g.addressBits) == if g.addressBits == 8 then v % 256 else v
  {
    var address := Msb(v, g.addressBits);
    var bits := Msb(op, 8) + address + rest;
    assert bits == Msb(op, 8) + (address + rest);
    OpcodeOf(op, address + rest);
    assert bits[8..8 + g.addressBits] == address;
    ValueOfMsb(v, g.addressBits);
    PowersUpTo16();
  }

  /** The byte address in an instruction whose opcode and address fields were sent by the driver. */
  lemma AddressOf(g: Geometry, base: Byte, offset: nat, k: nat, rest: seq<bool>)
    requires g.Valid() && base < A8 && offset + k < g.wordSize
    ensures var bits := Msb(OpcodeFor(g, base, offset), 8) + Msb(((offset + k) * 2) % 0x1_0000, g.addressBits) + rest;
            && Header(g) <= |bits| && Opcode(bits) == OpcodeFor(g, base, offset)
            && Address(g, bits) == 2 * Mapped(g, offset, k)
  {
    AddressField(g, OpcodeFor(g, base, offset), ((offset + k) * 2) % 0x1_0000, rest);
    AddressValue(g, offset, k);
    MappedBound(g, offset, k);
    SmallMod(2 * Mapped(g, offset, k), 2 * g.wordSize);
  }

  // ---- reading ----------------------------------------------------------------------------------

  /** An instruction of the driver: opcode, address of word `offset + k`, then `rest`. */
  function Instruction(g: Geometry, base: Byte, offset: nat, k: nat, rest: seq<bool>): seq<bool> {
    Msb(OpcodeFor(g, base, offset), 8) + Msb(((offset + k) * 2) % 0x1_0000, g.addressBits) + rest
  }

  /** After a READ instruction for `offset` and i words of output, the next 16 bits are word offset + i,
      low byte first. */
  lemma NextWordOut(g: Geometry, d: Eeprom, offset: nat, i: nat)
    requires d.Fits(g) && !d.busy && offset + i < g.wordSize
    requires d.bits == Instruction(g, READ, offset, 0, Zeros(16 * i))
    ensures Value(Outs(g, d, 16)) == SwapBytes(WordAt(d.mem, offset + i))
  {
    var a := 2 * (offset + i);
    var outs := Outs(g, d, 16);
    var wire := Msb(d.mem[a], 8) + Msb(d.mem[a + 1], 8);
    forall j | 0 <= j < 16 ensures outs[j] == wire[j] {
      OutputBit(g, d, offset, i, j);
    }
    assert outs == wire;
    ValueOfBytes(d.mem, offset + i);
  }

  lemma SwapTwice(w: Word)
    ensures SwapBytes(SwapBytes(w)) == w
  {
    assert SwapBytes(w) / 256 == w % 256 && SwapBytes(w) % 256 == w / 256;
  }

  lemma MoreZeros(g: Geometry, offset: nat, i: nat)
    ensures Instruction(g, READ, offset, 0, Zeros(16 * i)) + Zeros(16) ==
            Instruction(g, READ, offset, 0, Zeros(16 * (i + 1)))
  {
    assert Zeros(16 * i) + Zeros(16) == Zeros(16 * (i + 1));
  }

  lemma ValueOfWord(v: Word)
    ensures Value(Msb(v / 256, 8) + Msb(v % 256, 8)) == v
  {
    MsbOfWord(v);
    ValueOfMsb(v, 16);
    PowersUpTo16();
  }

  lemma SwapOfBytes(lo: Byte, hi: Byte)
    ensures var w: nat := lo + 256 * hi; w < 0x1_0000 && SwapBytes(w) / 256 == lo && SwapBytes(w) % 256 == hi
  {
  }

  lemma ValueOfBytes(mem: seq<Byte>, w: nat)
    requires 2 * w + 1 < |mem|
    ensures Value(Msb(mem[2 * w], 8) + Msb(mem[2 * w + 1], 8)) == SwapBytes(WordAt(mem, w))
  {
    SwapOfBytes(mem[2 * w], mem[2 * w + 1]);
    ValueOfWord(SwapBytes(WordAt(mem, w)));
  }

  lemma OutputBit(g: Geometry, d: Eeprom, offset: nat, i: nat, j: nat)
    requires d.Fits(g) && !d.busy && offset + i < g.wordSize && j < 16
    requires d.bits == Instruction(g, READ, offset, 0, Zeros(16 * i))
    ensures OutBit(g, d.(bits := d.bits + Zeros(j))) == Bit(d.mem[2 * (offset + i) + j / 8], 7 - j % 8)
  {
    var e := d.(bits := d.bits + Zeros(j));
    assert e.bits == Instruction(g, READ, offset, 0, Zeros(16 * i + j));
    AddressOf(g, READ, offset, 0, Zeros(16 * i + j));
    assert Mapped(g, offset, 0) == offset;
    var k := 16 * i + j;
    assert |e.bits| - Header(g) == k;
    assert k / 8 == 2 * i + j / 8 && k % 8 == j % 8;
    SmallMod(2 * offset + k / 8, |e.mem|);
  }

  // ---- writing ----------------------------------------------------------------------------------

  /** The bits of one data word: low byte first. */
  function WireWord(w: Word): seq<bool> { Msb(w % 256, 8) + Msb(w / 256, 8) }

  lemma SwappedOut(w: Word)
    ensures Msb(SwapBytes(w), 16) == WireWord(w)
  {
    var v := SwapBytes(w);
    assert v / 256 == w % 256 && v % 256 == w / 256;
    MsbOfWord(v);
  }

  /** The bits the driver sends for a sequence of data words. */
  function WireBits(ws: seq<Word>): (bits: seq<bool>)
    ensures |bits| == 16 * |ws|
  {
    if ws == [] then [] else WireBits(ws[..|ws| - 1]) + WireWord(ws[|ws| - 1])
  }

  lemma WireBitsSnoc(ws: seq<Word>, w: Word)
    ensures WireBits(ws + [w]) == WireBits(ws) + Msb(SwapBytes(w), 16)
    ensures BytesOf(ws + [w]) == BytesOf(ws) + [w % 256, w / 256]
  {
    assert (ws + [w])[..|ws|] == ws;
    SwappedOut(w);
  }

  /** A bit string whose bits from `from` on are those of a byte holds that byte there. */
  lemma FieldOfByte(bits: seq<bool>, from: nat, b: Byte)
    requires from + 8 <= |bits| && bits[from..from + 8] == Msb(b, 8)
    ensures Field(bits, from, 8) == b
  {
    ValueOfMsb(b, 8);
    PowersUpTo16();
  }

  lemma LastWordSent(g: Geometry, short: seq<bool>, w: Word)
    requires Header(g) <= |short| && (|short| - Header(g)) % 16 == 0
    ensures var bits := short + WireWord(w);
            var k := (|short| - Header(g)) / 8;
            DataByte(g, bits, k) == w % 256 && DataByte(g, bits, k + 1) == w / 256
  {
    var bits := short + WireWord(w);
    assert bits[|short|..|short| + 8] == Msb(w % 256, 8);
    assert bits[|short| + 8..|short| + 16] == Msb(w / 256, 8);
    FieldOfByte(bits, |short|, w % 256);
    FieldOfByte(bits, |short| + 8, w / 256);
  }

  lemma EarlierByte(g: Geometry, short: seq<bool>, w: Word, k: nat)
    requires Header(g) + 8 * k + 8 <= |short|
    ensures DataByte(g, short + WireWord(w), k) == DataByte(g, short, k)
  {
    var from := Header(g) + 8 * k;
    assert (short + WireWord(w))[from..from + 8] == short[from..from + 8];
  }

  lemma DataBytesSnoc(g: Geometry, short: seq<bool>, w: Word)
    requires Header(g) <= |short| && (|short| - Header(g)) % 16 == 0
    ensures DataBytes(g, short + WireWord(w)) == DataBytes(g, short) + [w % 256, w / 256]
  {
    var bits := short + WireWord(w);
    var n := (|short| - Header(g)) / 8;
    LastWordSent(g, short, w);
    forall k | 0 <= k < n ensures DataBytes(g, bits)[k] == DataBytes(g, short)[k] {
      EarlierByte(g, short, w, k);
    }
    assert |DataBytes(g, bits)| == n + 2;
  }

  /** The chip takes from a WRITE instruction exactly the bytes of the words that were sent. */
  lemma {:induction false} SentBytes(g: Geometry, head: seq<bool>, ws: seq<Word>)
    requires |head| == Header(g)
    ensures DataBytes(g, head + WireBits(ws)) == BytesOf(ws)
  {
    if ws == [] {
    } else {
      var n := |ws| - 1;
      SentBytes(g, head, ws[..n]);
      DataBytesSnoc(g, head + WireBits(ws[..n]), ws[n]);
      assert head + WireBits(ws) == head + WireBits(ws[..n]) + WireWord(ws[n]);
    }
  }

  /** A page write one byte longer, as long as it stays in the page. */
  lemma {:induction false} ProgramSnoc(mem: seq<Byte>, base: nat, off: nat, p: nat, bytes: seq<Byte>, b: Byte)
    requires off + |bytes| < p && base + p <= |mem|
    ensures Program(mem, base, off, p, bytes + [b]) == Program(mem, base, off, p, bytes)[base + off + |bytes| := b]
    decreases |bytes|
  {
    if bytes == [] {
      assert (bytes + [b])[1..] == [];
    } else {
      assert (bytes + [b])[1..] == bytes[1..] + [b];
      ProgramSnoc(mem[base + off := bytes[0]], base, off + 1, p, bytes[1..], b);
    }
  }

  /** Words stored by a write call: word k of `data` at the word it really reaches, in order. */
  function Stored(g: Geometry, offset: nat, data: seq<Word>, ws: seq<Word>): (r: seq<Word>)
    requires g.Valid() && |ws| == g.wordSize && offset + |data| <= g.wordSize
    ensures |r| == |ws|
  {
    if data == [] then ws else
    var n := |data| - 1;
    MappedBound(g, offset, n);
    Stored(g, offset, data[..n], ws)[Mapped(g, offset, n) := data[n]]
  }

  /** Words [k, k + n) of a call reach consecutive words. */
  predicate Consecutive(g: Geometry, offset: nat, k: nat, n: nat) {
    g.addressBits == 8 ==> (offset + k) % 128 + n <= 128
  }

  lemma MappedConsecutive(g: Geometry, offset: nat, k: nat, n: nat, j: nat)
    requires Consecutive(g, offset, k, n) && j < n
    ensures Mapped(g, offset, k + j) == Mapped(g, offset, k) + j
  {
    if g.addressBits == 8 {
      assert (offset + k + j) % 128 == (offset + k) % 128 + j;
    }
  }

  /** As long as they stay in one page they do. */
  lemma InPageIsConsecutive(g: Geometry, offset: nat, k: nat, n: nat)
    requires g.Valid() && (2 * Mapped(g, offset, k)) % g.pageSize + 2 * n <= g.pageSize
    ensures Consecutive(g, offset, k, n)
  {
    if g.addressBits == 8 {
      var u := (offset + k) % 128;
      assert (2 * Mapped(g, offset, k)) % g.pageSize == (2 * u) % g.pageSize by { PageOfMapped(g, offset, k); }
      if g.pageSize == 8 {} else if g.pageSize == 32 {} else {}
    }
  }

  lemma AddMultiple(x: nat, p: nat, m: nat)
    requires p > 0
    ensures (x + p * m) % p == x % p
  {
    var q := x / p;
    assert x + p * m == p * (q + m) + x % p;
    DivUnique(x + p * m, p, q + m, x % p);
  }

  lemma PageOfMapped(g: Geometry, offset: nat, k: nat)
    requires g.Valid()
    ensures g.addressBits == 8 ==> (2 * Mapped(g, offset, k)) % g.pageSize == (2 * ((offset + k) % 128)) % g.pageSize
    ensures (2 * Mapped(g, offset, k)) % g.pageSize == ((offset + k) * 2) % g.pageSize
  {
    if g.addressBits == 8 {
      var u := (offset + k) % 128;
      var q := (offset + k) / 128;
      var m := if g.pageSize == 8 then 32 else if g.pageSize == 32 then 8 else 2;
      assert g.pageSize * m == 256;
      assert (offset + k) * 2 == 2 * u + g.pageSize * (m * q);
      AddMultiple(2 * u, g.pageSize, m * q);
      AddMultiple(2 * u, g.pageSize, m);
    }
  }

  /** The page test of the driver: after `n` words it fires exactly at the end of the page. */
  lemma PageTest(g: Geometry, offset: nat, k: nat, n: nat)
    requires g.Valid() && 1 <= n && (2 * Mapped(g, offset, k)) % g.pageSize + 2 * n <= g.pageSize
    ensures ((offset + k + n) * 2) % g.pageSize == 0 <==> (2 * Mapped(g, offset, k)) % g.pageSize + 2 * n == g.pageSize
  {
    PageOfMapped(g, offset, k);
    var x := (offset + k) * 2;
    var q := x / g.pageSize;
    var r := x % g.pageSize;
    assert (offset + k + n) * 2 == g.pageSize * q + (r + 2 * n);
    if r + 2 * n < g.pageSize {
      DivUnique((offset + k + n) * 2, g.pageSize, q, r + 2 * n);
    } else {
      DivUnique((offset + k + n) * 2, g.pageSize, q + 1, 0);
    }
  }

  lemma EvenRoom(a: nat, p: nat)
    requires a % 2 == 0 && (p == 8 || p == 32 || p == 128)
    ensures (a % p) % 2 == 0
  {
    if p == 8 {} else if p == 32 {} else {}
  }

  lemma WordStored(mem: seq<Byte>, w: nat, v: Word)
    requires |mem| % 2 == 0 && 2 * w + 1 < |mem|
    ensures Words(mem[2 * w := v % 256][2 * w + 1 := v / 256]) == Words(mem)[w := v]
  {
    var m := mem[2 * w := v % 256][2 * w + 1 := v / 256];
    forall x | 0 <= x < |mem| / 2 ensures Words(m)[x] == Words(mem)[w := v][x] {
      assert Words(m)[x] == WordAt(m, x);
    }
  }

  /** A page write one word longer, as long as it stays in the page. */
  lemma ProgramWord(mem: seq<Byte>, base: nat, off: nat, p: nat, bytes: seq<Byte>, v: Word, x: nat)
    requires off + |bytes| + 1 < p && base + p <= |mem| && |mem| % 2 == 0 && 2 * x == base + off + |bytes|
    ensures Words(Program(mem, base, off, p, bytes + [v % 256, v / 256])) ==
            Words(Program(mem, base, off, p, bytes))[x := v]
  {
    assert bytes + [v % 256, v / 256] == bytes + [v % 256] + [v / 256];
    ProgramSnoc(mem, base, off, p, bytes, v % 256);
    ProgramSnoc(mem, base, off, p, bytes + [v % 256], v / 256);
    WordStored(Program(mem, base, off, p, bytes), x, v);
  }

  lemma PageWord(mem: seq<Byte>, base: nat, off: nat, p: nat, part: seq<Word>, v: Word, x: nat)
    requires off + 2 * |part| + 1 < p && base + p <= |mem| && |mem| % 2 == 0 && 2 * x == base + off + 2 * |part|
    ensures x < |mem| / 2
    ensures Words(Program(mem, base, off, p, BytesOf(part + [v]))) ==
            Words(Program(mem, base, off, p, BytesOf(part)))[x := v]
  {
    BytesOfSnoc(part, v);
    ProgramWord(mem, base, off, p, BytesOf(part), v, x);
  }

  lemma BytesOfSnoc(ws: seq<Word>, v: Word)
    ensures BytesOf(ws + [v]) == BytesOf(ws) + [v % 256, v / 256]
  {
    assert (ws + [v])[..|ws|] == ws;
  }

  lemma StoredNext(g: Geometry, offset: nat, data: seq<Word>, m: nat, ws: seq<Word>)
    requires g.Valid() && |ws| == g.wordSize && offset + |data| <= g.wordSize && m < |data|
    ensures Mapped(g, offset, m) < g.wordSize
    ensures Stored(g, offset, data[..m + 1], ws) == Stored(g, offset, data[..m], ws)[Mapped(g, offset, m) := data[m]]
  {
    MappedBound(g, offset, m);
    assert data[..m + 1][..m] == data[..m];
  }

  /** A page write that stays in the page stores its words from word `x` on. */
  lemma {:induction false} ProgramWords(mem: seq<Byte>, base: nat, off: nat, p: nat, part: seq<Word>, x: nat)
    requires off < p && off + 2 * |part| <= p && base + p <= |mem| && |mem| % 2 == 0 && 2 * x == base + off
    ensures x + |part| <= |mem| / 2
    ensures Words(Program(mem, base, off, p, BytesOf(part))) == Store(Words(mem), x, part)
  {
    if part == [] {
    } else {
      var m := |part| - 1;
      assert part == part[..m] + [part[m]];
      ProgramWords(mem, base, off, p, part[..m], x);
      PageWord(mem, base, off, p, part[..m], part[m], x + m);
      StoreNext(Words(mem), x, part[..m], part[m]);
    }
  }

  /** Words of a call that reach consecutive words are stored as a block. */
  lemma {:induction false} StoredBlock(g: Geometry, offset: nat, data: seq<Word>, ws: seq<Word>, k: nat, n: nat)
    requires g.Valid() && |ws| == g.wordSize && offset + |data| <= g.wordSize && k + n <= |data|
    requires Consecutive(g, offset, k, n) && Mapped(g, offset, k) + n <= g.wordSize
    ensures Stored(g, offset, data[..k + n], ws) ==
            Store(Stored(g, offset, data[..k], ws), Mapped(g, offset, k), data[k..k + n])
  {
    if n == 0 {
    } else {
      StoredBlock(g, offset, data, ws, k, n - 1);
      StoredBlockNext(g, offset, data, ws, k, n - 1, Stored(g, offset, data[..k], ws), Mapped(g, offset, k));
    }
  }

  lemma StoredBlockNext(g: Geometry, offset: nat, data: seq<Word>, ws: seq<Word>, k: nat, n: nat, base: seq<Word>,
                        at: nat)
    requires g.Valid() && |ws| == g.wordSize && offset + |data| <= g.wordSize && k + n < |data|
    requires Consecutive(g, offset, k, n + 1) && at == Mapped(g, offset, k) && at + n < |base|
    requires Stored(g, offset, data[..k + n], ws) == Store(base, at, data[k..k + n])
    ensures Stored(g, offset, data[..k + n + 1], ws) == Store(base, at, data[k..k + n + 1])
  {
    StoredNext(g, offset, data, k + n, ws);
    MappedConsecutive(g, offset, k, n + 1, n);
    StoreSlice(base, at, data, k, k + n);
  }

  lemma StoreSlice(base: seq<Word>, at: nat, data: seq<Word>, k: nat, m: nat)
    requires k <= m < |data| && at + (m - k) < |base|
    ensures Store(base, at, data[k..m + 1]) == Store(base, at, data[k..m])[at + (m - k) := data[m]]
  {
    assert data[k..m + 1] == data[k..m] + [data[m]];
    StoreNext(base, at, data[k..m], data[m]);
  }

  /** A page write of the words [k, k + n) of a call, all in one page, stores them. */
  lemma PageStored(g: Geometry, mem: seq<Byte>, ws: seq<Word>, offset: nat, data: seq<Word>, k: nat, n: nat,
      base: nat, off: nat)
    requires g.Valid() && |mem| == 2 * g.wordSize && |ws| == g.wordSize && offset + |data| <= g.wordSize &&
             k + n <= |data|
    requires off < g.pageSize && off + 2 * n <= g.pageSize && base + g.pageSize <= |mem|
    requires Consecutive(g, offset, k, n) && base + off == 2 * Mapped(g, offset, k)
    requires Words(mem) == Stored(g, offset, data[..k], ws)
    ensures Words(Program(mem, base, off, g.pageSize, BytesOf(data[k..k + n]))) == Stored(g, offset, data[..k + n], ws)
  {
    ProgramWords(mem, base, off, g.pageSize, data[k..k + n], Mapped(g, offset, k));
    StoredBlock(g, offset, data, ws, k, n);
  }

  lemma SentInstruction(g: Geometry, base: Byte, offset: nat, k: nat, ws: seq<Word>)
    requires g.Valid() && base < A8 && offset + k < g.wordSize
    ensures var bits := Instruction(g, base, offset, k, WireBits(ws));
            && |bits| == Header(g) + 16 * |ws| && Opcode(bits) == OpcodeFor(g, base, offset)
            && Address(g, bits) == 2 * Mapped(g, offset, k) && DataBytes(g, bits) == BytesOf(ws)
  {
    AddressOf(g, base, offset, k, WireBits(ws));
    SentData(g, base, offset, k, ws);
  }

  lemma SentData(g: Geometry, base: Byte, offset: nat, k: nat, ws: seq<Word>)
    requires g.Valid()
    ensures var bits := Instruction(g, base, offset, k, WireBits(ws));
            |bits| == Header(g) + 16 * |ws| && DataBytes(g, bits) == BytesOf(ws)
  {
    var head := Instruction(g, base, offset, k, []);
    assert Instruction(g, base, offset, k, WireBits(ws)) == head + WireBits(ws);
    SentBytes(g, head, ws);
  }

  /** CS going up after a WRITE instruction programs the page of its address. */
  lemma WriteIsProgram(g: Geometry, d: Eeprom, offset: nat, k: nat, ws: seq<Word>, base: nat, off: nat)
    requires d.Fits(g) && !d.busy && d.wel && offset + k < g.wordSize && ws != []
    requires d.bits == Instruction(g, WRITE, offset, k, WireBits(ws))
    requires off == (2 * Mapped(g, offset, k)) % g.pageSize && base == 2 * Mapped(g, offset, k) - off
    ensures off < g.pageSize && base + g.pageSize <= |d.mem|
    ensures Execute(g, d).mem == Program(d.mem, base, off, g.pageSize, BytesOf(ws))
    ensures Execute(g, d).wraps == d.wraps + if off + 2 * |ws| > g.pageSize then 1 else 0
  {
    SentInstruction(g, WRITE, offset, k, ws);
    MappedBound(g, offset, k);
    WholePages(g);
    PageInside(2 * Mapped(g, offset, k), g.pageSize, |d.mem|);
  }

  /** What CS going up does after the driver sent words [k, k + n) of a call, all for one page. */
  lemma WriteExecuted(g: Geometry, d: Eeprom, ws: seq<Word>, offset: nat, data: seq<Word>, k: nat, n: nat)
    requires d.Fits(g) && !d.busy && d.wel && |ws| == g.wordSize && offset + |data| <= g.wordSize
    requires 0 < n && k + n <= |data| && (2 * Mapped(g, offset, k)) % g.pageSize + 2 * n <= g.pageSize
    requires d.bits == Instruction(g, WRITE, offset, k, WireBits(data[k..k + n]))
    requires Words(d.mem) == Stored(g, offset, data[..k], ws)
    ensures Words(Execute(g, d).mem) == Stored(g, offset, data[..k + n], ws)
    ensures Execute(g, d).wraps == d.wraps
  {
    var off := (2 * Mapped(g, offset, k)) % g.pageSize;
    MappedBound(g, offset, k);
    WholePages(g);
    PageInside(2 * Mapped(g, offset, k), g.pageSize, |d.mem|);
    var base := 2 * Mapped(g, offset, k) - off;
    WriteIsProgram(g, d, offset, k, data[k..k + n], base, off);
    InPageIsConsecutive(g, offset, k, n);
    PageStored(g, d.mem, ws, offset, data, k, n, base, off);
  }

  lemma ReadDoesNothing(g: Geometry, d: Eeprom, offset: nat, rest: seq<bool>)
    requires d.Fits(g) && offset < g.wordSize && d.bits == Instruction(g, READ, offset, 0, rest)
    ensures Execute(g, d) == d
  {
    AddressOf(g, READ, offset, 0, rest);
  }

  lemma WrenExecuted(g: Geometry, d: Eeprom)
    requires d.Fits(g) && !d.busy && d.bits == Msb(WREN, 8)
    ensures Execute(g, d) == d.(wel := true)
  {
    OpcodeOf(WREN, []);
    assert Msb(WREN, 8) + [] == Msb(WREN, 8);
  }

  // ---- when a write is exact --------------------------------------------------------------------

  lemma MappedOnOneSide(g: Geometry, offset: nat, n: nat, k: nat)
    requires g.Valid() && offset + n <= g.wordSize && OneSide(g, offset, n) && k < n
    ensures Mapped(g, offset, k) == offset + k
  {
  }

  /** On one side of word 128 a write does what it is meant to: exactly the words of the range change. */
  lemma {:induction false} StoredOnOneSide(g: Geometry, offset: nat, data: seq<Word>, ws: seq<Word>)
    requires g.Valid() && |ws| == g.wordSize && offset + |data| <= g.wordSize && OneSide(g, offset, |data|)
    ensures Stored(g, offset, data, ws) == Store(ws, offset, data)
  {
    if data == [] {
    } else {
      var n := |data| - 1;
      StoredOnOneSide(g, offset, data[..n], ws);
      MappedOnOneSide(g, offset, |data|, n);
      StoreSlice(ws, offset, data, 0, n);
      assert data[0..n] == data[..n] && data[0..n + 1] == data;
    }
  }

  /** A write that crosses word 128 on a chip with 8 address bits leaves the upper half alone. */
  lemma {:induction false} CrossingMissesUpperHalf(g: Geometry, offset: nat, data: seq<Word>, ws: seq<Word>)
    requires g.Valid() && |ws| == g.wordSize && offset + |data| <= g.wordSize && g.addressBits == 8 && offset < 128
    ensures forall w :: 128 <= w < |ws| ==> Stored(g, offset, data, ws)[w] == ws[w]
  {
    if data == [] {
    } else {
      CrossingMissesUpperHalf(g, offset, data[..|data| - 1], ws);
    }
  }

  /** A write of `n` words has the intended effect on every memory content and for all data exactly when
      the range stays on one side of word 128, or the chip has 16 address bits. */
  lemma WriteIsExactIff(g: Geometry, offset: nat, n: nat)
    requires g.Valid() && 0 < n && offset + n <= g.wordSize
    ensures (forall ws: seq<Word>, data: seq<Word> | |ws| == g.wordSize && |data| == n ::
               Stored(g, offset, data, ws) == Store(ws, offset, data))
            <==> OneSide(g, offset, n)
  {
    if OneSide(g, offset, n) {
      forall ws: seq<Word>, data: seq<Word> | |ws| == g.wordSize && |data| == n
        ensures Stored(g, offset, data, ws) == Store(ws, offset, data)
      {
        StoredOnOneSide(g, offset, data, ws);
      }
    } else {
      var ws: seq<Word> := seq(g.wordSize, _ => 0);
      var data: seq<Word> := seq(n, _ => 1);
      CrossingMissesUpperHalf(g, offset, data, ws);
      assert Stored(g, offset, data, ws)[offset + n - 1] == 0;
      assert Store(ws, offset, data)[offset + n - 1] == 1;
    }
  }

  /** A read of the range after the write returns the written words, under the same exact condition. */
  lemma ReadBackIff(g: Geometry, offset: nat, n: nat)
    requires g.Valid() && 0 < n && offset + n <= g.wordSize
    ensures (forall ws: seq<Word>, data: seq<Word> | |ws| == g.wordSize && |data| == n ::
               Stored(g, offset, data, ws)[offset..offset + n] == data)
            <==> OneSide(g, offset, n)
  {
    if OneSide(g, offset, n) {
      forall ws: seq<Word>, data: seq<Word> | |ws| == g.wordSize && |data| == n
        ensures Stored(g, offset, data, ws)[offset..offset + n] == data
      {
        StoredOnOneSide(g, offset, data, ws);
      }
    } else {
      var ws: seq<Word> := seq(g.wordSize, _ => 0);
      var data: seq<Word> := seq(n, _ => 1);
      CrossingMissesUpperHalf(g, offset, data, ws);
      assert Stored(g, offset, data, ws)[offset..offset + n][n - 1] == 0;
    }
  }
}
