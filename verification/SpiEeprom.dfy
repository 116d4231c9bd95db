/** The SPI EEPROM behind the EECD register, as the driver's bit-banging relies on it.

    The chip listens while CS is low. It samples DI when SK rises and presents its next output bit when
    SK falls. An instruction is the bit string clocked in since CS fell: an 8-bit opcode, then for READ
    and WRITE an address, then data. Raising CS executes it. A write goes into one page and wraps
    inside it; afterwards the chip is busy for an unknown time in which only RDSR is answered. */
module SpiEeprom {
  import opened Numbers
  import opened SpiBits

  // The instructions as the driver sends them.
  const READ: nat := 0x03
  const WRITE: nat := 0x02
  const WREN: nat := 0x06
  const RDSR: nat := 0x05
  const A8: nat := 0x08

  /** Sizes as e1000_init_nvm_params_82575 sets them: chips with 8 address bits have at most 512 bytes,
      the ninth address bit travelling in the opcode. */
  datatype Geometry = Geometry(addressBits: nat, pageSize: nat, wordSize: nat) {
    predicate Valid() {
      && (addressBits == 8 || addressBits == 16)
      && (pageSize == 8 || pageSize == 32 || pageSize == 128)
      && 64 <= wordSize <= 0x8000 && wordSize % 64 == 0
      && (addressBits == 8 ==> wordSize <= 256)
    }
  }

  /** `bits` was clocked in since CS fell, `dout` is the output line, `wraps` counts the page writes that
      ran over the end of their page. */
  datatype Eeprom = Eeprom(mem: seq<Byte>, wel: bool, busy: bool, bits: seq<bool>, dout: bool, wraps: nat) {
    predicate Fits(g: Geometry) { g.Valid() && |mem| == 2 * g.wordSize }
  }

  function Opcode(bits: seq<bool>): nat
    requires 8 <= |bits|
  {
    Field(bits, 0, 8)
  }

  predicate IsRead(g: Geometry, op: nat) { op == 0x03 || (g.addressBits == 8 && op == 0x0B) }

  predicate IsWrite(g: Geometry, op: nat) { op == 0x02 || (g.addressBits == 8 && op == 0x0A) }

  /** Length of the opcode and the address. */
  function Header(g: Geometry): nat { 8 + g.addressBits }

  /** The byte address of a READ or WRITE instruction. */
  function Address(g: Geometry, bits: seq<bool>): (a: nat)
    requires g.Valid() && Header(g) <= |bits|
    ensures a < 2 * g.wordSize
  {
    (Field(bits, 8, g.addressBits) + (if g.addressBits == 8 && Opcode(bits) >= 0x08 then 256 else 0)) % (2 * g.wordSize)
  }

  function DataByte(g: Geometry, bits: seq<bool>, k: nat): Byte
    requires Header(g) + 8 * k + 8 <= |bits|
  {
    ValueBound(bits[Header(g) + 8 * k..Header(g) + 8 * k + 8]);
    PowersUpTo16();
    Field(bits, Header(g) + 8 * k, 8)
  }

  /** The data bytes of a WRITE instruction. */
  function DataBytes(g: Geometry, bits: seq<bool>): seq<Byte>
    requires Header(g) <= |bits|
  {
    seq((|bits| - Header(g)) / 8, k requires 0 <= k < (|bits| - Header(g)) / 8 => DataByte(g, bits, k))
  }

  /** A page write into the page at `base`, from its byte `off` on, wrapping at the end of the page. */
  function Program(mem: seq<Byte>, base: nat, off: nat, pageSize: nat, bytes: seq<Byte>): (r: seq<Byte>)
    requires off < pageSize && base + pageSize <= |mem|
    ensures |r| == |mem|
    decreases |bytes|
  {
    if bytes == [] then mem
    else Program(mem[base + off := bytes[0]], base, if off + 1 == pageSize then 0 else off + 1, pageSize, bytes[1..])
  }

  lemma PageInside(a: nat, p: nat, n: nat)
    requires p > 0 && n % p == 0 && a < n
    ensures 0 <= a - a % p && a - a % p + p <= n
  {
    var q, m := a / p, n / p;
    assert a == p * q + a % p && n == p * m;
    if q + 1 > m { MulMonotonic(p, m, q); }
    MulMonotonic(p, q + 1, m);
  }

  lemma WholePages(g: Geometry)
    requires g.Valid()
    ensures (2 * g.wordSize) % g.pageSize == 0 && g.pageSize % 2 == 0
  {
    if g.pageSize == 8 {} else if g.pageSize == 32 {} else {}
  }

  /** What raising CS does. */
  function Execute(g: Geometry, d: Eeprom): (r: Eeprom)
    requires d.Fits(g)
    ensures r.Fits(g) && r.bits == d.bits
  {
    if d.busy || |d.bits| < 8 then d
    else if Opcode(d.bits) == 0x06 && |d.bits| == 8 then d.(wel := true)
    else if IsWrite(g, Opcode(d.bits)) && d.wel && Header(g) + 8 <= |d.bits| && (|d.bits| - Header(g)) % 8 == 0 then
      WholePages(g);
      var a := Address(g, d.bits);
      var bytes := DataBytes(g, d.bits);
      PageInside(a, g.pageSize, |d.mem|);
      var off := a % g.pageSize;
      d.(mem := Program(d.mem, a - off, off, g.pageSize, bytes), wel := false, busy := true,
         wraps := d.wraps + if off + |bytes| > g.pageSize then 1 else 0)
    else d
  }

  /** The status register: bit 0 is set while busy, bit 1 is the write enable latch. */
  function Status(d: Eeprom): nat { (if d.busy then 1 else 0) + (if d.wel then 2 else 0) }

  /** The output bit after the bits clocked in so far. */
  predicate OutBit(g: Geometry, d: Eeprom)
    requires d.Fits(g)
  {
    if |d.bits| < 8 then false
    else if Opcode(d.bits) == 0x05 then Bit(Status(d), 7 - (|d.bits| - 8) % 8)
    else if IsRead(g, Opcode(d.bits)) && !d.busy && Header(g) <= |d.bits| then
      var k := |d.bits| - Header(g);
      Bit(d.mem[(Address(g, d.bits) + k / 8) % |d.mem|], 7 - k % 8)
    else false
  }

  /** The pins of EECD: clock, chip select (active low), data to the chip, data from the chip. */
  datatype Eecd = Eecd(sk: bool, cs: bool, di: bool, dout: bool)

  /** What the chip does when the pins change from `p` to `v`. */
  function Drive(g: Geometry, d: Eeprom, p: Eecd, v: Eecd): (r: Eeprom)
    requires d.Fits(g)
    ensures r.Fits(g)
  {
    if v.cs then (if p.cs then d else Execute(g, d))
    else if p.cs then d.(bits := [], dout := false)
    else if v.sk && !p.sk then d.(bits := d.bits + [v.di])
    else if !v.sk && p.sk then d.(dout := OutBit(g, d))
    else d
  }

  // ---- the memory as words ----------------------------------------------------------------------

  /** Word `w` of the memory, low byte first. */
  function WordAt(mem: seq<Byte>, w: nat): Word
    requires 2 * w + 1 < |mem|
  {
    var lo: nat, hi: nat := mem[2 * w], mem[2 * w + 1];
    lo + 256 * hi
  }

  function Words(mem: seq<Byte>): (ws: seq<Word>)
    requires |mem| % 2 == 0
    ensures |ws| == |mem| / 2
  {
    seq(|mem| / 2, w requires 0 <= w < |mem| / 2 => WordAt(mem, w))
  }

  /** Word `w` of the memory is `v`: its low byte comes first. */
  ghost predicate HoldsWord(mem: seq<Byte>, w: nat, v: nat) {
    2 * w + 1 < |mem| && v == mem[2 * w] as int + 256 * mem[2 * w + 1] as int
  }

  /** The words from word `offset` on are those of `data`. */
  ghost predicate Holds(mem: seq<Byte>, offset: nat, data: seq<Word>) {
    forall k :: 0 <= k < |data| ==> HoldsWord(mem, offset + k, data[k])
  }

  /** Outside the `n` words from word `offset` on no byte differs. */
  ghost predicate SameOutside(mem: seq<Byte>, mem': seq<Byte>, offset: nat, n: nat) {
    |mem'| == |mem| && forall b :: 0 <= b < |mem| && !(2 * offset <= b < 2 * (offset + n)) ==> mem'[b] == mem[b]
  }

  lemma WordsHeld(mem: seq<Byte>, offset: nat, data: seq<Word>)
    requires |mem| % 2 == 0 && 2 * (offset + |data|) <= |mem| && Words(mem)[offset..offset + |data|] == data
    ensures Holds(mem, offset, data)
  {
    forall k | 0 <= k < |data| ensures HoldsWord(mem, offset + k, data[k]) {
      assert data[k] == Words(mem)[offset + k];
    }
  }

  /** A block stored word by word, byte by byte. */
  lemma WordsStored(mem: seq<Byte>, mem': seq<Byte>, offset: nat, data: seq<Word>)
    requires |mem'| == |mem| && |mem| % 2 == 0 && 2 * (offset + |data|) <= |mem|
    requires Words(mem') == Store(Words(mem), offset, data)
    ensures Holds(mem', offset, data) && SameOutside(mem, mem', offset, |data|)
  {
    WordsHeld(mem', offset, data);
    forall b | 0 <= b < |mem| && !(2 * offset <= b < 2 * (offset + |data|)) ensures mem'[b] == mem[b] {
      var w := b / 2;
      assert Words(mem')[w] == Words(mem)[w];
      assert WordAt(mem', w) == WordAt(mem, w);
    }
  }

  function SwapBytes(w: Word): Word { w / 256 + 256 * (w % 256) }

  /** The bytes a sequence of words is sent as. */
  function BytesOf(ws: seq<Word>): (bs: seq<Byte>)
    ensures |bs| == 2 * |ws|
  {
    if ws == [] then [] else BytesOf(ws[..|ws| - 1]) + [ws[|ws| - 1] % 256, ws[|ws| - 1] / 256]
  }
}
