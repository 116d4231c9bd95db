/** The SPI access of the NVM by toggling the EECD register bit by bit. */
module NvmSpi {
  import opened Numbers
  import opened SpiBits
  import opened SpiEeprom
  import opened SpiWords

  const MAX_RETRY: nat := 5000

  /** `d` may have finished its write cycle since `d0`; nothing else stored in the chip differs. */
  predicate Later(d0: Eeprom, d: Eeprom) {
    d.mem == d0.mem && d.wel == d0.wel && d.wraps == d0.wraps && (d.busy ==> d0.busy)
  }

  /** The output line shows the current output bit, or the one from before a write cycle ended. */
  predicate Latched(g: Geometry, d: Eeprom)
    requires d.Fits(g)
  {
    d.dout == OutBit(g, d) || d.dout == OutBit(g, d.(busy := true))
  }

  /** The last bit of the status register is clear only if the chip is ready. */
  lemma ReadyBit(g: Geometry, d: Eeprom)
    requires d.Fits(g) && d.bits == Msb(RDSR, 8) + Zeros(7) && Latched(g, d) && !d.dout
    ensures !d.busy
  {
    OpcodeOf(RDSR, Zeros(7));
    assert Bit(Status(d.(busy := true)), 0);
  }

  /** A chip that is ready answers a status read with an even number. */
  lemma ReadyStatus(g: Geometry, d: Eeprom)
    requires d.Fits(g) && d.bits == Msb(RDSR, 8)
    ensures !d.busy ==> Value(Outs(g, d, 8)) % 2 == 0
  {
    var outs := Outs(g, d, 8);
    OpcodeOf(RDSR, Zeros(7));
    ValueParity(outs);
    assert outs[7] == OutBit(g, d.(bits := d.bits + Zeros(7)));
  }

  /** A range that is not empty and inside the chip. */
  ghost predicate InRange(wordSize: nat, offset: nat, words: nat) { 1 <= words && offset + words <= wordSize }

  /** The polls of the status register, by whether the chip was busy when they began: 5000, all in vain. */
  ghost predicate NeverReady(busy: seq<bool>) { |busy| == 5000 && forall i :: 0 <= i < |busy| ==> busy[i] }

  /** The chip, the pins as last written, and whether the driver holds the NVM lock. */
  class Nvm {
    const g: Geometry
    // the lock is granted, and a write cycle ends within 5000 status polls
    const responding: bool
    var dev: Eeprom
    var pins: Eecd
    var locked: bool

    constructor (g: Geometry, dev: Eeprom, responding: bool)
      requires dev.Fits(g)
      ensures this.g == g && this.dev == dev && this.responding == responding && Ready() && !locked
    {
      this.responding := responding;
      this.g, this.dev, pins, locked := g, dev, Eecd(false, true, false, false), false;
    }

    ghost predicate Valid()
      reads this
    {
      dev.Fits(g)
    }

    /** Deselected: an instruction can start. */
    ghost predicate Ready()
      reads this
    {
      Valid() && pins.cs
    }

    /** Listening, with the clock low, under the lock. */
    ghost predicate Listening()
      reads this
    {
      Valid() && locked && !pins.cs && !pins.sk
    }

    // The register is only written under the lock.
    method WriteEecd(v: Eecd)
      requires Valid() && locked
      modifies this`dev, this`pins
      ensures Valid() && pins == v
      ensures exists d :: Later(old(dev), d) && d == old(dev).(busy := d.busy) && dev == Drive(g, d, old(pins), v)
    {
      // A write cycle may end at any time.
      if * {
        dev := dev.(busy := false);
      }
      dev, pins := Drive(g, dev, pins, v), v;
    }

    method ReadEecd() returns (v: Eecd)
      requires Valid()
      ensures v == pins.(dout := dev.dout)
    {
      v := pins.(dout := dev.dout);
    }

    method RaiseClk(eecd: Eecd) returns (eecd': Eecd)
      requires Listening() && !eecd.cs
      modifies this`dev, this`pins
      ensures Valid() && eecd' == pins == eecd.(sk := true)
      ensures Later(old(dev), dev) && dev == old(dev).(busy := dev.busy, bits := old(dev).bits + [eecd.di])
    {
      eecd' := eecd.(sk := true);
      WriteEecd(eecd');
    }

    method LowerClk(eecd: Eecd) returns (eecd': Eecd)
      requires Valid() && locked && !pins.cs && pins.sk && !eecd.cs
      modifies this`dev, this`pins
      ensures Listening() && eecd' == pins == eecd.(sk := false)
      ensures Later(old(dev), dev) && dev.bits == old(dev).bits && Latched(g, dev)
      ensures !old(dev).busy ==> dev.dout == OutBit(g, dev)
    {
      eecd' := eecd.(sk := false);
      WriteEecd(eecd');
    }

    /** The output line is exact: no write cycle is running and the line shows the current bit. */
    ghost predicate Exact()
      reads this
    {
      Valid() && !dev.busy && dev.dout == OutBit(g, dev)
    }

    // One turn of the loop of e1000_shift_out_eec_bits.
    method PutBit(eecd: Eecd, bit: bool) returns (eecd': Eecd)
      requires Listening() && !eecd.cs && !eecd.sk
      modifies this`dev, this`pins
      ensures Listening() && !eecd'.cs && !eecd'.sk && Later(old(dev), dev) && Latched(g, dev)
      ensures dev.bits == old(dev).bits + [bit]
      ensures !old(dev).busy ==> Exact()
    {
      eecd' := eecd.(di := false);
      if bit {
        eecd' := eecd'.(di := true);
      }
      WriteEecd(eecd');
      eecd' := RaiseClk(eecd');
      eecd' := LowerClk(eecd');
    }

    // One turn of the loop of e1000_shift_in_eec_bits.
    method GetBit(eecd: Eecd) returns (eecd': Eecd, bit: bool)
      requires Listening() && !eecd.cs && !eecd.di && Latched(g, dev)
      modifies this`dev, this`pins
      ensures Listening() && !eecd'.cs && !eecd'.di && Later(old(dev), dev) && Latched(g, dev)
      ensures dev.bits == old(dev).bits + [false] && bit == old(dev).dout
      ensures !old(dev).busy ==> Exact()
    {
      eecd' := RaiseClk(eecd);
      eecd' := ReadEecd();
      eecd' := eecd'.(di := false);
      bit := eecd'.dout;
      eecd' := LowerClk(eecd');
    }

    // e1000_shift_out_eec_bits
    method ShiftOut(data: Word, count: nat)
      requires Listening() && 1 <= count <= 16
      modifies this`dev, this`pins
      ensures Listening() && Later(old(dev), dev) && Latched(g, dev)
      ensures dev.bits == old(dev).bits + Msb(data, count)
      ensures !old(dev).busy ==> Exact()
    {
      var eecd := ReadEecd();
      var mask := Pow2(count - 1);
      eecd := eecd.(dout := true);
      ghost var j := 0;
      while mask != 0
        invariant j <= count && mask == (if j < count then Pow2(count - 1 - j) else 0)
        invariant Listening() && !eecd.cs && !eecd.sk && Later(old(dev), dev)
        invariant dev.bits == old(dev).bits + Msb(data, count)[..j]
        invariant j > 0 ==> Latched(g, dev) && (!old(dev).busy ==> Exact())
        decreases count - j
      {
        MaskStep(data, count, j);
        eecd := PutBit(eecd, (data / mask) % 2 == 1);
        mask := mask / 2;
        j := j + 1;
      }
      eecd := eecd.(di := false);
      EndShift(eecd);
    }

    // The last write of e1000_shift_out_eec_bits.
    method EndShift(eecd: Eecd)
      requires Listening() && !eecd.cs && !eecd.sk && Latched(g, dev)
      modifies this`dev, this`pins
      ensures Listening() && Later(old(dev), dev) && Latched(g, dev) && dev.bits == old(dev).bits
      ensures old(Exact()) ==> Exact()
    {
      WriteEecd(eecd);
    }

    // e1000_shift_in_eec_bits. `last` is the chip when the last bit was read.
    method ShiftIn(count: nat) returns (data: Word, ghost last: Eeprom)
      requires Listening() && Latched(g, dev) && 1 <= count <= 16
      modifies this`dev, this`pins
      ensures Listening() && Later(old(dev), dev) && Latched(g, dev)
      ensures dev.bits == old(dev).bits + Zeros(count)
      ensures old(Exact()) ==> data == Value(Outs(g, old(dev), count)) && Exact()
      ensures Later(last, dev) && last.Fits(g) && Latched(g, last) && last.bits == old(dev).bits + Zeros(count - 1)
      ensures data % 2 == 1 <==> last.dout
    {
      var eecd := ReadEecd();
      eecd := eecd.(dout := false, di := false);
      var acc: nat := 0;
      ghost var got: seq<bool> := [];
      last := dev;
      var i := 0;
      while i < count
        invariant i <= count && Listening() && !eecd.cs && !eecd.di && Later(old(dev), dev) && Latched(g, dev)
        invariant dev.bits == old(dev).bits + Zeros(i)
        invariant |got| == i && acc == Value(got)
        invariant old(Exact()) ==> Exact() && got == Outs(g, old(dev), i)
        invariant Later(last, dev) && last.Fits(g) && Latched(g, last)
        invariant i > 0 ==> last.bits == old(dev).bits + Zeros(i - 1) && got[i - 1] == last.dout
      {
        last := dev;
        var bit: bool;
        eecd, bit := GetBit(eecd);
        acc := 2 * acc + if bit then 1 else 0;
        if old(Exact()) {
          NextOut(g, old(dev), last, got);
        }
        ValueSnoc(got, bit);
        ZerosSnoc(i);
        got := got + [bit];
        i := i + 1;
      }
      ValueBound(got);
      Pow2AtMost(count);
      ValueParity(got);
      data := acc;
    }

    // e1000_standby_nvm: executes the instruction sent so far and starts a new one. `was` is the chip at
    // the moment of execution.
    method Standby() returns (ghost was: Eeprom)
      requires Listening()
      modifies this`dev, this`pins
      ensures Listening() && dev.bits == []
      ensures Later(old(dev), was) && was == old(dev).(busy := was.busy) && Later(Execute(g, was), dev)
    {
      var eecd := ReadEecd();
      eecd := eecd.(cs := true);
      was := Raise(eecd);
      eecd := eecd.(cs := false);
      WriteEecd(eecd);
    }

    // CS goes up.
    method Raise(eecd: Eecd) returns (ghost was: Eeprom)
      requires Listening() && eecd.cs && !eecd.sk
      modifies this`dev, this`pins
      ensures Ready() && pins == eecd
      ensures Later(old(dev), was) && was == old(dev).(busy := was.busy) && dev == Execute(g, was)
    {
      WriteEecd(eecd);
      was :| Later(old(dev), was) && was == old(dev).(busy := was.busy) && dev == Drive(g, was, old(pins), eecd);
    }

    // e1000_stop_nvm
    method Stop() returns (ghost was: Eeprom)
      requires Listening()
      modifies this`dev, this`pins
      ensures Ready()
      ensures Later(old(dev), was) && was == old(dev).(busy := was.busy) && dev == Execute(g, was)
    {
      var eecd := ReadEecd();
      eecd := eecd.(cs := true);
      was := Raise(eecd.(sk := false));
    }

    // nvm.ops.acquire: the grant may be refused.
    method Acquire() returns (ok: bool)
      requires Ready() && !locked
      modifies this`locked
      ensures locked == ok && (responding ==> ok)
    {
      ok := *;
      ok := ok || responding;
      locked := ok;
    }

    // nvm.ops.release
    method Release() returns (ghost was: Eeprom)
      requires Listening() && locked
      modifies this
      ensures Ready() && !locked
      ensures Later(old(dev), was) && was == old(dev).(busy := was.busy) && Later(Execute(g, was), dev)
    {
      was := Stop();
      var eecd := ReadEecd();
      WriteEecd(eecd);
      locked := false;
    }

    // e1000_ready_nvm_eeprom; `busy` tells for each poll whether the chip was busy when it began.
    method ReadyNvm() returns (ok: bool, ghost busy: seq<bool>)
      requires Ready() && locked
      modifies this`dev, this`pins
      ensures Listening() && Later(old(dev), dev)
      ensures ok ==> !dev.busy && dev.bits == Msb(RDSR, 8) + Zeros(8)
      ensures !ok ==> dev.bits == [] && !responding && NeverReady(busy)
    {
      busy := [];
      var latency: nat :| responding ==> latency < 5000;
      var eecd := ReadEecd();
      WriteEecd(eecd.(cs := false, sk := false));
      var timeout := MAX_RETRY;
      while timeout != 0
        invariant Listening() && Later(old(dev), dev) && dev.bits == []
        invariant 0 <= timeout <= MAX_RETRY && (responding ==> MAX_RETRY - timeout <= latency)
        invariant |busy| == MAX_RETRY - timeout && forall i :: 0 <= i < |busy| ==> busy[i]
      {
        // the write cycle lasts `latency` polls at most
        if MAX_RETRY - timeout == latency { dev := dev.(busy := false); }
        busy := busy + [dev.busy];
        ok := PollStatus();
        if ok { return; }
        timeout := timeout - 1;
      }
      ok := false;
    }

    // One turn of the loop of e1000_ready_nvm_eeprom.
    method PollStatus() returns (ok: bool)
      requires Listening() && dev.bits == []
      modifies this`dev, this`pins
      ensures Listening() && Later(old(dev), dev) && (!old(dev).busy ==> ok)
      ensures ok ==> !dev.busy && dev.bits == Msb(RDSR, 8) + Zeros(8)
      ensures !ok ==> dev.bits == []
    {
      ShiftOut(RDSR, 8);
      assert dev.bits == Msb(RDSR, 8);
      ReadyStatus(g, dev);
      ghost var last;
      var status;
      status, last := ShiftIn(8);
      ok := status % 2 == 0;
      if ok {
        ReadyBit(g, last);
      } else {
        RdsrDoesNothing(g, dev);
        ghost var was := Standby();
        RdsrDoesNothing(g, was);
      }
    }

    // The parameter check shared by the read and write functions.
    predicate InBounds(offset: nat, words: nat) {
      offset < g.wordSize && words <= g.wordSize - offset && words != 0
    }

    // e1000_read_nvm_spi: on success the buffer holds the words of the range; the memory never changes. It
    // fails if the range is bad, the lock is not granted, or no status poll finds the chip ready.
    method ReadNvmSpi(offset: Word, words: Word, data: array<Word>)
        returns (ok: bool, ghost granted: bool, ghost busy: seq<bool>)
      requires Ready() && !locked && words <= data.Length
      modifies this, data
      ensures Ready() && !locked && dev.mem == old(dev).mem && dev.wraps == old(dev).wraps
      ensures !InRange(g.wordSize, offset, words) ==> !ok && dev == old(dev) && data[..] == old(data[..])
      ensures ok ==> InRange(g.wordSize, offset, words) && Holds(dev.mem, offset, data[..words])
      ensures data[words..] == old(data[words..])
      ensures InRange(g.wordSize, offset, words) && !ok ==> !granted || NeverReady(busy)
      ensures responding && InRange(g.wordSize, offset, words) ==> ok
    {
      granted, busy := false, [];
      if !InBounds(offset, words) { return false, granted, busy; }
      ok := Acquire();
      granted := ok;
      if !ok { return; }
      ghost var was;
      ok, busy := ReadyNvm();
      if !ok {
        was := Release();
        return;
      }
      StartRead(offset);
      ReadWords(offset, words, data);
      ReadDoesNothing(g, dev, offset, Zeros(16 * words));
      was := Release();
      WordsHeld(dev.mem, offset, data[..words]);
    }

    // The loop over the words.
    method ReadWords(offset: Word, words: Word, data: array<Word>)
      requires Listening() && Exact() && InBounds(offset, words) && words <= data.Length
      requires dev.bits == Instruction(g, READ, offset, 0, Zeros(16 * 0))
      modifies this`dev, this`pins, data
      ensures Listening() && Exact() && dev.mem == old(dev).mem && dev.wraps == old(dev).wraps
      ensures dev.bits == Instruction(g, READ, offset, 0, Zeros(16 * words))
      ensures data[..words] == Words(dev.mem)[offset..offset + words] && data[words..] == old(data[words..])
    {
      var i := 0;
      while i < words
        invariant i <= words && Listening() && Exact()
        invariant dev.mem == old(dev).mem && dev.wraps == old(dev).wraps
        invariant dev.bits == Instruction(g, READ, offset, 0, Zeros(16 * i))
        invariant data[..i] == Words(dev.mem)[offset..offset + i]
        invariant data[words..] == old(data[words..])
      {
        var word := ReadWord(offset, i);
        data[i] := word;
        i := i + 1;
      }
    }

    // The READ command: opcode and address.
    method StartRead(offset: Word)
      requires Listening() && !dev.busy && dev.bits == Msb(RDSR, 8) + Zeros(8) && offset < g.wordSize
      modifies this`dev, this`pins
      ensures Listening() && Exact() && Later(old(dev), dev)
      ensures dev.bits == Instruction(g, READ, offset, 0, Zeros(16 * 0))
    {
      RdsrDoesNothing(g, dev);
      ghost var was := Standby();
      var opcode: Word := READ;
      if g.addressBits == 8 && offset >= 128 {
        opcode := READ + A8;
      }
      ShiftOut(opcode, 8);
      ShiftOut((offset * 2) % 0x1_0000, g.addressBits);
      assert dev.bits == Instruction(g, READ, offset, 0, []);
      assert Zeros(16 * 0) == [];
    }

    // One turn of the read loop.
    method ReadWord(offset: Word, ghost i: nat) returns (word: Word)
      requires Listening() && Exact() && offset + i < g.wordSize
      requires dev.bits == Instruction(g, READ, offset, 0, Zeros(16 * i))
      modifies this`dev, this`pins
      ensures Listening() && Exact() && Later(old(dev), dev)
      ensures dev.bits == Instruction(g, READ, offset, 0, Zeros(16 * (i + 1)))
      ensures word == WordAt(dev.mem, offset + i)
    {
      NextWordOut(g, dev, offset, i);
      ghost var last;
      var wordIn;
      wordIn, last := ShiftIn(16);
      word := SwapBytes(wordIn);
      SwapTwice(WordAt(dev.mem, offset + i));
      MoreZeros(g, offset, i);
    }

    // The WREN command, then the WRITE command for word `offset + widx`: opcode and address.
    method StartWrite(offset: Word, widx: nat)
      requires Listening() && !dev.busy && dev.bits == Msb(RDSR, 8) + Zeros(8) && offset + widx < g.wordSize
      modifies this`dev, this`pins
      ensures Listening() && !dev.busy && dev.wel && dev.mem == old(dev).mem && dev.wraps == old(dev).wraps
      ensures dev.bits == Instruction(g, WRITE, offset, widx, [])
    {
      RdsrDoesNothing(g, dev);
      ghost var was := Standby();
      ShiftOut(WREN, 8);
      WrenExecuted(g, dev);
      was := Standby();
      var opcode: Word := WRITE;
      if g.addressBits == 8 && offset >= 128 {
        opcode := WRITE + A8;
      }
      ShiftOut(opcode, 8);
      ShiftOut(((offset + widx) * 2) % 0x1_0000, g.addressBits);
      assert dev.bits == Instruction(g, WRITE, offset, widx, []);
    }

    // The inner loop of e1000_write_nvm_spi: words from `widx` on, until the page or the data ends.
    // `flushed` says whether the page write was already executed.
    method SendPage(offset: Word, data: seq<Word>, widx: nat, ghost ws: seq<Word>) returns (widx': nat, flushed: bool)
      requires Listening() && !dev.busy && dev.wel
      requires |ws| == g.wordSize && widx < |data| && offset + |data| <= g.wordSize
      requires dev.bits == Instruction(g, WRITE, offset, widx, [])
      requires Words(dev.mem) == Stored(g, offset, data[..widx], ws)
      modifies this`dev, this`pins
      ensures Listening() && widx < widx' <= |data| && dev.wraps == old(dev).wraps
      ensures flushed ==> dev.bits == [] && Words(dev.mem) == Stored(g, offset, data[..widx'], ws)
      ensures !flushed ==> widx' == |data| && Pending(ws, offset, data, widx, widx')
      ensures !flushed ==> RoomInPage(offset, widx, widx' - widx)
    {
      widx', flushed := widx, false;
      EvenRoom(2 * Mapped(g, offset, widx), g.pageSize);
      assert data[widx..widx] == [];
      while widx' < |data| && !flushed
        invariant Listening() && widx <= widx' <= |data| && dev.wraps == old(dev).wraps && (flushed ==> widx < widx')
        invariant flushed ==> dev.bits == [] && Words(dev.mem) == Stored(g, offset, data[..widx'], ws)
        invariant !flushed ==> Pending(ws, offset, data, widx, widx') && RoomInPage(offset, widx, widx' - widx)
        invariant !flushed && widx' < |data| ==> RoomInPage(offset, widx, widx' - widx + 1)
      {
        flushed := SendOne(ws, offset, data, widx, widx');
        widx' := widx' + 1;
      }
    }

    // One turn of that loop: a word, then the test for the end of the page.
    method SendOne(ghost ws: seq<Word>, offset: nat, data: seq<Word>, ghost from: nat, widx: nat)
        returns (flushed: bool)
      requires Listening() && from <= widx < |data| && Pending(ws, offset, data, from, widx) &&
               RoomInPage(offset, from, widx - from + 1)
      modifies this`dev, this`pins
      ensures Listening() && dev.wraps == old(dev).wraps
      ensures flushed ==> dev.bits == [] && Words(dev.mem) == Stored(g, offset, data[..widx + 1], ws)
      ensures !flushed ==> Pending(ws, offset, data, from, widx + 1)
                             && RoomInPage(offset, from, widx + 1 - from) && RoomInPage(offset, from, widx + 2 - from)
    {
      SendWord(ws, offset, data, from, widx);
      PageTest(g, offset, from, widx + 1 - from);
      flushed := ((offset + widx + 1) * 2) % g.pageSize == 0;
      if flushed {
        FlushPage(ws, offset, data, from, widx + 1);
      } else {
        MoreRoom(offset, from, widx + 1 - from);
      }
    }

    // standby_nvm at the end of a page executes the page write.
    method FlushPage(ghost ws: seq<Word>, offset: nat, data: seq<Word>, ghost from: nat, ghost to: nat)
      requires Listening() && from < to && Pending(ws, offset, data, from, to) && RoomInPage(offset, from, to - from)
      modifies this`dev, this`pins
      ensures Listening() && dev.bits == [] && dev.wraps == old(dev).wraps
      ensures Words(dev.mem) == Stored(g, offset, data[..to], ws)
    {
      WriteExecuted(g, dev, ws, offset, data, from, to - from);
      ghost var was := Standby();
    }

    // The byte-swapped data word.
    method SendWord(ghost ws: seq<Word>, offset: nat, data: seq<Word>, ghost from: nat, widx: nat)
      requires Listening() && widx < |data| && Pending(ws, offset, data, from, widx)
      modifies this`dev, this`pins
      ensures Listening() && dev.wraps == old(dev).wraps && Pending(ws, offset, data, from, widx + 1)
    {
      var wordOut := SwapBytes(data[widx]);
      ShiftOut(wordOut, 16);
      WireBitsSnoc(data[from..widx], data[widx]);
      assert data[from..widx] + [data[widx]] == data[from..widx + 1];
    }

    /** A WRITE instruction with words [from, to) of the call has been sent and not yet executed. */
    ghost predicate Pending(ws: seq<Word>, offset: nat, data: seq<Word>, from: nat, to: nat)
      reads this
    {
      && Valid() && !dev.busy && dev.wel
      && |ws| == g.wordSize && from <= to <= |data| && offset + |data| <= g.wordSize
      && dev.bits == Instruction(g, WRITE, offset, from, WireBits(data[from..to]))
      && Words(dev.mem) == Stored(g, offset, data[..from], ws)
    }

    /** `n` words from word `offset + k` on fit in the page. */
    predicate RoomInPage(offset: nat, k: nat, n: nat) {
      g.Valid() && (2 * Mapped(g, offset, k)) % g.pageSize + 2 * n <= g.pageSize
    }

    lemma MoreRoom(offset: nat, k: nat, n: nat)
      requires RoomInPage(offset, k, n) && (2 * Mapped(g, offset, k)) % g.pageSize + 2 * n != g.pageSize
      ensures RoomInPage(offset, k, n + 1)
    {
      EvenRoom(2 * Mapped(g, offset, k), g.pageSize);
    }

    // e1000_write_nvm_spi: on success the memory is the old one with every word of the call stored where
    // it reaches, and on one side of word 128 that is the range itself; on failure a prefix of the words is
    // stored. No page write runs over its page. `granted` and `busy` are those of the last turn.
    method WriteNvmSpi(offset: Word, words: Word, data: seq<Word>)
        returns (ok: bool, ghost granted: bool, ghost busy: seq<bool>)
      requires Ready() && !locked && words == |data|
      modifies this
      ensures Ready() && !locked && dev.wraps == old(dev).wraps
      ensures !InRange(g.wordSize, offset, words) ==> !ok && dev == old(dev)
      ensures ok ==> InRange(g.wordSize, offset, words)
      ensures ok ==> Words(dev.mem) == Stored(g, offset, data, Words(old(dev).mem))
      ensures ok && (g.addressBits == 16 || offset >= 128 || offset + words <= 128) ==>
                Holds(dev.mem, offset, data) && SameOutside(old(dev).mem, dev.mem, offset, words)
      ensures InRange(g.wordSize, offset, words) && !ok ==> !granted || NeverReady(busy)
      ensures InRange(g.wordSize, offset, words) && !ok ==>
        exists n :: 0 <= n < words && Words(dev.mem) == Stored(g, offset, data[..n], Words(old(dev).mem))
      ensures responding && InRange(g.wordSize, offset, words) ==> ok
    {
      granted, busy := false, [];
      if !InBounds(offset, words) { return false, granted, busy; }
      ghost var ws := Words(dev.mem);
      var widx := 0;
      ok := false;
      assert data[..0] == [];
      while widx < words
        invariant Ready() && !locked && dev.wraps == old(dev).wraps && widx <= words
        invariant Words(dev.mem) == Stored(g, offset, data[..widx], ws)
        invariant widx != 0 ==> ok
        decreases words - widx
      {
        ok := Acquire();
        granted := ok;
        if !ok { return; }
        ghost var was;
        ok, busy := ReadyNvm();
        if !ok {
          was := Release();
          return;
        }
        StartWrite(offset, widx);
        widx := WritePage(offset, data, widx, ws);
      }
      assert data[..words] == data;
      if OneSide(g, offset, words) {
        StoredOnOneSide(g, offset, data, ws);
        WordsStored(old(dev).mem, dev.mem, offset, data);
      }
    }

    // The rest of one turn of the outer loop.
    method WritePage(offset: Word, data: seq<Word>, widx: nat, ghost ws: seq<Word>) returns (widx': nat)
      requires Listening() && !dev.busy && dev.wel && locked
      requires |ws| == g.wordSize && widx < |data| && offset + |data| <= g.wordSize
      requires dev.bits == Instruction(g, WRITE, offset, widx, [])
      requires Words(dev.mem) == Stored(g, offset, data[..widx], ws)
      modifies this
      ensures Ready() && !locked && widx < widx' <= |data| && dev.wraps == old(dev).wraps
      ensures Words(dev.mem) == Stored(g, offset, data[..widx'], ws)
    {
      var flushed;
      widx', flushed := SendPage(offset, data, widx, ws);
      if !flushed {
        WriteExecuted(g, dev, ws, offset, data, widx, widx' - widx);
      }
      ghost var was := Release();
    }
  }

  // A range is written and then read. What comes back is the part of the stored image that the range
  // covers, and hence the data themselves if the range lies on one side of word 128. By ReadBackIff no
  // other range gives every data back.
  method WriteThenRead(nvm: Nvm, offset: Word, words: Word, data: seq<Word>, into: array<Word>)
      returns (written: bool, read: bool)
    requires nvm.Ready() && !nvm.locked && words == |data| && words <= into.Length
    modifies nvm, into
    ensures nvm.Ready() && !nvm.locked && nvm.dev.wraps == old(nvm.dev).wraps
    ensures written && read ==>
              && InRange(nvm.g.wordSize, offset, words)
              && into[..words] == Stored(nvm.g, offset, data, Words(old(nvm.dev).mem))[offset..offset + words]
    ensures written && read && (nvm.g.addressBits == 16 || offset >= 128 || offset + words <= 128) ==>
              into[..words] == data
    ensures into[words..] == old(into[words..])
    ensures nvm.responding && InRange(nvm.g.wordSize, offset, words) ==> written && read
  {
    read := false;
    ghost var granted, busy;
    written, granted, busy := nvm.WriteNvmSpi(offset, words, data);
    if !written { return; }
    read, granted, busy := nvm.ReadNvmSpi(offset, words, into);
    if read {
      HeldIsSlice(nvm.dev.mem, offset, into[..words]);
      if OneSide(nvm.g, offset, words) {
        StoredOnOneSide(nvm.g, offset, data, Words(old(nvm.dev).mem));
      }
    }
  }

  /** What is held as bytes is the part of the words that the range covers. */
  lemma HeldIsSlice(mem: seq<Byte>, offset: nat, data: seq<Word>)
    requires |mem| % 2 == 0 && 2 * (offset + |data|) <= |mem| && Holds(mem, offset, data)
    ensures data == Words(mem)[offset..offset + |data|]
  {
    forall k | 0 <= k < |data| ensures data[k] == Words(mem)[offset..offset + |data|][k] {
      assert HoldsWord(mem, offset + k, data[k]) && Words(mem)[offset + k] == WordAt(mem, offset + k);
    }
  }

  lemma RdsrDoesNothing(g: Geometry, d: Eeprom)
    requires d.Fits(g) && d.bits == Msb(RDSR, 8) + Zeros(8)
    ensures Execute(g, d) == d
  {
    OpcodeOf(RDSR, Zeros(8));
  }

  lemma ValueParity(bits: seq<bool>)
    requires bits != []
    ensures Value(bits) % 2 == 1 <==> bits[|bits| - 1]
  {
  }

  lemma ZerosSnoc(n: nat)
    ensures Zeros(n + 1) == Zeros(n) + [false]
  {
  }

  /** The mask tests the next bit to send, and then moves on. */
  lemma MaskStep(data: nat, count: nat, j: nat)
    requires j < count
    ensures Msb(data, count)[..j + 1] == Msb(data, count)[..j] + [Msb(data, count)[j]]
    ensures Msb(data, count)[j] <==> (data / Pow2(count - 1 - j)) % 2 == 1
    ensures Pow2(count - 1 - j) / 2 == if j + 1 < count then Pow2(count - 1 - (j + 1)) else 0
  {
    ShrIsDiv(data, count - 1 - j);
    assert Msb(data, count)[j] == Bit(data, count - 1 - j);
  }

  lemma ValueSnoc(bits: seq<bool>, bit: bool)
    ensures Value(bits + [bit]) == 2 * Value(bits) + if bit then 1 else 0
  {
    assert (bits + [bit])[..|bits|] == bits;
  }

  /** An exact output line adds the next bit to the output so far. */
  lemma NextOut(g: Geometry, d0: Eeprom, d: Eeprom, got: seq<bool>)
    requires d0.Fits(g) && Later(d0, d) && !d0.busy && d.bits == d0.bits + Zeros(|got|) && got == Outs(g, d0, |got|)
    requires d.Fits(g) && d.dout == OutBit(g, d)
    ensures got + [d.dout] == Outs(g, d0, |got| + 1)
  {
    assert OutBit(g, d) == OutBit(g, d0.(bits := d0.bits + Zeros(|got|)));
  }

  lemma {:induction false} Pow2AtMost(n: nat)
    requires n <= 16
    ensures Pow2(n) <= 0x1_0000
  {
    PowersUpTo16();
    if n < 16 {
      Pow2Grows(n, 16);
    }
  }

  lemma {:induction false} Pow2Grows(m: nat, n: nat)
    requires m <= n
    ensures Pow2(m) <= Pow2(n)
    decreases n - m
  {
    if m < n {
      Pow2Grows(m + 1, n);
    }
  }
}
