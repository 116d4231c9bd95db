/** The printed board assembly number in an EEPROM image: two words, and a block they may point at. */
module Pba {
  import opened Numbers

  const PBA_OFFSET_0: nat := 8
  const PBA_OFFSET_1: nat := 9
  const PBA_PTR_GUARD: Word := 0xFAFA

  datatype Status = Success | ParamError | SectionError

  class PbaNumber {
    var word0: Word
    var word1: Word
    var block: array?<Word>

    constructor (word0: Word, word1: Word, block: array?<Word>)
      ensures this.word0 == word0 && this.word1 == word1 && this.block == block
    {
      this.word0, this.word1, this.block := word0, word1, block;
    }
  }

  // ---- specification ----------------------------------------------------------------------------

  /** A PBA as values; the block counts if word 0 is the guard. */
  datatype Value = Value(word0: Word, word1: Word, block: seq<Word>)

  function WithWords(image: seq<Word>, w0: Word, w1: Word): seq<Word>
    requires |image| > 9
  {
    image[8 := w0][9 := w1]
  }

  /** The image after writing `v`, whose first block word is its length. */
  function Written(image: seq<Word>, v: Value): (r: seq<Word>)
    requires |image| > 9
    requires v.word0 == 0xFAFA ==> |v.block| > 0 && v.block[0] <= |v.block| && v.word1 + v.block[0] < |image|
    ensures |r| == |image|
  {
    var words := WithWords(image, v.word0, v.word1);
    if v.word0 == 0xFAFA then Store(words, v.word1, v.block[..v.block[0]]) else words
  }

  /** The length of the block an image describes, 0 for the legacy format; an error if there is no block. */
  function BlockSize(image: seq<Word>): (Status, Word) {
    if |image| <= 9 then (ParamError, 0)
    else if image[8] != 0xFAFA then (Success, 0)
    else if |image| <= image[9] then (ParamError, 0)
    else
      var length := image[image[9]];
      if length == 0xFFFF || length == 0 then (SectionError, 0) else (Success, length)
  }

  /** What reading an image with room for `max` block words gives. */
  function ReadStatus(image: seq<Word>, max: nat): Status {
    var (s, size) := BlockSize(image);
    if s != Success then s
    else if image[8] != 0xFAFA then Success
    else if size > max || |image| <= image[9] + size then ParamError
    else Success
  }

  /** The words are there, and a block is inside the image with a length that is one and has room. */
  ghost predicate Readable(image: seq<Word>, max: nat) {
    && |image| > 9
    && (image[8] == 0xFAFA ==>
          && image[9] < |image|
          && var length := image[image[9]];
             length != 0 && length != 0xFFFF && length <= max && image[9] + length < |image|)
  }

  function ReadValue(image: seq<Word>, max: nat): Value
    requires ReadStatus(image, max) == Success
  {
    var (_, size) := BlockSize(image);
    var at := image[9];
    Value(image[8], at, if image[8] == 0xFAFA then image[at..at + size] else [])
  }

  /** A write can succeed: the words are inside, and a block has its length first and ends before the last
      word of the image. */
  predicate Writable(size: nat, v: Value) {
    && size > 9
    && (v.word0 == 0xFAFA ==> |v.block| > 0 && v.block[0] <= |v.block| && v.word1 + v.block[0] < size)
  }

  /** Storing the block leaves the two words as they are: it misses them, or repeats them in place. */
  predicate KeepsWords(v: Value)
    requires v.word0 == 0xFAFA ==> |v.block| > 0 && v.block[0] <= |v.block|
  {
    v.word0 == 0xFAFA ==>
      && (v.word1 <= 8 < v.word1 + v.block[0] ==> v.block[8 - v.word1] == v.word0)
      && (v.word1 <= 9 < v.word1 + v.block[0] ==> v.block[9 - v.word1] == v.word1)
  }

  /** Reading back a PBA that was written gives the same two words and block exactly if the block's length
      is neither 0 nor 0xFFFF and within the reader's limit, and the block does not change the words. */
  lemma RoundTripIff(image: seq<Word>, v: Value, max: nat)
    requires Writable(|image|, v)
    ensures var r := Written(image, v);
            (ReadStatus(r, max) == Success &&
             ReadValue(r, max) == Value(v.word0, v.word1,
                 if v.word0 == 0xFAFA then v.block[..v.block[0]] else []))
            <==> (KeepsWords(v) && (v.word0 == 0xFAFA ==>
                v.block[0] != 0 && v.block[0] != 0xFFFF && v.block[0] <= max))
  {
    WrittenAt(image, v, 8);
    WrittenAt(image, v, 9);
    if v.word0 == 0xFAFA && KeepsWords(v) {
      BlockStored(image, v);
    }
  }

  /** The block stands where word 1 points, its length first. */
  lemma BlockStored(image: seq<Word>, v: Value)
    requires Writable(|image|, v) && v.word0 == 0xFAFA
    ensures var r := Written(image, v);
            r[v.word1..v.word1 + v.block[0]] == v.block[..v.block[0]] && (v.block[0] > 0 ==> r[v.word1] == v.block[0])
            && (v.block[0] == 0 ==> r == WithWords(image, v.word0, v.word1))
  {
    if v.block[0] > 0 {
      WrittenAt(image, v, v.word1);
    }
  }

  /** The size query on what was written, if the block keeps the two words: 0 for the legacy format, the
      block's own first word if that can be a length, and never success with the length 0 of a block. */
  lemma SizeOfWritten(image: seq<Word>, v: Value)
    requires Writable(|image|, v) && KeepsWords(v)
    ensures v.word0 != 0xFAFA ==> BlockSize(Written(image, v)) == (Success, 0)
    ensures v.word0 == 0xFAFA ==>
              (BlockSize(Written(image, v)) == (Success, v.block[0]) <==> v.block[0] != 0 && v.block[0] != 0xFFFF)
  {
    WrittenAt(image, v, 8);
    WrittenAt(image, v, 9);
    if v.word0 == 0xFAFA {
      BlockStored(image, v);
    }
  }

  /** A write changes the two words and the words of the block, and no other. */
  lemma WrittenAt(image: seq<Word>, v: Value, k: nat)
    requires Writable(|image|, v) && k < |image|
    ensures Written(image, v)[k] ==
              if v.word0 == 0xFAFA && v.word1 <= k < v.word1 + v.block[0] then v.block[k - v.word1]
              else if k == 8 then v.word0 else if k == 9 then v.word1 else image[k]
  {
  }

  // ---- the code ---------------------------------------------------------------------------------

  lemma TakeSlice(xs: seq<Word>, size: nat, a: nat, b: nat)
    requires a <= b <= size <= |xs|
    ensures xs[..size][a..b] == xs[a..b]
  {
  }

  // memcpy of `n` words
  method CopyWords(dst: array<Word>, to: nat, src: array<Word>, from: nat, n: nat)
    requires dst != src && to + n <= dst.Length && from + n <= src.Length
    modifies dst
    ensures dst[..] == Store(old(dst[..]), to, src[from..from + n])
  {
    for i := 0 to n
      invariant dst[..] == Store(old(dst[..]), to, src[from..from + i])
    {
      assert src[from..from + i + 1] == src[from..from + i] + [src[from + i]];
      StoreNext(old(dst[..]), to, src[from..from + i], src[from + i]);
      dst[to + i] := src[from + i];
    }
  }

  // e1000_get_pba_block_size on an image
  method GetPbaBlockSize(buf: array<Word>, size: nat) returns (s: Status, length: Word)
    requires size <= buf.Length
    ensures (s, length) == BlockSize(buf[..size])
    ensures s == ParamError <==> size <= 9 || (buf[8] == 0xFAFA && size <= buf[9])
    ensures s == SectionError <==>
              size > 9 && buf[8] == 0xFAFA && buf[9] < size && (buf[buf[9]] == 0 || buf[buf[9]] == 0xFFFF)
    ensures s == Success ==> length == if buf[8] == 0xFAFA then buf[buf[9]] else 0
  {
    if size <= PBA_OFFSET_1 { return ParamError, 0; }
    var word0, word1 := buf[PBA_OFFSET_0], buf[PBA_OFFSET_1];
    length := 0;
    if word0 == PBA_PTR_GUARD {
      if size > word1 {
        length := buf[word1];
      } else {
        return ParamError, 0;
      }
      if length == 0xFFFF || length == 0 { return SectionError, 0; }
    }
    s := Success;
  }

  // e1000_read_pba_raw on an image; the caller's block has room for `max` words
  method ReadPbaRaw(buf: array<Word>, size: nat, max: nat, pba: PbaNumber?) returns (s: Status)
    requires size <= buf.Length
    requires pba != null && pba.block != null ==> max <= pba.block.Length && pba.block != buf
    modifies if pba == null then {} else if pba.block == null then {pba} else {pba, pba.block}
    ensures pba == null ==> s == ParamError
    ensures pba != null && pba.block != null ==> (s == Success <==> Readable(buf[..size], max))
    ensures pba != null ==>
              && pba.block == old(pba.block)
              && s == (if size > 9 && buf[8] == 0xFAFA && pba.block == null then ParamError
                       else ReadStatus(buf[..size], max))
              && (s == Success ==>
                    && pba.word0 == buf[8] && pba.word1 == buf[9]
                    && var v := ReadValue(buf[..size], max);
                       (pba.block != null ==> pba.block[..] == v.block + old(pba.block[..])[|v.block|..]))
  {
    if pba == null { return ParamError; }
    if size <= PBA_OFFSET_1 { return ParamError; }
    pba.word0 := buf[PBA_OFFSET_0];
    pba.word1 := buf[PBA_OFFSET_1];
    s := Success;
    if pba.word0 == PBA_PTR_GUARD {
      if pba.block == null { return ParamError; }
      var length;
      s, length := GetPbaBlockSize(buf, size);
      if s != Success { return; }
      if length > max { return ParamError; }
      if size > pba.word1 + length {
        CopyWords(pba.block, 0, buf, pba.word1, length);
        TakeSlice(buf[..], size, pba.word1, pba.word1 + length);
      } else {
        return ParamError;
      }
    }
  }

  // e1000_write_pba_raw on an image. When the block does not fit, the two words have been written already.
  method WritePbaRaw(buf: array<Word>, size: nat, pba: PbaNumber?) returns (s: Status)
    requires size <= buf.Length
    requires pba != null && pba.block != null ==>
             pba.block != buf && pba.block.Length > 0 && pba.block[0] <= pba.block.Length
    modifies buf
    ensures pba == null || size <= 9 ==> s == ParamError && buf[..] == old(buf[..])
    ensures buf[size..] == old(buf[size..])
    ensures pba != null && size > 9 && pba.word0 == 0xFAFA
              && (pba.block == null || size <= pba.word1 + pba.block[0]) ==>
              s == ParamError && buf[..size] == WithWords(old(buf[..size]), pba.word0, pba.word1)
    ensures pba != null && size > 9
              && !(pba.word0 == 0xFAFA && (pba.block == null || size <= pba.word1 + pba.block[0])) ==>
              && s == Success
              && var v := Value(pba.word0, pba.word1, if pba.block == null then [] else pba.block[..]);
                 Writable(size, v) && buf[..size] == Written(old(buf[..size]), v)
  {
    if pba == null { return ParamError; }
    if size <= PBA_OFFSET_1 { return ParamError; }
    buf[PBA_OFFSET_0] := pba.word0;
    buf[PBA_OFFSET_1] := pba.word1;
    s := Success;
    assert buf[..size] == WithWords(old(buf[..size]), pba.word0, pba.word1);
    if pba.word0 == PBA_PTR_GUARD {
      if pba.block == null { return ParamError; }
      if size > pba.word1 + pba.block[0] {
        CopyWords(buf, pba.word1, pba.block, 0, pba.block[0]);
      } else {
        return ParamError;
      }
    }
  }

  // What one caller writes another caller reads back, under the condition of RoundTripIff.
  method WriteThenRead(buf: array<Word>, size: nat, pba: PbaNumber, into: PbaNumber, max: nat)
      returns (written: Status, read: Status)
    requires size <= buf.Length && pba.block != null && into.block != null && pba != into
    requires pba.block != buf && into.block != buf && pba.block != into.block
    requires pba.block.Length > 0 && pba.block[0] <= pba.block.Length && max <= into.block.Length
    modifies buf, into, into.block
    ensures written == Success && pba.word0 == 0xFAFA && KeepsWords(Value(pba.word0, pba.word1, pba.block[..]))
              && pba.block[0] != 0 && pba.block[0] != 0xFFFF && pba.block[0] <= max ==>
              && read == Success && into.word0 == pba.word0 && into.word1 == pba.word1
              && into.block == old(into.block) && pba.block[0] <= into.block.Length
              && into.block[..pba.block[0]] == pba.block[..pba.block[0]]
  {
    ghost var v := Value(pba.word0, pba.word1, pba.block[..]);
    ghost var image := buf[..size];
    written := WritePbaRaw(buf, size, pba);
    read := ReadPbaRaw(buf, size, max, into);
    if written == Success {
      RoundTripIff(image, v, max);
    }
  }
}
