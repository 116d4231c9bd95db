/** Bytes, words and the arithmetic that several parts share. */
module Numbers {
  type Byte = b: nat | b < 256
  type Word = w: nat | w < 0x1_0000

  function Pow2(k: nat): (p: nat)
    ensures p >= 1
  {
    if k == 0 then 1 else 2 * Pow2(k - 1)
  }

  /** `data` over the words of `image` from `offset` on. */
  function Store(image: seq<Word>, offset: nat, data: seq<Word>): (r: seq<Word>)
    requires offset + |data| <= |image|
    ensures |r| == |image|
  {
    image[..offset] + data + image[offset + |data|..]
  }

  lemma StoreNext(image: seq<Word>, offset: nat, data: seq<Word>, x: Word)
    requires offset + |data| < |image|
    ensures Store(image, offset, data + [x]) == Store(image, offset, data)[offset + |data| := x]
  {
  }

  lemma MulMonotonic(p: nat, x: nat, y: nat)
    requires x <= y
    ensures p * x <= p * y
  {
  }

  lemma DivUnique(x: nat, p: nat, q: nat, r: nat)
    requires p > 0 && x == p * q + r && r < p
    ensures x / p == q && x % p == r
  {
    if x / p > q {
      MulMonotonic(p, q + 1, x / p);
    } else if x / p < q {
      MulMonotonic(p, x / p + 1, q);
    }
  }
}
