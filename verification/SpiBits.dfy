/** Bit strings on the SPI line, most significant bit first, and the numbers they stand for. */
module SpiBits {
  import opened Numbers

  /** `v` shifted right by `k` places. */
  function Shr(v: nat, k: nat): nat {
    if k == 0 then v else Shr(v / 2, k - 1)
  }

  /** Bit `k` of `v`. */
  predicate Bit(v: nat, k: nat) { Shr(v, k) % 2 == 1 }

  /** The low `n` bits of `v` in the order they go over the line. */
  function Msb(v: nat, n: nat): seq<bool> { seq(n, i requires 0 <= i < n => Bit(v, n - 1 - i)) }

  /** The number a bit string stands for. */
  function Value(bits: seq<bool>): nat {
    if bits == [] then 0 else 2 * Value(bits[..|bits| - 1]) + (if bits[|bits| - 1] then 1 else 0)
  }

  /** The number that bits [from, from + n) stand for. */
  function Field(bits: seq<bool>, from: nat, n: nat): nat
    requires from + n <= |bits|
  {
    Value(bits[from..from + n])
  }

  lemma BitOfHalf(v: nat, k: nat)
    ensures Bit(v, k + 1) == Bit(v / 2, k)
  {
  }

  lemma TwiceProduct(p: nat, q: nat)
    ensures (2 * p) * q == 2 * (p * q)
  {
  }

  lemma {:induction false} ShrIsDiv(v: nat, k: nat)
    ensures Shr(v, k) == v / Pow2(k)
  {
    if k == 0 {
      assert v / 1 == v;
    } else {
      ShrIsDiv(v / 2, k - 1);
      var p := Pow2(k - 1);
      var q := Shr(v / 2, k - 1);
      var r := v / 2 - p * q;
      assert q == (v / 2) / p;
      TwiceProduct(p, q);
      DivUnique(v, 2 * p, q, 2 * r + v % 2);
    }
  }

  lemma {:induction false} ShrSum(v: nat, n: nat, k: nat)
    ensures Shr(Shr(v, n), k) == Shr(v, n + k)
  {
    if n == 0 {
    } else {
      ShrSum(v / 2, n - 1, k);
    }
  }

  lemma ModDouble(v: nat, m: nat)
    requires m > 0
    ensures v % (2 * m) == 2 * ((v / 2) % m) + v % 2
  {
    var q := (v / 2) / m;
    var r := (v / 2) % m;
    assert v / 2 == m * q + r;
    assert v == 2 * (v / 2) + v % 2;
    assert v == (2 * m) * q + (2 * r + v % 2);
    DivUnique(v, 2 * m, q, 2 * r + v % 2);
  }

  /** Sending the low `n` bits of a number and reading them back gives the number modulo 2^n. */
  lemma {:induction false} ValueOfMsb(v: nat, n: nat)
    ensures Value(Msb(v, n)) == v % Pow2(n)
  {
    if n == 0 {
      assert v % 1 == 0;
    } else {
      var bits := Msb(v, n);
      forall i | 0 <= i < n - 1 ensures bits[i] == Bit(v / 2, n - 2 - i) {
        BitOfHalf(v, n - 2 - i);
        assert bits[i] == Bit(v, n - 1 - i);
      }
      assert bits[..n - 1] == Msb(v / 2, n - 1);
      ValueOfMsb(v / 2, n - 1);
      ModDouble(v, Pow2(n - 1));
      assert bits[n - 1] == Bit(v, 0);
    }
  }

  lemma {:induction false} ValueBound(bits: seq<bool>)
    ensures Value(bits) < Pow2(|bits|)
  {
    if bits == [] {
    } else {
      ValueBound(bits[..|bits| - 1]);
    }
  }

  /** A 16-bit value shifts out as its high byte followed by its low byte. */
  lemma MsbOfWord(w: Word)
    ensures Msb(w, 16) == Msb(w / 256, 8) + Msb(w % 256, 8)
  {
    PowersUpTo16();
    forall i | 0 <= i < 16 ensures Msb(w, 16)[i] == (Msb(w / 256, 8) + Msb(w % 256, 8))[i] {
      if i < 8 {
        ShrIsDiv(w, 8);
        ShrSum(w, 8, 7 - i);
      } else {
        BitOfLow(w, 8, 15 - i);
      }
    }
  }

  lemma {:induction false} BitOfLow(v: nat, n: nat, k: nat)
    requires k < n
    ensures Bit(v, k) == Bit(v % Pow2(n), k)
  {
    var w := v % Pow2(n);
    ModDouble(v, Pow2(n - 1));
    assert w / 2 == (v / 2) % Pow2(n - 1) && w % 2 == v % 2;
    if k == 0 {
    } else {
      BitOfLow(v / 2, n - 1, k - 1);
    }
  }

  lemma PowersUpTo16()
    ensures Pow2(7) == 128 && Pow2(8) == 256 && Pow2(15) == 0x8000 && Pow2(16) == 0x1_0000
  {
    assert Pow2(4) == 16;
    assert Pow2(8) == 256;
    assert Pow2(12) == 4096;
  }
}
