/** Indices of a circular buffer of `n` elements. */
module RingIndex {
  import opened Numbers

  /** NetRingAdvanceIndex, and the modular index arithmetic of the queues. */
  function Adv(i: nat, k: nat, n: nat): (r: nat)
    requires n > 0
    ensures r < n
  {
    (i + k) % n
  }

  /** NetRingIncrementIndex. */
  function Inc(i: nat, n: nat): (r: nat)
    requires n > 0
    ensures r < n
  {
    (i + 1) % n
  }

  /** Elements from `a` up to but not including `b`. */
  function Dist(a: nat, b: nat, n: nat): nat
    requires a < n && b < n
  {
    if a <= b then b - a else b + n - a
  }

  lemma ModSum(y: nat, n: nat, q: nat)
    requires n > 0
    ensures (n * q + y) % n == y % n
  {
    var q2 := y / n;
    var r2 := y % n;
    assert n * q + n * q2 == n * (q + q2);
    DivUnique(n * q + y, n, q + q2, r2);
  }

  /** Advancing by `a` and then by `b` is advancing by both. */
  lemma AdvAdv(i: nat, a: nat, b: nat, n: nat)
    requires n > 0
    ensures Adv(Adv(i, a, n), b, n) == Adv(i, a + b, n)
  {
    var q := (i + a) / n;
    var r := (i + a) % n;
    assert i + a + b == n * q + (r + b);
    ModSum(r + b, n, q);
  }

  lemma AdvNext(i: nat, k: nat, n: nat)
    requires n > 0
    ensures Inc(Adv(i, k, n), n) == Adv(i, k + 1, n)
  {
    AdvAdv(i, k, 1, n);
  }

  lemma AdvSmall(i: nat, k: nat, n: nat)
    requires i < n && k <= n
    ensures Adv(i, k, n) == if i + k < n then i + k else i + k - n
  {
    if i + k < n {
      DivUnique(i + k, n, 0, i + k);
    } else {
      DivUnique(i + k, n, 1, i + k - n);
    }
  }

  /** Different offsets below the size reach different elements. */
  lemma AdvDistinct(i: nat, a: nat, b: nat, n: nat)
    requires n > 0 && i < n && a < b < n
    ensures Adv(i, a, n) != Adv(i, b, n)
  {
    AdvSmall(i, a, n);
    AdvSmall(i, b, n);
  }

  lemma DistAdv(a: nat, k: nat, n: nat)
    requires a < n && k < n
    ensures Dist(a, Adv(a, k, n), n) == k
  {
    AdvSmall(a, k, n);
  }

  lemma AdvDist(a: nat, b: nat, n: nat)
    requires a < n && b < n
    ensures Adv(a, Dist(a, b, n), n) == b
  {
    AdvSmall(a, Dist(a, b, n), n);
  }

  /** Moving the end of a stretch forward by one. */
  lemma DistInc(a: nat, b: nat, n: nat)
    requires a < n && b < n && Dist(a, b, n) + 1 < n
    ensures Dist(a, Inc(b, n), n) == Dist(a, b, n) + 1
  {
    AdvSmall(b, 1, n);
  }

  /** Moving the start of a nonempty stretch forward by one. */
  lemma DistIncStart(a: nat, b: nat, n: nat)
    requires a < n && b < n && a != b
    ensures Dist(Inc(a, n), b, n) + 1 == Dist(a, b, n)
  {
    AdvSmall(a, 1, n);
  }
}
