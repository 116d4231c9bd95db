/** What a pass over the packet ring comes to, and whether a queue can come to a standstill. */
module TxCourse {
  import opened Numbers
  import opened RingIndex
  import opened TxDescriptors
  import opened TxRing

  /** The packets from `next` up to `end` own consecutive fragments from `frag` on; ignored packets own
      none, every other packet at least one. This is how the framework fills the rings. */
  ghost predicate Chained(packets: seq<Packet>, next: nat, end: nat, frag: nat, f: nat)
    requires next < |packets| && end < |packets| && f > 0
    decreases Dist(next, end, |packets|)
  {
    next == end ||
    (DistIncStart(next, end, |packets|);
     var p := packets[next];
     if p.ignore then Chained(packets, Inc(next, |packets|), end, frag, f)
     else
       && p.fragmentIndex == frag && 1 <= p.fragmentCount
       && Chained(packets, Inc(next, |packets|), end, Adv(frag, p.fragmentCount, f), f))
  }

  /** What one pass comes to: how many descriptors it posts, and the packet at which it stops. */
  datatype Course = Course(length: nat, stop: nat)

  /** A course after `posted` descriptors have been posted. */
  function Behind(posted: nat, c: Course): Course { Course(posted + c.length, c.stop) }

  /** The course of a pass over the packets from `next` up to `end`, having `available` slots. */
  function CourseOf(cfg: TxConfig, packets: seq<Packet>, next: nat, end: nat, available: nat): (c: Course)
    requires next < |packets| && end < |packets|
    ensures c.length <= available && c.stop < |packets|
    ensures c.stop == end || (!packets[c.stop].ignore && packets[c.stop].fragmentCount + 1 > available - c.length)
    decreases Dist(next, end, |packets|)
  {
    if next == end then Course(0, next) else
    DistIncStart(next, end, |packets|);
    var p := packets[next];
    if p.ignore then CourseOf(cfg, packets, Inc(next, |packets|), end, available)
    else if p.fragmentCount + 1 > available then Course(0, next)
    else
      var num := p.fragmentCount + Extra(cfg);
      var c := CourseOf(cfg, packets, Inc(next, |packets|), end, available - num);
      Course(num + c.length, c.stop)
  }

  /** The fragment index after the packets from `next` up to `end`. */
  function ChainEnd(packets: seq<Packet>, next: nat, end: nat, frag: nat, f: nat): (r: nat)
    requires next < |packets| && end < |packets| && f > 0 && frag < f
    ensures r < f
    decreases Dist(next, end, |packets|)
  {
    if next == end then frag else
    DistIncStart(next, end, |packets|);
    ChainEnd(packets, Inc(next, |packets|), end,
        if packets[next].ignore then frag else Adv(frag, packets[next].fragmentCount, f), f)
  }

  /** A packet placed at the end of the ring continues the chain. */
  lemma {:induction false} ChainGrows(packets: seq<Packet>, next: nat, end: nat, frag: nat, f: nat, p: Packet)
    requires next < |packets| && end < |packets| && frag < f && Dist(next, end, |packets|) + 1 < |packets|
    requires Chained(packets, next, end, frag, f)
    requires p.ignore || (p.fragmentIndex == ChainEnd(packets, next, end, frag, f) && 1 <= p.fragmentCount)
    ensures Chained(packets[end := p], next, Inc(end, |packets|), frag, f)
    decreases Dist(next, end, |packets|)
  {
    var packets' := packets[end := p];
    var end' := Inc(end, |packets|);
    AdvSmall(end, 1, |packets|);
    AdvSmall(next, 1, |packets|);
    if next == end {
      DistIncStart(next, end', |packets|);
    } else {
      DistIncStart(next, end, |packets|);
      DistInc(next, end, |packets|);
      ChainGrows(packets, Inc(next, |packets|), end,
          if packets[next].ignore then frag else Adv(frag, packets[next].fragmentCount, f), f, p);
    }
  }

  /** A pass that cannot post its first packet is over at once. */
  lemma PostsNothing(cfg: TxConfig, packets: seq<Packet>, next: nat, end: nat, available: nat)
    requires next < |packets| && end < |packets|
    requires next != end && !packets[next].ignore && packets[next].fragmentCount + 1 > available
    ensures CourseOf(cfg, packets, next, end, available) == Course(0, next)
  {
  }

  /** A pass leaves its first packet where it is exactly if that packet does not fit. */
  lemma StopsAtOnceIff(cfg: TxConfig, packets: seq<Packet>, next: nat, end: nat, available: nat)
    requires next < |packets| && end < |packets| && next != end
    ensures CourseOf(cfg, packets, next, end, available).stop == next
            <==> !packets[next].ignore && packets[next].fragmentCount + 1 > available
  {
    DistIncStart(next, end, |packets|);
    if packets[next].ignore {
      StopsAhead(cfg, packets, Inc(next, |packets|), end, available);
    } else if packets[next].fragmentCount + 1 <= available {
      StopsAhead(cfg, packets, Inc(next, |packets|), end, available - packets[next].fragmentCount - Extra(cfg));
    }
  }

  lemma {:induction false} StopsAhead(cfg: TxConfig, packets: seq<Packet>, next: nat, end: nat, available: nat)
    requires next < |packets| && end < |packets|
    ensures Dist(CourseOf(cfg, packets, next, end, available).stop, end, |packets|) <= Dist(next, end, |packets|)
    decreases Dist(next, end, |packets|)
  {
    if next == end {
    } else {
      DistIncStart(next, end, |packets|);
      if packets[next].ignore {
        StopsAhead(cfg, packets, Inc(next, |packets|), end, available);
      } else if packets[next].fragmentCount + 1 <= available {
        StopsAhead(cfg, packets, Inc(next, |packets|), end, available - packets[next].fragmentCount - Extra(cfg));
      }
    }
  }

  // ---- the loop ---------------------------------------------------------------------------------

  /** The descriptors of a whole pass fit beside those outstanding before it. */
  predicate Fits(n: nat, before: seq<Rec>, goal: Course) { Total(before) + goal.length <= n }

  /** A pass that began at slot `start` and posted `posted` descriptors is at packet `p`: what is still to be
      posted makes up the goal. */
  predicate OnCourse(cfg: TxConfig, packets: seq<Packet>, p: nat, end: nat, n: nat, start: nat, posted: nat,
                     goal: Course)
    requires p < |packets| && end < |packets|
  {
    start + posted <= n && goal == Behind(posted, CourseOf(cfg, packets, p, end, n - start - posted))
  }

  lemma CourseNext(cfg: TxConfig, packets: seq<Packet>, p: nat, end: nat, n: nat, start: nat, posted: nat,
                   posted': nat, goal: Course)
    requires p < |packets| && end < |packets| && p != end
    requires OnCourse(cfg, packets, p, end, n, start, posted, goal)
    requires posted' == posted + if packets[p].ignore then 0 else packets[p].fragmentCount + Extra(cfg)
    requires !packets[p].ignore ==> packets[p].fragmentCount + 1 <= n - start - posted
    ensures posted' <= goal.length && OnCourse(cfg, packets, Inc(p, |packets|), end, n, start, posted', goal)
  {
  }

  /** Since slot `start`, records `before` and descriptors `txd0`, a pass has written `posted` descriptors and
      is at slot `index`. If the `length` descriptors it will write fit, what was outstanding is as it was. */
  ghost predicate UnderWay(v: View, index: nat, fragments: seq<Fragment>, start: nat, before: seq<Rec>,
                           txd0: seq<Desc>, posted: nat, length: nat)
  {
    match v
    case View(_, n, txd, _, _, _, _, out) =>
      && 0 < n == |txd| && before <= out && Total(out) == Total(before) + posted
      && start + posted <= n && index == Adv(start, posted, n)
      && PassInv(v, fragments, start, |before|)
      && SameOutside(txd0, txd, start, posted)
      && (Total(before) + length <= n ==> OutInv(v))
  }

  /** The rings and indices agree when `next` stands for the packet ring's NextIndex, whatever the
      outstanding slots hold. */
  ghost predicate Sound(v: View, index: nat, next: nat, end: nat, fragments: seq<Fragment>, first: nat, frag: nat) {
    match v
    case View(_, n, txd, tcb, packets, begin, head, out) =>
      && 0 < n == |txd| && |tcb| == |packets| && head < n && n <= |fragments|
      && begin < |packets| && next < |packets| && end < |packets| && first < |fragments|
      && |out| == Dist(begin, next, |packets|) <= Dist(begin, end, |packets|)
      && index == Adv(head, Total(out), n) && frag == Adv(first, FragTotal(out), |fragments|)
      && Chained(packets, next, end, frag, |fragments|)
  }

  /** Two rings of descriptors agree outside `count` slots from `start` on. */
  predicate SameOutside(a: seq<Desc>, b: seq<Desc>, start: nat, count: nat) {
    |a| == |b| && forall s :: 0 <= s < |a| && !(start <= s < start + count) ==> b[s] == a[s]
  }

  /** A posted packet's record. */
  predicate PacketRec(cfg: TxConfig, p: Packet, r: Rec) {
    r == Rec(true, r.first, p.fragmentCount + Extra(cfg), p.fragmentCount, false)
  }

  /** How far such a pass is, or that the rings are not as it leaves them. */
  datatype Progress = Astray | Posted(count: nat)

  ghost function ProgressOf(v: View, index: nat, fragments: seq<Fragment>, start: nat, before: seq<Rec>,
                            txd0: seq<Desc>, length: nat): (g: Progress)
    ensures g.Posted? ==> UnderWay(v, index, fragments, start, before, txd0, g.count, length)
  {
    if Total(before) <= Total(v.out)
       && UnderWay(v, index, fragments, start, before, txd0, Total(v.out) - Total(before), length)
    then Posted(Total(v.out) - Total(before))
    else Astray
  }

  /** From `v` to `w` the next packet was posted as record `r`: its descriptors are in consecutive slots, the
      other slots are as they were, and so is what was outstanding if the descriptors fit beside it. */
  ghost predicate PostedAs(v: View, w: View, fragments: seq<Fragment>, r: Rec) {
    match v
    case View(cfg, n, txd, tcb, packets, begin, _, out) =>
      && |tcb| == |packets| > 0 && |fragments| > 0
      && w == v.(txd := w.txd, tcb := tcb[Adv(begin, |out|, |packets|) := Tcb(r.first, r.num)], out := out + [r])
      && PacketRec(cfg, packets[Adv(begin, |out|, |packets|)], r)
      && Carries(w.txd, cfg, fragments, r.first, packets[Adv(begin, |out|, |packets|)])
      && SameOutside(txd, w.txd, r.first, r.num)
      && (OutInv(v) && Total(out) + r.num <= n ==> OutInv(w))
  }

  /** The next packet was posted. */
  lemma PostStep(v: View, w: View, index: nat, fragments: seq<Fragment>, start: nat, before: seq<Rec>,
                 txd0: seq<Desc>, posted: nat, length: nat, r: Rec, index': nat, posted': nat)
    requires ProgressOf(v, index, fragments, start, before, txd0, length) == Posted(posted) && start < v.n
    requires PostedAs(v, w, fragments, r) == true && r.first == index && r.frags + 1 <= v.n - start - posted
    requires index' == Adv(index, r.num, v.n) && posted' == posted + r.num <= length
    ensures ProgressOf(w, index', fragments, start, before, txd0, length) == Posted(posted')
  {
    AdvSmall(start, posted, v.n);
    AdvAdv(start, posted, r.num, v.n);
    TotalSnoc(v.out, r);
    assert v.out[..|before|] == before;
    PassGrows(v, w, fragments, start, |before|, r);
  }

  /** The next packet was passed over. */
  lemma SkipStep(v: View, w: View, index: nat, fragments: seq<Fragment>, start: nat, before: seq<Rec>,
                 txd0: seq<Desc>, posted: nat, length: nat)
    requires ProgressOf(v, index, fragments, start, before, txd0, length) == Posted(posted)
    requires w == v.(out := v.out + [Rec(false, 0, 0, 0, false)]) && (OutInv(v) ==> OutInv(w))
    ensures ProgressOf(w, index, fragments, start, before, txd0, length) == Posted(posted)
  {
    var r := Rec(false, 0, 0, 0, false);
    TotalSnoc(v.out, r);
    assert v.out[..|before|] == before;
    PassGrows(v, w, fragments, start, |before|, r);
  }

  // ---- the queue as an index and the packets waiting --------------------------------------------

  /** The index of the next descriptor, and the fragment counts of the packets not yet posted. */
  datatype Cursor = Cursor(index: nat, waiting: seq<nat>)

  datatype Op = Offer(count: nat) | Pass

  const START: Cursor := Cursor(0, [])

  /** The fragment counts of the packets from `next` up to `end`; ignored packets leave no trace. */
  function Waiting(packets: seq<Packet>, next: nat, end: nat): seq<nat>
    requires next < |packets| && end < |packets|
    decreases Dist(next, end, |packets|)
  {
    if next == end then [] else
    DistIncStart(next, end, |packets|);
    (if packets[next].ignore then [] else [packets[next].fragmentCount]) + Waiting(packets, Inc(next, |packets|), end)
  }

  /** A pass with `available` slots, every packet taking `extra` beside its fragments: how many descriptors
      it posts and what is left waiting. */
  function PassOver(extra: nat, waiting: seq<nat>, available: nat): (r: (nat, seq<nat>))
    requires extra <= 1
    ensures r.0 <= available
  {
    if waiting == [] || waiting[0] + 1 > available then (0, waiting)
    else
      var (length, rest) := PassOver(extra, waiting[1..], available - waiting[0] - extra);
      (waiting[0] + extra + length, rest)
  }

  function Step(n: nat, extra: nat, c: Cursor, op: Op): (d: Cursor)
    requires c.index < n && extra <= 1
    ensures d.index < n
  {
    match op
    case Offer(count) => c.(waiting := c.waiting + [count])
    case Pass =>
      var (length, rest) := PassOver(extra, c.waiting, n - c.index);
      Cursor(Adv(c.index, length, n), rest)
  }

  function Exec(n: nat, extra: nat, c: Cursor, ops: seq<Op>): (d: Cursor)
    requires c.index < n && extra <= 1
    ensures d.index < n
    decreases |ops|
  {
    if ops == [] then c else Exec(n, extra, Step(n, extra, c, ops[0]), ops[1..])
  }

  /** The oldest packet waiting needs more slots than there are up to the ring's end. */
  predicate StuckAt(n: nat, c: Cursor)
    requires c.index < n
  {
    c.waiting != [] && c.waiting[0] + 1 > n - c.index
  }

  /** Every packet offered has at least one fragment and at most `limit`. */
  predicate Within(limit: nat, ops: seq<Op>) {
    forall i :: 0 <= i < |ops| && ops[i].Offer? ==> 1 <= ops[i].count <= limit
  }

  /** Packets within the limit can bring the index to the last slot, or are too large for an empty ring. */
  predicate CanStick(n: nat, extra: nat, limit: nat) { extra == 0 || n % 2 == 1 || limit >= 2 }

  lemma WaitingFrom(packets: seq<Packet>, next: nat, end: nat)
    requires next < |packets| && end < |packets| && next != end
    ensures var w, rest := Waiting(packets, next, end), Waiting(packets, Inc(next, |packets|), end);
            if packets[next].ignore then w == rest
            else w == [packets[next].fragmentCount] + rest && w[0] == packets[next].fragmentCount && w[1..] == rest
  {
    DistIncStart(next, end, |packets|);
    var rest := Waiting(packets, Inc(next, |packets|), end);
    assert [] + rest == rest && ([packets[next].fragmentCount] + rest)[1..] == rest;
  }

  /** The ring form of a pass and the other one agree. */
  predicate SamePass(cfg: TxConfig, packets: seq<Packet>, next: nat, end: nat, available: nat)
    requires next < |packets| && end < |packets|
  {
    var c := CourseOf(cfg, packets, next, end, available);
    PassOver(Extra(cfg), Waiting(packets, next, end), available) == (c.length, Waiting(packets, c.stop, end))
  }

  lemma {:induction false} CourseIsPass(cfg: TxConfig, packets: seq<Packet>, next: nat, end: nat, available: nat)
    requires next < |packets| && end < |packets|
    ensures SamePass(cfg, packets, next, end, available)
    decreases Dist(next, end, |packets|)
  {
    if next == end {
    } else {
      DistIncStart(next, end, |packets|);
      var p, next' := packets[next], Inc(next, |packets|);
      if p.ignore {
        CourseIsPass(cfg, packets, next', end, available);
        SameSkipped(cfg, packets, next, end, available);
      } else if p.fragmentCount + 1 <= available {
        CourseIsPass(cfg, packets, next', end, available - p.fragmentCount - Extra(cfg));
        SamePosted(cfg, packets, next, end, available);
      } else {
        WaitingFrom(packets, next, end);
        PostsNothing(cfg, packets, next, end, available);
      }
    }
  }

  lemma SameSkipped(cfg: TxConfig, packets: seq<Packet>, next: nat, end: nat, available: nat)
    requires next < |packets| && end < |packets| && next != end && packets[next].ignore
    requires SamePass(cfg, packets, Inc(next, |packets|), end, available)
    ensures SamePass(cfg, packets, next, end, available)
  {
    WaitingFrom(packets, next, end);
  }

  lemma SamePosted(cfg: TxConfig, packets: seq<Packet>, next: nat, end: nat, available: nat)
    requires next < |packets| && end < |packets| && next != end && !packets[next].ignore
    requires packets[next].fragmentCount + 1 <= available
    requires var available' := available - packets[next].fragmentCount - Extra(cfg);
             SamePass(cfg, packets, Inc(next, |packets|), end, available')
    ensures SamePass(cfg, packets, next, end, available)
  {
    WaitingFrom(packets, next, end);
    FirstOfPass(Extra(cfg), Waiting(packets, next, end), available);
  }

  lemma FirstOfPass(extra: nat, waiting: seq<nat>, available: nat)
    requires extra <= 1 && waiting != [] && waiting[0] + 1 <= available
    ensures var (length, rest) := PassOver(extra, waiting[1..], available - waiting[0] - extra);
            PassOver(extra, waiting, available) == (waiting[0] + extra + length, rest)
  {
  }

  /** A packet placed at the end of the ring waits behind the others. */
  lemma {:induction false} WaitingGrows(packets: seq<Packet>, next: nat, end: nat, p: Packet)
    requires next < |packets| && end < |packets| && Dist(next, end, |packets|) + 1 < |packets|
    ensures Waiting(packets[end := p], next, Inc(end, |packets|))
         == Waiting(packets, next, end) + if p.ignore then [] else [p.fragmentCount]
    decreases Dist(next, end, |packets|)
  {
    var packets' := packets[end := p];
    var end' := Inc(end, |packets|);
    DistInc(next, end, |packets|);
    WaitingFrom(packets', next, end');
    if next == end {
      assert Waiting(packets', end', end') == [];
    } else {
      WaitingFrom(packets, next, end);
      DistIncStart(next, end, |packets|);
      WaitingGrows(packets, Inc(next, |packets|), end, p);
    }
  }

  // ---- can it get stuck -------------------------------------------------------------------------

  /** One packet of one fragment after the other takes the index to the last slot, and the next is stuck. */
  lemma {:induction false} Climb(n: nat, extra: nat, i: nat) returns (ops: seq<Op>)
    requires i < n && extra <= 1 && (extra == 1 ==> (n - i) % 2 == 1)
    ensures Within(1, ops) && StuckAt(n, Exec(n, extra, Cursor(i, []), ops))
    decreases n - i
  {
    if i == n - 1 {
      ops := [Offer(1)];
      assert Exec(n, extra, Cursor(i, [] + [1]), ops[1..]) == Cursor(i, [1]);
    } else {
      var rest := Climb(n, extra, i + 1 + extra);
      ops := [Offer(1), Pass] + rest;
      OneMore(n, extra, i, 1, rest);
    }
  }

  /** A packet offered to an empty queue, and posted. */
  lemma OneMore(n: nat, extra: nat, i: nat, count: nat, rest: seq<Op>)
    requires 1 <= count && i + count + extra < n && extra <= 1
    ensures Exec(n, extra, Cursor(i, []), [Offer(count), Pass] + rest)
         == Exec(n, extra, Cursor(i + count + extra, []), rest)
  {
    var c, d := Cursor(i, [count]), Cursor(i + count + extra, []);
    assert [count][1..] == [] && [] + [count] == [count];
    AdvSmall(i, count + extra, n);
    assert PassOver(extra, [], n - d.index) == (0, []);
    assert PassOver(extra, [count], n - i) == (count + extra, []);
    assert Step(n, extra, c, Pass) == d;
    var ops := [Offer(count), Pass] + rest;
    assert ops[1..][0] == Pass && ops[1..][1..] == rest;
    assert Exec(n, extra, Cursor(i, []), ops) == Exec(n, extra, c, ops[1..]);
  }

  /** With a context descriptor each, packets of one fragment take slots in pairs. */
  lemma {:induction false} PassIsEven(waiting: seq<nat>, available: nat)
    requires forall i :: 0 <= i < |waiting| ==> waiting[i] == 1
    ensures var (length, rest) := PassOver(1, waiting, available);
            length % 2 == 0 && forall i :: 0 <= i < |rest| ==> rest[i] == 1
    decreases |waiting|
  {
    if waiting == [] {
    } else if waiting[0] + 1 <= available {
      PassIsEven(waiting[1..], available - 2);
    }
  }

  /** The index and what waits in an even ring with a context descriptor per packet of one fragment. */
  predicate Paired(c: Cursor) {
    c.index % 2 == 0 && forall i :: 0 <= i < |c.waiting| ==> c.waiting[i] == 1
  }

  lemma {:induction false} StaysPaired(n: nat, c: Cursor, ops: seq<Op>)
    requires c.index < n && n % 2 == 0 && Paired(c) && Within(1, ops)
    ensures Paired(Exec(n, 1, c, ops))
    decreases |ops|
  {
    if ops == [] {
    } else {
      if ops[0] == Pass {
        PassIsEven(c.waiting, n - c.index);
        AdvSmall(c.index, PassOver(1, c.waiting, n - c.index).0, n);
      }
      StaysPaired(n, Step(n, 1, c, ops[0]), ops[1..]);
    }
  }

  /** From the start, offers of packets within the limit and passes in any order can bring the queue to a
      standstill exactly if no context descriptor is used, the ring has an odd size, or a packet may have
      more than one fragment. */
  lemma CanGetStuckIff(n: nat, extra: nat, limit: nat)
    requires 0 < n && extra <= 1 && 1 <= limit
    ensures (exists ops :: Within(limit, ops) && StuckAt(n, Exec(n, extra, START, ops))) <==> CanStick(n, extra, limit)
  {
    if extra == 0 || n % 2 == 1 {
      var ops := Climb(n, extra, 0);
      assert Within(limit, ops);
    } else if limit >= 2 {
      TwoFragments(n, limit);
    } else {
      forall ops | Within(limit, ops) ensures !StuckAt(n, Exec(n, extra, START, ops)) {
        StaysPaired(n, START, ops);
      }
    }
  }

  /** A packet of two fragments and its context descriptor leave an even ring at an odd index. */
  lemma TwoFragments(n: nat, limit: nat)
    requires 0 < n && n % 2 == 0 && limit >= 2
    ensures exists ops :: Within(limit, ops) && StuckAt(n, Exec(n, 1, START, ops))
  {
    if n == 2 {
      var ops := [Offer(2)];
      assert Exec(n, 1, Cursor(0, [] + [2]), ops[1..]) == Cursor(0, [2]);
      assert Within(limit, ops) && StuckAt(n, Exec(n, 1, START, ops));
    } else {
      var rest := Climb(n, 1, 3);
      var ops := [Offer(2), Pass] + rest;
      OneMore(n, 1, 0, 2, rest);
      assert Within(limit, ops) && StuckAt(n, Exec(n, 1, START, ops));
    }
  }
}
