/** A netmap ring as the tools see it, and the receive side of recv-to-pram. */
module NetmapRing {
  import opened Wrappers
  import opened Arith
  import opened RingLayout

  datatype Flag = Indirect | PhyIndirect

  datatype Slot = Slot(len: nat, ptr: Word, flags: set<Flag>)

  /** nm_ring_next. */
  function NextSlot(i: nat, n: nat): nat
  {
    if i + 1 == n then 0 else i + 1
  }

  /** Steps from one cursor forward to another. */
  function Distance(from: nat, to: nat, n: nat): nat
    requires from < n && to < n
  {
    if from <= to then to - from else to + n - from
  }

  /** The slot k steps after cur. */
  function SlotAfter(cur: nat, k: nat, n: nat): nat
    requires cur < n
  {
    (cur + k) % n
  }

  /** k slots of a ring of n, in ring order. */
  function RingOrder(from: nat, k: nat, n: nat): seq<nat>
    requires from < n
  {
    seq(k, i requires 0 <= i < k => SlotAfter(from, i, n))
  }

  /** netmap_ring. `tail` belongs to the kernel; the tools always move head and cur together. */
  class Ring {
    const slots: array<Slot>
    var head: nat
    var cur: nat
    var tail: nat

    ghost predicate Valid()
      reads this
    {
      head == cur && cur < slots.Length && tail < slots.Length
    }

    /** nm_ring_empty. */
    predicate Empty()
      reads this
    {
      cur == tail
    }

    constructor (slots: array<Slot>, cursor: nat, tail: nat)
      requires cursor < slots.Length && tail < slots.Length
      ensures Valid() && this.slots == slots && cur == cursor && this.tail == tail
    {
      this.slots := slots;
      this.head, this.cur, this.tail := cursor, cursor, tail;
    }
  }

  /** Going to the next slot brings the tail one step closer. */
  lemma NextIsCloser(from: nat, to: nat, n: nat)
    requires from < n && to < n && from != to
    ensures Distance(from, to, n) == Distance(NextSlot(from, n), to, n) + 1
  {
  }

  /** Going to the next slot is addition modulo the ring size. */
  lemma NextIsModular(cur: nat, k: nat, n: nat)
    requires cur < n
    ensures SlotAfter(cur, 0, n) == cur
    ensures SlotAfter(cur, 1, n) == NextSlot(cur, n)
    ensures NextSlot(SlotAfter(cur, k, n), n) == SlotAfter(cur, k + 1, n)
  {
    DivModUnique(cur, n, 0, cur);
    ModSucc(cur, n);
    ModSucc(cur + k, n);
  }

  lemma SlotAfterAdds(cur: nat, a: nat, b: nat, n: nat)
    requires cur < n
    ensures SlotAfter(SlotAfter(cur, a, n), b, n) == SlotAfter(cur, a + b, n)
  {
    ModAbsorb(cur + a, b, n);
  }

  /** Steps forward count up to the distance of the slot reached. */
  lemma DistanceOfSlotAfter(cur: nat, i: nat, n: nat)
    requires cur < n && i < n
    ensures Distance(cur, SlotAfter(cur, i, n), n) == i
  {
    if cur + i < n {
      DivModUnique(cur + i, n, 0, cur + i);
    } else {
      DivModUnique(cur + i, n, 1, cur + i - n);
    }
  }

  /** At most one full turn visits no slot twice, and ends k slots on. */
  lemma RingOrderIsInjective(from: nat, k: nat, n: nat, i: nat, j: nat)
    requires from < n && k <= n && i < j < k
    ensures RingOrder(from, k, n)[i] != RingOrder(from, k, n)[j]
  {
    DistanceOfSlotAfter(from, i, n);
    DistanceOfSlotAfter(from, j, n);
  }

  /** The slots visited from head up to tail are exactly those of the circular interval [head, tail). */
  lemma RingOrderIsInterval(head: nat, tail: nat, n: nat, s: nat)
    requires head < n && tail < n && s < n
    ensures s in RingOrder(head, Distance(head, tail, n), n) <==> Distance(head, s, n) < Distance(head, tail, n)
  {
    var d, at := Distance(head, tail, n), Distance(head, s, n);
    forall i: nat | i < n ensures Distance(head, SlotAfter(head, i, n), n) == i {
      DistanceOfSlotAfter(head, i, n);
    }
    assert Distance(head, SlotAfter(head, at, n), n) == at;
    if at < d {
      assert RingOrder(head, d, n)[at] == s;
    }
  }

  // ----- Initialisation -----

  ghost predicate DistinctRings(rings: seq<Ring>)
  {
    forall i, j :: 0 <= i < j < |rings| ==> rings[i] != rings[j] && rings[i].slots != rings[j].slots
  }

  /** The slot, otherwise as before, points at the physical address of virt. */
  predicate Installed(slot: Slot, before: Slot, pagemap: map<nat, Word>, pagesize: nat, virt: nat)
    requires pagesize > 0
  {
    && PhyAddr(pagemap, pagesize, virt).Some?
    && slot == before.(flags := before.flags + {PhyIndirect}, ptr := PhyAddr(pagemap, pagesize, virt).value)
  }

  /** init_nm_rx_ring_for_phy: every slot of every ring gets the physical address of its buffer.
      ok is false when phy_addr would have ended the process, because a buffer's page is not mapped. */
  method InitRxRings(base: nat, rings: seq<Ring>, pagemap: map<nat, Word>, pagesize: nat) returns (ok: bool)
    requires pagesize > 0 && DistinctRings(rings)
    modifies set r | r in rings :: r.slots
    ensures ok <==> forall ri, idx :: 0 <= ri < |rings| && 0 <= idx < rings[ri].slots.Length ==>
                      PhyAddr(pagemap, pagesize, BufAt(base, ri, idx, rings[ri].slots.Length)).Some?
    ensures ok ==> forall ri, idx :: 0 <= ri < |rings| && 0 <= idx < rings[ri].slots.Length ==>
                      Installed(rings[ri].slots[idx], old(rings[ri].slots[idx]), pagemap, pagesize,
                                BufAt(base, ri, idx, rings[ri].slots.Length))
  {
    var ri := 0;
    while ri < |rings|
      invariant ri <= |rings|
      invariant forall r, idx :: 0 <= r < ri && 0 <= idx < rings[r].slots.Length ==>
                  Installed(rings[r].slots[idx], old(rings[r].slots[idx]), pagemap, pagesize,
                            BufAt(base, r, idx, rings[r].slots.Length))
      invariant forall r, idx :: ri <= r < |rings| && 0 <= idx < rings[r].slots.Length ==>
                  rings[r].slots[idx] == old(rings[r].slots[idx])
    {
      var slots := rings[ri].slots;
      var idx := 0;
      while idx < slots.Length
        invariant idx <= slots.Length
        invariant forall r, k :: 0 <= r < ri && 0 <= k < rings[r].slots.Length ==>
                    Installed(rings[r].slots[k], old(rings[r].slots[k]), pagemap, pagesize,
                              BufAt(base, r, k, rings[r].slots.Length))
        invariant forall k :: 0 <= k < idx ==>
                    Installed(slots[k], old(rings[ri].slots[k]), pagemap, pagesize, BufAt(base, ri, k, slots.Length))
        invariant forall r, k :: ri < r < |rings| && 0 <= k < rings[r].slots.Length ==>
                    rings[r].slots[k] == old(rings[r].slots[k])
        invariant forall k :: idx <= k < slots.Length ==> slots[k] == old(rings[ri].slots[k])
      {
        var p := PhyAddr(pagemap, pagesize, BufAt(base, ri, idx, slots.Length));
        if p == None {
          return false;
        }
        slots[idx] := slots[idx].(flags := slots[idx].flags + {PhyIndirect}, ptr := p.value);
        idx := idx + 1;
      }
      ri := ri + 1;
    }
    return true;
  }

  /** With rings of one size, the buffer the receive loop computes for a slot is, byte for byte, the
      physical memory initialisation installed in it. */
  lemma ReceiveReadsInstalledBuffer(slot: Slot, before: Slot, pagemap: map<nat, Word>, pagesize: nat, base: nat,
                                    ri: nat, idx: nat, slots: nat, k: nat)
    requires GoodPageMap(pagemap, pagesize) && base % pagesize == 0 && pagesize % BUF_SIZE == 0
    requires Installed(slot, before, pagemap, pagesize, BufAt(base, ri, idx, slots)) && k < BUF_SIZE
    ensures PhyAddr(pagemap, pagesize, BufAt(base, ri, idx, slots) + k) == Some(slot.ptr + k)
    ensures slot.len == before.len && slot.flags == before.flags + {PhyIndirect}
  {
    BufferIsContiguous(pagemap, pagesize, base, ri, idx, slots, k);
  }

  // ----- Receive -----

  /** One received packet as the loop reports it: its number, ring and slot, and where its data is. */
  datatype Rx = Rx(n: int, ring: nat, slot: nat, buf: nat)

  /** What draining one ring reports. */
  function Drained(base: nat, ri: nat, cur: nat, k: nat, slots: nat, n: int): seq<Rx>
    requires cur < slots
  {
    seq(k, i requires 0 <= i < k =>
          Rx(n + i, ri, SlotAfter(cur, i, slots), BufAt(base, ri, SlotAfter(cur, i, slots), slots)))
  }

  lemma DrainedStep(base: nat, ri: nat, cur: nat, k: nat, slots: nat, n: int)
    requires k > 0 && cur < slots
    ensures Drained(base, ri, cur, k, slots, n)
         == [Rx(n, ri, cur, BufAt(base, ri, cur, slots))] + Drained(base, ri, NextSlot(cur, slots), k - 1, slots, n + 1)
  {
    var all, rest := Drained(base, ri, cur, k, slots, n), Drained(base, ri, NextSlot(cur, slots), k - 1, slots, n + 1);
    NextIsModular(cur, 0, slots);
    forall i: nat | i < k - 1 ensures all[i + 1] == rest[i] {
      SlotAfterAdds(cur, 1, i, slots);
    }
  }

  function Undrained(base: nat, ri: nat, cur: nat, tail: nat, slots: nat, n: int): seq<Rx>
    requires cur < slots && tail < slots
  {
    Drained(base, ri, cur, Distance(cur, tail, slots), slots, n)
  }

  lemma UndrainedStep(seen: seq<Rx>, base: nat, ri: nat, cur: nat, tail: nat, slots: nat, n: int)
    requires cur < slots && tail < slots && cur != tail
    ensures seen + Undrained(base, ri, cur, tail, slots, n)
         == (seen + [Rx(n, ri, cur, BufAt(base, ri, cur, slots))])
            + Undrained(base, ri, NextSlot(cur, slots), tail, slots, n + 1)
    ensures Distance(cur, tail, slots) == Distance(NextSlot(cur, slots), tail, slots) + 1
  {
    NextIsCloser(cur, tail, slots);
    DrainedStep(base, ri, cur, Distance(cur, tail, slots), slots, n);
  }

  lemma UndrainedAt(base: nat, ri: nat, cur: nat, tail: nat, slots: nat, n: int)
    requires cur < slots && tail < slots
    ensures var seen := Undrained(base, ri, cur, tail, slots, n);
            |seen| == Distance(cur, tail, slots)
            && forall i :: 0 <= i < |seen| ==>
                 seen[i] == Rx(n + i, ri, (cur + i) % slots, BufAt(base, ri, (cur + i) % slots, slots))
  {
  }

  lemma UndrainedEnds(seen: seq<Rx>, base: nat, ri: nat, cur: nat, slots: nat, n: int)
    requires cur < slots
    ensures Distance(cur, cur, slots) == 0 && seen + Undrained(base, ri, cur, cur, slots, n) == seen
  {
  }

  /** The drain loop of one ring: it terminates, reports the slots from head to tail in ring order,
      each once, and leaves head == cur == tail. */
  method DrainRing(ring: Ring, base: nat, ri: nat, n: int) returns (n': int, seen: seq<Rx>)
    requires ring.Valid()
    modifies ring`head, ring`cur
    ensures ring.Valid() && ring.head == ring.cur == ring.tail
    ensures n' == n + Distance(old(ring.cur), ring.tail, ring.slots.Length)
    ensures seen == Undrained(base, ri, old(ring.cur), ring.tail, ring.slots.Length, n)
    ensures forall i :: 0 <= i < |seen| ==>
              seen[i] == Rx(n + i, ri, (old(ring.cur) + i) % ring.slots.Length,
                            BufAt(base, ri, (old(ring.cur) + i) % ring.slots.Length, ring.slots.Length))
  {
    n', seen := n, [];
    var size := ring.slots.Length;
    UndrainedAt(base, ri, ring.cur, ring.tail, size, n);
    ghost var all := Undrained(base, ri, ring.cur, ring.tail, size, n);
    while !ring.Empty()
      invariant ring.Valid()
      invariant n' + Distance(ring.cur, ring.tail, size) == n + Distance(old(ring.cur), ring.tail, size)
      invariant all == seen + Undrained(base, ri, ring.cur, ring.tail, size, n')
      decreases Distance(ring.cur, ring.tail, size)
    {
      var cur := ring.head;
      UndrainedStep(seen, base, ri, cur, ring.tail, size, n');
      seen := seen + [Rx(n', ri, cur, BufAt(base, ri, cur, size))];
      cur := NextSlot(cur, size);
      ring.cur := cur;
      ring.head := cur;
      n' := n' + 1;
    }
    UndrainedEnds(seen, base, ri, ring.cur, size, n');
  }

  /** A snapshot of the cursors of a ring. */
  datatype Cursors = Cursors(cur: nat, tail: nat, size: nat)

  predicate GoodCursors(cs: seq<Cursors>)
  {
    forall i :: 0 <= i < |cs| ==> cs[i].cur < cs[i].size && cs[i].tail < cs[i].size
  }

  /** What one pass over the rings from `first` to before `upto` reports, numbering packets from n. */
  function PassReport(base: nat, cs: seq<Cursors>, first: nat, upto: nat, n: int): seq<Rx>
    requires upto <= |cs| && GoodCursors(cs)
  {
    if upto <= first then []
    else
      var before, c := PassReport(base, cs, first, upto - 1, n), cs[upto - 1];
      before + Undrained(base, upto - 1, c.cur, c.tail, c.size, n + |before|)
  }

  /** The slots reported for one ring, in order. */
  function SlotsOf(seen: seq<Rx>, ri: nat): seq<nat>
  {
    if seen == [] then []
    else
      var last := seen[|seen| - 1];
      SlotsOf(seen[..|seen| - 1], ri) + if last.ring == ri then [last.slot] else []
  }

  lemma {:induction false} SlotsOfConcat(a: seq<Rx>, b: seq<Rx>, ri: nat)
    ensures SlotsOf(a + b, ri) == SlotsOf(a, ri) + SlotsOf(b, ri)
  {
    if b == [] {
      assert a + b == a;
    } else {
      SlotsOfConcat(a, b[..|b| - 1], ri);
      assert (a + b)[..|a + b| - 1] == a + b[..|b| - 1];
    }
  }

  lemma {:induction false} SlotsOfDrained(base: nat, ri: nat, cur: nat, k: nat, slots: nat, n: int, other: nat)
    requires cur < slots
    ensures SlotsOf(Drained(base, ri, cur, k, slots, n), other) == if other == ri then RingOrder(cur, k, slots) else []
  {
    if k > 0 {
      SlotsOfDrained(base, ri, cur, k - 1, slots, n, other);
      var all := Drained(base, ri, cur, k, slots, n);
      assert all[..k - 1] == Drained(base, ri, cur, k - 1, slots, n);
      assert RingOrder(cur, k, slots) == RingOrder(cur, k - 1, slots) + [SlotAfter(cur, k - 1, slots)];
    }
  }

  /** The packets are numbered consecutively from n, and the rings come in turn. */
  ghost predicate InTurn(seen: seq<Rx>, first: nat, upto: nat, n: int)
  {
    && (forall i :: 0 <= i < |seen| ==> seen[i].n == n + i && first <= seen[i].ring < upto)
    && (forall i, j :: 0 <= i < j < |seen| ==> seen[i].ring <= seen[j].ring)
  }

  /** From the cursor up to the tail, in ring order. */
  function SlotsToDrain(c: Cursors): seq<nat>
    requires c.cur < c.size && c.tail < c.size
  {
    RingOrder(c.cur, Distance(c.cur, c.tail, c.size), c.size)
  }

  /** Every slot of every ring from `first` on is reported, once and in ring order. */
  ghost predicate AllDrained(seen: seq<Rx>, cs: seq<Cursors>, first: nat, upto: nat)
    requires GoodCursors(cs)
  {
    forall ri :: first <= ri < upto && ri < |cs| ==> SlotsOf(seen, ri) == SlotsToDrain(cs[ri])
  }

  /** Each packet's data is in the buffer of its ring and slot. */
  ghost predicate AtBuffers(seen: seq<Rx>, base: nat, cs: seq<Cursors>)
  {
    forall i :: 0 <= i < |seen| ==>
      seen[i].ring < |cs| && seen[i].buf == BufAt(base, seen[i].ring, seen[i].slot, cs[seen[i].ring].size)
  }

  lemma {:induction false} PassReportAtBuffers(base: nat, cs: seq<Cursors>, first: nat, upto: nat, n: int)
    requires upto <= |cs| && GoodCursors(cs)
    ensures AtBuffers(PassReport(base, cs, first, upto, n), base, cs)
  {
    if first < upto {
      PassReportAtBuffers(base, cs, first, upto - 1, n);
    }
  }

  lemma {:induction false} PassReportInTurn(base: nat, cs: seq<Cursors>, first: nat, upto: nat, n: int)
    requires upto <= |cs| && GoodCursors(cs)
    ensures InTurn(PassReport(base, cs, first, upto, n), first, upto, n)
  {
    if first < upto {
      PassReportInTurn(base, cs, first, upto - 1, n);
    }
  }

  lemma {:induction false} SlotsOfNoRing(seen: seq<Rx>, ri: nat)
    requires forall i :: 0 <= i < |seen| ==> seen[i].ring != ri
    ensures SlotsOf(seen, ri) == []
  {
    if seen != [] {
      SlotsOfNoRing(seen[..|seen| - 1], ri);
    }
  }

  lemma WithNothing(s: seq<nat>)
    ensures [] + s == s && s + [] == s
  {
  }

  /** What draining the ring `last` adds to the slots reported for a ring. */
  lemma OneMoreRing(before: seq<Rx>, base: nat, last: nat, c: Cursors, n: int, ri: nat)
    requires c.cur < c.size && c.tail < c.size
    ensures var seen := before + Undrained(base, last, c.cur, c.tail, c.size, n);
            && (ri != last ==> SlotsOf(seen, ri) == SlotsOf(before, ri))
            && (ri == last && SlotsOf(before, ri) == [] ==> SlotsOf(seen, ri) == SlotsToDrain(c))
  {
    var d := Distance(c.cur, c.tail, c.size);
    SlotsOfConcat(before, Drained(base, last, c.cur, d, c.size, n), ri);
    SlotsOfDrained(base, last, c.cur, d, c.size, n, ri);
    WithNothing(SlotsOf(before, ri));
    WithNothing(SlotsToDrain(c));
  }

  lemma RingNotYetReported(base: nat, cs: seq<Cursors>, first: nat, ri: nat, n: int)
    requires ri < |cs| && GoodCursors(cs)
    ensures SlotsOf(PassReport(base, cs, first, ri, n), ri) == []
  {
    PassReportInTurn(base, cs, first, ri, n);
    SlotsOfNoRing(PassReport(base, cs, first, ri, n), ri);
  }

  lemma PassReportGrows(base: nat, cs: seq<Cursors>, first: nat, last: nat, n: int, ri: nat)
    requires first <= ri <= last < |cs| && GoodCursors(cs)
    requires ri < last ==> SlotsOf(PassReport(base, cs, first, last, n), ri) == SlotsToDrain(cs[ri])
    ensures SlotsOf(PassReport(base, cs, first, last + 1, n), ri) == SlotsToDrain(cs[ri])
  {
    var before := PassReport(base, cs, first, last, n);
    OneMoreRing(before, base, last, cs[last], n + |before|, ri);
    if ri == last {
      RingNotYetReported(base, cs, first, ri, n);
    }
  }

  lemma {:induction false} PassReportSlots(base: nat, cs: seq<Cursors>, first: nat, upto: nat, n: int, ri: nat)
    requires first <= ri < upto <= |cs| && GoodCursors(cs)
    ensures SlotsOf(PassReport(base, cs, first, upto, n), ri) == SlotsToDrain(cs[ri])
    decreases upto
  {
    if ri < upto - 1 {
      PassReportSlots(base, cs, first, upto - 1, n, ri);
    }
    PassReportGrows(base, cs, first, upto - 1, n, ri);
  }

  lemma PassReportDrains(base: nat, cs: seq<Cursors>, first: nat, n: int)
    requires GoodCursors(cs)
    ensures InTurn(PassReport(base, cs, first, |cs|, n), first, |cs|, n)
    ensures AllDrained(PassReport(base, cs, first, |cs|, n), cs, first, |cs|)
    ensures AtBuffers(PassReport(base, cs, first, |cs|, n), base, cs)
  {
    PassReportAtBuffers(base, cs, first, |cs|, n);
    PassReportInTurn(base, cs, first, |cs|, n);
    forall ri | first <= ri < |cs|
      ensures SlotsOf(PassReport(base, cs, first, |cs|, n), ri) == SlotsToDrain(cs[ri])
    {
      PassReportSlots(base, cs, first, |cs|, n, ri);
    }
  }

  ghost predicate AsSnapshot(ring: Ring, c: Cursors)
    reads ring
  {
    ring.Valid() && c == Cursors(ring.cur, ring.tail, ring.slots.Length)
  }

  /** The cursors have caught up with the tail, which has not moved. */
  ghost predicate IsDrained(ring: Ring, c: Cursors)
    reads ring
  {
    ring.Valid() && ring.Empty() && ring.tail == c.tail && ring.slots.Length == c.size
  }

  /** The rings from lo to before hi are drained, the others stand as the snapshot says. */
  ghost predicate DrainedBetween(rings: seq<Ring>, cs: seq<Cursors>, lo: nat, hi: nat)
    requires |cs| == |rings|
    reads rings
  {
    && (forall i :: 0 <= i < |rings| && lo <= i < hi ==> IsDrained(rings[i], cs[i]))
    && (forall i :: 0 <= i < |rings| && !(lo <= i < hi) ==> AsSnapshot(rings[i], cs[i]))
  }

  lemma SnapshotIsGood(rings: seq<Ring>, cs: seq<Cursors>)
    requires |cs| == |rings| && DrainedBetween(rings, cs, 0, 0)
    ensures GoodCursors(cs)
  {
    forall i | 0 <= i < |cs| ensures cs[i].cur < cs[i].size && cs[i].tail < cs[i].size {
      assert AsSnapshot(rings[i], cs[i]);
    }
  }

  /** The body of that pass: the ring that is next is drained, the others stay as they are. */
  method DrainNext(rings: seq<Ring>, base: nat, first: nat, ri: nat, n: int, ghost cs: seq<Cursors>)
      returns (n': int, more: seq<Rx>)
    requires first <= ri < |rings| == |cs| && DistinctRings(rings) && GoodCursors(cs)
    requires DrainedBetween(rings, cs, first, ri)
    modifies rings[ri]
    ensures DrainedBetween(rings, cs, first, ri + 1)
    ensures more == Undrained(base, ri, cs[ri].cur, cs[ri].tail, cs[ri].size, n) && n' == n + |more|
  {
    assert AsSnapshot(rings[ri], cs[ri]);
    n', more := DrainRing(rings[ri], base, ri, n);
    forall i | 0 <= i < |rings| && !(first <= i < ri + 1) ensures AsSnapshot(rings[i], cs[i]) {
      assert old(AsSnapshot(rings[i], cs[i]));
    }
  }

  /** One pass of the main loop over the rings from `first` on. The snapshot is of the cursors at its
      start. */
  method DrainAll(rings: seq<Ring>, base: nat, first: nat, n: int, ghost cs: seq<Cursors>)
      returns (n': int, seen: seq<Rx>)
    requires first <= |rings| == |cs| && DistinctRings(rings) && DrainedBetween(rings, cs, 0, 0)
    modifies rings
    ensures GoodCursors(cs) && DrainedBetween(rings, cs, first, |rings|)
    ensures InTurn(seen, first, |rings|, n) && AllDrained(seen, cs, first, |rings|) && AtBuffers(seen, base, cs)
    ensures n' == n + |seen|
  {
    SnapshotIsGood(rings, cs);
    n', seen := n, [];
    var ri := first;
    while ri < |rings|
      invariant first <= ri <= |rings| && n' == n + |seen|
      invariant DrainedBetween(rings, cs, first, ri)
      invariant seen == PassReport(base, cs, first, ri, n)
    {
      var more;
      n', more := DrainNext(rings, base, first, ri, n', cs);
      seen := seen + more;
      ri := ri + 1;
    }
    PassReportDrains(base, cs, first, n);
  }
}
