/** The transmit loops of xmit-from-pram (batched) and load-and-xmit (nested). The kernel's part, the
    result of each NIOCTXSYNC and of each drive read, is an arbitrary function of the step number. */
module TransmitLoops {
  import opened Wrappers
  import opened Arith
  import opened NetmapRing

  /** What a NIOCTXSYNC does: fail, or let the kernel publish a new tail. */
  datatype Sync = SyncFailed | Synced(tail: nat)

  datatype Status = Completed | RingFull | SyncError | ReadError

  /** A run, seen from inside: what has been sent so far, then what the rest of the run sends. */
  ghost predicate Pending<T>(run: (Status, seq<T>), done: seq<T>, rest: (Status, seq<T>))
  {
    run.0 == rest.0 && run.1 == done + rest.1
  }

  lemma PendingStarts<T>(run: (Status, seq<T>))
    ensures Pending(run, [], run)
  {
  }

  lemma PendingSends<T>(run: (Status, seq<T>), done: seq<T>, more: seq<T>, rest: (Status, seq<T>))
    requires Pending(run, done, (rest.0, more + rest.1))
    ensures Pending(run, done + more, rest)
  {
  }

  lemma PendingEnds<T>(run: (Status, seq<T>), done: seq<T>, more: seq<T>, status: Status)
    requires Pending(run, done, (status, more))
    ensures run == (status, done + more)
    ensures more == [] ==> run == (status, done)
  {
    assert done + [] == done;
  }

  // ----- xmit-from-pram -----

  /** One filled slot, with the number of free slots there were when it was filled. */
  datatype TxWrite = TxWrite(slot: nat, free: nat)

  /** The first b slots of a round that starts at cur. */
  function Round(size: nat, cur: nat, tail: nat, b: nat): seq<TxWrite>
    requires cur < size && tail < size
  {
    seq(b, i requires 0 <= i < b => TxWrite(SlotAfter(cur, i, size), Distance(SlotAfter(cur, i, size), tail, size)))
  }

  /** The rest of a run in round r, with n packets sent so far. */
  function XmitRun(size: nat, cur: nat, tail: nat, n: int, count: int, batch: nat, sync: int -> Sync, r: nat):
      (Status, seq<TxWrite>)
    requires cur < size && tail < size && batch > 0
    decreases count - n
  {
    if n >= count then (Completed, [])
    else if cur == tail then (RingFull, [])
    else
      var ws := Round(size, cur, tail, batch);
      match sync(r)
      case SyncFailed => (SyncError, ws)
      case Synced(t) =>
        var cur' := SlotAfter(cur, batch, size);
        var (status, rest) := XmitRun(size, cur', t % size, n + batch, count, batch, sync, r + 1);
        (status, ws + rest)
  }

  /** The rounds a run of count packets needs. */
  function Rounds(count: int, batch: nat): nat
    requires batch > 0
  {
    if count <= 0 then 0 else (count + batch - 1) / batch
  }

  lemma RoundsStep(count: int, batch: nat)
    requires batch > 0 && count > 0
    ensures Rounds(count, batch) == Rounds(count - batch, batch) + 1
  {
    if count > batch {
      DivModUnique(count + batch - 1, batch, (count - 1) / batch + 1, (count - 1) % batch);
    } else {
      DivModUnique(count + batch - 1, batch, 1, count - 1);
    }
  }

  /** A count of writes that the end of a run with `rounds` rounds to go allows. */
  predicate WholeRounds(status: Status, writes: nat, rounds: nat, batch: nat)
    requires batch > 0
  {
    && writes % batch == 0
    && writes <= rounds * batch
    && (status == Completed ==> writes == rounds * batch)
    && (status == RingFull ==> writes < rounds * batch)
    && status != ReadError
  }

  lemma OneMoreRound(status: Status, writes: nat, rounds: nat, batch: nat)
    requires batch > 0 && WholeRounds(status, writes, rounds, batch)
    ensures WholeRounds(status, writes + batch, rounds + 1, batch)
  {
    ModAddMultiple(writes, batch, 1);
    assert (rounds + 1) * batch == rounds * batch + batch;
  }

  /** Whole rounds only: a run that is not aborted fills batch * ceil(count / batch) slots, one that
      finds the ring full fewer, and never part of a round. */
  lemma {:induction false} XmitFillsWholeRounds(size: nat, cur: nat, tail: nat, n: int, count: int, batch: nat,
                                                sync: int -> Sync, r: nat)
    requires cur < size && tail < size && batch > 0
    ensures var (status, ws) := XmitRun(size, cur, tail, n, count, batch, sync, r);
            WholeRounds(status, |ws|, Rounds(count - n, batch), batch)
    decreases count - n
  {
    if n < count {
      RoundsStep(count - n, batch);
      if cur == tail {
        DivModUnique(0, batch, 0, 0);
        MulMono(1, Rounds(count - n, batch), batch);
      } else if sync(r).Synced? {
        var cur', tail' := SlotAfter(cur, batch, size), sync(r).tail % size;
        XmitFillsWholeRounds(size, cur', tail', n + batch, count, batch, sync, r + 1);
        var (status, ws) := XmitRun(size, cur', tail', n + batch, count, batch, sync, r + 1);
        OneMoreRound(status, |ws|, Rounds(count - n - batch, batch), batch);
      } else {
        DivModUnique(batch, batch, 1, 0);
        MulMono(1, Rounds(count - n, batch), batch);
      }
    } else {
      DivModUnique(0, batch, 0, 0);
    }
  }

  /** The ring's tail when i syncs, the first of them number r, have succeeded. */
  function TailAt(tail: nat, size: nat, sync: int -> Sync, r: int, i: nat): nat
    requires size > 0
  {
    if i == 0 || sync(r + i - 1) == SyncFailed then tail else sync(r + i - 1).tail % size
  }

  lemma RoundOf(k: nat, batch: nat)
    requires batch > 0
    ensures k < batch ==> k / batch == 0 && k % batch == k
    ensures k >= batch ==> k / batch == (k - batch) / batch + 1 && k % batch == (k - batch) % batch
  {
    if k < batch {
      DivModUnique(k, batch, 0, k);
    } else {
      var q, m := (k - batch) / batch, (k - batch) % batch;
      assert (q + 1) * batch == q * batch + batch;
      DivModUnique(k, batch, q + 1, m);
    }
  }

  /** Packet k of a run, in round k / batch: it goes to slot (cur + k) mod num_slots, with the free slots
      counted up to the tail that the last sync brought. A round begins only with packets left to send
      and a slot free, and another one follows only a successful sync. */
  ghost predicate PacketOk(p: TxWrite, k: nat, last: bool, size: nat, cur: nat, tail: nat, n: int, count: int,
                           batch: nat, sync: int -> Sync, r: int)
    requires cur < size && tail < size && batch > 0
  {
    var slot, tailNow := (cur + k) % size, TailAt(tail, size, sync, r, k / batch);
    && p.slot == slot && tailNow < size && p.free == Distance(slot, tailNow, size)
    && (k % batch == 0 ==> slot != tailNow && n + k < count)
    && (k >= batch ==> sync(r + k / batch - 1).Synced?)
    && (!last ==> sync(r + k / batch).Synced?)
  }

  lemma PacketLater(p: TxWrite, k: nat, last: bool, size: nat, cur: nat, tail: nat, n: int, count: int, batch: nat,
                    sync: int -> Sync, r: int)
    requires cur < size && tail < size && batch > 0 && k >= batch && sync(r).Synced?
    requires PacketOk(p, k - batch, last, size, SlotAfter(cur, batch, size), sync(r).tail % size, n + batch, count,
                      batch, sync, r + 1)
    ensures PacketOk(p, k, last, size, cur, tail, n, count, batch, sync, r)
  {
    RoundOf(k, batch);
    RoundOf(k - batch, batch);
    SlotAfterAdds(cur, batch, k - batch, size);
  }

  lemma PacketNow(p: TxWrite, k: nat, last: bool, size: nat, cur: nat, tail: nat, n: int, count: int, batch: nat,
                  sync: int -> Sync, r: int)
    requires cur < size && tail < size && k < batch && n < count && cur != tail && (!last ==> sync(r).Synced?)
    requires p == Round(size, cur, tail, batch)[k]
    ensures PacketOk(p, k, last, size, cur, tail, n, count, batch, sync, r)
  {
    RoundOf(k, batch);
    NextIsModular(cur, 0, size);
  }

  /** Whatever the kernel does, every packet of a run is as PacketOk says. */
  lemma {:induction false} XmitSlot(size: nat, cur: nat, tail: nat, n: int, count: int, batch: nat,
                                    sync: int -> Sync, r: nat, k: nat)
    requires cur < size && tail < size && batch > 0
    requires k < |XmitRun(size, cur, tail, n, count, batch, sync, r).1|
    ensures var ws := XmitRun(size, cur, tail, n, count, batch, sync, r).1;
            PacketOk(ws[k], k, k + batch >= |ws|, size, cur, tail, n, count, batch, sync, r)
    decreases count - n
  {
    var ws := XmitRun(size, cur, tail, n, count, batch, sync, r).1;
    if k >= batch {
      var cur', tail' := SlotAfter(cur, batch, size), sync(r).tail % size;
      XmitSlot(size, cur', tail', n + batch, count, batch, sync, r + 1, k - batch);
      PacketLater(ws[k], k, k + batch >= |ws|, size, cur, tail, n, count, batch, sync, r);
    } else {
      PacketNow(ws[k], k, k + batch >= |ws|, size, cur, tail, n, count, batch, sync, r);
    }
  }

  /** How a run of `writes` packets ends: with the sync of its last round failing, with nothing left to
      send, or before a round that finds no free slot. */
  ghost predicate EndsWell(status: Status, writes: nat, size: nat, cur: nat, tail: nat, n: int, count: int, batch: nat,
                           sync: int -> Sync, r: int)
    requires cur < size && batch > 0
  {
    var rounds := writes / batch;
    && writes % batch == 0
    && status == (if rounds > 0 && sync(r + rounds - 1) == SyncFailed then SyncError
                  else if n + writes >= count then Completed else RingFull)
    && (status == RingFull ==> (cur + writes) % size == TailAt(tail, size, sync, r, rounds))
  }

  lemma EndsLater(status: Status, writes: nat, size: nat, cur: nat, tail: nat, n: int, count: int, batch: nat,
                  sync: int -> Sync, r: int)
    requires cur < size && batch > 0 && sync(r).Synced?
    requires EndsWell(status, writes, size, SlotAfter(cur, batch, size), sync(r).tail % size, n + batch, count, batch,
                      sync, r + 1)
    ensures EndsWell(status, writes + batch, size, cur, tail, n, count, batch, sync, r)
  {
    RoundOf(writes + batch, batch);
    SlotAfterAdds(cur, batch, writes, size);
  }

  lemma EndsNow(status: Status, writes: nat, size: nat, cur: nat, tail: nat, n: int, count: int, batch: nat,
                sync: int -> Sync, r: int)
    requires cur < size && batch > 0
    requires || (writes == 0 && status == (if n >= count then Completed else RingFull) && (n >= count || cur == tail))
             || (writes == batch && status == SyncError && sync(r) == SyncFailed)
    ensures EndsWell(status, writes, size, cur, tail, n, count, batch, sync, r)
  {
    RoundOf(writes, batch);
    RoundOf(0, batch);
    NextIsModular(cur, 0, size);
  }

  /** Which of the three ends a run comes to. */
  lemma {:induction false} XmitEnds(size: nat, cur: nat, tail: nat, n: int, count: int, batch: nat,
                                    sync: int -> Sync, r: nat)
    requires cur < size && tail < size && batch > 0
    ensures var (status, ws) := XmitRun(size, cur, tail, n, count, batch, sync, r);
            EndsWell(status, |ws|, size, cur, tail, n, count, batch, sync, r)
    decreases count - n
  {
    if n < count && cur != tail && sync(r).Synced? {
      var cur', tail' := SlotAfter(cur, batch, size), sync(r).tail % size;
      XmitEnds(size, cur', tail', n + batch, count, batch, sync, r + 1);
      var (status, ws) := XmitRun(size, cur', tail', n + batch, count, batch, sync, r + 1);
      EndsLater(status, |ws|, size, cur, tail, n, count, batch, sync, r);
    } else {
      var (status, ws) := XmitRun(size, cur, tail, n, count, batch, sync, r);
      EndsNow(status, |ws|, size, cur, tail, n, count, batch, sync, r);
    }
  }

  /** A slot was filled that the kernel still owned: cur went past tail. */
  ghost predicate Overran(ws: seq<TxWrite>)
  {
    exists k :: 0 <= k < |ws| && ws[k].free == 0
  }

  /** Every round that the loop will begin finds at least `batch` free slots. This is read off the ring
      before the run and the tails that the kernel will publish, not off what the run writes. */
  predicate RoomEveryRound(size: nat, cur: nat, tail: nat, n: int, count: int, batch: nat, sync: int -> Sync, r: nat)
    requires cur < size && tail < size && batch > 0
    decreases count - n
  {
    n >= count || cur == tail
    || (Distance(cur, tail, size) >= batch
        && (sync(r).Synced? ==>
              RoomEveryRound(size, SlotAfter(cur, batch, size), sync(r).tail % size, n + batch, count, batch, sync,
                             r + 1)))
  }

  /** Within a round the free slots count down to 0 and then the cursor has lapped the tail. */
  lemma {:induction false} RoundCountsDown(size: nat, cur: nat, tail: nat, b: nat, i: nat)
    requires cur < size && tail < size && i < b && i <= Distance(cur, tail, size)
    ensures Round(size, cur, tail, b)[i].free == Distance(cur, tail, size) - i
  {
    DistanceOfSlotAfter(cur, i, size);
  }

  lemma RoundOverrunsIff(size: nat, cur: nat, tail: nat, batch: nat)
    requires cur < size && tail < size
    ensures Overran(Round(size, cur, tail, batch)) <==> Distance(cur, tail, size) < batch
  {
    var ws, d := Round(size, cur, tail, batch), Distance(cur, tail, size);
    if d < batch {
      RoundCountsDown(size, cur, tail, batch, d);
      assert ws[d].free == 0;
    } else {
      forall i: nat | i < batch ensures ws[i].free > 0 {
        RoundCountsDown(size, cur, tail, batch, i);
      }
    }
  }

  lemma OverranConcat(a: seq<TxWrite>, b: seq<TxWrite>)
    ensures Overran(a + b) <==> Overran(a) || Overran(b)
  {
    if Overran(a) {
      var k :| 0 <= k < |a| && a[k].free == 0;
      assert (a + b)[k].free == 0;
    } else if Overran(b) {
      var k :| 0 <= k < |b| && b[k].free == 0;
      assert (a + b)[|a| + k].free == 0;
    }
  }

  /** The loop tests for one free slot and then fills a whole batch. It passes the tail exactly when
      some round it begins finds fewer free slots than the batch. */
  lemma {:induction false} XmitOverrunsIff(size: nat, cur: nat, tail: nat, n: int, count: int, batch: nat,
                                           sync: int -> Sync, r: nat)
    requires cur < size && tail < size && batch > 0
    ensures Overran(XmitRun(size, cur, tail, n, count, batch, sync, r).1)
       <==> !RoomEveryRound(size, cur, tail, n, count, batch, sync, r)
    decreases count - n
  {
    if n < count && cur != tail {
      RoundOverrunsIff(size, cur, tail, batch);
      if sync(r).Synced? {
        var cur', tail' := SlotAfter(cur, batch, size), sync(r).tail % size;
        XmitOverrunsIff(size, cur', tail', n + batch, count, batch, sync, r + 1);
        OverranConcat(Round(size, cur, tail, batch),
                      XmitRun(size, cur', tail', n + batch, count, batch, sync, r + 1).1);
      }
    }
  }

  /** A batch larger than the free space does overrun: two slots free, three filled. */
  lemma OverrunHappens()
    ensures Overran(XmitRun(4, 0, 2, 0, 1, 3, (r: int) => SyncFailed, 0).1)
  {
    var ws := Round(4, 0, 2, 3);
    assert ws[2].free == 0;
  }

  function Written(ws: seq<TxWrite>): set<nat>
  {
    set w | w in ws :: w.slot
  }

  function Filled(slot: Slot, len: nat, ptr: Word): Slot
  {
    slot.(len := len, ptr := ptr, flags := slot.flags + {PhyIndirect})
  }

  /** What the ring holds once the writes are done: written slots describe the packet, others are as before. */
  ghost predicate HoldsPacket(now: seq<Slot>, before: seq<Slot>, ws: seq<TxWrite>, len: nat, ptr: Word)
    requires |now| == |before|
  {
    forall j :: 0 <= j < |now| ==> now[j] == if j in Written(ws) then Filled(before[j], len, ptr) else before[j]
  }

  lemma WriteHolds(now: seq<Slot>, before: seq<Slot>, ws: seq<TxWrite>, len: nat, ptr: Word, w: TxWrite)
    requires |now| == |before| && w.slot < |now| && HoldsPacket(now, before, ws, len, ptr)
    ensures HoldsPacket(now[w.slot := Filled(now[w.slot], len, ptr)], before, ws + [w], len, ptr)
  {
    assert Written(ws + [w]) == Written(ws) + {w.slot};
  }

  lemma RoundExtends(size: nat, cur: nat, tail: nat, b: nat)
    requires cur < size && tail < size
    ensures var next := SlotAfter(cur, b, size);
            Round(size, cur, tail, b + 1) == Round(size, cur, tail, b) + [TxWrite(next, Distance(next, tail, size))]
    ensures NextSlot(SlotAfter(cur, b, size), size) == SlotAfter(cur, b + 1, size)
  {
    NextIsModular(cur, b, size);
  }

  /** Slots other than the k from cur on are as they were. */
  ghost predicate OthersKept(now: seq<Slot>, before: seq<Slot>, cur: nat, k: nat)
    requires cur < |now| == |before|
  {
    forall j :: 0 <= j < |now| && j !in RingOrder(cur, k, |now|) ==> now[j] == before[j]
  }

  /** The k slots from cur on name a packet of len bytes at the physical address ptr. */
  ghost predicate PhysicalSent(now: seq<Slot>, before: seq<Slot>, cur: nat, k: nat, len: nat, ptr: Word)
    requires cur < |now| == |before|
  {
    && OthersKept(now, before, cur, k)
    && forall j :: 0 <= j < |now| && j in RingOrder(cur, k, |now|) ==>
         now[j].len == len && now[j].ptr == ptr && now[j].flags == before[j].flags + {PhyIndirect}
  }

  lemma RunIsSent(now: seq<Slot>, before: seq<Slot>, cur: nat, tail: nat, count: int, batch: nat, sync: int -> Sync,
                  len: nat, ptr: Word)
    requires |now| == |before| && cur < |now| && tail < |now| && batch > 0
    requires HoldsPacket(now, before, XmitRun(|now|, cur, tail, 0, count, batch, sync, 0).1, len, ptr)
    ensures PhysicalSent(now, before, cur, |XmitRun(|now|, cur, tail, 0, count, batch, sync, 0).1|, len, ptr)
  {
    var ws := XmitRun(|now|, cur, tail, 0, count, batch, sync, 0).1;
    forall k | 0 <= k < |ws| ensures ws[k].slot == RingOrder(cur, |ws|, |now|)[k] {
      XmitSlot(|now|, cur, tail, 0, count, batch, sync, 0, k);
    }
    SameSlots(ws, RingOrder(cur, |ws|, |now|));
  }

  lemma SameSlots(ws: seq<TxWrite>, slots: seq<nat>)
    requires |ws| == |slots| && forall k :: 0 <= k < |ws| ==> ws[k].slot == slots[k]
    ensures forall j :: j in Written(ws) <==> j in slots
  {
    forall j | j in slots ensures j in Written(ws) {
      var k :| 0 <= k < |slots| && slots[k] == j;
      assert ws[k] in ws;
    }
  }

  /** The inner loop: fill `batch` slots from cur on, whatever the tail. */
  method FillBatch(ring: Ring, batch: nat, pktlen: nat, paddr: Word, ghost before: seq<Slot>, ghost done: seq<TxWrite>)
      returns (ws: seq<TxWrite>)
    requires ring.Valid() && |before| == ring.slots.Length
    requires HoldsPacket(ring.slots[..], before, done, pktlen, paddr)
    modifies ring`head, ring`cur, ring.slots
    ensures ring.Valid() && ring.cur == SlotAfter(old(ring.cur), batch, ring.slots.Length)
    ensures ws == Round(ring.slots.Length, old(ring.cur), ring.tail, batch)
    ensures HoldsPacket(ring.slots[..], before, done + ws, pktlen, paddr)
  {
    ws := [];
    var size := ring.slots.Length;
    var b := 0;
    NextIsModular(ring.cur, 0, size);
    assert done + ws == done;
    while b < batch
      invariant b <= batch && ring.Valid()
      invariant ring.cur == SlotAfter(old(ring.cur), b, size)
      invariant ws == Round(size, old(ring.cur), ring.tail, b)
      invariant HoldsPacket(ring.slots[..], before, done + ws, pktlen, paddr)
    {
      var cur := ring.cur;
      RoundExtends(size, old(ring.cur), ring.tail, b);
      var w := TxWrite(cur, Distance(cur, ring.tail, size));
      WriteHolds(ring.slots[..], before, done + ws, pktlen, paddr, w);
      assert done + (ws + [w]) == done + ws + [w];
      ghost var filled := ring.slots[..][cur := Filled(ring.slots[cur], pktlen, paddr)];
      ring.slots[cur] := Filled(ring.slots[cur], pktlen, paddr);
      assert ring.slots[..] == filled;
      ws := ws + [w];
      cur := NextSlot(cur, size);
      ring.head := cur;
      ring.cur := cur;
      b := b + 1;
    }
  }

  /** The transmit loop of xmit-from-pram for batch >= 1. The kernel's new tail arrives with the sync.
      (With a batch of 0 or less and packets to send, the source's loop makes no progress: it does not
      end unless the ring is empty of free slots or a sync fails.) */
  method XmitFromPram(ring: Ring, count: int, batch: nat, pktlen: nat, paddr: Word, sync: int -> Sync)
      returns (status: Status, ws: seq<TxWrite>)
    requires ring.Valid() && batch > 0
    modifies ring, ring.slots
    ensures ring.Valid()
    ensures (status, ws) == XmitRun(ring.slots.Length, old(ring.cur), old(ring.tail), 0, count, batch, sync, 0)
    ensures ring.cur == ring.head == SlotAfter(old(ring.cur), |ws|, ring.slots.Length)
    ensures PhysicalSent(ring.slots[..], old(ring.slots[..]), old(ring.cur), |ws|, pktlen, paddr)
  {
    ghost var before, start := ring.slots[..], ring.cur;
    ws := [];
    var size := ring.slots.Length;
    var n, r := 0, 0;
    NextIsModular(ring.cur, 0, size);
    ghost var first, run := ring.tail, XmitRun(size, ring.cur, ring.tail, 0, count, batch, sync, 0);
    PendingStarts(run);
    while n < count
      invariant ring.Valid()
      invariant ring.cur == SlotAfter(start, |ws|, size)
      invariant HoldsPacket(ring.slots[..], before, ws, pktlen, paddr)
      invariant Pending(run, ws, XmitRun(size, ring.cur, ring.tail, n, count, batch, sync, r))
      decreases count - n
    {
      if ring.Empty() {
        PendingEnds(run, ws, [], RingFull);
        RunIsSent(ring.slots[..], before, start, first, count, batch, sync, pktlen, paddr);
        return RingFull, ws;
      }
      SlotAfterAdds(start, |ws|, batch, size);
      var more := FillBatch(ring, batch, pktlen, paddr, before, ws);
      var synced := sync(r);
      if synced == SyncFailed {
        PendingEnds(run, ws, more, SyncError);
        RunIsSent(ring.slots[..], before, start, first, count, batch, sync, pktlen, paddr);
        return SyncError, ws + more;
      }
      ring.tail := synced.tail % size;
      PendingSends(run, ws, more, XmitRun(size, ring.cur, ring.tail, n + batch, count, batch, sync, r + 1));
      ws := ws + more;
      r := r + 1;
      n := n + batch;
    }
    PendingEnds(run, ws, [], Completed);
    RunIsSent(ring.slots[..], before, start, first, count, batch, sync, pktlen, paddr);
    return Completed, ws;
  }

  // ----- load-and-xmit -----

  /** One transmitted packet: the block read for it and the slot it went to, with the number of slots
      that were free. */
  datatype TxPacket = TxPacket(lba: Word, slot: nat, free: nat)

  /** The block that is read for packet j. */
  function BlockOf(slba: Word, nblocks: nat, j: nat): Word
    requires nblocks > 0
  {
    (slba + j % nblocks) % WORD
  }

  /** The rest of a run of `total` packets from the j-th on, as one flat sequence of packets. */
  function LoadRun(size: nat, cur: nat, tail: nat, slba: Word, nblocks: nat, total: nat, j: nat,
                   readOk: int -> bool, sync: int -> Sync): (Status, seq<TxPacket>)
    requires cur < size && tail < size && (total > 0 ==> nblocks > 0)
    decreases total - j
  {
    if j >= total then (Completed, [])
    else if !readOk(j) then (ReadError, [])
    else if cur == tail then (RingFull, [])
    else
      var packet := TxPacket(BlockOf(slba, nblocks, j), cur, Distance(cur, tail, size));
      match sync(j)
      case SyncFailed => (SyncError, [packet])
      case Synced(t) =>
        var (status, rest) := LoadRun(size, NextSlot(cur, size), t % size, slba, nblocks, total, j + 1, readOk, sync);
        (status, [packet] + rest)
  }

  /** Packet k of a run that begins with packet j: block slba + ((j + k) mod nblocks) was read for it, it
      goes to slot (cur + k) mod num_slots, with the free slots counted up to the tail that the last sync
      brought, and there is one. Another packet follows only a successful sync. */
  ghost predicate LoadedOk(p: TxPacket, k: nat, last: bool, size: nat, cur: nat, tail: nat, slba: Word, nblocks: nat,
                           j: nat, readOk: int -> bool, sync: int -> Sync)
    requires cur < size && tail < size && nblocks > 0
  {
    var slot, tailNow := (cur + k) % size, TailAt(tail, size, sync, j, k);
    && p.lba == (slba + (j + k) % nblocks) % WORD && p.slot == slot
    && tailNow < size && slot != tailNow && p.free == Distance(slot, tailNow, size)
    && readOk(j + k)
    && (k > 0 ==> sync(j + k - 1).Synced?)
    && (!last ==> sync(j + k).Synced?)
  }

  lemma LoadedLater(p: TxPacket, k: nat, last: bool, size: nat, cur: nat, tail: nat, slba: Word, nblocks: nat, j: nat,
                    readOk: int -> bool, sync: int -> Sync)
    requires cur < size && tail < size && nblocks > 0 && sync(j).Synced? && k > 0
    requires LoadedOk(p, k - 1, last, size, NextSlot(cur, size), sync(j).tail % size, slba, nblocks, j + 1, readOk,
                      sync)
    ensures LoadedOk(p, k, last, size, cur, tail, slba, nblocks, j, readOk, sync)
  {
    NextIsModular(cur, 0, size);
    SlotAfterAdds(cur, 1, k - 1, size);
    assert j + 1 + (k - 1) == j + k;
  }

  /** On every run, whatever the drive and the kernel do, every packet is as LoadedOk says. */
  lemma {:induction false} LoadPacket(size: nat, cur: nat, tail: nat, slba: Word, nblocks: nat, total: nat, j: nat,
                                      readOk: int -> bool, sync: int -> Sync, k: nat)
    requires cur < size && tail < size && (total > 0 ==> nblocks > 0)
    requires k < |LoadRun(size, cur, tail, slba, nblocks, total, j, readOk, sync).1|
    ensures nblocks > 0
    ensures var ps := LoadRun(size, cur, tail, slba, nblocks, total, j, readOk, sync).1;
            LoadedOk(ps[k], k, k + 1 == |ps|, size, cur, tail, slba, nblocks, j, readOk, sync)
    decreases total - j
  {
    var ps := LoadRun(size, cur, tail, slba, nblocks, total, j, readOk, sync).1;
    if k > 0 {
      LoadPacket(size, NextSlot(cur, size), sync(j).tail % size, slba, nblocks, total, j + 1, readOk, sync, k - 1);
      LoadedLater(ps[k], k, k + 1 == |ps|, size, cur, tail, slba, nblocks, j, readOk, sync);
    } else {
      NextIsModular(cur, 0, size);
    }
  }

  /** How a run ends that has sent `sent` packets from the j-th on: a failed sync is noticed after its
      packet was queued; otherwise all are sent, or the next block cannot be read, or its packet finds no
      free slot. */
  ghost predicate LoadEndsWell(status: Status, sent: nat, size: nat, cur: nat, tail: nat, total: nat, j: nat,
                               readOk: int -> bool, sync: int -> Sync)
    requires cur < size
  {
    && sent <= total - j
    && status == (if sent > 0 && sync(j + sent - 1) == SyncFailed then SyncError
                  else if sent == total - j then Completed
                  else if !readOk(j + sent) then ReadError else RingFull)
    && (status == RingFull ==> (cur + sent) % size == TailAt(tail, size, sync, j, sent))
  }

  lemma LoadEndsLater(status: Status, sent: nat, size: nat, cur: nat, tail: nat, total: nat, j: nat,
                      readOk: int -> bool, sync: int -> Sync)
    requires cur < size && sync(j).Synced?
    requires LoadEndsWell(status, sent, size, NextSlot(cur, size), sync(j).tail % size, total, j + 1, readOk, sync)
    ensures LoadEndsWell(status, sent + 1, size, cur, tail, total, j, readOk, sync)
  {
    NextIsModular(cur, 0, size);
    SlotAfterAdds(cur, 1, sent, size);
    assert j + 1 + sent == j + (sent + 1);
  }

  /** Which of the four ends a run comes to. */
  lemma {:induction false} LoadEnds(size: nat, cur: nat, tail: nat, slba: Word, nblocks: nat, total: nat, j: nat,
                                    readOk: int -> bool, sync: int -> Sync)
    requires cur < size && tail < size && j <= total && (total > 0 ==> nblocks > 0)
    ensures var (status, ps) := LoadRun(size, cur, tail, slba, nblocks, total, j, readOk, sync);
            LoadEndsWell(status, |ps|, size, cur, tail, total, j, readOk, sync)
    decreases total - j
  {
    if j < total && readOk(j) && cur != tail && sync(j).Synced? {
      LoadEnds(size, NextSlot(cur, size), sync(j).tail % size, slba, nblocks, total, j + 1, readOk, sync);
      var (status, ps) := LoadRun(size, NextSlot(cur, size), sync(j).tail % size, slba, nblocks, total, j + 1, readOk,
                                  sync);
      LoadEndsLater(status, |ps|, size, cur, tail, total, j, readOk, sync);
    } else {
      NextIsModular(cur, 0, size);
    }
  }

  /** The slot contents of load-and-xmit: the data buffer itself, by reference, or with -b (no `buf`)
      the slot's own buffer, in which a fixed packet is built. */
  function Loaded(slot: Slot, buf: Option<Word>): Slot
  {
    match buf
    case Some(address) => slot.(len := 1024, ptr := address, flags := {Indirect})
    case None => slot.(len := 1024)
  }

  /** The parameters of the program, and what its environment will do. */
  datatype Job = Job(slba: Word, nblocks: nat, buf: Option<Word>, readOk: int -> bool, sync: int -> Sync)
  {
    function Rest(size: nat, cur: nat, tail: nat, total: nat, j: nat): (Status, seq<TxPacket>)
      requires cur < size && tail < size && (total > 0 ==> nblocks > 0)
    {
      LoadRun(size, cur, tail, slba, nblocks, total, j, readOk, sync)
    }
  }

  /** What the loop is proved against: the whole run of `total` packets, and the slots and the cursor at
      its start. */
  datatype Goal = Goal(run: (Status, seq<TxPacket>), total: nat, before: seq<Slot>, start: nat)

  /** The packets `done` are in the ring, whose cursors stand behind them. */
  ghost predicate Queued(ring: Ring, job: Job, goal: Goal, done: seq<TxPacket>)
    reads ring, ring.slots
  {
    && ring.Valid() && |goal.before| == ring.slots.Length && goal.start < ring.slots.Length
    && ring.cur == SlotAfter(goal.start, |done|, ring.slots.Length)
    && SlotsLoaded(ring.slots[..], goal.before, done, job.buf)
  }

  /** The packets `done` are in the ring, and packet j is next. */
  ghost predicate Underway(ring: Ring, job: Job, goal: Goal, done: seq<TxPacket>, j: nat)
    reads ring, ring.slots
  {
    && Queued(ring, job, goal, done) && (goal.total > 0 ==> job.nblocks > 0)
    && Pending(goal.run, done, job.Rest(ring.slots.Length, ring.cur, ring.tail, goal.total, j))
  }

  /** The run is over, with exactly the packets `done` in the ring. */
  ghost predicate Over(ring: Ring, job: Job, goal: Goal, status: Status, done: seq<TxPacket>)
    reads ring, ring.slots
  {
    Queued(ring, job, goal, done) && goal.run == (status, done)
  }

  /** What the run does with packet n of a pass, when all before it have been sent. */
  lemma OneMorePacket(job: Job, goal: Goal, done: seq<TxPacket>, size: nat, cur: nat, tail: nat, first: nat, n: nat)
    requires cur < size && tail < size && first + n < goal.total && n < job.nblocks && first % job.nblocks == 0
    requires Pending(goal.run, done, job.Rest(size, cur, tail, goal.total, first + n))
    ensures !job.readOk(first + n) ==> goal.run == (ReadError, done)
    ensures job.readOk(first + n) && cur == tail ==> goal.run == (RingFull, done)
    ensures job.readOk(first + n) && cur != tail ==>
              var packet := TxPacket((job.slba + n) % WORD, cur, Distance(cur, tail, size));
              if job.sync(first + n) == SyncFailed then goal.run == (SyncError, done + [packet])
              else Pending(goal.run, done + [packet],
                           job.Rest(size, NextSlot(cur, size), job.sync(first + n).tail % size, goal.total,
                                    first + n + 1))
  {
    DivModUnique(first + n, job.nblocks, first / job.nblocks, n);
    assert done + [] == done;
  }

  /** The body of the nest: read block n, queue it as packet first + n, and sync. It ends with status
      Completed when the packet is on its way, or ends the whole run. */
  method LoadOne(ring: Ring, job: Job, first: nat, n: nat, ghost goal: Goal, done: seq<TxPacket>)
      returns (status: Status, ps: seq<TxPacket>)
    requires Underway(ring, job, goal, done, first + n)
    requires first + n < goal.total && n < job.nblocks && first % job.nblocks == 0
    modifies ring, ring.slots
    ensures if status == Completed then Underway(ring, job, goal, ps, first + n + 1)
            else Over(ring, job, goal, status, ps)
  {
    var size := ring.slots.Length;
    OneMorePacket(job, goal, done, size, ring.cur, ring.tail, first, n);
    NextIsModular(goal.start, |done|, size);
    if !job.readOk(first + n) {
      return ReadError, done;
    }
    if ring.Empty() {
      return RingFull, done;
    }
    var packet := QueueOne(ring, job, n, goal.before, done);
    var synced := job.sync(first + n);
    if synced == SyncFailed {
      return SyncError, done + [packet];
    }
    ring.tail := synced.tail % size;
    return Completed, done + [packet];
  }

  /** The inner loop, whose first packet is number `first` of the run. */
  method LoadBlocks(ring: Ring, job: Job, first: nat, ghost goal: Goal, done: seq<TxPacket>)
      returns (status: Status, ps: seq<TxPacket>)
    requires Underway(ring, job, goal, done, first)
    requires first + job.nblocks <= goal.total && (job.nblocks > 0 ==> first % job.nblocks == 0)
    modifies ring, ring.slots
    ensures if status == Completed then Underway(ring, job, goal, ps, first + job.nblocks)
            else Over(ring, job, goal, status, ps)
  {
    status, ps := Completed, done;
    var n := 0;
    while n < job.nblocks
      invariant n <= job.nblocks
      invariant Underway(ring, job, goal, ps, first + n)
    {
      status, ps := LoadOne(ring, job, first, n, goal, ps);
      if status != Completed {
        return;
      }
      n := n + 1;
    }
    return Completed, ps;
  }

  /** The nested read-and-transmit loop of load-and-xmit is the flat run of count * nblocks packets. */
  method LoadAndXmit(ring: Ring, count: int, job: Job) returns (status: Status, ps: seq<TxPacket>)
    requires ring.Valid()
    modifies ring, ring.slots
    ensures ring.Valid()
    ensures (status, ps) == LoadRun(ring.slots.Length, old(ring.cur), old(ring.tail), job.slba, job.nblocks,
                                    (if count > 0 then count else 0) * job.nblocks, 0, job.readOk, job.sync)
    ensures ring.cur == ring.head == SlotAfter(old(ring.cur), |ps|, ring.slots.Length)
    ensures ReferenceSent(ring.slots[..], old(ring.slots[..]), old(ring.cur), |ps|, job.buf)
  {
    ghost var total, firsts := FirstsOfPasses(if count > 0 then count else 0, job.nblocks);
    NoPackets(if count > 0 then count else 0, job.nblocks);
    ghost var run := job.Rest(ring.slots.Length, ring.cur, ring.tail, total, 0);
    ghost var goal, tail := Goal(run, total, ring.slots[..], ring.cur), ring.tail;
    PendingStarts(run);
    NextIsModular(ring.cur, 0, ring.slots.Length);
    status, ps := Completed, [];
    var i, first := 0, 0;
    while i < count
      invariant 0 <= i < |firsts| && first == firsts[i]
      invariant Underway(ring, job, goal, ps, first)
    {
      status, ps := LoadBlocks(ring, job, first, goal, ps);
      if status != Completed {
        RunIsLoaded(ring.slots[..], goal, job, tail);
        return;
      }
      first := first + job.nblocks;
      i := i + 1;
    }
    PendingEnds(run, ps, [], Completed);
    RunIsLoaded(ring.slots[..], goal, job, tail);
    return Completed, ps;
  }

  /** The k slots from cur on refer to the data buffer, or with -b still to their own. */
  ghost predicate ReferenceSent(now: seq<Slot>, before: seq<Slot>, cur: nat, k: nat, buf: Option<Word>)
    requires cur < |now| == |before|
  {
    && OthersKept(now, before, cur, k)
    && forall j :: 0 <= j < |now| && j in RingOrder(cur, k, |now|) ==>
         && now[j].len == 1024
         && (buf.Some? ==> now[j].ptr == buf.value && now[j].flags == {Indirect})
         && (buf.None? ==> now[j].ptr == before[j].ptr && now[j].flags == before[j].flags)
  }

  lemma RunIsLoaded(now: seq<Slot>, goal: Goal, job: Job, tail: nat)
    requires goal.start < |now| == |goal.before| && tail < |now| && (goal.total > 0 ==> job.nblocks > 0)
    requires goal.run == job.Rest(|now|, goal.start, tail, goal.total, 0)
    requires SlotsLoaded(now, goal.before, goal.run.1, job.buf)
    ensures ReferenceSent(now, goal.before, goal.start, |goal.run.1|, job.buf)
  {
    var ps, slots := goal.run.1, RingOrder(goal.start, |goal.run.1|, |now|);
    forall k | 0 <= k < |ps| ensures ps[k].slot == slots[k] {
      LoadPacket(|now|, goal.start, tail, job.slba, job.nblocks, goal.total, 0, job.readOk, job.sync, k);
    }
    forall j | j in slots ensures exists p :: p in ps && p.slot == j {
      var k :| 0 <= k < |slots| && slots[k] == j;
      assert ps[k] in ps;
    }
  }

  lemma OnePass(i: nat, passes: nat, nblocks: nat)
    requires i < passes
    ensures i * nblocks + nblocks == (i + 1) * nblocks <= passes * nblocks
    ensures nblocks > 0 ==> i * nblocks % nblocks == 0
  {
    MulMono(i + 1, passes, nblocks);
    if nblocks > 0 {
      DivModUnique(i * nblocks, nblocks, i, 0);
    }
  }

  lemma NoPackets(passes: nat, nblocks: nat)
    ensures passes * nblocks > 0 ==> nblocks > 0
  {
  }

  /** The numbers of the first packets of all passes, and of the packet that would come after them. */
  lemma FirstsOfPasses(passes: nat, nblocks: nat) returns (total: nat, firsts: seq<nat>)
    ensures total == passes * nblocks
    ensures |firsts| == passes + 1 && firsts[0] == 0 && firsts[passes] == total
    ensures forall i :: 0 <= i < passes ==> firsts[i + 1] == firsts[i] + nblocks <= total
    ensures forall i :: 0 <= i < passes && nblocks > 0 ==> firsts[i] % nblocks == 0
  {
    total, firsts := passes * nblocks, seq(passes + 1, i requires 0 <= i => i * nblocks);
    forall i | 0 <= i < passes
      ensures firsts[i + 1] == firsts[i] + nblocks <= total && (nblocks > 0 ==> firsts[i] % nblocks == 0)
    {
      OnePass(i, passes, nblocks);
    }
  }

  /** From the slot assignment to the cursors: queue one packet. */
  method QueueOne(ring: Ring, job: Job, n: nat, ghost before: seq<Slot>, ghost done: seq<TxPacket>)
      returns (packet: TxPacket)
    requires ring.Valid() && |before| == ring.slots.Length && SlotsLoaded(ring.slots[..], before, done, job.buf)
    modifies ring`head, ring`cur, ring.slots
    ensures ring.Valid() && ring.cur == NextSlot(old(ring.cur), ring.slots.Length)
    ensures packet == TxPacket((job.slba + n) % WORD, old(ring.cur),
                               Distance(old(ring.cur), ring.tail, ring.slots.Length))
    ensures SlotsLoaded(ring.slots[..], before, done + [packet], job.buf)
  {
    var size := ring.slots.Length;
    var cur := ring.cur;
    packet := TxPacket((job.slba + n) % WORD, cur, Distance(cur, ring.tail, size));
    LoadHolds(ring.slots[..], before, done, job.buf, packet);
    ghost var loaded := ring.slots[..][cur := Loaded(ring.slots[cur], job.buf)];
    ring.slots[cur] := Loaded(ring.slots[cur], job.buf);
    assert ring.slots[..] == loaded;
    cur := NextSlot(cur, size);
    ring.head := cur;
    ring.cur := cur;
  }

  ghost predicate SlotsLoaded(now: seq<Slot>, before: seq<Slot>, ps: seq<TxPacket>, buf: Option<Word>)
    requires |now| == |before|
  {
    forall s :: 0 <= s < |now| ==>
      now[s] == if exists p :: p in ps && p.slot == s then Loaded(before[s], buf) else before[s]
  }

  lemma LoadHolds(now: seq<Slot>, before: seq<Slot>, ps: seq<TxPacket>, buf: Option<Word>, p: TxPacket)
    requires |now| == |before| && p.slot < |now| && SlotsLoaded(now, before, ps, buf)
    ensures SlotsLoaded(now[p.slot := Loaded(now[p.slot], buf)], before, ps + [p], buf)
  {
    assert p in ps + [p];
    assert forall q :: q in ps + [p] <==> q in ps || q == p;
  }
}
