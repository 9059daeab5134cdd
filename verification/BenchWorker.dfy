/** What every worker keeps, in every reachable state of the workload generator. */
module BenchWorker {
  import opened Arith
  import opened LbaWalk
  import opened BenchModel

  /** The worker is between a successful poll and the end of its counter updates. */
  predicate Crediting(w: Worker)
  {
    w.pc in {LoadBytes, StoreBytes, LoadCount, StoreCount}
  }

  /** The poll loop is running for the current round. */
  predicate Polling(w: Worker)
  {
    w.pc == Poll || Crediting(w)
  }

  function One(b: bool): nat
  {
    if b then 1 else 0
  }

  /** Rounds whose polls all belong to the past. */
  function ClosedRounds(w: Worker): nat
  {
    if w.rounds > 0 && (w.pc == Submit || Polling(w)) then w.rounds - 1 else w.rounds
  }

  /** Whole rounds are over. */
  ghost predicate WholeRounds(c: Config, w: Worker)
  {
    w.past == ClosedRounds(w) * c.batch
  }

  /** Position bookkeeping: how far submission and polling have got. */
  ghost predicate Progress(c: Config, w: Worker)
  {
    && (w.pc == Submit || Polling(w) ==> w.rounds > 0 && w.b <= c.batch)
    && (Crediting(w) ==> w.b < c.batch)
    && |w.log| == w.past + (if w.pc == Submit then w.b else if Polling(w) then c.batch else 0)
    && |w.polled| == w.past + (if Polling(w) then w.b + One(Crediting(w)) else 0)
    && (w.pc == Submit ==> forall k :: 0 <= k < w.b ==> k in w.iod && w.iod[k] == w.past + k)
    && (Polling(w) ==> forall k :: 0 <= k < c.batch ==> k in w.iod && w.iod[k] == w.past + k)
  }

  /** Every descriptor has been polled at most once, in submission order, and a descriptor is in
      flight only if it has not been polled or its poll returned a nonzero value. */
  ghost predicate Descriptors(w: Worker)
  {
    && (forall k :: 0 <= k < |w.polled| ==> w.polled[k] == k)
    && (forall id :: id in w.failed ==> id < |w.polled|)
    && (forall id :: id in w.inflight ==> id < |w.log|)
    && (forall id :: id in w.inflight && id < |w.polled| ==> id in w.failed)
  }

  /** The I/Os whose bytes have been added. */
  function PaidIos(w: Worker): nat
  {
    w.count.total + One(w.pc in {LoadCount, StoreCount})
  }

  /** The counters account for exactly the polls that returned 0. */
  ghost predicate Counters(c: Config, w: Worker)
  {
    CountsPolls(w) && w.bytes.total == c.size * PaidIos(w)
  }

  ghost predicate CountsPolls(w: Worker)
  {
    && w.count.Exact() && w.bytes.Exact() && w.reg.Exact()
    && w.count.total + |w.failed| + One(Crediting(w)) == |w.polled|
    && (w.pc == StoreBytes ==> w.reg == w.bytes)
    && (w.pc == StoreCount ==> w.reg == w.count)
  }

  /** Buffers are used in turn and addresses come from the walk. */
  ghost predicate Requests(c: Config, n: nat, w: Worker)
    requires c.Valid() && n < c.ncpus
  {
    && (w.pc != NotStarted ==> w.slba == SliceStart(c.ncpus, n))
    && (w.pc != NotStarted && w.pc != Starting ==> w.lba + c.Nblocks() <= BLOCK_END)
    && (w.pc != NotStarted && w.pc != Starting ==> OnWalk(c, w.slba, w.lba, |w.log|))
    && (forall k :: 0 <= k < |w.log| ==> GoodRequest(c, w.slba, k, w.log[k]))
  }

  /** What the walk says about the k-th address a thread uses. */
  ghost predicate OnWalk(c: Config, slba: Word, lba: Word, k: nat)
    requires c.Valid()
  {
    && (c.walk == Random ==> lba <= RAND_MAX)
    && (c.walk == Same ==> lba == slba)
    && (c.walk == Seq ==> lba == SeqIterate(slba, BLOCK_END, c.Nblocks(), k + 1))
  }

  ghost predicate GoodRequest(c: Config, slba: Word, k: nat, r: Request)
    requires c.Valid()
  {
    && c.batch > 0 && r.buf == k % c.batch
    && r.nblocks == c.Nblocks()
    && r.lba + r.nblocks <= BLOCK_END
    && OnWalk(c, slba, r.lba, k)
  }

  ghost predicate Untouched(w: Worker)
  {
    (w.pc == NotStarted || w.pc == Starting) ==> w.rounds == 0 && w.past == 0
  }

  ghost predicate WorkerInv(c: Config, n: nat, w: Worker)
    requires c.Valid() && n < c.ncpus
  {
    && Untouched(w)
    && Progress(c, w)
    && WholeRounds(c, w)
    && Descriptors(w)
    && Counters(c, w)
    && Requests(c, n, w)
  }

  lemma FreshWorker(c: Config, n: nat)
    requires c.Valid() && n < c.ncpus
    ensures WorkerInv(c, n, FRESH_WORKER)
  {
  }

  lemma AddressFits(c: Config, n: nat)
    requires c.Valid() && n < c.ncpus
    ensures SliceStart(c.ncpus, n) + c.Nblocks() <= BLOCK_END
    ensures c.Nblocks() < BLOCK_END
  {
    SlicesFit(c.size, c.ncpus, n);
  }

  lemma ProgressKept(c: Config, stop: bool, w: Worker, rand: Word, ok: bool)
    requires c.Valid() && WorkerEnabled(c, w, rand, ok)
    requires Untouched(w) && Progress(c, w)
    ensures var w' := WorkerNext(c, stop, w, rand, ok);
            var over := w.pc == Poll && w.b == c.batch;
            && Untouched(w') && Progress(c, w')
            && ClosedRounds(w') == ClosedRounds(w) + One(over)
            && w'.past == w.past + (if over then c.batch else 0)
  {
  }

  lemma WholeRoundsKept(c: Config, w: Worker, w': Worker, over: bool)
    requires WholeRounds(c, w) && ClosedRounds(w') == ClosedRounds(w) + One(over)
    requires w'.past == w.past + (if over then c.batch else 0)
    ensures WholeRounds(c, w')
  {
    var k := ClosedRounds(w);
    assert (k + 1) * c.batch == k * c.batch + c.batch;
  }

  /** The poll loop takes the descriptors in the order they were submitted. */
  ghost predicate PollsInOrder(c: Config, w: Worker)
  {
    w.pc == Poll && w.b < c.batch ==> w.b in w.iod && w.iod[w.b] == |w.polled|
  }

  lemma ProgressIsOrdered(c: Config, w: Worker)
    requires Progress(c, w)
    ensures PollsInOrder(c, w)
  {
  }

  lemma DescriptorsKept(c: Config, stop: bool, w: Worker, rand: Word, ok: bool)
    requires c.Valid() && WorkerEnabled(c, w, rand, ok)
    requires Progress(c, w) && Descriptors(w)
    ensures Descriptors(WorkerNext(c, stop, w, rand, ok))
  {
  }

  lemma CountsKept(c: Config, stop: bool, w: Worker, rand: Word, ok: bool)
    requires c.Valid() && WorkerEnabled(c, w, rand, ok)
    requires Descriptors(w) && CountsPolls(w)
    requires PollsInOrder(c, w)
    ensures CountsPolls(WorkerNext(c, stop, w, rand, ok))
  {
    if w.pc == StoreBytes {
      ModSum(w.reg.total, c.size);
    } else if w.pc == StoreCount {
      ModSum(w.reg.total, 1);
    }
  }

  lemma CountersKept(c: Config, stop: bool, w: Worker, rand: Word, ok: bool)
    requires c.Valid() && WorkerEnabled(c, w, rand, ok)
    requires PollsInOrder(c, w) && Descriptors(w) && Counters(c, w)
    ensures Counters(c, WorkerNext(c, stop, w, rand, ok))
  {
    CountsKept(c, stop, w, rand, ok);
    PaidKept(c, stop, w, rand, ok);
    Distribute(c.size, PaidIos(w), One(w.pc == StoreBytes));
  }

  /** Storing the bytes pays for one more I/O; nothing else changes what has been paid. */
  lemma PaidKept(c: Config, stop: bool, w: Worker, rand: Word, ok: bool)
    requires c.Valid() && WorkerEnabled(c, w, rand, ok)
    requires (w.pc == StoreBytes ==> w.reg == w.bytes) && (w.pc == StoreCount ==> w.reg == w.count)
    ensures var w' := WorkerNext(c, stop, w, rand, ok);
            && PaidIos(w') == PaidIos(w) + One(w.pc == StoreBytes)
            && w'.bytes.total == w.bytes.total + (if w.pc == StoreBytes then c.size else 0)
  {
  }

  lemma Distribute(k: nat, a: nat, b: nat)
    ensures k * (a + b) == k * a + k * b
  {
  }

  lemma ModSum(a: nat, b: nat)
    ensures (a % WORD + b % WORD) % WORD == (a + b) % WORD
  {
    ModAbsorb(a, b % WORD, WORD);
    ModAbsorb(b, a, WORD);
  }

  lemma AdvanceKept(c: Config, slba: Word, lba: Word, k: nat, rand: Word)
    requires c.Valid() && c.Nblocks() < BLOCK_END && lba + c.Nblocks() <= BLOCK_END && rand <= RAND_MAX
    requires OnWalk(c, slba, lba, k)
    ensures Advance(c, lba, rand) + c.Nblocks() <= BLOCK_END
    ensures OnWalk(c, slba, Advance(c, lba, rand), k + 1)
  {
    NextInRange(c.walk, lba, BLOCK_END, c.Nblocks(), rand);
  }

  lemma NextBuffer(c: Config, w: Worker)
    requires Progress(c, w) && WholeRounds(c, w) && w.pc == Submit && w.b < c.batch
    ensures |w.log| % c.batch == w.b
  {
    DivModUnique(|w.log|, c.batch, ClosedRounds(w), w.b);
  }

  lemma RequestsKept(c: Config, n: nat, stop: bool, w: Worker, rand: Word, ok: bool)
    requires c.Valid() && n < c.ncpus && WorkerEnabled(c, w, rand, ok)
    requires w.pc == Submit && w.b < c.batch ==> |w.log| % c.batch == w.b
    requires w.pc == Starting ==> w.log == []
    requires Untouched(w) && Requests(c, n, w)
    ensures Requests(c, n, WorkerNext(c, stop, w, rand, ok))
  {
    AddressFits(c, n);
    if w.pc == Submit && w.b < c.batch {
      AdvanceKept(c, w.slba, w.lba, |w.log|, rand);
    } else if w.pc == Starting {
      NextInRange(c.walk, w.slba, BLOCK_END, c.Nblocks(), rand);
      assert SeqIterate(w.slba, BLOCK_END, c.Nblocks(), 0) == w.slba;
    }
  }

  lemma WorkerKept(c: Config, n: nat, stop: bool, w: Worker, rand: Word, ok: bool)
    requires c.Valid() && n < c.ncpus && WorkerEnabled(c, w, rand, ok)
    requires WorkerInv(c, n, w)
    ensures WorkerInv(c, n, WorkerNext(c, stop, w, rand, ok))
  {
    ProgressKept(c, stop, w, rand, ok);
    WholeRoundsKept(c, w, WorkerNext(c, stop, w, rand, ok), w.pc == Poll && w.b == c.batch);
    DescriptorsKept(c, stop, w, rand, ok);
    ProgressIsOrdered(c, w);
    CountersKept(c, stop, w, rand, ok);
    if w.pc == Submit && w.b < c.batch {
      NextBuffer(c, w);
    }
    RequestsKept(c, n, stop, w, rand, ok);
  }
}
