/** What the threads have done, read off the steps of a run, against what the workers keep. The fields
    log, polled, failed and inflight of a worker exist only in the model; here they are tied to the
    submissions, polls and completions that happened. */
module BenchHistory {
  import opened Arith
  import opened LbaWalk
  import opened BenchModel
  import opened BenchWorker
  import opened BenchReporter
  import opened BenchRuns

  /** A poll of a descriptor and whether it returned 0. */
  datatype PollResult = PollResult(id: nat, ok: bool)

  /** What one thread has done: the requests it submitted, the random numbers it drew, its polls in order,
      and the descriptors that the device has completed for it. */
  datatype History = History(submitted: seq<Request>, draws: seq<Word>, polls: seq<PollResult>, completed: set<nat>)
  {
    function Then(h: History): History
    {
      History(submitted + h.submitted, draws + h.draws, polls + h.polls, completed + h.completed)
    }
  }

  const NOTHING := History([], [], [], {})

  /** What a thread does in one step of its own: it submits while the submit loop runs, polls while the
      poll loop runs, and draws a random number for its first address and for each one after a
      submission. */
  function OwnStep(c: Config, w: Worker, rand: Word, ok: bool): History
  {
    match w.pc
    case Starting => NOTHING.(draws := [rand])
    case Submit =>
      if w.b < c.batch then NOTHING.(submitted := [Request(w.b, w.lba, BlocksOf(c.size))], draws := [rand]) else NOTHING
    case Poll =>
      if w.b < c.batch && w.b in w.iod then NOTHING.(polls := [PollResult(w.iod[w.b], ok)]) else NOTHING
    case _ => NOTHING
  }

  /** What one step of the program adds to the history of thread n. */
  function Happens(c: Config, s: State, step: Step, n: nat): History
    requires n < |s.workers|
  {
    match step
    case WorkerStep(m, rand, ok) => if m == n then OwnStep(c, s.workers[n], rand, ok) else NOTHING
    case Complete(m, id) => if m == n then NOTHING.(completed := {id}) else NOTHING
    case _ => NOTHING
  }

  ghost function Past(c: Config, run: Run, n: nat, i: nat): History
    requires IsRun(c, run) && i < |run.states| && n < c.ncpus
  {
    if i == 0 then NOTHING
    else Past(c, run, n, i - 1).Then(Happens(c, run.states[i - 1], run.steps[i - 1], n))
  }

  /** The number of polls that returned 0. */
  function Successes(polls: seq<PollResult>): nat
  {
    if polls == [] then 0 else Successes(polls[..|polls| - 1]) + One(polls[|polls| - 1].ok)
  }

  /** The polls were of descriptors 0, 1, 2 and so on; those that returned nonzero are `failed`, and the
      I/Os counted, with the one that is about to be, are those that returned 0. */
  ghost predicate PollsTold(w: Worker, polls: seq<PollResult>)
  {
    && |w.polled| == |polls|
    && (forall k :: 0 <= k < |polls| ==> polls[k].id == k)
    && (forall id: nat :: id in w.failed <==> id < |polls| && !polls[id].ok)
    && w.count.total + One(Crediting(w)) == Successes(polls)
  }

  /** The I/Os in flight are those submitted and not completed. */
  ghost predicate FlightTold(w: Worker, h: History)
  {
    && w.log == h.submitted
    && (forall id :: id in h.completed ==> id < |h.submitted|)
    && (forall id: nat :: id in w.inflight <==> id < |h.submitted| && id !in h.completed)
  }

  /** Draw k is what the address of request k was computed from. */
  ghost predicate DrawsTold(c: Config, w: Worker, h: History)
    requires c.Valid() && c.Nblocks() < BLOCK_END
  {
    if w.pc in {NotStarted, Starting} then h.draws == [] && w.log == []
    else
      && |h.draws| == |w.log| + 1
      && (c.walk == Random ==> w.lba == h.draws[|w.log|] % (0xe8e088b0 - BlocksOf(c.size)))
      && (c.walk == Random ==>
            forall k :: 0 <= k < |w.log| ==> w.log[k].lba == h.draws[k] % (0xe8e088b0 - BlocksOf(c.size)))
  }

  lemma SuccessesAdd(polls: seq<PollResult>, p: PollResult)
    ensures Successes(polls + [p]) == Successes(polls) + One(p.ok)
  {
    assert (polls + [p])[..|polls|] == polls;
  }

  lemma PollsKept(c: Config, stop: bool, w: Worker, rand: Word, ok: bool, polls: seq<PollResult>)
    requires c.Valid() && WorkerEnabled(c, w, rand, ok)
    requires CountsPolls(w) && PollsInOrder(c, w) && PollsTold(w, polls)
    ensures PollsTold(WorkerNext(c, stop, w, rand, ok), polls + OwnStep(c, w, rand, ok).polls)
  {
    if w.pc == Poll && w.b < c.batch {
      OnePollKept(c, stop, w, rand, ok, polls);
    } else {
      assert polls + [] == polls;
    }
  }

  lemma OnePollKept(c: Config, stop: bool, w: Worker, rand: Word, ok: bool, polls: seq<PollResult>)
    requires c.Valid() && WorkerEnabled(c, w, rand, ok) && w.pc == Poll && w.b < c.batch
    requires PollsInOrder(c, w) && PollsTold(w, polls)
    ensures PollsTold(WorkerNext(c, stop, w, rand, ok), polls + [PollResult(w.iod[w.b], ok)])
  {
    SuccessesAdd(polls, PollResult(w.iod[w.b], ok));
  }

  lemma FlightKept(c: Config, stop: bool, w: Worker, rand: Word, ok: bool, h: History)
    requires c.Valid() && WorkerEnabled(c, w, rand, ok) && FlightTold(w, h)
    ensures FlightTold(WorkerNext(c, stop, w, rand, ok), h.Then(OwnStep(c, w, rand, ok)))
  {
  }

  lemma RandomAddress(c: Config, lba: Word, rand: Word)
    requires c.Valid() && c.walk == Random && c.Nblocks() < BLOCK_END
    ensures Advance(c, lba, rand) == rand % (BLOCK_END - c.Nblocks())
  {
    DivModUnique(BLOCK_END - c.Nblocks(), WORD, 0, BLOCK_END - c.Nblocks());
  }

  lemma DrawsKept(c: Config, stop: bool, w: Worker, rand: Word, ok: bool, h: History)
    requires c.Valid() && WorkerEnabled(c, w, rand, ok) && c.Nblocks() < BLOCK_END && DrawsTold(c, w, h)
    ensures DrawsTold(c, WorkerNext(c, stop, w, rand, ok), h.Then(OwnStep(c, w, rand, ok)))
  {
    if c.walk == Random {
      RandomAddress(c, w.lba, rand);
      RandomAddress(c, w.slba, rand);
    }
  }

  ghost predicate Told(c: Config, w: Worker, h: History)
    requires c.Valid() && c.Nblocks() < BLOCK_END
  {
    PollsTold(w, h.polls) && FlightTold(w, h) && DrawsTold(c, w, h)
  }

  lemma StepTold(c: Config, s: State, step: Step, n: nat, h: History)
    requires c.Valid() && Inv(c, s) && Enabled(c, s, step) && n < c.ncpus && c.Nblocks() < BLOCK_END
    requires Told(c, s.workers[n], h)
    ensures Told(c, Next(c, s, step).workers[n], h.Then(Happens(c, s, step, n)))
  {
    var w := s.workers[n];
    assert WorkerInv(c, n, w);
    if step.WorkerStep? && step.n == n {
      ProgressIsOrdered(c, w);
      PollsKept(c, s.stop, w, step.rand, step.ok, h.polls);
      FlightKept(c, s.stop, w, step.rand, step.ok, h);
      DrawsKept(c, s.stop, w, step.rand, step.ok, h);
    } else {
      OthersTellNothing(c, s, step, n, h);
    }
  }

  lemma OthersTellNothing(c: Config, s: State, step: Step, n: nat, h: History)
    requires c.Valid() && |s.workers| == c.ncpus && Enabled(c, s, step) && n < c.ncpus && c.Nblocks() < BLOCK_END
    requires Stage(c, s) && Told(c, s.workers[n], h) && !(step.WorkerStep? && step.n == n)
    ensures Told(c, Next(c, s, step).workers[n], h.Then(Happens(c, s, step, n)))
  {
    assert h.draws + [] == h.draws && h.polls + [] == h.polls && h.submitted + [] == h.submitted;
  }

  lemma NothingIsTold(c: Config, n: nat)
    requires c.Valid() && n < c.ncpus
    ensures c.Nblocks() < BLOCK_END && Told(c, FRESH_WORKER, NOTHING)
  {
    AddressFits(c, n);
  }

  lemma NextIsTold(c: Config, run: Run, n: nat, i: nat)
    requires IsRun(c, run) && i < |run.steps| && n < c.ncpus && c.Nblocks() < BLOCK_END
    requires Told(c, run.states[i].workers[n], Past(c, run, n, i))
    ensures Told(c, run.states[i + 1].workers[n], Past(c, run, n, i + 1))
  {
    RunInv(c, run, i);
    assert IsStep(c, run.states[i], run.steps[i], run.states[i + 1]);
    StepTold(c, run.states[i], run.steps[i], n, Past(c, run, n, i));
  }

  /** In every state of every run and for every thread: the model's bookkeeping is what happened. */
  lemma {:induction false} HistoryIsTold(c: Config, run: Run, n: nat, i: nat)
    requires IsRun(c, run) && i < |run.states| && n < c.ncpus
    ensures c.Nblocks() < BLOCK_END && Told(c, run.states[i].workers[n], Past(c, run, n, i))
  {
    if i == 0 {
      NothingIsTold(c, n);
    } else {
      HistoryIsTold(c, run, n, i - 1);
      NextIsTold(c, run, n, i - 1);
    }
  }

  /** The counters follow from the polls alone: at a round boundary a thread has polled everything it has
      submitted, its count is the number of polls that returned 0, and its bytes are that many I/Os. In
      between, the I/O being credited is the only difference. */
  lemma CountersFollowPolls(c: Config, run: Run, n: nat, i: nat)
    requires IsRun(c, run) && i < |run.states| && n < c.ncpus
    ensures var w, h := run.states[i].workers[n], Past(c, run, n, i);
            && w.count.total <= Successes(h.polls) <= w.count.total + 1
            && c.size * w.count.total <= w.bytes.total <= c.size * Successes(h.polls)
            && (w.pc in {CheckStop, Exited} ==>
                  && |h.polls| == |h.submitted| == w.rounds * c.batch
                  && w.count.total == Successes(h.polls) && w.bytes.total == c.size * Successes(h.polls))
  {
    HistoryIsTold(c, run, n, i);
    RunInv(c, run, i);
    var w, h := run.states[i].workers[n], Past(c, run, n, i);
    assert WorkerInv(c, n, w);
    if w.pc in {CheckStop, Exited} {
      RoundBoundary(c, run, i, n);
    }
    PaidBetween(c, w, Successes(h.polls));
  }

  lemma PaidBetween(c: Config, w: Worker, successes: nat)
    requires w.bytes.total == c.size * PaidIos(w) && w.count.total + One(Crediting(w)) == successes
    ensures c.size * w.count.total <= w.bytes.total <= c.size * successes
  {
    MulMono(w.count.total, PaidIos(w), c.size);
    MulMono(PaidIos(w), successes, c.size);
  }
}
