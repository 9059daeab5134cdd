/** The promises of the workload generator, over whole runs and every interleaving. */
module BenchRuns {
  import opened Arith
  import opened LbaWalk
  import opened BenchModel
  import opened BenchWorker
  import opened BenchReporter

  predicate Started(w: Worker)
  {
    w.pc != NotStarted
  }

  /** How far main has got, and what that says about the threads and the stop flag. */
  ghost predicate Stage(c: Config, s: State)
    requires |s.workers| == c.ncpus
  {
    && s.stop == (s.main.Joining? || s.main.JoiningReporter? || s.main.Finished?)
    && (!s.stop ==> s.reporter.pc != Stopped && forall i :: 0 <= i < c.ncpus ==> s.workers[i].pc != Exited)
    && match s.main
       case Creating(k) =>
         k <= c.ncpus && s.reporter.pc == Dormant && forall i :: 0 <= i < c.ncpus ==> Started(s.workers[i]) == (i < k)
       case CreatingReporter =>
         s.reporter.pc == Dormant && forall i :: 0 <= i < c.ncpus ==> Started(s.workers[i])
       case Waiting =>
         s.reporter.pc != Dormant && forall i :: 0 <= i < c.ncpus ==> Started(s.workers[i])
       case Joining(k) =>
         && k <= c.ncpus && s.reporter.pc != Dormant
         && (forall i :: 0 <= i < c.ncpus ==> Started(s.workers[i]))
         && (forall i :: 0 <= i < k ==> s.workers[i].pc == Exited)
       case JoiningReporter =>
         s.reporter.pc != Dormant && forall i :: 0 <= i < c.ncpus ==> s.workers[i].pc == Exited
       case Finished =>
         s.reporter.pc == Stopped && forall i :: 0 <= i < c.ncpus ==> s.workers[i].pc == Exited
  }

  ghost predicate AllWorkers(c: Config, ws: seq<Worker>)
    requires c.Valid() && |ws| == c.ncpus
  {
    forall i :: 0 <= i < c.ncpus ==> WorkerInv(c, i, ws[i])
  }

  ghost predicate Inv(c: Config, s: State)
    requires c.Valid()
  {
    && |s.workers| == c.ncpus
    && AllWorkers(c, s.workers)
    && Stage(c, s)
    && ReporterInv(c, s.workers, s.reporter)
  }

  lemma InitInv(c: Config)
    requires c.Valid()
    ensures Inv(c, Init(c))
  {
    forall i | 0 <= i < c.ncpus ensures WorkerInv(c, i, Init(c).workers[i]) {
      FreshWorker(c, i);
    }
  }

  lemma InvIsPaid(c: Config, s: State)
    requires c.Valid() && Inv(c, s)
    ensures Paid(c, s.workers)
  {
    forall i | 0 <= i < c.ncpus ensures s.workers[i].bytes.total >= c.size * s.workers[i].count.total {
      assert WorkerInv(c, i, s.workers[i]);
      Distribute(c.size, s.workers[i].count.total, One(s.workers[i].pc in {LoadCount, StoreCount}));
    }
  }

  /** Replacing one worker by one that has counted on keeps everything but the stage. */
  lemma WorkerChange(c: Config, s: State, n: nat, w: Worker)
    requires c.Valid() && Inv(c, s) && n < c.ncpus
    requires WorkerInv(c, n, w)
    requires forall f :: Read(s.workers[n], f).total <= Read(w, f).total
    ensures Grown(s.workers, s.workers[n := w])
    ensures ReporterInv(c, s.workers[n := w], s.reporter)
    ensures AllWorkers(c, s.workers[n := w])
  {
    ReporterKeptByWorkers(c, s.workers, s.workers[n := w], s.reporter);
  }

  lemma WorkerCountsUp(c: Config, n: nat, stop: bool, w: Worker, rand: Word, ok: bool, f: Field)
    requires c.Valid() && n < c.ncpus && WorkerEnabled(c, w, rand, ok) && WorkerInv(c, n, w)
    ensures Read(w, f).total <= Read(WorkerNext(c, stop, w, rand, ok), f).total
  {
  }

  lemma CreateKept(c: Config, s: State, k: nat)
    requires c.Valid() && Inv(c, s) && s.main == Creating(k) && k < c.ncpus
    ensures Inv(c, MainNext(c, s))
    ensures Grown(s.workers, MainNext(c, s).workers)
  {
    assert WorkerInv(c, k, s.workers[k]) && !Started(s.workers[k]);
    var w := s.workers[k].(pc := Starting, slba := SliceStart(c.ncpus, k) % WORD);
    CreatedWorker(c, k, s.workers[k]);
    WorkerChange(c, s, k, w);
  }

  lemma CreatedWorker(c: Config, k: nat, w: Worker)
    requires c.Valid() && k < c.ncpus && WorkerInv(c, k, w) && w.pc == NotStarted
    ensures WorkerInv(c, k, w.(pc := Starting, slba := SliceStart(c.ncpus, k) % WORD))
  {
    AddressFits(c, k);
  }

  lemma MainKept(c: Config, s: State)
    requires c.Valid() && Inv(c, s) && MainEnabled(c, s)
    ensures Inv(c, MainNext(c, s))
    ensures Grown(s.workers, MainNext(c, s).workers)
  {
    if s.main.Creating? && s.main.next < c.ncpus {
      CreateKept(c, s, s.main.next);
    } else {
      MainMoves(c, s);
    }
  }

  /** Apart from creating threads, main changes only its own position, the flag and the reporter's start. */
  lemma MainMoves(c: Config, s: State)
    requires c.Valid() && |s.workers| == c.ncpus && MainEnabled(c, s) && Stage(c, s)
    requires ReporterInv(c, s.workers, s.reporter)
    requires !(s.main.Creating? && s.main.next < c.ncpus)
    ensures MainNext(c, s).workers == s.workers && Stage(c, MainNext(c, s))
    ensures ReporterInv(c, s.workers, MainNext(c, s).reporter)
  {
  }

  lemma WorkerStepKept(c: Config, s: State, n: nat, rand: Word, ok: bool)
    requires c.Valid() && Inv(c, s) && Enabled(c, s, WorkerStep(n, rand, ok))
    ensures Inv(c, Next(c, s, WorkerStep(n, rand, ok)))
    ensures Grown(s.workers, Next(c, s, WorkerStep(n, rand, ok)).workers)
  {
    var w := s.workers[n];
    assert WorkerInv(c, n, w);
    var w' := WorkerNext(c, s.stop, w, rand, ok);
    WorkerKept(c, n, s.stop, w, rand, ok);
    forall f ensures Read(w, f).total <= Read(w', f).total {
      WorkerCountsUp(c, n, s.stop, w, rand, ok, f);
    }
    WorkerChange(c, s, n, w');
    StageKept(c, s, n, w');
  }

  lemma CompleteKept(c: Config, s: State, n: nat, id: nat)
    requires c.Valid() && Inv(c, s) && Enabled(c, s, Complete(n, id))
    ensures Inv(c, Next(c, s, Complete(n, id)))
    ensures Grown(s.workers, Next(c, s, Complete(n, id)).workers)
  {
    var w := s.workers[n].(inflight := s.workers[n].inflight - {id});
    CompletedWorker(c, n, s.workers[n], id);
    WorkerChange(c, s, n, w);
    StageKept(c, s, n, w);
  }

  lemma CompletedWorker(c: Config, n: nat, w: Worker, id: nat)
    requires c.Valid() && n < c.ncpus && WorkerInv(c, n, w)
    ensures WorkerInv(c, n, w.(inflight := w.inflight - {id}))
  {
  }

  /** The stage only cares whether a thread has started and whether it has exited. */
  lemma StageKept(c: Config, s: State, n: nat, w: Worker)
    requires |s.workers| == c.ncpus && n < c.ncpus && Stage(c, s)
    requires Started(s.workers[n]) == Started(w)
    requires s.workers[n].pc == Exited ==> w.pc == Exited
    requires !s.stop ==> w.pc != Exited
    ensures Stage(c, s.(workers := s.workers[n := w]))
  {
  }

  /** A step changes what belongs to its actor and nothing else. Main touches a thread only to create it
      and the reporter only to start it, the device touches only the I/Os in flight, and the stop flag is
      set once, by main. */
  lemma StepsAreTheirOwn(c: Config, s: State, step: Step, n: nat)
    requires c.Valid() && |s.workers| == c.ncpus && Enabled(c, s, step) && n < c.ncpus
    ensures var s' := Next(c, s, step);
            && (s'.main != s.main ==> step == MainStep)
            && (s'.stop != s.stop ==> step == MainStep && s.main == Waiting && s'.stop)
            && (s'.reporter != s.reporter ==>
                  || step == ReporterStep
                  || (step == MainStep && s.main == CreatingReporter && s'.reporter == s.reporter.(pc := CheckFlag)))
            && (s'.workers[n] != s.workers[n] ==>
                  || (step.WorkerStep? && step.n == n)
                  || (step.Complete? && step.n == n
                      && s'.workers[n] == s.workers[n].(inflight := s.workers[n].inflight - {step.id}))
                  || (step == MainStep && s.main == Creating(n)
                      && s'.workers[n] == s.workers[n].(pc := Starting, slba := SliceStart(c.ncpus, n) % WORD)))
  {
  }

  /** No step of any thread, of main or of the device breaks the invariant, and no counter goes down. */
  lemma StepKept(c: Config, s: State, step: Step)
    requires c.Valid() && Inv(c, s) && Enabled(c, s, step)
    ensures Inv(c, Next(c, s, step))
    ensures Grown(s.workers, Next(c, s, step).workers)
  {
    match step
    case MainStep => MainKept(c, s);
    case WorkerStep(n, rand, ok) => WorkerStepKept(c, s, n, rand, ok);
    case ReporterStep =>
      InvIsPaid(c, s);
      ReporterKept(c, s.stop, s.workers, s.reporter);
    case Complete(n, id) => CompleteKept(c, s, n, id);
  }

  /** The invariant holds in every state of every run. */
  lemma {:induction false} RunInv(c: Config, run: Run, i: nat)
    requires IsRun(c, run) && i < |run.states|
    ensures Inv(c, run.states[i])
  {
    if i == 0 {
      InitInv(c);
    } else {
      RunInv(c, run, i - 1);
      assert IsStep(c, run.states[i - 1], run.steps[i - 1], run.states[i]);
      StepKept(c, run.states[i - 1], run.steps[i - 1]);
    }
  }

  lemma RunStepGrows(c: Config, run: Run, i: nat)
    requires IsRun(c, run) && i < |run.steps|
    ensures Grown(run.states[i].workers, run.states[i + 1].workers)
  {
    RunInv(c, run, i);
    assert IsStep(c, run.states[i], run.steps[i], run.states[i + 1]);
    StepKept(c, run.states[i], run.steps[i]);
  }

  lemma GrownTransitive(a: seq<Worker>, b: seq<Worker>, c: seq<Worker>)
    requires Grown(a, b) && Grown(b, c)
    ensures Grown(a, c)
  {
  }

  lemma {:induction false} RunGrows(c: Config, run: Run, i: nat, j: nat)
    requires IsRun(c, run) && i <= j < |run.states|
    ensures Grown(run.states[i].workers, run.states[j].workers)
  {
    if i < j {
      RunGrows(c, run, i, j - 1);
      RunStepGrows(c, run, j - 1);
      GrownTransitive(run.states[i].workers, run.states[j - 1].workers, run.states[j].workers);
    }
  }

  // ----- The reporter -----

  /** Whenever an interim line is printed, neither subtraction wraps in unbounded arithmetic, each
      sum of bytes covers its sum of I/Os, and the words printed are the true differences modulo
      2^64: exactly the true differences while those fit a word, even after a counter wrapped. */
  lemma InterimIsTrueDifference(c: Config, run: Run, i: nat)
    requires IsRun(c, run) && i < |run.states| && run.states[i].reporter.pc == Print
    ensures var r := run.states[i].reporter;
            var line := ReporterNext(c, run.states[i].stop, run.states[i].workers, r).printed[|r.printed|];
            && r.countStart.total <= r.countEnd.total
            && r.bytesStart.total <= r.bytesEnd.total
            && c.size * r.countStart.total <= r.bytesStart.total
            && c.size * r.countEnd.total <= r.bytesEnd.total
            && line.count == (r.countEnd.total - r.countStart.total) % WORD
            && line.bytes == (r.bytesEnd.total - r.bytesStart.total) % WORD
  {
    RunInv(c, run, i);
    var r := run.states[i].reporter;
    DifferenceIsExact(r.countEnd, r.countStart);
    DifferenceIsExact(r.bytesEnd, r.bytesStart);
  }

  lemma DifferenceIsExact(end: Counter, start: Counter)
    requires end.Exact() && start.Exact() && start.total <= end.total
    ensures Difference(end, start) == (end.total - start.total) % WORD
  {
    var a, b := end.total, start.total;
    ModAbsorb(a, (WORD - b % WORD), WORD);
    assert a + (WORD - b % WORD) == (a - b) + (b / WORD + 1) * WORD;
    ModAddMultiple(a - b, WORD, b / WORD + 1);
    var d := a % WORD - b % WORD;
    assert (a % WORD + (WORD - b % WORD)) % WORD == d % WORD by {
      if d < 0 {
        DivModUnique(d + WORD, WORD, 0, d + WORD);
      } else {
        ModAddMultiple(d, WORD, 1);
      }
    }
  }

  /** The accumulator lies between what the fields read so far held in `base` and what they hold now. */
  ghost predicate Between(c: Config, base: seq<nat>, s: State, p: Pass, f: Field)
    requires |s.workers| == c.ncpus == |base|
  {
    var read := ReadSoFar(c, s.reporter, p, f);
    && read <= c.ncpus
    && Sum(base[..read]) <= Accumulator(s.reporter, p, f).total <= Sum(Values(s.workers, f)[..read])
  }

  lemma BetweenKept(c: Config, base: seq<nat>, s: State, step: Step, p: Pass, f: Field)
    requires c.Valid() && |base| == |s.workers| == c.ncpus && Enabled(c, s, step)
    requires ReporterInv(c, s.workers, s.reporter) && Between(c, base, s, p, f)
    requires InPass(s.reporter, p) && InPass(Next(c, s, step).reporter, p)
    requires forall i :: 0 <= i < c.ncpus ==> base[i] <= Values(s.workers, f)[i]
    requires Grown(s.workers, Next(c, s, step).workers)
    ensures Between(c, base, Next(c, s, step), p, f)
  {
    var s' := Next(c, s, step);
    PassStep(c, s, step, p, f);
    var read, read' := ReadSoFar(c, s.reporter, p, f), ReadSoFar(c, s'.reporter, p, f);
    if read' != read {
      SumPrefixStep(base, read);
      SumPrefixStep(Values(s.workers, f), read);
    }
    ValuesGrow(s.workers, s'.workers, f, read');
  }

  lemma BetweenRunStep(c: Config, run: Run, i: nat, j: nat, p: Pass, f: Field)
    requires IsRun(c, run) && i <= j < |run.steps| && PassLasts(run, i, j + 1, p)
    requires Between(c, Values(run.states[i].workers, f), run.states[j], p, f)
    ensures Between(c, Values(run.states[i].workers, f), run.states[j + 1], p, f)
  {
    RunInv(c, run, j);
    RunGrows(c, run, i, j);
    RunStepGrows(c, run, j);
    assert IsStep(c, run.states[j], run.steps[j], run.states[j + 1]);
    BetweenKept(c, Values(run.states[i].workers, f), run.states[j], run.steps[j], p, f);
  }

  /** The reporter is in one and the same pass from state i to state j. */
  ghost predicate PassLasts(run: Run, i: nat, j: nat, p: Pass)
    requires j < |run.states|
  {
    forall k :: i <= k <= j ==> InPass(run.states[k].reporter, p)
  }

  /** One pass over one field, from the state before its first read to any later state of the pass. */
  lemma {:induction false} PartialSumIsBetween(c: Config, run: Run, i: nat, j: nat, p: Pass, f: Field)
    requires IsRun(c, run) && i <= j < |run.states|
    requires PassLasts(run, i, j, p)
    requires ReadSoFar(c, run.states[i].reporter, p, f) == 0
    ensures Between(c, Values(run.states[i].workers, f), run.states[j], p, f)
  {
    if i == j {
      PassStarts(c, run, i, p, f);
    } else {
      PartialSumIsBetween(c, run, i, j - 1, p, f);
      BetweenRunStep(c, run, i, j - 1, p, f);
    }
  }

  lemma PassStarts(c: Config, run: Run, i: nat, p: Pass, f: Field)
    requires IsRun(c, run) && i < |run.states| && InPass(run.states[i].reporter, p)
    requires ReadSoFar(c, run.states[i].reporter, p, f) == 0
    ensures Between(c, Values(run.states[i].workers, f), run.states[i], p, f)
  {
    RunInv(c, run, i);
    PassStartsAtZero(c, run.states[i], p, f);
  }

  /** The accumulators start every pass at zero. */
  lemma PassStartsAtZero(c: Config, s: State, p: Pass, f: Field)
    requires c.Valid() && Inv(c, s) && InPass(s.reporter, p) && ReadSoFar(c, s.reporter, p, f) == 0
    ensures Accumulator(s.reporter, p, f).total == 0
  {
    assert Values(s.workers, f)[..0] == [];
  }

  /** The reporter's thread-by-thread sum, although not atomic, lies between the true total at its
      first read and the true total at its last one, in every schedule and for any number of threads. */
  lemma ReporterSumIsBetweenTotals(c: Config, run: Run, i: nat, j: nat, p: Pass, f: Field)
    requires IsRun(c, run) && i <= j < |run.states|
    requires PassLasts(run, i, j, p)
    requires ReadSoFar(c, run.states[i].reporter, p, f) == 0
    requires ReadSoFar(c, run.states[j].reporter, p, f) == c.ncpus
    ensures Sum(Values(run.states[i].workers, f)) <= Accumulator(run.states[j].reporter, p, f).total
    ensures Accumulator(run.states[j].reporter, p, f).total <= Sum(Values(run.states[j].workers, f))
  {
    PartialSumIsBetween(c, run, i, j, p, f);
    var before, after := Values(run.states[i].workers, f), Values(run.states[j].workers, f);
    assert before[..c.ncpus] == before && after[..c.ncpus] == after;
  }

  /** Between its passes the reporter keeps the sums of the first one. */
  lemma {:induction false} FirstSumIsKept(c: Config, run: Run, i: nat, j: nat, f: Field)
    requires IsRun(c, run) && i <= j < |run.states|
    requires forall k :: i <= k <= j ==> run.states[k].reporter.pc == Sleeping || InPass(run.states[k].reporter, Second)
    ensures Accumulator(run.states[j].reporter, First, f) == Accumulator(run.states[i].reporter, First, f)
  {
    if i < j {
      FirstSumIsKept(c, run, i, j - 1, f);
      assert IsStep(c, run.states[j - 1], run.steps[j - 1], run.states[j]);
    }
  }

  /** One whole interval: the first pass runs from state a to b, the sleep ends at state d, and the
      second pass runs from d to e. The difference that is printed counts at least everything credited
      between the passes and at most everything credited from the first read to the last. */
  lemma InterimIsBracketed(c: Config, run: Run, a: nat, b: nat, d: nat, e: nat, f: Field)
    requires IsRun(c, run) && a <= b < d <= e < |run.states|
    requires run.states[a].reporter.pc == StartCount && run.states[a].reporter.n == 0
    requires PassLasts(run, a, b, First)
    requires forall k :: b <= k < d ==> run.states[k].reporter.pc == Sleeping
    requires run.states[d].reporter.pc == EndCount && run.states[d].reporter.n == 0
    requires PassLasts(run, d, e, Second)
    requires run.states[e].reporter.pc == Print
    ensures var r := run.states[e].reporter;
            var shown := Accumulator(r, Second, f).total - Accumulator(r, First, f).total;
            && Sum(Values(run.states[d].workers, f)) - Sum(Values(run.states[b].workers, f)) <= shown
            && shown <= Sum(Values(run.states[e].workers, f)) - Sum(Values(run.states[a].workers, f))
  {
    ReporterSumIsBetweenTotals(c, run, a, b, First, f);
    ReporterSumIsBetweenTotals(c, run, d, e, Second, f);
    FirstSumIsKept(c, run, b, e, f);
  }

  // ----- The workers -----

  /** In every run, every request ever submitted stays on the device. In random mode it starts below
      2^31; in same mode it starts where the thread's slice does; in sequential mode the k-th request of
      a thread is the (k+1)-th address of the walk from there. */
  lemma EveryRequestInRange(c: Config, run: Run, i: nat, n: nat, k: nat)
    requires IsRun(c, run) && i < |run.states| && n < c.ncpus && k < |run.states[i].workers[n].log|
    ensures var r := run.states[i].workers[n].log[k];
            && r.nblocks == BlocksOf(c.size)
            && r.lba + r.nblocks <= BLOCK_END
            && (c.walk == Same ==> r.lba == SliceStart(c.ncpus, n))
            && (c.walk == Random ==> r.lba <= RAND_MAX)
            && SliceStart(c.ncpus, n) < BLOCK_END
            && (c.walk == Seq ==> r.lba == SeqIterate(SliceStart(c.ncpus, n), BLOCK_END, BlocksOf(c.size), k + 1))
  {
    RunInv(c, run, i);
    AddressFits(c, n);
    SlicesFit(c.size, c.ncpus, n);
    var w := run.states[i].workers[n];
    assert WorkerInv(c, n, w);
    assert GoodRequest(c, w.slba, k, w.log[k]);
    assert BLOCK_END / c.ncpus > 0 by { DivIsBound(BLOCK_END, c.ncpus, 1); }
  }

  lemma SameModeThreadsAreDisjoint(c: Config, run: Run, i: nat, n: nat, k: nat, n': nat, k': nat)
    requires IsRun(c, run) && i < |run.states| && c.walk == Same && n < c.ncpus && n' < c.ncpus && n != n'
    requires k < |run.states[i].workers[n].log| && k' < |run.states[i].workers[n'].log|
    ensures var r, r' := run.states[i].workers[n].log[k], run.states[i].workers[n'].log[k'];
            Disjoint(r.lba, r.nblocks, r'.lba, r'.nblocks)
  {
    EveryRequestInRange(c, run, i, n, k);
    EveryRequestInRange(c, run, i, n', k');
    if n < n' { SlicesDisjoint(c.size, c.ncpus, n, n'); } else { SlicesDisjoint(c.size, c.ncpus, n', n); }
  }

  /** In sequential mode, fewer than P requests of a thread in a row never overlap, from its first
      request on. The first and the last of P in a row overlap exactly when the first one was made before
      the thread's first fall to 0, on a climb that lags. */
  lemma SequentialWindowIff(c: Config, run: Run, i: nat, n: nat, k: nat, k': nat)
    requires IsRun(c, run) && i < |run.states| && c.walk == Seq && n < c.ncpus && c.size > 0
    requires k < k' < |run.states[i].workers[n].log|
    requires k' < k + Period(BLOCK_END, BlocksOf(c.size))
    ensures var r, r' := run.states[i].workers[n].log[k], run.states[i].workers[n].log[k'];
            var s, nb := SliceStart(c.ncpus, n), BlocksOf(c.size);
            && s < BLOCK_END && nb < BLOCK_END
            && (Disjoint(r.lba, r.nblocks, r'.lba, r'.nblocks)
                <==> !(k' == k + Period(BLOCK_END, nb) - 1 && k + 1 < Ramp(s, BLOCK_END, nb)
                       && Lagging(s, BLOCK_END, nb)))
  {
    EveryRequestInRange(c, run, i, n, k);
    EveryRequestInRange(c, run, i, n, k');
    AddressFits(c, n);
    PairInWindow(SliceStart(c.ncpus, n), BLOCK_END, BlocksOf(c.size), k + 1, k' + 1);
  }

  /** A period of the walk is longer than any batch. */
  lemma BatchFitsPeriod(c: Config)
    requires c.Valid() && c.size > 0
    ensures Period(BLOCK_END, BlocksOf(c.size)) > MAX_BATCH_SIZE
  {
    DivIsBound(BLOCK_END - 1, BlocksOf(c.size), MAX_BATCH_SIZE + 1);
  }

  /** So in sequential mode the requests of a batch never overlap one another, in any run, whatever the
      parameters. */
  lemma SequentialBatchIsDisjoint(c: Config, run: Run, i: nat, n: nat, k: nat, k': nat)
    requires IsRun(c, run) && i < |run.states| && c.walk == Seq && n < c.ncpus
    requires k < k' < |run.states[i].workers[n].log| && k' < k + c.batch
    ensures var r, r' := run.states[i].workers[n].log[k], run.states[i].workers[n].log[k'];
            Disjoint(r.lba, r.nblocks, r'.lba, r'.nblocks)
  {
    if c.size > 0 {
      BatchFitsPeriod(c);
      SequentialWindowIff(c, run, i, n, k, k');
    } else {
      EveryRequestInRange(c, run, i, n, k);
    }
  }

  /** At every round boundary each descriptor of every round has been polled exactly once, in the
      order of submission; successes and failures add up to rounds * batch; and the bytes counted
      are the I/Os counted times the size. */
  lemma RoundBoundary(c: Config, run: Run, i: nat, n: nat)
    requires IsRun(c, run) && i < |run.states| && n < c.ncpus
    requires run.states[i].workers[n].pc in {CheckStop, Exited}
    ensures var w := run.states[i].workers[n];
            && |w.log| == w.rounds * c.batch
            && w.polled == seq(|w.log|, k => k)
            && w.count.total + |w.failed| == w.rounds * c.batch
            && w.bytes.total == w.count.total * c.size
            && w.count.word == w.count.total % WORD && w.bytes.word == w.bytes.total % WORD
  {
    RunInv(c, run, i);
    assert WorkerInv(c, n, run.states[i].workers[n]);
    AtBoundary(c, run.states[i].workers[n]);
  }

  lemma AtBoundary(c: Config, w: Worker)
    requires Progress(c, w) && WholeRounds(c, w) && Descriptors(w) && Counters(c, w) && w.pc in {CheckStop, Exited}
    ensures |w.log| == w.rounds * c.batch == w.count.total + |w.failed|
    ensures w.polled == seq(|w.log|, k => k)
    ensures w.bytes.total == w.count.total * c.size
  {
  }

  /** What is left in flight on one buffer. */
  function Outstanding(w: Worker, buf: nat): set<nat>
  {
    set id | id in w.inflight && id < |w.log| && w.log[id].buf == buf
  }

  lemma OutstandingBuffer(c: Config, n: nat, w: Worker, id: nat, buf: nat)
    requires c.Valid() && n < c.ncpus && WorkerInv(c, n, w)
    ensures id in Outstanding(w, buf) <==> id in w.inflight && c.batch > 0 && id % c.batch == buf
    ensures id in w.inflight && id !in w.failed ==> |w.polled| <= id < |w.log| <= |w.polled| + c.batch
  {
    if id in w.inflight {
      assert GoodRequest(c, w.slba, id, w.log[id]);
    }
  }

  /** In every run at most `batch` of the I/Os in flight have not failed a poll, and of two I/Os on one
      buffer the older one has. */
  lemma NoBufferTwice(c: Config, run: Run, i: nat, n: nat, buf: nat, id: nat, id': nat)
    requires IsRun(c, run) && i < |run.states| && n < c.ncpus
    ensures var w := run.states[i].workers[n];
            && |w.inflight - w.failed| <= c.batch
            && (id in Outstanding(w, buf) && id' in Outstanding(w, buf) && id < id' ==> id in w.failed)
  {
    RunInv(c, run, i);
    var w := run.states[i].workers[n];
    assert WorkerInv(c, n, w);
    forall x | x in w.inflight - w.failed ensures |w.polled| <= x < |w.log| <= |w.polled| + c.batch {
      OutstandingBuffer(c, n, w, x, 0);
    }
    if w.inflight - w.failed != {} {
      InflightIsBounded(w.inflight - w.failed, |w.polled|, |w.log|);
    }
    OutstandingBuffer(c, n, w, id, buf);
    OutstandingBuffer(c, n, w, id', buf);
    if id in Outstanding(w, buf) && id' in Outstanding(w, buf) && id < id' && id !in w.failed {
      DifferentBuffers(id, id', c.batch);
    }
  }

  /** Two I/Os on one buffer. */
  predicate Doubled(w: Worker, buf: nat)
  {
    exists id, id' :: id in Outstanding(w, buf) && id' in Outstanding(w, buf) && id < id'
  }

  /** The submission that comes next is on a buffer whose last I/O failed a poll and is still in flight. */
  predicate Reusing(c: Config, w: Worker, buf: nat)
  {
    && w.pc == Submit && w.b < c.batch && w.b == buf
    && exists id :: id in w.failed && id in w.inflight && id % c.batch == buf
  }

  lemma OlderIoHasFailed(c: Config, n: nat, w: Worker, id: nat)
    requires c.Valid() && n < c.ncpus && WorkerInv(c, n, w) && w.pc == Submit && w.b < c.batch
    requires id in Outstanding(w, w.b)
    ensures id in w.failed
  {
    OutstandingBuffer(c, n, w, id, w.b);
    NextBuffer(c, w);
    if id !in w.failed {
      DifferentBuffers(id, |w.log|, c.batch);
    }
  }

  /** Before a submission, an I/O is on its buffer only if its poll failed. */
  lemma SubmissionMeetsFailed(c: Config, n: nat, w: Worker)
    requires c.Valid() && n < c.ncpus && WorkerInv(c, n, w) && w.pc == Submit && w.b < c.batch
    ensures Outstanding(w, w.b) != {} <==> Reusing(c, w, w.b)
  {
    if id :| id in Outstanding(w, w.b) {
      OlderIoHasFailed(c, n, w, id);
      OutstandingBuffer(c, n, w, id, w.b);
    }
    if Reusing(c, w, w.b) {
      var id: nat :| id in w.failed && id in w.inflight && id % c.batch == w.b;
      OutstandingBuffer(c, n, w, id, w.b);
    }
  }

  /** A submission adds its own I/O to its buffer; no other step adds to any. */
  lemma OutstandingAfter(c: Config, stop: bool, w: Worker, rand: Word, ok: bool, buf: nat)
    requires c.Valid() && WorkerEnabled(c, w, rand, ok) && Descriptors(w)
    ensures Outstanding(WorkerNext(c, stop, w, rand, ok), buf)
         == Outstanding(w, buf) + (if w.pc == Submit && w.b < c.batch && w.b == buf then {|w.log|} else {})
  {
  }

  lemma WorkerDoublesIff(c: Config, n: nat, stop: bool, w: Worker, rand: Word, ok: bool, buf: nat)
    requires c.Valid() && n < c.ncpus && WorkerInv(c, n, w) && WorkerEnabled(c, w, rand, ok)
    ensures Doubled(WorkerNext(c, stop, w, rand, ok), buf) <==> Doubled(w, buf) || Reusing(c, w, buf)
  {
    var w' := WorkerNext(c, stop, w, rand, ok);
    OutstandingAfter(c, stop, w, rand, ok, buf);
    if w.pc == Submit && w.b < c.batch && w.b == buf {
      SubmissionMeetsFailed(c, n, w);
      if id :| id in Outstanding(w, buf) {
        assert id < |w.log| && id in Outstanding(w', buf) && |w.log| in Outstanding(w', buf);
      }
    }
  }

  /** Over all runs and for every step: a buffer comes to have two I/Os in exactly one way, when its
      thread submits it while an earlier I/O on it, whose poll failed, is still in flight. */
  lemma BufferDoublesIff(c: Config, run: Run, i: nat, n: nat, buf: nat)
    requires IsRun(c, run) && i < |run.steps| && n < c.ncpus
    requires !Doubled(run.states[i].workers[n], buf)
    ensures Doubled(run.states[i + 1].workers[n], buf)
       <==> run.steps[i].WorkerStep? && run.steps[i].n == n && Reusing(c, run.states[i].workers[n], buf)
  {
    RunInv(c, run, i);
    var w, step := run.states[i].workers[n], run.steps[i];
    assert WorkerInv(c, n, w) && IsStep(c, run.states[i], step, run.states[i + 1]);
    if step.WorkerStep? && step.n == n {
      WorkerDoublesIff(c, n, run.states[i].stop, w, step.rand, step.ok, buf);
    } else {
      OthersAddNothing(c, run.states[i], step, n, buf);
    }
  }

  lemma OthersAddNothing(c: Config, s: State, step: Step, n: nat, buf: nat)
    requires c.Valid() && |s.workers| == c.ncpus && Enabled(c, s, step) && n < c.ncpus
    requires !(step.WorkerStep? && step.n == n)
    ensures Outstanding(Next(c, s, step).workers[n], buf) <= Outstanding(s.workers[n], buf)
  {
  }

  lemma DifferentBuffers(id: nat, id': nat, batch: nat)
    requires id < id' < id + batch
    ensures id % batch != id' % batch
  {
    ModEqualIff(id, id', batch);
    DivModUnique(id' - id, batch, 0, id' - id);
  }

  /** A set of numbers from lo up to hi has at most hi - lo elements. */
  lemma {:induction false} InflightIsBounded(s: set<nat>, lo: nat, hi: nat)
    requires lo <= hi && forall x :: x in s ==> lo <= x < hi
    ensures |s| <= hi - lo
    decreases hi - lo
  {
    if lo < hi {
      InflightIsBounded(s - {hi - 1}, lo, hi - 1);
      assert s <= (s - {hi - 1}) + {hi - 1};
      if hi - 1 in s {
        assert |s| == |s - {hi - 1}| + 1;
      } else {
        assert s - {hi - 1} == s;
      }
    } else {
      assert s == {};
    }
  }
}
