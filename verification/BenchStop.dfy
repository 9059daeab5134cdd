/** How a run of the workload generator ends: the stop flag, the joins and the final counters. */
module BenchStop {
  import opened Arith
  import opened LbaWalk
  import opened BenchModel
  import opened BenchWorker
  import opened BenchReporter
  import opened BenchRuns

  // ----- A bound on what can still happen once the flag is set -----

  /** Steps a worker has left, with one to spare for each I/O it may still submit. */
  function WorkerFuel(c: Config, w: Worker): nat
  {
    var todo := if w.b <= c.batch then c.batch - w.b else 0;
    match w.pc
    case NotStarted => 3
    case Starting => 2
    case CheckStop => 1
    case Submit => 3 + 5 * c.batch + 2 * todo
    case Poll => 2 + 5 * todo
    case LoadBytes => 1 + 5 * todo
    case StoreBytes => 5 * todo
    case LoadCount => if todo == 0 then 0 else 5 * todo - 1
    case StoreCount => if todo == 0 then 0 else 5 * todo - 2
    case Exited => 0
  }

  function ReporterFuel(c: Config, r: Reporter): nat
  {
    var todo := if r.n <= c.ncpus then c.ncpus - r.n else 0;
    match r.pc
    case Dormant => 0
    case Stopped => 0
    case CheckFlag => 1
    case Print => 2
    case EndCount => 3 + 2 * todo
    case EndBytes => 2 + 2 * todo
    case Sleeping => 4 + 2 * c.ncpus
    case StartCount => 5 + 2 * c.ncpus + 2 * todo
    case StartBytes => 4 + 2 * c.ncpus + 2 * todo
  }

  function MainFuel(c: Config, m: MainPc): nat
  {
    match m
    case Joining(n) => 2 + (if n <= c.ncpus then c.ncpus - n else 0)
    case JoiningReporter => 1
    case _ => 0
  }

  function Fuels(c: Config, ws: seq<Worker>): seq<nat>
  {
    seq(|ws|, i requires 0 <= i < |ws| => WorkerFuel(c, ws[i]) + |ws[i].inflight|)
  }

  /** An upper bound on the number of steps, of whatever actor, still possible after the stop flag. */
  function Remaining(c: Config, s: State): nat
  {
    Sum(Fuels(c, s.workers)) + ReporterFuel(c, s.reporter) + MainFuel(c, s.main)
  }

  lemma WorkerBurnsFuel(c: Config, n: nat, w: Worker, rand: Word, ok: bool)
    requires c.Valid() && n < c.ncpus && WorkerEnabled(c, w, rand, ok) && WorkerInv(c, n, w)
    ensures var w' := WorkerNext(c, true, w, rand, ok);
            WorkerFuel(c, w') + |w'.inflight| < WorkerFuel(c, w) + |w.inflight|
  {
    WorkerFuelFalls(c, w, rand, ok);
    InflightGrows(c, w, rand, ok);
  }

  /** A worker's step costs one unit, a submission two. */
  lemma WorkerFuelFalls(c: Config, w: Worker, rand: Word, ok: bool)
    requires c.Valid() && WorkerEnabled(c, w, rand, ok) && Progress(c, w)
    ensures WorkerFuel(c, WorkerNext(c, true, w, rand, ok)) + One(w.pc == Submit && w.b < c.batch) < WorkerFuel(c, w)
  {
  }

  lemma InflightGrows(c: Config, w: Worker, rand: Word, ok: bool)
    requires c.Valid() && WorkerEnabled(c, w, rand, ok) && Descriptors(w)
    ensures |WorkerNext(c, true, w, rand, ok).inflight| == |w.inflight| + One(w.pc == Submit && w.b < c.batch)
  {
    assert |w.log| !in w.inflight;
  }

  /** Once the flag is set, every step of every actor uses up some of the remainder. */
  lemma StepBurnsFuel(c: Config, s: State, step: Step)
    requires c.Valid() && Inv(c, s) && s.stop && Enabled(c, s, step)
    ensures Remaining(c, Next(c, s, step)) < Remaining(c, s)
  {
    var s' := Next(c, s, step);
    match step
    case MainStep => MainBurnsFuel(c, s);
    case ReporterStep => ReporterBurnsFuel(c, s);
    case WorkerStep(n, rand, ok) =>
      assert WorkerInv(c, n, s.workers[n]);
      WorkerBurnsFuel(c, n, s.workers[n], rand, ok);
      OneFuelChanges(c, s.workers, n, s'.workers[n]);
    case Complete(n, id) =>
      assert |s'.workers[n].inflight| == |s.workers[n].inflight| - 1;
      OneFuelChanges(c, s.workers, n, s'.workers[n]);
  }

  lemma MainBurnsFuel(c: Config, s: State)
    requires c.Valid() && |s.workers| == c.ncpus && Stage(c, s) && s.stop && MainEnabled(c, s)
    ensures MainFuel(c, MainNext(c, s).main) < MainFuel(c, s.main)
    ensures MainNext(c, s).workers == s.workers && MainNext(c, s).reporter == s.reporter
  {
  }

  lemma ReporterBurnsFuel(c: Config, s: State)
    requires c.Valid() && |s.workers| == c.ncpus && s.stop && ReporterEnabled(c, s.reporter) && s.reporter.n <= c.ncpus
    ensures ReporterFuel(c, ReporterNext(c, true, s.workers, s.reporter)) < ReporterFuel(c, s.reporter)
  {
  }

  lemma OneFuelChanges(c: Config, ws: seq<Worker>, n: nat, w: Worker)
    requires n < |ws|
    requires WorkerFuel(c, w) + |w.inflight| < WorkerFuel(c, ws[n]) + |ws[n].inflight|
    ensures Sum(Fuels(c, ws[n := w])) < Sum(Fuels(c, ws))
  {
    var fuel := WorkerFuel(c, w) + |w.inflight|;
    assert Fuels(c, ws[n := w]) == Fuels(c, ws)[n := fuel];
    SumUpdate(Fuels(c, ws), n, fuel);
  }

  lemma StopIsFinal(c: Config, run: Run, i: nat, j: nat)
    requires IsRun(c, run) && i <= j < |run.states| && run.states[i].stop
    ensures run.states[j].stop
  {
    if i < j {
      StopIsFinal(c, run, i, j - 1);
      assert IsStep(c, run.states[j - 1], run.steps[j - 1], run.states[j]);
    }
  }

  lemma RunStepBurnsFuel(c: Config, run: Run, i: nat)
    requires IsRun(c, run) && i < |run.steps| && run.states[i].stop
    ensures Remaining(c, run.states[i + 1]) < Remaining(c, run.states[i])
  {
    RunInv(c, run, i);
    assert IsStep(c, run.states[i], run.steps[i], run.states[i + 1]);
    StepBurnsFuel(c, run.states[i], run.steps[i]);
  }

  /** After caught_signal is set, no schedule, fair or not, goes on for more than a number of steps
      that is fixed by the state in which it was set. */
  lemma {:induction false} StopEndsTheRun(c: Config, run: Run, i: nat, j: nat)
    requires IsRun(c, run) && i <= j < |run.states| && run.states[i].stop
    ensures (j - i) + Remaining(c, run.states[j]) <= Remaining(c, run.states[i])
  {
    if i < j {
      StopEndsTheRun(c, run, i, j - 1);
      StopIsFinal(c, run, i, j - 1);
      RunStepBurnsFuel(c, run, j - 1);
    }
  }

  /** Who can move in a reachable state. Threads and reporter never wait for one another: a started thread
      can always take its step, whatever number it draws, and a poll can always fail but succeeds only for
      a completed I/O. The device can complete any I/O in flight. Only main waits, and only in its joins. */
  lemma WhoCanMove(c: Config, run: Run, i: nat, n: nat, rand: Word, ok: bool, id: nat)
    requires IsRun(c, run) && i < |run.states| && n < c.ncpus
    ensures var s, w := run.states[i], run.states[i].workers[n];
            && (Enabled(c, s, WorkerStep(n, rand, ok))
                <==> w.pc != NotStarted && w.pc != Exited && rand <= 0x7fff_ffff
                     && (ok && w.pc == Poll && w.b < c.batch ==> |w.polled| !in w.inflight))
            && (Enabled(c, s, ReporterStep) <==> s.reporter.pc != Dormant && s.reporter.pc != Stopped)
            && (Enabled(c, s, Complete(n, id)) <==> id in w.inflight)
            && (Enabled(c, s, MainStep) <==>
                  && s.main != Finished && (s.main == JoiningReporter ==> s.reporter.pc == Stopped)
                  && (s.main == Joining(n) ==> w.pc == Exited)
                  && (s.main.Joining? && s.main.thread < c.ncpus ==> s.workers[s.main.thread].pc == Exited))
  {
    RunInv(c, run, i);
    assert WorkerInv(c, n, run.states[i].workers[n]);
    ProgressIsOrdered(c, run.states[i].workers[n]);
  }

  /** A run can only come to rest with main finished: some step is possible in every other state. */
  lemma NeverStuck(c: Config, run: Run, i: nat)
    requires IsRun(c, run) && i < |run.states| && run.states[i].main != Finished
    ensures exists step :: Enabled(c, run.states[i], step)
  {
    RunInv(c, run, i);
    var s := run.states[i];
    if s.main.Joining? && s.main.thread < c.ncpus && s.workers[s.main.thread].pc != Exited {
      var k := s.main.thread;
      assert WorkerInv(c, k, s.workers[k]) && Started(s.workers[k]);
      assert Enabled(c, s, WorkerStep(k, 0, false));
    } else if s.main.JoiningReporter? && s.reporter.pc != Stopped {
      assert Enabled(c, s, ReporterStep);
    } else {
      assert Enabled(c, s, MainStep);
    }
  }

  lemma StepStartsNoRound(c: Config, run: Run, i: nat, n: nat)
    requires IsRun(c, run) && i < |run.steps| && run.states[i].stop && n < c.ncpus
    ensures run.states[i + 1].workers[n].rounds == run.states[i].workers[n].rounds
  {
    RunInv(c, run, i);
    assert IsStep(c, run.states[i], run.steps[i], run.states[i + 1]);
  }

  /** After the flag is set no worker begins another round; it only finishes the one it is in. */
  lemma {:induction false} NoRoundAfterStop(c: Config, run: Run, i: nat, j: nat, n: nat)
    requires IsRun(c, run) && i <= j < |run.states| && run.states[i].stop && n < c.ncpus
    ensures run.states[j].workers[n].rounds == run.states[i].workers[n].rounds
    ensures |run.states[j].workers[n].log| <= run.states[i].workers[n].rounds * c.batch
  {
    if i < j {
      NoRoundAfterStop(c, run, i, j - 1, n);
      StopIsFinal(c, run, i, j - 1);
      StepStartsNoRound(c, run, j - 1, n);
    }
    SubmissionsFitRounds(c, run, j, n);
  }

  lemma SubmissionsFitRounds(c: Config, run: Run, j: nat, n: nat)
    requires IsRun(c, run) && j < |run.states| && n < c.ncpus
    ensures |run.states[j].workers[n].log| <= run.states[j].workers[n].rounds * c.batch
  {
    RunInv(c, run, j);
    assert WorkerInv(c, n, run.states[j].workers[n]);
    LogFitsRounds(c, run.states[j].workers[n]);
  }

  lemma LogFitsRounds(c: Config, w: Worker)
    requires Progress(c, w) && WholeRounds(c, w)
    ensures |w.log| <= w.rounds * c.batch
  {
    if w.pc == Submit || Polling(w) {
      assert w.rounds * c.batch == (w.rounds - 1) * c.batch + c.batch;
    }
  }

  /** When main has joined everybody, the counters that print_result receives are final and account
      for every submitted I/O of every thread. */
  lemma FinishedIsSettled(c: Config, run: Run, i: nat, n: nat)
    requires IsRun(c, run) && i < |run.states| && run.states[i].main == Finished && n < c.ncpus
    ensures var w := run.states[i].workers[n];
            && w.pc == Exited
            && |w.log| == |w.polled| == w.count.total + |w.failed| == w.rounds * c.batch
            && w.bytes.total == w.count.total * c.size
    ensures i < |run.steps| ==> exists n', id :: run.steps[i] == Complete(n', id)
  {
    RunInv(c, run, i);
    RoundBoundary(c, run, i, n);
    if i < |run.steps| {
      assert IsStep(c, run.states[i], run.steps[i], run.states[i + 1]);
      assert forall n' :: 0 <= n' < c.ncpus ==> run.states[i].workers[n'].pc == Exited;
      assert run.steps[i].Complete?;
    }
  }

  // ----- Why the absence of failed polls is needed -----

  ghost function Extend(c: Config, run: Run, step: Step): Run
    requires IsRun(c, run) && Enabled(c, run.states[|run.steps|], step)
  {
    Run(run.states + [Next(c, run.states[|run.steps|], step)], run.steps + [step])
  }

  lemma ExtendIsRun(c: Config, run: Run, step: Step)
    requires IsRun(c, run) && Enabled(c, run.states[|run.steps|], step)
    ensures IsRun(c, Extend(c, run, step))
    ensures var run' := Extend(c, run, step);
            run'.states[|run'.steps|] == Next(c, run.states[|run.steps|], step)
  {
    var run' := Extend(c, run, step);
    RunInv(c, run, |run.steps|);
    StepKept(c, run.states[|run.steps|], step);
    forall i | 0 <= i < |run'.steps| ensures IsStep(c, run'.states[i], run'.steps[i], run'.states[i + 1]) {
      if i < |run.steps| {
        assert IsStep(c, run.states[i], run.steps[i], run.states[i + 1]);
      }
    }
  }

  /** One more step of thread 0, whose poll, if it is one, returns a nonzero value. */
  lemma ThreadSteps(c: Config, run: Run) returns (run': Run)
    requires IsRun(c, run) && run.states[|run.steps|].stop == false
    requires WorkerEnabled(c, run.states[|run.steps|].workers[0], 0, false)
    ensures IsRun(c, run') && run'.states[|run'.steps|].stop == false
    ensures run'.states[|run'.steps|].workers[0] == WorkerNext(c, false, run.states[|run.steps|].workers[0], 0, false)
  {
    run' := Extend(c, run, WorkerStep(0, 0, false));
    ExtendIsRun(c, run, WorkerStep(0, 0, false));
  }

  /** The first steps of a run: main starts the first thread, whose first poll times out. The second
      round then submits buffer 0 again while the first I/O on it is still in flight. */
  lemma TimedOutBufferIsReused(c: Config)
    requires c == Config(Same, 512, 1, 1)
    ensures exists run :: IsRun(c, run) && |Outstanding(run.states[|run.steps|].workers[0], 0)| == 2
  {
    var run := Extend(c, Run([Init(c)], []), MainStep);
    ExtendIsRun(c, Run([Init(c)], []), MainStep);
    run := ThreadSteps(c, run);
    run := ThreadSteps(c, run);
    run := ThreadSteps(c, run);
    run := ThreadSteps(c, run);
    var w := run.states[|run.steps|].workers[0];
    assert w.pc == Poll && w.b == 0 && w.iod == map[0 := 0] && w.inflight == {0} && |w.log| == 1;
    run := ThreadSteps(c, run);
    run := ThreadSteps(c, run);
    run := ThreadSteps(c, run);
    run := ThreadSteps(c, run);
    w := run.states[|run.steps|].workers[0];
    assert w.inflight == {0, 1} && |w.log| == 2 && w.log[0].buf == w.log[1].buf == 0;
    assert Outstanding(w, 0) == {0, 1};
  }
}
