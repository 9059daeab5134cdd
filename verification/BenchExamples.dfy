/** A run of the workload generator that goes well: the model can do what it is meant to do. */
module BenchExamples {
  import opened Arith
  import opened LbaWalk
  import opened BenchModel
  import opened BenchRuns
  import opened BenchStop

  /** One more step of the run. */
  lemma Moves(c: Config, run: Run, step: Step) returns (run': Run)
    requires IsRun(c, run) && Enabled(c, run.states[|run.steps|], step)
    ensures IsRun(c, run')
    ensures run'.states[|run'.steps|] == Next(c, run.states[|run.steps|], step)
  {
    run' := Extend(c, run, step);
    ExtendIsRun(c, run, step);
  }

  function Last(run: Run): State
    requires |run.states| == |run.steps| + 1
  {
    run.states[|run.steps|]
  }

  const ONE := Config(Same, 512, 1, 1)

  /** The largest parameters that the model takes. */
  lemma Limits()
    ensures Config(Seq, 0x7fff_ffff, 258, 32).Valid()
  {
  }

  /** The only thread before it has done anything. */
  const CREATED := FRESH_WORKER.(pc := Starting)

  /** The thread after one I/O has been submitted, completed, polled and credited. */
  const CREDITED := Worker(Poll, 0, 0, 1, map[0 := 0], Counter(0, 0), Counter(512, 512), Counter(1, 1), 1, 0,
                           [Request(0, 0, 1)], {}, [0], {})

  lemma EverybodyStarts() returns (run: Run)
    ensures IsRun(ONE, run)
    ensures Last(run) == State(Waiting, false, [CREATED], Reporter(CheckFlag, 0, ZERO, ZERO, ZERO, ZERO, []))
  {
    run := Run([Init(ONE)], []);
    run := Moves(ONE, run, MainStep);
    assert Last(run).workers == [CREATED];
    run := Moves(ONE, run, MainStep);
    run := Moves(ONE, run, MainStep);
  }

  lemma ZerosAdd(a: Counter, b: Counter)
    requires a.word == 0 && b.word == 0 && a.total == 0 && b.total == 0
    ensures a.Plus(b) == Counter(0, 0)
  {
    DivModUnique(0, WORD, 0, 0);
  }

  lemma CountIsAdded(w: Worker, r: Reporter)
    requires r.pc == StartCount && r.n == 0
    ensures ReporterNext(ONE, false, [w], r) == r.(pc := StartBytes, countStart := r.countStart.Plus(w.count))
  {
  }

  lemma BytesAreAdded(w: Worker, r: Reporter)
    requires r.pc == StartBytes && r.n == 0
    ensures ReporterNext(ONE, false, [w], r) == r.(pc := StartCount, n := 1, bytesStart := r.bytesStart.Plus(w.bytes))
  {
  }

  lemma ThreadIsRead(w: Worker, r: Reporter)
    requires w.count == ZERO && w.bytes == ZERO && r == Reporter(StartCount, 0, ZERO, ZERO, ZERO, ZERO, [])
    ensures ReporterNext(ONE, false, [w], r) == r.(pc := StartBytes)
    ensures ReporterNext(ONE, false, [w], r.(pc := StartBytes)) == r.(n := 1)
  {
    CountIsAdded(w, r);
    BytesAreAdded(w, r.(pc := StartBytes));
    ZerosAdd(r.countStart, w.count);
    ZerosAdd(r.bytesStart, w.bytes);
  }

  lemma FirstPass(run: Run, w: Worker) returns (run': Run)
    requires IsRun(ONE, run) && w.count == ZERO && w.bytes == ZERO
    requires Last(run) == State(Waiting, false, [w], Reporter(CheckFlag, 0, ZERO, ZERO, ZERO, ZERO, []))
    ensures IsRun(ONE, run')
    ensures Last(run') == State(Waiting, false, [w], Reporter(Sleeping, 1, ZERO, ZERO, ZERO, ZERO, []))
  {
    var r := Reporter(StartCount, 0, ZERO, ZERO, ZERO, ZERO, []);
    run' := ReporterMoves(run, w, r.(pc := CheckFlag));
    run' := FirstReading(run', w, r);
  }

  lemma FirstReading(run: Run, w: Worker, r: Reporter) returns (run': Run)
    requires IsRun(ONE, run) && w.count == ZERO && w.bytes == ZERO
    requires r == Reporter(StartCount, 0, ZERO, ZERO, ZERO, ZERO, []) && Last(run) == State(Waiting, false, [w], r)
    ensures IsRun(ONE, run') && Last(run') == State(Waiting, false, [w], r.(pc := Sleeping, n := 1))
  {
    ThreadIsRead(w, r);
    run' := ReporterMoves(run, w, r);
    run' := ReporterMoves(run', w, r.(pc := StartBytes));
    run' := ReporterMoves(run', w, r.(n := 1));
  }

  /** The reporter's step, as a change of the reporter alone. */
  lemma ReporterMoves(run: Run, w: Worker, r: Reporter) returns (run': Run)
    requires IsRun(ONE, run) && Last(run) == State(Waiting, false, [w], r) && ReporterEnabled(ONE, r)
    ensures IsRun(ONE, run') && Last(run') == State(Waiting, false, [w], ReporterNext(ONE, false, [w], r))
  {
    run' := Moves(ONE, run, ReporterStep);
  }

  /** The thread's step, as a change of the thread alone. */
  lemma ThreadMoves(run: Run, w: Worker, r: Reporter, ok: bool) returns (run': Run)
    requires IsRun(ONE, run) && Last(run) == State(Waiting, false, [w], r) && WorkerEnabled(ONE, w, 0, ok)
    ensures IsRun(ONE, run') && Last(run') == State(Waiting, false, [WorkerNext(ONE, false, w, 0, ok)], r)
  {
    run' := Moves(ONE, run, WorkerStep(0, 0, ok));
  }

  /** The thread before the poll of its first I/O, which the device has completed. */
  const COMPLETED := Worker(Poll, 0, 0, 0, map[0 := 0], ZERO, ZERO, ZERO, 1, 0, [Request(0, 0, 1)], {}, [], {})

  lemma OneIsSubmitted(run: Run, r: Reporter) returns (run': Run)
    requires IsRun(ONE, run) && Last(run) == State(Waiting, false, [CREATED], r)
    ensures IsRun(ONE, run') && Last(run') == State(Waiting, false, [COMPLETED], r)
  {
    var w := CREATED;
    run' := ThreadMoves(run, w, r, true);
    w := WorkerNext(ONE, false, w, 0, true);
    run' := ThreadMoves(run', w, r, true);
    w := WorkerNext(ONE, false, w, 0, true);
    run' := ThreadMoves(run', w, r, true);
    w := WorkerNext(ONE, false, w, 0, true);
    run' := ThreadMoves(run', w, r, true);
    w := WorkerNext(ONE, false, w, 0, true);
    assert w == COMPLETED.(inflight := {0});
    run' := Moves(ONE, run', Complete(0, 0));
    assert {0} - {0} == {};
  }

  lemma OneIsCredited(run: Run, r: Reporter) returns (run': Run)
    requires IsRun(ONE, run) && Last(run) == State(Waiting, false, [COMPLETED], r)
    ensures IsRun(ONE, run') && Last(run') == State(Waiting, false, [CREDITED], r)
  {
    run' := ThreadMoves(run, COMPLETED, r, true);
    assert [] + [0] == [0];
    var w := COMPLETED.(pc := LoadBytes, polled := [0]);
    run' := ThreadMoves(run', w, r, true);
    w := w.(pc := StoreBytes);
    run' := ThreadMoves(run', w, r, true);
    w := w.(pc := LoadCount, bytes := Counter(512, 512));
    run' := BytesThenCount(run', w, r);
  }

  lemma BytesThenCount(run: Run, w: Worker, r: Reporter) returns (run': Run)
    requires w == COMPLETED.(pc := LoadCount, polled := [0], bytes := Counter(512, 512))
    requires IsRun(ONE, run) && Last(run) == State(Waiting, false, [w], r)
    ensures IsRun(ONE, run') && Last(run') == State(Waiting, false, [CREDITED], r)
  {
    run' := ThreadMoves(run, w, r, true);
    run' := ThreadMoves(run', w.(pc := StoreCount), r, true);
    assert CREDITED == w.(pc := Poll, count := Counter(1, 1), b := 1);
  }

  lemma SecondPass(run: Run) returns (run': Run)
    requires IsRun(ONE, run)
    requires Last(run) == State(Waiting, false, [CREDITED], Reporter(Sleeping, 1, ZERO, ZERO, ZERO, ZERO, []))
    ensures IsRun(ONE, run') && Last(run').reporter.printed == [Interim(1, 512)]
  {
    var r := Reporter(Sleeping, 1, ZERO, ZERO, ZERO, ZERO, []);
    run' := ReporterMoves(run, CREDITED, r);
    r := r.(pc := EndCount, n := 0);
    run' := ReporterMoves(run', CREDITED, r);
    r := r.(pc := EndBytes, countEnd := Counter(1, 1));
    run' := ReporterMoves(run', CREDITED, r);
    r := r.(pc := EndCount, n := 1, bytesEnd := Counter(512, 512));
    run' := ReporterMoves(run', CREDITED, r);
    r := r.(pc := Print);
    run' := ReporterMoves(run', CREDITED, r);
  }

  /** One thread, one I/O of 512 bytes during the reporter's sleep: the line shows 1 I/O and 512 bytes. */
  lemma OneIoIsShown() returns (run: Run)
    ensures IsRun(ONE, run) && Last(run).reporter.printed == [Interim(1, 512)]
  {
    run := EverybodyStarts();
    run := FirstPass(run, CREATED);
    run := OneIsSubmitted(run, Last(run).reporter);
    run := OneIsCredited(run, Last(run).reporter);
    run := SecondPass(run);
  }
}
