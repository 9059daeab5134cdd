/** The workload generator as a transition system. Main, the worker threads, the reporter thread
    and the device interleave freely. Every read or write of a shared field (the counters of a
    thread, the stop flag) is a step of its own, under sequential consistency. */
module BenchModel {
  import opened Arith
  import opened LbaWalk

  const MAX_BATCH_SIZE: nat := 258
  const MAX_CPU_NUM: nat := 32

  /** The command-line parameters that the engine reads. */
  datatype Config = Config(walk: Walk, size: nat, batch: nat, ncpus: nat)
  {
    predicate Valid()
    {
      size <= 0x7fff_ffff && batch <= MAX_BATCH_SIZE && 1 <= ncpus <= MAX_CPU_NUM
    }

    function Nblocks(): nat
    {
      BlocksOf(size)
    }
  }

  /** An `unsigned long`: the 64-bit word the machine holds, beside the number it would hold
      if it were unbounded. Steps only ever look at the word. */
  datatype Counter = Counter(word: Word, total: nat)
  {
    function Plus(other: Counter): Counter
    {
      Counter((word + other.word) % WORD, total + other.total)
    }

    predicate Exact()
    {
      word == total % WORD
    }
  }

  const ZERO := Counter(0, 0)

  function Constant(n: nat): Counter
  {
    Counter(n % WORD, n)
  }

  /** One asynchronous I/O as it was submitted. */
  datatype Request = Request(buf: nat, lba: Word, nblocks: nat)

  /** Where a worker is in `bench_start`. An addition to a counter is a load and a store. */
  datatype WorkerPc =
    NotStarted | Starting | CheckStop | Submit | Poll | LoadBytes | StoreBytes | LoadCount | StoreCount | Exited

  /** One `bench_thread` with the locals of its `bench_start`.
      `rounds` counts the rounds begun and `past` the descriptors of the rounds that are over.
      A descriptor is the position of its request in `log`; `inflight` holds the descriptors
      the device has not completed; `polled` lists the descriptors passed to `unvme_apoll` in order,
      and `failed` those for which it returned a nonzero value. */
  datatype Worker = Worker(
    pc: WorkerPc,
    slba: Word,
    lba: Word,
    b: nat,
    iod: map<nat, nat>,
    reg: Counter,
    bytes: Counter,
    count: Counter,
    rounds: nat,
    past: nat,
    log: seq<Request>,
    inflight: set<nat>,
    polled: seq<nat>,
    failed: set<nat>)

  datatype ReporterPc =
    Dormant | CheckFlag | StartCount | StartBytes | Sleeping | EndCount | EndBytes | Print | Stopped

  /** What one interim line is computed from: the two word differences. */
  datatype Interim = Interim(count: Word, bytes: Word)

  /** The reporter thread with the locals of `print_interval_result`. */
  datatype Reporter = Reporter(
    pc: ReporterPc,
    n: nat,
    countStart: Counter,
    bytesStart: Counter,
    countEnd: Counter,
    bytesEnd: Counter,
    printed: seq<Interim>)

  datatype MainPc = Creating(next: nat) | CreatingReporter | Waiting | Joining(thread: nat) | JoiningReporter | Finished

  datatype State = State(main: MainPc, stop: bool, workers: seq<Worker>, reporter: Reporter)

  /** Who moves, with the choices the environment makes for it. */
  datatype Step =
    | MainStep
    | WorkerStep(n: nat, rand: Word, ok: bool)
    | ReporterStep
    | Complete(n: nat, id: nat)

  const FRESH_WORKER := Worker(NotStarted, 0, 0, 0, map[], ZERO, ZERO, ZERO, 0, 0, [], {}, [], {})

  function Init(c: Config): State
  {
    State(Creating(0), false, seq(c.ncpus, _ => FRESH_WORKER),
          Reporter(Dormant, 0, ZERO, ZERO, ZERO, ZERO, []))
  }

  // ----- Workers -----

  /** A poll can only return 0 for a descriptor that the device has completed. It can always
      return a nonzero value: a timeout, or a completion with an error. */
  predicate WorkerEnabled(c: Config, w: Worker, rand: Word, ok: bool)
  {
    && rand <= RAND_MAX
    && match w.pc
       case NotStarted => false
       case Exited => false
       case Poll => w.b < c.batch ==> w.b in w.iod && (ok ==> w.iod[w.b] !in w.inflight)
       case _ => true
  }

  function Advance(c: Config, lba: Word, rand: Word): Word
    requires c.Valid()
  {
    NextLba(c.walk, lba, BLOCK_END, c.Nblocks(), rand)
  }

  function WorkerNext(c: Config, stop: bool, w: Worker, rand: Word, ok: bool): Worker
    requires c.Valid() && WorkerEnabled(c, w, rand, ok)
  {
    match w.pc
    case Starting => w.(pc := CheckStop, lba := Advance(c, w.slba, rand))
    case CheckStop =>
      if stop then w.(pc := Exited)
      else w.(pc := Submit, b := 0, rounds := w.rounds + 1)
    case Submit =>
      if w.b < c.batch then
        w.(iod := w.iod[w.b := |w.log|],
           inflight := w.inflight + {|w.log|},
           log := w.log + [Request(w.b, w.lba, c.Nblocks())],
           lba := Advance(c, w.lba, rand),
           b := w.b + 1)
      else w.(pc := Poll, b := 0)
    case Poll =>
      if w.b < c.batch then
        var id := w.iod[w.b];
        if ok then w.(pc := LoadBytes, polled := w.polled + [id])
        else w.(polled := w.polled + [id], failed := w.failed + {id}, b := w.b + 1)
      else w.(pc := CheckStop, past := w.past + c.batch)
    case LoadBytes => w.(pc := StoreBytes, reg := w.bytes)
    case StoreBytes => w.(pc := LoadCount, bytes := w.reg.Plus(Constant(c.size)))
    case LoadCount => w.(pc := StoreCount, reg := w.count)
    case StoreCount => w.(pc := Poll, count := w.reg.Plus(Constant(1)), b := w.b + 1)
  }

  // ----- Reporter -----

  predicate ReporterEnabled(c: Config, r: Reporter)
  {
    r.pc != Dormant && r.pc != Stopped && (r.pc in {StartBytes, EndBytes} ==> r.n < c.ncpus)
  }

  function Difference(end: Counter, start: Counter): Word
  {
    (end.word - start.word) % WORD
  }

  function ReporterNext(c: Config, stop: bool, ws: seq<Worker>, r: Reporter): Reporter
    requires |ws| == c.ncpus && ReporterEnabled(c, r)
  {
    match r.pc
    case CheckFlag =>
      if stop then r.(pc := Stopped)
      else r.(pc := StartCount, n := 0, countStart := ZERO, bytesStart := ZERO, countEnd := ZERO, bytesEnd := ZERO)
    case StartCount =>
      if r.n < c.ncpus then r.(pc := StartBytes, countStart := r.countStart.Plus(ws[r.n].count))
      else r.(pc := Sleeping)
    case StartBytes =>
      r.(pc := StartCount, bytesStart := r.bytesStart.Plus(ws[r.n].bytes), n := r.n + 1)
    case Sleeping => r.(pc := EndCount, n := 0)
    case EndCount =>
      if r.n < c.ncpus then r.(pc := EndBytes, countEnd := r.countEnd.Plus(ws[r.n].count))
      else r.(pc := Print)
    case EndBytes =>
      r.(pc := EndCount, bytesEnd := r.bytesEnd.Plus(ws[r.n].bytes), n := r.n + 1)
    case Print =>
      r.(pc := CheckFlag,
         printed := r.printed + [Interim(Difference(r.countEnd, r.countStart), Difference(r.bytesEnd, r.bytesStart))])
  }

  // ----- The whole program -----

  predicate MainEnabled(c: Config, s: State)
  {
    match s.main
    case Creating(_) => true
    case CreatingReporter => true
    case Waiting => true
    case Joining(n) => n < c.ncpus ==> n < |s.workers| && s.workers[n].pc == Exited
    case JoiningReporter => s.reporter.pc == Stopped
    case Finished => false
  }

  function MainNext(c: Config, s: State): State
    requires c.Valid() && |s.workers| == c.ncpus && MainEnabled(c, s)
  {
    match s.main
    case Creating(n) =>
      if n < c.ncpus then
        s.(main := Creating(n + 1),
           workers := s.workers[n := s.workers[n].(pc := Starting, slba := SliceStart(c.ncpus, n) % WORD)])
      else s.(main := CreatingReporter)
    case CreatingReporter => s.(main := Waiting, reporter := s.reporter.(pc := CheckFlag))
    case Waiting => s.(main := Joining(0), stop := true)
    case Joining(n) => if n < c.ncpus then s.(main := Joining(n + 1)) else s.(main := JoiningReporter)
    case JoiningReporter => s.(main := Finished)
  }

  predicate Enabled(c: Config, s: State, step: Step)
  {
    match step
    case MainStep => MainEnabled(c, s)
    case WorkerStep(n, rand, ok) => n < |s.workers| && WorkerEnabled(c, s.workers[n], rand, ok)
    case ReporterStep => ReporterEnabled(c, s.reporter)
    case Complete(n, id) => n < |s.workers| && id in s.workers[n].inflight
  }

  function Next(c: Config, s: State, step: Step): State
    requires c.Valid() && |s.workers| == c.ncpus && Enabled(c, s, step)
  {
    match step
    case MainStep => MainNext(c, s)
    case WorkerStep(n, rand, ok) =>
      s.(workers := s.workers[n := WorkerNext(c, s.stop, s.workers[n], rand, ok)])
    case ReporterStep => s.(reporter := ReporterNext(c, s.stop, s.workers, s.reporter))
    case Complete(n, id) =>
      s.(workers := s.workers[n := s.workers[n].(inflight := s.workers[n].inflight - {id})])
  }

  /** A run: the states it goes through and the steps between them, from the initial state. */
  datatype Run = Run(states: seq<State>, steps: seq<Step>)

  ghost predicate IsRun(c: Config, run: Run)
  {
    && c.Valid()
    && |run.states| == |run.steps| + 1
    && run.states[0] == Init(c)
    && (forall i :: 0 <= i < |run.states| ==> |run.states[i].workers| == c.ncpus)
    && (forall i :: 0 <= i < |run.steps| ==> IsStep(c, run.states[i], run.steps[i], run.states[i + 1]))
  }

  ghost predicate IsStep(c: Config, s: State, step: Step, s': State)
    requires c.Valid() && |s.workers| == c.ncpus
  {
    Enabled(c, s, step) && s' == Next(c, s, step)
  }
}
