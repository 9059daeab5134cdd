/** Every interim line of a run comes from one whole interval of the reporter: a pass over all threads,
    the sleep, and a second pass. What a line shows is therefore bracketed by the true counters. */
module BenchLines {
  import opened Arith
  import opened LbaWalk
  import opened BenchModel
  import opened BenchWorker
  import opened BenchReporter
  import opened BenchRuns

  /** Where an interval's first pass begins and ends and where its second pass begins. */
  datatype Interval = Interval(a: nat, b: nat, d: nat)

  /** State j begins a pass: no thread has been read. */
  ghost predicate Begins(run: Run, j: nat, p: Pass)
    requires j < |run.states|
  {
    var r := run.states[j].reporter;
    r.n == 0 && r.pc == if p == First then StartCount else EndCount
  }

  ghost predicate Asleep(run: Run, i: nat, j: nat)
    requires j <= |run.states|
  {
    forall k :: i <= k < j ==> run.states[k].reporter.pc == Sleeping
  }

  /** The interval iv is under way in state j, as far as the reporter has got, and no line has been
      printed since it began. */
  ghost predicate InInterval(run: Run, iv: Interval, j: nat)
    requires j < |run.states|
  {
    && iv.a <= j && Begins(run, iv.a, First)
    && run.states[iv.a].reporter.printed == run.states[j].reporter.printed
    && match run.states[j].reporter.pc
       case StartCount => PassLasts(run, iv.a, j, First)
       case StartBytes => PassLasts(run, iv.a, j, First)
       case Sleeping => iv.a <= iv.b <= j && PassLasts(run, iv.a, iv.b, First) && Asleep(run, iv.b, j + 1)
       case EndCount => InSecondPass(run, iv, j)
       case EndBytes => InSecondPass(run, iv, j)
       case Print => InSecondPass(run, iv, j)
       case _ => false
  }

  ghost predicate InSecondPass(run: Run, iv: Interval, j: nat)
    requires j < |run.states|
  {
    && iv.a <= iv.b < iv.d <= j
    && PassLasts(run, iv.a, iv.b, First) && Asleep(run, iv.b, iv.d)
    && Begins(run, iv.d, Second) && PassLasts(run, iv.d, j, Second)
  }

  predicate Busy(r: Reporter)
  {
    r.pc != Dormant && r.pc != CheckFlag && r.pc != Stopped
  }

  /** How the reporter comes to be where it is in the middle of an interval. */
  lemma ReporterCameFrom(c: Config, s: State, step: Step, r: Reporter)
    requires c.Valid() && |s.workers| == c.ncpus && Enabled(c, s, step) && r == Next(c, s, step).reporter && Busy(r)
    ensures r == s.reporter || step == ReporterStep
    ensures r != s.reporter && r.pc == StartCount ==>
              s.reporter.pc == StartBytes || (s.reporter.pc == CheckFlag && r.n == 0)
    ensures r != s.reporter && r.pc == StartBytes ==> s.reporter.pc == StartCount
    ensures r != s.reporter && r.pc == Sleeping ==> s.reporter.pc == StartCount
    ensures r != s.reporter && r.pc == EndCount ==> s.reporter.pc == EndBytes || (s.reporter.pc == Sleeping && r.n == 0)
    ensures r != s.reporter && r.pc in {EndBytes, Print} ==> s.reporter.pc == EndCount
    ensures r.printed == s.reporter.printed
  {
  }

  lemma IntervalStep(run: Run, iv: Interval, j: nat) returns (iv': Interval)
    requires 0 < j < |run.states| && InInterval(run, iv, j - 1) && Busy(run.states[j].reporter)
    requires var r, r' := run.states[j - 1].reporter, run.states[j].reporter;
             && r'.printed == r.printed
             && (r' == r
                 || (r'.pc in {StartCount, StartBytes, Sleeping} && r.pc in {StartCount, StartBytes})
                 || (r'.pc == EndCount && r'.n == 0 && r.pc == Sleeping)
                 || (r'.pc in {EndCount, EndBytes, Print} && r.pc in {EndCount, EndBytes}))
    ensures InInterval(run, iv', j)
  {
    var r, r' := run.states[j - 1].reporter, run.states[j].reporter;
    iv' := iv;
    if r' == r {
    } else if r'.pc == Sleeping {
      iv' := iv.(b := j);
    } else if r.pc == Sleeping {
      iv' := iv.(d := j);
    }
  }

  /** Whenever the reporter is busy, it is inside an interval that began after the line before. */
  lemma {:induction false} IntervalOf(c: Config, run: Run, j: nat) returns (iv: Interval)
    requires IsRun(c, run) && j < |run.states| && Busy(run.states[j].reporter)
    ensures InInterval(run, iv, j)
  {
    var s := run.states[j - 1];
    assert IsStep(c, s, run.steps[j - 1], run.states[j]);
    ReporterCameFrom(c, s, run.steps[j - 1], run.states[j].reporter);
    if s.reporter.pc == CheckFlag {
      iv := Interval(j, j, j);
    } else {
      var before := IntervalOf(c, run, j - 1);
      iv := IntervalStep(run, before, j);
    }
  }

  /** Line l is printed in state e, out of the interval iv: it began with l lines printed. */
  ghost predicate PrintsLine(run: Run, iv: Interval, e: nat, l: nat)
    requires e < |run.states|
  {
    && run.states[e].reporter.pc == Print && |run.states[e].reporter.printed| == l
    && InInterval(run, iv, e)
  }

  function Shown(line: Interim, f: Field): Word
  {
    match f
    case Count => line.count
    case Bytes => line.bytes
  }

  /** All I/Os, or all bytes, that the threads have been credited with in state j. */
  ghost function Total(run: Run, j: nat, f: Field): nat
    requires j < |run.states|
  {
    Sum(Values(run.states[j].workers, f))
  }

  /** The word is that of a number between lo and hi. */
  ghost predicate WordBetween(word: Word, lo: int, hi: int)
  {
    exists v: nat :: lo <= v <= hi && word == v % WORD
  }

  /** The line shows at least everything credited between the two passes and at most everything credited
      from the first read to the last. */
  ghost predicate Bracketed(run: Run, iv: Interval, e: nat, line: Interim)
    requires iv.a <= iv.b < iv.d <= e < |run.states|
  {
    forall f ::
      WordBetween(Shown(line, f), Total(run, iv.d, f) - Total(run, iv.b, f), Total(run, e, f) - Total(run, iv.a, f))
  }

  /** The line that is printed in state e. */
  function LineAt(s: State): Interim
  {
    var r := s.reporter;
    Interim(Difference(r.countEnd, r.countStart), Difference(r.bytesEnd, r.bytesStart))
  }

  lemma LineIsBracketed(c: Config, run: Run, iv: Interval, e: nat)
    requires IsRun(c, run) && e < |run.states| && run.states[e].reporter.pc == Print && InInterval(run, iv, e)
    ensures Bracketed(run, iv, e, LineAt(run.states[e]))
  {
    InterimIsTrueDifference(c, run, e);
    var r := run.states[e].reporter;
    forall f ensures WordBetween(Shown(LineAt(run.states[e]), f), Total(run, iv.d, f) - Total(run, iv.b, f),
                                 Total(run, e, f) - Total(run, iv.a, f))
    {
      InterimIsBracketed(c, run, iv.a, iv.b, iv.d, e, f);
      var v: nat := Accumulator(r, Second, f).total - Accumulator(r, First, f).total;
      assert Shown(LineAt(run.states[e]), f) == v % WORD;
    }
  }

  /** An interval once begun ends in its line, also when the stop flag is set in the middle of it. */
  lemma NoIntervalIsAbandoned(c: Config, run: Run, j: nat)
    requires IsRun(c, run) && j < |run.steps|
    requires Busy(run.states[j].reporter) && !Busy(run.states[j + 1].reporter)
    ensures run.states[j].reporter.pc == Print && run.states[j + 1].reporter.pc == CheckFlag
    ensures |run.states[j + 1].reporter.printed| == |run.states[j].reporter.printed| + 1
  {
    RunInv(c, run, j);
    assert IsStep(c, run.states[j], run.steps[j], run.states[j + 1]);
  }

  /** A step either leaves the lines alone or prints one, and then the interval is over. */
  lemma LinesGrow(c: Config, run: Run, e: nat)
    requires IsRun(c, run) && e < |run.steps|
    ensures var s, printed := run.states[e], run.states[e + 1].reporter.printed;
            || printed == s.reporter.printed
            || (s.reporter.pc == Print && printed == s.reporter.printed + [LineAt(s)])
  {
    assert IsStep(c, run.states[e], run.steps[e], run.states[e + 1]);
  }

  /** Every line ever printed, in every run: it was printed in some state e at the end of an interval of
      its own, begun after the line before it, and is bracketed by what was credited around it. */
  lemma {:induction false} EveryLineIsBracketed(c: Config, run: Run, i: nat, l: nat) returns (iv: Interval, e: nat)
    requires IsRun(c, run) && i < |run.states| && l < |run.states[i].reporter.printed|
    ensures e < i && PrintsLine(run, iv, e, l)
    ensures iv.a <= iv.b < iv.d <= e
    ensures Bracketed(run, iv, e, run.states[i].reporter.printed[l])
  {
    LinesGrow(c, run, i - 1);
    if l < |run.states[i - 1].reporter.printed| {
      iv, e := EveryLineIsBracketed(c, run, i - 1, l);
    } else {
      e := i - 1;
      iv := IntervalOf(c, run, e);
      LineIsBracketed(c, run, iv, e);
    }
  }
}
