/** The reporter's sums against the workers' counters, in every interleaving. */
module BenchReporter {
  import opened Arith
  import opened LbaWalk
  import opened BenchModel
  import opened BenchWorker

  /** The two shared fields of a thread. */
  datatype Field = Count | Bytes

  function Read(w: Worker, f: Field): Counter
  {
    match f
    case Count => w.count
    case Bytes => w.bytes
  }

  /** The true value of one field of every thread. */
  function Values(ws: seq<Worker>, f: Field): seq<nat>
  {
    seq(|ws|, i requires 0 <= i < |ws| => Read(ws[i], f).total)
  }

  /** Counters never go down. */
  ghost predicate Grown(ws: seq<Worker>, ws': seq<Worker>)
  {
    |ws| == |ws'| && forall i, f :: 0 <= i < |ws| ==> Read(ws[i], f).total <= Read(ws'[i], f).total
  }

  lemma ValuesGrow(ws: seq<Worker>, ws': seq<Worker>, f: Field, k: nat)
    requires Grown(ws, ws') && k <= |ws|
    ensures Sum(Values(ws, f)[..k]) <= Sum(Values(ws', f)[..k])
    ensures Sum(Values(ws, f)[k..]) <= Sum(Values(ws', f)[k..])
  {
    SumMono(Values(ws, f)[..k], Values(ws', f)[..k]);
    SumMono(Values(ws, f)[k..], Values(ws', f)[k..]);
  }

  /** Every thread has been credited with its bytes before it is credited with the I/O. */
  ghost predicate Paid(c: Config, ws: seq<Worker>)
  {
    forall i :: 0 <= i < |ws| ==>
      ws[i].bytes.Exact() && ws[i].count.Exact() && ws[i].bytes.total >= c.size * ws[i].count.total
  }

  ghost predicate ExactSums(r: Reporter)
  {
    r.countStart.Exact() && r.bytesStart.Exact() && r.countEnd.Exact() && r.bytesEnd.Exact()
  }

  /** What the accumulators owe to, and promise about, the counters at each point of the interval. */
  ghost predicate Balanced(c: Config, ws: seq<Worker>, r: Reporter)
    requires |ws| == c.ncpus
  {
    var counts, bytes := Values(ws, Count), Values(ws, Bytes);
    && r.n <= c.ncpus
    && match r.pc
       case StartCount =>
         && r.countStart.total <= Sum(counts[..r.n])
         && r.bytesStart.total <= Sum(bytes[..r.n])
         && r.bytesStart.total >= c.size * r.countStart.total
         && r.countEnd.total == 0 && r.bytesEnd.total == 0
       case StartBytes =>
         && r.n < c.ncpus
         && r.countStart.total <= Sum(counts[..r.n + 1])
         && r.bytesStart.total <= Sum(bytes[..r.n])
         && r.bytesStart.total + bytes[r.n] >= c.size * r.countStart.total
         && r.countEnd.total == 0 && r.bytesEnd.total == 0
       case Sleeping =>
         && r.countStart.total <= Sum(counts[0..])
         && r.bytesStart.total <= Sum(bytes[0..])
         && r.bytesStart.total >= c.size * r.countStart.total
         && r.countEnd.total == 0 && r.bytesEnd.total == 0
       case EndCount =>
         && r.countStart.total <= r.countEnd.total + Sum(counts[r.n..])
         && r.bytesStart.total <= r.bytesEnd.total + Sum(bytes[r.n..])
         && r.bytesStart.total >= c.size * r.countStart.total
         && r.bytesEnd.total >= c.size * r.countEnd.total
         && (r.n == 0 ==> r.countEnd.total == 0 && r.bytesEnd.total == 0)
       case EndBytes =>
         && r.n < c.ncpus
         && r.countStart.total <= r.countEnd.total + Sum(counts[r.n + 1..])
         && r.bytesStart.total <= r.bytesEnd.total + Sum(bytes[r.n..])
         && r.bytesStart.total >= c.size * r.countStart.total
         && r.bytesEnd.total + bytes[r.n] >= c.size * r.countEnd.total
         && (r.n == 0 ==> r.bytesEnd.total == 0)
       case Print =>
         && r.countStart.total <= r.countEnd.total
         && r.bytesStart.total <= r.bytesEnd.total
         && r.bytesStart.total >= c.size * r.countStart.total
         && r.bytesEnd.total >= c.size * r.countEnd.total
       case _ => true
  }

  ghost predicate ReporterInv(c: Config, ws: seq<Worker>, r: Reporter)
    requires |ws| == c.ncpus
  {
    ExactSums(r) && Balanced(c, ws, r)
  }

  lemma PlusExact(a: Counter, b: Counter)
    requires a.Exact() && b.Exact()
    ensures a.Plus(b).Exact()
  {
    ModSum(a.total, b.total);
  }

  /** The reporter keeps its invariant while the threads count on. */
  lemma ReporterKeptByWorkers(c: Config, ws: seq<Worker>, ws': seq<Worker>, r: Reporter)
    requires |ws| == c.ncpus && Grown(ws, ws') && ReporterInv(c, ws, r)
    ensures ReporterInv(c, ws', r)
  {
    forall f ensures Sum(Values(ws, f)[0..]) <= Sum(Values(ws', f)[0..])
    {
      ValuesGrow(ws, ws', f, 0);
    }
    ValuesGrow(ws, ws', Count, r.n);
    ValuesGrow(ws, ws', Bytes, r.n);
    if r.n < c.ncpus {
      ValuesGrow(ws, ws', Count, r.n + 1);
    }
  }

  lemma ExactKept(c: Config, stop: bool, ws: seq<Worker>, r: Reporter)
    requires |ws| == c.ncpus && Paid(c, ws) && ReporterEnabled(c, r) && ReporterInv(c, ws, r)
    ensures ExactSums(ReporterNext(c, stop, ws, r))
  {
    if r.n < c.ncpus {
      PlusExact(r.countStart, ws[r.n].count);
      PlusExact(r.bytesStart, ws[r.n].bytes);
      PlusExact(r.countEnd, ws[r.n].count);
      PlusExact(r.bytesEnd, ws[r.n].bytes);
    }
  }

  lemma PaysForBoth(size: nat, b: nat, n: nat, b': nat, n': nat)
    requires b >= size * n && b' >= size * n'
    ensures b + b' >= size * (n + n')
  {
    Distribute(size, n, n');
  }

  lemma StartCountKept(c: Config, stop: bool, ws: seq<Worker>, r: Reporter)
    requires |ws| == c.ncpus && Paid(c, ws) && ReporterEnabled(c, r) && Balanced(c, ws, r) && r.pc == StartCount
    ensures Balanced(c, ws, ReporterNext(c, stop, ws, r))
  {
    var counts, bytes := Values(ws, Count), Values(ws, Bytes);
    if r.n < c.ncpus {
      SumPrefixStep(counts, r.n);
      PaysForBoth(c.size, r.bytesStart.total, r.countStart.total, bytes[r.n], counts[r.n]);
    } else {
      assert counts[..r.n] == counts[0..] && bytes[..r.n] == bytes[0..];
    }
  }

  lemma StartBytesKept(c: Config, stop: bool, ws: seq<Worker>, r: Reporter)
    requires |ws| == c.ncpus && ReporterEnabled(c, r) && Balanced(c, ws, r) && r.pc == StartBytes
    ensures Balanced(c, ws, ReporterNext(c, stop, ws, r))
  {
    SumPrefixStep(Values(ws, Bytes), r.n);
  }

  lemma EndCountKept(c: Config, stop: bool, ws: seq<Worker>, r: Reporter)
    requires |ws| == c.ncpus && Paid(c, ws) && ReporterEnabled(c, r) && Balanced(c, ws, r) && r.pc == EndCount
    ensures Balanced(c, ws, ReporterNext(c, stop, ws, r))
  {
    var counts, bytes := Values(ws, Count), Values(ws, Bytes);
    if r.n < c.ncpus {
      SumPrefixStep(counts, r.n);
      PaysForBoth(c.size, r.bytesEnd.total, r.countEnd.total, bytes[r.n], counts[r.n]);
    }
  }

  lemma EndBytesKept(c: Config, stop: bool, ws: seq<Worker>, r: Reporter)
    requires |ws| == c.ncpus && ReporterEnabled(c, r) && Balanced(c, ws, r) && r.pc == EndBytes
    ensures Balanced(c, ws, ReporterNext(c, stop, ws, r))
  {
    SumPrefixStep(Values(ws, Bytes), r.n);
  }

  /** The reporter keeps its invariant when it moves itself. */
  lemma ReporterKept(c: Config, stop: bool, ws: seq<Worker>, r: Reporter)
    requires |ws| == c.ncpus && Paid(c, ws) && ReporterEnabled(c, r) && ReporterInv(c, ws, r)
    ensures ReporterInv(c, ws, ReporterNext(c, stop, ws, r))
  {
    ExactKept(c, stop, ws, r);
    match r.pc
    case StartCount => StartCountKept(c, stop, ws, r);
    case StartBytes => StartBytesKept(c, stop, ws, r);
    case EndCount => EndCountKept(c, stop, ws, r);
    case EndBytes => EndBytesKept(c, stop, ws, r);
    case _ =>
  }

  // ----- The two passes as readings -----

  /** The reporter reads each field of each thread once before and once after the sleep. */
  datatype Pass = First | Second

  function Accumulator(r: Reporter, p: Pass, f: Field): Counter
  {
    match (p, f)
    case (First, Count) => r.countStart
    case (First, Bytes) => r.bytesStart
    case (Second, Count) => r.countEnd
    case (Second, Bytes) => r.bytesEnd
  }

  /** During pass p: the number of threads whose field f is already in the accumulator. */
  function ReadSoFar(c: Config, r: Reporter, p: Pass, f: Field): nat
  {
    match r.pc
    case StartCount => r.n
    case EndCount => r.n
    case StartBytes => if f == Count then r.n + 1 else r.n
    case EndBytes => if f == Count then r.n + 1 else r.n
    case _ => c.ncpus
  }

  predicate InPass(r: Reporter, p: Pass)
  {
    match p
    case First => r.pc in {StartCount, StartBytes, Sleeping}
    case Second => r.pc in {EndCount, EndBytes, Print}
  }

  /** The reporter's own step inside a pass either leaves the accumulator alone or adds the next thread's
      field as it is at that moment. */
  lemma ReporterAdds(c: Config, stop: bool, ws: seq<Worker>, r: Reporter, p: Pass, f: Field)
    requires |ws| == c.ncpus && ReporterEnabled(c, r) && r.n <= c.ncpus
    requires InPass(r, p) && InPass(ReporterNext(c, stop, ws, r), p)
    ensures var r' := ReporterNext(c, stop, ws, r);
            var k := ReadSoFar(c, r, p, f);
            || (ReadSoFar(c, r', p, f) == k && Accumulator(r', p, f) == Accumulator(r, p, f))
            || (k < c.ncpus && ReadSoFar(c, r', p, f) == k + 1
                && Accumulator(r', p, f) == Accumulator(r, p, f).Plus(Read(ws[k], f)))
  {
  }

  /** A step inside a pass, of whatever actor. */
  lemma PassStep(c: Config, s: State, step: Step, p: Pass, f: Field)
    requires c.Valid() && |s.workers| == c.ncpus && Enabled(c, s, step)
    requires ReporterInv(c, s.workers, s.reporter)
    requires InPass(s.reporter, p) && InPass(Next(c, s, step).reporter, p)
    ensures var r, r' := s.reporter, Next(c, s, step).reporter;
            var k := ReadSoFar(c, r, p, f);
            || (ReadSoFar(c, r', p, f) == k && Accumulator(r', p, f) == Accumulator(r, p, f))
            || (k < c.ncpus && step == ReporterStep && ReadSoFar(c, r', p, f) == k + 1
                && Accumulator(r', p, f) == Accumulator(r, p, f).Plus(Read(s.workers[k], f)))
  {
    if step == ReporterStep {
      ReporterAdds(c, s.stop, s.workers, s.reporter, p, f);
    }
  }
}
