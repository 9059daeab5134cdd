/** The names the benchmark scripts give their result files, and what parser.py reads off them. */
module ResultNames {
  import opened Arith
  import opened LbaWalk
  import opened Text

  /** One benchmark run. The prefix is whatever the script puts before the parameters, such as the
      output directory and the I/O mode. */
  datatype ResultFile = ResultFile(prefix: string, walk: Walk, msg: nat, batch: nat, cpu: nat)

  /** The keys that the pivot table can use. */
  datatype Key = Msg | Batch | Cpu

  function KeyName(k: Key): string
  {
    match k
    case Msg => "msg"
    case Batch => "batch"
    case Cpu => "cpu"
  }

  function WalkName(w: Walk): string
  {
    match w
    case Random => "random"
    case Seq => "seq"
    case Same => "same"
  }

  function ParamOf(f: ResultFile, k: Key): nat
  {
    match k
    case Msg => f.msg
    case Batch => f.batch
    case Cpu => f.cpu
  }

  /** The pieces of a name between its dashes. */
  function DashParts(f: ResultFile): seq<string>
  {
    [f.prefix + "_walk", WalkName(f.walk) + "_msg", Decimal(f.msg) + "_batch", Decimal(f.batch) + "_cpu",
     Decimal(f.cpu) + ".txt"]
  }

  /** PREFIX_walk-WALK_msg-MSG_batch-BATCH_cpu-CPU.txt */
  function NameOf(f: ResultFile): string
  {
    Join(DashParts(f), '-')
  }

  /** No dash before the parameters. */
  predicate Regular(f: ResultFile)
  {
    '-' !in f.prefix
  }

  /** What find_file_by_key looks for. */
  function Pattern(k: Key, x: nat): string
  {
    KeyName(k) + "-" + Decimal(x)
  }

  lemma DigitsOnly(n: nat, c: char)
    requires !IsDigit(c)
    ensures c !in Decimal(n)
  {
  }

  lemma DashPartsAreDashFree(f: ResultFile)
    requires Regular(f)
    ensures forall i :: 0 <= i < 5 ==> '-' !in DashParts(f)[i]
  {
    DigitsOnly(f.msg, '-');
    DigitsOnly(f.batch, '-');
    DigitsOnly(f.cpu, '-');
    assert forall i :: 0 <= i < 4 ==> '-' != "walk"[i];
  }

  /** Different runs have different names. */
  lemma NameIsInjective(f: ResultFile, g: ResultFile)
    requires Regular(f) && Regular(g) && NameOf(f) == NameOf(g)
    ensures f == g
  {
    DashPartsAreDashFree(f);
    DashPartsAreDashFree(g);
    SplitJoin(DashParts(f), '-');
    SplitJoin(DashParts(g), '-');
    var p, q := DashParts(f), DashParts(g);
    assert p[0] == q[0] && p[1] == q[1] && p[2] == q[2] && p[3] == q[3] && p[4] == q[4];
    SameBeforeTail(f.prefix, g.prefix, "_walk");
    SameBeforeTail(WalkName(f.walk), WalkName(g.walk), "_msg");
    SameBeforeTail(Decimal(f.msg), Decimal(g.msg), "_batch");
    SameBeforeTail(Decimal(f.batch), Decimal(g.batch), "_cpu");
    SameBeforeTail(Decimal(f.cpu), Decimal(g.cpu), ".txt");
    DecimalIsInjective(f.msg, g.msg);
    DecimalIsInjective(f.batch, g.batch);
    DecimalIsInjective(f.cpu, g.cpu);
    assert |WalkName(Random)| == 6 && |WalkName(Seq)| == 3 && |WalkName(Same)| == 4;
  }

  lemma SameBeforeTail(a: string, b: string, tail: string)
    requires a + tail == b + tail
    ensures a == b
  {
    assert |a| == |b|;
    assert (a + tail)[..|a|] == a && (b + tail)[..|b|] == b;
  }

  // ----- The substring test -----

  /** A text that ends in a tail ends in `left` only if their last characters agree. */
  lemma SuffixLast(left: string, s: string)
    requires left != [] && IsSuffix(left, s)
    ensures s != [] && s[|s| - 1] == left[|left| - 1]
  {
  }

  /** Which dash a key name stands before. */
  function DashOf(k: Key): nat
  {
    match k
    case Msg => 1
    case Batch => 2
    case Cpu => 3
  }

  lemma KeyEndsPart(f: ResultFile, k: Key)
    ensures IsSuffix(KeyName(k), DashParts(f)[DashOf(k)])
  {
    var parts := DashParts(f);
    assert IsSuffix("msg", WalkName(f.walk) + "_" + "msg");
    assert parts[1] == WalkName(f.walk) + "_" + "msg";
    assert parts[2] == Decimal(f.msg) + "_" + "batch";
    assert parts[3] == Decimal(f.batch) + "_" + "cpu";
  }

  /** The parts end in different letters, each key in the letter of its own. */
  lemma LastLetters(f: ResultFile, i: nat)
    requires i < 4
    ensures DashParts(f)[i] != [] && DashParts(f)[i][|DashParts(f)[i]| - 1] == "kghu"[i]
  {
  }

  lemma KeyBeforeDash(f: ResultFile, k: Key, i: nat)
    requires i < 4
    ensures IsSuffix(KeyName(k), DashParts(f)[i]) <==> i == DashOf(k)
  {
    KeyEndsPart(f, k);
    if IsSuffix(KeyName(k), DashParts(f)[i]) {
      SuffixLast(KeyName(k), DashParts(f)[i]);
      LastLetters(f, i);
      assert KeyName(k)[|KeyName(k)| - 1] == "kghu"[DashOf(k)];
    }
  }

  /** "key-x" fits a dash of a name exactly when it is the key's own dash and x extends to the parameter. */
  lemma MeetsIff(f: ResultFile, k: Key, x: nat, i: nat)
    requires i < 4
    ensures MeetsAt(DashParts(f), KeyName(k), Decimal(x), i) <==> i == DashOf(k) && Decimal(x) <= Decimal(ParamOf(f, k))
  {
    KeyBeforeDash(f, k, i);
    DecimalPrefix(Decimal(x), ParamOf(f, k), match k case Msg => "_batch" case Batch => "_cpu" case Cpu => ".txt");
  }

  /** The substring test of the lookup is a prefix test on decimals: "key-x" occurs in the name of a run
      exactly when the decimal of x is a prefix of the decimal of that run's parameter. */
  lemma SubstringIsDecimalPrefix(f: ResultFile, k: Key, x: nat)
    requires Regular(f)
    ensures Contains(NameOf(f), Pattern(k, x)) <==> Decimal(x) <= Decimal(ParamOf(f, k))
  {
    DashPartsAreDashFree(f);
    DigitsOnly(x, '-');
    assert '-' !in KeyName(k);
    assert Pattern(k, x) == KeyName(k) + ['-'] + Decimal(x);
    PatternInJoin(DashParts(f), '-', KeyName(k), Decimal(x));
    MeetsIff(f, k, x, DashOf(k));
    if i: nat :| MeetsAt(DashParts(f), KeyName(k), Decimal(x), i) {
      MeetsIff(f, k, x, i);
    }
  }
}
