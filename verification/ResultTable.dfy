/** The pivot table of parser.py: the values of a parameter over a list of files, the scaled labels of
    the rows, and the file behind each cell. */
module ResultTable {
  import opened Wrappers
  import opened Arith
  import opened Text
  import opened LbaWalk
  import opened ResultNames
  import opened ResultLookup

  // ----- variants -----

  const STRIPPED: set<char> := {'.', 't', 'x'}

  /** The parameters of a file name: stripped of the characters of ".txt" at both ends, split at '_'. */
  function Params(file: string): seq<string>
  {
    Split(Strip(file, STRIPPED), '_')
  }

  /** The parameter is one that `variants` converts. */
  predicate Selected(param: string, key: string)
  {
    Contains(param, key) && '-' in param
  }

  lemma {:induction false} DashSplits(param: string)
    requires '-' in param
    ensures |Split(param, '-')| >= 2
  {
    if param[0] != '-' {
      assert '-' in param[1..];
      DashSplits(param[1..]);
    }
  }

  /** The text that `variants` passes to int() for a selected parameter. */
  function ValueText(param: string): string
    requires '-' in param
  {
    DashSplits(param);
    Split(param, '-')[1]
  }

  /** That is the text between the first dash and the second, or the end. */
  lemma ValueTextIs(a: string, b: string, rest: string)
    requires '-' !in a && '-' !in b
    ensures ValueText(a + ['-'] + b) == b
    ensures ValueText(a + ['-'] + b + ['-'] + rest) == b
  {
    SplitFirst(a, b, '-');
    SplitNone(b, '-');
    assert a + ['-'] + b + ['-'] + rest == a + ['-'] + (b + ['-'] + rest);
    SplitFirst(a, b + ['-'] + rest, '-');
    SplitFirst(b, rest, '-');
  }

  /** int() accepts every selected parameter of the files. */
  ghost predicate Convertible(files: seq<string>, key: string)
  {
    forall i, j :: 0 <= i < |files| && 0 <= j < |Params(files[i])| && Selected(Params(files[i])[j], key) ==>
      ParseInt(ValueText(Params(files[i])[j])).Some?
  }

  /** n is the value of a selected parameter of one of the files. */
  ghost predicate IsValue(files: seq<string>, key: string, n: nat)
  {
    exists i, j :: 0 <= i < |files| && 0 <= j < |Params(files[i])| && Selected(Params(files[i])[j], key)
                   && ParseInt(ValueText(Params(files[i])[j])) == Some(n)
  }

  predicate StrictlySorted(s: seq<nat>)
  {
    forall i, j :: 0 <= i < j < |s| ==> s[i] < s[j]
  }

  predicate IsLeast(m: nat, s: set<nat>)
  {
    m in s && forall n :: n in s ==> m <= n
  }

  lemma {:induction false} LeastExists(s: set<nat>)
    requires s != {}
    ensures exists m :: IsLeast(m, s)
  {
    var x :| x in s;
    var rest := s - {x};
    assert forall n :: n in s ==> n == x || n in rest;
    if rest == {} {
      assert IsLeast(x, s);
    } else {
      LeastExists(rest);
      var m :| IsLeast(m, rest);
      assert IsLeast(if x < m then x else m, s);
    }
  }

  /** `sorted(list(s))`. */
  function Sorted(s: set<nat>): (r: seq<nat>)
    ensures StrictlySorted(r)
    ensures forall n :: n in r <==> n in s
  {
    if s == {} then []
    else
      LeastExists(s);
      var m :| IsLeast(m, s);
      [m] + Sorted(s - {m})
  }

  /** variants: the distinct values of the key over all files, ascending; None where int() raises. */
  method Variants(files: seq<string>, key: string) returns (r: Option<seq<nat>>)
    ensures r.Some? <==> Convertible(files, key)
    ensures r.Some? ==> StrictlySorted(r.value) && forall n: nat :: n in r.value <==> IsValue(files, key, n)
  {
    var vs: set<nat> := {};
    var i := 0;
    while i < |files|
      invariant i <= |files|
      invariant Convertible(files[..i], key)
      invariant forall n: nat :: n in vs <==> IsValue(files[..i], key, n)
    {
      NextFile(files, key, i);
      var values := VariantsOfFile(Params(files[i]), key, vs);
      if values == None {
        return None;
      }
      vs := values.value;
      i := i + 1;
    }
    assert files[..i] == files;
    return Some(Sorted(vs));
  }

  /** The inner loop: the values of one file's parameters join those found so far. */
  method VariantsOfFile(params: seq<string>, key: string, found: set<nat>) returns (r: Option<set<nat>>)
    ensures r.Some? <==> AllConvert(params, key, |params|)
    ensures r.Some? ==> forall n: nat :: n in r.value <==> n in found || ValueBefore(params, key, |params|, n)
  {
    var vs := found;
    var j := 0;
    while j < |params|
      invariant j <= |params|
      invariant AllConvert(params, key, j)
      invariant forall n: nat :: n in vs <==> n in found || ValueBefore(params, key, j, n)
    {
      if Selected(params[j], key) {
        var v := ParseInt(ValueText(params[j]));
        if v == None {
          return None;
        }
        vs := vs + {v.value};
      }
      j := j + 1;
    }
    return Some(vs);
  }

  ghost predicate AllConvert(params: seq<string>, key: string, j: nat)
    requires j <= |params|
  {
    forall k :: 0 <= k < j && Selected(params[k], key) ==> ParseInt(ValueText(params[k])).Some?
  }

  ghost predicate ValueBefore(params: seq<string>, key: string, j: nat, n: nat)
    requires j <= |params|
  {
    exists k :: 0 <= k < j && Selected(params[k], key) && ParseInt(ValueText(params[k])) == Some(n)
  }

  lemma NextFile(files: seq<string>, key: string, i: nat)
    requires i < |files|
    ensures forall n: nat :: IsValue(files[..i + 1], key, n) <==>
              IsValue(files[..i], key, n) || ValueBefore(Params(files[i]), key, |Params(files[i])|, n)
    ensures Convertible(files[..i + 1], key) <==>
              Convertible(files[..i], key) && AllConvert(Params(files[i]), key, |Params(files[i])|)
  {
    var now, was := files[..i + 1], files[..i];
    assert now[i] == files[i] && forall k :: 0 <= k < i ==> now[k] == was[k];
    forall n: nat | IsValue(was, key, n) ensures IsValue(now, key, n) {
      var a, b :| 0 <= a < |was| && 0 <= b < |Params(was[a])| && Selected(Params(was[a])[b], key)
                  && ParseInt(ValueText(Params(was[a])[b])) == Some(n);
      assert Selected(Params(now[a])[b], key);
    }
    forall n: nat | ValueBefore(Params(files[i]), key, |Params(files[i])|, n) ensures IsValue(now, key, n) {
      var b :| 0 <= b < |Params(files[i])| && Selected(Params(files[i])[b], key)
               && ParseInt(ValueText(Params(files[i])[b])) == Some(n);
      assert Selected(Params(now[i])[b], key);
    }
  }

  // ----- variants on generated names -----

  /** The parameters of a generated name, from the walk on. */
  function Tail(f: ResultFile): seq<string>
  {
    ["walk-" + WalkName(f.walk), "msg-" + Decimal(f.msg), "batch-" + Decimal(f.batch), "cpu-" + Decimal(f.cpu)]
  }

  lemma NameJoined(f: ResultFile)
    ensures var p := DashParts(f);
            NameOf(f) == p[0] + "-" + (p[1] + "-" + (p[2] + "-" + (p[3] + "-" + p[4])))
  {
    var p := DashParts(f);
    assert p == [p[0]] + ([p[1]] + ([p[2]] + ([p[3]] + [p[4]])));
    JoinCons(p[3], [p[4]], '-');
    JoinCons(p[2], [p[3]] + [p[4]], '-');
    JoinCons(p[1], [p[2]] + ([p[3]] + [p[4]]), '-');
    JoinCons(p[0], [p[1]] + ([p[2]] + ([p[3]] + [p[4]])), '-');
  }

  lemma NameLayout(f: ResultFile)
    ensures NameOf(f) == f.prefix + (['_'] + Join(Tail(f), '_') + ".txt")
  {
    var t := Tail(f);
    NameJoined(f);
    assert t == [t[0]] + ([t[1]] + ([t[2]] + [t[3]]));
    JoinCons(t[2], [t[3]], '_');
    JoinCons(t[1], [t[2]] + [t[3]], '_');
    JoinCons(t[0], [t[1]] + ([t[2]] + [t[3]]), '_');
    var w, m, b, c := WalkName(f.walk), Decimal(f.msg), Decimal(f.batch), Decimal(f.cpu);
    Regroup(f.prefix, w, m, b, c);
  }

  /** What the benchmark script writes. */
  lemma NameFormat(f: ResultFile)
    ensures var walk := match f.walk case Random => "random" case Seq => "seq" case Same => "same";
            NameOf(f) == f.prefix + "_walk-" + walk + "_msg-" + Decimal(f.msg) + "_batch-" + Decimal(f.batch)
                         + "_cpu-" + Decimal(f.cpu) + ".txt"
  {
    NameJoined(f);
    Ungroup(f.prefix, WalkName(f.walk), Decimal(f.msg), Decimal(f.batch), Decimal(f.cpu));
  }

  lemma Ungroup(p: string, w: string, m: string, b: string, c: string)
    ensures (p + "_walk") + "-" + ((w + "_msg") + "-" + ((m + "_batch") + "-" + ((b + "_cpu") + "-" + (c + ".txt"))))
         == p + "_walk-" + w + "_msg-" + m + "_batch-" + b + "_cpu-" + c + ".txt"
  {
  }

  lemma JoinCons(a: string, rest: seq<string>, c: char)
    requires rest != []
    ensures Join([a] + rest, c) == a + [c] + Join(rest, c)
  {
    assert ([a] + rest)[1..] == rest;
  }

  lemma Regroup(p: string, w: string, m: string, b: string, c: string)
    ensures (p + "_walk") + "-" + ((w + "_msg") + "-" + ((m + "_batch") + "-" + ((b + "_cpu") + "-" + (c + ".txt"))))
         == p + (['_'] + (("walk-" + w) + "_" + (("msg-" + m) + "_" + (("batch-" + b) + "_" + ("cpu-" + c)))) + ".txt")
  {
  }

  lemma TailIsPlain(f: ResultFile)
    ensures forall i :: 0 <= i < 4 ==> '_' !in Tail(f)[i]
    ensures Tail(f)[3][|Tail(f)[3]| - 1] !in STRIPPED
  {
    DigitsOnly(f.msg, '_');
    DigitsOnly(f.batch, '_');
    DigitsOnly(f.cpu, '_');
    var c := Decimal(f.cpu);
    assert IsDigit(c[|c| - 1]);
  }

  /** A generated name reads back as the parts of its prefix and its four parameters. */
  lemma ParamsOfName(f: ResultFile)
    ensures Params(NameOf(f)) == Split(StripLeft(f.prefix, {'.', 't', 'x'}), '_') + Tail(f)
    ensures forall c :: c in StripLeft(f.prefix, {'.', 't', 'x'}) ==> c in f.prefix
  {
    NameLayout(f);
    TailIsPlain(f);
    var body := ['_'] + Join(Tail(f), '_');
    StripLeftStops(f.prefix, body + ".txt", STRIPPED);
    var p := StripLeft(f.prefix, STRIPPED);
    assert p + (body + ".txt") == (p + body) + ".txt";
    JoinEnds(Tail(f), '_');
    StripRightStops(p + body, ".txt", STRIPPED);
    assert p + body == p + ['_'] + Join(Tail(f), '_');
    SplitConcat(p, Join(Tail(f), '_'), '_');
    SplitJoin(Tail(f), '_');
  }

  lemma {:induction false} JoinEnds(parts: seq<string>, c: char)
    requires parts != [] && parts[|parts| - 1] != []
    ensures Join(parts, c) != []
    ensures Join(parts, c)[|Join(parts, c)| - 1] == parts[|parts| - 1][|parts[|parts| - 1]| - 1]
  {
    if |parts| > 1 {
      JoinEnds(parts[1..], c);
    }
  }

  /** The key's own parameter is the only one selected, and its value is read back. */
  lemma SelectedInTail(f: ResultFile, k: Key, i: nat)
    requires i < 4
    ensures Selected(Tail(f)[i], KeyName(k)) <==> i == DashOf(k)
    ensures i == DashOf(k) ==> ParseInt(ValueText(Tail(f)[i])) == Some(ParamOf(f, k))
  {
    var t := Tail(f);
    if i == DashOf(k) {
      var d := Decimal(ParamOf(f, k));
      assert t[i] == KeyName(k) + ['-'] + d;
      assert OccursAt(t[i], KeyName(k), 0);
      DigitsOnly(ParamOf(f, k), '-');
      SplitFirst(KeyName(k), d, '-');
      SplitNone(d, '-');
      ParseDecimal(ParamOf(f, k));
    } else {
      NotSelected(f, k, i);
    }
  }

  /** Each other parameter lacks some letter of the key. */
  lemma NotSelected(f: ResultFile, k: Key, i: nat)
    requires i < 4 && i != DashOf(k)
    ensures !Contains(Tail(f)[i], KeyName(k))
  {
    var letter := match k case Msg => 2 case Batch => 4 case Cpu => 0;
    var other := match k case Msg => 'g' case Batch => 'h' case Cpu => 'c';
    DigitsOnly(f.msg, other);
    DigitsOnly(f.batch, other);
    DigitsOnly(f.cpu, other);
    if i == 2 && k == Cpu {
      DigitsOnly(f.batch, 'p');
      NotContained(Tail(f)[2], "cpu", 1);
    } else {
      NotContained(Tail(f)[i], KeyName(k), letter);
    }
  }

  /** variants over generated names: int() accepts everything, and the values are exactly the values
      the key takes in the list. */
  lemma VariantsOfNames(fs: seq<ResultFile>, k: Key, n: nat)
    requires AllRegular(fs)
    ensures Convertible(Names(fs), KeyName(k))
    ensures IsValue(Names(fs), KeyName(k), n) <==> n in ValuesOf(fs, k)
  {
    forall i, j | 0 <= i < |fs| && 0 <= j < |Params(Names(fs)[i])|
      ensures Selected(Params(Names(fs)[i])[j], KeyName(k)) ==>
                ParseInt(ValueText(Params(Names(fs)[i])[j])) == Some(ParamOf(fs[i], k))
    {
      ParamsOfOneName(fs[i], k, j);
    }
    if n in ValuesOf(fs, k) {
      var i :| 0 <= i < |fs| && n == ParamOf(fs[i], k);
      var j := KeyParam(fs[i], k);
      assert Selected(Params(Names(fs)[i])[j], KeyName(k));
    }
  }

  lemma ParamsOfOneName(f: ResultFile, k: Key, j: nat)
    requires Regular(f) && j < |Params(NameOf(f))|
    ensures Selected(Params(NameOf(f))[j], KeyName(k)) ==>
              ParseInt(ValueText(Params(NameOf(f))[j])) == Some(ParamOf(f, k))
  {
    ParamsOfName(f);
    var front := Split(StripLeft(f.prefix, STRIPPED), '_');
    if j < |front| {
      SplitParts(StripLeft(f.prefix, STRIPPED), '_', '-', j);
    } else {
      SelectedInTail(f, k, j - |front|);
    }
  }

  lemma KeyParam(f: ResultFile, k: Key) returns (j: nat)
    requires Regular(f)
    ensures j < |Params(NameOf(f))| && Selected(Params(NameOf(f))[j], KeyName(k))
    ensures ParseInt(ValueText(Params(NameOf(f))[j])) == Some(ParamOf(f, k))
  {
    ParamsOfName(f);
    j := |Split(StripLeft(f.prefix, STRIPPED), '_')| + DashOf(k);
    SelectedInTail(f, k, DashOf(k));
  }

  // ----- Row labels -----

  function Pow1024(k: nat): nat
    ensures Pow1024(k) > 0
  {
    if k == 0 then 1 else 1024 * Pow1024(k - 1)
  }

  /** x is m scaled by 1024^k, rounded down, with m as small as scaling goes. */
  ghost predicate Scaled(x: nat, m: nat, k: nat)
  {
    m * Pow1024(k) <= x < (m + 1) * Pow1024(k) && m < 1024 && (k > 0 ==> m > 0)
  }

  /** The scaling loop of a row label. The division is exact and int() drops the fraction. */
  method ScaleTick(x: nat) returns (m: nat, k: nat)
    ensures Scaled(x, m, k)
  {
    m, k := x, 0;
    while m >= 1024
      invariant m * Pow1024(k) <= x < (m + 1) * Pow1024(k) && (k > 0 ==> m > 0)
    {
      var m' := (m as real / 1024.0).Floor;
      FloorIsQuotient(m);
      ScaleStep(x, m, m', Pow1024(k));
      m, k := m', k + 1;
    }
  }

  lemma FloorIsQuotient(m: nat)
    ensures (m as real / 1024.0).Floor == m / 1024
  {
    var q, r := m / 1024, m % 1024;
    assert m as real / 1024.0 == q as real + r as real / 1024.0;
  }

  lemma ScaleStep(x: nat, m: nat, q: nat, p: nat)
    requires m * p <= x < (m + 1) * p && q == m / 1024
    ensures q * (1024 * p) <= x < (q + 1) * (1024 * p)
  {
    MulMono(q * 1024, m, p);
    MulMono(m + 1, (q + 1) * 1024, p);
    assert q * 1024 * p == q * (1024 * p) && (q + 1) * 1024 * p == (q + 1) * (1024 * p);
  }

  /** The scaled form is unique. */
  lemma ScaledIsUnique(x: nat, m: nat, k: nat, m': nat, k': nat)
    requires Scaled(x, m, k) && Scaled(x, m', k')
    ensures m == m' && k == k'
  {
    if k < k' {
      ScaledBounds(x, m, k, m', k');
    } else if k' < k {
      ScaledBounds(x, m', k', m, k);
    } else {
      QuotientOfScaled(x, m, Pow1024(k));
      QuotientOfScaled(x, m', Pow1024(k));
    }
  }

  lemma QuotientOfScaled(x: nat, m: nat, p: nat)
    requires p > 0 && m * p <= x < (m + 1) * p
    ensures x / p == m
  {
    assert (m + 1) * p == m * p + p;
    DivModUnique(x, p, m, x - m * p);
  }

  lemma {:induction false} PowMono(j: nat, k: nat)
    requires j <= k
    ensures Pow1024(j) <= Pow1024(k)
  {
    if j < k {
      PowMono(j, k - 1);
    }
  }

  /** A form with a smaller exponent says x < 1024^(k+1), one with a larger says x >= 1024^(k+1). */
  lemma ScaledBounds(x: nat, m: nat, k: nat, m': nat, k': nat)
    requires Scaled(x, m, k) && m' * Pow1024(k') <= x && m' > 0
    ensures k' <= k
  {
    MulMono(m + 1, 1024, Pow1024(k));
    MulMono(1, m', Pow1024(k'));
    if k' > k {
      PowMono(k + 1, k');
    }
  }

  /** The label's suffix. From 1024^3 on the script has none. */
  function Suffix(k: nat): string
  {
    if k == 1 then "K" else if k == 2 then "M" else ""
  }

  /** The text of a row label. */
  function LabelText(m: nat, k: nat): string
  {
    Decimal(m) + Suffix(k)
  }

  /** Two rows carry the same label exactly when their scaled values and their suffixes agree. So rows
      below 1024^3 are confused only with rows that round down to the same scaled value, and rows from
      there on also with small ones. */
  lemma LabelsAgreeIff(x: nat, m: nat, k: nat, y: nat, m': nat, k': nat)
    requires Scaled(x, m, k) && Scaled(y, m', k')
    ensures LabelText(m, k) == LabelText(m', k') <==> m == m' && Suffix(k) == Suffix(k')
    ensures k < 3 && k' < 3 ==> (LabelText(m, k) == LabelText(m', k') <==> Scaled(y, m, k))
  {
    var s, s' := LabelText(m, k), LabelText(m', k');
    assert IsDigit(Decimal(m)[|Decimal(m)| - 1]) && IsDigit(Decimal(m')[|Decimal(m')| - 1]);
    if s == s' {
      assert s[|s| - 1] == s'[|s'| - 1];
      assert Suffix(k) == Suffix(k');
      SameBeforeTail(Decimal(m), Decimal(m'), Suffix(k));
      DecimalIsInjective(m, m');
    }
    if k < 3 && k' < 3 && Scaled(y, m, k) {
      ScaledIsUnique(y, m, k, m', k');
    }
  }

  /** What a reader takes the last letter of a label to mean. */
  function LabelUnit(text: string): nat
  {
    if text == [] then 1
    else match text[|text| - 1]
         case 'K' => 1024
         case 'M' => 1024 * 1024
         case _ => 1
  }

  /** The number a reader sees before the letter, if there is one. */
  function LabelNumber(text: string): Option<nat>
  {
    ParseInt(if LabelUnit(text) == 1 then text else text[..|text| - 1])
  }

  /** The label tells the value of its row: the number before the letter, times what the letter stands
      for, is x rounded down to that unit. */
  ghost predicate Tells(text: string, x: nat)
  {
    var u, m := LabelUnit(text), LabelNumber(text);
    m.Some? && u * m.value <= x < u * (m.value + 1) && m.value < 1024
  }

  lemma LetterRead(d: string, c: char)
    requires c == 'K' || c == 'M'
    ensures LabelUnit(d + [c]) == if c == 'K' then 1024 else 1024 * 1024
    ensures LabelNumber(d + [c]) == ParseInt(d)
  {
    assert (d + [c])[..|d|] == d;
  }

  lemma NoLetterRead(d: string)
    requires Digits(d)
    ensures LabelUnit(d) == 1 && LabelNumber(d) == ParseInt(d)
  {
    assert IsDigit(d[|d| - 1]);
  }

  lemma LabelParts(m: nat, k: nat)
    ensures LabelUnit(LabelText(m, k)) == if k == 1 then 1024 else if k == 2 then 1024 * 1024 else 1
    ensures LabelNumber(LabelText(m, k)) == Some(m)
  {
    var d := Decimal(m);
    ParseDecimal(m);
    if k == 1 {
      LetterRead(d, 'K');
    } else if k == 2 {
      LetterRead(d, 'M');
    } else {
      assert d + "" == d;
      NoLetterRead(d);
    }
  }

  lemma Powers()
    ensures Pow1024(0) == 1 && Pow1024(1) == 1024 && Pow1024(2) == 0x10_0000 && Pow1024(3) == 0x4000_0000
  {
  }

  lemma ScaledBelow(x: nat, m: nat, k: nat)
    requires Scaled(x, m, k)
    ensures x < 0x4000_0000 <==> k < 3
  {
    Powers();
    MulMono(m + 1, 1024, Pow1024(k));
    if k >= 3 {
      PowMono(3, k);
      MulMono(1, m, Pow1024(k));
    }
  }

  lemma UnitFits(x: nat, m: nat, k: nat, u: nat)
    requires Scaled(x, m, k) && u == if k == 1 then 1024 else if k == 2 then 1024 * 1024 else 1
    ensures u * m <= x < u * (m + 1) && m < 1024 <==> x < 0x4000_0000
  {
    ScaledBelow(x, m, k);
    if k < 3 {
      UnitIsPower(k);
    }
  }

  /** A row's label tells its value exactly below 1024^3, where the script has a suffix for the scale. */
  lemma LabelTellsIff(x: nat, m: nat, k: nat)
    requires Scaled(x, m, k)
    ensures Tells(LabelText(m, k), x) <==> x < 0x4000_0000
  {
    LabelParts(m, k);
    UnitFits(x, m, k, LabelUnit(LabelText(m, k)));
  }

  lemma UnitIsPower(k: nat)
    requires k < 3
    ensures Pow1024(k) == if k == 1 then 1024 else if k == 2 then 1024 * 1024 else 1
  {
    Powers();
  }

  /** 1 and 1024^3 get the same label. */
  lemma LargeTicksAreConfused()
    ensures Scaled(1, 1, 0) && Scaled(0x4000_0000, 1, 3) && LabelText(1, 0) == LabelText(1, 3)
  {
    assert Pow1024(1) == 1024 && Pow1024(2) == 1048576 && Pow1024(3) == 0x4000_0000;
  }

  // ----- The table -----

  datatype Row = Row(tick: string, cells: seq<string>)

  /** The rows main prints, as the file behind each cell. None where the script stops: a name that
      int() rejects, or a cell without a file. */
  method PivotTable(files: seq<string>, xkey: Key, vkey: Key) returns (r: Option<(seq<nat>, seq<nat>, seq<Row>)>)
    ensures r.Some? ==>
              var (xs, vs, rows) := r.value;
              && StrictlySorted(xs) && (forall n: nat :: n in xs <==> IsValue(files, KeyName(xkey), n))
              && StrictlySorted(vs) && (forall n: nat :: n in vs <==> IsValue(files, KeyName(vkey), n))
              && |rows| == |xs|
              && forall i :: 0 <= i < |xs| ==> GoodRow(files, xkey, xs[i], vkey, vs, rows[i])
    ensures r.None? ==>
              || !Convertible(files, KeyName(xkey)) || !Convertible(files, KeyName(vkey))
              || exists x: nat, v: nat :: IsValue(files, KeyName(xkey), x) && IsValue(files, KeyName(vkey), v)
                                          && FirstMatch(files, Patterns(Cell(xkey, x, vkey, v))) == None
  {
    var xs := Variants(files, KeyName(xkey));
    var vs := Variants(files, KeyName(vkey));
    if xs == None || vs == None {
      return None;
    }
    var rows := [];
    var i := 0;
    while i < |xs.value|
      invariant i <= |xs.value| && |rows| == i
      invariant forall k :: 0 <= k < i ==> GoodRow(files, xkey, xs.value[k], vkey, vs.value, rows[k])
    {
      var row := TableRow(files, xkey, xs.value[i], vkey, vs.value);
      if row == None {
        assert xs.value[i] in xs.value;
        return None;
      }
      rows := rows + [row.value];
      i := i + 1;
    }
    return Some((xs.value, vs.value, rows));
  }

  /** One row: the label of x and the files behind its cells. */
  method TableRow(files: seq<string>, xkey: Key, x: nat, vkey: Key, vs: seq<nat>) returns (r: Option<Row>)
    ensures r.Some? ==> GoodRow(files, xkey, x, vkey, vs, r.value)
    ensures r.None? ==> exists v :: v in vs && FirstMatch(files, Patterns(Cell(xkey, x, vkey, v))) == None
  {
    var m, k := ScaleTick(x);
    var cells: seq<string> := [];
    var j := 0;
    while j < |vs|
      invariant j <= |vs| && |cells| == j
      invariant forall l :: 0 <= l < j ==> FirstMatch(files, Patterns(Cell(xkey, x, vkey, vs[l]))) == Some(cells[l])
    {
      var found := FindFileByKey(files, Patterns(Cell(xkey, x, vkey, vs[j])));
      if found == None {
        assert vs[j] in vs;
        return None;
      }
      cells := cells + [found.value];
      j := j + 1;
    }
    return Some(Row(LabelText(m, k), cells));
  }

  /** The row of x: its scaled label and, for each v, the first file that contains both patterns. */
  ghost predicate GoodRow(files: seq<string>, xkey: Key, x: nat, vkey: Key, vs: seq<nat>, row: Row)
  {
    && (exists m, k :: Scaled(x, m, k) && row.tick == LabelText(m, k))
    && |row.cells| == |vs|
    && forall j :: 0 <= j < |vs| ==> FirstMatch(files, Patterns(Cell(xkey, x, vkey, vs[j]))) == Some(row.cells[j])
  }

  /** So does every row of the table. */
  lemma RowTellsIff(files: seq<string>, xkey: Key, x: nat, vkey: Key, vs: seq<nat>, row: Row)
    requires GoodRow(files, xkey, x, vkey, vs, row)
    ensures Tells(row.tick, x) <==> x < 0x4000_0000
  {
    var m, k :| Scaled(x, m, k) && row.tick == LabelText(m, k);
    LabelTellsIff(x, m, k);
  }

  /** On generated names with prefix-free values, every cell of the table shows a file with exactly the
      row's and the column's values. */
  lemma TableIsExact(fs: seq<ResultFile>, xkey: Key, x: nat, vkey: Key, vs: seq<nat>, row: Row, j: nat)
    requires AllRegular(fs) && GoodRow(Names(fs), xkey, x, vkey, vs, row) && j < |vs|
    requires x in ValuesOf(fs, xkey) && vs[j] in ValuesOf(fs, vkey)
    requires PrefixFree(ValuesOf(fs, xkey)) && PrefixFree(ValuesOf(fs, vkey))
    ensures exists f :: f in fs && row.cells[j] == NameOf(f) && Exact(f, Cell(xkey, x, vkey, vs[j]))
  {
    var c := Cell(xkey, x, vkey, vs[j]);
    PrefixFreeLookupIsExact(fs, c);
    var i :| 0 <= i < |fs| && KeyedFrom(fs, c, i);
    assert fs[i] in fs;
  }
}
