/** The file lookup of parser.py: first file whose name contains every key, against the lookup by
    parameter value that the table is meant to do. */
module ResultLookup {
  import opened Wrappers
  import opened Text
  import opened LbaWalk
  import opened ResultNames

  predicate HasAll(file: string, keys: seq<string>)
  {
    forall k :: 0 <= k < |keys| ==> Contains(file, keys[k])
  }

  /** find_file_by_key: the first file that contains every key; None where the script gives up. */
  method FindFileByKey(files: seq<string>, keys: seq<string>) returns (r: Option<string>)
    ensures r == FirstMatch(files, keys)
  {
    var i := 0;
    while i < |files|
      invariant i <= |files|
      invariant FirstMatch(files, keys) == FirstMatch(files[i..], keys)
    {
      var ok := 0;
      var k := 0;
      while k < |keys|
        invariant k <= |keys| && ok <= k
        invariant ok == k <==> forall j :: 0 <= j < k ==> Contains(files[i], keys[j])
      {
        if Contains(files[i], keys[k]) {
          ok := ok + 1;
        }
        k := k + 1;
      }
      if ok == |keys| {
        return Some(files[i]);
      }
      assert files[i..][1..] == files[i + 1..];
      i := i + 1;
    }
    return None;
  }

  function FirstMatch(files: seq<string>, keys: seq<string>): Option<string>
  {
    if files == [] then None
    else if HasAll(files[0], keys) then Some(files[0])
    else FirstMatch(files[1..], keys)
  }

  /** First means first. */
  lemma {:induction false} FirstMatchIs(files: seq<string>, keys: seq<string>, i: nat)
    requires i < |files| && HasAll(files[i], keys)
    requires forall j :: 0 <= j < i ==> !HasAll(files[j], keys)
    ensures FirstMatch(files, keys) == Some(files[i])
  {
    if i > 0 {
      assert !HasAll(files[0], keys);
      forall j | 0 <= j < i - 1 ensures !HasAll(files[1..][j], keys) {
        assert files[1..][j] == files[j + 1];
      }
      FirstMatchIs(files[1..], keys, i - 1);
    }
  }

  lemma {:induction false} NoMatch(files: seq<string>, keys: seq<string>)
    ensures FirstMatch(files, keys) == None <==> forall j :: 0 <= j < |files| ==> !HasAll(files[j], keys)
  {
    if files != [] {
      NoMatch(files[1..], keys);
      assert forall j :: 1 <= j < |files| ==> files[j] == files[1..][j - 1];
    }
  }

  // ----- Against the keyed lookup -----

  /** A cell of the table: the values of the two parameters. */
  datatype Cell = Cell(xkey: Key, x: nat, vkey: Key, v: nat)

  function Patterns(c: Cell): seq<string>
  {
    [Pattern(c.xkey, c.x), Pattern(c.vkey, c.v)]
  }

  predicate Exact(f: ResultFile, c: Cell)
  {
    ParamOf(f, c.xkey) == c.x && ParamOf(f, c.vkey) == c.v
  }

  /** Both parameters begin with the decimals asked for. */
  predicate Extends(f: ResultFile, c: Cell)
  {
    Decimal(c.x) <= Decimal(ParamOf(f, c.xkey)) && Decimal(c.v) <= Decimal(ParamOf(f, c.vkey))
  }

  function Names(fs: seq<ResultFile>): seq<string>
  {
    seq(|fs|, i requires 0 <= i < |fs| => NameOf(fs[i]))
  }

  predicate AllRegular(fs: seq<ResultFile>)
  {
    forall i :: 0 <= i < |fs| ==> Regular(fs[i])
  }

  lemma MatchIsExtends(f: ResultFile, c: Cell)
    requires Regular(f)
    ensures HasAll(NameOf(f), Patterns(c)) <==> Extends(f, c)
  {
    SubstringIsDecimalPrefix(f, c.xkey, c.x);
    SubstringIsDecimalPrefix(f, c.vkey, c.v);
    assert Patterns(c)[0] == Pattern(c.xkey, c.x) && Patterns(c)[1] == Pattern(c.vkey, c.v);
  }

  lemma ExactExtends(f: ResultFile, c: Cell)
    requires Exact(f, c)
    ensures Extends(f, c)
  {
  }

  /** The lookup that the table is meant to do: the first file with exactly the cell's two values. */
  function KeyedLookup(fs: seq<ResultFile>, c: Cell): Option<string>
  {
    if fs == [] then None
    else if Exact(fs[0], c) then Some(NameOf(fs[0]))
    else KeyedLookup(fs[1..], c)
  }

  lemma {:induction false} KeyedLookupFinds(fs: seq<ResultFile>, c: Cell)
    ensures KeyedLookup(fs, c).None? <==> forall i :: 0 <= i < |fs| ==> !Exact(fs[i], c)
    ensures KeyedLookup(fs, c).Some? ==> exists i :: 0 <= i < |fs| && KeyedFrom(fs, c, i)
  {
    if fs != [] {
      if Exact(fs[0], c) {
        assert KeyedFrom(fs, c, 0);
      } else {
        KeyedLookupFinds(fs[1..], c);
        assert forall i :: 1 <= i < |fs| ==> fs[i] == fs[1..][i - 1];
        if i :| 0 <= i < |fs[1..]| && KeyedFrom(fs[1..], c, i) {
          assert KeyedFrom(fs, c, i + 1);
        }
      }
    }
  }

  /** File i is the first exact one, and the one that the keyed lookup returns. */
  ghost predicate KeyedFrom(fs: seq<ResultFile>, c: Cell, i: nat)
  {
    && i < |fs| && Exact(fs[i], c) && (forall j :: 0 <= j < i ==> !Exact(fs[j], c))
    && KeyedLookup(fs, c) == Some(NameOf(fs[i]))
  }

  /** A file that is not exact extends the decimals asked for, and no exact file stands before it. */
  ghost predicate Misleading(fs: seq<ResultFile>, c: Cell, j: nat)
  {
    j < |fs| && Extends(fs[j], c) && forall i :: 0 <= i <= j ==> !Exact(fs[i], c)
  }

  lemma MisleadingLater(fs: seq<ResultFile>, c: Cell)
    requires fs != [] && !Extends(fs[0], c)
    ensures (exists j: nat :: Misleading(fs, c, j)) <==> (exists j: nat :: Misleading(fs[1..], c, j))
  {
    assert forall i :: 1 <= i < |fs| ==> fs[i] == fs[1..][i - 1];
    if j: nat :| Misleading(fs, c, j) {
      assert Misleading(fs[1..], c, j - 1);
    }
    if j: nat :| Misleading(fs[1..], c, j) {
      if Exact(fs[0], c) { ExactExtends(fs[0], c); }
      assert Misleading(fs, c, j + 1);
    }
  }

  lemma NamesTail(fs: seq<ResultFile>)
    requires fs != []
    ensures Names(fs) != [] && Names(fs)[0] == NameOf(fs[0]) && Names(fs)[1..] == Names(fs[1..])
  {
  }

  lemma HeadMatches(fs: seq<ResultFile>, c: Cell)
    requires AllRegular(fs) && fs != []
    ensures FirstMatch(Names(fs), Patterns(c))
         == if Extends(fs[0], c) then Some(NameOf(fs[0])) else FirstMatch(Names(fs[1..]), Patterns(c))
  {
    NamesTail(fs);
    MatchIsExtends(fs[0], c);
  }

  /** The cheap lookup agrees with the keyed one, also where that finds nothing, exactly when no file
      that merely extends the decimals asked for stands before the first exact file. */
  lemma {:induction false} LookupIsExactIff(fs: seq<ResultFile>, c: Cell)
    requires AllRegular(fs)
    ensures FirstMatch(Names(fs), Patterns(c)) == KeyedLookup(fs, c) <==> !exists j: nat :: Misleading(fs, c, j)
  {
    if fs != [] {
      HeadMatches(fs, c);
      if Exact(fs[0], c) {
        ExactExtends(fs[0], c);
      } else if Extends(fs[0], c) {
        assert Misleading(fs, c, 0);
        NameTellsExact(fs, c, fs[0]);
      } else {
        MisleadingLater(fs, c);
        LookupIsExactIff(fs[1..], c);
      }
    }
  }

  /** The keyed lookup never returns the name of a file that is not exact. */
  lemma NameTellsExact(fs: seq<ResultFile>, c: Cell, f: ResultFile)
    requires AllRegular(fs) && Regular(f) && !Exact(f, c)
    ensures KeyedLookup(fs, c) != Some(NameOf(f))
  {
    KeyedLookupFinds(fs, c);
    if KeyedLookup(fs, c) == Some(NameOf(f)) {
      var i :| 0 <= i < |fs| && KeyedFrom(fs, c, i);
      NameIsInjective(fs[i], f);
    }
  }

  /** No value's decimal is a proper prefix of another's. */
  ghost predicate PrefixFree(values: set<nat>)
  {
    forall a, b :: a in values && b in values && Decimal(a) <= Decimal(b) ==> a == b
  }

  function ValuesOf(fs: seq<ResultFile>, k: Key): set<nat>
  {
    set i | 0 <= i < |fs| :: ParamOf(fs[i], k)
  }

  ghost predicate PrefixFreeCell(fs: seq<ResultFile>, c: Cell)
  {
    && c.x in ValuesOf(fs, c.xkey) && c.v in ValuesOf(fs, c.vkey)
    && PrefixFree(ValuesOf(fs, c.xkey)) && PrefixFree(ValuesOf(fs, c.vkey))
  }

  lemma PrefixFreeExtension(fs: seq<ResultFile>, c: Cell, i: nat)
    requires PrefixFreeCell(fs, c) && i < |fs| && Extends(fs[i], c)
    ensures Exact(fs[i], c)
  {
    assert ParamOf(fs[i], c.xkey) in ValuesOf(fs, c.xkey) && ParamOf(fs[i], c.vkey) in ValuesOf(fs, c.vkey);
  }

  /** Over prefix-free value sets the lookup is the keyed lookup, for every cell and every order of
      the files: it returns the first exact file, and gives up exactly when there is none. */
  lemma PrefixFreeLookupIsExact(fs: seq<ResultFile>, c: Cell)
    requires AllRegular(fs) && PrefixFreeCell(fs, c)
    ensures FirstMatch(Names(fs), Patterns(c)) == KeyedLookup(fs, c)
    ensures KeyedLookup(fs, c).None? <==> forall i :: 0 <= i < |fs| ==> !Exact(fs[i], c)
    ensures KeyedLookup(fs, c).Some? ==> exists i :: 0 <= i < |fs| && KeyedFrom(fs, c, i)
  {
    if j: nat :| Misleading(fs, c, j) {
      PrefixFreeExtension(fs, c, j);
    }
    LookupIsExactIff(fs, c);
    KeyedLookupFinds(fs, c);
  }

  lemma OneBeginsSixteen()
    ensures Decimal(1) <= Decimal(16)
  {
    assert Decimal(1) == "1" && Decimal(16) == Decimal(1) + "6";
  }

  /** The batch sizes the repository benchmarks are not prefix-free: with its own files, in the order
      of a sorted listing, the cell for batch 1 is filled from the file of batch 16. */
  lemma ShippedBatchesAreConfused(wide: ResultFile, narrow: ResultFile, c: Cell)
    requires wide == ResultFile("output/write", Seq, 64, 16, 1)
    requires narrow == ResultFile("output/write", Seq, 64, 1, 1)
    requires c == Cell(Msg, 64, Batch, 1)
    ensures Exact(narrow, c) && !Exact(wide, c)
    ensures FirstMatch(Names([wide, narrow]), Patterns(c)) == Some(NameOf(wide))
  {
    OneBeginsSixteen();
    assert '-' !in wide.prefix;
    MatchIsExtends(wide, c);
    FirstMatchIs(Names([wide, narrow]), Patterns(c), 0);
  }
}
