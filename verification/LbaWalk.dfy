/** The logical block address walker of the workload generator: `next_lba`, the
    request size in blocks and the per-thread slices. */
module LbaWalk {
  import opened Arith

  datatype Walk = Random | Seq | Same

  /** The hard-coded capacity, in 512-byte blocks, of the benchmarked drive. */
  const BLOCK_END: nat := 0xe8e088b0

  /** The largest value of the C library's generator (glibc). */
  const RAND_MAX: nat := 0x7fff_ffff

  /** The address of the next request. All arithmetic is on 64-bit words; `rand` stands for
      the value the C library's generator returns. */
  function NextLba(walk: Walk, lba: Word, blockEnd: Word, nblocks: Word, rand: Word): Word
    requires walk.Random? ==> blockEnd != nblocks
  {
    match walk
    case Random => rand % ((blockEnd - nblocks) % WORD)
    case Same => lba
    case Seq => if (lba + nblocks * 2) % WORD < blockEnd then (lba + nblocks) % WORD else 0
  }

  /** The geometry for which no intermediate of the walk leaves 64 bits. */
  ghost predicate Fits(blockEnd: nat, nblocks: nat)
  {
    0 < nblocks < blockEnd && 3 * blockEnd <= WORD
  }

  /** One request never leaves the device when the one before did not, in any walk mode. */
  lemma NextInRange(walk: Walk, lba: Word, blockEnd: Word, nblocks: Word, rand: Word)
    requires nblocks < blockEnd && 3 * blockEnd <= WORD
    requires lba + nblocks <= blockEnd
    ensures NextLba(walk, lba, blockEnd, nblocks, rand) + nblocks <= blockEnd
    ensures walk == Random && rand <= RAND_MAX ==> NextLba(walk, lba, blockEnd, nblocks, rand) <= RAND_MAX
  {
    if walk == Random {
      RemainderBound(rand, blockEnd - nblocks);
      DivModUnique(blockEnd - nblocks, WORD, 0, blockEnd - nblocks);
    }
  }

  /** The random walk reaches exactly the addresses that fit the device and that the generator can
      return. The device has more blocks than the generator has values, so requests never start in its
      upper part. */
  lemma RandomReachesIff(lba: Word, blockEnd: Word, nblocks: Word, x: nat)
    requires nblocks < blockEnd
    ensures (exists rand: Word :: rand <= RAND_MAX && NextLba(Random, lba, blockEnd, nblocks, rand) == x)
       <==> x < blockEnd - nblocks && x <= 0x7fff_ffff
  {
    var m := blockEnd - nblocks;
    DivModUnique(m, WORD, 0, m);
    forall rand: Word | rand <= RAND_MAX ensures NextLba(Random, lba, blockEnd, nblocks, rand) == rand % m <= rand {
      RemainderBound(rand, m);
    }
    if x < m && x <= RAND_MAX {
      DivModUnique(x, m, 0, x);
      assert NextLba(Random, lba, blockEnd, nblocks, x) == x;
    }
  }

  lemma RemainderBound(a: nat, m: nat)
    requires m > 0
    ensures a % m <= a
  {
    if a < m { DivModUnique(a, m, 0, a); }
  }

  // ----- The sequential walk -----

  /** The address after i steps of the sequential walk from s. */
  function SeqIterate(s: Word, blockEnd: Word, nblocks: Word, i: nat): Word
  {
    if i == 0 then s else NextLba(Seq, SeqIterate(s, blockEnd, nblocks, i - 1), blockEnd, nblocks, 0)
  }

  /** The number of requests in one cycle of the sequential walk. */
  function Period(blockEnd: nat, nblocks: nat): nat
    requires nblocks > 0 && blockEnd > 0
  {
    (blockEnd - 1) / nblocks
  }

  /** The number of addresses, starting at s, before the walk first falls back to 0. */
  function Ramp(s: nat, blockEnd: nat, nblocks: nat): nat
    requires nblocks > 0 && s < blockEnd
  {
    var d := (blockEnd - 1 - s) / nblocks;
    if d == 0 then 1 else d
  }

  lemma PeriodPositive(blockEnd: nat, nblocks: nat)
    requires 0 < nblocks < blockEnd
    ensures Period(blockEnd, nblocks) >= 1
    ensures Ramp(0, blockEnd, nblocks) == Period(blockEnd, nblocks)
  {
    DivIsBound(blockEnd - 1, nblocks, 1);
  }

  lemma SeqStep(x: Word, blockEnd: Word, nblocks: Word)
    requires Fits(blockEnd, nblocks) && x < blockEnd
    ensures NextLba(Seq, x, blockEnd, nblocks, 0) == if x + 2 * nblocks < blockEnd then x + nblocks else 0
  {
  }

  lemma RampStep(s: nat, blockEnd: nat, nblocks: nat, i: nat)
    requires 0 < nblocks && s < blockEnd && 0 < i <= Ramp(s, blockEnd, nblocks)
    ensures i * nblocks == (i - 1) * nblocks + nblocks
    ensures s + (i - 1) * nblocks < blockEnd
    ensures s + (i - 1) * nblocks + 2 * nblocks < blockEnd <==> i < Ramp(s, blockEnd, nblocks)
  {
    DivIsBound(blockEnd - 1 - s, nblocks, i + 1);
    DivIsBound(blockEnd - 1 - s, nblocks, i - 1);
    assert (i + 1) * nblocks == (i - 1) * nblocks + 2 * nblocks;
  }

  lemma CycleStep(blockEnd: nat, nblocks: nat, m: nat)
    requires 0 < nblocks < blockEnd && m < Period(blockEnd, nblocks)
    ensures (m + 1) * nblocks == m * nblocks + nblocks < blockEnd
    ensures m * nblocks + 2 * nblocks < blockEnd <==> m + 1 < Period(blockEnd, nblocks)
  {
    DivIsBound(blockEnd - 1, nblocks, m + 2);
    DivIsBound(blockEnd - 1, nblocks, m + 1);
    assert (m + 2) * nblocks == m * nblocks + 2 * nblocks;
  }

  /** What the closed form says the i-th address is. */
  function SeqAddress(s: nat, nblocks: nat, ramp: nat, p: nat, i: nat): nat
    requires p > 0
  {
    if i < ramp then s + i * nblocks else (i - ramp) % p * nblocks
  }

  /** The walk from any start has a closed form: it climbs in steps of nblocks, falls to 0, and
      from there cycles through the multiples 0, nblocks, ..., (P - 1) * nblocks. */
  lemma {:induction false} SeqClosedForm(s: Word, blockEnd: Word, nblocks: Word, i: nat)
    requires Fits(blockEnd, nblocks) && s < blockEnd
    ensures Period(blockEnd, nblocks) >= 1
    ensures SeqIterate(s, blockEnd, nblocks, i)
         == SeqAddress(s, nblocks, Ramp(s, blockEnd, nblocks), Period(blockEnd, nblocks), i)
  {
    PeriodPositive(blockEnd, nblocks);
    if i > 0 {
      SeqClosedForm(s, blockEnd, nblocks, i - 1);
      ClosedFormStep(s, blockEnd, nblocks, Ramp(s, blockEnd, nblocks), Period(blockEnd, nblocks), i);
    }
  }

  /** The closed form climbs by nblocks where two more requests fit, and falls to 0 elsewhere. */
  ghost predicate StepsTo(x: nat, y: nat, blockEnd: nat, nblocks: nat)
  {
    x < blockEnd && y == if x + 2 * nblocks < blockEnd then x + nblocks else 0
  }

  lemma ClimbSteps(s: nat, blockEnd: nat, nblocks: nat, ramp: nat, p: nat, i: nat)
    requires 0 < nblocks && s < blockEnd && p > 0
    requires ramp == Ramp(s, blockEnd, nblocks) && 0 < i <= ramp
    ensures StepsTo(SeqAddress(s, nblocks, ramp, p, i - 1), SeqAddress(s, nblocks, ramp, p, i), blockEnd, nblocks)
  {
    RampStep(s, blockEnd, nblocks, i);
    DivModUnique(0, p, 0, 0);
  }

  lemma CycleSteps(s: nat, blockEnd: nat, nblocks: nat, ramp: nat, p: nat, i: nat)
    requires 0 < nblocks < blockEnd && p == Period(blockEnd, nblocks) > 0 && i > ramp
    ensures StepsTo(SeqAddress(s, nblocks, ramp, p, i - 1), SeqAddress(s, nblocks, ramp, p, i), blockEnd, nblocks)
  {
    ModSucc(i - 1 - ramp, p);
    CycleStep(blockEnd, nblocks, (i - 1 - ramp) % p);
  }

  lemma ClosedFormStep(s: Word, blockEnd: Word, nblocks: Word, ramp: nat, p: nat, i: nat)
    requires Fits(blockEnd, nblocks) && s < blockEnd && i > 0
    requires ramp == Ramp(s, blockEnd, nblocks) && p == Period(blockEnd, nblocks) >= 1
    requires SeqIterate(s, blockEnd, nblocks, i - 1) == SeqAddress(s, nblocks, ramp, p, i - 1)
    ensures SeqIterate(s, blockEnd, nblocks, i) == SeqAddress(s, nblocks, ramp, p, i)
  {
    if i <= ramp {
      ClimbSteps(s, blockEnd, nblocks, ramp, p, i);
    } else {
      CycleSteps(s, blockEnd, nblocks, ramp, p, i);
    }
    SeqStep(SeqIterate(s, blockEnd, nblocks, i - 1), blockEnd, nblocks);
  }

  /** From 0 the i-th address is (i mod P) * nblocks. */
  lemma SeqFromZero(blockEnd: Word, nblocks: Word, i: nat)
    requires Fits(blockEnd, nblocks)
    ensures Period(blockEnd, nblocks) >= 1
    ensures SeqIterate(0, blockEnd, nblocks, i) == i % Period(blockEnd, nblocks) * nblocks
  {
    SeqClosedForm(0, blockEnd, nblocks, i);
    PeriodPositive(blockEnd, nblocks);
    AddressFromZero(nblocks, Period(blockEnd, nblocks), i);
  }

  lemma AddressFromZero(nblocks: nat, p: nat, i: nat)
    requires p > 0
    ensures SeqAddress(0, nblocks, p, p, i) == i % p * nblocks
  {
    if i >= p {
      ModAddMultiple(i - p, p, 1);
    } else {
      DivModUnique(i, p, 0, i);
    }
  }

  lemma RampWithinPeriod(s: nat, blockEnd: nat, nblocks: nat)
    requires 0 < nblocks < blockEnd && s < blockEnd
    ensures 1 <= Ramp(s, blockEnd, nblocks) <= Period(blockEnd, nblocks)
  {
    PeriodPositive(blockEnd, nblocks);
    var d := (blockEnd - 1 - s) / nblocks;
    DivIsBound(blockEnd - 1 - s, nblocks, d);
    DivIsBound(blockEnd - 1, nblocks, d);
  }

  lemma AddressOnCycle(s: nat, nblocks: nat, ramp: nat, p: nat, i: nat)
    requires p > 0 && i >= ramp
    ensures SeqAddress(s, nblocks, ramp, p, i + p) == SeqAddress(s, nblocks, ramp, p, i) == (i - ramp) % p * nblocks
    ensures i == ramp ==> SeqAddress(s, nblocks, ramp, p, i) == 0
  {
    ModAddMultiple(i - ramp, p, 1);
    DivModUnique(0, p, 0, 0);
  }

  /** From any start on the device the walk is back at 0 after at most P steps, and runs the cycle
      from 0, with period P, from then on. */
  lemma SeqReachesZeroAndRepeats(s: Word, blockEnd: Word, nblocks: Word, i: nat)
    requires Fits(blockEnd, nblocks) && s < blockEnd
    ensures var ramp, p := Ramp(s, blockEnd, nblocks), Period(blockEnd, nblocks);
            && 1 <= ramp <= p
            && SeqIterate(s, blockEnd, nblocks, ramp) == 0
            && (i >= ramp ==> SeqIterate(s, blockEnd, nblocks, i + p) == SeqIterate(s, blockEnd, nblocks, i))
            && (i >= ramp ==> SeqIterate(s, blockEnd, nblocks, i) == SeqIterate(0, blockEnd, nblocks, i - ramp))
  {
    RampWithinPeriod(s, blockEnd, nblocks);
    var ramp, p := Ramp(s, blockEnd, nblocks), Period(blockEnd, nblocks);
    SeqClosedForm(s, blockEnd, nblocks, ramp);
    AddressOnCycle(s, nblocks, ramp, p, ramp);
    if i >= ramp {
      SeqClosedForm(s, blockEnd, nblocks, i);
      SeqClosedForm(s, blockEnd, nblocks, i + p);
      AddressOnCycle(s, nblocks, ramp, p, i);
      SeqFromZero(blockEnd, nblocks, i - ramp);
    }
  }

  // ----- Coverage -----

  /** Block x belongs to the request of n blocks at lba. */
  predicate Touches(lba: nat, n: nat, x: nat)
  {
    lba <= x < lba + n
  }

  ghost predicate Disjoint(lba: nat, n: nat, lba': nat, n': nat)
  {
    forall x: nat :: !(Touches(lba, n, x) && Touches(lba', n', x))
  }

  lemma DisjointIff(lba: nat, n: nat, lba': nat)
    requires n > 0
    ensures Disjoint(lba, n, lba', n) <==> lba + n <= lba' || lba' + n <= lba
  {
    if lba < lba' + n && lba' < lba + n {
      var x := if lba < lba' then lba' else lba;
      assert Touches(lba, n, x) && Touches(lba', n, x);
    }
  }

  /** Multiples of n, taken n blocks at a time, are disjoint unless they are equal. */
  lemma MultiplesDisjointIff(a: nat, b: nat, n: nat)
    requires n > 0
    ensures !Disjoint(a * n, n, b * n, n) <==> a == b
  {
    DisjointIff(a * n, n, b * n);
    assert (a + 1) * n == a * n + n && (b + 1) * n == b * n + n;
    if a < b { MulMono(a + 1, b, n); } else if b < a { MulMono(b + 1, a, n); }
  }

  /** The request that reads block x, when one does. */
  lemma TouchingMultiple(x: nat, n: nat, i: nat)
    requires n > 0
    ensures Touches(i * n, n, x) <==> i == x / n
  {
    assert (i + 1) * n == i * n + n;
    DivIsBound(x, n, i);
    DivIsBound(x, n, i + 1);
  }

  /** Request i of the first period, i < P, starts at i * nblocks. */
  lemma FirstPeriod(blockEnd: Word, nblocks: Word, i: nat)
    requires Fits(blockEnd, nblocks) && i < Period(blockEnd, nblocks)
    ensures SeqIterate(0, blockEnd, nblocks, i) == i * nblocks
  {
    SeqFromZero(blockEnd, nblocks, i);
    DivModUnique(i, Period(blockEnd, nblocks), 0, i);
  }

  lemma OnlyRequestTouching(blockEnd: Word, nblocks: Word, i: nat, x: nat)
    requires Fits(blockEnd, nblocks) && i < Period(blockEnd, nblocks)
    ensures Touches(SeqIterate(0, blockEnd, nblocks, i), nblocks, x) <==> i == x / nblocks
  {
    FirstPeriod(blockEnd, nblocks, i);
    TouchingMultiple(x, nblocks, i);
  }

  lemma PeriodBounds(blockEnd: nat, nblocks: nat, p: nat)
    requires 0 < nblocks < blockEnd && p == Period(blockEnd, nblocks)
    ensures 1 <= blockEnd - p * nblocks <= nblocks
  {
    DivIsBound(blockEnd - 1, nblocks, p);
    DivIsBound(blockEnd - 1, nblocks, p + 1);
    assert (p + 1) * nblocks == p * nblocks + nblocks;
  }

  /** One period from 0 reads exactly the blocks below P * nblocks. Between 1 and nblocks blocks
      at the end of the device are never visited. */
  lemma PeriodCoversExactly(blockEnd: Word, nblocks: Word, p: nat, x: nat)
    requires Fits(blockEnd, nblocks) && p == Period(blockEnd, nblocks)
    ensures (exists i: nat :: i < p && Touches(SeqIterate(0, blockEnd, nblocks, i), nblocks, x)) <==> x < p * nblocks
    ensures 1 <= blockEnd - p * nblocks <= nblocks
  {
    PeriodBounds(blockEnd, nblocks, p);
    var k: nat := x / nblocks;
    DivIsBound(x, nblocks, p);
    forall i: nat | i < p
      ensures Touches(SeqIterate(0, blockEnd, nblocks, i), nblocks, x) <==> i == k
    {
      OnlyRequestTouching(blockEnd, nblocks, i, x);
    }
    assert k < p ==> Touches(SeqIterate(0, blockEnd, nblocks, k), nblocks, x);
  }

  /** A request c blocks after a multiple of n meets that multiple, and the next one unless c is 0. */
  lemma UnalignedDisjointIff(x: nat, c: nat, m: nat, n: nat)
    requires c < n
    ensures !Disjoint(x * n + c, n, m * n, n) <==> m == x || (m == x + 1 && c > 0)
  {
    DisjointIff(x * n + c, n, m * n);
    assert (x + 1) * n == x * n + n && (x + 2) * n == x * n + 2 * n && (m + 1) * n == m * n + n;
    if m < x {
      MulMono(m + 1, x, n);
    } else if m > x + 1 {
      MulMono(x + 2, m, n);
    }
  }

  /** Whether requests i <= j share a block, from their numbers alone. On the cycle they do when they are
      whole periods apart, on the climb only when they are the same request. A request of the climb
      overlaps the one or two multiples of nblocks in which it lies. */
  predicate Meet(s: nat, nblocks: nat, ramp: nat, p: nat, i: nat, j: nat)
    requires nblocks > 0 && p > 0 && i <= j
  {
    if ramp <= i then (j - i) % p == 0
    else if j < ramp then i == j
    else
      var m, x := (j - ramp) % p, s / nblocks + i;
      m == x || (m == x + 1 && s % nblocks > 0)
  }

  lemma ClimbMeets(s: nat, n: nat, i: nat, j: nat)
    requires n > 0 && i <= j
    ensures !Disjoint(s + i * n, n, s + j * n, n) <==> i == j
  {
    DisjointIff(s + i * n, n, s + j * n);
    if i < j {
      MulMono(i + 1, j, n);
      assert (i + 1) * n == i * n + n;
    }
  }

  lemma ClimbMeetsCycle(s: nat, n: nat, i: nat, m: nat)
    requires n > 0
    ensures !Disjoint(s + i * n, n, m * n, n) <==> m == s / n + i || (m == s / n + i + 1 && s % n > 0)
  {
    var a, c := s / n, s % n;
    assert s == a * n + c;
    assert (a + i) * n == a * n + i * n;
    UnalignedDisjointIff(a + i, c, m, n);
  }

  lemma CycleMeets(a: nat, b: nat, p: nat, n: nat)
    requires n > 0 && p > 0 && a <= b
    ensures !Disjoint(a % p * n, n, b % p * n, n) <==> (b - a) % p == 0
  {
    MultiplesDisjointIff(a % p, b % p, n);
    ModEqualIff(a, b, p);
  }

  /** Which requests of the walk from any start overlap. */
  lemma SeqOverlapIff(s: Word, blockEnd: Word, nblocks: Word, i: nat, j: nat)
    requires Fits(blockEnd, nblocks) && s < blockEnd && i <= j
    ensures Period(blockEnd, nblocks) >= 1
    ensures !Disjoint(SeqIterate(s, blockEnd, nblocks, i), nblocks, SeqIterate(s, blockEnd, nblocks, j), nblocks)
       <==> Meet(s, nblocks, Ramp(s, blockEnd, nblocks), Period(blockEnd, nblocks), i, j)
  {
    SeqClosedForm(s, blockEnd, nblocks, i);
    SeqClosedForm(s, blockEnd, nblocks, j);
    var ramp, p := Ramp(s, blockEnd, nblocks), Period(blockEnd, nblocks);
    if ramp <= i {
      CycleMeets(i - ramp, j - ramp, p, nblocks);
    } else if j < ramp {
      ClimbMeets(s, nblocks, i, j);
    } else {
      ClimbMeetsCycle(s, nblocks, i, (j - ramp) % p);
    }
  }

  /** The climb from s ends one multiple of nblocks early: it stops short of the last place where the
      cycle reads, because s is further past a multiple of nblocks than the last block is. */
  predicate Lagging(s: nat, blockEnd: nat, nblocks: nat)
    requires 0 < nblocks < blockEnd
  {
    s + nblocks < blockEnd && s % nblocks > (blockEnd - 1) % nblocks
  }

  /** The length of the climb, by the alignment of its start. */
  lemma RampByAlignment(s: nat, blockEnd: nat, nblocks: nat)
    requires 0 < nblocks < blockEnd && s < blockEnd
    ensures var a, ramp, p := s / nblocks, Ramp(s, blockEnd, nblocks), Period(blockEnd, nblocks);
            if s + nblocks < blockEnd then ramp == p - a - (if Lagging(s, blockEnd, nblocks) then 1 else 0)
            else ramp == 1 && a >= p - 1
  {
    DivIsBound(blockEnd - 1 - s, nblocks, 1);
    DivMono(s, blockEnd - 1, nblocks);
    if s + nblocks < blockEnd {
      DifferenceQuotient(s, blockEnd - 1, nblocks);
    } else {
      var p := Period(blockEnd, nblocks);
      assert p * nblocks <= blockEnd - 1 by { DivIsBound(blockEnd - 1, nblocks, p); }
      assert p > 0 ==> (p - 1) * nblocks == p * nblocks - nblocks;
      DivIsBound(s, nblocks, if p > 0 then p - 1 else 0);
    }
  }

  /** The quotient of a difference is that of the quotients, less one when the remainders borrow. */
  lemma DifferenceQuotient(s: nat, t: nat, n: nat)
    requires n > 0 && s <= t
    ensures (t - s) / n == t / n - s / n - (if s % n > t % n then 1 else 0)
  {
    var borrow := if s % n > t % n then 1 else 0;
    var q, r := t / n - s / n - borrow, t % n - s % n + borrow * n;
    assert t == t / n * n + t % n && s == s / n * n + s % n;
    assert t / n * n - s / n * n == (t / n - s / n) * n;
    assert (t / n - s / n - borrow) * n == (t / n - s / n) * n - borrow * n;
    assert t - s == q * n + r;
    DivMono(s, t, n);
    DivModUnique(t - s, n, q, r);
  }

  /** Fewer than P consecutive requests never overlap, from any start and also across the fall to 0.
      Of P consecutive ones only the first and the last can, namely when the first is still on a climb
      that lags. */
  lemma PairInWindow(s: Word, blockEnd: Word, nblocks: Word, i: nat, j: nat)
    requires Fits(blockEnd, nblocks) && s < blockEnd
    requires i < j < i + Period(blockEnd, nblocks)
    ensures Disjoint(SeqIterate(s, blockEnd, nblocks, i), nblocks, SeqIterate(s, blockEnd, nblocks, j), nblocks)
       <==> !(j == i + Period(blockEnd, nblocks) - 1 && i < Ramp(s, blockEnd, nblocks) && Lagging(s, blockEnd, nblocks))
  {
    var ramp, p := Ramp(s, blockEnd, nblocks), Period(blockEnd, nblocks);
    SeqOverlapIff(s, blockEnd, nblocks, i, j);
    RampByAlignment(s, blockEnd, nblocks);
    if ramp <= i {
      DivModUnique(j - i, p, 0, j - i);
    } else if ramp <= j {
      DivModUnique(j - ramp, p, 0, j - ramp);
    } else {
      RampWithinPeriod(s, blockEnd, nblocks);
    }
  }

  /** Exactly when P requests in a row, from the i-th on, touch pairwise disjoint blocks. From 0, or any
      other multiple of nblocks, they always do, and from any start once the walk has fallen to 0. */
  lemma WindowIsDisjointIff(s: Word, blockEnd: Word, nblocks: Word, i: nat)
    requires Fits(blockEnd, nblocks) && s < blockEnd
    ensures (forall j, k :: i <= j < k < i + Period(blockEnd, nblocks) ==>
               Disjoint(SeqIterate(s, blockEnd, nblocks, j), nblocks, SeqIterate(s, blockEnd, nblocks, k), nblocks))
       <==> !(i < Ramp(s, blockEnd, nblocks) && Lagging(s, blockEnd, nblocks))
    ensures s % nblocks == 0 ==> !Lagging(s, blockEnd, nblocks)
  {
    var p := Period(blockEnd, nblocks);
    forall j, k | i <= j < k < i + p
      ensures Disjoint(SeqIterate(s, blockEnd, nblocks, j), nblocks, SeqIterate(s, blockEnd, nblocks, k), nblocks)
         <==> !(j == i && k == i + p - 1 && i < Ramp(s, blockEnd, nblocks) && Lagging(s, blockEnd, nblocks))
    {
      PairInWindow(s, blockEnd, nblocks, j, k);
    }
    if i < Ramp(s, blockEnd, nblocks) && Lagging(s, blockEnd, nblocks) {
      RampByAlignment(s, blockEnd, nblocks);
      RampWithinPeriod(s, blockEnd, nblocks);
      assert i < i + p - 1;
      assert !Disjoint(SeqIterate(s, blockEnd, nblocks, i), nblocks,
                       SeqIterate(s, blockEnd, nblocks, i + p - 1), nblocks);
    }
  }

  /** P requests in a row can overlap: on 10 blocks, requests of 4 from block 2 go to 2 and then to 0. */
  lemma LaggingWindowOverlaps()
    ensures Period(10, 4) == 2
    ensures !Disjoint(SeqIterate(2, 10, 4, 0), 4, SeqIterate(2, 10, 4, 1), 4)
  {
    PairInWindow(2, 10, 4, 0, 1);
  }

  // ----- Request size and slices -----

  /** The number of 512-byte blocks of one I/O. */
  function BlocksOf(size: nat): nat
  {
    if size % 512 != 0 then size / 512 + 1 else size / 512
  }

  /** The start address of thread n. */
  function SliceStart(ncpus: nat, n: nat): nat
    requires ncpus > 0
  {
    BLOCK_END / ncpus * n
  }

  /** BlocksOf rounds up: it is the least number of blocks that holds size bytes. */
  lemma BlocksOfIsLeast(size: nat, n: nat)
    ensures n * 512 >= size <==> n >= BlocksOf(size)
  {
  }

  /** With the program's limits, every thread's first request lies inside its own slice, and the
      slices are disjoint parts of the device. */
  lemma SlicesFit(size: nat, ncpus: nat, n: nat)
    requires size < 0x8000_0000 && 1 <= ncpus <= 32 && n < ncpus
    ensures BlocksOf(size) <= BLOCK_END / ncpus
    ensures SliceStart(ncpus, n) + BLOCK_END / ncpus <= BLOCK_END
    ensures n + 1 < ncpus ==> SliceStart(ncpus, n) + BLOCK_END / ncpus == SliceStart(ncpus, n + 1)
    ensures SliceStart(ncpus, 0) == 0
  {
    var w := BLOCK_END / ncpus;
    DivIsBound(BLOCK_END, ncpus, 0x40_0000);
    assert 0x40_0000 * ncpus <= 0x40_0000 * 32;
    DivIsBound(BLOCK_END, ncpus, w);
    assert w * n + w == w * (n + 1);
    MulMono(n + 1, ncpus, w);
  }

  /** Slices of different threads never overlap. */
  lemma SlicesDisjoint(size: nat, ncpus: nat, n: nat, n': nat)
    requires size < 0x8000_0000 && 1 <= ncpus <= 32 && n < n' < ncpus
    ensures SliceStart(ncpus, n) + BlocksOf(size) <= SliceStart(ncpus, n')
    ensures Disjoint(SliceStart(ncpus, n), BlocksOf(size), SliceStart(ncpus, n'), BlocksOf(size))
  {
    SlicesFit(size, ncpus, n);
    var w := BLOCK_END / ncpus;
    MulMono(n + 1, n', w);
    assert w * n + w == w * (n + 1);
  }
}
