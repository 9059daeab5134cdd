/** The string operations that parser.py relies on: substring test, split, strip, decimals. */
module Text {
  import opened Wrappers
  import opened Arith

  predicate OccursAt(s: string, p: string, i: nat)
  {
    i + |p| <= |s| && s[i..i + |p|] == p
  }

  /** Python's `p in s` on strings. */
  predicate Contains(s: string, p: string)
  {
    exists i: nat :: i <= |s| && OccursAt(s, p, i)
  }

  predicate IsSuffix(p: string, s: string)
  {
    |p| <= |s| && s[|s| - |p|..] == p
  }

  lemma ContainedChars(s: string, p: string, k: nat)
    requires Contains(s, p) && k < |p|
    ensures p[k] in s
  {
    var i: nat :| i <= |s| && OccursAt(s, p, i);
    assert s[i..i + |p|][k] == s[i + k];
  }

  lemma NotContained(s: string, p: string, k: nat)
    requires k < |p| && p[k] !in s
    ensures !Contains(s, p)
  {
    if Contains(s, p) {
      ContainedChars(s, p, k);
    }
  }

  lemma PrefixAgrees(p: string, s: string, k: nat)
    requires p <= s && k < |p|
    ensures s[k] in p
  {
    assert s[k] == p[k];
  }

  /** A prefix ends before a character that it does not have. */
  lemma PrefixStops(p: string, s: string, k: nat)
    requires p <= s && k < |s| && s[k] !in p
    ensures |p| <= k
  {
    if |p| > k {
      PrefixAgrees(p, s, k);
    }
  }

  // ----- split -----

  /** `s.split(c)`. */
  function Split(s: string, c: char): (parts: seq<string>)
    ensures parts != []
  {
    if s == [] then [[]]
    else
      var rest := Split(s[1..], c);
      if s[0] == c then [[]] + rest else [[s[0]] + rest[0]] + rest[1..]
  }

  lemma {:induction false} SplitNone(s: string, c: char)
    requires c !in s
    ensures Split(s, c) == [s]
  {
    if s != [] {
      assert s[0] != c && s == [s[0]] + s[1..];
      SplitNone(s[1..], c);
    }
  }

  lemma {:induction false} SplitConcat(a: string, b: string, c: char)
    ensures Split(a + [c] + b, c) == Split(a, c) + Split(b, c)
  {
    if a == [] {
      assert a + [c] + b == [c] + b;
    } else {
      assert (a + [c] + b)[1..] == a[1..] + [c] + b;
      SplitConcat(a[1..], b, c);
    }
  }

  /** Splitting at a character that b begins after. */
  lemma SplitFirst(a: string, b: string, c: char)
    requires c !in a
    ensures Split(a + [c] + b, c) == [a] + Split(b, c)
  {
    SplitConcat(a, b, c);
    SplitNone(a, c);
  }

  /** No part contains a character that the whole does not. */
  lemma {:induction false} SplitParts(s: string, c: char, d: char, i: nat)
    requires d !in s && i < |Split(s, c)|
    ensures d !in Split(s, c)[i]
  {
    if s != [] {
      var rest := Split(s[1..], c);
      if i > 0 {
        SplitParts(s[1..], c, d, if s[0] == c then i - 1 else i);
      } else if s[0] != c {
        SplitParts(s[1..], c, d, 0);
      }
    }
  }

  /** `c.join(parts)` for a single character. */
  function Join(parts: seq<string>, c: char): string
    requires parts != []
  {
    if |parts| == 1 then parts[0] else parts[0] + [c] + Join(parts[1..], c)
  }

  lemma {:induction false} SplitJoin(parts: seq<string>, c: char)
    requires parts != [] && forall i :: 0 <= i < |parts| ==> c !in parts[i]
    ensures Split(Join(parts, c), c) == parts
  {
    if |parts| == 1 {
      SplitNone(parts[0], c);
    } else {
      SplitJoin(parts[1..], c);
      SplitFirst(parts[0], Join(parts[1..], c), c);
    }
  }

  // ----- A pattern with one separator, in a joined text -----

  /** Position i is where the pattern meets the parts: the end of part i and the start of part i + 1. */
  predicate MeetsAt(parts: seq<string>, left: string, right: string, i: nat)
  {
    i + 1 < |parts| && IsSuffix(left, parts[i]) && right <= parts[i + 1]
  }

  lemma PrefixOfJoin(parts: seq<string>, c: char, p: string)
    requires parts != [] && c !in p
    ensures p <= Join(parts, c) <==> p <= parts[0]
  {
    var s := Join(parts, c);
    if |parts| > 1 {
      assert parts[0] <= s && s[|parts[0]|] == c;
      if p <= s {
        PrefixStops(p, s, |parts[0]|);
      }
    }
  }

  /** Where left-c-right can occur in t-c-rest: at the seam, or inside the rest. */
  lemma OccurrenceInSeam(t: string, rest: string, c: char, left: string, right: string, i: nat)
    requires c !in t && c !in left && OccursAt(t + [c] + rest, left + [c] + right, i)
    ensures (i + |left| == |t| && IsSuffix(left, t) && right <= rest)
         || (i > |t| && OccursAt(rest, left + [c] + right, i - |t| - 1))
  {
    var s, p := t + [c] + rest, left + [c] + right;
    var at := s[i..i + |p|];
    assert at[|left|] == s[i + |left|] == c;
    assert forall k :: 0 <= k < |left| ==> at[k] == s[i + k] == left[k];
    assert i + |left| >= |t| && s[|t|] == c;
    if i <= |t| < i + |left| {
      assert false;
    } else if i > |t| {
      assert rest == s[|t| + 1..];
      assert rest[i - |t| - 1..i - |t| - 1 + |p|] == at;
    } else {
      assert left == t[i..];
      assert right == at[|left| + 1..] == rest[..|right|];
    }
  }

  /** The pattern left-c-right occurs in the joined parts exactly when some part ends in left and the
      next one begins with right. */
  lemma {:induction false} PatternInJoin(parts: seq<string>, c: char, left: string, right: string)
    requires parts != [] && forall i :: 0 <= i < |parts| ==> c !in parts[i]
    requires c !in left && c !in right
    ensures Contains(Join(parts, c), left + [c] + right) <==> exists i: nat :: MeetsAt(parts, left, right, i)
  {
    var s, p := Join(parts, c), left + [c] + right;
    if |parts| == 1 {
      NotContained(s, p, |left|);
      assert !exists i: nat :: MeetsAt(parts, left, right, i);
    } else {
      var t, rest := parts[0], Join(parts[1..], c);
      PatternInJoin(parts[1..], c, left, right);
      PrefixOfJoin(parts[1..], c, right);
      if Contains(s, p) {
        var i: nat :| i <= |s| && OccursAt(s, p, i);
        OccurrenceInSeam(t, rest, c, left, right, i);
        if i + |left| == |t| && right <= rest {
          assert MeetsAt(parts, left, right, 0);
        } else {
          var k: nat :| MeetsAt(parts[1..], left, right, k);
          assert MeetsAt(parts, left, right, k + 1);
        }
      }
      if m: nat :| MeetsAt(parts, left, right, m) {
        if m == 0 {
          SeamOccurs(t, rest, c, left, right);
        } else {
          assert MeetsAt(parts[1..], left, right, m - 1);
          ContainsInRest(t + [c], rest, p);
        }
      }
    }
  }

  lemma SeamOccurs(t: string, rest: string, c: char, left: string, right: string)
    requires IsSuffix(left, t) && right <= rest
    ensures Contains(t + [c] + rest, left + [c] + right)
  {
    var s, p := t + [c] + rest, left + [c] + right;
    var i := |t| - |left|;
    assert t == t[..i] + left && rest == right + rest[|right|..];
    assert s == t[..i] + p + rest[|right|..];
    assert s[i..i + |p|] == p;
    assert OccursAt(s, p, i);
  }

  lemma ContainsInRest(a: string, rest: string, p: string)
    requires Contains(rest, p)
    ensures Contains(a + rest, p)
  {
    var i: nat :| i <= |rest| && OccursAt(rest, p, i);
    assert (a + rest)[|a| + i..|a| + i + |p|] == rest[i..i + |p|];
    assert OccursAt(a + rest, p, |a| + i);
  }

  // ----- strip -----

  function StripLeft(s: string, chars: set<char>): string
  {
    if s != [] && s[0] in chars then StripLeft(s[1..], chars) else s
  }

  function StripRight(s: string, chars: set<char>): string
  {
    if s != [] && s[|s| - 1] in chars then StripRight(s[..|s| - 1], chars) else s
  }

  /** `s.strip(chars)`: drops any of the characters from both ends. */
  function Strip(s: string, chars: set<char>): string
  {
    StripRight(StripLeft(s, chars), chars)
  }

  /** Stripping from the left only shortens what stands before a character that is kept. */
  lemma {:induction false} StripLeftStops(a: string, b: string, chars: set<char>)
    requires b != [] && b[0] !in chars
    ensures StripLeft(a + b, chars) == StripLeft(a, chars) + b
    ensures forall c :: c in StripLeft(a, chars) ==> c in a
  {
    if a == [] {
      assert a + b == b;
    } else if a[0] in chars {
      assert (a + b)[1..] == a[1..] + b;
      StripLeftStops(a[1..], b, chars);
    }
  }

  lemma {:induction false} StripRightStops(a: string, b: string, chars: set<char>)
    requires a != [] && a[|a| - 1] !in chars && forall c :: c in b ==> c in chars
    ensures StripRight(a + b, chars) == a
  {
    if b == [] {
      assert a + b == a;
    } else {
      assert (a + b)[..|a + b| - 1] == a + b[..|b| - 1];
      StripRightStops(a, b[..|b| - 1], chars);
    }
  }

  // ----- Decimals -----

  const DIGITS: string := "0123456789"

  predicate IsDigit(c: char)
  {
    '0' <= c <= '9'
  }

  /** `str(n)`. */
  function Decimal(n: nat): (s: string)
    ensures s != [] && forall i :: 0 <= i < |s| ==> IsDigit(s[i])
  {
    (if n < 10 then [] else Decimal(n / 10)) + [DIGITS[n % 10]]
  }

  function DigitValue(c: char): nat
    requires IsDigit(c)
  {
    c as int - '0' as int
  }

  function Value(s: string): nat
    requires forall i :: 0 <= i < |s| ==> IsDigit(s[i])
  {
    if s == [] then 0 else 10 * Value(s[..|s| - 1]) + DigitValue(s[|s| - 1])
  }

  predicate Digits(s: string)
  {
    s != [] && forall i :: 0 <= i < |s| ==> IsDigit(s[i])
  }

  /** The ASCII characters that int() ignores around a number. */
  const SPACES: set<char> :=
    {' ', '\t', '\n', '\r', '\U{0B}', '\U{0C}', '\U{1C}', '\U{1D}', '\U{1E}', '\U{1F}'}

  /** `int(s)`, with None for its ValueError, for an ASCII text without '-' or '_': it may have spaces
      around it and a plus sign. */
  function ParseInt(s: string): Option<nat>
  {
    var t := Strip(s, SPACES);
    var digits := if t != [] && t[0] == '+' then t[1..] else t;
    if Digits(digits) then Some(Value(digits)) else None
  }

  lemma {:induction false} ValueOfDecimal(n: nat)
    ensures Value(Decimal(n)) == n
  {
    var s := Decimal(n);
    var d := DIGITS[n % 10];
    assert DigitValue(d) == n % 10;
    if n < 10 {
      assert s == [d] && s[..|s| - 1] == [];
      assert Value(s[..|s| - 1]) == 0;
    } else {
      ValueOfDecimal(n / 10);
      assert s[..|s| - 1] == Decimal(n / 10);
    }
  }

  lemma ParseDecimal(n: nat)
    ensures ParseInt(Decimal(n)) == Some(n)
  {
    var s := Decimal(n);
    assert IsDigit(s[0]) && IsDigit(s[|s| - 1]);
    assert Strip(s, SPACES) == s;
    ValueOfDecimal(n);
  }

  lemma {:induction false} StripLeftSplits(s: string, chars: set<char>) returns (a: string)
    ensures s == a + StripLeft(s, chars) && forall c :: c in a ==> c in chars
    ensures StripLeft(s, chars) != [] ==> StripLeft(s, chars)[0] !in chars
  {
    a := [];
    if s != [] && s[0] in chars {
      a := StripLeftSplits(s[1..], chars);
      assert s == [s[0]] + s[1..];
      a := [s[0]] + a;
    }
  }

  lemma {:induction false} StripRightSplits(s: string, chars: set<char>) returns (b: string)
    ensures s == StripRight(s, chars) + b && forall c :: c in b ==> c in chars
  {
    b := [];
    if s != [] && s[|s| - 1] in chars {
      b := StripRightSplits(s[..|s| - 1], chars);
      assert s == s[..|s| - 1] + [s[|s| - 1]];
      b := b + [s[|s| - 1]];
    }
  }

  /** Nothing but spaces, tabs, line ends and the ASCII separators. */
  predicate Blank(s: string)
  {
    forall c :: c in s ==> c == ' ' || '\t' <= c <= '\r' || '\U{1C}' <= c <= '\U{1F}'
  }

  /** Stripping takes off what is around, as long as the core begins and ends with something else. */
  lemma StripCore(a: string, core: string, b: string)
    requires Blank(a) && Blank(b) && core != [] && core[0] !in SPACES && core[|core| - 1] !in SPACES
    ensures Strip(a + core + b, SPACES) == core
  {
    StripLeftStops(a, core + b, SPACES);
    StripLeftBlank(a, SPACES);
    assert a + core + b == a + (core + b);
    assert [] + (core + b) == core + b;
    StripRightStops(core, b, SPACES);
  }

  /** The digits of a stripped text. */
  lemma SignedDigits(sign: string, d: string)
    requires (sign == "" || sign == "+") && Digits(d)
    ensures var t := sign + d;
            && t != [] && t[0] !in SPACES && t[|t| - 1] !in SPACES
            && (if t[0] == '+' then t[1..] else t) == d
  {
    var t := sign + d;
    assert t[|t| - 1] == d[|d| - 1] && IsDigit(d[0]) && IsDigit(d[|d| - 1]);
    assert sign == "" ==> t == d;
  }

  /** int() takes digits with an optional plus sign before them and spaces around. */
  lemma ParseIntTakes(a: string, sign: string, d: string, b: string)
    requires Blank(a) && Blank(b) && (sign == "" || sign == "+") && Digits(d)
    ensures ParseInt(a + (sign + d) + b) == Some(Value(d))
  {
    SignedDigits(sign, d);
    StripCore(a, sign + d, b);
  }

  lemma {:induction false} StripLeftBlank(a: string, chars: set<char>)
    requires forall c :: c in a ==> c in chars
    ensures StripLeft(a, chars) == []
  {
    if a != [] {
      StripLeftBlank(a[1..], chars);
    }
  }

  lemma StripSplits(s: string) returns (a: string, b: string)
    ensures Blank(a) && Blank(b) && s == a + Strip(s, SPACES) + b
  {
    a := StripLeftSplits(s, SPACES);
    b := StripRightSplits(StripLeft(s, SPACES), SPACES);
  }

  /** And nothing else. */
  lemma ParseIntTakesOnly(s: string) returns (a: string, sign: string, d: string, b: string)
    requires ParseInt(s).Some?
    ensures s == a + (sign + d) + b && Blank(a) && Blank(b) && (sign == "" || sign == "+") && Digits(d)
  {
    a, b := StripSplits(s);
    var t := Strip(s, SPACES);
    if t[0] == '+' {
      sign, d := "+", t[1..];
    } else {
      sign, d := "", t;
    }
    assert sign + d == t;
  }

  lemma DecimalIsInjective(a: nat, b: nat)
    requires Decimal(a) == Decimal(b)
    ensures a == b
  {
    ParseDecimal(a);
    ParseDecimal(b);
  }

  /** A decimal is a prefix of another decimal with a tail that starts with a non-digit exactly when it
      is a prefix of the decimal alone. */
  lemma DecimalPrefix(d: string, n: nat, tail: string)
    requires forall i :: 0 <= i < |d| ==> IsDigit(d[i])
    requires tail != [] && !IsDigit(tail[0])
    ensures d <= Decimal(n) + tail <==> d <= Decimal(n)
  {
    var s := Decimal(n) + tail;
    if d <= s {
      assert s[|Decimal(n)|] == tail[0] && tail[0] !in d;
      PrefixStops(d, s, |Decimal(n)|);
    }
  }
}
