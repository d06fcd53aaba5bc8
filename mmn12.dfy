/**
 * Number and string exercises: trial-division primality, the selection rule of
 * `max_prime`, run-length compression, the digit square sum and happy numbers.
 * Every source function is a loop over mutable locals, so each is a method
 * proved against a specification function; the lemmas state what those
 * functions mean.
 */
module Mmn12 {
  import opened Wrappers
  import opened Builtins

  // ------------------------------------------------------------------
  // is_prime
  // ------------------------------------------------------------------

  /** No d in [2, n) divides n; vacuously true for every n < 2. */
  predicate NoDivisorBelow(n: int) {
    forall d :: 2 <= d < n ==> n % d != 0
  }

  /** The textbook notion: n >= 2 and its only positive divisors are 1 and n. */
  ghost predicate IsPrimeNumber(n: int) {
    n >= 2 && forall d :: 1 <= d <= n && n % d == 0 ==> d == 1 || d == n
  }

  /** Trial division over range(2, n), returning at the first divisor. */
  method IsPrime(n: int) returns (r: bool)
    ensures r <==> NoDivisorBelow(n)
  {
    var i := 2;
    while i < n
      invariant 2 <= i
      invariant forall d :: 2 <= d < i ==> n % d != 0
    {
      if n % i == 0 {
        return false;
      }
      i := i + 1;
    }
    return true;
  }

  /** For n >= 2 the trial-division condition is exactly primality; below 2 it holds anyway. */
  lemma NoDivisorBelowIsPrimality(n: int)
    ensures n >= 2 ==> (NoDivisorBelow(n) <==> IsPrimeNumber(n))
    ensures n < 2 ==> NoDivisorBelow(n)
  {
    if n >= 2 && IsPrimeNumber(n) {
      forall d | 2 <= d < n ensures n % d != 0 {
        assert d != 1 && d != n;
      }
    }
  }

  /** The tester's expectations: 7 is prime, 10 is not. */
  lemma IsPrimeExamples()
    ensures NoDivisorBelow(7)
    ensures !NoDivisorBelow(10)
  {
    assert 10 % 2 == 0;
  }

  // ------------------------------------------------------------------
  // max_prime (selection rule over a given input sequence)
  // ------------------------------------------------------------------

  /** The values among xs that pass `is_prime`, in input order. */
  function PrimesIn(xs: seq<int>): (r: seq<int>)
    ensures forall x :: x in r <==> x in xs && NoDivisorBelow(x)
  {
    if xs == [] then []
    else PrimesIn(xs[..|xs| - 1]) + (if NoDivisorBelow(xs[|xs| - 1]) then [xs[|xs| - 1]] else [])
  }

  /** `max(primes) if primes else 1` over the values read. */
  function LargestPrimeOrOne(xs: seq<int>): int {
    var primes := PrimesIn(xs);
    if primes == [] then 1 else MaxOf(primes)
  }

  /** s is where `max_prime` stops reading: the first value below 1. */
  predicate IsStop(inputs: seq<int>, s: int) {
    0 <= s < |inputs| && inputs[s] < 1 && forall t :: 0 <= t < s ==> inputs[t] >= 1
  }

  /**
   * The `max_prime` loop with `input()` replaced by a sequence of the values typed.
   * If the sequence ends before a value below 1 the source would fail with EOFError;
   * the model answers None there.
   */
  method MaxPrime(inputs: seq<int>) returns (r: Option<int>)
    ensures r.None? <==> forall t :: 0 <= t < |inputs| ==> inputs[t] >= 1
    ensures r.Some? ==> exists s :: IsStop(inputs, s) && r.value == LargestPrimeOrOne(inputs[..s])
  {
    var primes: seq<int> := [];
    var i := 0;
    while true
      invariant 0 <= i <= |inputs|
      invariant forall t :: 0 <= t < i ==> inputs[t] >= 1
      invariant primes == PrimesIn(inputs[..i])
      decreases |inputs| - i
    {
      if i == |inputs| {
        return None;
      }
      var n := inputs[i];
      if n < 1 {
        break;
      }
      var p := IsPrime(n);
      assert inputs[..i + 1][..i] == inputs[..i];
      if p {
        primes := primes + [n];
      }
      i := i + 1;
    }
    assert IsStop(inputs, i);
    r := Some(if primes == [] then 1 else MaxOf(primes));
  }

  /** The selected value is 1 or a prime of xs, and no prime of xs exceeds it. */
  lemma LargestPrimeOrOneIsMaximal(xs: seq<int>)
    ensures var m := LargestPrimeOrOne(xs);
      (m == 1 || (m in xs && NoDivisorBelow(m))) &&
      (forall x :: x in xs && NoDivisorBelow(x) ==> x <= m)
    ensures (forall x :: x in xs ==> !NoDivisorBelow(x)) ==> LargestPrimeOrOne(xs) == 1
  {
    var primes := PrimesIn(xs);
    if primes != [] {
      assert MaxOf(primes) in primes;
    }
  }

  // ------------------------------------------------------------------
  // compression
  // ------------------------------------------------------------------

  /** A run: character ch repeated len times. */
  datatype Run = Run(ch: char, len: nat)

  function Repeat(c: char, n: nat): (s: string)
    ensures |s| == n
    ensures forall i :: 0 <= i < n ==> s[i] == c
  {
    if n == 0 then [] else Repeat(c, n - 1) + [c]
  }

  /** The string a list of runs spells out. */
  function Expand(rs: seq<Run>): string {
    if rs == [] then [] else Expand(rs[..|rs| - 1]) + Repeat(rs[|rs| - 1].ch, rs[|rs| - 1].len)
  }

  /** Every run is non-empty and differs in its character from the run before it. */
  predicate Maximal(rs: seq<Run>) {
    rs == [] ||
    var init, last := rs[..|rs| - 1], rs[|rs| - 1];
    Maximal(init) && last.len >= 1 && (init != [] ==> init[|init| - 1].ch != last.ch)
  }

  /** One more character: it lengthens the last run or starts a new one. */
  function Push(rs: seq<Run>, c: char): (r: seq<Run>)
    ensures r != [] && r[|r| - 1].ch == c
  {
    if rs != [] && rs[|rs| - 1].ch == c then rs[..|rs| - 1] + [Run(c, rs[|rs| - 1].len + 1)]
    else rs + [Run(c, 1)]
  }

  /** The maximal runs of s, grown one character at a time from the left. */
  function Runs(s: string): seq<Run> {
    if s == [] then [] else Push(Runs(s[..|s| - 1]), s[|s| - 1])
  }

  /** What `compression` writes for one run: the character, then the length when above 1. */
  function RunText(c: char, len: nat): (t: string)
    ensures |t| >= 1 && t[0] == c && (len > 1 <==> |t| > 1)
  {
    [c] + (if len > 1 then NatToString(len) else "")
  }

  /** What `compression` writes for a list of runs, one run after another. */
  function Encode(rs: seq<Run>): string {
    if rs == [] then [] else Encode(rs[..|rs| - 1]) + RunText(rs[|rs| - 1].ch, rs[|rs| - 1].len)
  }

  lemma RunsSnoc(x: string, c: char)
    ensures Runs(x + [c]) == Push(Runs(x), c)
  {
    assert (x + [c])[..|x|] == x;
  }

  lemma RunsLast(s: string)
    ensures s == [] ==> Runs(s) == []
    ensures s != [] ==> Runs(s) != [] && Runs(s)[|Runs(s)| - 1].ch == s[|s| - 1]
  {
  }

  lemma ExpandSnoc(rs: seq<Run>, r: Run)
    ensures Expand(rs + [r]) == Expand(rs) + Repeat(r.ch, r.len)
  {
    assert (rs + [r])[..|rs|] == rs;
  }

  lemma EncodeSnoc(rs: seq<Run>, r: Run)
    ensures Encode(rs + [r]) == Encode(rs) + RunText(r.ch, r.len)
  {
    assert (rs + [r])[..|rs|] == rs;
  }

  lemma RepeatSnoc(c: char, n: nat)
    ensures Repeat(c, n + 1) == Repeat(c, n) + [c]
  {
  }

  lemma MaximalSnoc(rs: seq<Run>, r: Run)
    ensures Maximal(rs + [r]) <==>
      Maximal(rs) && r.len >= 1 && (rs != [] ==> rs[|rs| - 1].ch != r.ch)
  {
    assert (rs + [r])[..|rs|] == rs;
  }

  /** Splits the last character off the string a non-empty last run spells out. */
  lemma ExpandLastRun(init: seq<Run>, c: char, len: nat)
    requires len >= 1
    ensures Expand(init + [Run(c, len)]) == (Expand(init) + Repeat(c, len - 1)) + [c]
  {
    var head, rest := Expand(init), Repeat(c, len - 1);
    ExpandSnoc(init, Run(c, len));
    RepeatSnoc(c, len - 1);
    AppendAssoc(head, rest, [c]);
  }

  /** Runs(s) spells out s. */
  lemma {:induction false} RunsExpand(s: string)
    ensures Expand(Runs(s)) == s
  {
    if s != [] {
      var x, c := s[..|s| - 1], s[|s| - 1];
      assert s == x + [c];
      RunsExpand(x);
      RunsSnoc(x, c);
      var rs := Runs(x);
      if rs != [] && rs[|rs| - 1].ch == c {
        var m := |rs| - 1;
        var init, len := rs[..m], rs[m].len;
        assert rs == init + [Run(c, len)];
        assert Expand(init + [Run(c, len + 1)]) == Expand(rs) + [c] by {
          ExpandLastRun(init, c, len + 1);
          ExpandSnoc(init, Run(c, len));
        }
      } else {
        ExpandSnoc(rs, Run(c, 1));
        assert Repeat(c, 1) == [c];
      }
    }
  }

  /** The runs of Runs(s) are maximal: non-empty, and neighbours differ. */
  lemma {:induction false} RunsMaximal(s: string)
    ensures Maximal(Runs(s))
  {
    if s != [] {
      var x, c := s[..|s| - 1], s[|s| - 1];
      assert s == x + [c];
      RunsMaximal(x);
      RunsSnoc(x, c);
      var rs := Runs(x);
      if rs != [] && rs[|rs| - 1].ch == c {
        var m := |rs| - 1;
        var init := rs[..m];
        assert rs == init + [rs[m]];
        MaximalSnoc(init, rs[m]);
        MaximalSnoc(init, Run(c, rs[m].len + 1));
      } else {
        MaximalSnoc(rs, Run(c, 1));
      }
    }
  }

  /** Pushing c onto the runs of a string whose last run of c is one shorter (or absent). */
  lemma PushExtends(init: seq<Run>, c: char, len: nat)
    requires len >= 1
    requires init != [] ==> init[|init| - 1].ch != c
    ensures Push(if len == 1 then init else init + [Run(c, len - 1)], c) == init + [Run(c, len)]
  {
    if len > 1 {
      var shorter := init + [Run(c, len - 1)];
      assert shorter[..|shorter| - 1] == init;
    }
  }

  /** The maximal run decomposition of a string is unique, so Runs(s) is THE decomposition. */
  lemma {:induction false} RunsUnique(s: string, rs: seq<Run>)
    requires Maximal(rs) && Expand(rs) == s
    ensures rs == Runs(s)
    decreases |s|
  {
    if rs != [] {
      var m := |rs| - 1;
      var init, c, len := rs[..m], rs[m].ch, rs[m].len;
      assert rs == init + [Run(c, len)];
      var x := Expand(init) + Repeat(c, len - 1);
      assert s == x + [c] by {
        ExpandLastRun(init, c, len);
      }
      assert Maximal(init) && len >= 1 && (init != [] ==> init[|init| - 1].ch != c) by {
        MaximalSnoc(init, Run(c, len));
      }
      var prev := if len == 1 then init else init + [Run(c, len - 1)];
      assert Runs(x) == prev by {
        if len == 1 {
          assert x == Expand(init);
          RunsUnique(x, init);
        } else {
          MaximalSnoc(init, Run(c, len - 1));
          ExpandSnoc(init, Run(c, len - 1));
          RunsUnique(x, prev);
        }
      }
      RunsSnoc(x, c);
      PushExtends(init, c, len);
    }
  }

  /** Appending a whole run of a character different from the last one adds exactly that run. */
  lemma {:induction false} RunsAppendRun(x: string, c: char, k: nat)
    requires k >= 1
    requires x != [] ==> x[|x| - 1] != c
    ensures Runs(x + Repeat(c, k)) == Runs(x) + [Run(c, k)]
  {
    RepeatSnoc(c, k - 1);
    var y := x + Repeat(c, k - 1);
    assert x + Repeat(c, k) == y + [c];
    RunsSnoc(y, c);
    if k == 1 {
      assert y == x;
      RunsLast(x);
    } else {
      RunsAppendRun(x, c, k - 1);
      var rs := Runs(x) + [Run(c, k - 1)];
      assert Runs(y) == rs;
      assert rs[..|rs| - 1] == Runs(x);
      assert Push(rs, c) == Runs(x) + [Run(c, k)];
    }
  }

  /** rs is a maximal list of runs that spells out e and encodes as t. */
  predicate Spells(rs: seq<Run>, e: string, t: string) {
    Maximal(rs) && Expand(rs) == e && Encode(rs) == t
  }

  /** Extending a maximal list of runs by a run of a new character. */
  lemma AppendRun(rs: seq<Run>, r: Run, e: string, t: string)
    requires Spells(rs, e, t)
    requires r.len >= 1 && (rs != [] ==> rs[|rs| - 1].ch != r.ch)
    ensures Spells(rs + [r], e + Repeat(r.ch, r.len),
      t + RunText(r.ch, r.len))
  {
    MaximalSnoc(rs, r);
    ExpandSnoc(rs, r);
    EncodeSnoc(rs, r);
  }

  /** The first runs of the tester's string: a2 and b. */
  lemma AppendAssoc<T>(a: seq<T>, b: seq<T>, c: seq<T>)
    ensures (a + b) + c == a + (b + c)
  {
  }

  /** The encoding of a single run. */
  lemma EncodeOne(r: Run)
    ensures Encode([r]) == RunText(r.ch, r.len)
  {
    assert [r][..0] == [];
  }

  /** Encode writes out a list of runs one run after another. */
  lemma {:induction false} EncodeConcat(a: seq<Run>, b: seq<Run>)
    ensures Encode(a + b) == Encode(a) + Encode(b)
    decreases |b|
  {
    if b == [] {
      assert a + b == a;
    } else {
      var init, r := b[..|b| - 1], b[|b| - 1];
      assert b == init + [r];
      AppendAssoc(a, init, [r]);
      EncodeConcat(a, init);
      EncodeSnoc(a + init, r);
      EncodeSnoc(init, r);
      AppendAssoc(Encode(a), Encode(init), RunText(r.ch, r.len));
    }
  }

  /** Pushing onto a non-empty tail of runs leaves the runs in front of it alone. */
  lemma PushAppend(a: seq<Run>, b: seq<Run>, c: char)
    requires b != []
    ensures Push(a + b, c) == a + Push(b, c)
  {
    assert (a + b)[..|a + b| - 1] == a + b[..|b| - 1];
  }

  /** One more character after x, whose last character differs from it. */
  lemma RunsConcatFirst(x: string, c: char)
    requires x != [] ==> x[|x| - 1] != c
    ensures Runs(x + [c]) == Runs(x) + Runs([c])
  {
    RunsSnoc(x, c);
    RunsLast(x);
    assert [] + [c] == [c];
    RunsSnoc([], c);
  }

  /** One more character at the end of a non-empty y, given the runs of x + y split at the seam. */
  lemma RunsConcatStep(x: string, y: string, c: char)
    requires y != []
    requires Runs(x + y) == Runs(x) + Runs(y)
    ensures Runs(x + (y + [c])) == Runs(x) + Runs(y + [c])
  {
    AppendAssoc(x, y, [c]);
    RunsSnoc(x + y, c);
    RunsSnoc(y, c);
    RunsLast(y);
    PushAppend(Runs(x), Runs(y), c);
  }

  /** Two strings that meet at a change of character have the runs of each, one after the other. */
  lemma {:induction false} RunsConcat(x: string, y: string)
    requires x != [] && y != [] ==> x[|x| - 1] != y[0]
    ensures Runs(x + y) == Runs(x) + Runs(y)
    decreases |y|
  {
    if y == [] {
      assert x + y == x;
    } else {
      var init := y[..|y| - 1];
      assert y == init + [y[|y| - 1]];
      if init == [] {
        RunsConcatFirst(x, y[0]);
      } else {
        RunsConcat(x, init);
        RunsConcatStep(x, init, y[|y| - 1]);
      }
    }
  }

  /** A non-empty stretch of one character is a single run. */
  lemma {:induction false} RunsOfRepeat(c: char, k: nat)
    requires k >= 1
    ensures Runs(Repeat(c, k)) == [Run(c, k)]
  {
    RepeatSnoc(c, k - 1);
    RunsSnoc(Repeat(c, k - 1), c);
    if k == 1 {
      assert Repeat(c, 0) == [];
    } else {
      RunsOfRepeat(c, k - 1);
      assert [Run(c, k - 1)][..0] == [];
    }
  }

  /** A run of s[i] from p to i, followed by a different character or the end, comes first in the runs of s[p..]. */
  lemma CloseRun(s: string, p: nat, i: nat)
    requires p <= i < |s|
    requires s[p..i + 1] == Repeat(s[i], i - p + 1)
    requires i + 1 < |s| ==> s[i] != s[i + 1]
    ensures Runs(s[p..]) == [Run(s[i], i - p + 1)] + Runs(s[i + 1..])
  {
    var c, k := s[i], i - p + 1;
    assert s[p..] == Repeat(c, k) + s[i + 1..] by {
      assert s[p..] == s[p..i + 1] + s[i + 1..];
    }
    RunsOfRepeat(c, k);
    RunsConcat(Repeat(c, k), s[i + 1..]);
  }

  /** The run in progress grows by one when the next character is the same. */
  lemma ExtendRun(s: string, p: nat, i: nat)
    requires p <= i && i + 1 < |s| && s[i] == s[i + 1]
    requires s[p..i + 1] == Repeat(s[i], i - p + 1)
    ensures s[p..i + 2] == Repeat(s[i + 1], i + 1 - p + 1)
  {
    RepeatSnoc(s[i], i - p + 1);
    assert s[p..i + 2] == s[p..i + 1] + [s[i + 1]];
  }

  /** A new run starts with one character. */
  lemma StartRun(s: string, i: nat)
    requires i < |s|
    ensures s[i..i + 1] == Repeat(s[i], 1)
  {
    RepeatSnoc(s[i], 0);
  }

  /** Writing out the run s[start..i+1] leaves the encoding of the runs after it still to write. */
  lemma CloseStep(s: string, i: nat, count: nat, start: nat, acc: string)
    requires i < |s| && 1 <= count && start + count == i + 1
    requires s[start..i + 1] == Repeat(s[i], count)
    requires i + 1 < |s| ==> s[i] != s[i + 1]
    ensures acc + RunText(s[i], count) + Encode(Runs(s[i + 1..])) == acc + Encode(Runs(s[start..]))
  {
    var r := Run(s[i], count);
    var rest := Runs(s[i + 1..]);
    CloseRun(s, start, i);
    EncodeConcat([r], rest);
    EncodeOne(r);
    AppendAssoc(acc, RunText(s[i], count), Encode(rest));
  }

  /**
   * The rest of the scan from index i, with count copies of s[i] seen so far and
   * acc written out: a run is written out when the next character differs or the
   * string ends.
   */
  function ScanFrom(s: string, i: nat, count: nat, acc: string): string
    decreases |s| - i
  {
    if i >= |s| then acc
    else if i + 1 < |s| && s[i] == s[i + 1] then ScanFrom(s, i + 1, count + 1, acc)
    else ScanFrom(s, i + 1, 1, acc + RunText(s[i], count))
  }

  /**
   * The scan at i, inside the run that began at start with count characters
   * so far, appends the encoding of the runs of s[start..].
   */
  lemma {:induction false} ScanFromEncodes(s: string, i: nat, count: nat, start: nat, acc: string)
    requires i <= |s| && 1 <= count && start + count == i + 1
    requires i == |s| ==> count == 1
    requires i < |s| ==> s[start..i + 1] == Repeat(s[i], count)
    ensures ScanFrom(s, i, count, acc) == acc + Encode(Runs(s[start..]))
    decreases |s| - i, 1
  {
    if i == |s| {
      EndCase(s, start, acc);
    } else if i + 1 < |s| && s[i] == s[i + 1] {
      ExtendCase(s, i, count, start, acc);
    } else {
      CloseCase(s, i, count, start, acc);
    }
  }

  /** The scan at the end of s has written everything. */
  lemma EndCase(s: string, start: nat, acc: string)
    requires start == |s|
    ensures ScanFrom(s, |s|, 1, acc) == acc + Encode(Runs(s[start..]))
  {
    assert s[start..] == [];
    assert acc + [] == acc;
  }

  /** The scan when the run of s[i] goes on at i + 1: nothing is written yet. */
  lemma {:induction false} ExtendCase(s: string, i: nat, count: nat, start: nat, acc: string)
    requires 1 <= count && start + count == i + 1
    requires i + 1 < |s| && s[i] == s[i + 1]
    requires s[start..i + 1] == Repeat(s[i], count)
    ensures ScanFrom(s, i, count, acc) == acc + Encode(Runs(s[start..]))
    decreases |s| - i, 0
  {
    ExtendRun(s, start, i);
    ScanFromEncodes(s, i + 1, count + 1, start, acc);
  }

  /** The scan when the run of s[i] ends at i: the run is written out and a new one begins. */
  lemma {:induction false} CloseCase(s: string, i: nat, count: nat, start: nat, acc: string)
    requires i < |s| && 1 <= count && start + count == i + 1
    requires s[start..i + 1] == Repeat(s[i], count)
    requires i + 1 < |s| ==> s[i] != s[i + 1]
    ensures ScanFrom(s, i, count, acc) == acc + Encode(Runs(s[start..]))
    decreases |s| - i, 0
  {
    if i + 1 < |s| {
      StartRun(s, i + 1);
    }
    ScanFromEncodes(s, i + 1, 1, i + 1, acc + RunText(s[i], count));
    CloseStep(s, i, count, start, acc);
  }

  /** One pass over s: a run is written out when the next character differs or the string ends. */
  method Compression(s: string) returns (result: string)
    ensures result == Encode(Runs(s))
  {
    result := "";
    var count := 1;
    if 0 < |s| {
      StartRun(s, 0);
    }
    ScanFromEncodes(s, 0, 1, 0, "");
    assert s[0..] == s;
    for i := 0 to |s|
      invariant ScanFrom(s, i, count, result) == Encode(Runs(s))
    {
      if i + 1 < |s| && s[i] == s[i + 1] {
        count := count + 1;
      } else {
        ghost var before := result;
        result := result + [s[i]];
        if count > 1 {
          result := result + NatToString(count);
        }
        AppendAssoc(before, [s[i]], if count > 1 then NatToString(count) else "");
        assert result == before + RunText(s[i], count);
        count := 1;
      }
    }
  }

  /** A string without adjacent repeats is returned unchanged. */
  lemma {:induction false} CompressionOfRepeatFree(s: string)
    requires forall i :: 0 < i < |s| ==> s[i - 1] != s[i]
    ensures Encode(Runs(s)) == s
  {
    if s != [] {
      var x, c := s[..|s| - 1], s[|s| - 1];
      assert s == x + [c];
      CompressionOfRepeatFree(x);
      SingleNewCharacter(x, c);
    }
  }

  /** A character different from the last one adds itself to the encoding. */
  lemma SingleNewCharacter(x: string, c: char)
    requires x != [] ==> x[|x| - 1] != c
    ensures Encode(Runs(x + [c])) == Encode(Runs(x)) + [c]
  {
    assert Runs(x + [c]) == Runs(x) + [Run(c, 1)] by {
      RunsSnoc(x, c);
      RunsLast(x);
    }
    EncodeSnoc(Runs(x), Run(c, 1));
    assert RunText(c, 1) == [c];
  }

  lemma CompressionExampleStart()
    ensures Spells([Run('a', 2), Run('b', 1)], "aab", "a2b")
  {
    var a2 := [Run('a', 2)];
    assert Spells(a2, "aa", "a2") by {
      AppendRun([], Run('a', 2), "", "");
    }
    var b1 := a2 + [Run('b', 1)];
    assert Spells(b1, "aab", "a2b") by {
      AppendRun(a2, Run('b', 1), "aa", "a2");
    }
    assert b1 == [Run('a', 2), Run('b', 1)];
  }

  /** The runs of the tester's string up to its e5 run. */
  lemma CompressionExamplePrefix()
    ensures Spells([Run('a', 2), Run('b', 1), Run('c', 3), Run('e', 5)], "aabccceeeee", "a2bc3e5")
  {
    var b1 := [Run('a', 2), Run('b', 1)];
    CompressionExampleStart();
    var c3 := b1 + [Run('c', 3)];
    assert Spells(c3, "aabccc", "a2bc3") by {
      AppendRun(b1, Run('c', 3), "aab", "a2b");
    }
    var e5 := c3 + [Run('e', 5)];
    assert Spells(e5, "aabccceeeee", "a2bc3e5") by {
      AppendRun(c3, Run('e', 5), "aabccc", "a2bc3");
    }
    assert e5 == [Run('a', 2), Run('b', 1), Run('c', 3), Run('e', 5)];
  }

  /** The tester's first expectation: "aabccceeeeedab" gives "a2bc3e5dab". */
  lemma CompressionExamples()
    ensures Encode(Runs("aabccceeeeedab")) == "a2bc3e5dab"
  {
    var e5 := [Run('a', 2), Run('b', 1), Run('c', 3), Run('e', 5)];
    var d1 := e5 + [Run('d', 1)];
    var a1 := d1 + [Run('a', 1)];
    var rs := a1 + [Run('b', 1)];
    CompressionExamplePrefix();
    assert Spells(d1, "aabccceeeeed", "a2bc3e5d") by {
      AppendRun(e5, Run('d', 1), "aabccceeeee", "a2bc3e5");
    }
    assert Spells(a1, "aabccceeeeeda", "a2bc3e5da") by {
      AppendRun(d1, Run('a', 1), "aabccceeeeed", "a2bc3e5d");
    }
    assert Spells(rs, "aabccceeeeedab", "a2bc3e5dab") by {
      AppendRun(a1, Run('b', 1), "aabccceeeeeda", "a2bc3e5da");
    }
    RunsUnique("aabccceeeeedab", rs);
  }

  /** The tester's other two inputs have no adjacent repeats and come back unchanged. */
  lemma CompressionRepeatFreeExamples()
    ensures Encode(Runs("abcde")) == "abcde"
    ensures Encode(Runs("x3y3z3")) == "x3y3z3"
  {
    CompressionOfRepeatFree("abcde");
    CompressionOfRepeatFree("x3y3z3");
  }

  // ------------------------------------------------------------------
  // sum_square
  // ------------------------------------------------------------------

  /** Sum of the squares of the decimal digits of n; 0 for n <= 0, where the source loop never runs. */
  function DigitSquareSum(n: int): nat
    decreases if n > 0 then n else 0
  {
    if n <= 0 then 0 else (n % 10) * (n % 10) + DigitSquareSum(n / 10)
  }

  /** Sum of the squares of the digit characters of a string. */
  function SquaresOfDigits(s: string): int {
    if s == [] then 0
    else SquaresOfDigits(s[..|s| - 1]) + DigitValue(s[|s| - 1]) * DigitValue(s[|s| - 1])
  }

  /** In terms of `str(n)`: the digit square sum adds up the squares of n's printed digits. */
  lemma {:induction false} DigitSquareSumOfString(n: nat)
    ensures DigitSquareSum(n) == SquaresOfDigits(NatToString(n))
  {
    var s := NatToString(n);
    if n < 10 {
      assert s[..0] == [];
      assert DigitValue(s[0]) == n;
      if n > 0 {
        assert DigitSquareSum(n) == n * n + DigitSquareSum(0);
      }
    } else {
      DigitSquareSumOfString(n / 10);
      assert s[..|s| - 1] == NatToString(n / 10);
      assert DigitValue(s[|s| - 1]) == n % 10;
    }
  }

  /** Peels off the last digit until nothing is left. */
  method SumSquare(num: int) returns (result: int)
    ensures result == DigitSquareSum(num)
  {
    result := 0;
    var n := num;
    while n > 0
      invariant result + DigitSquareSum(n) == DigitSquareSum(num)
      decreases if n > 0 then n else 0
    {
      var digit := n % 10;
      result := result + digit * digit;
      n := n / 10;
    }
  }

  /** The tester's expectations: 123 gives 14 and 98 gives 145. */
  lemma SumSquareExamples()
    ensures DigitSquareSum(123) == 14
    ensures DigitSquareSum(98) == 145
    ensures DigitSquareSum(0) == 0
  {
  }

  // ------------------------------------------------------------------
  // is_happy and count_happy_numbers
  // ------------------------------------------------------------------

  /** The digit square sum applied k times to n. */
  function Iterate(n: int, k: nat): int {
    if k == 0 then n else DigitSquareSum(Iterate(n, k - 1))
  }

  /** What `is_happy` decides: 1 is reached within the first ten values n, f(n), ..., f^9(n). */
  predicate HappyWithin(n: int) {
    exists j :: 0 <= j < 10 && Iterate(n, j) == 1
  }

  /** Iterates at most ten times; reaching 1 only on the tenth step still answers false. */
  method IsHappy(num: int) returns (r: bool)
    ensures r <==> HappyWithin(num)
  {
    var count := 0;
    var n := num;
    while n != 1
      invariant 0 <= count < 10
      invariant n == Iterate(num, count)
      invariant forall j :: 0 <= j < count ==> Iterate(num, j) != 1
      decreases 10 - count
    {
      n := SumSquare(n);
      count := count + 1;
      if count == 10 {
        return false;
      }
    }
    return true;
  }

  /** One more application of the digit square sum. */
  lemma IterateNext(n: int, k: nat, v: int)
    requires Iterate(n, k) == v
    ensures Iterate(n, k + 1) == DigitSquareSum(v)
  {
  }

  /** The tester's expectations: 19 is happy (19, 82, 68, 100, 1), 2 is not. */
  lemma IsHappyExamples()
    ensures HappyWithin(19)
    ensures !HappyWithin(2)
  {
    IterateNext(19, 0, 19);
    IterateNext(19, 1, 82);
    IterateNext(19, 2, 68);
    IterateNext(19, 3, 100);
    assert Iterate(19, 4) == 1;
    IterateNext(2, 0, 2);
    IterateNext(2, 1, 4);
    IterateNext(2, 2, 16);
    IterateNext(2, 3, 37);
    IterateNext(2, 4, 58);
    IterateNext(2, 5, 89);
    IterateNext(2, 6, 145);
    IterateNext(2, 7, 42);
    IterateNext(2, 8, 20);
    assert Iterate(2, 9) == 4;
  }

  /** The number of happy i in [1, n]. */
  function HappyCount(n: int): nat
    decreases if n > 0 then n else 0
  {
    if n <= 0 then 0 else HappyCount(n - 1) + (if HappyWithin(n) then 1 else 0)
  }

  /** n never reaches 1, however often the digit square sum is applied. */
  ghost predicate NeverOne(n: int) {
    forall k: nat :: Iterate(n, k) != 1
  }

  /** Iterating j + k times is iterating k times from the j-th value. */
  lemma {:induction false} IterateAdd(n: int, j: nat, k: nat)
    ensures Iterate(n, j + k) == Iterate(Iterate(n, j), k)
  {
    if k > 0 {
      IterateAdd(n, j, k - 1);
    }
  }

  /** The cycle 4, 16, 37, 58, 89, 145, 42, 20 that every unhappy number falls into. */
  predicate InCycle(v: int) {
    v == 4 || v == 16 || v == 37 || v == 58 || v == 89 || v == 145 || v == 42 || v == 20
  }

  lemma CycleClosed(v: int)
    requires InCycle(v)
    ensures InCycle(DigitSquareSum(v))
  {
    if v == 4 {
      assert DigitSquareSum(4) == 16;
    } else if v == 16 {
      assert DigitSquareSum(16) == 37;
    } else if v == 37 {
      assert DigitSquareSum(37) == 58;
    } else if v == 58 {
      assert DigitSquareSum(58) == 89;
    } else if v == 89 {
      assert DigitSquareSum(89) == 145;
    } else if v == 145 {
      assert DigitSquareSum(145) == 42;
    } else if v == 42 {
      assert DigitSquareSum(42) == 20;
    } else {
      assert DigitSquareSum(20) == 4;
    }
  }

  /** Once in the cycle, the iteration never leaves it. */
  lemma {:induction false} StaysInCycle(v: int, k: nat)
    requires InCycle(v)
    ensures InCycle(Iterate(v, k))
  {
    if k > 0 {
      StaysInCycle(v, k - 1);
      CycleClosed(Iterate(v, k - 1));
    }
  }

  /** The members of the cycle are unhappy. */
  lemma CycleUnhappy()
    ensures NeverOne(4) && NeverOne(16) && NeverOne(37) && NeverOne(58)
    ensures NeverOne(89) && NeverOne(145) && NeverOne(42) && NeverOne(20)
  {
    forall v, k: nat | InCycle(v)
      ensures Iterate(v, k) != 1
    {
      StaysInCycle(v, k);
    }
  }

  /** A value other than 1 whose digit square sum never reaches 1 never reaches 1 either. */
  lemma UnhappyBack(v: int, w: int)
    requires v != 1 && DigitSquareSum(v) == w && NeverOne(w)
    ensures NeverOne(v)
  {
    forall k: nat
      ensures Iterate(v, k) != 1
    {
      if k > 0 {
        IterateAdd(v, 1, k - 1);
      }
    }
  }

  /** A value whose digit square sum reaches 1 after j steps reaches it after j + 1. */
  lemma HappyBack(v: int, w: int, j: nat)
    requires DigitSquareSum(v) == w && Iterate(w, j) == 1
    ensures Iterate(v, j + 1) == 1
  {
    IterateAdd(v, 1, j);
  }

  /** Values that fall into the unhappy cycle, batch 1. */
  lemma UnhappyValues1()
    ensures NeverOne(2) && NeverOne(24) && NeverOne(40) && NeverOne(61) && NeverOne(73) && NeverOne(85) && NeverOne(98) && NeverOne(106) && NeverOne(11) && NeverOne(26) && NeverOne(29) && NeverOne(38) && NeverOne(56)
  {
    CycleUnhappy();
    UnhappyBack(2, 4);
    UnhappyBack(24, 20);
    UnhappyBack(40, 16);
    UnhappyBack(61, 37);
    UnhappyBack(73, 58);
    UnhappyBack(85, 89);
    UnhappyBack(98, 145);
    UnhappyBack(106, 37);
    UnhappyBack(11, 2);
    UnhappyBack(26, 40);
    UnhappyBack(29, 85);
    UnhappyBack(38, 73);
    UnhappyBack(56, 61);
  }

  /** Values that fall into the unhappy cycle, batch 2. */
  lemma UnhappyValues2()
    ensures NeverOne(59) && NeverOne(62) && NeverOne(65) && NeverOne(67) && NeverOne(76) && NeverOne(77) && NeverOne(83) && NeverOne(92) && NeverOne(95) && NeverOne(15) && NeverOne(18) && NeverOne(25) && NeverOne(47)
  {
    UnhappyValues1();
    UnhappyBack(59, 106);
    UnhappyBack(62, 40);
    UnhappyBack(65, 61);
    UnhappyBack(67, 85);
    UnhappyBack(76, 85);
    UnhappyBack(77, 98);
    UnhappyBack(83, 73);
    UnhappyBack(92, 85);
    UnhappyBack(95, 106);
    UnhappyBack(15, 26);
    UnhappyBack(18, 65);
    UnhappyBack(25, 29);
    UnhappyBack(47, 65);
  }

  /** Values that fall into the unhappy cycle, batch 3. */
  lemma UnhappyValues3()
    ensures NeverOne(51) && NeverOne(52) && NeverOne(74) && NeverOne(81) && NeverOne(113) && NeverOne(5) && NeverOne(9) && NeverOne(33) && NeverOne(34) && NeverOne(43) && NeverOne(46) && NeverOne(50) && NeverOne(57)
  {
    UnhappyValues2();
    UnhappyValues1();
    UnhappyBack(51, 26);
    UnhappyBack(52, 29);
    UnhappyBack(74, 65);
    UnhappyBack(81, 65);
    UnhappyBack(113, 11);
    UnhappyBack(5, 25);
    UnhappyBack(9, 81);
    UnhappyBack(33, 18);
    UnhappyBack(34, 25);
    UnhappyBack(43, 25);
    UnhappyBack(46, 52);
    UnhappyBack(50, 25);
    UnhappyBack(57, 74);
  }

  /** Values that fall into the unhappy cycle, batch 4. */
  lemma UnhappyValues4()
    ensures NeverOne(64) && NeverOne(75) && NeverOne(78) && NeverOne(87) && NeverOne(90) && NeverOne(117) && NeverOne(3) && NeverOne(8) && NeverOne(12) && NeverOne(17) && NeverOne(21) && NeverOne(30) && NeverOne(35)
  {
    UnhappyValues3();
    UnhappyValues2();
    UnhappyValues1();
    UnhappyBack(64, 52);
    UnhappyBack(75, 74);
    UnhappyBack(78, 113);
    UnhappyBack(87, 113);
    UnhappyBack(90, 81);
    UnhappyBack(117, 51);
    UnhappyBack(3, 9);
    UnhappyBack(8, 64);
    UnhappyBack(12, 5);
    UnhappyBack(17, 50);
    UnhappyBack(21, 5);
    UnhappyBack(30, 9);
    UnhappyBack(35, 34);
  }

  /** Values that fall into the unhappy cycle, batch 5. */
  lemma UnhappyValues5()
    ensures NeverOne(39) && NeverOne(53) && NeverOne(55) && NeverOne(69) && NeverOne(71) && NeverOne(80) && NeverOne(93) && NeverOne(96) && NeverOne(14) && NeverOne(22) && NeverOne(27) && NeverOne(41) && NeverOne(48)
  {
    UnhappyValues4();
    UnhappyValues3();
    UnhappyValues2();
    UnhappyBack(39, 90);
    UnhappyBack(53, 34);
    UnhappyBack(55, 50);
    UnhappyBack(69, 117);
    UnhappyBack(71, 50);
    UnhappyBack(80, 64);
    UnhappyBack(93, 90);
    UnhappyBack(96, 117);
    UnhappyBack(14, 17);
    UnhappyBack(22, 8);
    UnhappyBack(27, 53);
    UnhappyBack(41, 17);
    UnhappyBack(48, 80);
  }

  /** Values that fall into the unhappy cycle, batch 6. */
  lemma UnhappyValues6()
    ensures NeverOne(72) && NeverOne(84) && NeverOne(128) && NeverOne(45) && NeverOne(54) && NeverOne(66) && NeverOne(88) && NeverOne(162) && NeverOne(36) && NeverOne(63) && NeverOne(99) && NeverOne(6) && NeverOne(60)
  {
    UnhappyValues5();
    UnhappyValues4();
    UnhappyValues3();
    UnhappyBack(72, 53);
    UnhappyBack(84, 80);
    UnhappyBack(128, 69);
    UnhappyBack(45, 41);
    UnhappyBack(54, 41);
    UnhappyBack(66, 72);
    UnhappyBack(88, 128);
    UnhappyBack(162, 41);
    UnhappyBack(36, 45);
    UnhappyBack(63, 45);
    UnhappyBack(99, 162);
    UnhappyBack(6, 36);
    UnhappyBack(60, 36);
  }


  /** The happy values met on the way from [1, 100], with the step at which each reaches 1. */
  lemma HappyValues()
    ensures Iterate(1, 0) == 1
    ensures Iterate(10, 1) == 1
    ensures Iterate(100, 1) == 1
    ensures Iterate(13, 2) == 1
    ensures Iterate(31, 2) == 1
    ensures Iterate(68, 2) == 1
    ensures Iterate(86, 2) == 1
    ensures Iterate(130, 2) == 1
    ensures Iterate(23, 3) == 1
    ensures Iterate(28, 3) == 1
    ensures Iterate(32, 3) == 1
    ensures Iterate(79, 3) == 1
    ensures Iterate(82, 3) == 1
    ensures Iterate(97, 3) == 1
    ensures Iterate(19, 4) == 1
    ensures Iterate(44, 4) == 1
    ensures Iterate(49, 4) == 1
    ensures Iterate(91, 4) == 1
    ensures Iterate(94, 4) == 1
    ensures Iterate(7, 5) == 1
    ensures Iterate(70, 5) == 1
  {
    HappyBack(10, 1, 0);
    HappyBack(100, 1, 0);
    HappyBack(13, 10, 1);
    HappyBack(31, 10, 1);
    HappyBack(68, 100, 1);
    HappyBack(86, 100, 1);
    HappyBack(130, 10, 1);
    HappyBack(23, 13, 2);
    HappyBack(28, 68, 2);
    HappyBack(32, 13, 2);
    HappyBack(79, 130, 2);
    HappyBack(82, 68, 2);
    HappyBack(97, 130, 2);
    HappyBack(19, 82, 3);
    HappyBack(44, 32, 3);
    HappyBack(49, 97, 3);
    HappyBack(91, 82, 3);
    HappyBack(94, 97, 3);
    HappyBack(7, 49, 4);
    HappyBack(70, 49, 4);
  }

  /** Which of 1, ..., 10 are happy. */
  lemma HappyDecade10()
    ensures HappyWithin(1) && !HappyWithin(2) && !HappyWithin(3) && !HappyWithin(4) && !HappyWithin(5)
    ensures !HappyWithin(6) && HappyWithin(7) && !HappyWithin(8) && !HappyWithin(9) && HappyWithin(10)
  {
    HappyValues();
    CycleUnhappy();
    UnhappyValues1();
    UnhappyValues3();
    UnhappyValues4();
    UnhappyValues6();
  }

  /** Which of 11, ..., 20 are happy. */
  lemma HappyDecade20()
    ensures !HappyWithin(11) && !HappyWithin(12) && HappyWithin(13) && !HappyWithin(14) && !HappyWithin(15)
    ensures !HappyWithin(16) && !HappyWithin(17) && !HappyWithin(18) && HappyWithin(19) && !HappyWithin(20)
  {
    HappyValues();
    CycleUnhappy();
    UnhappyValues1();
    UnhappyValues2();
    UnhappyValues4();
    UnhappyValues5();
  }

  /** Which of 21, ..., 30 are happy. */
  lemma HappyDecade30()
    ensures !HappyWithin(21) && !HappyWithin(22) && HappyWithin(23) && !HappyWithin(24) && !HappyWithin(25)
    ensures !HappyWithin(26) && !HappyWithin(27) && HappyWithin(28) && !HappyWithin(29) && !HappyWithin(30)
  {
    HappyValues();
    UnhappyValues1();
    UnhappyValues2();
    UnhappyValues4();
    UnhappyValues5();
  }

  /** Which of 31, ..., 40 are happy. */
  lemma HappyDecade40()
    ensures HappyWithin(31) && HappyWithin(32) && !HappyWithin(33) && !HappyWithin(34) && !HappyWithin(35)
    ensures !HappyWithin(36) && !HappyWithin(37) && !HappyWithin(38) && !HappyWithin(39) && !HappyWithin(40)
  {
    HappyValues();
    CycleUnhappy();
    UnhappyValues1();
    UnhappyValues3();
    UnhappyValues4();
    UnhappyValues5();
    UnhappyValues6();
  }

  /** Which of 41, ..., 50 are happy. */
  lemma HappyDecade50()
    ensures !HappyWithin(41) && !HappyWithin(42) && !HappyWithin(43) && HappyWithin(44) && !HappyWithin(45)
    ensures !HappyWithin(46) && !HappyWithin(47) && !HappyWithin(48) && HappyWithin(49) && !HappyWithin(50)
  {
    HappyValues();
    CycleUnhappy();
    UnhappyValues2();
    UnhappyValues3();
    UnhappyValues5();
    UnhappyValues6();
  }

  /** Which of 51, ..., 60 are happy. */
  lemma HappyDecade60()
    ensures !HappyWithin(51) && !HappyWithin(52) && !HappyWithin(53) && !HappyWithin(54) && !HappyWithin(55)
    ensures !HappyWithin(56) && !HappyWithin(57) && !HappyWithin(58) && !HappyWithin(59) && !HappyWithin(60)
  {
    CycleUnhappy();
    UnhappyValues1();
    UnhappyValues2();
    UnhappyValues3();
    UnhappyValues5();
    UnhappyValues6();
  }

  /** Which of 61, ..., 70 are happy. */
  lemma HappyDecade70()
    ensures !HappyWithin(61) && !HappyWithin(62) && !HappyWithin(63) && !HappyWithin(64) && !HappyWithin(65)
    ensures !HappyWithin(66) && !HappyWithin(67) && HappyWithin(68) && !HappyWithin(69) && HappyWithin(70)
  {
    HappyValues();
    UnhappyValues1();
    UnhappyValues2();
    UnhappyValues4();
    UnhappyValues5();
    UnhappyValues6();
  }

  /** Which of 71, ..., 80 are happy. */
  lemma HappyDecade80()
    ensures !HappyWithin(71) && !HappyWithin(72) && !HappyWithin(73) && !HappyWithin(74) && !HappyWithin(75)
    ensures !HappyWithin(76) && !HappyWithin(77) && !HappyWithin(78) && HappyWithin(79) && !HappyWithin(80)
  {
    HappyValues();
    UnhappyValues1();
    UnhappyValues2();
    UnhappyValues3();
    UnhappyValues4();
    UnhappyValues5();
    UnhappyValues6();
  }

  /** Which of 81, ..., 90 are happy. */
  lemma HappyDecade90()
    ensures !HappyWithin(81) && HappyWithin(82) && !HappyWithin(83) && !HappyWithin(84) && !HappyWithin(85)
    ensures HappyWithin(86) && !HappyWithin(87) && !HappyWithin(88) && !HappyWithin(89) && !HappyWithin(90)
  {
    HappyValues();
    CycleUnhappy();
    UnhappyValues1();
    UnhappyValues2();
    UnhappyValues3();
    UnhappyValues4();
    UnhappyValues6();
  }

  /** Which of 91, ..., 100 are happy. */
  lemma HappyDecade100()
    ensures HappyWithin(91) && !HappyWithin(92) && !HappyWithin(93) && HappyWithin(94) && !HappyWithin(95)
    ensures !HappyWithin(96) && HappyWithin(97) && !HappyWithin(98) && !HappyWithin(99) && HappyWithin(100)
  {
    HappyValues();
    UnhappyValues1();
    UnhappyValues2();
    UnhappyValues5();
    UnhappyValues6();
  }

  /** The happy numbers in [1, 20] number 5. */
  lemma HappyCountUpTo20()
    ensures HappyCount(20) == 5
  {
    HappyDecade10();
    HappyDecade20();
    assert HappyCount(1) == 1;
    assert HappyCount(2) == 1;
    assert HappyCount(3) == 1;
    assert HappyCount(4) == 1;
    assert HappyCount(5) == 1;
    assert HappyCount(6) == 1;
    assert HappyCount(7) == 2;
    assert HappyCount(8) == 2;
    assert HappyCount(9) == 2;
    assert HappyCount(10) == 3;
    assert HappyCount(11) == 3;
    assert HappyCount(12) == 3;
    assert HappyCount(13) == 4;
    assert HappyCount(14) == 4;
    assert HappyCount(15) == 4;
    assert HappyCount(16) == 4;
    assert HappyCount(17) == 4;
    assert HappyCount(18) == 4;
    assert HappyCount(19) == 5;
    assert HappyCount(20) == 5;
  }

  /** The happy numbers in [1, 40] number 9. */
  lemma HappyCountUpTo40()
    ensures HappyCount(40) == 9
  {
    HappyCountUpTo20();
    HappyDecade30();
    HappyDecade40();
    assert HappyCount(21) == 5;
    assert HappyCount(22) == 5;
    assert HappyCount(23) == 6;
    assert HappyCount(24) == 6;
    assert HappyCount(25) == 6;
    assert HappyCount(26) == 6;
    assert HappyCount(27) == 6;
    assert HappyCount(28) == 7;
    assert HappyCount(29) == 7;
    assert HappyCount(30) == 7;
    assert HappyCount(31) == 8;
    assert HappyCount(32) == 9;
    assert HappyCount(33) == 9;
    assert HappyCount(34) == 9;
    assert HappyCount(35) == 9;
    assert HappyCount(36) == 9;
    assert HappyCount(37) == 9;
    assert HappyCount(38) == 9;
    assert HappyCount(39) == 9;
    assert HappyCount(40) == 9;
  }

  /** The happy numbers in [1, 60] number 11. */
  lemma HappyCountUpTo60()
    ensures HappyCount(60) == 11
  {
    HappyCountUpTo40();
    HappyDecade50();
    HappyDecade60();
    assert HappyCount(41) == 9;
    assert HappyCount(42) == 9;
    assert HappyCount(43) == 9;
    assert HappyCount(44) == 10;
    assert HappyCount(45) == 10;
    assert HappyCount(46) == 10;
    assert HappyCount(47) == 10;
    assert HappyCount(48) == 10;
    assert HappyCount(49) == 11;
    assert HappyCount(50) == 11;
    assert HappyCount(51) == 11;
    assert HappyCount(52) == 11;
    assert HappyCount(53) == 11;
    assert HappyCount(54) == 11;
    assert HappyCount(55) == 11;
    assert HappyCount(56) == 11;
    assert HappyCount(57) == 11;
    assert HappyCount(58) == 11;
    assert HappyCount(59) == 11;
    assert HappyCount(60) == 11;
  }

  /** The happy numbers in [1, 80] number 14. */
  lemma HappyCountUpTo80()
    ensures HappyCount(80) == 14
  {
    HappyCountUpTo60();
    HappyDecade70();
    HappyDecade80();
    assert HappyCount(61) == 11;
    assert HappyCount(62) == 11;
    assert HappyCount(63) == 11;
    assert HappyCount(64) == 11;
    assert HappyCount(65) == 11;
    assert HappyCount(66) == 11;
    assert HappyCount(67) == 11;
    assert HappyCount(68) == 12;
    assert HappyCount(69) == 12;
    assert HappyCount(70) == 13;
    assert HappyCount(71) == 13;
    assert HappyCount(72) == 13;
    assert HappyCount(73) == 13;
    assert HappyCount(74) == 13;
    assert HappyCount(75) == 13;
    assert HappyCount(76) == 13;
    assert HappyCount(77) == 13;
    assert HappyCount(78) == 13;
    assert HappyCount(79) == 14;
    assert HappyCount(80) == 14;
  }

  /** The happy numbers in [1, 100] number 20. */
  lemma HappyCountUpTo100()
    ensures HappyCount(100) == 20
  {
    HappyCountUpTo80();
    HappyDecade90();
    HappyDecade100();
    assert HappyCount(81) == 14;
    assert HappyCount(82) == 15;
    assert HappyCount(83) == 15;
    assert HappyCount(84) == 15;
    assert HappyCount(85) == 15;
    assert HappyCount(86) == 16;
    assert HappyCount(87) == 16;
    assert HappyCount(88) == 16;
    assert HappyCount(89) == 16;
    assert HappyCount(90) == 16;
    assert HappyCount(91) == 17;
    assert HappyCount(92) == 17;
    assert HappyCount(93) == 17;
    assert HappyCount(94) == 18;
    assert HappyCount(95) == 18;
    assert HappyCount(96) == 18;
    assert HappyCount(97) == 19;
    assert HappyCount(98) == 19;
    assert HappyCount(99) == 19;
    assert HappyCount(100) == 20;
  }

  /** Counts the i in range(1, 101) for which is_happy(i) holds. */
  method CountHappyNumbers() returns (count: int)
    ensures count == HappyCount(100)
    ensures count == 20
  {
    count := 0;
    var i := 1;
    while i < 101
      invariant 1 <= i <= 101
      invariant count == HappyCount(i - 1)
    {
      var h := IsHappy(i);
      if h {
        count := count + 1;
      }
      i := i + 1;
    }
    HappyCountUpTo100();
  }
}
