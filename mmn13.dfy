/**
 * List and matrix puzzles: the complement of a list, circular right shifts,
 * the index walk of `is_perfect`, and centred identity blocks of a matrix.
 * Python lists of ints are `seq<int>`, matrices are `seq<seq<int>>`, and a
 * raised exception is a `Failure` of the shared `Result` type.
 */
module Mmn13 {
  import opened Wrappers
  import opened Builtins

  // ------------------------------------------------------------------
  // complement
  // ------------------------------------------------------------------

  /** The i in [1, m) that do not occur in lst, in ascending order. */
  function MissingBelow(lst: seq<int>, m: int): seq<int>
    decreases m
  {
    if m <= 1 then [] else MissingBelow(lst, m - 1) + (if m - 1 in lst then [] else [m - 1])
  }

  /** MissingBelow holds exactly the absent values of [1, m), each below m, strictly ascending. */
  lemma {:induction false} MissingBelowMeaning(lst: seq<int>, m: int)
    ensures forall x :: x in MissingBelow(lst, m) <==> 1 <= x < m && x !in lst
    ensures forall i, j :: 0 <= i < j < |MissingBelow(lst, m)| ==>
      MissingBelow(lst, m)[i] < MissingBelow(lst, m)[j]
    decreases m
  {
    if m > 1 {
      MissingBelowMeaning(lst, m - 1);
      var prev := MissingBelow(lst, m - 1);
      assert forall i :: 0 <= i < |prev| ==> prev[i] < m - 1 by {
        forall i | 0 <= i < |prev|
          ensures prev[i] < m - 1
        {
          assert prev[i] in prev;
        }
      }
    }
  }

  /** For every value below max(lst), one linear search through lst. */
  method Complement(lst: seq<int>) returns (comp: seq<int>)
    ensures lst == [] ==> comp == []
    ensures lst != [] ==> comp == MissingBelow(lst, MaxOf(lst))
  {
    comp := [];
    if lst != [] {
      var m := MaxOf(lst);
      var i := 1;
      while i < m
        invariant 1 <= i
        invariant i <= m || i == 1
        invariant comp == MissingBelow(lst, i)
        decreases m - i
      {
        var exist := false;
        var k := 0;
        while k < |lst|
          invariant 0 <= k <= |lst|
          invariant i !in lst[..k]
        {
          if i == lst[k] {
            exist := true;
            break;
          }
          assert lst[..k + 1] == lst[..k] + [lst[k]];
          k := k + 1;
        }
        assert exist <==> i in lst by {
          if !exist {
            assert lst[..k] == lst;
          }
        }
        if !exist {
          comp := comp + [i];
        }
        i := i + 1;
      }
      if m < 1 {
        assert i == 1;
      }
    }
  }

  // ------------------------------------------------------------------
  // shift_k_right and shift_right_size
  // ------------------------------------------------------------------

  /** Python's normalisation of a slice bound: a negative bound counts from the end, then it is clipped. */
  function SliceBound(n: nat, i: int): (q: nat)
    ensures q <= n
    ensures 0 <= i <= n ==> q == i
    ensures i < 0 && 0 <= i + n ==> q == n + i
  {
    var p := if i < 0 then i + n else i;
    if p < 0 then 0 else if p > n then n else p
  }

  /** The message `shift_k_right` raises for a k outside [0, |lst|]. */
  const ShiftError := ValueError("k must be between 0 and lst length!")

  /** `shift_k_right`: ValueError unless 0 <= k <= |lst|, otherwise `lst[-k:] + lst[:-k]`. */
  function ShiftKRight<T>(lst: seq<T>, k: int): (r: Result<seq<T>>)
    ensures r.Failure? <==> k < 0 || k > |lst|
    ensures r.Failure? ==> r.error == ShiftError
  {
    if k < 0 || k > |lst| then Failure(ShiftError)
    else
      var q := SliceBound(|lst|, -k);
      Success(lst[q..] + lst[..q])
  }

  /** The reference rotation: the last k elements moved to the front. */
  function Rotate<T>(lst: seq<T>, k: nat): seq<T>
    requires k <= |lst|
  {
    lst[|lst| - k..] + lst[..|lst| - k]
  }

  /** For every valid k the Python slicing is the rotation, including k = 0 where -0 slices as 0. */
  lemma ShiftKRightIsRotate<T>(lst: seq<T>, k: int)
    requires 0 <= k <= |lst|
    ensures ShiftKRight(lst, k) == Success(Rotate(lst, k))
  {
    if k == 0 {
      assert lst[0..] + lst[..0] == lst;
      assert lst[|lst|..] + lst[..|lst|] == lst;
    }
  }

  /** A rotation keeps the length and the multiset of the list. */
  lemma RotatePreserves<T>(lst: seq<T>, k: nat)
    requires k <= |lst|
    ensures |Rotate(lst, k)| == |lst|
    ensures multiset(Rotate(lst, k)) == multiset(lst)
  {
    assert lst == lst[..|lst| - k] + lst[|lst| - k..];
  }

  /** Rotating by k moves the element at index i - k (mod |lst|) to index i. */
  lemma RotateIndex<T>(lst: seq<T>, k: nat)
    requires k <= |lst|
    ensures forall i :: 0 <= i < |lst| ==> Rotate(lst, k)[i] == lst[(i + |lst| - k) % |lst|]
  {
    var n := |lst|;
    var r := Rotate(lst, k);
    forall i | 0 <= i < n
      ensures r[i] == lst[(i + n - k) % n]
    {
      if i < k {
        assert r[i] == lst[n - k + i];
        ModBelow(i + n - k, n);
      } else {
        assert r[i] == lst[i - k];
        ModAddPeriod(i - k, n);
      }
    }
  }

  /** A value in [0, n) is its own remainder. */
  lemma ModBelow(a: int, n: int)
    requires 0 <= a < n
    ensures a % n == a
  {
  }

  /** A value in [n, 2n) leaves the remainder its distance to n. */
  lemma ModAddPeriod(a: int, n: int)
    requires 0 <= a < n
    ensures (a + n) % n == a
  {
    var q, r := (a + n) / n, (a + n) % n;
    assert a + n == q * n + r && 0 <= r < n;
  }

  /** Rotating by 0 or by the whole length changes nothing. */
  lemma RotateTrivial<T>(lst: seq<T>)
    ensures Rotate(lst, 0) == lst
    ensures Rotate(lst, |lst|) == lst
  {
    assert lst[|lst|..] + lst[..|lst|] == lst;
    assert lst[0..] + lst[..0] == lst;
  }

  /** Rotating by k and then by |lst| - k gives the list back. */
  lemma RotateInverse<T>(lst: seq<T>, k: nat)
    requires k <= |lst|
    ensures Rotate(Rotate(lst, k), |lst| - k) == lst
  {
    var n := |lst|;
    var r := Rotate(lst, k);
    assert |r| == n;
    assert r[n - (n - k)..] == lst[..n - k];
    assert r[..n - (n - k)] == lst[n - k..];
    assert lst == lst[..n - k] + lst[n - k..];
  }

  /** The first i in [from, |b|) with shift_k_right(b, i) == a. */
  function FirstShiftFrom<T(==)>(a: seq<T>, b: seq<T>, from: nat): Option<nat>
    decreases |b| - from
  {
    if from >= |b| then None
    else if ShiftKRight(b, from) == Success(a) then Some(from)
    else FirstShiftFrom(a, b, from + 1)
  }

  /** What `shift_right_size` returns, with Python's string "None" as None. */
  function ShiftSize<T(==)>(a: seq<T>, b: seq<T>): Option<nat> {
    if a == [] || b == [] then None
    else if a == b then Some(0)
    else FirstShiftFrom(a, b, 1)
  }

  /** FirstShiftFrom finds the least matching shift at or above from, or None when there is none. */
  lemma {:induction false} FirstShiftFromMeaning<T>(a: seq<T>, b: seq<T>, from: nat)
    requires 1 <= from
    ensures FirstShiftFrom(a, b, from).None? <==>
      forall i :: from <= i < |b| ==> Rotate(b, i) != a
    ensures FirstShiftFrom(a, b, from).Some? ==>
      var i := FirstShiftFrom(a, b, from).value;
      from <= i < |b| && Rotate(b, i) == a && forall j :: from <= j < i ==> Rotate(b, j) != a
    decreases |b| - from
  {
    if from < |b| {
      ShiftKRightIsRotate(b, from);
      FirstShiftFromMeaning(a, b, from + 1);
    }
  }

  /** 0 exactly for equal non-empty lists; otherwise the least right shift of b giving a, or None. */
  lemma ShiftSizeMeaning<T>(a: seq<T>, b: seq<T>)
    ensures ShiftSize(a, b) == Some(0) <==> a != [] && a == b
    ensures ShiftSize(a, b).None? <==>
      a == [] || b == [] || (a != b && forall i :: 1 <= i < |b| ==> Rotate(b, i) != a)
    ensures ShiftSize(a, b).Some? && ShiftSize(a, b).value > 0 ==>
      var i := ShiftSize(a, b).value;
      a != b && i < |b| && Rotate(b, i) == a && forall j :: 1 <= j < i ==> Rotate(b, j) != a
  {
    FirstShiftFromMeaning(a, b, 1);
  }

  /** Returns 0 for equal lists, else tries each shift 1, 2, ... of b in turn. */
  method ShiftRightSize<T(==)>(a: seq<T>, b: seq<T>) returns (r: Option<nat>)
    ensures r == ShiftSize(a, b)
  {
    if a != [] && b != [] {
      if a == b {
        return Some(0);
      }
      var i := 1;
      while i < |b|
        invariant 1 <= i
        invariant FirstShiftFrom(a, b, 1) == FirstShiftFrom(a, b, i)
        decreases |b| - i
      {
        if ShiftKRight(b, i) == Success(a) {
          return Some(i);
        }
        i := i + 1;
      }
    }
    return None;
  }

  // ------------------------------------------------------------------
  // is_valid and is_perfect
  // ------------------------------------------------------------------

  /** `is_valid` on an int: the IndexError it raises for a value outside [0, |lst|), if any. */
  function IsValid(val: int, lst: seq<int>): (err: Option<PyError>)
    ensures err.None? <==> 0 <= val < |lst|
    ensures err.Some? ==> err.value.IndexError?
  {
    if val < 0 || val >= |lst| then
      Some(IndexError("The value " + IntToString(val) + " is out of the array boundaries"))
    else None
  }

  /** How a call of `is_perfect` ends: it returns a flag, raises, or loops for ever. */
  datatype PerfectOutcome = Returns(perfect: bool) | Raises(error: PyError) | Diverges

  /** The value of val after t steps of the walk: 0 first, then lst[val] while val is an index. */
  function Walk(lst: seq<int>, t: nat): int {
    if t == 0 then 0
    else
      var v := Walk(lst, t - 1);
      if 0 <= v < |lst| then lst[v] else v
  }

  /** The indices the walk has marked in `test` after t steps. */
  function Trail(lst: seq<int>, t: nat): (r: seq<int>)
    ensures |r| == t
    ensures forall s :: 0 <= s < t ==> r[s] == Walk(lst, s)
  {
    if t == 0 then [] else Trail(lst, t - 1) + [Walk(lst, t - 1)]
  }

  /** After t steps val is a valid index. */
  predicate InRange(lst: seq<int>, t: nat) {
    0 <= Walk(lst, t) < |lst|
  }

  /** After t steps the loop condition ends the walk: val is 0 or a fixed point of lst. */
  predicate StopsAt(lst: seq<int>, t: nat) {
    InRange(lst, t) && (Walk(lst, t) == 0 || lst[Walk(lst, t)] == Walk(lst, t))
  }

  /** Every index of lst is among the first t values of the walk. */
  predicate Covers(lst: seq<int>, t: nat) {
    forall i :: 0 <= i < |lst| ==> i in Trail(lst, t)
  }

  /** The outcome of the walk from its t-th step on; the search gives up after |lst| steps. */
  function OutcomeFrom(lst: seq<int>, t: nat): PerfectOutcome
    requires 1 <= t
    decreases |lst| + 1 - t
  {
    if t > |lst| then Diverges
    else if IsValid(Walk(lst, t), lst).Some? then Raises(IsValid(Walk(lst, t), lst).value)
    else if StopsAt(lst, t) then Returns(Covers(lst, t))
    else OutcomeFrom(lst, t + 1)
  }

  /** The outcome of `is_perfect(lst)`. */
  function PerfectOutcomeOf(lst: seq<int>): PerfectOutcome {
    if lst == [] then Returns(true) else OutcomeFrom(lst, 1)
  }

  /**
   * The `is_perfect` walk over an int array `test` of marks. The source loop has no bound;
   * here it stops after |lst| steps, which by WalkDivergesIffNeverStops is exactly when the
   * source would loop for ever.
   */
  method IsPerfect(lst: seq<int>) returns (r: PerfectOutcome)
    ensures r == PerfectOutcomeOf(lst)
  {
    if lst == [] {
      return Returns(true);
    }
    var n := |lst|;
    var test := new int[n](_ => 0);
    var val := 0;
    var done := false;
    var steps := 0;
    while !done
      invariant 0 <= steps <= n
      invariant val == Walk(lst, steps) && 0 <= val < n
      invariant forall i :: 0 <= i < n ==> (test[i] != 0 <==> i in Trail(lst, steps))
      invariant !done ==> PerfectOutcomeOf(lst) == OutcomeFrom(lst, steps + 1)
      invariant done ==> PerfectOutcomeOf(lst) == Returns(Covers(lst, steps))
      decreases n - steps
    {
      if steps == n {
        return Diverges;
      }
      test[val] := 1;
      val := lst[val];
      steps := steps + 1;
      var err := IsValid(val, lst);
      if err.Some? {
        return Raises(err.value);
      }
      if val == 0 || val == lst[val] {
        done := true;
      }
    }
    var result := true;
    for i := 0 to n
      invariant result <==> forall j :: 0 <= j < i ==> test[j] != 0
    {
      if test[i] == 0 {
        result := false;
      }
    }
    return Returns(result);
  }

  /** The indices 0, 1, ..., n - 1 in order. */
  function Upto(n: nat): (r: seq<int>)
    ensures |r| == n
    ensures forall i :: 0 <= i < n ==> r[i] == i
  {
    if n == 0 then [] else Upto(n - 1) + [n - 1]
  }

  /** A list has at most as many distinct values as elements. */
  lemma {:induction false} ValuesCard(xs: seq<int>)
    ensures |set x | x in xs| <= |xs|
  {
    if xs != [] {
      var init := xs[..|xs| - 1];
      ValuesCard(init);
      assert xs == init + [xs[|xs| - 1]];
      assert (set x | x in xs) == (set x | x in init) + {xs[|xs| - 1]};
    }
  }

  /** A list of distinct elements has as many values as elements. */
  lemma {:induction false} DistinctCard(xs: seq<int>)
    requires forall i, j :: 0 <= i < j < |xs| ==> xs[i] != xs[j]
    ensures |set x | x in xs| == |xs|
  {
    if xs != [] {
      var init := xs[..|xs| - 1];
      DistinctCard(init);
      assert xs == init + [xs[|xs| - 1]];
      assert (set x | x in xs) == (set x | x in init) + {xs[|xs| - 1]};
    }
  }

  /** The indices 0, ..., n - 1 are n different values. */
  lemma UptoCard(n: nat)
    ensures |set x | x in Upto(n)| == n
  {
    DistinctCard(Upto(n));
  }

  /** A subset is no larger than its superset. */
  lemma SubsetCard(a: set<int>, b: set<int>)
    requires a <= b
    ensures |a| <= |b|
  {
    assert b == a + (b - a);
  }

  /** A list containing every index below n has at least n elements. */
  lemma CoverCard(xs: seq<int>, n: nat)
    requires forall i :: 0 <= i < n ==> i in xs
    ensures n <= |xs|
  {
    var range, values := set x | x in Upto(n), set x | x in xs;
    assert range <= values by {
      forall x | x in range
        ensures x in values
      {
        var k :| 0 <= k < n && Upto(n)[k] == x;
      }
    }
    SubsetCard(range, values);
    UptoCard(n);
    ValuesCard(xs);
  }

  /** More than n values drawn from [0, n) contain a repetition. */
  lemma Pigeonhole(xs: seq<int>, n: nat)
    requires |xs| > n
    requires forall i :: 0 <= i < |xs| ==> 0 <= xs[i] < n
    ensures exists i, j :: 0 <= i < j < |xs| && xs[i] == xs[j]
  {
    if forall i, j :: 0 <= i < j < |xs| ==> xs[i] != xs[j] {
      DistinctCard(xs);
      var range, values := set x | x in Upto(n), set x | x in xs;
      assert values <= range by {
        forall x | x in values
          ensures x in range
        {
          assert Upto(n)[x] == x;
        }
      }
      UptoCard(n);
      SubsetCard(values, range);
      assert false;
    }
  }

  /** The walk is deterministic: equal values stay equal for ever after. */
  lemma {:induction false} WalkRepeats(lst: seq<int>, i: nat, j: nat, m: nat)
    requires Walk(lst, i) == Walk(lst, j)
    ensures Walk(lst, i + m) == Walk(lst, j + m)
  {
    if m > 0 {
      WalkRepeats(lst, i, j, m - 1);
    }
  }

  /** With a repetition i < j <= |lst| among the first steps, every later step repeats an earlier one. */
  lemma {:induction false} NeverStopsAfterRepeat(lst: seq<int>, i: nat, j: nat, t: nat)
    requires forall s :: 1 <= s <= |lst| ==> InRange(lst, s) && !StopsAt(lst, s)
    requires i < j <= |lst| && Walk(lst, i) == Walk(lst, j)
    requires t >= 1
    ensures InRange(lst, t) && !StopsAt(lst, t)
    decreases t
  {
    if t > |lst| {
      var back := i + (t - j);
      WalkRepeats(lst, i, j, t - j);
      NeverStopsAfterRepeat(lst, i, j, back);
    }
  }

  /** If none of the first |lst| steps leaves the range or ends the walk, none ever does. */
  lemma NeverStops(lst: seq<int>)
    requires lst != []
    requires forall s :: 1 <= s <= |lst| ==> InRange(lst, s) && !StopsAt(lst, s)
    ensures forall t :: t >= 1 ==> InRange(lst, t) && !StopsAt(lst, t)
  {
    var n := |lst|;
    var xs := Trail(lst, n + 1);
    forall k | 0 <= k < |xs|
      ensures 0 <= xs[k] < n
    {
      if k > 0 {
        assert InRange(lst, k);
      }
    }
    Pigeonhole(xs, n);
    var i, j :| 0 <= i < j < |xs| && xs[i] == xs[j];
    forall t | t >= 1
      ensures InRange(lst, t) && !StopsAt(lst, t)
    {
      NeverStopsAfterRepeat(lst, i, j, t);
    }
  }

  /** OutcomeFrom(lst, t) is Diverges exactly when no step from t to |lst| raises or stops. */
  lemma {:induction false} OutcomeFromDiverges(lst: seq<int>, t: nat)
    requires 1 <= t
    ensures OutcomeFrom(lst, t) == Diverges <==>
      forall s :: t <= s <= |lst| ==> InRange(lst, s) && !StopsAt(lst, s)
    decreases |lst| + 1 - t
  {
    if t <= |lst| {
      OutcomeFromDiverges(lst, t + 1);
      var here := InRange(lst, t) && !StopsAt(lst, t);
      assert IsValid(Walk(lst, t), lst).None? <==> InRange(lst, t);
      assert here ==> OutcomeFrom(lst, t) == OutcomeFrom(lst, t + 1);
      assert !here ==> OutcomeFrom(lst, t) != Diverges;
      assert (forall s :: t <= s <= |lst| ==> InRange(lst, s) && !StopsAt(lst, s))
        <==> here && forall s :: t + 1 <= s <= |lst| ==> InRange(lst, s) && !StopsAt(lst, s);
    }
  }

  /** The bounded search answers Diverges exactly when the source's walk never ends. */
  lemma WalkDivergesIffNeverStops(lst: seq<int>)
    ensures PerfectOutcomeOf(lst) == Diverges <==>
      lst != [] && forall t :: t >= 1 ==> InRange(lst, t) && !StopsAt(lst, t)
  {
    if lst != [] {
      OutcomeFromDiverges(lst, 1);
      if PerfectOutcomeOf(lst) == Diverges {
        NeverStops(lst);
      }
    }
  }

  /** A returned flag comes from the first step e >= t at which the walk stops, and says whether its trail covers lst. */
  lemma {:induction false} OutcomeFromReturns(lst: seq<int>, t: nat)
    requires 1 <= t
    ensures OutcomeFrom(lst, t).Returns? ==>
      exists e :: t <= e <= |lst| && StopsAt(lst, e) &&
        (forall s :: t <= s < e ==> !StopsAt(lst, s)) &&
        OutcomeFrom(lst, t).perfect == Covers(lst, e)
    decreases |lst| + 1 - t
  {
    if t <= |lst| && OutcomeFrom(lst, t).Returns? {
      assert IsValid(Walk(lst, t), lst).None?;
      if StopsAt(lst, t) {
        assert OutcomeFrom(lst, t) == Returns(Covers(lst, t));
      } else {
        assert OutcomeFrom(lst, t) == OutcomeFrom(lst, t + 1);
        OutcomeFromReturns(lst, t + 1);
        var e :| t + 1 <= e <= |lst| && StopsAt(lst, e) &&
          (forall s :: t + 1 <= s < e ==> !StopsAt(lst, s)) &&
          OutcomeFrom(lst, t + 1).perfect == Covers(lst, e);
        assert forall s :: t <= s < e ==> !StopsAt(lst, s);
      }
    }
  }

  /**
   * A non-empty list is perfect exactly when the walk first stops after |lst| steps
   * having visited every index: the walk is one cycle through the whole list.
   */
  lemma PerfectIsFullCycle(lst: seq<int>)
    requires lst != []
    ensures PerfectOutcomeOf(lst) == Returns(true) <==>
      StopsAt(lst, |lst|) && (forall s :: 1 <= s < |lst| ==> !StopsAt(lst, s)) &&
      Covers(lst, |lst|)
  {
    var n := |lst|;
    OutcomeFromReturns(lst, 1);
    if PerfectOutcomeOf(lst) == Returns(true) {
      var e :| 1 <= e <= n && StopsAt(lst, e) && (forall s :: 1 <= s < e ==> !StopsAt(lst, s)) &&
        Covers(lst, e);
      CoverCard(Trail(lst, e), n);
    }
    if StopsAt(lst, n) && (forall s :: 1 <= s < n ==> !StopsAt(lst, s)) {
      FirstStop(lst, 1, n);
    }
  }

  /** When the walk first stops at step e >= t, the search from t returns the coverage of the trail to e. */
  lemma {:induction false} FirstStop(lst: seq<int>, t: nat, e: nat)
    requires 1 <= t <= e <= |lst|
    requires StopsAt(lst, e) && forall s :: t <= s < e ==> !StopsAt(lst, s)
    ensures OutcomeFrom(lst, t) == Returns(Covers(lst, e))
    decreases e - t
  {
    if t < e {
      assert InRange(lst, t) by {
        WalkInRangeBefore(lst, t, e);
      }
      FirstStop(lst, t + 1, e);
    }
  }

  /** Once the walk leaves the range it stays out, so a step before an in-range step is in range. */
  lemma {:induction false} WalkInRangeBefore(lst: seq<int>, t: nat, e: nat)
    requires t <= e && InRange(lst, e)
    ensures InRange(lst, t)
    decreases e - t
  {
    if t < e {
      WalkInRangeBefore(lst, t + 1, e);
    }
  }

  // ------------------------------------------------------------------
  // identity_matrix
  // ------------------------------------------------------------------

  /** The entry the identity matrix has at (i, j). */
  function Delta(i: int, j: int): int {
    if i == j then 1 else 0
  }

  /** Cell (i, j) exists and holds the identity entry. */
  predicate CellOk(mat: seq<seq<int>>, i: nat, j: nat)
    requires i < |mat|
  {
    j < |mat[i]| && mat[i][j] == Delta(i, j)
  }

  /** The first `rows` rows hold identity entries in their first n columns. */
  predicate RowsOk(mat: seq<seq<int>>, n: nat, rows: nat)
    requires rows <= |mat|
  {
    forall i, j :: 0 <= i < rows && 0 <= j < n ==> CellOk(mat, i, j)
  }

  /** The scan reaches the end of the short row i: the rows before it and its own cells are all right. */
  predicate ShortRowReached(mat: seq<seq<int>>, i: nat)
    requires i < |mat|
  {
    |mat[i]| < |mat| && RowsOk(mat, |mat|, i) && forall j :: 0 <= j < |mat[i]| ==> CellOk(mat, i, j)
  }

  /** Python's own message for an index past the end of a list. */
  const ListIndexError := IndexError("list index out of range")

  /**
   * The row-major scan of `identity_matrix`. The number of columns is taken from the first
   * row, so a shorter later row raises IndexError and longer rows are read only in part.
   */
  method IdentityMatrix(mat: seq<seq<int>>) returns (r: Result<bool>)
    ensures mat == [] ==> r == Success(true)
    ensures mat != [] && |mat[0]| != |mat| ==> r == Success(false)
    ensures mat != [] && |mat[0]| == |mat| ==>
      (r == Success(true) <==> RowsOk(mat, |mat|, |mat|)) &&
      (r.Failure? <==> exists i :: 0 <= i < |mat| && ShortRowReached(mat, i)) &&
      (r.Failure? ==> r.error == ListIndexError)
  {
    if mat == [] {
      return Success(true);
    }
    var rowLength := |mat|;
    var columnLength := |mat[0]|;
    if rowLength != columnLength {
      return Success(false);
    }
    var n := rowLength;
    for i := 0 to n
      invariant RowsOk(mat, n, i)
    {
      for j := 0 to n
        invariant RowsOk(mat, n, i)
        invariant forall k :: 0 <= k < j ==> CellOk(mat, i, k)
      {
        if j >= |mat[i]| {
          assert ShortRowReached(mat, i);
          assert !CellOk(mat, i, n - 1);
          return Failure(ListIndexError);
        }
        if (i == j && mat[i][j] != 1) || (i != j && mat[i][j] != 0) {
          assert !CellOk(mat, i, j);
          assert forall i' :: 0 <= i' < n ==> !ShortRowReached(mat, i') by {
            forall i' | 0 <= i' < n
              ensures !ShortRowReached(mat, i')
            {
              if i' < i {
                assert CellOk(mat, i', n - 1);
              } else if i' > i {
                assert !RowsOk(mat, n, i');
              }
            }
          }
          return Success(false);
        }
      }
    }
    assert forall i' :: 0 <= i' < n ==> !ShortRowReached(mat, i') by {
      forall i' | 0 <= i' < n
        ensures !ShortRowReached(mat, i')
      {
        assert CellOk(mat, i', n - 1);
      }
    }
    return Success(true);
  }

  // ------------------------------------------------------------------
  // create_sub_matrix and max_identity_matrix
  // ------------------------------------------------------------------

  /** Every row has the length of the first row. */
  predicate Rectangular(mat: seq<seq<int>>) {
    forall i :: 0 <= i < |mat| ==> |mat[i]| == |mat[0]|
  }

  /** block is the side x side square of mat whose top-left corner is (lo, lo). */
  predicate IsBlock(mat: seq<seq<int>>, lo: nat, side: nat, block: seq<seq<int>>)
    requires lo + side <= |mat|
    requires forall i :: lo <= i < lo + side ==> lo + side <= |mat[i]|
  {
    |block| == side &&
    (forall i :: 0 <= i < side ==> |block[i]| == side) &&
    forall i, j :: 0 <= i < side && 0 <= j < side ==> block[i][j] == mat[lo + i][lo + j]
  }

  /**
   * What the extraction loops of `create_sub_matrix` produce once the checks have passed:
   * with centre c = |mat| / 2 and offset o = size / 2 (floor division), nothing for a
   * negative offset, IndexError when column c + o does not exist, and otherwise the
   * centred block of side 2o + 1.
   */
  predicate CentredOutcome(mat: seq<seq<int>>, size: int, r: Result<seq<seq<int>>>)
    requires mat != [] && |mat| % 2 == 1 && Rectangular(mat) && size <= |mat|
  {
    var c, o := |mat| / 2, size / 2;
    if o < 0 then r == Success([])
    else if c + o >= |mat[0]| then r == Failure(ListIndexError)
    else r.Success? && IsBlock(mat, c - o, 2 * o + 1, r.value)
  }

  /** The nested loops of `create_sub_matrix`, appending mat[i][j] row by row. */
  method CentredBlock(mat: seq<seq<int>>, size: int) returns (r: Result<seq<seq<int>>>)
    requires mat != [] && |mat| % 2 == 1 && Rectangular(mat) && size <= |mat|
    ensures CentredOutcome(mat, size, r)
  {
    var center := |mat| / 2;
    var offset := size / 2;
    if offset < 0 {
      return Success([]);
    }
    var lo := center - offset;
    var side := 2 * offset + 1;
    var subMatrix: seq<seq<int>> := [];
    for i := lo to lo + side
      invariant i > lo ==> lo + side <= |mat[0]|
      invariant |subMatrix| == i - lo
      invariant forall a :: 0 <= a < i - lo ==> |subMatrix[a]| == side
      invariant forall a, b :: 0 <= a < i - lo && 0 <= b < side ==> subMatrix[a][b] == mat[lo + a][lo + b]
    {
      var row: seq<int> := [];
      for j := lo to lo + side
        invariant j == lo || j <= |mat[i]|
        invariant |row| == j - lo
        invariant forall b :: 0 <= b < j - lo ==> row[b] == mat[i][lo + b]
      {
        if j >= |mat[i]| {
          assert |mat[0]| == |mat[i]|;
          return Failure(ListIndexError);
        }
        row := row + [mat[i][j]];
      }
      assert |mat[i]| == |mat[0]|;
      subMatrix := subMatrix + [row];
    }
    return Success(subMatrix);
  }

  /** The message for an even number of rows. */
  const EvenError := IndexError("The matrix must be odd")

  /** The message for rows of different lengths. */
  const RaggedError := IndexError("Matrix rows must have equal length")

  /**
   * `create_sub_matrix`: the odd-row check first, then the equal-length check, then the
   * extraction. Python would wrap a negative index round for a size above |mat| on an
   * odd rectangular matrix; such sizes are excluded.
   */
  method CreateSubMatrix(mat: seq<seq<int>>, size: int) returns (r: Result<seq<seq<int>>>)
    requires mat != [] && |mat| % 2 == 1 && Rectangular(mat) ==> size <= |mat|
    ensures mat == [] ==> r == Success([])
    ensures mat != [] && |mat| % 2 == 0 ==> r == Failure(EvenError)
    ensures mat != [] && |mat| % 2 == 1 && !Rectangular(mat) ==> r == Failure(RaggedError)
    ensures mat != [] && |mat| % 2 == 1 && Rectangular(mat) ==> CentredOutcome(mat, size, r)
  {
    if mat == [] {
      return Success([]);
    }
    if |mat| % 2 == 0 {
      return Failure(EvenError);
    }
    var rowLength := |mat[0]|;
    for k := 0 to |mat|
      invariant forall i :: 0 <= i < k ==> |mat[i]| == rowLength
    {
      if |mat[k]| != rowLength {
        return Failure(RaggedError);
      }
    }
    r := CentredBlock(mat, size);
  }

  /** The centred block with offset o, around the centre of mat, is an identity matrix. */
  predicate IdentityAt(mat: seq<seq<int>>, o: nat)
    requires mat != [] && |mat| % 2 == 1 && Rectangular(mat) && |mat[0]| >= |mat|
    requires o <= |mat| / 2
  {
    var lo := |mat| / 2 - o;
    forall i, j :: 0 <= i < 2 * o + 1 && 0 <= j < 2 * o + 1 ==> mat[lo + i][lo + j] == Delta(i, j)
  }

  /** t is 0 when no centred block is an identity, and otherwise the side of the largest one. */
  predicate LargestIdentityBlock(mat: seq<seq<int>>, t: nat)
    requires mat != [] && |mat| % 2 == 1 && Rectangular(mat) && |mat[0]| >= |mat|
  {
    var c := |mat| / 2;
    if t == 0 then forall o :: 0 <= o <= c ==> !IdentityAt(mat, o)
    else (t % 2 == 1 && t / 2 <= c && IdentityAt(mat, t / 2) &&
          forall o :: t / 2 < o <= c ==> !IdentityAt(mat, o))
  }

  /** At most one side is the largest centred identity block. */
  lemma LargestIdentityBlockUnique(mat: seq<seq<int>>, t1: nat, t2: nat)
    requires mat != [] && |mat| % 2 == 1 && Rectangular(mat) && |mat[0]| >= |mat|
    requires LargestIdentityBlock(mat, t1) && LargestIdentityBlock(mat, t2)
    ensures t1 == t2
  {
  }

  /** A square block is an identity matrix by `identity_matrix` exactly when its entries are Delta. */
  lemma BlockIdentity(mat: seq<seq<int>>, o: nat, block: seq<seq<int>>)
    requires mat != [] && |mat| % 2 == 1 && Rectangular(mat) && |mat[0]| >= |mat|
    requires o <= |mat| / 2
    requires IsBlock(mat, |mat| / 2 - o, 2 * o + 1, block)
    ensures RowsOk(block, |block|, |block|) <==> IdentityAt(mat, o)
    ensures forall i :: 0 <= i < |block| ==> !ShortRowReached(block, i)
  {
    var side := 2 * o + 1;
    if IdentityAt(mat, o) {
      assert RowsOk(block, side, side);
    }
    if RowsOk(block, side, side) {
      forall i, j | 0 <= i < side && 0 <= j < side
        ensures mat[|mat| / 2 - o + i][|mat| / 2 - o + j] == Delta(i, j)
      {
        assert CellOk(block, i, j);
      }
    }
  }

  /**
   * `max_identity_matrix`: tries size = |mat|, |mat| - 1, ..., 1 and answers the side of the
   * first centred block that is an identity. The IndexError of `create_sub_matrix` is not
   * caught and escapes; it can only come from the first, largest size.
   */
  method MaxIdentityMatrix(mat: seq<seq<int>>) returns (r: Result<nat>)
    ensures mat == [] ==> r == Success(0)
    ensures mat != [] && |mat| % 2 == 0 ==> r == Failure(EvenError)
    ensures mat != [] && |mat| % 2 == 1 && !Rectangular(mat) ==> r == Failure(RaggedError)
    ensures mat != [] && |mat| % 2 == 1 && Rectangular(mat) && |mat[0]| < |mat| ==>
      r == Failure(ListIndexError)
    ensures mat != [] && |mat| % 2 == 1 && Rectangular(mat) && |mat[0]| >= |mat| ==>
      r.Success? && LargestIdentityBlock(mat, r.value)
  {
    if mat == [] {
      return Success(0);
    }
    var maxSize := |mat|;
    var size := maxSize;
    while size > 0
      invariant 0 <= size <= maxSize
      invariant size < maxSize ==> |mat| % 2 == 1 && Rectangular(mat) && |mat[0]| >= |mat|
      invariant size < maxSize ==>
        forall o :: 0 <= o <= |mat| / 2 && 2 * o + 1 > size ==> !IdentityAt(mat, o)
    {
      var sub := CreateSubMatrix(mat, size);
      if sub.Failure? {
        return Failure(sub.error);
      }
      var o := size / 2;
      assert |mat| / 2 + o < |mat[0]|;
      BlockIdentity(mat, o, sub.value);
      var isIdentity := IdentityMatrix(sub.value);
      if sub.value != [] && isIdentity == Success(true) {
        return Success(|sub.value|);
      }
      size := size - 1;
    }
    return Success(0);
  }
}
