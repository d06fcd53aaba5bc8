/**
 * Recursive and two-pointer list algorithms: the maximum of a rotated sorted list,
 * counting pairs at a fixed difference, removing the first occurrence of a value,
 * comparing lists as multisets, and palindromes of strings and of lists of strings.
 */
module Mmn14 {
  import opened Wrappers

  // ------------------------------------------------------------------
  // find_max
  // ------------------------------------------------------------------

  /** Python's `max` of two ints. */
  function Max(a: int, b: int): int {
    if a >= b then a else b
  }

  /**
   * `helper(lst, start, end)`: binary descent into the half whose larger boundary value
   * is larger; None (the string "None" in the source) for an empty range.
   */
  function FindMaxHelper(lst: seq<int>, start: nat, end: int): (r: Option<int>)
    requires end < |lst|
    ensures r.Some? <==> start <= end
    decreases end - start
  {
    if start <= end then
      if start == end then Some(lst[start])
      else
        var mid := (start + end) / 2;
        var left := Max(lst[start], lst[mid]);
        var right := Max(lst[mid + 1], lst[end]);
        if left > right then FindMaxHelper(lst, start, mid) else FindMaxHelper(lst, mid + 1, end)
    else None
  }

  /** On a non-empty range the helper answers one of the range's elements. */
  lemma {:induction false} HelperInRange(lst: seq<int>, start: nat, end: int)
    requires end < |lst|
    ensures FindMaxHelper(lst, start, end).Some? ==>
      exists i :: start <= i <= end && lst[i] == FindMaxHelper(lst, start, end).value
    decreases end - start
  {
    if start < end {
      var mid := (start + end) / 2;
      HelperInRange(lst, start, mid);
      HelperInRange(lst, mid + 1, end);
    }
  }

  /** `find_max`: None for the empty list, else the helper over the whole list. */
  function FindMax(lst: seq<int>): Option<int> {
    if lst != [] then FindMaxHelper(lst, 0, |lst| - 1) else None
  }

  /** lst[lo..hi] is strictly increasing. */
  predicate Ascending(lst: seq<int>, lo: int, hi: int)
    requires 0 <= lo && hi <= |lst|
  {
    forall i, j :: lo <= i < j < hi ==> lst[i] < lst[j]
  }

  /**
   * lst is a strictly increasing list rotated so that its smallest element sits at p:
   * both lst[p..] and lst[..p] increase, and when p > 0 the last element is below the first.
   */
  predicate RotatedAt(lst: seq<int>, p: nat) {
    p < |lst| && Ascending(lst, p, |lst|) && Ascending(lst, 0, p) &&
    (p > 0 ==> lst[|lst| - 1] < lst[0])
  }

  /**
   * The range [start, end] holds the peak q: it rises from start to q, rises again
   * from q + 1 to end, and everything after q is below everything up to q.
   */
  predicate PeakIn(lst: seq<int>, start: nat, end: nat, q: nat) {
    start <= q <= end < |lst| &&
    Ascending(lst, start, q + 1) && Ascending(lst, q + 1, end + 1) &&
    forall i, j :: start <= i <= q < j <= end ==> lst[j] < lst[i]
  }

  /** With the peak in the left half, the left boundary maximum wins and the left half holds the peak. */
  lemma PeakStepLeft(lst: seq<int>, start: nat, end: nat, q: nat, mid: nat)
    requires PeakIn(lst, start, end, q) && start <= mid < end && q <= mid
    ensures Max(lst[start], lst[mid]) > Max(lst[mid + 1], lst[end])
    ensures PeakIn(lst, start, mid, q)
  {
    assert lst[end] < lst[start];
    if mid + 1 < end {
      assert lst[mid + 1] < lst[end];
    }
  }

  /** With the peak in the right half, the right boundary maximum wins and the right half holds the peak. */
  lemma PeakStepRight(lst: seq<int>, start: nat, end: nat, q: nat, mid: nat)
    requires PeakIn(lst, start, end, q) && start <= mid < end && mid < q
    ensures Max(lst[start], lst[mid]) <= Max(lst[mid + 1], lst[end])
    ensures PeakIn(lst, mid + 1, end, q)
  {
    assert lst[mid] < lst[mid + 1];
    if start < mid {
      assert lst[start] < lst[mid];
    }
  }

  /** On a range holding a peak, the helper descends to the peak. */
  lemma {:induction false} HelperFindsPeak(lst: seq<int>, start: nat, end: nat, q: nat)
    requires PeakIn(lst, start, end, q)
    ensures FindMaxHelper(lst, start, end) == Some(lst[q])
    decreases end - start, 1
  {
    if start < end {
      if q <= (start + end) / 2 {
        HelperGoesLeft(lst, start, end, q);
      } else {
        HelperGoesRight(lst, start, end, q);
      }
    }
  }

  /** The helper keeps the left half of a range whose peak lies in it. */
  lemma {:induction false} HelperGoesLeft(lst: seq<int>, start: nat, end: nat, q: nat)
    requires PeakIn(lst, start, end, q) && start < end && q <= (start + end) / 2
    ensures FindMaxHelper(lst, start, end) == Some(lst[q])
    decreases end - start, 0
  {
    var mid := (start + end) / 2;
    PeakStepLeft(lst, start, end, q, mid);
    HelperFindsPeak(lst, start, mid, q);
  }

  /** The helper keeps the right half of a range whose peak lies in it. */
  lemma {:induction false} HelperGoesRight(lst: seq<int>, start: nat, end: nat, q: nat)
    requires PeakIn(lst, start, end, q) && start < end && (start + end) / 2 < q
    ensures FindMaxHelper(lst, start, end) == Some(lst[q])
    decreases end - start, 0
  {
    var mid := (start + end) / 2;
    PeakStepRight(lst, start, end, q, mid);
    HelperFindsPeak(lst, mid + 1, end, q);
  }

  /** The index of the largest element of a list rotated at p: just before p, cyclically. */
  function PeakOf(lst: seq<int>, p: nat): nat
    requires RotatedAt(lst, p)
  {
    if p == 0 then |lst| - 1 else p - 1
  }

  /** A list rotated at p has its peak at PeakOf(lst, p) over the whole range. */
  lemma RotatedHasPeak(lst: seq<int>, p: nat)
    requires RotatedAt(lst, p)
    ensures PeakIn(lst, 0, |lst| - 1, PeakOf(lst, p))
  {
    var n, q := |lst|, PeakOf(lst, p);
    if p > 0 {
      forall i, j | 0 <= i <= q < j <= n - 1
        ensures lst[j] < lst[i]
      {
        if j < n - 1 {
          assert lst[j] < lst[n - 1];
        }
        if 0 < i {
          assert lst[0] < lst[i];
        }
      }
    }
  }

  /** No element of a list rotated at p exceeds the one at PeakOf(lst, p). */
  lemma PeakIsMaximum(lst: seq<int>, p: nat)
    requires RotatedAt(lst, p)
    ensures forall x :: x in lst ==> x <= lst[PeakOf(lst, p)]
  {
    var n, q := |lst|, PeakOf(lst, p);
    forall x | x in lst
      ensures x <= lst[q]
    {
      var i :| 0 <= i < n && lst[i] == x;
      if p > 0 && p <= i < n - 1 {
        assert lst[i] < lst[n - 1];
      }
    }
  }

  /** On a rotated sorted list `find_max` returns an element no smaller than any other. */
  lemma FindMaxOfRotated(lst: seq<int>, p: nat)
    requires RotatedAt(lst, p)
    ensures FindMax(lst).Some? && FindMax(lst).value in lst
    ensures forall x :: x in lst ==> x <= FindMax(lst).value
  {
    var q := PeakOf(lst, p);
    assert FindMax(lst) == Some(lst[q]) by {
      RotatedHasPeak(lst, p);
      HelperFindsPeak(lst, 0, |lst| - 1, q);
    }
    PeakIsMaximum(lst, p);
  }

  /** The documented example: [5, 6, 7, 1, 2, 3, 4] is [1, ..., 7] rotated, and its maximum is 7. */
  lemma FindMaxExample()
    ensures FindMax([5, 6, 7, 1, 2, 3, 4]) == Some(7)
    ensures FindMax([]) == None
  {
    var lst := [5, 6, 7, 1, 2, 3, 4];
    assert RotatedAt(lst, 3);
    FindMaxOfRotated(lst, 3);
    assert 7 in lst;
  }

  // ------------------------------------------------------------------
  // find_pairs
  // ------------------------------------------------------------------

  /** Every element is smaller than the next ones (sorted, no repetitions). */
  predicate StrictlySorted(lst: seq<int>) {
    forall i, j :: 0 <= i < j < |lst| ==> lst[i] < lst[j]
  }

  /** The number of indices b in [from, |lst|) with lst[b] - lst[a] == k. */
  function PartnersOf(lst: seq<int>, k: int, a: nat, from: nat): nat
    requires a < |lst|
    decreases |lst| - from
  {
    if from >= |lst| then 0
    else (if lst[from] - lst[a] == k then 1 else 0) + PartnersOf(lst, k, a, from + 1)
  }

  /** The number of partners of a after a. */
  function LaterPartners(lst: seq<int>, k: int, a: nat): nat
    requires a < |lst|
  {
    PartnersOf(lst, k, a, a + 1)
  }

  /** The number of index pairs a < b with a below m and lst[b] - lst[a] == k. */
  function PairsBelow(lst: seq<int>, k: int, m: nat): nat
    requires m <= |lst|
  {
    if m == 0 then 0 else PairsBelow(lst, k, m - 1) + LaterPartners(lst, k, m - 1)
  }

  /** The number of index pairs a < b with lst[b] - lst[a] == k. */
  function PairCount(lst: seq<int>, k: int): nat {
    PairsBelow(lst, k, |lst|)
  }

  /** No b at or after from is a partner of a. */
  lemma {:induction false} PartnersNone(lst: seq<int>, k: int, a: nat, from: nat)
    requires a < |lst|
    requires forall b :: from <= b < |lst| ==> lst[b] - lst[a] != k
    ensures PartnersOf(lst, k, a, from) == 0
    decreases |lst| - from
  {
    if from < |lst| {
      PartnersNone(lst, k, a, from + 1);
    }
  }

  /** b is the only partner of a at or after from. */
  lemma {:induction false} PartnersOne(lst: seq<int>, k: int, a: nat, from: nat, b: nat)
    requires a < |lst| && from <= b < |lst| && lst[b] - lst[a] == k
    requires forall c :: from <= c < |lst| && c != b ==> lst[c] - lst[a] != k
    ensures PartnersOf(lst, k, a, from) == 1
    decreases |lst| - from
  {
    if from < b {
      PartnersOne(lst, k, a, from + 1, b);
    } else {
      PartnersNone(lst, k, a, from + 1);
    }
  }

  /**
   * The two-pointer scan: j moves right while the difference is too small, i moves right
   * while it is too large, and a match moves both. On a strictly sorted list it counts
   * every pair at difference k.
   */
  method FindPairs(lst: seq<int>, k: int) returns (count: nat)
    ensures |lst| < 2 ==> count == 0
    ensures StrictlySorted(lst) ==> count == PairCount(lst, k)
  {
    count := 0;
    var i, j := 0, 1;
    var n := |lst|;
    while j < n
      invariant 0 <= i <= j <= n || (n == 0 && i == 0 && j == 1)
      invariant StrictlySorted(lst) && n > 0 ==> count == PairsBelow(lst, k, i)
      invariant StrictlySorted(lst) ==> forall b :: i < b < j && b < n ==> lst[b] - lst[i] < k
      invariant n < 2 ==> count == 0
      decreases 2 * n - i - j
    {
      if i == j {
        j := j + 1;
        continue;
      }
      var diff := lst[j] - lst[i];
      if diff < k {
        j := j + 1;
      } else if diff > k {
        if StrictlySorted(lst) {
          NoPartnerBeyond(lst, k, i, j);
        }
        i := i + 1;
      } else {
        if StrictlySorted(lst) {
          OnlyPartner(lst, k, i, j);
        }
        count := count + 1;
        i := i + 1;
        j := j + 1;
      }
    }
    if StrictlySorted(lst) && n > 0 {
      forall a | i <= a < n
        ensures LaterPartners(lst, k, a) == 0
      {
        NoPartnerAfterScan(lst, k, i, a);
      }
      PairsAbove(lst, k, i);
    }
  }

  /** When lst[j] - lst[i] exceeds k, i has no partner: the indices before j fall short, the rest overshoot. */
  lemma NoPartnerBeyond(lst: seq<int>, k: int, i: nat, j: nat)
    requires StrictlySorted(lst) && i < j < |lst| && lst[j] - lst[i] > k
    requires forall b :: i < b < j ==> lst[b] - lst[i] < k
    ensures LaterPartners(lst, k, i) == 0
  {
    assert forall b :: j < b < |lst| ==> lst[j] < lst[b];
    PartnersNone(lst, k, i, i + 1);
  }

  /** When lst[j] - lst[i] is k, j is the only partner of i, the list being strictly sorted. */
  lemma OnlyPartner(lst: seq<int>, k: int, i: nat, j: nat)
    requires StrictlySorted(lst) && i < j < |lst| && lst[j] - lst[i] == k
    ensures LaterPartners(lst, k, i) == 1
  {
    assert forall c :: i + 1 <= c < |lst| && c != j ==> lst[c] != lst[j];
    PartnersOne(lst, k, i, i + 1, j);
  }

  /** Once j has passed the end, every a from i on falls short with every later index. */
  lemma NoPartnerAfterScan(lst: seq<int>, k: int, i: nat, a: nat)
    requires StrictlySorted(lst) && i <= a < |lst|
    requires forall b :: i < b < |lst| ==> lst[b] - lst[i] < k
    ensures LaterPartners(lst, k, a) == 0
  {
    assert forall b :: a < b < |lst| ==> lst[i] <= lst[a] && lst[b] - lst[i] < k;
    PartnersNone(lst, k, a, a + 1);
  }

  /** Indices from m on without partners contribute nothing. */
  lemma {:induction false} PairsAbove(lst: seq<int>, k: int, m: nat)
    requires m <= |lst|
    requires forall a :: m <= a < |lst| ==> LaterPartners(lst, k, a) == 0
    ensures PairCount(lst, k) == PairsBelow(lst, k, m)
  {
    var t := |lst|;
    while t > m
      invariant m <= t <= |lst|
      invariant PairCount(lst, k) == PairsBelow(lst, k, t)
    {
      t := t - 1;
    }
  }

  // ------------------------------------------------------------------
  // update_list and equal_lists
  // ------------------------------------------------------------------

  /** `update_list_helper`: searches from index i and slices out the first match. */
  function UpdateListHelper(lst: seq<int>, value: int, i: nat): seq<int>
    requires lst != [] ==> i < |lst|
    decreases |lst| - i
  {
    if lst != [] then
      if lst[i] == value then lst[..i] + lst[i + 1..]
      else if i + 1 >= |lst| then lst
      else UpdateListHelper(lst, value, i + 1)
    else lst
  }

  /** `update_list`: the helper from index 0. */
  function UpdateList(lst: seq<int>, value: int): seq<int> {
    UpdateListHelper(lst, value, 0)
  }

  /** The first index of value in lst, if any. */
  function FirstIndex(lst: seq<int>, value: int): (r: Option<nat>)
    ensures r.None? <==> value !in lst
    ensures r.Some? ==> r.value < |lst| && lst[r.value] == value && value !in lst[..r.value]
  {
    if lst == [] then None
    else if lst[0] == value then Some(0)
    else
      var rest := FirstIndex(lst[1..], value);
      assert lst == [lst[0]] + lst[1..];
      if rest.None? then None
      else
        assert lst[..rest.value + 1] == [lst[0]] + lst[1..][..rest.value];
        Some(rest.value + 1)
  }

  /** From index i, with no match before i, the helper removes the first match. */
  lemma {:induction false} HelperRemovesFirst(lst: seq<int>, value: int, i: nat)
    requires i <= |lst| && (lst != [] ==> i < |lst|)
    requires value !in lst[..i]
    ensures UpdateListHelper(lst, value, i) ==
      (if value in lst then
         var f := FirstIndex(lst, value).value; lst[..f] + lst[f + 1..]
       else lst)
    decreases |lst| - i
  {
    if lst != [] {
      if lst[i] == value {
      } else if i + 1 >= |lst| {
        assert lst[..i + 1] == lst;
        assert value !in lst by {
          assert lst == lst[..i] + [lst[i]];
        }
      } else {
        assert lst[..i + 1] == lst[..i] + [lst[i]];
        HelperRemovesFirst(lst, value, i + 1);
      }
    }
  }

  /** `update_list` removes exactly the first occurrence of value, and leaves the list alone when value is absent. */
  lemma UpdateListRemovesFirst(lst: seq<int>, value: int)
    ensures value !in lst ==> UpdateList(lst, value) == lst
    ensures value in lst ==>
      var f := FirstIndex(lst, value).value;
      UpdateList(lst, value) == lst[..f] + lst[f + 1..]
  {
    HelperRemovesFirst(lst, value, 0);
  }

  /** The length drops by one exactly when value occurs, and one copy of value leaves the multiset. */
  lemma UpdateListMeaning(lst: seq<int>, value: int)
    ensures |UpdateList(lst, value)| == if value in lst then |lst| - 1 else |lst|
    ensures multiset(UpdateList(lst, value)) == multiset(lst) - multiset{value}
  {
    UpdateListRemovesFirst(lst, value);
    if value in lst {
      var f := FirstIndex(lst, value).value;
      var r := lst[..f] + lst[f + 1..];
      assert lst == lst[..f] + [value] + lst[f + 1..];
      assert multiset(lst) == multiset(r) + multiset{value};
    } else {
      assert multiset(lst)[value] == 0;
    }
  }

  /**
   * `equal_lists` as the source writes it: each head of lst1 is removed from lst2 when
   * present, but a head that lst2 lacks is skipped instead of rejected.
   */
  function EqualListsAsWritten(lst1: seq<int>, lst2: seq<int>): bool
    decreases |lst1|
  {
    if lst1 == [] && lst2 == [] then true
    else if lst1 == [] || lst2 == [] then false
    else EqualListsAsWritten(lst1[1..], UpdateList(lst2, lst1[0]))
  }

  /** The source's version accepts every pair of lists with equal multisets. */
  lemma {:induction false} EqualListsAsWrittenAcceptsEqual(lst1: seq<int>, lst2: seq<int>)
    requires multiset(lst1) == multiset(lst2)
    ensures EqualListsAsWritten(lst1, lst2)
    decreases |lst1|
  {
    if lst1 != [] {
      assert lst1[0] in multiset(lst2);
      UpdateListMeaning(lst2, lst1[0]);
      assert lst1 == [lst1[0]] + lst1[1..];
      EqualListsAsWrittenAcceptsEqual(lst1[1..], UpdateList(lst2, lst1[0]));
    }
  }

  /** The source's version also accepts [3, 1] against [1], whose multisets differ. */
  lemma EqualListsAsWrittenCounterexample()
    ensures EqualListsAsWritten([3, 1], [1])
    ensures multiset([3, 1]) != multiset([1])
  {
    assert UpdateList([1], 3) == [1];
    assert UpdateList([1], 1) == [];
    assert [3, 1][1..] == [1];
    assert [1][1..] == [];
    assert multiset([3, 1])[3] == 1;
  }

  /** `equal_lists` as its documentation intends: a head of lst1 that lst2 lacks means False. */
  function EqualLists(lst1: seq<int>, lst2: seq<int>): bool
    decreases |lst1|
  {
    if lst1 == [] && lst2 == [] then true
    else if lst1 == [] || lst2 == [] then false
    else if lst1[0] !in lst2 then false
    else EqualLists(lst1[1..], UpdateList(lst2, lst1[0]))
  }

  /** The corrected `equal_lists` is exactly multiset equality. */
  lemma {:induction false} EqualListsIsMultisetEquality(lst1: seq<int>, lst2: seq<int>)
    ensures EqualLists(lst1, lst2) <==> multiset(lst1) == multiset(lst2)
    decreases |lst1|
  {
    if lst1 == [] {
      if lst2 != [] {
        assert lst2[0] in multiset(lst2);
      }
    } else if lst2 == [] {
      assert lst1[0] in multiset(lst1);
    } else {
      var h := lst1[0];
      assert lst1 == [h] + lst1[1..];
      if h !in lst2 {
        assert h in multiset(lst1) && h !in multiset(lst2);
      } else {
        UpdateListMeaning(lst2, h);
        EqualListsIsMultisetEquality(lst1[1..], UpdateList(lst2, h));
        assert multiset(lst2) == multiset(UpdateList(lst2, h)) + multiset{h};
      }
    }
  }

  // ------------------------------------------------------------------
  // is_palindrome and string_is_palindrome
  // ------------------------------------------------------------------

  /** The sequence read backwards. */
  function Reverse<T>(s: seq<T>): (r: seq<T>)
    ensures |r| == |s|
    ensures forall i :: 0 <= i < |s| ==> r[i] == s[|s| - 1 - i]
  {
    if s == [] then [] else Reverse(s[1..]) + [s[0]]
  }

  /** `string_is_palindrome`: compares the outer characters and recurses inward. */
  function StringIsPalindrome(s: string): bool
    decreases |s|
  {
    if |s| <= 1 then true
    else if s[0] != s[|s| - 1] then false
    else StringIsPalindrome(s[1..|s| - 1])
  }

  /**
   * `is_palindrome`: the outer strings must be equal and the first a palindrome; a
   * middle string left alone must be a palindrome itself.
   */
  function IsPalindrome(lst: seq<string>): bool
    decreases |lst|
  {
    if |lst| <= 1 then
      if lst != [] && !StringIsPalindrome(lst[0]) then false else true
    else if lst[0] != lst[|lst| - 1] || !StringIsPalindrome(lst[0]) then false
    else IsPalindrome(lst[1..|lst| - 1])
  }

  /** Each element equals its mirror image across the middle. */
  predicate Mirrored<T(==)>(s: seq<T>) {
    forall i :: 0 <= i < |s| ==> s[i] == s[|s| - 1 - i]
  }

  /** Being mirrored is being equal to the reverse. */
  lemma MirroredIsReverse<T>(s: seq<T>)
    ensures Mirrored(s) <==> s == Reverse(s)
  {
    if Mirrored(s) {
      assert forall i :: 0 <= i < |s| ==> s[i] == Reverse(s)[i];
    }
  }

  /** A sequence is mirrored exactly when its outer elements agree and its inside is mirrored. */
  lemma MirroredOuter<T>(s: seq<T>)
    requires |s| >= 2
    ensures Mirrored(s) <==> s[0] == s[|s| - 1] && Mirrored(s[1..|s| - 1])
  {
    var n := |s|;
    var inner := s[1..n - 1];
    assert forall i :: 0 <= i < n - 2 ==> inner[i] == s[i + 1];
    if s[0] == s[n - 1] && Mirrored(inner) {
      forall i | 0 < i < n - 1
        ensures s[i] == s[n - 1 - i]
      {
        assert inner[i - 1] == inner[n - 3 - (i - 1)];
      }
    }
  }

  /** A sequence equals its reverse exactly when its outer elements agree and its inside does too. */
  lemma ReverseOuter<T>(s: seq<T>)
    requires |s| >= 2
    ensures s == Reverse(s) <==> s[0] == s[|s| - 1] && s[1..|s| - 1] == Reverse(s[1..|s| - 1])
  {
    MirroredOuter(s);
    MirroredIsReverse(s);
    MirroredIsReverse(s[1..|s| - 1]);
  }

  /** `string_is_palindrome(s)` holds exactly when s reads the same backwards. */
  lemma {:induction false} StringIsPalindromeMeaning(s: string)
    ensures StringIsPalindrome(s) <==> s == Reverse(s)
    decreases |s|
  {
    if |s| >= 2 {
      ReverseOuter(s);
      StringIsPalindromeMeaning(s[1..|s| - 1]);
    } else if |s| == 1 {
      assert Reverse(s)[0] == s[0];
    }
  }

  /** `is_palindrome(lst)` holds exactly when lst reads the same backwards and each of its strings does. */
  lemma {:induction false} IsPalindromeMeaning(lst: seq<string>)
    ensures IsPalindrome(lst) <==>
      lst == Reverse(lst) && forall i :: 0 <= i < |lst| ==> lst[i] == Reverse(lst[i])
    decreases |lst|
  {
    if |lst| >= 2 {
      var n := |lst|;
      var inner := lst[1..n - 1];
      ReverseOuter(lst);
      IsPalindromeMeaning(inner);
      StringIsPalindromeMeaning(lst[0]);
      forall i | 0 < i < n - 1
        ensures lst[i] == inner[i - 1]
      {
      }
    } else if |lst| == 1 {
      StringIsPalindromeMeaning(lst[0]);
      assert Reverse(lst)[0] == lst[0];
    }
  }
}
