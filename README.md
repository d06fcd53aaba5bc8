# Open University Python exercises, modelled in Dafny

This project models five sets of Python course exercises and proves what their code computes.

- **mmn12** covers four routines:
  - trial-division primality and the selection rule of `max_prime`;
  - run-length `compression`;
  - the digit square sum;
  - the ten-step happy-number test and the count of happy numbers up to 100.
- **mmn13** covers list and matrix puzzles:
  - `complement`;
  - the circular `shift_k_right` and `shift_right_size`;
  - the `is_perfect` index walk;
  - `identity_matrix`, the centred `create_sub_matrix` and `max_identity_matrix`.

  It includes the students' tester, whose own `create_sub_matrix` checks its inputs in a different order and whose test functions give the expected results.
- **mmn14** covers recursive and two-pointer functions:
  - `find_max` on a rotated sorted list;
  - `find_pairs`;
  - `update_list`;
  - `equal_lists`;
  - list and string palindromes.
- **mmn15** covers an apartment class hierarchy and the aggregations over lists of apartments. The classes are `Apt`, `SpecialApt`, `GardenApt` and `RoofApt`. Each has a price formula and exact-type equality.
- **mmn16** covers helpers over a table of asteroid close approaches. They validate a frame, complete a file name with ".csv", keep the rows from 2000 on and drop unused columns. They also answer queries by magnitude, by miss distance, by orbit and by diameter.

Each source file is one module: `Mmn12`, `Mmn13`, `Mmn13Tester`, `Mmn14`, `Apartments`, `Mmn15` and `NasaAsteroidDs`. Two modules are shared:

- `Wrappers` holds Python's `None` next to a value (`Option`), a raised exception (`PyError`) and a value-or-exception (`Result`).
- `Builtins` holds `max` and `str(int)`.

**Modelling approach**

- **Loops.** A function of the source that loops over mutable locals is a `method` with a loop. It is proved against a specification function, and lemmas then state what that function means.
- **Pure code.** A recursive or slicing function is a Dafny function, and its meaning is proved in lemmas.
- **Apartments** are values. Their fields are set only by the constructors.
- **Asteroid tables.** An asteroid table is a list of column names plus rows, each a map from column to cell. The two helpers that change the caller's frame in place, `mask_data` and `data_details`, work on a `DataFrame` object and say what its new table is.

**Where the tester and the code disagree**

- The students' tester for mmn13 has a comment that expects `is_perfect([1, 2, 3, 4, 0])` to be False. The code returns True: its walk visits 0, 1, 2, 3 and 4 and then stops on reaching 0. The model follows the code (`Mmn13Tester.PerfectExampleCycle`).
- Another tester line labels its call `compression('xxxyyyzzz')` but compresses "x3y3z3". The model proves what that call returns.

## Model

| member | source | states |
|---|---|---|
| `Mmn12.IsPrime` | mmn12/mmn12.py:6-19 | returns True exactly when no d in [2, n) divides n; for n < 2 the range is empty and the answer is True |
| `Mmn12.NoDivisorBelowIsPrimality` | mmn12/mmn12.py:6-19 | for n >= 2, having no divisor in [2, n) is being prime (no divisor other than 1 and n); every n < 2 passes the test |
| `Mmn12.IsPrimeExamples` | mmn12/20606_mmn12_student_tester.py:10-11 | 7 passes and 10 fails the primality test |
| `Mmn12.PrimesIn` | mmn12/mmn12.py:36-37 | the collected values are exactly the inputs that pass `is_prime` |
| `Mmn12.MaxPrime` | mmn12/mmn12.py:22-39 | reading stops at the first value below 1 and answers the largest prime read before it, or 1 without one; input that ends with no stop value gives None |
| `Mmn12.LargestPrimeOrOneIsMaximal` | mmn12/mmn12.py:39 | the answer is a prime among the values and at least every prime among them, or 1 when there is no prime |
| `Mmn12.Compression` | mmn12/mmn12.py:42-68 | the result is the encoding of the maximal runs of s: each run of c of length L becomes c, followed by the decimal L when L > 1 |
| `Mmn12.RunsExpand` | mmn12/mmn12.py:55-68 | the runs of s spell s again |
| `Mmn12.RunsMaximal` | mmn12/mmn12.py:60 | the runs of s are maximal: non-empty, and neighbouring runs have different characters |
| `Mmn12.RunsUnique` | mmn12/mmn12.py:55-68 | any maximal list of runs that spells s is the list of runs of s, so the encoding is determined by s |
| `Mmn12.RunsAppendRun` | mmn12/mmn12.py:60-66 | appending a run of a new character to a string adds exactly that run |
| `Mmn12.RunsConcat` | mmn12/mmn12.py:60-66 | two strings that do not share a character at their seam have, together, the runs of the first followed by the runs of the second |
| `Mmn12.RunsOfRepeat` | mmn12/mmn12.py:60-61 | k copies of c form the single run (c, k) |
| `Mmn12.EncodeConcat` | mmn12/mmn12.py:63-65 | encoding is additive over lists of runs |
| `Mmn12.ScanFromEncodes` | mmn12/mmn12.py:58-66 | the loop from position i, with a run of count copies of s[i] open since start, appends exactly the encoding of s[start..] |
| `Mmn12.CompressionOfRepeatFree` | mmn12/mmn12.py:60-66 | a string with no two equal neighbours is its own compression |
| `Mmn12.CompressionExamples` | mmn12/20606_mmn12_student_tester.py:19 | "aabccceeeeedab" compresses to "a2bc3e5dab" |
| `Mmn12.CompressionRepeatFreeExamples` | mmn12/20606_mmn12_student_tester.py:20-21 | "abcde" and "x3y3z3" compress to themselves |
| `Mmn12.SumSquare` | mmn12/mmn12.py:71-86 | the loop returns the digit square sum of num, and 0 for num <= 0 |
| `Mmn12.DigitSquareSumOfString` | mmn12/mmn12.py:81-86 | the digit square sum is the sum of the squares of the decimal digits of n as written |
| `Mmn12.SumSquareExamples` | mmn12/20606_mmn12_student_tester.py:25-26 | 123 gives 14, 98 gives 145, and 0 gives 0 |
| `Mmn12.IsHappy` | mmn12/mmn12.py:89-109 | returns True exactly when some k in 0..9 makes the k-th iterate of the digit square sum equal 1; reaching 1 only on the tenth step answers False |
| `Mmn12.IterateNext` | mmn12/mmn12.py:105 | one more step applies the digit square sum once more |
| `Mmn12.IterateAdd` | mmn12/mmn12.py:104-106 | j + k steps are j steps and then k more |
| `Mmn12.IsHappyExamples` | mmn12/20606_mmn12_student_tester.py:29-30 | 19 is happy and 2 is not |
| `Mmn12.CycleClosed` | mmn12/mmn12.py:104-106 | the cycle 4, 16, 37, 58, 89, 145, 42, 20 is closed under the digit square sum |
| `Mmn12.StaysInCycle` | mmn12/mmn12.py:104-106 | from a value of that cycle every iterate stays in it |
| `Mmn12.CycleUnhappy` | mmn12/mmn12.py:103-109 | no value of that cycle ever reaches 1 |
| `Mmn12.UnhappyBack` | mmn12/mmn12.py:103-109 | a value other than 1 whose next value never reaches 1 never reaches 1 |
| `Mmn12.HappyBack` | mmn12/mmn12.py:103-109 | a value whose next value reaches 1 in j steps reaches 1 in j + 1 steps |
| `Mmn12.HappyCountUpTo100` | mmn12/mmn12.py:119-123 | exactly 20 of the numbers 1..100 are happy |
| `Mmn12.CountHappyNumbers` | mmn12/mmn12.py:112-123 | the loop counts the happy numbers in 1..100, which are 20 |
| `Mmn13.MissingBelowMeaning` | mmn13/mmn13.py:26-33 | the complement holds exactly the i in [1, m) absent from lst, in strictly ascending order |
| `Mmn13.Complement` | mmn13/mmn13.py:10-35 | the empty list gives the empty list; otherwise the nested loops give the values in [1, max(lst)) absent from lst |
| `Mmn13.SliceBound` | mmn13/mmn13.py:55 | a slice bound in [0, n] is itself and a negative one counts from the end, within [0, n] |
| `Mmn13.ShiftKRight` | mmn13/mmn13.py:38-55 | raises ValueError exactly when k < 0 or k > len(lst) |
| `Mmn13.ShiftKRightIsRotate` | mmn13/mmn13.py:55 | for 0 <= k <= len(lst) the result is the last k elements followed by the others |
| `Mmn13.RotatePreserves` | mmn13/mmn13.py:55 | the shift keeps the length and the multiset of elements |
| `Mmn13.RotateIndex` | mmn13/mmn13.py:55 | element i of the shifted list is element (i - k) mod n of the original |
| `Mmn13.RotateTrivial` | mmn13/mmn13.py:55 | shifting by 0 or by the length gives back the list |
| `Mmn13.RotateInverse` | mmn13/mmn13.py:55 | shifting by k and then by n - k gives back the list |
| `Mmn13.FirstShiftFromMeaning` | mmn13/mmn13.py:72-74 | the scan finds none exactly when no i in [from, len(b)) shifts b onto a, and otherwise finds the smallest such i |
| `Mmn13.ShiftSizeMeaning` | mmn13/mmn13.py:69-75 | the answer is 0 exactly when a is non-empty and equals b; it is "None" exactly when a or b is empty, or a != b and no i in 1..len(b)-1 shifts b onto a; a positive answer is the smallest such i |
| `Mmn13.ShiftRightSize` | mmn13/mmn13.py:58-75 | the early-exit loop answers the shift size defined above |
| `Mmn13.IsValid` | mmn13/mmn13.py:78-93 | an int is accepted exactly when it is an index of lst; otherwise it is an IndexError |
| `Mmn13.Trail` | mmn13/mmn13.py:116-118 | the marks after t steps are the first t values of the walk |
| `Mmn13.IsPerfect` | mmn13/mmn13.py:96-127 | the walk with its mark array ends as the outcome function says: True for the empty list, the coverage of the marks when it stops, IndexError for a value out of range, and divergence when it never stops |
| `Mmn13.WalkDivergesIffNeverStops` | mmn13/mmn13.py:116-121 | the outcome is divergence exactly when the list is non-empty and on every step the walk stays in range without meeting its stop condition |
| `Mmn13.OutcomeFromDiverges` | mmn13/mmn13.py:116-121 | the search from step t diverges exactly when no step from t to len(lst) raises or stops |
| `Mmn13.OutcomeFromReturns` | mmn13/mmn13.py:116-127 | a returned flag comes from the first step at which the walk stops and says whether every index was marked |
| `Mmn13.PerfectIsFullCycle` | mmn13/mmn13.py:109-127 | a non-empty list is perfect exactly when the walk first stops after len(lst) steps, having marked every index |
| `Mmn13.Pigeonhole` | mmn13/mmn13.py:116-121 | more than n values in [0, n) contain a repeat, which is why a walk that has not stopped after len(lst) steps never stops |
| `Mmn13.NeverStops` | mmn13/mmn13.py:116-121 | a walk that neither raises nor stops in its first len(lst) steps never does |
| `Mmn13.IdentityMatrix` | mmn13/mmn13.py:130-165 | the empty matrix is an identity and a non-square first row answers False; otherwise the answer is True exactly when every cell is 1 on the diagonal and 0 elsewhere, and a shorter later row raises IndexError |
| `Mmn13.CentredBlock` | mmn13/mmn13.py:195-204 | the nested loops build the centred block of side 2 * (size // 2) + 1, or raise IndexError when the block leaves the matrix |
| `Mmn13.CreateSubMatrix` | mmn13/mmn13.py:168-204 | the empty matrix gives []; an even row count raises, then ragged rows raise; otherwise the result is the centred block |
| `Mmn13.BlockIdentity` | mmn13/mmn13.py:145-165 | `identity_matrix` accepts a centred block exactly when the block's entries are those of an identity matrix |
| `Mmn13.LargestIdentityBlockUnique` | mmn13/mmn13.py:207-233 | at most one size is the largest centred identity block, so the answer is determined |
| `Mmn13.MaxIdentityMatrix` | mmn13/mmn13.py:207-233 | the empty matrix gives 0 and the errors of `create_sub_matrix` escape; otherwise the answer is 0 when no centred block is an identity, and else the odd side of the largest one |
| `Mmn13Tester.CreateSubMatrix` | mmn13/mmn13-students-tester/mmn13-students-tester.py:160-198 | ragged rows are reported before an even row count; otherwise the result is the same centred block |
| `Mmn13Tester.TestComplement` | mmn13/mmn13-students-tester/mmn13-students-tester.py:235-241 | the five complements are [2, 3, 6], [], [], [1, 3, 5] and [2..9] |
| `Mmn13Tester.ShiftKRightExamples` | mmn13/mmn13-students-tester/mmn13-students-tester.py:244-251 | shifting [1..5] by 3 and by 1 gives [3, 4, 5, 1, 2] and [5, 1, 2, 3, 4]; k = 5 on a list of two raises ValueError |
| `Mmn13Tester.TestShiftRightSize` | mmn13/mmn13-students-tester/mmn13-students-tester.py:254-266 | the five shift sizes are 4, None, 0, 3 and None |
| `Mmn13Tester.TestIsPerfect` | mmn13/mmn13-students-tester/mmn13-students-tester.py:269-274 | the first four walks give False, False, True and True |
| `Mmn13Tester.PerfectExampleCycle` | mmn13/mmn13-students-tester/mmn13-students-tester.py:274 | [1, 2, 3, 4, 0] is perfect, contrary to the comment beside it |
| `Mmn13Tester.PerfectExampleDiverges` | mmn13/mmn13.py:116-121 | the walk on [1, 2, 1] never stops |
| `Mmn13Tester.PerfectExampleRaises` | mmn13/mmn13.py:119 | the walk on [1, 5, 0] raises IndexError |
| `Mmn13Tester.TestIdentityMatrix` | mmn13/mmn13-students-tester/mmn13-students-tester.py:281-288 | the 5x5 identity matrix is accepted |
| `Mmn13Tester.TestCreateSubMatrix` | mmn13/mmn13-students-tester/mmn13-students-tester.py:299-312 | the 3x3 centre of the test matrix is the identity; the ragged matrix reports "Not all rows are equal"; an even matrix reports "The matrix must be odd" |
| `Mmn13Tester.TestMaxIdentityMatrix` | mmn13/mmn13-students-tester/mmn13-students-tester.py:315-337 | the 5x5 matrix with a stray corner 1 gives 3 and the 7x7 matrix with a 1 at [3][4] gives 1 |
| `Mmn14.FindMaxHelper` | mmn14/mmn14.py:24-46 | the helper answers a value exactly when start <= end |
| `Mmn14.HelperInRange` | mmn14/mmn14.py:24-46 | on a non-empty range the helper answers one of the range's elements |
| `Mmn14.HelperFindsPeak` | mmn14/mmn14.py:31-43 | on a range holding the peak of a rotated list, the halving keeps the half that holds it and ends there |
| `Mmn14.RotatedHasPeak` | mmn14/mmn14.py:10-13 | a list rotated at p has its peak just before p, cyclically, and it is the peak of the whole range |
| `Mmn14.PeakIsMaximum` | mmn14/mmn14.py:10-13 | no element of a rotated ascending list exceeds its peak |
| `Mmn14.FindMaxOfRotated` | mmn14/mmn14.py:6-51 | on a rotated list of strictly ascending ints, `find_max` returns an element that is at least every element |
| `Mmn14.FindMaxExample` | mmn14/mmn14.py:10-51 | [5, 6, 7, 1, 2, 3, 4] gives 7 and the empty list gives None |
| `Mmn14.FindPairs` | mmn14/mmn14.py:53-97 | lists shorter than 2 give 0; on a strictly sorted list the count is the number of index pairs a < b with lst[b] - lst[a] == k |
| `Mmn14.NoPartnerBeyond` | mmn14/mmn14.py:88-90 | when the difference overshoots k, i has no partner, so moving i misses nothing |
| `Mmn14.OnlyPartner` | mmn14/mmn14.py:91-95 | when the difference is k, j is the only partner of i |
| `Mmn14.NoPartnerAfterScan` | mmn14/mmn14.py:77 | once j passes the end, no remaining index has a partner |
| `Mmn14.FirstIndex` | mmn14/mmn14.py:122-133 | the first index of value, exactly when value occurs |
| `Mmn14.HelperRemovesFirst` | mmn14/mmn14.py:113-135 | from index i, with no match before it, the helper slices out the first match, or returns the list unchanged |
| `Mmn14.UpdateListRemovesFirst` | mmn14/mmn14.py:99-135 | an absent value leaves the list unchanged; a present one is removed at its first index and nowhere else |
| `Mmn14.UpdateListMeaning` | mmn14/mmn14.py:99-135 | the length drops by one exactly when value occurs, and one copy of value leaves the multiset |
| `Mmn14.EqualListsAsWrittenAcceptsEqual` | mmn14/mmn14.py:138-161 | the source's `equal_lists` accepts every pair of lists with equal multisets |
| `Mmn14.EqualListsAsWrittenCounterexample` | mmn14/mmn14.py:152-161 | the source's `equal_lists` also accepts [3, 1] against [1], whose multisets differ |
| `Mmn14.EqualListsIsMultisetEquality` | mmn14/mmn14.py:138-150 | the corrected `equal_lists` holds exactly when the two multisets are equal |
| `Mmn14.MirroredIsReverse` | mmn14/mmn14.py:179 | matching each element with its mirror image is equality with the reverse |
| `Mmn14.StringIsPalindromeMeaning` | mmn14/mmn14.py:186-199 | `string_is_palindrome(s)` holds exactly when s equals its reverse |
| `Mmn14.IsPalindromeMeaning` | mmn14/mmn14.py:163-184 | `is_palindrome(lst)` holds exactly when lst equals its reverse and every string in it is a palindrome |
| `Apartments.IsInstanceMeaning` | mmn15/mmn15.py:55-66 | `isinstance` holds exactly for the object's own class and its superclasses |
| `Apartments.GettersReturnArguments` | mmn15/apt.py:9-33 | each getter answers what the constructor was given |
| `Apartments.GardenAptFixed` | mmn15/garden_apt.py:9-18 | a garden apartment is on floor 0 and has no view |
| `Apartments.RoofAptHasView` | mmn15/roof_apt.py:12-22 | a rooftop apartment always has a view |
| `Apartments.AptPriceFormula` | mmn15/apt.py:55-62 | the price is area * 20000, plus floor * 5000 above floor 1 |
| `Apartments.NoFloorSurchargeIffLow` | mmn15/apt.py:61 | floors up to 1, and only those, carry no floor surcharge |
| `Apartments.SpecialAptPriceFormula` | mmn15/special_apt.py:51-58 | a special apartment costs the plain price, plus floor * 600 with a view |
| `Apartments.NoViewIsPlainPrice` | mmn15/special_apt.py:57-58 | without a view, a special apartment costs what a plain one does |
| `Apartments.GardenAptPrice` | mmn15/garden_apt.py:17 | a garden apartment costs area * 20000, whatever its garden |
| `Apartments.RoofAptPriceFormula` | mmn15/roof_apt.py:53-60 | a rooftop apartment costs a special apartment with a view, plus 40000, plus 30000 with a pool |
| `Apartments.PoolSurcharge` | mmn15/roof_apt.py:59-60 | a pool adds exactly 30000 |
| `Apartments.EqMethodNotImplemented` | mmn15/apt.py:43-44 | each `__eq__` returns NotImplemented exactly when the types differ |
| `Apartments.Equals` | mmn15/apt.py:35-45 | `a == b` holds exactly when b is an apartment of the same class with the same fields |
| `Apartments.EqualsReflexiveSymmetric` | mmn15/me_and_gpt_tests.py:66-68 | `==` is reflexive and symmetric among apartments |
| `Apartments.NeverEqualsOtherObject` | mmn15/me_and_gpt_tests.py:60-63 | an apartment never equals a non-apartment value |
| `Apartments.DifferentKindsNeverEqual` | mmn15/me_and_gpt_tests.py:52-57 | apartments of different classes are never equal, even with the same base fields |
| `Apartments.EqualsComparesFields` | mmn15/special_apt.py:30-41 | within a class, `==` compares exactly the fields that class's `__eq__` names, through the `super()` chain |
| `Apartments.EqualityTestCases` | mmn15/me_and_gpt_tests.py:7-63 | the outcome of every equality test in the course's tests |
| `Mmn15.AveragePrice` | mmn15/mmn15.py:9-24 | the running total over the count, or 0 for no apartments |
| `Mmn15.MeanPriceBounds` | mmn15/mmn15.py:23 | the average of a non-empty list lies between its lowest and highest price |
| `Mmn15.TotalPriceAppend` | mmn15/mmn15.py:18-19 | the total is additive over concatenation |
| `Mmn15.HowManyRooftop` | mmn15/mmn15.py:27-39 | the count is the number of positions holding a rooftop apartment with a pool |
| `Mmn15.PoolRoofCountBounds` | mmn15/mmn15.py:34-39 | the count is at most the length, and is the length when every apartment qualifies |
| `Mmn15.HowManyAptType` | mmn15/mmn15.py:42-66 | the four keys count the apartments of exactly each class, and the counts add up to the length |
| `Mmn15.FirstTopUnique` | mmn15/mmn15.py:80 | at most one position holds the first highest price, so the answer is determined |
| `Mmn15.TopPrice` | mmn15/mmn15.py:69-83 | None exactly when no price is above 0; otherwise the first apartment with the highest price |
| `Mmn15.OnlyValidApts` | mmn15/mmn15.py:86-99 | the qualifying apartments in order, or None when there are none |
| `Mmn15.ValidAptsMeaning` | mmn15/mmn15.py:94-98 | exactly the special-family apartments with a view priced above 1,000,000 are kept, so never a garden apartment |
| `Mmn15.ValidAptsAppend` | mmn15/mmn15.py:94-98 | the filter keeps order: it distributes over concatenation |
| `NasaAsteroidDs.MissingColumns` | mmn16/nasa_asteroid_ds.py:28 | the missing list holds exactly the required columns absent from the frame |
| `NasaAsteroidDs.ValidateDf` | mmn16/nasa_asteroid_ds.py:14-32 | valid exactly when the frame is not empty and has every required column; no list, or an empty one, checks emptiness only |
| `NasaAsteroidDs.ValidatedRowsHaveColumns` | mmn16/nasa_asteroid_ds.py:24-32 | after validation every row has a cell in each required column |
| `NasaAsteroidDs.EnsureCsvExtension` | mmn16/nasa_asteroid_ds.py:35-47 | the result ends with ".csv" in lower case; it is the input when that already ends with ".csv" in any case, and the input plus ".csv" otherwise |
| `NasaAsteroidDs.EnsureCsvIdempotent` | mmn16/nasa_asteroid_ds.py:45-47 | completing a name twice is completing it once |
| `NasaAsteroidDs.EnsureCsvUnchangedIff` | mmn16/nasa_asteroid_ds.py:45-47 | the name comes back unchanged exactly when it already ends with ".csv" |
| `NasaAsteroidDs.CoerceDate` | mmn16/nasa_asteroid_ds.py:97 | a cell becomes the day pandas reads it as, or NaT (a missing cell) when it reads as no day |
| `NasaAsteroidDs.CoerceDates` | mmn16/nasa_asteroid_ds.py:97 | the conversion keeps the columns and the number of rows |
| `NasaAsteroidDs.MaskData` | mmn16/nasa_asteroid_ds.py:78-111 | None, with the frame untouched, when validation fails; otherwise the caller's date column is converted in place, under the given reading of its cells, and the rows from 2000 on come back as a table, which may have no rows |
| `NasaAsteroidDs.RowsFrom2000Meaning` | mmn16/nasa_asteroid_ds.py:103-104 | exactly the rows with a known day from 2000-01-01 on are kept, and no more rows than there were |
| `NasaAsteroidDs.RowsFrom2000Append` | mmn16/nasa_asteroid_ds.py:103-104 | the filter keeps the original order |
| `NasaAsteroidDs.MaskKeepsDaysFrom2000` | mmn16/nasa_asteroid_ds.py:97-104 | a row is kept exactly when pandas reads its original date cell as a day from 2000-01-01 on; a cell read as NaT drops its row |
| `NasaAsteroidDs.Without` | mmn16/nasa_asteroid_ds.py:123 | the kept columns are exactly those not dropped, and no more than there were |
| `NasaAsteroidDs.DropColumns` | mmn16/nasa_asteroid_ds.py:123 | dropping keeps the row count and leaves the columns not dropped |
| `NasaAsteroidDs.WithoutAbsent` | mmn16/nasa_asteroid_ds.py:123 | dropping names that are not columns changes nothing |
| `NasaAsteroidDs.WithoutIdempotent` | mmn16/nasa_asteroid_ds.py:123 | dropping the same names again changes nothing |
| `NasaAsteroidDs.DataDetails` | mmn16/nasa_asteroid_ds.py:114-127 | None, with the frame untouched, for an empty frame; otherwise the three columns are dropped in place and the answer is the unchanged row count, the number of remaining columns and their names |
| `NasaAsteroidDs.IdxMax` | mmn16/nasa_asteroid_ds.py:142 | the first position of the largest value |
| `NasaAsteroidDs.IdxMin` | mmn16/nasa_asteroid_ds.py:160 | the first position of the smallest value |
| `NasaAsteroidDs.FirstMaxUnique` | mmn16/nasa_asteroid_ds.py:142 | the first position of the maximum is unique |
| `NasaAsteroidDs.MaxAbsoluteMagnitude` | mmn16/nasa_asteroid_ds.py:130-145 | None exactly when validation fails; otherwise the name and magnitude in the first row with the largest magnitude |
| `NasaAsteroidDs.ClosestToEarth` | mmn16/nasa_asteroid_ds.py:148-161 | None exactly when validation fails; otherwise the name in the first row with the smallest miss distance |
| `NasaAsteroidDs.ValueCounts` | mmn16/nasa_asteroid_ds.py:176 | one key per distinct value that is not missing, mapped to its number of occurrences; missing values get no key, as with `dropna=True` |
| `NasaAsteroidDs.CommonOrbit` | mmn16/nasa_asteroid_ds.py:164-177 | None exactly when validation fails; otherwise one key per orbit that is not missing, with the number of its rows |
| `NasaAsteroidDs.ValueCountsTotal` | mmn16/nasa_asteroid_ds.py:176 | the counts, over the distinct values that are not missing, add up to the number of values that are not missing |
| `NasaAsteroidDs.CommonOrbitTotal` | mmn16/nasa_asteroid_ds.py:176-177 | the orbit counts add up to the number of rows whose orbit is known |
| `NasaAsteroidDs.CountAboveMeaning` | mmn16/nasa_asteroid_ds.py:191-192 | the count is the number of positions with a value strictly above the mean |
| `NasaAsteroidDs.MinMaxDiameter` | mmn16/nasa_asteroid_ds.py:180-193 | None exactly when validation fails; otherwise the number of rows whose diameter is strictly above the column mean, which is at most the number of rows |
| `NasaAsteroidDs.MinAtMostMean` | mmn16/nasa_asteroid_ds.py:190 | in exact arithmetic, the smallest diameter is never above the mean |
| `NasaAsteroidDs.CountAboveMeanBelowLength` | mmn16/nasa_asteroid_ds.py:190-192 | in exact arithmetic, some asteroid is never above the mean, so the count is below the number of rows |
| `NasaAsteroidDs.CountAboveMeanOfEqual` | mmn16/nasa_asteroid_ds.py:190-192 | in exact arithmetic, when every diameter is equal, the count is 0 |
| `NasaAsteroidDs.MinMaxDiameterBelowRows` | mmn16/nasa_asteroid_ds.py:180-193 | in exact arithmetic, for a valid table the answer is below the number of rows |

## Left out

- Console I/O. `max_prime` reads with `input()`, which is modelled as a given sequence of the values typed. Input that ends before a stop value, where Python raises EOFError, answers None. `int()` parsing of the typed text is not modelled.
- The `print` diagnostics of every file, the tester's `print_result` and `main` plumbing, and the `__str__` methods. They only produce text on the console.
- The tester's own copies of `complement`, `shift_k_right`, `shift_right_size`, `is_perfect`, `identity_matrix` and `max_identity_matrix`. They are the same as those in mmn13/mmn13.py, so the tests are stated over the `Mmn13` definitions. Only its `create_sub_matrix` differs, and that one is `Mmn13Tester.CreateSubMatrix`.
- Dynamic type checks. Every value is a Dafny int, so these cannot arise:
  - `is_valid`'s and `identity_matrix`'s `isinstance` TypeError;
  - `max_identity_matrix`'s catch of TypeError.
- Mmn13.CreateSubMatrix and Mmn13Tester.CreateSubMatrix require size <= len(mat) once the matrix is odd and rectangular. A larger size makes Python index with negative numbers, which wrap around to the other side of the matrix. That is not modelled. `max_identity_matrix` only passes sizes up to len(mat).
- Mmn13.IsPerfect: the source's walk has no bound. The model stops after len(lst) steps and answers Diverges. `Mmn13.WalkDivergesIffNeverStops` proves that this is exactly the case where the source loops for ever.
- Python's "None" strings. For the sentinel `"None"` returned by `shift_right_size`, `find_max` and its helper, the model returns `None` of `Option`.
- Floating point. `average_price` and the diameter mean are computed on `real`. Mmn15.AveragePrice returns 0.0, not the int 0, for an empty list.
- `load_data`: file I/O and the mapping of pandas' reading errors.
- pandas, as far as it is not restated here:
  - A cell is a number, a text, a day (an integer yyyymmdd, ordered as the calendar) or missing (NaN, None or NaT).
  - The path where the conversion raises, and returns None, cannot arise under coercion and is left out.
  - Frames carry pandas' default index, so `idxmax`/`idxmin` are positions. The first position wins ties, as pandas does.
- NasaAsteroidDs.MaskData, NasaAsteroidDs.CoerceDates and NasaAsteroidDs.MaskKeepsDaysFrom2000 take pandas' reading of a date cell as a parameter, a `DateReading`. It gives the day pandas reads a cell as (a day cell, or a date string in the column's format), or no day, where `pd.to_datetime(errors='coerce')` writes NaT. NaT fails the comparison with 2000-01-01. The parsing rules themselves are not modelled: the date formats, the format pandas infers from the whole column, and numbers read as nanoseconds since 1970. Every proof holds for any such reading.
- NasaAsteroidDs.MinAtMostMean, NasaAsteroidDs.CountAboveMeanBelowLength, NasaAsteroidDs.CountAboveMeanOfEqual and NasaAsteroidDs.MinMaxDiameterBelowRows hold for exact arithmetic only. pandas computes the mean in float64, where they can fail. For the diameters [0.7, 0.7, 0.7] the float64 mean is 0.6999999999999998, so every row lies above it and the source answers 3, not 0.
- NasaAsteroidDs.MaxAbsoluteMagnitude, NasaAsteroidDs.ClosestToEarth and NasaAsteroidDs.MinMaxDiameter require their column to hold a number in every row once the frame is valid. pandas would skip NaN cells; the model does not cover NaN.
- NasaAsteroidDs.CommonOrbit states the keys and counts of `value_counts().to_dict()`, but not the order of the keys. pandas orders them by decreasing count, and a Dafny map has no order.
- `validate_df`'s `isinstance(df, pd.DataFrame)` check. Every argument is a table here.
- `str.lower` is modelled on ASCII letters only. Unicode case mapping is not modelled.
- Python's rule that a reflected `__eq__` of a subclass is tried first. Every `__eq__` returns NotImplemented for a different type, so the order cannot change an answer, and `Apartments.Equals` asks the left operand first.
- mask_data and data_details change the caller's frame in place. This is modelled by the `DataFrame` object whose table they replace; column aliases and views are not modelled.

## Findings

| source | as written | input that shows it | evidently intended | confidence | as-written member | corrected member |
|---|---|---|---|---|---|---|
| mmn14/mmn14.py:152-161 | `equal_lists` drops lst1[0] from lst2 with `update_list`, which leaves lst2 unchanged when lst1[0] is absent. The recursion then goes on as if it had matched | `equal_lists([3, 1], [1])`: 3 is not removed, then [1] matches [1], so True | True exactly when the two lists hold the same elements with the same counts, as its documentation says. A head missing from lst2 means False | not executed | `Mmn14.EqualListsAsWrittenCounterexample` | `Mmn14.EqualListsIsMultisetEquality` |
