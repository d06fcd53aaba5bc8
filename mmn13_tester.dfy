/**
 * The students' tester for the list and matrix puzzles. Its copies of the puzzles are the
 * same as Mmn13's except for `create_sub_matrix`, which checks the row lengths before the
 * row count; the test functions become methods whose postconditions are the expected
 * printed results.
 */
module Mmn13Tester {
  import opened Wrappers
  import opened Builtins
  import opened Mmn13

  /** The tester's message for rows of different lengths. */
  const UnequalRowsError := IndexError("Not all rows are equal")

  /** The tester's `create_sub_matrix`: the equal-length check first, then the odd-row check. */
  method CreateSubMatrix(mat: seq<seq<int>>, size: int) returns (r: Result<seq<seq<int>>>)
    requires mat != [] && |mat| % 2 == 1 && Rectangular(mat) ==> size <= |mat|
    ensures mat == [] ==> r == Success([])
    ensures mat != [] && !Rectangular(mat) ==> r == Failure(UnequalRowsError)
    ensures mat != [] && Rectangular(mat) && |mat| % 2 == 0 ==> r == Failure(EvenError)
    ensures mat != [] && Rectangular(mat) && |mat| % 2 == 1 ==> CentredOutcome(mat, size, r)
  {
    if mat == [] {
      return Success([]);
    }
    var rowLength := |mat[0]|;
    for k := 0 to |mat|
      invariant forall i :: 0 <= i < k ==> |mat[i]| == rowLength
    {
      if |mat[k]| != rowLength {
        return Failure(UnequalRowsError);
      }
    }
    if |mat| % 2 == 0 {
      return Failure(EvenError);
    }
    r := CentredBlock(mat, size);
  }

  lemma MissingBelow1()
    ensures MissingBelow([9, 8, 7, 5, 4, 1], 9) == [2, 3, 6]
  {
  }

  /** Test 1 of `test_complement`: three values missing below the maximum 9. */
  lemma ComplementExample1()
    ensures MissingBelow([9, 8, 7, 5, 4, 1], MaxOf([9, 8, 7, 5, 4, 1])) == [2, 3, 6]
  {
    MaxOfIs([9, 8, 7, 5, 4, 1], 9);
    MissingBelow1();
  }

  lemma MissingBelow2()
    ensures MissingBelow([1, 4, 2, 3], 4) == []
  {
  }

  /** Test 2 of `test_complement`: nothing missing below the maximum 4. */
  lemma ComplementExample2()
    ensures MissingBelow([1, 4, 2, 3], MaxOf([1, 4, 2, 3])) == []
  {
    MaxOfIs([1, 4, 2, 3], 4);
    MissingBelow2();
  }

  lemma MissingBelow4()
    ensures MissingBelow([2, 4, 6], 6) == [1, 3, 5]
  {
  }

  /** Test 4 of `test_complement`: the odd values below the maximum 6. */
  lemma ComplementExample4()
    ensures MissingBelow([2, 4, 6], MaxOf([2, 4, 6])) == [1, 3, 5]
  {
    MaxOfIs([2, 4, 6], 6);
    MissingBelow4();
  }

  lemma MissingBelow5()
    ensures MissingBelow([10, 1], 10) == [2, 3, 4, 5, 6, 7, 8, 9]
  {
  }

  /** Test 5 of `test_complement`: everything strictly between 1 and the maximum 10. */
  lemma ComplementExample5()
    ensures MissingBelow([10, 1], MaxOf([10, 1])) == [2, 3, 4, 5, 6, 7, 8, 9]
  {
    MaxOfIs([10, 1], 10);
    MissingBelow5();
  }

  /** `test_shift_k_right`: two rotations and a k past the end. */
  lemma ShiftKRightExamples()
    ensures ShiftKRight([1, 2, 3, 4, 5], 3) == Success([3, 4, 5, 1, 2])
    ensures ShiftKRight([1, 2, 3, 4, 5], 1) == Success([5, 1, 2, 3, 4])
    ensures ShiftKRight([1, 2], 5) == Failure(ValueError("k must be between 0 and lst length!"))
  {
    var lst := [1, 2, 3, 4, 5];
    ShiftKRightIsRotate(lst, 3);
    assert Rotate(lst, 3) == [3, 4, 5, 1, 2];
    ShiftKRightIsRotate(lst, 1);
    assert Rotate(lst, 1) == [5, 1, 2, 3, 4];
  }

  /** Test 1 of `test_shift_right_size`: b shifted right 4 times is a. */
  lemma ShiftSizeExample1()
    ensures ShiftSize([4, -1, 9, 7, 11, 2], [11, 2, 4, -1, 9, 7]) == Some(4)
  {
    var b := [11, 2, 4, -1, 9, 7];
    ShiftKRightIsRotate(b, 1);
    assert Rotate(b, 1) == [7, 11, 2, 4, -1, 9];
    ShiftKRightIsRotate(b, 2);
    assert Rotate(b, 2) == [9, 7, 11, 2, 4, -1];
    ShiftKRightIsRotate(b, 3);
    assert Rotate(b, 3) == [-1, 9, 7, 11, 2, 4];
    ShiftKRightIsRotate(b, 4);
    assert Rotate(b, 4) == [4, -1, 9, 7, 11, 2];
  }

  /** Test 2 of `test_shift_right_size`: no shift of b is a. */
  lemma ShiftSizeExample2()
    ensures ShiftSize([4, -1, 9, 7, 11, 2], [4, -1, 7, 9, 11, 2]) == None
  {
    var b := [4, -1, 7, 9, 11, 2];
    ShiftKRightIsRotate(b, 1);
    assert Rotate(b, 1) == [2, 4, -1, 7, 9, 11];
    ShiftKRightIsRotate(b, 2);
    assert Rotate(b, 2) == [11, 2, 4, -1, 7, 9];
    ShiftKRightIsRotate(b, 3);
    assert Rotate(b, 3) == [9, 11, 2, 4, -1, 7];
    ShiftKRightIsRotate(b, 4);
    assert Rotate(b, 4) == [7, 9, 11, 2, 4, -1];
    ShiftKRightIsRotate(b, 5);
    assert Rotate(b, 5) == [-1, 7, 9, 11, 2, 4];
  }

  /** Test 3 of `test_shift_right_size`: equal lists. */
  lemma ShiftSizeExample3()
    ensures ShiftSize([1, 2, 3, 4, 5], [1, 2, 3, 4, 5]) == Some(0)
  {
  }

  /** Test 4 of `test_shift_right_size`: b shifted right 3 times is a. */
  lemma ShiftSizeExample4()
    ensures ShiftSize([1, 2, 3, 4, 5], [4, 5, 1, 2, 3]) == Some(3)
  {
    var b := [4, 5, 1, 2, 3];
    ShiftKRightIsRotate(b, 1);
    assert Rotate(b, 1) == [3, 4, 5, 1, 2];
    ShiftKRightIsRotate(b, 2);
    assert Rotate(b, 2) == [2, 3, 4, 5, 1];
    ShiftKRightIsRotate(b, 3);
    assert Rotate(b, 3) == [1, 2, 3, 4, 5];
  }

  /** Test 5 of `test_shift_right_size`: a swap is no shift. */
  lemma ShiftSizeExample5()
    ensures ShiftSize([1, 2, 3, 4, 5], [1, 2, 3, 5, 4]) == None
  {
    var b := [1, 2, 3, 5, 4];
    ShiftKRightIsRotate(b, 1);
    assert Rotate(b, 1) == [4, 1, 2, 3, 5];
    ShiftKRightIsRotate(b, 2);
    assert Rotate(b, 2) == [5, 4, 1, 2, 3];
    ShiftKRightIsRotate(b, 3);
    assert Rotate(b, 3) == [3, 5, 4, 1, 2];
    ShiftKRightIsRotate(b, 4);
    assert Rotate(b, 4) == [2, 3, 5, 4, 1];
  }

  /** Test 1 of `test_is_perfect`: the walk stops at the fixed point 2 after one step. */
  lemma PerfectExample1()
    ensures PerfectOutcomeOf([2, 3, 2, 3, 0]) == Returns(false)
  {
    var lst := [2, 3, 2, 3, 0];
    assert Walk(lst, 1) == 2;
    assert StopsAt(lst, 1);
    assert !Covers(lst, 1) by {
      assert Trail(lst, 1) == [0];
      assert 1 !in Trail(lst, 1);
    }
  }

  /** Test 2 of `test_is_perfect`: the walk again stops at the fixed point 2 after one step. */
  lemma PerfectExample2()
    ensures PerfectOutcomeOf([2, 3, 2, 1, 0]) == Returns(false)
  {
    var lst := [2, 3, 2, 1, 0];
    assert Walk(lst, 1) == 2;
    assert StopsAt(lst, 1);
    assert !Covers(lst, 1) by {
      assert Trail(lst, 1) == [0];
      assert 1 !in Trail(lst, 1);
    }
  }

  /** Test 3 of `test_is_perfect`: the empty list is perfect. */
  lemma PerfectExampleEmpty()
    ensures PerfectOutcomeOf([]) == Returns(true)
  {
  }

  /**
   * Test 4 of `test_is_perfect`: the walk 0, 1, 2, 3, 4, 0 visits every index, so the code
   * answers True where the tester's comment expects False.
   */
  lemma PerfectExampleCycle()
    ensures PerfectOutcomeOf([1, 2, 3, 4, 0]) == Returns(true)
  {
  }

  /** A walk that never returns to 0: 0, 1, 2, 1, 2, ... */
  lemma PerfectExampleDiverges()
    ensures PerfectOutcomeOf([1, 2, 1]) == Diverges
  {
  }

  /** A walk that leaves the list raises IndexError. */
  lemma PerfectExampleRaises()
    ensures PerfectOutcomeOf([1, 5, 0]).Raises?
  {
  }

  /** The 5 x 5 identity matrix. */
  const Identity5: seq<seq<int>> :=
    [[1, 0, 0, 0, 0], [0, 1, 0, 0, 0], [0, 0, 1, 0, 0], [0, 0, 0, 1, 0], [0, 0, 0, 0, 1]]

  /** A 5 x 5 matrix whose centred 3 x 3 block is an identity but which is not one itself. */
  const Corner5: seq<seq<int>> :=
    [[1, 0, 0, 0, 0], [0, 1, 0, 0, 0], [0, 0, 1, 0, 0], [0, 0, 0, 1, 0], [1, 0, 0, 0, 1]]

  /** A 7 x 7 matrix whose only identity centred block is its centre cell. */
  const Centre7: seq<seq<int>> :=
    [[1, 0, 0, 0, 0, 0, 0], [0, 1, 0, 0, 0, 0, 0], [0, 0, 1, 0, 0, 0, 0], [0, 0, 0, 1, 1, 0, 0],
     [0, 0, 0, 0, 1, 0, 0], [0, 0, 0, 0, 0, 1, 0], [0, 0, 0, 0, 0, 0, 1]]

  /** `test_identity_matrix` without the float case: every cell of Identity5 is right. */
  lemma IdentityExample()
    ensures RowsOk(Identity5, 5, 5)
  {
  }

  /** The centred 3 x 3 block of Corner5 that `test_create_sub_matrix` prints. */
  lemma Corner5Block(b: seq<seq<int>>)
    requires IsBlock(Corner5, 1, 3, b)
    ensures b == [[1, 0, 0], [0, 1, 0], [0, 0, 1]]
  {
    assert b[0] == [1, 0, 0] by {
      assert b[0][0] == Corner5[1][1] && b[0][1] == Corner5[1][2] && b[0][2] == Corner5[1][3];
    }
    assert b[1] == [0, 1, 0] by {
      assert b[1][0] == Corner5[2][1] && b[1][1] == Corner5[2][2] && b[1][2] == Corner5[2][3];
    }
    assert b[2] == [0, 0, 1] by {
      assert b[2][0] == Corner5[3][1] && b[2][1] == Corner5[3][2] && b[2][2] == Corner5[3][3];
    }
  }

  /**
   * `test_create_sub_matrix`, and the same ragged matrix given to Mmn13's copy, which
   * reports the even row count first.
   */
  method TestCreateSubMatrix() returns (r1: Result<seq<seq<int>>>, r2: Result<seq<seq<int>>>, r3: Result<seq<seq<int>>>)
    ensures r1 == Success([[1, 0, 0], [0, 1, 0], [0, 0, 1]])
    ensures r2 == Failure(IndexError("Not all rows are equal"))
    ensures r3 == Failure(IndexError("The matrix must be odd"))
  {
    assert Rectangular(Corner5);
    r1 := CreateSubMatrix(Corner5, 3);
    Corner5Block(r1.value);
    assert !Rectangular([[1, 0], [0, 1, 0]]) by {
      assert |[[1, 0], [0, 1, 0]][1]| == 3;
    }
    r2 := CreateSubMatrix([[1, 0], [0, 1, 0]], 1);
    r3 := Mmn13.CreateSubMatrix([[1, 0], [0, 1, 0]], 1);
  }

  /** Test 1 of `test_max_identity_matrix`: the largest identity block of Corner5 has side 3. */
  lemma MaxIdentityExample1()
    ensures Rectangular(Corner5)
    ensures LargestIdentityBlock(Corner5, 3)
  {
    Corner5Centre();
    Corner5Whole();
  }

  /** The centred 3 x 3 block of Corner5 is an identity. */
  lemma Corner5Centre()
    ensures Rectangular(Corner5) && IdentityAt(Corner5, 1)
  {
  }

  /** The stray 1 in the bottom-left corner spoils the whole of Corner5. */
  lemma Corner5Whole()
    ensures Rectangular(Corner5) && !IdentityAt(Corner5, 2)
  {
    assert Corner5[0 + 4][0 + 0] != Delta(4, 0);
  }

  /** Every row of Centre7 has seven entries. */
  lemma Centre7Rectangular()
    ensures Rectangular(Centre7)
  {
  }

  /** The stray 1 at row 3, column 4 of Centre7 lies in every centred block wider than one cell. */
  lemma Centre7NotIdentity(o: nat)
    requires 1 <= o <= 3
    ensures Rectangular(Centre7) && !IdentityAt(Centre7, o)
  {
    Centre7Rectangular();
    var lo := 3 - o;
    assert Centre7[lo + (3 - lo)][lo + (4 - lo)] != Delta(3 - lo, 4 - lo);
  }

  /** Test 3 of `test_max_identity_matrix`: the largest identity block of Centre7 is its centre. */
  lemma MaxIdentityExample3()
    ensures Rectangular(Centre7)
    ensures LargestIdentityBlock(Centre7, 1)
  {
    Centre7Rectangular();
    assert IdentityAt(Centre7, 0);
    forall o | 1 <= o <= 3
      ensures !IdentityAt(Centre7, o)
    {
      Centre7NotIdentity(o);
    }
  }

  /** `test_max_identity_matrix` without the float case: the calls answer 3 and 1. */
  method TestMaxIdentityMatrix() returns (r1: Result<nat>, r3: Result<nat>)
    ensures r1 == Success(3)
    ensures r3 == Success(1)
  {
    MaxIdentityExample1();
    r1 := MaxIdentityMatrix(Corner5);
    LargestIdentityBlockUnique(Corner5, r1.value, 3);
    MaxIdentityExample3();
    r3 := MaxIdentityMatrix(Centre7);
    LargestIdentityBlockUnique(Centre7, r3.value, 1);
  }

  /** `test_complement`: the five calls answer as the tester's comments say. */
  method TestComplement() returns (r1: seq<int>, r2: seq<int>, r3: seq<int>, r4: seq<int>, r5: seq<int>)
    ensures r1 == [2, 3, 6] && r2 == [] && r3 == [] && r4 == [1, 3, 5] && r5 == [2, 3, 4, 5, 6, 7, 8, 9]
  {
    ComplementExample1();
    r1 := Complement([9, 8, 7, 5, 4, 1]);
    ComplementExample2();
    r2 := Complement([1, 4, 2, 3]);
    r3 := Complement([]);
    ComplementExample4();
    r4 := Complement([2, 4, 6]);
    ComplementExample5();
    r5 := Complement([10, 1]);
  }

  /** `test_shift_right_size`: the five calls answer 4, None, 0, 3 and None. */
  method TestShiftRightSize() returns (r1: Option<nat>, r2: Option<nat>, r3: Option<nat>, r4: Option<nat>, r5: Option<nat>)
    ensures r1 == Some(4) && r2 == None && r3 == Some(0) && r4 == Some(3) && r5 == None
  {
    ShiftSizeExample1();
    r1 := ShiftRightSize([4, -1, 9, 7, 11, 2], [11, 2, 4, -1, 9, 7]);
    ShiftSizeExample2();
    r2 := ShiftRightSize([4, -1, 9, 7, 11, 2], [4, -1, 7, 9, 11, 2]);
    ShiftSizeExample3();
    r3 := ShiftRightSize([1, 2, 3, 4, 5], [1, 2, 3, 4, 5]);
    ShiftSizeExample4();
    r4 := ShiftRightSize([1, 2, 3, 4, 5], [4, 5, 1, 2, 3]);
    ShiftSizeExample5();
    r5 := ShiftRightSize([1, 2, 3, 4, 5], [1, 2, 3, 5, 4]);
  }

  /** `test_is_perfect` without the TypeError case, as the code answers it. */
  method TestIsPerfect() returns (r1: PerfectOutcome, r2: PerfectOutcome, r3: PerfectOutcome, r4: PerfectOutcome)
    ensures r1 == Returns(false) && r2 == Returns(false) && r3 == Returns(true) && r4 == Returns(true)
  {
    PerfectExample1();
    r1 := IsPerfect([2, 3, 2, 3, 0]);
    PerfectExample2();
    r2 := IsPerfect([2, 3, 2, 1, 0]);
    r3 := IsPerfect([]);
    PerfectExampleCycle();
    r4 := IsPerfect([1, 2, 3, 4, 0]);
  }

  /** `test_identity_matrix` without the float case. */
  method TestIdentityMatrix() returns (r: Result<bool>)
    ensures r == Success(true)
  {
    IdentityExample();
    r := IdentityMatrix(Identity5);
  }
}
