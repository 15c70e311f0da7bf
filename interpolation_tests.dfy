/** The examples of cobi/interpolate/interpolate_test.go, stated about the
    finished grid `Cell` that `Interpolate` is proved to build. The tests
    write their expected grids row by row and transpose them; here each
    cell is stated at its [x, y] position directly. */
module InterpolationTests {
  import opened Basics
  import opened Interpolation

  /** The 3x4 example: corners 0, 8, 5, 10 give the rows {0,4,8}, {1,5,8},
      {3,6,9}, {5,7,10}. */
  lemma ThreeByFourExample()
    ensures Cell(3, 4, [0, 8, 5, 10], 0, 0) == 0 && Cell(3, 4, [0, 8, 5, 10], 1, 0) == 4 && Cell(3, 4, [0, 8, 5, 10], 2, 0) == 8
    ensures Cell(3, 4, [0, 8, 5, 10], 0, 1) == 1 && Cell(3, 4, [0, 8, 5, 10], 1, 1) == 5 && Cell(3, 4, [0, 8, 5, 10], 2, 1) == 8
    ensures Cell(3, 4, [0, 8, 5, 10], 0, 2) == 3 && Cell(3, 4, [0, 8, 5, 10], 1, 2) == 6 && Cell(3, 4, [0, 8, 5, 10], 2, 2) == 9
    ensures Cell(3, 4, [0, 8, 5, 10], 0, 3) == 5 && Cell(3, 4, [0, 8, 5, 10], 1, 3) == 7 && Cell(3, 4, [0, 8, 5, 10], 2, 3) == 10
  {
    ThreeByFourTop();
    ThreeByFourBottom();
    ThreeByFourCell01();
    ThreeByFourCell11();
    ThreeByFourCell21();
    ThreeByFourCell02();
    ThreeByFourCell12();
    ThreeByFourCell22();
  }

  lemma ThreeByFourTop()
    ensures Cell(3, 4, [0, 8, 5, 10], 0, 0) == 0 && Cell(3, 4, [0, 8, 5, 10], 1, 0) == 4 && Cell(3, 4, [0, 8, 5, 10], 2, 0) == 8
  {
  }

  lemma ThreeByFourBottom()
    ensures Cell(3, 4, [0, 8, 5, 10], 0, 3) == 5 && Cell(3, 4, [0, 8, 5, 10], 1, 3) == 7 && Cell(3, 4, [0, 8, 5, 10], 2, 3) == 10
  {
  }

  /** ThreeByFourCellXY: the interior cell at column X, row Y, one per lemma
      (together they make the solver's division reasoning too costly). */
  lemma ThreeByFourCell01()
    ensures Cell(3, 4, [0, 8, 5, 10], 0, 1) == 1
  {
    assert RowPhase(3, 4, [0, 8, 5, 10], 0, 0) == 0 && RowPhase(3, 4, [0, 8, 5, 10], 0, 3) == 5;
    assert Step(0, 5, 1, 4) == 1;
  }

  lemma ThreeByFourCell11()
    ensures Cell(3, 4, [0, 8, 5, 10], 1, 1) == 5
  {
    assert RowPhase(3, 4, [0, 8, 5, 10], 1, 0) == 4 && RowPhase(3, 4, [0, 8, 5, 10], 1, 3) == 7;
    assert Step(4, 7, 1, 4) == 5;
  }

  lemma ThreeByFourCell21()
    ensures Cell(3, 4, [0, 8, 5, 10], 2, 1) == 8
  {
    assert RowPhase(3, 4, [0, 8, 5, 10], 2, 0) == 8 && RowPhase(3, 4, [0, 8, 5, 10], 2, 3) == 10;
    assert Step(8, 10, 1, 4) == 8;
  }

  lemma ThreeByFourCell02()
    ensures Cell(3, 4, [0, 8, 5, 10], 0, 2) == 3
  {
    assert RowPhase(3, 4, [0, 8, 5, 10], 0, 0) == 0 && RowPhase(3, 4, [0, 8, 5, 10], 0, 3) == 5;
    assert Step(0, 5, 2, 4) == 3;
  }

  lemma ThreeByFourCell12()
    ensures Cell(3, 4, [0, 8, 5, 10], 1, 2) == 6
  {
    assert RowPhase(3, 4, [0, 8, 5, 10], 1, 0) == 4 && RowPhase(3, 4, [0, 8, 5, 10], 1, 3) == 7;
    assert Step(4, 7, 2, 4) == 6;
  }

  lemma ThreeByFourCell22()
    ensures Cell(3, 4, [0, 8, 5, 10], 2, 2) == 9
  {
    assert RowPhase(3, 4, [0, 8, 5, 10], 2, 0) == 8 && RowPhase(3, 4, [0, 8, 5, 10], 2, 3) == 10;
    assert Step(8, 10, 2, 4) == 9;
  }

  /** The 3x4 grid whose right column runs from 8 to 8: corners 0, 8, 5, 8
      give the rows {0,4,8}, {1,4,8}, {3,5,8}, {5,6,8}. */
  lemma EqualColumnExample()
    ensures Cell(3, 4, [0, 8, 5, 8], 0, 0) == 0 && Cell(3, 4, [0, 8, 5, 8], 1, 0) == 4 && Cell(3, 4, [0, 8, 5, 8], 2, 0) == 8
    ensures Cell(3, 4, [0, 8, 5, 8], 0, 1) == 1 && Cell(3, 4, [0, 8, 5, 8], 1, 1) == 4 && Cell(3, 4, [0, 8, 5, 8], 2, 1) == 8
    ensures Cell(3, 4, [0, 8, 5, 8], 0, 2) == 3 && Cell(3, 4, [0, 8, 5, 8], 1, 2) == 5 && Cell(3, 4, [0, 8, 5, 8], 2, 2) == 8
    ensures Cell(3, 4, [0, 8, 5, 8], 0, 3) == 5 && Cell(3, 4, [0, 8, 5, 8], 1, 3) == 6 && Cell(3, 4, [0, 8, 5, 8], 2, 3) == 8
  {
    EqualColumnTop();
    EqualColumnBottom();
    EqualColumnCell01();
    EqualColumnCell11();
    EqualColumnCell21();
    EqualColumnCell02();
    EqualColumnCell12();
    EqualColumnCell22();
  }

  lemma EqualColumnTop()
    ensures Cell(3, 4, [0, 8, 5, 8], 0, 0) == 0 && Cell(3, 4, [0, 8, 5, 8], 1, 0) == 4 && Cell(3, 4, [0, 8, 5, 8], 2, 0) == 8
  {
  }

  lemma EqualColumnBottom()
    ensures Cell(3, 4, [0, 8, 5, 8], 0, 3) == 5 && Cell(3, 4, [0, 8, 5, 8], 1, 3) == 6 && Cell(3, 4, [0, 8, 5, 8], 2, 3) == 8
  {
  }

  /** EqualColumnCellXY: the interior cell at column X, row Y, one per lemma
      (together they make the solver's division reasoning too costly). */
  lemma EqualColumnCell01()
    ensures Cell(3, 4, [0, 8, 5, 8], 0, 1) == 1
  {
    assert RowPhase(3, 4, [0, 8, 5, 8], 0, 0) == 0 && RowPhase(3, 4, [0, 8, 5, 8], 0, 3) == 5;
    assert Step(0, 5, 1, 4) == 1;
  }

  lemma EqualColumnCell11()
    ensures Cell(3, 4, [0, 8, 5, 8], 1, 1) == 4
  {
    assert RowPhase(3, 4, [0, 8, 5, 8], 1, 0) == 4 && RowPhase(3, 4, [0, 8, 5, 8], 1, 3) == 6;
    assert Step(4, 6, 1, 4) == 4;
  }

  lemma EqualColumnCell21()
    ensures Cell(3, 4, [0, 8, 5, 8], 2, 1) == 8
  {
    assert RowPhase(3, 4, [0, 8, 5, 8], 2, 0) == 8 && RowPhase(3, 4, [0, 8, 5, 8], 2, 3) == 8;
    assert Step(8, 8, 1, 4) == 8;
  }

  lemma EqualColumnCell02()
    ensures Cell(3, 4, [0, 8, 5, 8], 0, 2) == 3
  {
    assert RowPhase(3, 4, [0, 8, 5, 8], 0, 0) == 0 && RowPhase(3, 4, [0, 8, 5, 8], 0, 3) == 5;
    assert Step(0, 5, 2, 4) == 3;
  }

  lemma EqualColumnCell12()
    ensures Cell(3, 4, [0, 8, 5, 8], 1, 2) == 5
  {
    assert RowPhase(3, 4, [0, 8, 5, 8], 1, 0) == 4 && RowPhase(3, 4, [0, 8, 5, 8], 1, 3) == 6;
    assert Step(4, 6, 2, 4) == 5;
  }

  lemma EqualColumnCell22()
    ensures Cell(3, 4, [0, 8, 5, 8], 2, 2) == 8
  {
    assert RowPhase(3, 4, [0, 8, 5, 8], 2, 0) == 8 && RowPhase(3, 4, [0, 8, 5, 8], 2, 3) == 8;
    assert Step(8, 8, 2, 4) == 8;
  }

  /** A single row from 0 to 6 and a single column from 0 to 6 both run
      0, 2, 4, 6; a single point keeps its value 42. */
  lemma LineExamples()
    ensures forall x :: 0 <= x < 4 ==> Cell(4, 1, [0, 6, 0, 6], x, 0) == 2 * x
    ensures forall y :: 0 <= y < 4 ==> Cell(1, 4, [0, 0, 6, 6], 0, y) == 2 * y
    ensures Cell(1, 1, [42, 42, 42, 42], 0, 0) == 42
  {
    forall x | 0 <= x < 4
      ensures Cell(4, 1, [0, 6, 0, 6], x, 0) == 2 * x
    {
      assert WrapSub(6, 0) == 6;
    }
    forall y | 0 <= y < 4
      ensures Cell(1, 4, [0, 0, 6, 6], 0, y) == 2 * y
    {
      assert WrapSub(6, 0) == 6;
    }
  }

  /** A decreasing pair of end points wraps: the byte difference 10 - 18 is
      248, so the middle of a 3-wide last row from 18 to 10 is 18 + 124 = 142,
      not 14. */
  lemma WrappedStepExample()
    ensures Cell(3, 3, [12, 14, 18, 10], 1, 2) == 142
  {
    assert WrapSub(10, 18) == 248;
  }
}
