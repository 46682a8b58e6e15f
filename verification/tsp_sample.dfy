/**
  The documented five-city run of the branch-and-bound descent, computed
  through the model level by level: the root reduction, every candidate's
  closed and reduced matrix, and the choice at each level.
 */
module TspSample {
  import opened Costs
  import opened Tsp

  /** The documented five-city instance; vertex i is city i + 1. */
  const SampleMatrix: Matrix := [
      [Inf, Fin(20), Fin(30), Fin(10), Fin(11)],
      [Fin(15), Inf, Fin(16), Fin(4), Fin(2)],
      [Fin(3), Fin(5), Inf, Fin(2), Fin(4)],
      [Fin(19), Fin(6), Fin(18), Inf, Fin(3)],
      [Fin(16), Fin(4), Fin(7), Fin(16), Inf]]

  /** The reduced root matrix of the sample. */
  const SampleRoot: Matrix := [
      [Inf, Fin(10), Fin(17), Fin(0), Fin(1)],
      [Fin(12), Inf, Fin(11), Fin(2), Fin(0)],
      [Fin(0), Fin(3), Inf, Fin(0), Fin(2)],
      [Fin(15), Fin(3), Fin(12), Inf, Fin(0)],
      [Fin(11), Fin(0), Fin(0), Fin(12), Inf]]

  /** The sample matrix, column by column after the row pass. */
  const SampleMatrixColumns: Matrix := [
      [Inf, Fin(13), Fin(1), Fin(16), Fin(12)],
      [Fin(10), Inf, Fin(3), Fin(3), Fin(0)],
      [Fin(20), Fin(14), Inf, Fin(15), Fin(3)],
      [Fin(0), Fin(2), Fin(0), Inf, Fin(12)],
      [Fin(1), Fin(0), Fin(2), Fin(0), Inf]]

  /** The row minima and the columns where they sit. */
  lemma SampleMatrixRowMinima()
    ensures MinimaAt(SampleMatrix, [Fin(10), Fin(2), Fin(2), Fin(3), Fin(4)], [3, 4, 3, 4, 1])
  {
  }

  /** The column minima and the rows where they sit. */
  lemma SampleMatrixColumnMinima()
    ensures MinimaAt(SampleMatrixColumns, [Fin(1), Fin(0), Fin(3), Fin(0), Fin(0)], [2, 4, 4, 0, 1])
  {
  }

  /** The row pass: every cell lowered by its row's minimum. */
  lemma SampleMatrixRowPass()
    ensures IsSquare(SampleMatrix) && IsSquare(SampleMatrixColumns)
    ensures forall i, j :: 0 <= i < 5 && 0 <= j < 5 ==> SampleMatrixColumns[j][i] == Sub(SampleMatrix[i][j], ValueOrZero([Fin(10), Fin(2), Fin(2), Fin(3), Fin(4)][i]))
  {
  }

  /** The column pass: the root matrix is every column lowered by its minimum. */
  lemma SampleRootCells()
    ensures IsSquare(SampleRoot)
    ensures forall i, j :: 0 <= i < 5 && 0 <= j < 5 ==> SampleRoot[i][j] == Sub(SampleMatrixColumns[j][i], ValueOrZero([Fin(1), Fin(0), Fin(3), Fin(0), Fin(0)][j]))
  {
  }

  /** `reduce` on the sample: the root matrix, cell by cell, and the bound 25. */
  lemma SampleRootReduced(mat: Matrix)
    requires SameCells(mat, SampleMatrix)
    ensures IsSquare(mat) && Reduce(mat).bound == 25 && SameCells(Reduce(mat).mat, SampleRoot)
  {
    SampleMatrixRowMinima();
    SampleMatrixColumnMinima();
    SampleMatrixRowPass();
    SampleRootCells();
    MinimaAtSameCells(mat, SampleMatrix, [Fin(10), Fin(2), Fin(2), Fin(3), Fin(4)], [3, 4, 3, 4, 1]);
    ReduceFromMinima(mat, [Fin(10), Fin(2), Fin(2), Fin(3), Fin(4)], [3, 4, 3, 4, 1], SampleMatrixColumns, [Fin(1), Fin(0), Fin(3), Fin(0), Fin(0)], [2, 4, 4, 0, 1], SampleRoot);
  }

  /** The root matrix with the path [0, 1] closed. */
  const Sample01: Matrix := [
      [Inf, Inf, Inf, Inf, Inf],
      [Inf, Inf, Fin(11), Fin(2), Fin(0)],
      [Fin(0), Inf, Inf, Fin(0), Fin(2)],
      [Fin(15), Inf, Fin(12), Inf, Fin(0)],
      [Fin(11), Inf, Fin(0), Fin(12), Inf]]

  /** `resolveInfinity` along the path on the root matrix. */
  lemma Sample01Closed(m: Matrix)
    requires SameCells(m, SampleRoot)
    ensures InRange([0, 1], |m|) && SameCells(ResolveInfinity(m, [0, 1]), Sample01)
  {
    assert ResolveInfinity(m, [0]) == m;
    ResolveInfinitySnoc(m, [0], 1);
    var c := ResolveInfinity(m, [0, 1]);
    assert forall a, b :: 0 <= a < 5 && 0 <= b < 5 ==> c[a][b] == Sample01[a][b];
  }

  /** The closed matrix of [0, 1], column by column after the row pass. */
  const Sample01Columns: Matrix := [
      [Inf, Inf, Fin(0), Fin(15), Fin(11)],
      [Inf, Inf, Inf, Inf, Inf],
      [Inf, Fin(11), Inf, Fin(12), Fin(0)],
      [Inf, Fin(2), Fin(0), Inf, Fin(12)],
      [Inf, Fin(0), Fin(2), Fin(0), Inf]]

  /** The row minima and the columns where they sit. */
  lemma Sample01RowMinima()
    ensures MinimaAt(Sample01, [Inf, Fin(0), Fin(0), Fin(0), Fin(0)], [0, 4, 0, 4, 2])
  {
  }

  /** The column minima and the rows where they sit. */
  lemma Sample01ColumnMinima()
    ensures MinimaAt(Sample01Columns, [Fin(0), Inf, Fin(0), Fin(0), Fin(0)], [2, 0, 4, 2, 1])
  {
  }

  /** The row pass: every cell lowered by its row's minimum. */
  lemma Sample01RowPass()
    ensures IsSquare(Sample01) && IsSquare(Sample01Columns)
    ensures forall i, j :: 0 <= i < 5 && 0 <= j < 5 ==> Sample01Columns[j][i] == Sub(Sample01[i][j], ValueOrZero([Inf, Fin(0), Fin(0), Fin(0), Fin(0)][i]))
  {
  }

  /** `reduce` on the closed matrix of [0, 1]: the bound 0. */
  lemma Sample01Bound(c: Matrix)
    requires SameCells(c, Sample01)
    ensures IsSquare(c) && Reduce(c).bound == 0
  {
    Sample01RowMinima();
    Sample01ColumnMinima();
    Sample01RowPass();
    MinimaAtSameCells(c, Sample01, [Inf, Fin(0), Fin(0), Fin(0), Fin(0)], [0, 4, 0, 4, 2]);
    ReduceBoundFromMinima(c, [Inf, Fin(0), Fin(0), Fin(0), Fin(0)], [0, 4, 0, 4, 2], Sample01Columns, [Fin(0), Inf, Fin(0), Fin(0), Fin(0)], [2, 0, 4, 2, 1]);
  }

  /** `calculateCost` of [0, 1] from the bound 25: edge 10 plus the reduced bound 0. */
  lemma Sample01Cost(m: Matrix)
    requires SameCells(m, SampleRoot)
    ensures IsSquare(m) && |m| == 5 && CostIn(m)([0] + [1], Fin(25)) == Fin(35)
  {
    Sample01Closed(m);
    Sample01Bound(ResolveInfinity(m, [0, 1]));
    assert [0] + [1] == [0, 1];
  }

  /** The root matrix with the path [0, 2] closed. */
  const Sample02: Matrix := [
      [Inf, Inf, Inf, Inf, Inf],
      [Fin(12), Inf, Inf, Fin(2), Fin(0)],
      [Inf, Fin(3), Inf, Fin(0), Fin(2)],
      [Fin(15), Fin(3), Inf, Inf, Fin(0)],
      [Fin(11), Fin(0), Inf, Fin(12), Inf]]

  /** `resolveInfinity` along the path on the root matrix. */
  lemma Sample02Closed(m: Matrix)
    requires SameCells(m, SampleRoot)
    ensures InRange([0, 2], |m|) && SameCells(ResolveInfinity(m, [0, 2]), Sample02)
  {
    assert ResolveInfinity(m, [0]) == m;
    ResolveInfinitySnoc(m, [0], 2);
    var c := ResolveInfinity(m, [0, 2]);
    assert forall a, b :: 0 <= a < 5 && 0 <= b < 5 ==> c[a][b] == Sample02[a][b];
  }

  /** The closed matrix of [0, 2], column by column after the row pass. */
  const Sample02Columns: Matrix := [
      [Inf, Fin(12), Inf, Fin(15), Fin(11)],
      [Inf, Inf, Fin(3), Fin(3), Fin(0)],
      [Inf, Inf, Inf, Inf, Inf],
      [Inf, Fin(2), Fin(0), Inf, Fin(12)],
      [Inf, Fin(0), Fin(2), Fin(0), Inf]]

  /** The row minima and the columns where they sit. */
  lemma Sample02RowMinima()
    ensures MinimaAt(Sample02, [Inf, Fin(0), Fin(0), Fin(0), Fin(0)], [0, 4, 3, 4, 1])
  {
  }

  /** The column minima and the rows where they sit. */
  lemma Sample02ColumnMinima()
    ensures MinimaAt(Sample02Columns, [Fin(11), Fin(0), Inf, Fin(0), Fin(0)], [4, 4, 0, 2, 1])
  {
  }

  /** The row pass: every cell lowered by its row's minimum. */
  lemma Sample02RowPass()
    ensures IsSquare(Sample02) && IsSquare(Sample02Columns)
    ensures forall i, j :: 0 <= i < 5 && 0 <= j < 5 ==> Sample02Columns[j][i] == Sub(Sample02[i][j], ValueOrZero([Inf, Fin(0), Fin(0), Fin(0), Fin(0)][i]))
  {
  }

  /** `reduce` on the closed matrix of [0, 2]: the bound 11. */
  lemma Sample02Bound(c: Matrix)
    requires SameCells(c, Sample02)
    ensures IsSquare(c) && Reduce(c).bound == 11
  {
    Sample02RowMinima();
    Sample02ColumnMinima();
    Sample02RowPass();
    MinimaAtSameCells(c, Sample02, [Inf, Fin(0), Fin(0), Fin(0), Fin(0)], [0, 4, 3, 4, 1]);
    ReduceBoundFromMinima(c, [Inf, Fin(0), Fin(0), Fin(0), Fin(0)], [0, 4, 3, 4, 1], Sample02Columns, [Fin(11), Fin(0), Inf, Fin(0), Fin(0)], [4, 4, 0, 2, 1]);
  }

  /** `calculateCost` of [0, 2] from the bound 25: edge 17 plus the reduced bound 11. */
  lemma Sample02Cost(m: Matrix)
    requires SameCells(m, SampleRoot)
    ensures IsSquare(m) && |m| == 5 && CostIn(m)([0] + [2], Fin(25)) == Fin(53)
  {
    Sample02Closed(m);
    Sample02Bound(ResolveInfinity(m, [0, 2]));
    assert [0] + [2] == [0, 2];
  }

  /** The root matrix with the path [0, 3] closed. */
  const Sample03: Matrix := [
      [Inf, Inf, Inf, Inf, Inf],
      [Fin(12), Inf, Fin(11), Inf, Fin(0)],
      [Fin(0), Fin(3), Inf, Inf, Fin(2)],
      [Inf, Fin(3), Fin(12), Inf, Fin(0)],
      [Fin(11), Fin(0), Fin(0), Inf, Inf]]

  /** `resolveInfinity` along the path on the root matrix. */
  lemma Sample03Closed(m: Matrix)
    requires SameCells(m, SampleRoot)
    ensures InRange([0, 3], |m|) && SameCells(ResolveInfinity(m, [0, 3]), Sample03)
  {
    assert ResolveInfinity(m, [0]) == m;
    ResolveInfinitySnoc(m, [0], 3);
    var c := ResolveInfinity(m, [0, 3]);
    assert forall a, b :: 0 <= a < 5 && 0 <= b < 5 ==> c[a][b] == Sample03[a][b];
  }

  /** The closed matrix of [0, 3], column by column after the row pass. */
  const Sample03Columns: Matrix := [
      [Inf, Fin(12), Fin(0), Inf, Fin(11)],
      [Inf, Inf, Fin(3), Fin(3), Fin(0)],
      [Inf, Fin(11), Inf, Fin(12), Fin(0)],
      [Inf, Inf, Inf, Inf, Inf],
      [Inf, Fin(0), Fin(2), Fin(0), Inf]]

  /** The row minima and the columns where they sit. */
  lemma Sample03RowMinima()
    ensures MinimaAt(Sample03, [Inf, Fin(0), Fin(0), Fin(0), Fin(0)], [0, 4, 0, 4, 1])
  {
  }

  /** The column minima and the rows where they sit. */
  lemma Sample03ColumnMinima()
    ensures MinimaAt(Sample03Columns, [Fin(0), Fin(0), Fin(0), Inf, Fin(0)], [2, 4, 4, 0, 1])
  {
  }

  /** The row pass: every cell lowered by its row's minimum. */
  lemma Sample03RowPass()
    ensures IsSquare(Sample03) && IsSquare(Sample03Columns)
    ensures forall i, j :: 0 <= i < 5 && 0 <= j < 5 ==> Sample03Columns[j][i] == Sub(Sample03[i][j], ValueOrZero([Inf, Fin(0), Fin(0), Fin(0), Fin(0)][i]))
  {
  }

  /** `reduce` on the closed matrix of [0, 3]: the bound 0. */
  lemma Sample03Bound(c: Matrix)
    requires SameCells(c, Sample03)
    ensures IsSquare(c) && Reduce(c).bound == 0
  {
    Sample03RowMinima();
    Sample03ColumnMinima();
    Sample03RowPass();
    MinimaAtSameCells(c, Sample03, [Inf, Fin(0), Fin(0), Fin(0), Fin(0)], [0, 4, 0, 4, 1]);
    ReduceBoundFromMinima(c, [Inf, Fin(0), Fin(0), Fin(0), Fin(0)], [0, 4, 0, 4, 1], Sample03Columns, [Fin(0), Fin(0), Fin(0), Inf, Fin(0)], [2, 4, 4, 0, 1]);
  }

  /** `calculateCost` of [0, 3] from the bound 25: edge 0 plus the reduced bound 0. */
  lemma Sample03Cost(m: Matrix)
    requires SameCells(m, SampleRoot)
    ensures IsSquare(m) && |m| == 5 && CostIn(m)([0] + [3], Fin(25)) == Fin(25)
  {
    Sample03Closed(m);
    Sample03Bound(ResolveInfinity(m, [0, 3]));
    assert [0] + [3] == [0, 3];
  }

  /** The root matrix with the path [0, 4] closed. */
  const Sample04: Matrix := [
      [Inf, Inf, Inf, Inf, Inf],
      [Fin(12), Inf, Fin(11), Fin(2), Inf],
      [Fin(0), Fin(3), Inf, Fin(0), Inf],
      [Fin(15), Fin(3), Fin(12), Inf, Inf],
      [Inf, Fin(0), Fin(0), Fin(12), Inf]]

  /** `resolveInfinity` along the path on the root matrix. */
  lemma Sample04Closed(m: Matrix)
    requires SameCells(m, SampleRoot)
    ensures InRange([0, 4], |m|) && SameCells(ResolveInfinity(m, [0, 4]), Sample04)
  {
    assert ResolveInfinity(m, [0]) == m;
    ResolveInfinitySnoc(m, [0], 4);
    var c := ResolveInfinity(m, [0, 4]);
    assert forall a, b :: 0 <= a < 5 && 0 <= b < 5 ==> c[a][b] == Sample04[a][b];
  }

  /** The closed matrix of [0, 4], column by column after the row pass. */
  const Sample04Columns: Matrix := [
      [Inf, Fin(10), Fin(0), Fin(12), Inf],
      [Inf, Inf, Fin(3), Fin(0), Fin(0)],
      [Inf, Fin(9), Inf, Fin(9), Fin(0)],
      [Inf, Fin(0), Fin(0), Inf, Fin(12)],
      [Inf, Inf, Inf, Inf, Inf]]

  /** The row minima and the columns where they sit. */
  lemma Sample04RowMinima()
    ensures MinimaAt(Sample04, [Inf, Fin(2), Fin(0), Fin(3), Fin(0)], [0, 3, 0, 1, 1])
  {
  }

  /** The column minima and the rows where they sit. */
  lemma Sample04ColumnMinima()
    ensures MinimaAt(Sample04Columns, [Fin(0), Fin(0), Fin(0), Fin(0), Inf], [2, 3, 4, 1, 0])
  {
  }

  /** The row pass: every cell lowered by its row's minimum. */
  lemma Sample04RowPass()
    ensures IsSquare(Sample04) && IsSquare(Sample04Columns)
    ensures forall i, j :: 0 <= i < 5 && 0 <= j < 5 ==> Sample04Columns[j][i] == Sub(Sample04[i][j], ValueOrZero([Inf, Fin(2), Fin(0), Fin(3), Fin(0)][i]))
  {
  }

  /** `reduce` on the closed matrix of [0, 4]: the bound 5. */
  lemma Sample04Bound(c: Matrix)
    requires SameCells(c, Sample04)
    ensures IsSquare(c) && Reduce(c).bound == 5
  {
    Sample04RowMinima();
    Sample04ColumnMinima();
    Sample04RowPass();
    MinimaAtSameCells(c, Sample04, [Inf, Fin(2), Fin(0), Fin(3), Fin(0)], [0, 3, 0, 1, 1]);
    ReduceBoundFromMinima(c, [Inf, Fin(2), Fin(0), Fin(3), Fin(0)], [0, 3, 0, 1, 1], Sample04Columns, [Fin(0), Fin(0), Fin(0), Fin(0), Inf], [2, 3, 4, 1, 0]);
  }

  /** `calculateCost` of [0, 4] from the bound 25: edge 1 plus the reduced bound 5. */
  lemma Sample04Cost(m: Matrix)
    requires SameCells(m, SampleRoot)
    ensures IsSquare(m) && |m| == 5 && CostIn(m)([0] + [4], Fin(25)) == Fin(31)
  {
    Sample04Closed(m);
    Sample04Bound(ResolveInfinity(m, [0, 4]));
    assert [0] + [4] == [0, 4];
  }

  /** The root matrix with the path [0, 3, 1] closed. */
  const Sample031: Matrix := [
      [Inf, Inf, Inf, Inf, Inf],
      [Fin(12), Inf, Fin(11), Inf, Fin(0)],
      [Fin(0), Inf, Inf, Inf, Fin(2)],
      [Inf, Inf, Inf, Inf, Inf],
      [Fin(11), Inf, Fin(0), Inf, Inf]]

  /** `resolveInfinity` along the path on the root matrix. */
  lemma Sample031Closed(m: Matrix)
    requires SameCells(m, SampleRoot)
    ensures InRange([0, 3, 1], |m|) && SameCells(ResolveInfinity(m, [0, 3, 1]), Sample031)
  {
    Sample03Closed(m);
    ResolveInfinitySnoc(m, [0, 3], 1);
    var c := ResolveInfinity(m, [0, 3, 1]);
    assert forall a, b :: 0 <= a < 5 && 0 <= b < 5 ==> c[a][b] == Sample031[a][b];
  }

  /** The closed matrix of [0, 3, 1], column by column after the row pass. */
  const Sample031Columns: Matrix := [
      [Inf, Fin(12), Fin(0), Inf, Fin(11)],
      [Inf, Inf, Inf, Inf, Inf],
      [Inf, Fin(11), Inf, Inf, Fin(0)],
      [Inf, Inf, Inf, Inf, Inf],
      [Inf, Fin(0), Fin(2), Inf, Inf]]

  /** The row minima and the columns where they sit. */
  lemma Sample031RowMinima()
    ensures MinimaAt(Sample031, [Inf, Fin(0), Fin(0), Inf, Fin(0)], [0, 4, 0, 0, 2])
  {
  }

  /** The column minima and the rows where they sit. */
  lemma Sample031ColumnMinima()
    ensures MinimaAt(Sample031Columns, [Fin(0), Inf, Fin(0), Inf, Fin(0)], [2, 0, 4, 0, 1])
  {
  }

  /** The row pass: every cell lowered by its row's minimum. */
  lemma Sample031RowPass()
    ensures IsSquare(Sample031) && IsSquare(Sample031Columns)
    ensures forall i, j :: 0 <= i < 5 && 0 <= j < 5 ==> Sample031Columns[j][i] == Sub(Sample031[i][j], ValueOrZero([Inf, Fin(0), Fin(0), Inf, Fin(0)][i]))
  {
  }

  /** `reduce` on the closed matrix of [0, 3, 1]: the bound 0. */
  lemma Sample031Bound(c: Matrix)
    requires SameCells(c, Sample031)
    ensures IsSquare(c) && Reduce(c).bound == 0
  {
    Sample031RowMinima();
    Sample031ColumnMinima();
    Sample031RowPass();
    MinimaAtSameCells(c, Sample031, [Inf, Fin(0), Fin(0), Inf, Fin(0)], [0, 4, 0, 0, 2]);
    ReduceBoundFromMinima(c, [Inf, Fin(0), Fin(0), Inf, Fin(0)], [0, 4, 0, 0, 2], Sample031Columns, [Fin(0), Inf, Fin(0), Inf, Fin(0)], [2, 0, 4, 0, 1]);
  }

  /** `calculateCost` of [0, 3, 1] from the bound 25: edge 3 plus the reduced bound 0. */
  lemma Sample031Cost(m: Matrix)
    requires SameCells(m, SampleRoot)
    ensures IsSquare(m) && |m| == 5 && CostIn(m)([0, 3] + [1], Fin(25)) == Fin(28)
  {
    Sample031Closed(m);
    Sample031Bound(ResolveInfinity(m, [0, 3, 1]));
    assert [0, 3] + [1] == [0, 3, 1];
  }

  /** The root matrix with the path [0, 3, 2] closed. */
  const Sample032: Matrix := [
      [Inf, Inf, Inf, Inf, Inf],
      [Fin(12), Inf, Inf, Inf, Fin(0)],
      [Fin(0), Fin(3), Inf, Inf, Fin(2)],
      [Inf, Inf, Inf, Inf, Inf],
      [Fin(11), Fin(0), Inf, Inf, Inf]]

  /** `resolveInfinity` along the path on the root matrix. */
  lemma Sample032Closed(m: Matrix)
    requires SameCells(m, SampleRoot)
    ensures InRange([0, 3, 2], |m|) && SameCells(ResolveInfinity(m, [0, 3, 2]), Sample032)
  {
    Sample03Closed(m);
    ResolveInfinitySnoc(m, [0, 3], 2);
    var c := ResolveInfinity(m, [0, 3, 2]);
    assert forall a, b :: 0 <= a < 5 && 0 <= b < 5 ==> c[a][b] == Sample032[a][b];
  }

  /** The closed matrix of [0, 3, 2], column by column after the row pass. */
  const Sample032Columns: Matrix := [
      [Inf, Fin(12), Fin(0), Inf, Fin(11)],
      [Inf, Inf, Fin(3), Inf, Fin(0)],
      [Inf, Inf, Inf, Inf, Inf],
      [Inf, Inf, Inf, Inf, Inf],
      [Inf, Fin(0), Fin(2), Inf, Inf]]

  /** The row minima and the columns where they sit. */
  lemma Sample032RowMinima()
    ensures MinimaAt(Sample032, [Inf, Fin(0), Fin(0), Inf, Fin(0)], [0, 4, 0, 0, 1])
  {
  }

  /** The column minima and the rows where they sit. */
  lemma Sample032ColumnMinima()
    ensures MinimaAt(Sample032Columns, [Fin(0), Fin(0), Inf, Inf, Fin(0)], [2, 4, 0, 0, 1])
  {
  }

  /** The row pass: every cell lowered by its row's minimum. */
  lemma Sample032RowPass()
    ensures IsSquare(Sample032) && IsSquare(Sample032Columns)
    ensures forall i, j :: 0 <= i < 5 && 0 <= j < 5 ==> Sample032Columns[j][i] == Sub(Sample032[i][j], ValueOrZero([Inf, Fin(0), Fin(0), Inf, Fin(0)][i]))
  {
  }

  /** `reduce` on the closed matrix of [0, 3, 2]: the bound 0. */
  lemma Sample032Bound(c: Matrix)
    requires SameCells(c, Sample032)
    ensures IsSquare(c) && Reduce(c).bound == 0
  {
    Sample032RowMinima();
    Sample032ColumnMinima();
    Sample032RowPass();
    MinimaAtSameCells(c, Sample032, [Inf, Fin(0), Fin(0), Inf, Fin(0)], [0, 4, 0, 0, 1]);
    ReduceBoundFromMinima(c, [Inf, Fin(0), Fin(0), Inf, Fin(0)], [0, 4, 0, 0, 1], Sample032Columns, [Fin(0), Fin(0), Inf, Inf, Fin(0)], [2, 4, 0, 0, 1]);
  }

  /** `calculateCost` of [0, 3, 2] from the bound 25: edge 12 plus the reduced bound 0. */
  lemma Sample032Cost(m: Matrix)
    requires SameCells(m, SampleRoot)
    ensures IsSquare(m) && |m| == 5 && CostIn(m)([0, 3] + [2], Fin(25)) == Fin(37)
  {
    Sample032Closed(m);
    Sample032Bound(ResolveInfinity(m, [0, 3, 2]));
    assert [0, 3] + [2] == [0, 3, 2];
  }

  /** The root matrix with the path [0, 3, 4] closed. */
  const Sample034: Matrix := [
      [Inf, Inf, Inf, Inf, Inf],
      [Fin(12), Inf, Fin(11), Inf, Inf],
      [Fin(0), Fin(3), Inf, Inf, Inf],
      [Inf, Inf, Inf, Inf, Inf],
      [Fin(11), Fin(0), Fin(0), Inf, Inf]]

  /** `resolveInfinity` along the path on the root matrix. */
  lemma Sample034Closed(m: Matrix)
    requires SameCells(m, SampleRoot)
    ensures InRange([0, 3, 4], |m|) && SameCells(ResolveInfinity(m, [0, 3, 4]), Sample034)
  {
    Sample03Closed(m);
    ResolveInfinitySnoc(m, [0, 3], 4);
    var c := ResolveInfinity(m, [0, 3, 4]);
    assert forall a, b :: 0 <= a < 5 && 0 <= b < 5 ==> c[a][b] == Sample034[a][b];
  }

  /** The closed matrix of [0, 3, 4], column by column after the row pass. */
  const Sample034Columns: Matrix := [
      [Inf, Fin(1), Fin(0), Inf, Fin(11)],
      [Inf, Inf, Fin(3), Inf, Fin(0)],
      [Inf, Fin(0), Inf, Inf, Fin(0)],
      [Inf, Inf, Inf, Inf, Inf],
      [Inf, Inf, Inf, Inf, Inf]]

  /** The row minima and the columns where they sit. */
  lemma Sample034RowMinima()
    ensures MinimaAt(Sample034, [Inf, Fin(11), Fin(0), Inf, Fin(0)], [0, 2, 0, 0, 1])
  {
  }

  /** The column minima and the rows where they sit. */
  lemma Sample034ColumnMinima()
    ensures MinimaAt(Sample034Columns, [Fin(0), Fin(0), Fin(0), Inf, Inf], [2, 4, 1, 0, 0])
  {
  }

  /** The row pass: every cell lowered by its row's minimum. */
  lemma Sample034RowPass()
    ensures IsSquare(Sample034) && IsSquare(Sample034Columns)
    ensures forall i, j :: 0 <= i < 5 && 0 <= j < 5 ==> Sample034Columns[j][i] == Sub(Sample034[i][j], ValueOrZero([Inf, Fin(11), Fin(0), Inf, Fin(0)][i]))
  {
  }

  /** `reduce` on the closed matrix of [0, 3, 4]: the bound 11. */
  lemma Sample034Bound(c: Matrix)
    requires SameCells(c, Sample034)
    ensures IsSquare(c) && Reduce(c).bound == 11
  {
    Sample034RowMinima();
    Sample034ColumnMinima();
    Sample034RowPass();
    MinimaAtSameCells(c, Sample034, [Inf, Fin(11), Fin(0), Inf, Fin(0)], [0, 2, 0, 0, 1]);
    ReduceBoundFromMinima(c, [Inf, Fin(11), Fin(0), Inf, Fin(0)], [0, 2, 0, 0, 1], Sample034Columns, [Fin(0), Fin(0), Fin(0), Inf, Inf], [2, 4, 1, 0, 0]);
  }

  /** `calculateCost` of [0, 3, 4] from the bound 25: edge 0 plus the reduced bound 11. */
  lemma Sample034Cost(m: Matrix)
    requires SameCells(m, SampleRoot)
    ensures IsSquare(m) && |m| == 5 && CostIn(m)([0, 3] + [4], Fin(25)) == Fin(36)
  {
    Sample034Closed(m);
    Sample034Bound(ResolveInfinity(m, [0, 3, 4]));
    assert [0, 3] + [4] == [0, 3, 4];
  }

  /** The root matrix with the path [0, 3, 1, 2] closed. */
  const Sample0312: Matrix := [
      [Inf, Inf, Inf, Inf, Inf],
      [Inf, Inf, Inf, Inf, Inf],
      [Fin(0), Inf, Inf, Inf, Fin(2)],
      [Inf, Inf, Inf, Inf, Inf],
      [Fin(11), Inf, Inf, Inf, Inf]]

  /** `resolveInfinity` along the path on the root matrix. */
  lemma Sample0312Closed(m: Matrix)
    requires SameCells(m, SampleRoot)
    ensures InRange([0, 3, 1, 2], |m|) && SameCells(ResolveInfinity(m, [0, 3, 1, 2]), Sample0312)
  {
    Sample031Closed(m);
    ResolveInfinitySnoc(m, [0, 3, 1], 2);
    var c := ResolveInfinity(m, [0, 3, 1, 2]);
    assert forall a, b :: 0 <= a < 5 && 0 <= b < 5 ==> c[a][b] == Sample0312[a][b];
  }

  /** The closed matrix of [0, 3, 1, 2], column by column after the row pass. */
  const Sample0312Columns: Matrix := [
      [Inf, Inf, Fin(0), Inf, Fin(0)],
      [Inf, Inf, Inf, Inf, Inf],
      [Inf, Inf, Inf, Inf, Inf],
      [Inf, Inf, Inf, Inf, Inf],
      [Inf, Inf, Fin(2), Inf, Inf]]

  /** The row minima and the columns where they sit. */
  lemma Sample0312RowMinima()
    ensures MinimaAt(Sample0312, [Inf, Inf, Fin(0), Inf, Fin(11)], [0, 0, 0, 0, 0])
  {
  }

  /** The column minima and the rows where they sit. */
  lemma Sample0312ColumnMinima()
    ensures MinimaAt(Sample0312Columns, [Fin(0), Inf, Inf, Inf, Fin(2)], [2, 0, 0, 0, 2])
  {
  }

  /** The row pass: every cell lowered by its row's minimum. */
  lemma Sample0312RowPass()
    ensures IsSquare(Sample0312) && IsSquare(Sample0312Columns)
    ensures forall i, j :: 0 <= i < 5 && 0 <= j < 5 ==> Sample0312Columns[j][i] == Sub(Sample0312[i][j], ValueOrZero([Inf, Inf, Fin(0), Inf, Fin(11)][i]))
  {
  }

  /** `reduce` on the closed matrix of [0, 3, 1, 2]: the bound 13. */
  lemma Sample0312Bound(c: Matrix)
    requires SameCells(c, Sample0312)
    ensures IsSquare(c) && Reduce(c).bound == 13
  {
    Sample0312RowMinima();
    Sample0312ColumnMinima();
    Sample0312RowPass();
    MinimaAtSameCells(c, Sample0312, [Inf, Inf, Fin(0), Inf, Fin(11)], [0, 0, 0, 0, 0]);
    ReduceBoundFromMinima(c, [Inf, Inf, Fin(0), Inf, Fin(11)], [0, 0, 0, 0, 0], Sample0312Columns, [Fin(0), Inf, Inf, Inf, Fin(2)], [2, 0, 0, 0, 2]);
  }

  /** `calculateCost` of [0, 3, 1, 2] from the bound 28: edge 11 plus the reduced bound 13. */
  lemma Sample0312Cost(m: Matrix)
    requires SameCells(m, SampleRoot)
    ensures IsSquare(m) && |m| == 5 && CostIn(m)([0, 3, 1] + [2], Fin(28)) == Fin(52)
  {
    Sample0312Closed(m);
    Sample0312Bound(ResolveInfinity(m, [0, 3, 1, 2]));
    assert [0, 3, 1] + [2] == [0, 3, 1, 2];
  }

  /** The root matrix with the path [0, 3, 1, 4] closed. */
  const Sample0314: Matrix := [
      [Inf, Inf, Inf, Inf, Inf],
      [Inf, Inf, Inf, Inf, Inf],
      [Fin(0), Inf, Inf, Inf, Inf],
      [Inf, Inf, Inf, Inf, Inf],
      [Fin(11), Inf, Fin(0), Inf, Inf]]

  /** `resolveInfinity` along the path on the root matrix. */
  lemma Sample0314Closed(m: Matrix)
    requires SameCells(m, SampleRoot)
    ensures InRange([0, 3, 1, 4], |m|) && SameCells(ResolveInfinity(m, [0, 3, 1, 4]), Sample0314)
  {
    Sample031Closed(m);
    ResolveInfinitySnoc(m, [0, 3, 1], 4);
    var c := ResolveInfinity(m, [0, 3, 1, 4]);
    assert forall a, b :: 0 <= a < 5 && 0 <= b < 5 ==> c[a][b] == Sample0314[a][b];
  }

  /** The closed matrix of [0, 3, 1, 4], column by column after the row pass. */
  const Sample0314Columns: Matrix := [
      [Inf, Inf, Fin(0), Inf, Fin(11)],
      [Inf, Inf, Inf, Inf, Inf],
      [Inf, Inf, Inf, Inf, Fin(0)],
      [Inf, Inf, Inf, Inf, Inf],
      [Inf, Inf, Inf, Inf, Inf]]

  /** The row minima and the columns where they sit. */
  lemma Sample0314RowMinima()
    ensures MinimaAt(Sample0314, [Inf, Inf, Fin(0), Inf, Fin(0)], [0, 0, 0, 0, 2])
  {
  }

  /** The column minima and the rows where they sit. */
  lemma Sample0314ColumnMinima()
    ensures MinimaAt(Sample0314Columns, [Fin(0), Inf, Fin(0), Inf, Inf], [2, 0, 4, 0, 0])
  {
  }

  /** The row pass: every cell lowered by its row's minimum. */
  lemma Sample0314RowPass()
    ensures IsSquare(Sample0314) && IsSquare(Sample0314Columns)
    ensures forall i, j :: 0 <= i < 5 && 0 <= j < 5 ==> Sample0314Columns[j][i] == Sub(Sample0314[i][j], ValueOrZero([Inf, Inf, Fin(0), Inf, Fin(0)][i]))
  {
  }

  /** `reduce` on the closed matrix of [0, 3, 1, 4]: the bound 0. */
  lemma Sample0314Bound(c: Matrix)
    requires SameCells(c, Sample0314)
    ensures IsSquare(c) && Reduce(c).bound == 0
  {
    Sample0314RowMinima();
    Sample0314ColumnMinima();
    Sample0314RowPass();
    MinimaAtSameCells(c, Sample0314, [Inf, Inf, Fin(0), Inf, Fin(0)], [0, 0, 0, 0, 2]);
    ReduceBoundFromMinima(c, [Inf, Inf, Fin(0), Inf, Fin(0)], [0, 0, 0, 0, 2], Sample0314Columns, [Fin(0), Inf, Fin(0), Inf, Inf], [2, 0, 4, 0, 0]);
  }

  /** `calculateCost` of [0, 3, 1, 4] from the bound 28: edge 0 plus the reduced bound 0. */
  lemma Sample0314Cost(m: Matrix)
    requires SameCells(m, SampleRoot)
    ensures IsSquare(m) && |m| == 5 && CostIn(m)([0, 3, 1] + [4], Fin(28)) == Fin(28)
  {
    Sample0314Closed(m);
    Sample0314Bound(ResolveInfinity(m, [0, 3, 1, 4]));
    assert [0, 3, 1] + [4] == [0, 3, 1, 4];
  }

  /** The root matrix with the path [0, 3, 1, 4, 2] closed. */
  const Sample03142: Matrix := [
      [Inf, Inf, Inf, Inf, Inf],
      [Inf, Inf, Inf, Inf, Inf],
      [Fin(0), Inf, Inf, Inf, Inf],
      [Inf, Inf, Inf, Inf, Inf],
      [Inf, Inf, Inf, Inf, Inf]]

  /** `resolveInfinity` along the path on the root matrix. */
  lemma Sample03142Closed(m: Matrix)
    requires SameCells(m, SampleRoot)
    ensures InRange([0, 3, 1, 4, 2], |m|) && SameCells(ResolveInfinity(m, [0, 3, 1, 4, 2]), Sample03142)
  {
    Sample0314Closed(m);
    ResolveInfinitySnoc(m, [0, 3, 1, 4], 2);
    var c := ResolveInfinity(m, [0, 3, 1, 4, 2]);
    assert forall a, b :: 0 <= a < 5 && 0 <= b < 5 ==> c[a][b] == Sample03142[a][b];
  }

  /** The closed matrix of [0, 3, 1, 4, 2], column by column after the row pass. */
  const Sample03142Columns: Matrix := [
      [Inf, Inf, Fin(0), Inf, Inf],
      [Inf, Inf, Inf, Inf, Inf],
      [Inf, Inf, Inf, Inf, Inf],
      [Inf, Inf, Inf, Inf, Inf],
      [Inf, Inf, Inf, Inf, Inf]]

  /** The row minima and the columns where they sit. */
  lemma Sample03142RowMinima()
    ensures MinimaAt(Sample03142, [Inf, Inf, Fin(0), Inf, Inf], [0, 0, 0, 0, 0])
  {
  }

  /** The column minima and the rows where they sit. */
  lemma Sample03142ColumnMinima()
    ensures MinimaAt(Sample03142Columns, [Fin(0), Inf, Inf, Inf, Inf], [2, 0, 0, 0, 0])
  {
  }

  /** The row pass: every cell lowered by its row's minimum. */
  lemma Sample03142RowPass()
    ensures IsSquare(Sample03142) && IsSquare(Sample03142Columns)
    ensures forall i, j :: 0 <= i < 5 && 0 <= j < 5 ==> Sample03142Columns[j][i] == Sub(Sample03142[i][j], ValueOrZero([Inf, Inf, Fin(0), Inf, Inf][i]))
  {
  }

  /** `reduce` on the closed matrix of [0, 3, 1, 4, 2]: the bound 0. */
  lemma Sample03142Bound(c: Matrix)
    requires SameCells(c, Sample03142)
    ensures IsSquare(c) && Reduce(c).bound == 0
  {
    Sample03142RowMinima();
    Sample03142ColumnMinima();
    Sample03142RowPass();
    MinimaAtSameCells(c, Sample03142, [Inf, Inf, Fin(0), Inf, Inf], [0, 0, 0, 0, 0]);
    ReduceBoundFromMinima(c, [Inf, Inf, Fin(0), Inf, Inf], [0, 0, 0, 0, 0], Sample03142Columns, [Fin(0), Inf, Inf, Inf, Inf], [2, 0, 0, 0, 0]);
  }

  /** `calculateCost` of [0, 3, 1, 4, 2] from the bound 28: edge 0 plus the reduced bound 0. */
  lemma Sample03142Cost(m: Matrix)
    requires SameCells(m, SampleRoot)
    ensures IsSquare(m) && |m| == 5 && CostIn(m)([0, 3, 1, 4] + [2], Fin(28)) == Fin(28)
  {
    Sample03142Closed(m);
    Sample03142Bound(ResolveInfinity(m, [0, 3, 1, 4, 2]));
    assert [0, 3, 1, 4] + [2] == [0, 3, 1, 4, 2];
  }

  /** The candidates' costs at level 1 of the sample descent. */
  lemma SampleChildren1(m: Matrix, cost: CostFn)
    requires IsSquare(m) && |m| == 5
    requires cost([0] + [1], Fin(25)) == Fin(35)
    requires cost([0] + [2], Fin(25)) == Fin(53)
    requires cost([0] + [3], Fin(25)) == Fin(25)
    requires cost([0] + [4], Fin(25)) == Fin(31)
    ensures ChildCosts(m, cost, [0], [true, false, false, false, false], 0, Fin(25)) == [Inf, Fin(35), Fin(53), Fin(25), Fin(31)]
  {
    var childR := ChildCosts(m, cost, [0], [true, false, false, false, false], 0, Fin(25));
    assert childR[0] == Inf;
    assert childR[1] == Fin(35);
    assert childR[2] == Fin(53);
    assert childR[3] == Fin(25);
    assert childR[4] == Fin(31);
  }

  /** At level 1 the cheapest candidate is 3, at Fin(25). */
  lemma SampleChoice1()
    ensures Choose([Inf, Fin(35), Fin(53), Fin(25), Fin(31)]) == 3 && GetMinR([Inf, Fin(35), Fin(53), Fin(25), Fin(31)]) == Fin(25)
  {
    ChooseUnique([Inf, Fin(35), Fin(53), Fin(25), Fin(31)], 3);
  }

  /** Level 1 of the sample descent: from 0 the candidates cost [Inf, Fin(35), Fin(53), Fin(25), Fin(31)], and 3 is taken. */
  lemma SampleLevel1(m: Matrix, cost: CostFn)
    requires IsSquare(m) && |m| == 5
    requires cost([0] + [1], Fin(25)) == Fin(35)
    requires cost([0] + [2], Fin(25)) == Fin(53)
    requires cost([0] + [3], Fin(25)) == Fin(25)
    requires cost([0] + [4], Fin(25)) == Fin(31)
    ensures Processor(m, cost, map[0 := -1], [0], [true, false, false, false, false], 1, 0, Fin(25))
              == Processor(m, cost, map[0 := 3], [0, 3], [true, false, false, true, false], 2, 3, Fin(25))
  {
    SampleChildren1(m, cost);
    SampleChoice1();
    assert map[0 := -1][0 := 3] == map[0 := 3];
    assert [0] + [3] == [0, 3];
    assert [true, false, false, false, false][3 := true] == [true, false, false, true, false];
    ProcessorStep(m, cost, map[0 := -1], [0], [true, false, false, false, false], 1, 0, Fin(25),
                  [Inf, Fin(35), Fin(53), Fin(25), Fin(31)], 3, Fin(25), map[0 := 3], [0, 3], [true, false, false, true, false]);
  }

  /** The candidates' costs at level 2 of the sample descent. */
  lemma SampleChildren2(m: Matrix, cost: CostFn)
    requires IsSquare(m) && |m| == 5
    requires cost([0, 3] + [1], Fin(25)) == Fin(28)
    requires cost([0, 3] + [2], Fin(25)) == Fin(37)
    requires cost([0, 3] + [4], Fin(25)) == Fin(36)
    ensures ChildCosts(m, cost, [0, 3], [true, false, false, true, false], 3, Fin(25)) == [Inf, Fin(28), Fin(37), Inf, Fin(36)]
  {
    var childR := ChildCosts(m, cost, [0, 3], [true, false, false, true, false], 3, Fin(25));
    assert childR[0] == Inf;
    assert childR[1] == Fin(28);
    assert childR[2] == Fin(37);
    assert childR[3] == Inf;
    assert childR[4] == Fin(36);
  }

  /** At level 2 the cheapest candidate is 1, at Fin(28). */
  lemma SampleChoice2()
    ensures Choose([Inf, Fin(28), Fin(37), Inf, Fin(36)]) == 1 && GetMinR([Inf, Fin(28), Fin(37), Inf, Fin(36)]) == Fin(28)
  {
    ChooseUnique([Inf, Fin(28), Fin(37), Inf, Fin(36)], 1);
  }

  /** Level 2 of the sample descent: from 3 the candidates cost [Inf, Fin(28), Fin(37), Inf, Fin(36)], and 1 is taken. */
  lemma SampleLevel2(m: Matrix, cost: CostFn)
    requires IsSquare(m) && |m| == 5
    requires cost([0, 3] + [1], Fin(25)) == Fin(28)
    requires cost([0, 3] + [2], Fin(25)) == Fin(37)
    requires cost([0, 3] + [4], Fin(25)) == Fin(36)
    ensures Processor(m, cost, map[0 := 3], [0, 3], [true, false, false, true, false], 2, 3, Fin(25))
              == Processor(m, cost, map[0 := 3, 3 := 1], [0, 3, 1], [true, true, false, true, false], 3, 1, Fin(28))
  {
    SampleChildren2(m, cost);
    SampleChoice2();
    assert map[0 := 3][3 := 1] == map[0 := 3, 3 := 1];
    assert [0, 3] + [1] == [0, 3, 1];
    assert [true, false, false, true, false][1 := true] == [true, true, false, true, false];
    ProcessorStep(m, cost, map[0 := 3], [0, 3], [true, false, false, true, false], 2, 3, Fin(25),
                  [Inf, Fin(28), Fin(37), Inf, Fin(36)], 1, Fin(28), map[0 := 3, 3 := 1], [0, 3, 1], [true, true, false, true, false]);
  }

  /** The candidates' costs at level 3 of the sample descent. */
  lemma SampleChildren3(m: Matrix, cost: CostFn)
    requires IsSquare(m) && |m| == 5
    requires cost([0, 3, 1] + [2], Fin(28)) == Fin(52)
    requires cost([0, 3, 1] + [4], Fin(28)) == Fin(28)
    ensures ChildCosts(m, cost, [0, 3, 1], [true, true, false, true, false], 1, Fin(28)) == [Inf, Inf, Fin(52), Inf, Fin(28)]
  {
    var childR := ChildCosts(m, cost, [0, 3, 1], [true, true, false, true, false], 1, Fin(28));
    assert childR[0] == Inf;
    assert childR[1] == Inf;
    assert childR[2] == Fin(52);
    assert childR[3] == Inf;
    assert childR[4] == Fin(28);
  }

  /** At level 3 the cheapest candidate is 4, at Fin(28). */
  lemma SampleChoice3()
    ensures Choose([Inf, Inf, Fin(52), Inf, Fin(28)]) == 4 && GetMinR([Inf, Inf, Fin(52), Inf, Fin(28)]) == Fin(28)
  {
    ChooseUnique([Inf, Inf, Fin(52), Inf, Fin(28)], 4);
  }

  /** Level 3 of the sample descent: from 1 the candidates cost [Inf, Inf, Fin(52), Inf, Fin(28)], and 4 is taken. */
  lemma SampleLevel3(m: Matrix, cost: CostFn)
    requires IsSquare(m) && |m| == 5
    requires cost([0, 3, 1] + [2], Fin(28)) == Fin(52)
    requires cost([0, 3, 1] + [4], Fin(28)) == Fin(28)
    ensures Processor(m, cost, map[0 := 3, 3 := 1], [0, 3, 1], [true, true, false, true, false], 3, 1, Fin(28))
              == Processor(m, cost, map[0 := 3, 3 := 1, 1 := 4], [0, 3, 1, 4], [true, true, false, true, true], 4, 4, Fin(28))
  {
    SampleChildren3(m, cost);
    SampleChoice3();
    assert map[0 := 3, 3 := 1][1 := 4] == map[0 := 3, 3 := 1, 1 := 4];
    assert [0, 3, 1] + [4] == [0, 3, 1, 4];
    assert [true, true, false, true, false][4 := true] == [true, true, false, true, true];
    ProcessorStep(m, cost, map[0 := 3, 3 := 1], [0, 3, 1], [true, true, false, true, false], 3, 1, Fin(28),
                  [Inf, Inf, Fin(52), Inf, Fin(28)], 4, Fin(28), map[0 := 3, 3 := 1, 1 := 4], [0, 3, 1, 4], [true, true, false, true, true]);
  }

  /** The candidates' costs at level 4 of the sample descent. */
  lemma SampleChildren4(m: Matrix, cost: CostFn)
    requires IsSquare(m) && |m| == 5
    requires cost([0, 3, 1, 4] + [2], Fin(28)) == Fin(28)
    ensures ChildCosts(m, cost, [0, 3, 1, 4], [true, true, false, true, true], 4, Fin(28)) == [Inf, Inf, Fin(28), Inf, Inf]
  {
    var childR := ChildCosts(m, cost, [0, 3, 1, 4], [true, true, false, true, true], 4, Fin(28));
    assert childR[0] == Inf;
    assert childR[1] == Inf;
    assert childR[2] == Fin(28);
    assert childR[3] == Inf;
    assert childR[4] == Inf;
  }

  /** At level 4 the cheapest candidate is 2, at Fin(28). */
  lemma SampleChoice4()
    ensures Choose([Inf, Inf, Fin(28), Inf, Inf]) == 2 && GetMinR([Inf, Inf, Fin(28), Inf, Inf]) == Fin(28)
  {
    ChooseUnique([Inf, Inf, Fin(28), Inf, Inf], 2);
  }

  /** Level 4 of the sample descent: from 4 the candidates cost [Inf, Inf, Fin(28), Inf, Inf], and 2 is taken. */
  lemma SampleLevel4(m: Matrix, cost: CostFn)
    requires IsSquare(m) && |m| == 5
    requires cost([0, 3, 1, 4] + [2], Fin(28)) == Fin(28)
    ensures Processor(m, cost, map[0 := 3, 3 := 1, 1 := 4], [0, 3, 1, 4], [true, true, false, true, true], 4, 4, Fin(28))
              == Descent(Fin(28), map[0 := 3, 3 := 1, 1 := 4, 4 := 2], [0, 3, 1, 4, 2])
  {
    SampleChildren4(m, cost);
    SampleChoice4();
    assert map[0 := 3, 3 := 1, 1 := 4][4 := 2] == map[0 := 3, 3 := 1, 1 := 4, 4 := 2];
    assert [0, 3, 1, 4] + [2] == [0, 3, 1, 4, 2];
    assert [true, true, false, true, true][2 := true] == [true, true, true, true, true];
    ProcessorStep(m, cost, map[0 := 3, 3 := 1, 1 := 4], [0, 3, 1, 4], [true, true, false, true, true], 4, 4, Fin(28),
                  [Inf, Inf, Fin(28), Inf, Inf], 2, Fin(28), map[0 := 3, 3 := 1, 1 := 4, 4 := 2], [0, 3, 1, 4, 2], [true, true, true, true, true]);
  }

  /** The documented run from city 1: the tour 1, 4, 2, 5, 3 at cost 28. */
  lemma Sample(mat: Matrix)
    requires SameCells(mat, SampleMatrix)
    ensures IsSquare(mat) && |mat| == 5
    ensures Tsp.Tsp(mat, 0) == Descent(Fin(28), map[0 := 3, 3 := 1, 1 := 4, 4 := 2], [0, 3, 1, 4, 2])
  {
    SampleRootReduced(mat);
    assert StartVisited(5, 0) == [true, false, false, false, false];
    var m := Reduce(mat).mat;
    Sample01Cost(m);
    Sample02Cost(m);
    Sample03Cost(m);
    Sample04Cost(m);
    Sample031Cost(m);
    Sample032Cost(m);
    Sample034Cost(m);
    Sample0312Cost(m);
    Sample0314Cost(m);
    Sample03142Cost(m);
    SampleLevel1(m, CostIn(m));
    SampleLevel2(m, CostIn(m));
    SampleLevel3(m, CostIn(m));
    SampleLevel4(m, CostIn(m));
  }
}
