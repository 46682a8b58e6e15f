/**
  Travelling salesman by reduced cost matrices, as in `daa/assign_6_tsp`:
  the root matrix is reduced row by row and then column by column, and a
  greedy descent extends a single partial tour one vertex at a time, costing
  every unvisited vertex by masking the partial path in the root matrix,
  reducing it again and adding the edge weight and the parent's bound. The
  descent never backtracks.
 */
module Tsp {
  import opened Costs

  /** A square cost matrix, `m[i][j]` the weight of the edge from i to j. */
  type Matrix = seq<seq<Cost>>

  predicate IsSquare(m: Matrix) {
    forall i :: 0 <= i < |m| ==> |m[i]| == |m|
  }

  /** No finite cell is negative. */
  predicate NonNegative(m: Matrix)
    requires IsSquare(m)
  {
    forall i, j :: 0 <= i < |m| && 0 <= j < |m| && m[i][j].Fin? ==> 0 <= m[i][j].v
  }

  /** The same cells are infinite in both matrices. */
  predicate SameInfinities(a: Matrix, b: Matrix)
    requires IsSquare(a) && IsSquare(b) && |a| == |b|
  {
    forall i, j :: 0 <= i < |a| && 0 <= j < |a| ==> (a[i][j].Inf? <==> b[i][j].Inf?)
  }

  /** Column `j`, read top to bottom. */
  function Column(m: Matrix, j: nat): (c: seq<Cost>)
    requires IsSquare(m) && j < |m|
    ensures |c| == |m|
    ensures forall k :: 0 <= k < |m| ==> c[k] == m[k][j]
  {
    seq(|m|, k requires 0 <= k < |m| => m[k][j])
  }

  // ---------------------------------------------------------------------------
  // subtractReduce

  /** Cell (i, j) lies on row `index` (decision 0) or on column `index` (decision 1). */
  predicate OnLine(index: nat, decision: int, i: nat, j: nat) {
    (decision == 0 && i == index) || (decision == 1 && j == index)
  }

  /**
    `subtractReduce`: subtract `r` from every finite cell of row `index`
    (decision 0) or column `index` (decision 1). Any other decision changes
    nothing.
   */
  function SubtractReduce(m: Matrix, index: nat, r: int, decision: int): (res: Matrix)
    requires IsSquare(m)
    requires decision == 0 || decision == 1 ==> index < |m|
    ensures |res| == |m| && IsSquare(res)
    ensures forall i, j :: 0 <= i < |m| && 0 <= j < |m| && !OnLine(index, decision, i, j) ==>
              res[i][j] == m[i][j]
    ensures forall i, j :: 0 <= i < |m| && 0 <= j < |m| && OnLine(index, decision, i, j) ==>
              (res[i][j].Inf? <==> m[i][j].Inf?) && (m[i][j].Fin? ==> m[i][j].v - res[i][j].v == r)
  {
    seq(|m|, i requires 0 <= i < |m| =>
      seq(|m|, j requires 0 <= j < |m| =>
        if OnLine(index, decision, i, j) then Sub(m[i][j], r) else m[i][j]))
  }

  /** Subtracting `-r` from the same line undoes subtracting `r`. */
  lemma SubtractReduceInverse(m: Matrix, index: nat, r: int, decision: int)
    requires IsSquare(m)
    requires decision == 0 || decision == 1 ==> index < |m|
    ensures SubtractReduce(SubtractReduce(m, index, r, decision), index, -r, decision) == m
  {
    var once := SubtractReduce(m, index, r, decision);
    var back := SubtractReduce(once, index, -r, decision);
    forall i | 0 <= i < |m|
      ensures back[i] == m[i]
    {
      forall j | 0 <= j < |m|
        ensures back[i][j] == m[i][j]
      {
      }
    }
  }

  // ---------------------------------------------------------------------------
  // minimum scans

  /** A left-to-right scan that replaces `acc` by every strictly smaller cell. */
  function ScanMin(line: seq<Cost>, acc: Cost): (c: Cost)
    ensures Le(c, acc)
  {
    if |line| == 0 then acc
    else ScanMin(line[1..], if Lt(line[0], acc) then line[0] else acc)
  }

  /** The scan ends on a cost not above any cell nor `acc`, and that is `acc` or one of the cells. */
  lemma {:induction false} ScanMinIsMin(line: seq<Cost>, acc: Cost)
    ensures var c := ScanMin(line, acc);
            && (c == acc || c in line)
            && (forall k :: 0 <= k < |line| ==> Le(c, line[k]))
  {
    if |line| > 0 {
      var acc' := if Lt(line[0], acc) then line[0] else acc;
      ScanMinIsMin(line[1..], acc');
      var c := ScanMin(line, acc);
      assert c == ScanMin(line[1..], acc');
      assert Le(c, acc');
      forall k | 0 <= k < |line|
        ensures Le(c, line[k])
      {
        if k == 0 {
          LeTransitive(c, acc', line[0]);
        } else {
          assert line[k] == line[1..][k - 1];
        }
      }
      if c != acc && c != acc' {
        assert c in line[1..];
      }
    }
  }

  /** The minimum of a row or column, scanned from infinity as `reduce` does. */
  function LineMin(line: seq<Cost>): (c: Cost)
    ensures forall k :: 0 <= k < |line| ==> Le(c, line[k])
    ensures c.Fin? ==> c in line
  {
    ScanMinIsMin(line, Inf);
    ScanMin(line, Inf)
  }

  /** The minimum is infinite exactly when every cell of the line is. */
  lemma LineMinInfinite(line: seq<Cost>)
    ensures LineMin(line).Inf? <==> forall k :: 0 <= k < |line| ==> line[k].Inf?
  {
  }

  /** Any cost that bounds the line from below and occurs in it is its minimum. */
  lemma LineMinUnique(line: seq<Cost>, c: Cost)
    requires forall k :: 0 <= k < |line| ==> Le(c, line[k])
    requires c in line
    ensures LineMin(line) == c
  {
    var k :| 0 <= k < |line| && line[k] == c;
    var r := LineMin(line);
    assert Le(r, c);
    if r.Fin? {
      var i :| 0 <= i < |line| && line[i] == r;
    }
  }

  /** `getMinR`: start from the first entry and keep every strictly smaller one. */
  function GetMinR(haystack: seq<Cost>): (m: Cost)
    requires |haystack| >= 1
    ensures Le(m, haystack[0])
  {
    ScanMin(haystack[1..], haystack[0])
  }

  /** `getMinR` returns an entry of the haystack that no entry is below. */
  lemma GetMinRIsMin(haystack: seq<Cost>)
    requires |haystack| >= 1
    ensures GetMinR(haystack) in haystack
    ensures forall k :: 0 <= k < |haystack| ==> Le(GetMinR(haystack), haystack[k])
  {
    var m := GetMinR(haystack);
    ScanMinIsMin(haystack[1..], haystack[0]);
    forall k | 1 <= k < |haystack|
      ensures Le(m, haystack[k])
    {
      assert haystack[k] == haystack[1..][k - 1];
    }
    if m != haystack[0] {
      var k :| 0 <= k < |haystack[1..]| && haystack[1..][k] == m;
      assert haystack[k + 1] == m;
    }
  }

  /** Starting from the first entry or from infinity gives the same minimum. */
  lemma GetMinRIsLineMin(haystack: seq<Cost>)
    requires |haystack| >= 1
    ensures GetMinR(haystack) == LineMin(haystack)
  {
    GetMinRIsMin(haystack);
    LineMinUnique(haystack, GetMinR(haystack));
  }

  /**
    The index the loop after `getMinR` settles on among the first `bound`
    entries: it overwrites its answer at every entry equal to `x`, so the last
    such entry wins.
   */
  function LastIndexBelow(haystack: seq<Cost>, x: Cost, bound: nat): (i: nat)
    requires bound <= |haystack| && exists k :: 0 <= k < bound && haystack[k] == x
    ensures i < bound
    decreases bound
  {
    if haystack[bound - 1] == x then bound - 1
    else LastIndexBelow(haystack, x, bound - 1)
  }

  /** The index found holds `x`, and no later entry below `bound` does. */
  lemma {:induction false} LastIndexBelowIsLast(haystack: seq<Cost>, x: Cost, bound: nat)
    requires bound <= |haystack| && exists k :: 0 <= k < bound && haystack[k] == x
    ensures var i := LastIndexBelow(haystack, x, bound);
            haystack[i] == x && forall k :: i < k < bound ==> haystack[k] != x
    decreases bound
  {
    if haystack[bound - 1] != x {
      var k :| 0 <= k < bound && haystack[k] == x;
      assert k < bound - 1;
      LastIndexBelowIsLast(haystack, x, bound - 1);
    }
  }

  /** The index the whole loop settles on. */
  function LastIndexOf(haystack: seq<Cost>, x: Cost): (i: nat)
    requires x in haystack
    ensures i < |haystack|
  {
    LastIndexBelow(haystack, x, |haystack|)
  }

  // ---------------------------------------------------------------------------
  // reduce

  /** A reduced matrix together with the lower bound that reducing it collected. */
  datatype Reduction = Reduction(mat: Matrix, bound: int)

  /** One step of the row pass: row `i` lowered by its minimum when that is finite. */
  function RowPassStep(m: Matrix, i: nat): (r: Matrix)
    requires IsSquare(m) && i < |m|
    ensures |r| == |m| && IsSquare(r)
  {
    var min := LineMin(m[i]);
    if min.Fin? then SubtractReduce(m, i, min.v, 0) else m
  }

  /** One step of the column pass: column `i` lowered by its minimum when that is finite. */
  function ColumnPassStep(m: Matrix, i: nat): (r: Matrix)
    requires IsSquare(m) && i < |m|
    ensures |r| == |m| && IsSquare(r)
  {
    var min := LineMin(Column(m, i));
    if min.Fin? then SubtractReduce(m, i, min.v, 1) else m
  }

  /** The row pass of `reduce` from row `i` on: subtract each row's finite minimum and add it up. */
  function ReduceRowsFrom(m: Matrix, i: nat): (r: Reduction)
    requires IsSquare(m) && i <= |m|
    ensures |r.mat| == |m| && IsSquare(r.mat)
    decreases |m| - i
  {
    if i == |m| then Reduction(m, 0)
    else
      var rest := ReduceRowsFrom(RowPassStep(m, i), i + 1);
      Reduction(rest.mat, ValueOrZero(LineMin(m[i])) + rest.bound)
  }

  /** The column pass of `reduce` from column `i` on. */
  function ReduceColumnsFrom(m: Matrix, i: nat): (r: Reduction)
    requires IsSquare(m) && i <= |m|
    ensures |r.mat| == |m| && IsSquare(r.mat)
    decreases |m| - i
  {
    if i == |m| then Reduction(m, 0)
    else
      var rest := ReduceColumnsFrom(ColumnPassStep(m, i), i + 1);
      Reduction(rest.mat, ValueOrZero(LineMin(Column(m, i))) + rest.bound)
  }

  /** `reduce`: the row pass, then the column pass on its result; the bound is the sum of both. */
  function Reduce(m: Matrix): (r: Reduction)
    requires IsSquare(m)
    ensures |r.mat| == |m| && IsSquare(r.mat)
  {
    var rows := ReduceRowsFrom(m, 0);
    var columns := ReduceColumnsFrom(rows.mat, 0);
    Reduction(columns.mat, rows.bound + columns.bound)
  }

  // Reference definitions of one reduction: every line minus its own minimum.

  /** A line minus its finite minimum (an all-infinite line stays as it is). */
  function ReducedLine(line: seq<Cost>): (r: seq<Cost>)
    ensures |r| == |line|
  {
    seq(|line|, j requires 0 <= j < |line| => Sub(line[j], ValueOrZero(LineMin(line))))
  }

  /** Every row minus its own minimum. */
  function RowsReduced(m: Matrix): (r: Matrix)
    requires IsSquare(m)
    ensures |r| == |m| && IsSquare(r)
  {
    seq(|m|, i requires 0 <= i < |m| => ReducedLine(m[i]))
  }

  /** Every column minus its own minimum. */
  function ColumnsReduced(m: Matrix): (r: Matrix)
    requires IsSquare(m)
    ensures |r| == |m| && IsSquare(r)
  {
    seq(|m|, i requires 0 <= i < |m| =>
      seq(|m|, j requires 0 <= j < |m| => Sub(m[i][j], ValueOrZero(LineMin(Column(m, j))))))
  }

  /** The columns of `m`, left to right. */
  function Columns(m: Matrix): (c: seq<seq<Cost>>)
    requires IsSquare(m)
    ensures |c| == |m|
  {
    seq(|m|, j requires 0 <= j < |m| => Column(m, j))
  }

  /** The sum of the finite minima of some lines. */
  function SumOfMins(lines: seq<seq<Cost>>): int {
    if |lines| == 0 then 0 else ValueOrZero(LineMin(lines[0])) + SumOfMins(lines[1..])
  }

  /** Summing the minima from line `i` on: line `i`'s minimum plus the sum after it. */
  lemma SumOfMinsFrom(lines: seq<seq<Cost>>, i: nat)
    requires i < |lines|
    ensures SumOfMins(lines[i..]) == ValueOrZero(LineMin(lines[i])) + SumOfMins(lines[i + 1..])
  {
    assert lines[i..][1..] == lines[i + 1..];
  }

  lemma ReducedLineOfInfinite(line: seq<Cost>)
    requires LineMin(line).Inf?
    ensures ReducedLine(line) == line
  {
  }

  /** `r` is `m` with the rows from `i` on each lowered by their own minimum. */
  predicate RowsReducedFrom(m: Matrix, i: nat, r: Matrix)
    requires IsSquare(m) && |r| == |m|
  {
    forall k :: 0 <= k < |m| ==> r[k] == if k < i then m[k] else ReducedLine(m[k])
  }

  /** One step of the row pass, unfolded. */
  lemma ReduceRowsFromUnfold(m: Matrix, i: nat)
    requires IsSquare(m) && i < |m|
    ensures var rest := ReduceRowsFrom(RowPassStep(m, i), i + 1);
            ReduceRowsFrom(m, i) == Reduction(rest.mat, ValueOrZero(LineMin(m[i])) + rest.bound)
  {
  }

  /** Reducing row `i` and then the rows after it reduces the rows from `i` on. */
  lemma RowsReducedFromStep(m: Matrix, i: nat, x: Matrix)
    requires IsSquare(m) && i < |m| && |x| == |m|
    requires RowsReducedFrom(RowPassStep(m, i), i + 1, x)
    ensures RowsReducedFrom(m, i, x)
  {
    RowStep(m, i);
  }

  /** One step of `ReduceRowsFromIsReference`: the claim from row `i + 1` gives it from row `i`. */
  lemma {:induction false} RowPassKeepsReference(m: Matrix, i: nat)
    requires IsSquare(m) && i < |m|
    ensures RowsReducedFrom(m, i, ReduceRowsFrom(m, i).mat)
    decreases |m| - i, 0
  {
    var next := RowPassStep(m, i);
    ReduceRowsFromIsReference(next, i + 1);
    ReduceRowsFromUnfold(m, i);
    RowsReducedFromStep(m, i, ReduceRowsFrom(next, i + 1).mat);
  }

  /** The row pass from row `i`: earlier rows are kept, later rows each lose their own minimum. */
  lemma {:induction false} ReduceRowsFromIsReference(m: Matrix, i: nat)
    requires IsSquare(m) && i <= |m|
    ensures RowsReducedFrom(m, i, ReduceRowsFrom(m, i).mat)
    decreases |m| - i, 1
  {
    if i < |m| {
      RowPassKeepsReference(m, i);
    }
  }

  /** One step of `ReduceRowsFromBound`: the claim from row `i + 1` gives it from row `i`. */
  lemma RowPassKeepsBound(m: Matrix, i: nat)
    requires IsSquare(m) && i < |m|
    requires var next := RowPassStep(m, i); ReduceRowsFrom(next, i + 1).bound == SumOfMins(next[i + 1..])
    ensures ReduceRowsFrom(m, i).bound == SumOfMins(m[i..])
  {
    ReduceRowsFromUnfold(m, i);
    assert RowPassStep(m, i)[i + 1..] == m[i + 1..] by {
      RowStep(m, i);
    }
    SumOfMinsFrom(m, i);
  }

  /** The bound of the row pass from row `i` is the sum of the minima of those rows. */
  lemma {:induction false} ReduceRowsFromBound(m: Matrix, i: nat)
    requires IsSquare(m) && i <= |m|
    ensures ReduceRowsFrom(m, i).bound == SumOfMins(m[i..])
    decreases |m| - i
  {
    if i < |m| {
      ReduceRowsFromBound(RowPassStep(m, i), i + 1);
      RowPassKeepsBound(m, i);
    }
  }

  /** One step of the row pass replaces row `i` by its reduced line and keeps every other row. */
  lemma RowStep(m: Matrix, i: nat)
    requires IsSquare(m) && i < |m|
    ensures var next := RowPassStep(m, i);
            forall k :: 0 <= k < |m| ==> next[k] == if k == i then ReducedLine(m[i]) else m[k]
  {
    var min := LineMin(m[i]);
    if min.Inf? {
      ReducedLineOfInfinite(m[i]);
    } else {
      var next := SubtractReduce(m, i, min.v, 0);
      forall k | 0 <= k < |m|
        ensures next[k] == if k == i then ReducedLine(m[i]) else m[k]
      {
        if k == i {
          assert forall j :: 0 <= j < |m| ==> next[k][j] == ReducedLine(m[i])[j];
        } else {
          assert forall j :: 0 <= j < |m| ==> next[k][j] == m[k][j];
        }
      }
    }
  }

  /** One step of the column pass lowers column `i` by its minimum and keeps every other column. */
  lemma ColumnStep(m: Matrix, i: nat)
    requires IsSquare(m) && i < |m|
    ensures var next, min := ColumnPassStep(m, i), LineMin(Column(m, i));
            forall a, b :: 0 <= a < |m| && 0 <= b < |m| ==>
              next[a][b] == if b == i then Sub(m[a][b], ValueOrZero(min)) else m[a][b]
  {
  }

  /** The columns after `i` are the same after one step of the column pass. */
  lemma ColumnStepKeepsLater(m: Matrix, i: nat)
    requires IsSquare(m) && i < |m|
    ensures Columns(ColumnPassStep(m, i))[i + 1..] == Columns(m)[i + 1..]
  {
    var next := ColumnPassStep(m, i);
    ColumnStep(m, i);
    forall b | i < b < |m|
      ensures Column(next, b) == Column(m, b)
    {
      assert forall a :: 0 <= a < |m| ==> Column(next, b)[a] == Column(m, b)[a];
    }
    assert forall b :: i + 1 <= b < |m| ==> Columns(next)[b] == Columns(m)[b];
  }

  /** `r` is `m` with the columns from `i` on each lowered by their own minimum. */
  predicate ColumnsReducedFrom(m: Matrix, i: nat, r: Matrix)
    requires IsSquare(m) && IsSquare(r) && |r| == |m|
  {
    forall a, b {:trigger r[a][b]} :: 0 <= a < |m| && 0 <= b < |m| ==>
      r[a][b] == if b < i then m[a][b] else Sub(m[a][b], ValueOrZero(LineMin(Column(m, b))))
  }

  /** Column `b` after `i` is the same after one step of the column pass. */
  lemma ColumnKept(m: Matrix, i: nat, b: nat)
    requires IsSquare(m) && i < b < |m|
    ensures Column(ColumnPassStep(m, i), b) == Column(m, b)
  {
    ColumnStepKeepsLater(m, i);
    assert Columns(ColumnPassStep(m, i))[i + 1..][b - i - 1] == Columns(m)[i + 1..][b - i - 1];
  }

  /** `ColumnsReducedFrom` at one cell. */
  lemma ColumnsReducedAt(m: Matrix, i: nat, r: Matrix, a: nat, b: nat)
    requires IsSquare(m) && IsSquare(r) && |r| == |m| && a < |m| && b < |m|
    requires ColumnsReducedFrom(m, i, r)
    ensures r[a][b] == if b < i then m[a][b] else Sub(m[a][b], ValueOrZero(LineMin(Column(m, b))))
  {
  }

  /** Reducing column `i` and then the columns after it reduces the columns from `i` on. */
  lemma ColumnsReducedFromStep(m: Matrix, i: nat, x: Matrix)
    requires IsSquare(m) && i < |m| && IsSquare(x) && |x| == |m|
    requires ColumnsReducedFrom(ColumnPassStep(m, i), i + 1, x)
    ensures ColumnsReducedFrom(m, i, x)
  {
    var next := ColumnPassStep(m, i);
    ColumnStep(m, i);
    forall a, b | 0 <= a < |m| && 0 <= b < |m|
      ensures x[a][b] == if b < i then m[a][b] else Sub(m[a][b], ValueOrZero(LineMin(Column(m, b))))
    {
      ColumnsReducedAt(next, i + 1, x, a, b);
      if i < b {
        ColumnKept(m, i, b);
      }
    }
  }

  /** One step of the column pass, unfolded. */
  lemma ReduceColumnsFromUnfold(m: Matrix, i: nat)
    requires IsSquare(m) && i < |m|
    ensures var rest := ReduceColumnsFrom(ColumnPassStep(m, i), i + 1);
            ReduceColumnsFrom(m, i) == Reduction(rest.mat, ValueOrZero(LineMin(Column(m, i))) + rest.bound)
  {
  }

  /** One step of `ReduceColumnsFromIsReference`: the claim from column `i + 1` gives it from column `i`. */
  lemma {:induction false} ColumnPassKeepsReference(m: Matrix, i: nat)
    requires IsSquare(m) && i < |m|
    ensures ColumnsReducedFrom(m, i, ReduceColumnsFrom(m, i).mat)
    decreases |m| - i, 0
  {
    var next := ColumnPassStep(m, i);
    ReduceColumnsFromIsReference(next, i + 1);
    ReduceColumnsFromUnfold(m, i);
    ColumnsReducedFromStep(m, i, ReduceColumnsFrom(next, i + 1).mat);
  }

  /** The column pass from column `i`: earlier columns are kept, later columns each lose their own minimum. */
  lemma {:induction false} ReduceColumnsFromIsReference(m: Matrix, i: nat)
    requires IsSquare(m) && i <= |m|
    ensures ColumnsReducedFrom(m, i, ReduceColumnsFrom(m, i).mat)
    decreases |m| - i, 1
  {
    if i < |m| {
      ColumnPassKeepsReference(m, i);
    }
  }

  /** One step of `ReduceColumnsFromBound`: the claim from column `i + 1` gives it from column `i`. */
  lemma ColumnPassKeepsBound(m: Matrix, i: nat)
    requires IsSquare(m) && i < |m|
    requires var next := ColumnPassStep(m, i);
             ReduceColumnsFrom(next, i + 1).bound == SumOfMins(Columns(next)[i + 1..])
    ensures ReduceColumnsFrom(m, i).bound == SumOfMins(Columns(m)[i..])
  {
    ReduceColumnsFromUnfold(m, i);
    ColumnStepKeepsLater(m, i);
    SumOfMinsFrom(Columns(m), i);
  }

  /** The bound of the column pass from column `i` is the sum of the minima of those columns. */
  lemma {:induction false} ReduceColumnsFromBound(m: Matrix, i: nat)
    requires IsSquare(m) && i <= |m|
    ensures ReduceColumnsFrom(m, i).bound == SumOfMins(Columns(m)[i..])
    decreases |m| - i
  {
    if i < |m| {
      ReduceColumnsFromBound(ColumnPassStep(m, i), i + 1);
      ColumnPassKeepsBound(m, i);
    }
  }

  /** The matrix of `reduce`: every row minus its minimum, then every column of that minus its minimum. */
  lemma ReduceMatrixIsReference(m: Matrix)
    requires IsSquare(m)
    ensures Reduce(m).mat == ColumnsReduced(RowsReduced(m))
  {
    var rows := ReduceRowsFrom(m, 0);
    assert rows.mat == RowsReduced(m) by {
      ReduceRowsFromIsReference(m, 0);
    }
    var columns := ReduceColumnsFrom(rows.mat, 0);
    ReduceColumnsFromIsReference(rows.mat, 0);
    assert forall a :: 0 <= a < |m| ==> columns.mat[a] == ColumnsReduced(rows.mat)[a];
  }

  /** The bound of `reduce`: the row minima plus the column minima taken after the row pass. */
  lemma ReduceBoundIsReference(m: Matrix)
    requires IsSquare(m)
    ensures Reduce(m).bound == SumOfMins(m) + SumOfMins(Columns(RowsReduced(m)))
  {
    var rows := ReduceRowsFrom(m, 0);
    assert rows.mat == RowsReduced(m) by {
      ReduceRowsFromIsReference(m, 0);
    }
    assert rows.bound == SumOfMins(m) by {
      ReduceRowsFromBound(m, 0);
      assert m[0..] == m;
    }
    ReduceColumnsFromBound(rows.mat, 0);
    assert Columns(rows.mat)[0..] == Columns(rows.mat);
  }

  // ---------------------------------------------------------------------------
  // what a reduction guarantees

  /** Some cell of the line is finite. */
  predicate HasFinite(line: seq<Cost>) {
    exists k :: 0 <= k < |line| && line[k].Fin?
  }

  /**
    A reduced matrix: no finite cell is negative, and every row and every
    column that holds a finite cell holds a zero.
   */
  predicate IsReduced(m: Matrix)
    requires IsSquare(m)
  {
    && NonNegative(m)
    && (forall i :: 0 <= i < |m| && HasFinite(m[i]) ==> Fin(0) in m[i])
    && (forall j :: 0 <= j < |m| && HasFinite(Column(m, j)) ==> Fin(0) in Column(m, j))
  }

  /** A line minus its minimum keeps its infinite cells, has no negative cell, and has a zero if anything is finite. */
  lemma ReducedLineFacts(line: seq<Cost>)
    ensures forall k :: 0 <= k < |line| ==> (ReducedLine(line)[k].Inf? <==> line[k].Inf?)
    ensures forall k :: 0 <= k < |line| && ReducedLine(line)[k].Fin? ==> 0 <= ReducedLine(line)[k].v
    ensures HasFinite(line) ==> Fin(0) in ReducedLine(line)
  {
    var min := LineMin(line);
    if HasFinite(line) {
      var k :| 0 <= k < |line| && line[k].Fin?;
      assert Le(min, line[k]);
      var i :| 0 <= i < |line| && line[i] == min;
      assert ReducedLine(line)[i] == Fin(0);
    }
  }

  /** When a non-negative line holds a zero, its minimum is that zero. */
  lemma ZeroIsLineMin(line: seq<Cost>)
    requires forall k :: 0 <= k < |line| && line[k].Fin? ==> 0 <= line[k].v
    requires Fin(0) in line
    ensures LineMin(line) == Fin(0)
  {
    LineMinUnique(line, Fin(0));
  }

  /** The row pass keeps infinities, leaves no negative cell and a zero in every row with a finite cell. */
  lemma RowsReducedFacts(m: Matrix)
    requires IsSquare(m)
    ensures SameInfinities(RowsReduced(m), m) && NonNegative(RowsReduced(m))
    ensures forall i :: 0 <= i < |m| && HasFinite(m[i]) ==> Fin(0) in RowsReduced(m)[i]
  {
    forall i | 0 <= i < |m|
      ensures forall j :: 0 <= j < |m| ==> (RowsReduced(m)[i][j].Inf? <==> m[i][j].Inf?)
      ensures forall j :: 0 <= j < |m| && RowsReduced(m)[i][j].Fin? ==> 0 <= RowsReduced(m)[i][j].v
      ensures HasFinite(m[i]) ==> Fin(0) in RowsReduced(m)[i]
    {
      ReducedLineFacts(m[i]);
    }
  }

  /**
    The column pass on a non-negative matrix keeps infinities, leaves no
    negative cell, a zero in every column with a finite cell, and every zero
    it is given.
   */
  lemma ColumnsReducedFacts(m: Matrix)
    requires IsSquare(m) && NonNegative(m)
    ensures SameInfinities(ColumnsReduced(m), m) && NonNegative(ColumnsReduced(m))
    ensures forall j :: 0 <= j < |m| && HasFinite(Column(m, j)) ==> Fin(0) in Column(ColumnsReduced(m), j)
    ensures forall i, j :: 0 <= i < |m| && 0 <= j < |m| && m[i][j] == Fin(0) ==> ColumnsReduced(m)[i][j] == Fin(0)
  {
    var r := ColumnsReduced(m);
    forall j | 0 <= j < |m|
      ensures Column(r, j) == ReducedLine(Column(m, j))
    {
    }
    forall j | 0 <= j < |m|
      ensures forall i :: 0 <= i < |m| ==> (r[i][j].Inf? <==> m[i][j].Inf?)
      ensures forall i :: 0 <= i < |m| && r[i][j].Fin? ==> 0 <= r[i][j].v
      ensures HasFinite(Column(m, j)) ==> Fin(0) in Column(r, j)
    {
      ReducedLineFacts(Column(m, j));
      assert forall i :: 0 <= i < |m| ==> r[i][j] == ReducedLine(Column(m, j))[i];
    }
    forall i, j | 0 <= i < |m| && 0 <= j < |m| && m[i][j] == Fin(0)
      ensures r[i][j] == Fin(0)
    {
      assert Column(m, j)[i] == Fin(0);
      ZeroIsLineMin(Column(m, j));
    }
  }

  /** Reducing the columns of a row-reduced matrix gives a reduced matrix. */
  lemma RowsThenColumnsReduced(m: Matrix)
    requires IsSquare(m)
    ensures SameInfinities(ColumnsReduced(RowsReduced(m)), m)
    ensures IsReduced(ColumnsReduced(RowsReduced(m)))
  {
    var rows := RowsReduced(m);
    var r := ColumnsReduced(rows);
    RowsReducedFacts(m);
    ColumnsReducedFacts(rows);
    forall i | 0 <= i < |m| && HasFinite(r[i])
      ensures Fin(0) in r[i]
    {
      var k :| 0 <= k < |m| && r[i][k].Fin?;
      assert HasFinite(m[i]);
      var j :| 0 <= j < |m| && rows[i][j] == Fin(0);
      assert r[i][j] == Fin(0);
    }
    forall j | 0 <= j < |m| && HasFinite(Column(r, j))
      ensures Fin(0) in Column(r, j)
    {
      var k :| 0 <= k < |m| && Column(r, j)[k].Fin?;
      assert Column(rows, j)[k].Fin?;
    }
  }

  /**
    After `reduce` the same cells are infinite as before, and the matrix is
    reduced: no finite cell is negative and every row and every column that
    holds a finite cell holds a zero.
   */
  lemma ReduceFacts(m: Matrix)
    requires IsSquare(m)
    ensures SameInfinities(Reduce(m).mat, m)
    ensures IsReduced(Reduce(m).mat)
  {
    ReduceMatrixIsReference(m);
    RowsThenColumnsReduced(m);
  }

  /** A sum of minima of lines with no negative cell is not negative. */
  lemma {:induction false} SumOfMinsNonNegative(lines: seq<seq<Cost>>)
    requires forall i, k :: 0 <= i < |lines| && 0 <= k < |lines[i]| && lines[i][k].Fin? ==> 0 <= lines[i][k].v
    ensures 0 <= SumOfMins(lines)
  {
    if |lines| > 0 {
      var min := LineMin(lines[0]);
      if min.Fin? {
        var k :| 0 <= k < |lines[0]| && lines[0][k] == min;
      }
      SumOfMinsNonNegative(lines[1..]);
    }
  }

  /** On a matrix with no negative cell the lower bound of `reduce` is not negative. */
  lemma ReduceBoundNonNegative(m: Matrix)
    requires IsSquare(m) && NonNegative(m)
    ensures 0 <= Reduce(m).bound
  {
    ReduceBoundIsReference(m);
    var rows := RowsReduced(m);
    RowsReducedFacts(m);
    SumOfMinsNonNegative(m);
    assert forall j, k :: 0 <= j < |m| && 0 <= k < |m| ==> Columns(rows)[j][k] == rows[k][j];
    SumOfMinsNonNegative(Columns(rows));
  }

  // ---------------------------------------------------------------------------
  // resolveInfinity

  /** Every vertex of the path is a vertex of the matrix. */
  predicate InRange(path: seq<nat>, n: nat) {
    forall k :: 0 <= k < |path| ==> path[k] < n
  }

  /** Taking the edge from `src` to `dest` closes row `src`, column `dest` and the way back. */
  predicate ClosedBy(src: nat, dest: nat, a: nat, b: nat) {
    a == src || b == dest || (a == dest && b == src)
  }

  /** Some pair of consecutive path vertices from position `from` on closes cell (a, b). */
  predicate Closed(path: seq<nat>, from: nat, a: nat, b: nat)
    decreases |path| - from
  {
    from + 1 < |path| && (ClosedBy(path[from], path[from + 1], a, b) || Closed(path, from + 1, a, b))
  }

  /** One iteration of `resolveInfinity`: close row `src`, column `dest` and cell (dest, src). */
  function ClosePair(m: Matrix, src: nat, dest: nat): (r: Matrix)
    requires IsSquare(m) && src < |m| && dest < |m|
    ensures |r| == |m| && IsSquare(r)
  {
    seq(|m|, a requires 0 <= a < |m| =>
      seq(|m|, b requires 0 <= b < |m| => if ClosedBy(src, dest, a, b) then Inf else m[a][b]))
  }

  /** `resolveInfinity` from pair `i` on. */
  function ResolveInfinityFrom(m: Matrix, path: seq<nat>, i: nat): (r: Matrix)
    requires IsSquare(m) && InRange(path, |m|)
    ensures |r| == |m| && IsSquare(r)
    ensures forall a, b :: 0 <= a < |m| && 0 <= b < |m| ==>
              r[a][b] == if Closed(path, i, a, b) then Inf else m[a][b]
    decreases |path| - i
  {
    if i + 1 >= |path| then m
    else ResolveInfinityFrom(ClosePair(m, path[i], path[i + 1]), path, i + 1)
  }

  /**
    `resolveInfinity`: for every consecutive pair (path[i], path[i + 1]) the
    row of path[i], the column of path[i + 1] and the cell back from
    path[i + 1] to path[i] become infinite; every other cell is kept.
   */
  function ResolveInfinity(m: Matrix, path: seq<nat>): (r: Matrix)
    requires IsSquare(m) && InRange(path, |m|)
    ensures |r| == |m| && IsSquare(r)
    ensures forall a, b :: 0 <= a < |m| && 0 <= b < |m| ==>
              r[a][b] == if Closed(path, 0, a, b) then Inf else m[a][b]
  {
    ResolveInfinityFrom(m, path, 0)
  }

  /** Closing a path twice closes nothing more. */
  lemma ResolveInfinityIdempotent(m: Matrix, path: seq<nat>)
    requires IsSquare(m) && InRange(path, |m|)
    ensures ResolveInfinity(ResolveInfinity(m, path), path) == ResolveInfinity(m, path)
  {
    var once := ResolveInfinity(m, path);
    var twice := ResolveInfinity(once, path);
    forall a | 0 <= a < |m|
      ensures twice[a] == once[a]
    {
      assert forall b :: 0 <= b < |m| ==> twice[a][b] == once[a][b];
    }
  }

  /** Closing cells keeps a matrix free of negative cells. */
  lemma ResolveInfinityNonNegative(m: Matrix, path: seq<nat>)
    requires IsSquare(m) && InRange(path, |m|) && NonNegative(m)
    ensures NonNegative(ResolveInfinity(m, path))
  {
  }

  // ---------------------------------------------------------------------------
  // calculateCost

  /**
    `calculateCost`: the parent's bound plus the weight of the last edge of the
    path plus the bound of reducing a copy of the matrix with the path closed.
    The matrix itself is a value and is not changed.
   */
  function CalculateCost(m: Matrix, path: seq<nat>, parentR: Cost): (c: Cost)
    requires IsSquare(m) && InRange(path, |m|) && 2 <= |path|
    ensures c.Fin? <==> parentR.Fin? && m[path[|path| - 2]][path[|path| - 1]].Fin?
  {
    var src := path[|path| - 2];
    var dest := path[|path| - 1];
    Plus(Plus(parentR, m[src][dest]), Fin(Reduce(ResolveInfinity(m, path)).bound))
  }

  /** On a matrix with no negative cell a child never costs less than its parent. */
  lemma CalculateCostAtLeastParent(m: Matrix, path: seq<nat>, parentR: Cost)
    requires IsSquare(m) && InRange(path, |m|) && 2 <= |path| && NonNegative(m)
    ensures Le(parentR, CalculateCost(m, path, parentR))
  {
    ResolveInfinityNonNegative(m, path);
    ReduceBoundNonNegative(ResolveInfinity(m, path));
  }

  /** The cost in reference terms: parent, edge, then the row and column minima of the closed matrix. */
  lemma CalculateCostIsReference(m: Matrix, path: seq<nat>, parentR: Cost)
    requires IsSquare(m) && InRange(path, |m|) && 2 <= |path|
    requires parentR.Fin? && m[path[|path| - 2]][path[|path| - 1]].Fin?
    ensures var closed := ResolveInfinity(m, path);
            CalculateCost(m, path, parentR).v
              == parentR.v + m[path[|path| - 2]][path[|path| - 1]].v
                 + SumOfMins(closed) + SumOfMins(Columns(RowsReduced(closed)))
  {
    ReduceBoundIsReference(ResolveInfinity(m, path));
  }

  /** How a descent costs a partial path extended by one vertex, given the parent's cost. */
  type CostFn = (seq<nat>, Cost) -> Cost

  /** `calculateCost` on `m`; a path it cannot cost (too short, or off the matrix) costs infinity. */
  function CostIn(m: Matrix): CostFn {
    (path: seq<nat>, parentR: Cost) =>
      if IsSquare(m) && InRange(path, |m|) && 2 <= |path| then CalculateCost(m, path, parentR) else Inf
  }

  /**
    What the descent relies on about its costing: the cost of a path is finite
    exactly when the parent's cost and the last edge are, and on a matrix with
    no negative cell it is not below the parent's.
   */
  ghost predicate IsPathCost(m: Matrix, cost: CostFn)
    requires IsSquare(m)
  {
    forall path: seq<nat>, parentR: Cost :: InRange(path, |m|) && 2 <= |path| ==>
      && (cost(path, parentR).Fin? <==> parentR.Fin? && m[path[|path| - 2]][path[|path| - 1]].Fin?)
      && (NonNegative(m) ==> Le(parentR, cost(path, parentR)))
  }

  /** `IsPathCost` at one path. */
  lemma PathCostAt(m: Matrix, cost: CostFn, path: seq<nat>, parentR: Cost)
    requires IsSquare(m) && IsPathCost(m, cost) && InRange(path, |m|) && 2 <= |path|
    ensures cost(path, parentR).Fin? <==> parentR.Fin? && m[path[|path| - 2]][path[|path| - 1]].Fin?
    ensures NonNegative(m) ==> Le(parentR, cost(path, parentR))
  {
  }

  /** `calculateCost` is such a costing. */
  lemma CostInIsPathCost(m: Matrix)
    requires IsSquare(m)
    ensures IsPathCost(m, CostIn(m))
  {
    forall path: seq<nat>, parentR: Cost | InRange(path, |m|) && 2 <= |path|
      ensures && (CostIn(m)(path, parentR).Fin? <==> parentR.Fin? && m[path[|path| - 2]][path[|path| - 1]].Fin?)
              && (NonNegative(m) ==> Le(parentR, CostIn(m)(path, parentR)))
    {
      if NonNegative(m) {
        CalculateCostAtLeastParent(m, path, parentR);
      }
    }
  }

  /** Extending a path by a vertex of the matrix keeps it within the matrix. */
  lemma ExtendInRange(path: seq<nat>, v: nat, n: nat)
    requires InRange(path, n) && v < n
    ensures InRange(path + [v], n)
  {
    var ext := path + [v];
    forall k | 0 <= k < |ext|
      ensures ext[k] < n
    {
      if k < |path| {
        assert ext[k] == path[k];
      }
    }
  }

  // ---------------------------------------------------------------------------
  // processor and TSP

  /** What a descent hands back: the cost it ends on, the `next` links written, and the visiting order. */
  datatype Descent = Descent(cost: Cost, next: map<nat, int>, order: seq<nat>)

  /** Vertex `i` is costed in a step from `parent`: it is neither the parent nor visited. */
  predicate IsCandidate(visited: seq<bool>, parent: nat, i: nat)
    requires i < |visited|
  {
    i != parent && !visited[i]
  }

  /**
    The first loop of `processor`: every candidate is costed along the partial
    path extended by it; every other vertex gets infinity.
   */
  function ChildCosts(m: Matrix, cost: CostFn, order: seq<nat>, visited: seq<bool>, parent: nat, parentR: Cost): (c: seq<Cost>)
    requires IsSquare(m) && |visited| == |m| && 1 <= |order| && InRange(order, |m|)
    ensures |c| == |m|
    ensures forall i {:trigger c[i]} :: 0 <= i < |m| && !IsCandidate(visited, parent, i) ==> c[i] == Inf
    ensures forall i {:trigger c[i]} :: 0 <= i < |m| && IsCandidate(visited, parent, i) ==> c[i] == cost(order + [i], parentR)
  {
    seq(|m|, i requires 0 <= i < |m| =>
      if IsCandidate(visited, parent, i) then cost(order + [i], parentR) else Inf)
  }

  /**
    The second loop of `processor`: the index whose cost equals `getMinR`,
    overwritten at every match, so on a tie the highest such index.
   */
  function Choose(childR: seq<Cost>): (i: nat)
    requires 1 <= |childR|
    ensures i < |childR|
  {
    GetMinRIsMin(childR);
    LastIndexOf(childR, GetMinR(childR))
  }

  /**
    The chosen index holds the minimum: no entry is cheaper, and every later
    entry is strictly dearer.
   */
  lemma ChooseIsCheapest(childR: seq<Cost>)
    requires 1 <= |childR|
    ensures var i := Choose(childR);
            && childR[i] == GetMinR(childR)
            && (forall k :: 0 <= k < |childR| ==> Le(childR[i], childR[k]))
            && (forall k :: i < k < |childR| ==> Lt(childR[i], childR[k]))
  {
    var m := GetMinR(childR);
    GetMinRIsMin(childR);
    LastIndexBelowIsLast(childR, m, |childR|);
    var i := Choose(childR);
    forall k | i < k < |childR|
      ensures Lt(childR[i], childR[k])
    {
      assert Le(m, childR[k]) && childR[k] != m;
    }
  }

  /** Only one index is a minimum with nothing as small after it. */
  lemma ChooseUnique(childR: seq<Cost>, i: nat)
    requires i < |childR|
    requires forall k :: 0 <= k < |childR| ==> Le(childR[i], childR[k])
    requires forall k :: i < k < |childR| ==> Lt(childR[i], childR[k])
    ensures Choose(childR) == i
  {
    var c := Choose(childR);
    ChooseIsCheapest(childR);
    assert Le(childR[c], childR[i]) && Le(childR[i], childR[c]);
  }

  /**
    `processor`: cost the candidates, take the cheapest (the highest index on
    a tie), link the parent to it, mark it visited, and go on from it until
    `count` reaches the number of vertices. Every level works on the same
    matrix `m`, the root reduced matrix.
   */
  function Processor(m: Matrix, cost: CostFn, next: map<nat, int>, order: seq<nat>, visited: seq<bool>,
                     count: nat, parent: nat, parentR: Cost): (r: Descent)
    requires IsSquare(m) && 1 <= |m| && |visited| == |m| && 1 <= |order| && InRange(order, |m|)
    ensures InRange(r.order, |m|)
    ensures |r.order| == |order| + (if count < |m| then |m| - count else 1)
    decreases |m| - count
  {
    var childR := ChildCosts(m, cost, order, visited, parent, parentR);
    var minR := GetMinR(childR);
    var minIndex := Choose(childR);
    var next' := next[parent := minIndex as int];
    var order' := order + [minIndex];
    var visited' := visited[minIndex := true];
    if count + 1 < |m| then
      Processor(m, cost, next', order', visited', count + 1, minIndex, minR)
    else
      Descent(minR, next', order')
  }

  /** The visited flags at the start: only `src` is visited. */
  function StartVisited(n: nat, src: nat): (visited: seq<bool>)
    ensures |visited| == n
    ensures forall v :: 0 <= v < n ==> (visited[v] <==> v == src)
  {
    seq(n, v => v == src)
  }

  /**
    `TSP`: reduce the matrix once, start the path at `src` (its `next` entry
    -1, only `src` visited) and descend from the root reduced matrix with its
    bound.
   */
  function Tsp(mat: Matrix, src: nat): (r: Descent)
    requires IsSquare(mat) && src < |mat|
    ensures |r.order| == (if |mat| == 1 then 2 else |mat|)
    ensures InRange(r.order, |mat|) && r.order[0] == src
  {
    var root := Reduce(mat);
    ProcessorKeepsPrefix(root.mat, CostIn(root.mat), map[src := -1], [src], StartVisited(|mat|, src), 1, src, Fin(root.bound));
    Processor(root.mat, CostIn(root.mat), map[src := -1], [src], StartVisited(|mat|, src), 1, src, Fin(root.bound))
  }

  /** With a single vertex there is no candidate, and the result is infinite. */
  lemma TspSingleVertex(mat: Matrix, src: nat)
    requires IsSquare(mat) && src < |mat| && |mat| == 1
    ensures Tsp(mat, src).cost == Inf
  {
  }

  // ---------------------------------------------------------------------------
  // the descent visits every vertex once

  /** No vertex occurs twice. */
  predicate Distinct(s: seq<nat>) {
    forall i, j :: 0 <= i < j < |s| ==> s[i] != s[j]
  }

  /** The vertex at position `k` of the order links to the one after it. */
  predicate LinkedAt(next: map<nat, int>, order: seq<nat>, k: nat)
    requires k + 1 < |order|
  {
    order[k] in next && next[order[k]] == order[k + 1]
  }

  /**
    Every vertex of the order but the last links to the one after it. The
    quantifier goes through `LinkedAt` so that a link at `k` does not by
    itself bring in the one at `k + 1`.
   */
  predicate Linked(next: map<nat, int>, order: seq<nat>) {
    forall k :: 0 <= k < |order| - 1 ==> LinkedAt(next, order, k)
  }

  /** Every edge between two different vertices has a finite weight, as `main` reads them. */
  predicate OffDiagonalFinite(m: Matrix)
    requires IsSquare(m)
  {
    forall i, j :: 0 <= i < |m| && 0 <= j < |m| && i != j ==> m[i][j].Fin?
  }

  /** The vertices 0 to n - 1. */
  function Vertices(n: nat): (s: set<nat>)
    ensures forall v :: v in s <==> 0 <= v < n
    ensures |s| == n
  {
    if n == 0 then {} else Vertices(n - 1) + {n - 1}
  }

  /** The vertices occurring in a sequence. */
  function Elements(s: seq<nat>): (e: set<nat>)
    ensures forall x :: x in e <==> x in s
  {
    set x | x in s
  }

  lemma {:induction false} SubsetCardinality(a: set<nat>, b: set<nat>)
    requires a <= b
    ensures |a| <= |b|
    decreases |a|
  {
    if a != {} {
      var x :| x in a;
      SubsetCardinality(a - {x}, b - {x});
    }
  }

  /** A sequence has at most as many different elements as it is long, and exactly as many when they are distinct. */
  lemma {:induction false} ElementsCardinality(s: seq<nat>)
    ensures |Elements(s)| <= |s|
    ensures Distinct(s) ==> |Elements(s)| == |s|
  {
    if |s| > 0 {
      ElementsCardinality(s[1..]);
      assert Elements(s) == Elements(s[1..]) + {s[0]};
      if Distinct(s) {
        assert Distinct(s[1..]) by {
          forall i, j | 0 <= i < j < |s[1..]|
            ensures s[1..][i] != s[1..][j]
          {
            assert s[1..][i] == s[i + 1] && s[1..][j] == s[j + 1];
          }
        }
        assert s[0] !in s[1..] by {
          forall k | 0 <= k < |s[1..]|
            ensures s[1..][k] != s[0]
          {
            assert s[1..][k] == s[k + 1];
          }
        }
      }
    }
  }

  /** While fewer than n vertices are visited, some vertex is not. */
  lemma ExistsUnvisited(order: seq<nat>, n: nat)
    requires InRange(order, n) && |order| < n
    ensures exists v :: 0 <= v < n && v !in order
  {
    if forall v :: 0 <= v < n ==> v in order {
      SubsetCardinality(Vertices(n), Elements(order));
      ElementsCardinality(order);
    }
  }

  /** n distinct vertices below n are all the vertices. */
  lemma DistinctCovers(order: seq<nat>, n: nat)
    requires InRange(order, n) && Distinct(order) && |order| == n
    ensures forall v :: 0 <= v < n ==> v in order
  {
    forall v | 0 <= v < n
      ensures v in order
    {
      if v !in order {
        SubsetCardinality(Elements(order), Vertices(n) - {v});
        ElementsCardinality(order);
      }
    }
  }

  /** What holds at every call of `processor` on a matrix whose off-diagonal edges are finite. */
  predicate DescentInvariant(m: Matrix, next: map<nat, int>, order: seq<nat>, visited: seq<bool>,
                             count: nat, parent: nat, parentR: Cost)
    requires IsSquare(m) && |visited| == |m|
  {
    && count == |order| && 1 <= |order| && InRange(order, |m|) && Distinct(order)
    && order[|order| - 1] == parent
    && (forall v :: 0 <= v < |m| ==> (visited[v] <==> v in order))
    && Linked(next, order)
    && parentR.Fin?
    && OffDiagonalFinite(m)
  }

  /** Some vertex is a candidate while fewer than all vertices are visited. */
  lemma SomeCandidate(m: Matrix, next: map<nat, int>, order: seq<nat>, visited: seq<bool>,
                      count: nat, parent: nat, parentR: Cost) returns (v: nat)
    requires IsSquare(m) && |visited| == |m|
    requires DescentInvariant(m, next, order, visited, count, parent, parentR) && count < |m|
    ensures v < |m| && IsCandidate(visited, parent, v)
  {
    ExistsUnvisited(order, |m|);
    v :| 0 <= v < |m| && v !in order;
  }

  /** A candidate reached by a finite edge from the parent has a finite cost. */
  lemma CandidateCostFinite(m: Matrix, cost: CostFn, order: seq<nat>, visited: seq<bool>, parent: nat, parentR: Cost, v: nat)
    requires IsSquare(m) && |visited| == |m| && 1 <= |order| && InRange(order, |m|) && IsPathCost(m, cost)
    requires order[|order| - 1] == parent && parentR.Fin?
    requires v < |m| && IsCandidate(visited, parent, v) && m[parent][v].Fin?
    ensures ChildCosts(m, cost, order, visited, parent, parentR)[v].Fin?
  {
    var path := order + [v];
    ExtendInRange(order, v, |m|);
    assert path[|path| - 2] == parent && path[|path| - 1] == v;
    PathCostAt(m, cost, path, parentR);
  }

  /** Once some candidate has a finite cost, the chosen vertex is a candidate with the minimum, finite cost. */
  lemma ChooseFindsCandidate(m: Matrix, cost: CostFn, order: seq<nat>, visited: seq<bool>, parent: nat, parentR: Cost, v: nat)
    requires IsSquare(m) && 1 <= |m| && |visited| == |m| && 1 <= |order| && InRange(order, |m|)
    requires v < |m| && ChildCosts(m, cost, order, visited, parent, parentR)[v].Fin?
    ensures var childR := ChildCosts(m, cost, order, visited, parent, parentR);
            var i := Choose(childR);
            IsCandidate(visited, parent, i) && childR[i].Fin? && GetMinR(childR) == childR[i]
  {
    var childR := ChildCosts(m, cost, order, visited, parent, parentR);
    var i := Choose(childR);
    ChooseIsCheapest(childR);
    assert Le(childR[i], childR[v]);
  }

  /** A step of the descent picks an unvisited vertex other than the parent, at a finite cost. */
  lemma StepChoosesCandidate(m: Matrix, cost: CostFn, next: map<nat, int>, order: seq<nat>, visited: seq<bool>,
                             count: nat, parent: nat, parentR: Cost)
    requires IsSquare(m) && 1 <= |m| && |visited| == |m| && 1 <= |order| && InRange(order, |m|)
    requires IsPathCost(m, cost)
    requires DescentInvariant(m, next, order, visited, count, parent, parentR) && count < |m|
    ensures var childR := ChildCosts(m, cost, order, visited, parent, parentR);
            var i := Choose(childR);
            IsCandidate(visited, parent, i) && childR[i].Fin? && GetMinR(childR) == childR[i]
  {
    var v := SomeCandidate(m, next, order, visited, count, parent, parentR);
    assert m[parent][v].Fin?;
    CandidateCostFinite(m, cost, order, visited, parent, parentR, v);
    ChooseFindsCandidate(m, cost, order, visited, parent, parentR, v);
  }

  /** One level of `processor`, unfolded. */
  lemma ProcessorUnfold(m: Matrix, cost: CostFn, next: map<nat, int>, order: seq<nat>, visited: seq<bool>,
                        count: nat, parent: nat, parentR: Cost)
    requires IsSquare(m) && 1 <= |m| && |visited| == |m| && 1 <= |order| && InRange(order, |m|)
    ensures var childR := ChildCosts(m, cost, order, visited, parent, parentR);
            var i := Choose(childR);
            var minR := GetMinR(childR);
            Processor(m, cost, next, order, visited, count, parent, parentR)
              == if count + 1 < |m| then Processor(m, cost, next[parent := i as int], order + [i], visited[i := true], count + 1, i, minR)
                 else Descent(minR, next[parent := i as int], order + [i])
  {
  }

  /** Extending the path by a candidate at a finite cost keeps the invariant. */
  lemma ExtendKeepsInvariant(m: Matrix, next: map<nat, int>, order: seq<nat>, visited: seq<bool>,
                             count: nat, parent: nat, parentR: Cost, i: nat, minR: Cost)
    requires IsSquare(m) && |visited| == |m|
    requires DescentInvariant(m, next, order, visited, count, parent, parentR)
    requires i < |m| && IsCandidate(visited, parent, i) && minR.Fin?
    ensures DescentInvariant(m, next[parent := i as int], order + [i], visited[i := true], count + 1, i, minR)
  {
    var next' := next[parent := i as int];
    var order' := order + [i];
    var visited' := visited[i := true];
    assert i !in order;
    assert Distinct(order');
    assert Linked(next', order') by {
      forall k | 0 <= k < |order'| - 1
        ensures LinkedAt(next', order', k)
      {
        if k < |order| - 1 {
          assert LinkedAt(next, order, k);
          assert order[k] != order[|order| - 1];
        }
      }
    }
    assert forall v :: 0 <= v < |m| ==> (visited'[v] <==> v in order');
  }

  /** On a matrix with no negative cell the chosen cost is not below the parent's. */
  lemma StepNotBelowParent(m: Matrix, cost: CostFn, order: seq<nat>, visited: seq<bool>, parent: nat, parentR: Cost)
    requires IsSquare(m) && 1 <= |m| && |visited| == |m| && 1 <= |order| && InRange(order, |m|)
    requires NonNegative(m) && IsPathCost(m, cost)
    requires IsCandidate(visited, parent, Choose(ChildCosts(m, cost, order, visited, parent, parentR)))
    requires var childR := ChildCosts(m, cost, order, visited, parent, parentR);
             GetMinR(childR) == childR[Choose(childR)]
    ensures Le(parentR, GetMinR(ChildCosts(m, cost, order, visited, parent, parentR)))
  {
    var i := Choose(ChildCosts(m, cost, order, visited, parent, parentR));
    ExtendInRange(order, i, |m|);
    PathCostAt(m, cost, order + [i], parentR);
  }

  /** One step of the descent keeps the invariant, and on a matrix with no negative cell does not lower the bound. */
  lemma StepKeepsInvariant(m: Matrix, cost: CostFn, next: map<nat, int>, order: seq<nat>, visited: seq<bool>,
                           count: nat, parent: nat, parentR: Cost)
    requires IsSquare(m) && 1 <= |m| && |visited| == |m| && 1 <= |order| && InRange(order, |m|)
    requires IsPathCost(m, cost)
    requires DescentInvariant(m, next, order, visited, count, parent, parentR) && count < |m|
    ensures var childR := ChildCosts(m, cost, order, visited, parent, parentR);
            var i := Choose(childR);
            var minR := GetMinR(childR);
            && i < |m|
            && DescentInvariant(m, next[parent := i as int], order + [i], visited[i := true], count + 1, i, minR)
            && (NonNegative(m) ==> Le(parentR, minR))
  {
    var childR := ChildCosts(m, cost, order, visited, parent, parentR);
    var i := Choose(childR);
    StepChoosesCandidate(m, cost, next, order, visited, count, parent, parentR);
    ExtendKeepsInvariant(m, next, order, visited, count, parent, parentR, i, GetMinR(childR));
    if NonNegative(m) {
      StepNotBelowParent(m, cost, order, visited, parent, parentR);
    }
  }

  /**
    What the descent promises about its result: a finite cost, no vertex
    twice, each vertex linked to the next, and on a matrix with no negative
    cell a cost not below `parentR`.
   */
  predicate IsTourResult(m: Matrix, parentR: Cost, r: Descent)
    requires IsSquare(m)
  {
    r.cost.Fin? && Distinct(r.order) && Linked(r.next, r.order) && (NonNegative(m) ==> Le(parentR, r.cost))
  }

  /** A result promised from a cost `minR` at least `parentR` is also promised from `parentR`. */
  lemma TourResultFromChild(m: Matrix, parentR: Cost, minR: Cost, r: Descent)
    requires IsSquare(m)
    requires IsTourResult(m, minR, r) && (NonNegative(m) ==> Le(parentR, minR))
    ensures IsTourResult(m, parentR, r)
  {
    if NonNegative(m) {
      LeTransitive(parentR, minR, r.cost);
    }
  }

  /**
    The rest of the descent from a child state satisfying the invariant is a
    tour result, and one promised from the child's cost `minR` is also promised
    from any `parentR` not above it on a matrix with no negative cell.
   */
  lemma {:induction false} ChildTour(m: Matrix, cost: CostFn, next: map<nat, int>, order: seq<nat>, visited: seq<bool>,
                                     count: nat, parent: nat, minR: Cost, parentR: Cost)
    requires IsSquare(m) && 1 <= |m| && |visited| == |m| && 1 <= |order| && InRange(order, |m|)
    requires IsPathCost(m, cost)
    requires DescentInvariant(m, next, order, visited, count, parent, minR) && count < |m|
    requires NonNegative(m) ==> Le(parentR, minR)
    ensures IsTourResult(m, parentR, Processor(m, cost, next, order, visited, count, parent, minR))
    decreases |m| - count, 2
  {
    ProcessorTour(m, cost, next, order, visited, count, parent, minR);
    TourResultFromChild(m, parentR, minR, Processor(m, cost, next, order, visited, count, parent, minR));
  }

  /**
    From a state satisfying the invariant the descent visits every remaining
    vertex exactly once, links each vertex to the next, and ends on a finite
    cost; on a matrix with no negative cell that cost is at least the
    parent's.
   */
  lemma {:induction false} ProcessorTour(m: Matrix, cost: CostFn, next: map<nat, int>, order: seq<nat>, visited: seq<bool>,
                                         count: nat, parent: nat, parentR: Cost)
    requires IsSquare(m) && 1 <= |m| && |visited| == |m| && 1 <= |order| && InRange(order, |m|)
    requires IsPathCost(m, cost)
    requires DescentInvariant(m, next, order, visited, count, parent, parentR) && count < |m|
    ensures IsTourResult(m, parentR, Processor(m, cost, next, order, visited, count, parent, parentR))
    decreases |m| - count, 1
  {
    var childR := ChildCosts(m, cost, order, visited, parent, parentR);
    var i := Choose(childR);
    var minR := GetMinR(childR);
    ProcessorUnfold(m, cost, next, order, visited, count, parent, parentR);
    StepKeepsInvariant(m, cost, next, order, visited, count, parent, parentR);
    ExtendInRange(order, i, |m|);
    if count + 1 < |m| {
      ChildTour(m, cost, next[parent := i as int], order + [i], visited[i := true], count + 1, i, minR, parentR);
    } else {
      TourResultFromChild(m, parentR, minR, Descent(minR, next[parent := i as int], order + [i]));
    }
  }

  /** The descent only appends: the order it returns starts with the order it was given. */
  lemma {:induction false} ProcessorKeepsPrefix(m: Matrix, cost: CostFn, next: map<nat, int>, order: seq<nat>, visited: seq<bool>,
                                                count: nat, parent: nat, parentR: Cost)
    requires IsSquare(m) && 1 <= |m| && |visited| == |m| && 1 <= |order| && InRange(order, |m|)
    ensures var r := Processor(m, cost, next, order, visited, count, parent, parentR);
            forall k :: 0 <= k < |order| ==> r.order[k] == order[k]
    decreases |m| - count
  {
    var childR := ChildCosts(m, cost, order, visited, parent, parentR);
    var i := Choose(childR);
    var order' := order + [i];
    ProcessorUnfold(m, cost, next, order, visited, count, parent, parentR);
    assert forall k :: 0 <= k < |order| ==> order'[k] == order[k];
    if count + 1 < |m| {
      ExtendInRange(order, i, |m|);
      ProcessorKeepsPrefix(m, cost, next[parent := i as int], order', visited[i := true], count + 1, i, GetMinR(childR));
    }
  }

  /** The vertex `processor` appends first is the one `Choose` returns for the child costs. */
  lemma ProcessorFirstChoice(m: Matrix, cost: CostFn, next: map<nat, int>, order: seq<nat>, visited: seq<bool>,
                             count: nat, parent: nat, parentR: Cost)
    requires IsSquare(m) && 1 <= |m| && |visited| == |m| && 1 <= |order| && InRange(order, |m|)
    ensures var r := Processor(m, cost, next, order, visited, count, parent, parentR);
            |order| < |r.order| && r.order[|order|] == Choose(ChildCosts(m, cost, order, visited, parent, parentR))
  {
    var childR := ChildCosts(m, cost, order, visited, parent, parentR);
    var i := Choose(childR);
    ProcessorUnfold(m, cost, next, order, visited, count, parent, parentR);
    var r := Processor(m, cost, next, order, visited, count, parent, parentR);
    var order' := order + [i];
    if count + 1 < |m| {
      ProcessorKeepsPrefix(m, cost, next[parent := i as int], order', visited[i := true], count + 1, i, GetMinR(childR));
      assert order'[|order|] == i;
    }
  }

  /**
    The first step of `processor` picks the cheapest candidate, and among
    equally cheap candidates the one with the highest index.
   */
  lemma ProcessorPicksCheapest(m: Matrix, cost: CostFn, next: map<nat, int>, order: seq<nat>, visited: seq<bool>,
                               count: nat, parent: nat, parentR: Cost)
    requires IsSquare(m) && 1 <= |m| && |visited| == |m| && 1 <= |order| && InRange(order, |m|)
    requires IsPathCost(m, cost)
    requires DescentInvariant(m, next, order, visited, count, parent, parentR) && count < |m|
    ensures var childR := ChildCosts(m, cost, order, visited, parent, parentR);
            var v := Processor(m, cost, next, order, visited, count, parent, parentR).order[|order|];
            && IsCandidate(visited, parent, v)
            && (forall i :: 0 <= i < |m| && IsCandidate(visited, parent, i) ==> Le(childR[v], childR[i]))
            && (forall i :: v < i < |m| && IsCandidate(visited, parent, i) ==> Lt(childR[v], childR[i]))
  {
    StepChoosesCandidate(m, cost, next, order, visited, count, parent, parentR);
    ProcessorFirstChoice(m, cost, next, order, visited, count, parent, parentR);
    ChooseIsCheapest(ChildCosts(m, cost, order, visited, parent, parentR));
  }

  /**
    On a matrix whose off-diagonal edges are all finite and with at least two
    vertices, the descent from `src` visits every vertex exactly once, starting
    at `src`, links each vertex to the next, and ends on a finite cost. If no
    edge weight is negative that cost is at least the root lower bound.
   */
  lemma TspVisitsEveryVertexOnce(mat: Matrix, src: nat)
    requires IsSquare(mat) && src < |mat| && 2 <= |mat| && OffDiagonalFinite(mat)
    ensures var r := Tsp(mat, src);
            && r.cost.Fin? && |r.order| == |mat| && r.order[0] == src
            && Distinct(r.order) && (forall v :: 0 <= v < |mat| ==> v in r.order)
            && Linked(r.next, r.order)
    ensures NonNegative(mat) ==> Le(Fin(Reduce(mat).bound), Tsp(mat, src).cost)
  {
    var root := Reduce(mat);
    ReduceFacts(mat);
    var visited := StartVisited(|mat|, src);
    assert forall v :: 0 <= v < |mat| ==> (visited[v] <==> v in [src]);
    CostInIsPathCost(root.mat);
    ProcessorTour(root.mat, CostIn(root.mat), map[src := -1], [src], visited, 1, src, Fin(root.bound));
    var r := Tsp(mat, src);
    DistinctCovers(r.order, |mat|);
  }

  // ---------------------------------------------------------------------------
  // evaluating the model on given cells: `reduce` from witnessed minima,
  // `resolveInfinity` one vertex at a time, `processor` one level at a time

  /** The sum of the finite values of some costs (an infinite one counts 0). */
  function FiniteSum(s: seq<Cost>): int {
    if |s| == 0 then 0 else ValueOrZero(s[0]) + FiniteSum(s[1..])
  }

  /**
    `mins[i]` is the minimum of line `i`, with a witness: it sits at position
    `at[i]` of the line, and no cell of the line is below it.
   */
  predicate MinimaAt(lines: seq<seq<Cost>>, mins: seq<Cost>, at: seq<nat>) {
    && |mins| == |lines| && |at| == |lines|
    && (forall i :: 0 <= i < |lines| ==> at[i] < |lines[i]| && lines[i][at[i]] == mins[i])
    && (forall i, k :: 0 <= i < |lines| && 0 <= k < |lines[i]| ==> Le(mins[i], lines[i][k]))
  }

  /** `m` holds the cells of `l`, one by one. */
  predicate SameCells(m: Matrix, l: Matrix) {
    && |m| == |l| && IsSquare(m) && IsSquare(l)
    && forall i, j :: 0 <= i < |l| && 0 <= j < |l| ==> m[i][j] == l[i][j]
  }

  /** Witnessed minima carry over to a matrix with the same cells. */
  lemma MinimaAtSameCells(m: Matrix, l: Matrix, mins: seq<Cost>, at: seq<nat>)
    requires SameCells(m, l) && MinimaAt(l, mins, at)
    ensures MinimaAt(m, mins, at)
  {
    forall i | 0 <= i < |m|
      ensures at[i] < |m[i]| && m[i][at[i]] == mins[i]
    {
      assert l[i][at[i]] == mins[i];
    }
  }

  /** A witnessed minimum is the line's minimum. */
  lemma MinimumAt(lines: seq<seq<Cost>>, mins: seq<Cost>, at: seq<nat>, i: nat)
    requires MinimaAt(lines, mins, at) && i < |lines|
    ensures LineMin(lines[i]) == mins[i]
  {
    assert lines[i][at[i]] == mins[i];
    LineMinUnique(lines[i], mins[i]);
  }

  /** Summing the minima line by line gives the sum of the witnessed minima. */
  lemma {:induction false} SumOfMinsIsFiniteSum(lines: seq<seq<Cost>>, mins: seq<Cost>, at: seq<nat>)
    requires MinimaAt(lines, mins, at)
    ensures SumOfMins(lines) == FiniteSum(mins)
  {
    if |lines| > 0 {
      MinimumAt(lines, mins, at, 0);
      assert MinimaAt(lines[1..], mins[1..], at[1..]) by {
        forall i | 0 <= i < |lines| - 1
          ensures at[1..][i] < |lines[1..][i]| && lines[1..][i][at[1..][i]] == mins[1..][i]
        {
          assert lines[1..][i] == lines[i + 1];
        }
        forall i, k | 0 <= i < |lines| - 1 && 0 <= k < |lines[1..][i]|
          ensures Le(mins[1..][i], lines[1..][i][k])
        {
          assert lines[1..][i] == lines[i + 1];
        }
      }
      SumOfMinsIsFiniteSum(lines[1..], mins[1..], at[1..]);
    }
  }

  /** Column `j` after the row pass, from the listed row minima. */
  lemma ColumnAfterRowPass(m: Matrix, rowMins: seq<Cost>, rowAt: seq<nat>, cols: Matrix, j: nat)
    requires IsSquare(m) && MinimaAt(m, rowMins, rowAt) && |cols| == |m| && IsSquare(cols) && j < |m|
    requires forall a, b :: 0 <= a < |m| && 0 <= b < |m| ==> cols[b][a] == Sub(m[a][b], ValueOrZero(rowMins[a]))
    ensures Column(RowsReduced(m), j) == cols[j]
  {
    forall i | 0 <= i < |m|
      ensures Column(RowsReduced(m), j)[i] == cols[j][i]
    {
      MinimumAt(m, rowMins, rowAt, i);
    }
  }

  /**
    The bound of `reduce` from the minima alone: given every row's minimum and
    the columns after the row pass, with their minima, the bound is the sum of
    all of them.
   */
  lemma ReduceBoundFromMinima(m: Matrix, rowMins: seq<Cost>, rowAt: seq<nat>, cols: Matrix, colMins: seq<Cost>, colAt: seq<nat>)
    requires IsSquare(m) && MinimaAt(m, rowMins, rowAt) && |cols| == |m| && IsSquare(cols) && MinimaAt(cols, colMins, colAt)
    requires forall i, j :: 0 <= i < |m| && 0 <= j < |m| ==> cols[j][i] == Sub(m[i][j], ValueOrZero(rowMins[i]))
    ensures Reduce(m).bound == FiniteSum(rowMins) + FiniteSum(colMins)
  {
    ReduceBoundIsReference(m);
    SumOfMinsIsFiniteSum(m, rowMins, rowAt);
    var rows := RowsReduced(m);
    forall j | 0 <= j < |m|
      ensures Columns(rows)[j] == cols[j]
    {
      ColumnAfterRowPass(m, rowMins, rowAt, cols, j);
    }
    assert Columns(rows) == cols;
    SumOfMinsIsFiniteSum(cols, colMins, colAt);
  }

  /**
    `reduce` from the minima: the result holds, cell by cell, every column
    after the row pass lowered by that column's minimum, and the bound is the
    sum of all minima.
   */
  lemma ReduceFromMinima(m: Matrix, rowMins: seq<Cost>, rowAt: seq<nat>, cols: Matrix, colMins: seq<Cost>, colAt: seq<nat>, reduced: Matrix)
    requires IsSquare(m) && MinimaAt(m, rowMins, rowAt) && |cols| == |m| && IsSquare(cols) && MinimaAt(cols, colMins, colAt)
    requires forall i, j :: 0 <= i < |m| && 0 <= j < |m| ==> cols[j][i] == Sub(m[i][j], ValueOrZero(rowMins[i]))
    requires |reduced| == |m| && IsSquare(reduced)
    requires forall i, j :: 0 <= i < |m| && 0 <= j < |m| ==> reduced[i][j] == Sub(cols[j][i], ValueOrZero(colMins[j]))
    ensures Reduce(m).bound == FiniteSum(rowMins) + FiniteSum(colMins)
    ensures SameCells(Reduce(m).mat, reduced)
  {
    ReduceBoundFromMinima(m, rowMins, rowAt, cols, colMins, colAt);
    ReduceMatrixIsReference(m);
    forall i, j | 0 <= i < |m| && 0 <= j < |m|
      ensures Reduce(m).mat[i][j] == reduced[i][j]
    {
      ColumnAfterRowPass(m, rowMins, rowAt, cols, j);
      MinimumAt(cols, colMins, colAt, j);
    }
  }

  /** Closing one more pair closes what the shorter path closes and the new pair's cells. */
  lemma {:induction false} ClosedSnoc(path: seq<nat>, x: nat, from: nat, a: nat, b: nat)
    requires from < |path|
    ensures Closed(path + [x], from, a, b) <==> Closed(path, from, a, b) || ClosedBy(path[|path| - 1], x, a, b)
    decreases |path| - from
  {
    var ext := path + [x];
    assert ext[from] == path[from] && ext[from + 1] == (if from + 1 < |path| then path[from + 1] else x);
    if from + 1 < |path| {
      ClosedSnoc(path, x, from + 1, a, b);
    }
  }

  /** `resolveInfinity` on a path extended by a vertex: one more `ClosePair` on the shorter path's result. */
  lemma ResolveInfinitySnoc(m: Matrix, path: seq<nat>, x: nat)
    requires IsSquare(m) && InRange(path, |m|) && 1 <= |path| && x < |m|
    ensures InRange(path + [x], |m|)
    ensures ResolveInfinity(m, path + [x]) == ClosePair(ResolveInfinity(m, path), path[|path| - 1], x)
  {
    ExtendInRange(path, x, |m|);
    var l := ResolveInfinity(m, path + [x]);
    var r := ClosePair(ResolveInfinity(m, path), path[|path| - 1], x);
    forall a | 0 <= a < |m|
      ensures l[a] == r[a]
    {
      forall b | 0 <= b < |m|
        ensures l[a][b] == r[a][b]
      {
        ClosedSnoc(path, x, 0, a, b);
      }
    }
  }

  /**
    One level of `processor` from known child costs: with the costs, the
    chosen index and the minimum in hand, the level links, appends and marks
    that index and goes on (or stops after the last vertex).
   */
  lemma ProcessorStep(m: Matrix, cost: CostFn, next: map<nat, int>, order: seq<nat>, visited: seq<bool>,
                      count: nat, parent: nat, parentR: Cost,
                      childR: seq<Cost>, i: nat, minR: Cost, next': map<nat, int>, order': seq<nat>, visited': seq<bool>)
    requires IsSquare(m) && 1 <= |m| && |visited| == |m| && 1 <= |order| && InRange(order, |m|)
    requires ChildCosts(m, cost, order, visited, parent, parentR) == childR
    requires 1 <= |childR| && Choose(childR) == i && GetMinR(childR) == minR
    requires next' == next[parent := i as int] && order' == order + [i] && visited' == visited[i := true]
    ensures count + 1 < |m| ==> Processor(m, cost, next, order, visited, count, parent, parentR)
                                 == Processor(m, cost, next', order', visited', count + 1, i, minR)
    ensures count + 1 >= |m| ==> Processor(m, cost, next, order, visited, count, parent, parentR)
                                  == Descent(minR, next', order')
  {
    ProcessorUnfold(m, cost, next, order, visited, count, parent, parentR);
  }
}
