/** The pivot search of gauss.c starts at row i+i instead of i+1. A 4 × 4 system with a
    unique solution shows the as-written search giving up on it, and the search that
    starts at the next row solving it. */
module PivotSearchFinding {

  import opened FlatMatrix
  import opened Gauss

  /** x0 = 1, x1 = 2, x3 = 3, x2 = 4: the identity with its last two rows exchanged. */
  const M4: Matrix := [
    1.0, 0.0, 0.0, 0.0, 1.0,
    0.0, 1.0, 0.0, 0.0, 2.0,
    0.0, 0.0, 0.0, 1.0, 3.0,
    0.0, 0.0, 1.0, 0.0, 4.0]

  /** The solution of `M4`. */
  const X4: seq<real> := [1.0, 2.0, 4.0, 3.0]

  /** Row r of m has coefficient 1 in column k and 0 elsewhere. */
  ghost predicate UnitRow(m: Matrix, n: nat, r: nat, k: nat)
    requires Shaped(m, n) && r < n
  {
    forall c: nat :: c < n ==> Get(m, n, r, c) == if c == k then 1.0 else 0.0
  }

  /** Against a unit row, a row sum picks out one entry of x. */
  lemma {:induction false} RowSumUnit(m: Matrix, n: nat, r: nat, k: nat, x: seq<real>, lo: nat)
    requires Shaped(m, n) && r < n && k < n && |x| == n && lo <= n && UnitRow(m, n, r, k)
    ensures RowSum(m, n, r, x, lo) == if lo <= k then x[k] else 0.0
    decreases n - lo
  {
    if lo < n {
      RowSumUnit(m, n, r, k, x, lo + 1);
    }
  }

  /** Against a unit row, the back-substitution sum picks out one entry of the last column. */
  lemma {:induction false} DotUnit(m: Matrix, n: nat, r: nat, k: nat, lo: nat)
    requires Shaped(m, n) && r < n && k < n && lo <= n && UnitRow(m, n, r, k)
    ensures Dot(m, n, r, lo) == if lo <= k then Get(m, n, k, n) else 0.0
    decreases n - lo
  {
    if lo < n {
      DotUnit(m, n, r, k, lo + 1);
    }
  }

  /** The coefficient part of m is the 4 × 4 identity with rows 2 and 3 exchanged. */
  ghost predicate Exchanged23(m: Matrix)
    requires Shaped(m, 4)
  {
    UnitRow(m, 4, 0, 0) && UnitRow(m, 4, 1, 1) && UnitRow(m, 4, 2, 3) && UnitRow(m, 4, 3, 2)
  }

  /** `M4` is such a system, with right-hand side 1, 2, 3, 4. */
  lemma M4Rows()
    ensures Shaped(M4, 4) && Exchanged23(M4)
    ensures Get(M4, 4, 0, 4) == 1.0 && Get(M4, 4, 1, 4) == 2.0 && Get(M4, 4, 2, 4) == 3.0 && Get(M4, 4, 3, 4) == 4.0
  {
    assert Size(4) == 20;
  }

  /** Such a system has exactly one solution, x = (b0, b1, b3, b2); for `M4` it is `X4`. */
  lemma ExchangedHasUniqueSolution(m: Matrix)
    requires Shaped(m, 4) && Exchanged23(m)
    ensures Satisfies(m, 4, [Get(m, 4, 0, 4), Get(m, 4, 1, 4), Get(m, 4, 3, 4), Get(m, 4, 2, 4)])
    ensures forall x: seq<real> :: |x| == 4 && Satisfies(m, 4, x) ==>
      x == [Get(m, 4, 0, 4), Get(m, 4, 1, 4), Get(m, 4, 3, 4), Get(m, 4, 2, 4)]
  {
    forall x: seq<real> | |x| == 4
      ensures RowSum(m, 4, 0, x, 0) == x[0] && RowSum(m, 4, 1, x, 0) == x[1]
      ensures RowSum(m, 4, 2, x, 0) == x[3] && RowSum(m, 4, 3, x, 0) == x[2]
    {
      RowSumUnit(m, 4, 0, 0, x, 0);
      RowSumUnit(m, 4, 1, 1, x, 0);
      RowSumUnit(m, 4, 2, 3, x, 0);
      RowSumUnit(m, 4, 3, 2, x, 0);
    }
  }

  lemma M4HasUniqueSolution()
    ensures Shaped(M4, 4) && Satisfies(M4, 4, X4)
    ensures forall x: seq<real> :: |x| == 4 && Satisfies(M4, 4, x) ==> x == X4
  {
    M4Rows();
    ExchangedHasUniqueSolution(M4);
  }

  /** A stage whose column is already clear below a nonzero pivot changes nothing. */
  lemma StageNoop(m: Matrix, n: nat, i: nat)
    requires Shaped(m, n) && i < n && Get(m, n, i, i) != 0.0
    requires forall r: nat :: i < r < n ==> Get(m, n, r, i) == 0.0
    ensures Eliminated(m, n, i) == m
  {
    EliminatedCells(m, n, i);
    Ext(Eliminated(m, n, i), m, n);
  }

  /** A stage with a nonzero pivot and a clear column hands the same matrix to the next stage. */
  lemma ForwardSkipsCleanStage(m: Matrix, n: nat, i: nat, s: Search)
    requires Shaped(m, n) && i < n - 1 && Get(m, n, i, i) != 0.0
    requires forall r: nat :: i < r < n ==> Get(m, n, r, i) == 0.0
    ensures Forward(m, n, i, s) == Forward(m, n, i + 1, s)
  {
    assert Pivoted(m, n, i, s) == m;
    StageNoop(m, n, i);
  }

  /** As written: the search of stage 2 starts at row 4, past the last row, so the run
      gives up on every such system although row 3 holds a nonzero entry in column 2. */
  lemma AsWrittenGivesUp(m: Matrix)
    requires Shaped(m, 4) && Exchanged23(m)
    ensures Get(m, 4, 3, 2) != 0.0
    ensures Solve(m, 4, AsWritten) == NoUniqueSolution(2)
  {
    ExchangedFirstStages(m, AsWritten);
    ForwardAbortsAt(m, 4, 2, AsWritten);
  }

  /** The as-written run gives up on `M4`, whose solution is unique. */
  lemma AsWrittenGivesUpOnM4()
    ensures Shaped(M4, 4) && Solve(M4, 4, AsWritten) == NoUniqueSolution(2)
    ensures Satisfies(M4, 4, X4)
  {
    M4Rows();
    AsWrittenGivesUp(M4);
    M4HasUniqueSolution();
  }

  /** Corrected: with the search starting at the next row, a stage gives up exactly when
      column i is zero on the diagonal and in every row below it, which is the case the
      message "Unique solution does not exist" describes. */
  lemma NextRowGivesUpOnlyOnZeroColumn(m: Matrix, n: nat, i: nat)
    requires Shaped(m, n) && i < n - 1
    ensures Forward(m, n, i, FromNextRow) == NoUniqueSolution(i) <==>
      forall j: nat :: i <= j < n ==> Get(m, n, j, i) == 0.0
  {
    ForwardAbortsAt(m, n, i, FromNextRow);
  }

  /** A stage whose pivot check exchanges row i with row j and then finds column i
      already clear below the pivot hands the exchanged matrix to the next stage. */
  lemma ForwardSkipsSwappedStage(m: Matrix, n: nat, i: nat, s: Search, j: nat)
    requires Shaped(m, n) && i < n - 1 && j < n && PivotRow(m, n, i, s) == j
    requires Get(Swapped(m, n, i, j), n, i, i) != 0.0
    requires forall r: nat :: i < r < n ==> Get(Swapped(m, n, i, j), n, r, i) == 0.0
    ensures Forward(m, n, i, s) == Forward(Swapped(m, n, i, j), n, i + 1, s)
  {
    PivotedIsSwapped(m, n, i, s);
    StageNoop(Swapped(m, n, i, j), n, i);
  }

  /** Exchanging rows 2 and 3 of such a system leaves the identity as coefficient part. */
  lemma ExchangedSwapped(m: Matrix)
    requires Shaped(m, 4) && Exchanged23(m)
    ensures var p := Swapped(m, 4, 2, 3);
      UnitRow(p, 4, 0, 0) && UnitRow(p, 4, 1, 1) && UnitRow(p, 4, 2, 2) && UnitRow(p, 4, 3, 3) &&
      Get(p, 4, 0, 4) == Get(m, 4, 0, 4) && Get(p, 4, 1, 4) == Get(m, 4, 1, 4) &&
      Get(p, 4, 2, 4) == Get(m, 4, 3, 4) && Get(p, 4, 3, 4) == Get(m, 4, 2, 4)
  {
  }

  /** Stages 0 and 1 of such a system have nothing to do. */
  lemma ExchangedFirstStages(m: Matrix, s: Search)
    requires Shaped(m, 4) && Exchanged23(m)
    ensures Forward(m, 4, 0, s) == Forward(m, 4, 2, s)
  {
    ForwardSkipsCleanStage(m, 4, 0, s);
    ForwardSkipsCleanStage(m, 4, 1, s);
  }

  /** From the next row, stage 2 exchanges rows 2 and 3 and the pass ends there. */
  lemma NextRowLastStage(m: Matrix)
    requires Shaped(m, 4) && Exchanged23(m)
    ensures Forward(m, 4, 2, FromNextRow) == Solved(Swapped(m, 4, 2, 3))
  {
    ExchangedSwapped(m);
    assert PivotRow(m, 4, 2, FromNextRow) == 3;
    ForwardSkipsSwappedStage(m, 4, 2, FromNextRow, 3);
  }

  /** The forward pass from the next row exchanges rows 2 and 3 at stage 2 and has
      nothing else to do. */
  lemma NextRowForward(m: Matrix)
    requires Shaped(m, 4) && Exchanged23(m)
    ensures Forward(m, 4, 0, FromNextRow) == Solved(Swapped(m, 4, 2, 3))
  {
    ExchangedFirstStages(m, FromNextRow);
    NextRowLastStage(m);
  }

  /** A back-substituted system whose coefficient part is the identity keeps its
      right-hand side as its solution. */
  lemma IdentityBackSubstituted(v: Matrix, u: Matrix)
    requires Shaped(v, 4) && Shaped(u, 4)
    requires UnitRow(u, 4, 0, 0) && UnitRow(u, 4, 1, 1) && UnitRow(u, 4, 2, 2) && UnitRow(u, 4, 3, 3)
    requires forall r: nat, c: nat :: r < 4 && c < 4 ==> Get(v, 4, r, c) == Get(u, 4, r, c)
    requires forall i: nat :: i < 4 ==> Dot(v, 4, i, i) == Get(u, 4, i, 4)
    ensures forall r: nat :: r < 4 ==> Get(v, 4, r, 4) == Get(u, 4, r, 4)
  {
    forall r: nat | r < 4
      ensures Get(v, 4, r, 4) == Get(u, 4, r, 4)
    {
      assert UnitRow(v, 4, r, r);
      DotUnit(v, 4, r, r, r);
    }
  }

  /** When the forward pass leaves the identity as coefficient part, the run succeeds and
      the solution is the right-hand side the pass left. */
  lemma IdentitySolved(m: Matrix, s: Search, u: Matrix)
    requires Shaped(m, 4) && Shaped(u, 4) && Forward(m, 4, 0, s) == Solved(u)
    requires UnitRow(u, 4, 0, 0) && UnitRow(u, 4, 1, 1) && UnitRow(u, 4, 2, 2) && UnitRow(u, 4, 3, 3)
    ensures Solve(m, 4, s).Solved?
    ensures forall r: nat :: r < 4 ==> Get(Solve(m, 4, s).m, 4, r, 4) == Get(u, 4, r, 4)
  {
    assert Get(u, 4, 3, 3) == 1.0;
    var o := Solve(m, 4, s);
    IdentityBackSubstituted(o.m, u);
  }

  /** Corrected: the search from the next row exchanges rows 2 and 3 and the run ends
      with the unique solution (b0, b1, b3, b2) in the last column. */
  lemma NextRowSolves(m: Matrix)
    requires Shaped(m, 4) && Exchanged23(m)
    ensures Solve(m, 4, FromNextRow).Solved?
    ensures var x := [Get(m, 4, 0, 4), Get(m, 4, 1, 4), Get(m, 4, 3, 4), Get(m, 4, 2, 4)];
      forall r: nat :: r < 4 ==> Get(Solve(m, 4, FromNextRow).m, 4, r, 4) == x[r]
  {
    NextRowForward(m);
    ExchangedSwapped(m);
    IdentitySolved(m, FromNextRow, Swapped(m, 4, 2, 3));
  }

  /** The corrected run solves `M4`. */
  lemma NextRowSolvesM4()
    ensures Shaped(M4, 4) && Solve(M4, 4, FromNextRow).Solved?
    ensures forall r: nat :: r < 4 ==> Get(Solve(M4, 4, FromNextRow).m, 4, r, 4) == X4[r]
  {
    M4Rows();
    NextRowSolves(M4);
  }
}
