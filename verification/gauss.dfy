/** Gaussian elimination with pivoting on an n × (n+1) augmented matrix, followed by
    back substitution, in the serial and OpenMP variants of gauss.c. Arithmetic is
    exact (`real`). Given the matrix a stage receives, its pivot search, its abort test
    and the set of cells it writes are those of the code; over a whole run the values
    differ from rounded doubles, so a later zero test can come out differently. */
module Gauss {

  import opened Arith
  import opened FlatMatrix

  datatype Option<T> = None | Some(value: T)

  /** Where the pivot search of stage i starts: `i + i` in gauss.c, `i + 1` the
      first row below the pivot, which is what the search is meant to do. */
  datatype Search = AsWritten | FromNextRow

  function SearchStart(s: Search, i: nat): nat {
    match s
    case AsWritten => i + i
    case FromNextRow => i + 1
  }

  /** Result of an elimination run: the final matrix, whose last column holds the
      solution, or the stage at which it gave up with "Unique solution does not exist". */
  datatype Outcome = Solved(m: Matrix) | NoUniqueSolution(stage: nat)

  /** Every flat index r*(n+1)+c of the matrix fits in a C `int`. */
  predicate IndexFitsInt(n: nat) {
    Size(n) <= INT_MAX
  }

  // ---------------------------------------------------------------------------
  // Matrix generator

  /** gauss.c `reset`: fills positions 0 .. n*(n+1)-1 of the buffer with values
      4*(d - 0.5) taken from the pseudo-random stream `draws` (the successive
      `drand48` results after seeding), and leaves the rest of the buffer alone. */
  method Reset(buf: seq<real>, n: nat, draws: seq<real>) returns (r: seq<real>)
    requires IndexFitsInt(n) && Size(n) <= |buf| && Size(n) <= |draws|
    ensures |r| == |buf|
    ensures forall k :: 0 <= k < Size(n) ==> r[k] == 4.0 * (draws[k] - 0.5)
    ensures forall k :: Size(n) <= k < |buf| ==> r[k] == buf[k]
    ensures (forall k :: 0 <= k < |draws| ==> 0.0 <= draws[k] < 1.0) ==>
      forall k :: 0 <= k < Size(n) ==> -2.0 <= r[k] < 2.0
  {
    r := buf;
    var i := 0;
    while i < Size(n)
      invariant 0 <= i <= Size(n) && |r| == |buf|
      invariant forall k :: 0 <= k < |buf| ==> r[k] == if k < i then 4.0 * (draws[k] - 0.5) else buf[k]
    {
      r := r[i := 4.0 * (draws[i] - 0.5)];
      i := i + 1;
    }
  }

  // ---------------------------------------------------------------------------
  // Pivot search

  /** The first row from `from` on whose entry in column `col` is nonzero. */
  function FirstNonzero(m: Matrix, n: nat, col: nat, from: nat): (p: Option<nat>)
    requires Shaped(m, n) && col <= n
    ensures p.Some? ==> from <= p.value < n && Get(m, n, p.value, col) != 0.0
    ensures p.Some? ==> forall j: nat :: from <= j < p.value ==> Get(m, n, j, col) == 0.0
    ensures p.None? <==> forall j: nat :: from <= j < n ==> Get(m, n, j, col) == 0.0
    decreases n - from
  {
    if from >= n then None
    else if Get(m, n, from, col) != 0.0 then Some(from)
    else FirstNonzero(m, n, col, from + 1)
  }

  /** The row the pivot check of stage i exchanges with row i (i itself when it exchanges nothing). */
  function PivotRow(m: Matrix, n: nat, i: nat, s: Search): (j: nat)
    requires Shaped(m, n) && i < n
    ensures i <= j < n
    ensures Get(m, n, i, i) != 0.0 ==> j == i
    ensures j != i ==> SearchStart(s, i) <= j && Get(m, n, j, i) != 0.0
    ensures j != i ==> forall j': nat :: SearchStart(s, i) <= j' < j ==> Get(m, n, j', i) == 0.0
    ensures Get(m, n, j, i) == 0.0 <==>
      Get(m, n, i, i) == 0.0 && forall j': nat :: SearchStart(s, i) <= j' < n ==> Get(m, n, j', i) == 0.0
  {
    if Get(m, n, i, i) != 0.0 then i
    else match FirstNonzero(m, n, i, SearchStart(s, i))
      case None => i
      case Some(j) => j
  }

  /** The matrix after the pivot check of stage i. */
  function Pivoted(m: Matrix, n: nat, i: nat, s: Search): (p: Matrix)
    requires Shaped(m, n) && i < n
    ensures Shaped(p, n)
    ensures forall r: nat, c: nat :: r < n && c <= n ==>
      Get(p, n, r, c) == Get(m, n, SwapRow(r, i, PivotRow(m, n, i, s)), c)
  {
    var j := PivotRow(m, n, i, s);
    if j == i then SwapSelf(m, n, i); m else Swapped(m, n, i, j)
  }

  /** The pivot check is a row exchange, the identity exchange when (i,i) is nonzero. */
  lemma PivotedIsSwapped(m: Matrix, n: nat, i: nat, s: Search)
    requires Shaped(m, n) && i < n
    ensures Pivoted(m, n, i, s) == Swapped(m, n, i, PivotRow(m, n, i, s))
  {
    Ext(Pivoted(m, n, i, s), Swapped(m, n, i, PivotRow(m, n, i, s)), n);
  }

  /** The pivot check of stage i: when (i,i) is zero, scan rows from the search start
      down for a nonzero entry in column i and exchange the first such row with row i. */
  method Pivot(m: Matrix, n: nat, i: nat, s: Search) returns (p: Matrix)
    requires Shaped(m, n) && i < n
    ensures Shaped(p, n)
    ensures Get(m, n, i, i) != 0.0 ==> p == m
    ensures Get(p, n, i, i) == 0.0 <==>
      Get(m, n, i, i) == 0.0 && forall j: nat :: SearchStart(s, i) <= j < n ==> Get(m, n, j, i) == 0.0
    ensures p == Pivoted(m, n, i, s)
  {
    p := m;
    if Get(m, n, i, i) == 0.0 {
      var j := SearchStart(s, i);
      while j < n
        invariant SearchStart(s, i) <= j
        invariant forall j': nat :: SearchStart(s, i) <= j' < j && j' < n ==> Get(m, n, j', i) == 0.0
        invariant p == m
      {
        if Get(m, n, j, i) != 0.0 {
          p := SwapRows(i, j, m, n);
          break;
        }
        j := j + 1;
      }
    }
  }

  // ---------------------------------------------------------------------------
  // Elimination stage

  /** Cell (r, c) after elimination stage i: a row r below i with a nonzero entry in
      column i loses (that entry / pivot) times row i in columns i..n. */
  function StageCell(m: Matrix, n: nat, i: nat, r: nat, c: nat): (v: real)
    requires Shaped(m, n) && i < n && r < n && c <= n && Get(m, n, i, i) != 0.0
    // the entry below the pivot is cleared
    ensures i < r && c == i ==> v == 0.0
    // rows 0..i, columns left of i and rows with a zero in column i are untouched
    ensures r <= i || c < i || Get(m, n, r, i) == 0.0 ==> v == Get(m, n, r, c)
  {
    if i < r && i <= c && Get(m, n, r, i) != 0.0 then
      Get(m, n, r, c) - Get(m, n, r, i) / Get(m, n, i, i) * Get(m, n, i, c)
    else Get(m, n, r, c)
  }

  /** The first k flat cells of the matrix after elimination stage i. */
  function StagePrefix(m: Matrix, n: nat, i: nat, k: nat): (e: seq<real>)
    requires Shaped(m, n) && i < n && Get(m, n, i, i) != 0.0 && k <= |m|
    ensures |e| == k
  {
    if k == 0 then []
    else
      OfRoundTrip(n, k - 1);
      StagePrefix(m, n, i, k - 1) + [StageCell(m, n, i, RowOf(n, k - 1), ColOf(n, k - 1))]
  }

  lemma {:induction false} StagePrefixCells(m: Matrix, n: nat, i: nat, k: nat, r: nat, c: nat)
    requires Shaped(m, n) && i < n && Get(m, n, i, i) != 0.0 && k <= |m|
    requires r < n && c <= n && Idx(n, r, c) < k
    ensures StagePrefix(m, n, i, k)[Idx(n, r, c)] == StageCell(m, n, i, r, c)
  {
    if Idx(n, r, c) < k - 1 {
      StagePrefixCells(m, n, i, k - 1, r, c);
    } else {
      IdxRoundTrip(n, r, c);
    }
  }

  /** The matrix after elimination stage i. */
  function Eliminated(m: Matrix, n: nat, i: nat): (e: Matrix)
    requires Shaped(m, n) && i < n && Get(m, n, i, i) != 0.0
    ensures Shaped(e, n)
  {
    StagePrefix(m, n, i, |m|)
  }

  /** Cell by cell, the matrix after elimination stage i is `StageCell`: only columns
      i..n of rows below i with a nonzero entry in column i change, and with exact
      arithmetic column i is cleared below the pivot. */
  lemma EliminatedCells(m: Matrix, n: nat, i: nat)
    requires Shaped(m, n) && i < n && Get(m, n, i, i) != 0.0
    ensures forall r: nat, c: nat :: r < n && c <= n ==> Get(Eliminated(m, n, i), n, r, c) == StageCell(m, n, i, r, c)
    ensures forall r: nat, c: nat :: r < n && c <= n && (r <= i || c < i || Get(m, n, r, i) == 0.0) ==>
      Get(Eliminated(m, n, i), n, r, c) == Get(m, n, r, c)
    ensures forall r: nat :: i < r < n ==> Get(Eliminated(m, n, i), n, r, i) == 0.0
  {
    forall r: nat, c: nat | r < n && c <= n
      ensures Get(Eliminated(m, n, i), n, r, c) == StageCell(m, n, i, r, c)
    {
      StagePrefixCells(m, n, i, |m|, r, c);
    }
  }

  /** The inner loop over k for one row j: row j -= mult * row i from column i on. */
  method EliminateRow(m: Matrix, n: nat, i: nat, j: nat) returns (e: Matrix)
    requires Shaped(m, n) && i < j < n && Get(m, n, i, i) != 0.0
    ensures Shaped(e, n)
    ensures forall r: nat, c: nat :: r < n && c <= n ==>
      Get(e, n, r, c) == if r == j then StageCell(m, n, i, r, c) else Get(m, n, r, c)
  {
    e := m;
    var mult := Get(m, n, j, i);
    if mult != 0.0 {
      mult := mult / Get(m, n, i, i);
      var k := i;
      while k < n + 1
        invariant i <= k <= n + 1 && Shaped(e, n)
        invariant forall r: nat, c: nat :: r < n && c <= n ==>
          Get(e, n, r, c) == if r == j && i <= c < k then StageCell(m, n, i, r, c) else Get(m, n, r, c)
      {
        e := Set(e, n, j, k, Get(e, n, j, k) - mult * Get(e, n, i, k));
        k := k + 1;
      }
    }
  }

  /** The serial elimination loop of stage i: rows i+1, i+2, ..., n-1 in turn. */
  method EliminateStage(m: Matrix, n: nat, i: nat) returns (e: Matrix)
    requires Shaped(m, n) && i < n && Get(m, n, i, i) != 0.0
    ensures e == Eliminated(m, n, i)
  {
    e := m;
    var j := i + 1;
    while j < n
      invariant i < j <= n && Shaped(e, n)
      invariant forall r: nat, c: nat :: r < n && c <= n ==>
        Get(e, n, r, c) == if r < j then StageCell(m, n, i, r, c) else Get(m, n, r, c)
    {
      e := EliminateRow(e, n, i, j);
      j := j + 1;
    }
    EliminatedCells(m, n, i);
    Ext(e, Eliminated(m, n, i), n);
  }

  /** `order` lists each of the rows lo .. hi-1 exactly once. */
  predicate Covers(order: seq<nat>, lo: nat, hi: nat) {
    (forall t :: 0 <= t < |order| ==> lo <= order[t] < hi) &&
    (forall x :: lo <= x < hi ==> x in order) &&
    (forall t, u :: 0 <= t < u < |order| ==> order[t] != order[u])
  }

  /** The OpenMP elimination loop of stage i read sequentially: the rows below i are
      processed in the order the threads happen to take them. */
  method MpEliminateStage(m: Matrix, n: nat, i: nat, order: seq<nat>) returns (e: Matrix)
    requires Shaped(m, n) && i < n && Get(m, n, i, i) != 0.0 && Covers(order, i + 1, n)
    ensures e == Eliminated(m, n, i)
  {
    e := m;
    var t := 0;
    while t < |order|
      invariant 0 <= t <= |order| && Shaped(e, n)
      invariant forall r: nat, c: nat :: r < n && c <= n ==>
        Get(e, n, r, c) == if r in order[..t] then StageCell(m, n, i, r, c) else Get(m, n, r, c)
    {
      var j := order[t];
      assert j !in order[..t];
      assert order[..t + 1] == order[..t] + [j];
      e := EliminateRow(e, n, i, j);
      t := t + 1;
    }
    assert order[..t] == order;
    EliminatedCells(m, n, i);
    Ext(e, Eliminated(m, n, i), n);
  }

  // ---------------------------------------------------------------------------
  // Forward elimination

  /** Stages i .. n-2: pivot check, abort on a zero pivot, elimination. */
  function Forward(m: Matrix, n: nat, i: nat, s: Search): (o: Outcome)
    requires Shaped(m, n) && i < n
    ensures o.Solved? ==> Shaped(o.m, n)
    ensures o.NoUniqueSolution? ==> i <= o.stage < n - 1
    // started on a matrix reduced up to column i, a successful run ends reduced up to the last row
    ensures o.Solved? && Reduced(m, n, i) ==> Reduced(o.m, n, n - 1)
    // and every solution of the system it ends with solves the system it started from
    ensures o.Solved? && Reduced(m, n, i) ==> forall x :: Satisfies(o.m, n, x) ==> Satisfies(m, n, x)
    decreases n - i
  {
    if i == n - 1 then Solved(m)
    else
      var p := Pivoted(m, n, i, s);
      if Get(p, n, i, i) == 0.0 then NoUniqueSolution(i)
      else
        StageKeepsReduced(m, n, i, s);
        StageKeepsSolutions(m, n, i, s);
        Forward(Eliminated(p, n, i), n, i + 1, s)
  }

  /** Before stage i: columns left of i are zero below the diagonal, and the
      diagonal entries of rows above i are nonzero. */
  ghost predicate Reduced(m: Matrix, n: nat, i: nat)
    requires Shaped(m, n)
  {
    (forall r: nat, c: nat :: c < i && c < r < n ==> Get(m, n, r, c) == 0.0) &&
    (forall r: nat :: r < i && r < n ==> Get(m, n, r, r) != 0.0)
  }

  ghost predicate UpperTriangular(m: Matrix, n: nat)
    requires Shaped(m, n)
  {
    forall r: nat, c: nat :: c < r < n ==> Get(m, n, r, c) == 0.0
  }

  predicate NonzeroDiagonal(m: Matrix, n: nat)
    requires Shaped(m, n)
  {
    forall r: nat :: r < n ==> Get(m, n, r, r) != 0.0
  }

  /** Stage i aborts exactly when (i,i) is zero and so is column i in every row the
      search looks at, from the search start down; rows between i and the start are not looked at. */
  lemma ForwardAbortsAt(m: Matrix, n: nat, i: nat, s: Search)
    requires Shaped(m, n) && i < n - 1
    ensures Forward(m, n, i, s) == NoUniqueSolution(i) <==>
      Get(m, n, i, i) == 0.0 && forall j: nat :: SearchStart(s, i) <= j < n ==> Get(m, n, j, i) == 0.0
  {
    var j := PivotRow(m, n, i, s);
    assert Get(Pivoted(m, n, i, s), n, i, i) == Get(m, n, j, i);
  }

  /** Exchanging row i with a row at or below it keeps the zeros left of column i. */
  lemma SwapKeepsReduced(m: Matrix, n: nat, i: nat, j: nat)
    requires Shaped(m, n) && i <= j < n && Reduced(m, n, i)
    ensures Reduced(Swapped(m, n, i, j), n, i)
  {
    var p := Swapped(m, n, i, j);
    forall r: nat, c: nat | c < i && c < r < n
      ensures Get(p, n, r, c) == 0.0
    {
      assert Get(p, n, r, c) == Get(m, n, SwapRow(r, i, j), c);
    }
    forall r: nat | r < i && r < n
      ensures Get(p, n, r, r) != 0.0
    {
      assert Get(p, n, r, r) == Get(m, n, SwapRow(r, i, j), r);
    }
  }

  /** Elimination stage i extends the zeros below the diagonal to column i. */
  lemma EliminateKeepsZeros(p: Matrix, n: nat, i: nat, r: nat, c: nat)
    requires Shaped(p, n) && i < n && Reduced(p, n, i) && Get(p, n, i, i) != 0.0
    requires c < i + 1 && c < r < n
    ensures Get(Eliminated(p, n, i), n, r, c) == 0.0
  {
    EliminatedCells(p, n, i);
    if c < i {
      assert Get(Eliminated(p, n, i), n, r, c) == Get(p, n, r, c);
    } else {
      assert c == i;
    }
  }

  /** Elimination stage i leaves the diagonal of rows 0..i alone. */
  lemma EliminateKeepsDiagonal(p: Matrix, n: nat, i: nat, r: nat)
    requires Shaped(p, n) && i < n && Reduced(p, n, i) && Get(p, n, i, i) != 0.0
    requires r <= i
    ensures Get(Eliminated(p, n, i), n, r, r) != 0.0
  {
    EliminatedCells(p, n, i);
    assert Get(Eliminated(p, n, i), n, r, r) == Get(p, n, r, r);
  }

  lemma EliminateKeepsReduced(p: Matrix, n: nat, i: nat)
    requires Shaped(p, n) && i < n && Reduced(p, n, i) && Get(p, n, i, i) != 0.0
    ensures Reduced(Eliminated(p, n, i), n, i + 1)
  {
    forall r: nat, c: nat | c < i + 1 && c < r < n
      ensures Get(Eliminated(p, n, i), n, r, c) == 0.0
    {
      EliminateKeepsZeros(p, n, i, r, c);
    }
    forall r: nat | r < i + 1 && r < n
      ensures Get(Eliminated(p, n, i), n, r, r) != 0.0
    {
      EliminateKeepsDiagonal(p, n, i, r);
    }
  }

  /** A stage that passes its pivot check extends the reduced part by one column. */
  lemma StageKeepsReduced(m: Matrix, n: nat, i: nat, s: Search)
    requires Shaped(m, n) && i < n
    requires Get(Pivoted(m, n, i, s), n, i, i) != 0.0
    ensures Reduced(m, n, i) ==> Reduced(Eliminated(Pivoted(m, n, i, s), n, i), n, i + 1)
  {
    if Reduced(m, n, i) {
      SwapKeepsReduced(m, n, i, PivotRow(m, n, i, s));
      EliminateKeepsReduced(Pivoted(m, n, i, s), n, i);
    }
  }

  // ---------------------------------------------------------------------------
  // Back substitution

  /** The sum over j = lo .. n-1 of (i,j) times (j,n). */
  function Dot(m: Matrix, n: nat, i: nat, lo: nat): real
    requires Shaped(m, n) && i < n && lo <= n
    decreases n - lo
  {
    if lo == n then 0.0 else Term(m, n, i, lo) + Dot(m, n, i, lo + 1)
  }

  /** `Dot` reads only row i from column lo on and the last column from row lo on. */
  lemma {:induction false} DotFrame(m1: Matrix, m2: Matrix, n: nat, i: nat, lo: nat)
    requires Shaped(m1, n) && Shaped(m2, n) && i < n && lo <= n
    requires forall j: nat :: lo <= j < n ==> Get(m1, n, i, j) == Get(m2, n, i, j) && Get(m1, n, j, n) == Get(m2, n, j, n)
    ensures Dot(m1, n, i, lo) == Dot(m2, n, i, lo)
    decreases n - lo
  {
    if lo < n {
      DotFrame(m1, m2, n, i, lo + 1);
    }
  }

  /** Row i solved: x_i = (b_i - sum of (i,j)*x_j over j > i) / (i,i), stored in (i,n). */
  function SolveRow(m: Matrix, n: nat, i: nat): (v: Matrix)
    requires Shaped(m, n) && i < n && Get(m, n, i, i) != 0.0
    ensures Shaped(v, n)
    // only x_i, stored in (i,n), changes
    ensures forall r: nat, c: nat :: r < n && c <= n && (r != i || c != n) ==> Get(v, n, r, c) == Get(m, n, r, c)
    // and equation i holds: (i,i)*x_i + sum over j > i of (i,j)*x_j == b_i
    ensures Get(v, n, i, i) * Get(v, n, i, n) + Dot(v, n, i, i + 1) == Get(m, n, i, n)
  {
    var v := Set(m, n, i, n, (Get(m, n, i, n) - Dot(m, n, i, i + 1)) / Get(m, n, i, i));
    DotFrame(v, m, n, i, i + 1);
    v
  }

  /** Back substitution of rows t .. n-1, bottom row first. */
  function BackSubstituted(m: Matrix, n: nat, t: nat): (v: Matrix)
    requires Shaped(m, n) && t <= n && NonzeroDiagonal(m, n)
    ensures Shaped(v, n)
    ensures forall r: nat, c: nat :: r < n && c <= n && (c < n || r < t) ==> Get(v, n, r, c) == Get(m, n, r, c)
    decreases n - t
  {
    if t == n then m else SolveRow(BackSubstituted(m, n, t + 1), n, t)
  }

  /** The last column after back substitution satisfies every equation of the
      triangular system: sum over j >= i of U[i][j] * x[j] == b[i]. */
  lemma {:induction false} BackSubstitutionSolves(u: Matrix, n: nat, t: nat)
    requires Shaped(u, n) && t <= n && NonzeroDiagonal(u, n)
    ensures forall i: nat :: t <= i < n ==> Dot(BackSubstituted(u, n, t), n, i, i) == Get(u, n, i, n)
    decreases n - t
  {
    if t < n {
      BackSubstitutionSolves(u, n, t + 1);
      var w := BackSubstituted(u, n, t + 1);
      var v := BackSubstituted(u, n, t);
      assert v == SolveRow(w, n, t);
      forall i: nat | t <= i < n
        ensures Dot(v, n, i, i) == Get(u, n, i, n)
      {
        if i == t {
          DotFrame(v, w, n, t, t + 1);
        } else {
          DotFrame(v, w, n, i, i);
        }
      }
    }
  }

  /** One step of the inner back-substitution loop: subtracting (i,j)*(j,n) from the
      right-hand side of row i extends the subtracted sum down to column j. */
  lemma BackStep(w: Matrix, v: Matrix, n: nat, i: nat, j: nat)
    requires Shaped(w, n) && Shaped(v, n) && i < j < n
    requires Get(v, n, i, n) == Get(w, n, i, n) - Dot(w, n, i, j + 1)
    requires Get(v, n, i, j) == Get(w, n, i, j) && Get(v, n, j, n) == Get(w, n, j, n)
    ensures Get(v, n, i, n) - Get(v, n, i, j) * Get(v, n, j, n) == Get(w, n, i, n) - Dot(w, n, i, j)
  {
    assert Dot(w, n, i, j) == Get(w, n, i, j) * Get(w, n, j, n) + Dot(w, n, i, j + 1);
  }

  /** The inner loop of serial back substitution for row i: the right-hand side loses
      (i,j)*x_j for j = n-1 down to i+1 in place, then is divided by (i,i). */
  method SubstituteRow(w: Matrix, n: nat, i: nat) returns (v: Matrix)
    requires Shaped(w, n) && i < n && Get(w, n, i, i) != 0.0
    ensures v == SolveRow(w, n, i)
  {
    v := w;
    var j: int := n - 1;
    while j > i
      invariant i <= j < n && Shaped(v, n)
      invariant Get(v, n, i, n) == Get(w, n, i, n) - Dot(w, n, i, j + 1)
      invariant forall r: nat, c: nat :: r < n && c <= n && (r != i || c != n) ==> Get(v, n, r, c) == Get(w, n, r, c)
    {
      BackStep(w, v, n, i, j);
      v := Set(v, n, i, n, Get(v, n, i, n) - Get(v, n, i, j) * Get(v, n, j, n));
      j := j - 1;
    }
    v := Set(v, n, i, n, Get(v, n, i, n) / Get(v, n, i, i));
    Ext(v, SolveRow(w, n, i), n);
  }

  /** The serial back-substitution loop: rows n-1 down to 0. */
  method BackSubstitute(m: Matrix, n: nat) returns (v: Matrix)
    requires Shaped(m, n) && NonzeroDiagonal(m, n)
    ensures v == BackSubstituted(m, n, 0)
  {
    v := m;
    var i: int := n - 1;
    while i >= 0
      invariant -1 <= i < n && Shaped(v, n)
      invariant v == BackSubstituted(m, n, i + 1)
    {
      v := SubstituteRow(v, n, i);
      i := i - 1;
    }
  }

  /** One term (i,j)*(j,n) of the back-substitution sum; rows outside the matrix add nothing. */
  function Term(m: Matrix, n: nat, i: nat, j: nat): real
    requires Shaped(m, n) && i < n
  {
    if j < n then Get(m, n, i, j) * Get(m, n, j, n) else 0.0
  }

  /** The sum of the terms of the rows listed in `order`, added up in that order. */
  function SumOver(m: Matrix, n: nat, i: nat, order: seq<nat>): real
    requires Shaped(m, n) && i < n
  {
    if |order| == 0 then 0.0
    else SumOver(m, n, i, order[..|order| - 1]) + Term(m, n, i, order[|order| - 1])
  }

  lemma {:induction false} SumOverAppend(m: Matrix, n: nat, i: nat, a: seq<nat>, b: seq<nat>)
    requires Shaped(m, n) && i < n
    ensures SumOver(m, n, i, a + b) == SumOver(m, n, i, a) + SumOver(m, n, i, b)
    decreases |b|
  {
    if |b| > 0 {
      var b' := b[..|b| - 1];
      assert (a + b)[..|a + b| - 1] == a + b';
      SumOverAppend(m, n, i, a, b');
    } else {
      assert a + b == a;
    }
  }

  /** Taking the smallest row lo out of an order covering lo .. hi-1 leaves an order covering lo+1 .. hi-1. */
  lemma CoversRemoveFirst(order: seq<nat>, lo: nat, hi: nat, p: nat)
    requires Covers(order, lo, hi) && p < |order| && order[p] == lo
    ensures Covers(order[..p] + order[p + 1..], lo + 1, hi)
  {
    var a := order[..p];
    var b := order[p + 1..];
    var rest := a + b;
    assert forall t :: 0 <= t < |rest| ==> rest[t] == order[if t < |a| then t else t + 1];
    forall x | lo + 1 <= x < hi
      ensures x in rest
    {
      assert x in order;
      var q :| 0 <= q < |order| && order[q] == x;
      assert rest[if q < p then q else q - 1] == x;
    }
  }

  /** Where an order that covers lo .. hi-1 lists lo. */
  lemma CoversIndex(order: seq<nat>, lo: nat, hi: nat) returns (p: nat)
    requires Covers(order, lo, hi) && lo < hi
    ensures p < |order| && order[p] == lo
  {
    assert lo in order;
    var q :| 0 <= q < |order| && order[q] == lo;
    p := q;
  }

  lemma CoversHead(order: seq<nat>, lo: nat, hi: nat)
    ensures Covers(order, lo, hi) && |order| > 0 ==> lo <= order[0] < hi
  {}

  /** Taking one row out of an order takes its term out of the sum. */
  lemma SumOverRemove(m: Matrix, n: nat, i: nat, order: seq<nat>, p: nat)
    requires Shaped(m, n) && i < n && p < |order|
    ensures SumOver(m, n, i, order) == SumOver(m, n, i, order[..p] + order[p + 1..]) + Term(m, n, i, order[p])
  {
    var a := order[..p];
    var b := order[p + 1..];
    assert order == (a + [order[p]]) + b;
    SumOverAppend(m, n, i, a + [order[p]], b);
    SumOverAppend(m, n, i, a, [order[p]]);
    SumOverAppend(m, n, i, a, b);
    assert SumOver(m, n, i, [order[p]]) == Term(m, n, i, order[p]);
  }

  /** A reduction over the rows lo .. n-1 gives `Dot` whatever order it adds them in. */
  lemma {:induction false} SumOverAnyOrder(m: Matrix, n: nat, i: nat, order: seq<nat>, lo: nat)
    requires Shaped(m, n) && i < n && lo <= n && Covers(order, lo, n)
    ensures SumOver(m, n, i, order) == Dot(m, n, i, lo)
    decreases n - lo
  {
    if lo == n {
      CoversHead(order, lo, n);
    } else {
      var p := CoversIndex(order, lo, n);
      var rest := order[..p] + order[p + 1..];
      SumOverRemove(m, n, i, order, p);
      CoversRemoveFirst(order, lo, n, p);
      SumOverAnyOrder(m, n, i, rest, lo + 1);
      assert SumOver(m, n, i, order) == Dot(m, n, i, lo + 1) + Term(m, n, i, lo);
    }
  }

  /** The OpenMP reduction for row i read sequentially: `b -= (i,j)*x_j` visits the
      rows j > i in the order `order` of the threads, then (i,n) = b / (i,i). */
  method MpSubstituteRow(w: Matrix, n: nat, i: nat, order: seq<nat>) returns (v: Matrix)
    requires Shaped(w, n) && i < n && Get(w, n, i, i) != 0.0 && Covers(order, i + 1, n)
    ensures v == SolveRow(w, n, i)
  {
    var b := Get(w, n, i, n);
    var t := 0;
    while t < |order|
      invariant 0 <= t <= |order|
      invariant b == Get(w, n, i, n) - SumOver(w, n, i, order[..t])
    {
      assert order[..t + 1][..t] == order[..t];
      b := b - Get(w, n, i, order[t]) * Get(w, n, order[t], n);
      t := t + 1;
    }
    assert order[..t] == order;
    SumOverAnyOrder(w, n, i, order, i + 1);
    v := Set(w, n, i, n, b / Get(w, n, i, i));
  }

  /** The OpenMP back-substitution loop: rows n-1 down to 0, the reduction of row i
      in the thread order `orders[i]`. */
  method MpBackSubstitute(m: Matrix, n: nat, orders: seq<seq<nat>>) returns (v: Matrix)
    requires Shaped(m, n) && NonzeroDiagonal(m, n)
    requires n <= |orders| && forall i :: 0 <= i < n ==> Covers(orders[i], i + 1, n)
    ensures v == BackSubstituted(m, n, 0)
  {
    v := m;
    var i: int := n - 1;
    while i >= 0
      invariant -1 <= i < n && Shaped(v, n)
      invariant v == BackSubstituted(m, n, i + 1)
    {
      v := MpSubstituteRow(v, n, i, orders[i]);
      i := i - 1;
    }
  }

  // ---------------------------------------------------------------------------
  // Solutions of the input system

  /** The sum over j = lo .. n-1 of (r,j) * x[j]: the left-hand side of equation r. */
  function RowSum(m: Matrix, n: nat, r: nat, x: seq<real>, lo: nat): real
    requires Shaped(m, n) && r < n && |x| == n && lo <= n
    decreases n - lo
  {
    if lo == n then 0.0 else Get(m, n, r, lo) * x[lo] + RowSum(m, n, r, x, lo + 1)
  }

  /** x satisfies every equation of the augmented system m. */
  ghost predicate Satisfies(m: Matrix, n: nat, x: seq<real>)
    requires Shaped(m, n)
  {
    |x| == n && forall r: nat :: r < n ==> RowSum(m, n, r, x, 0) == Get(m, n, r, n)
  }

  /** The last column of m, where back substitution leaves x. */
  function LastColumn(m: Matrix, n: nat): (x: seq<real>)
    requires Shaped(m, n)
    ensures |x| == n && forall j :: 0 <= j < n ==> x[j] == Get(m, n, j, n)
  {
    seq(n, j requires 0 <= j < n => Get(m, n, j, n))
  }

  /** One column of `RowSumCombination`, over plain numbers. */
  lemma CombineStep(g: real, a: real, b: real, k: real, y: real, re: real, rq: real, rt: real)
    requires g == a - k * b && re == rq - k * rt
    ensures g * y + re == (a * y + rq) - k * (b * y + rt)
  {}

  /** Row r of e is row q of m less k times row t of m, so its left-hand side is too. */
  lemma {:induction false} RowSumCombination(e: Matrix, m: Matrix, n: nat, r: nat, q: nat, t: nat, k: real, x: seq<real>, lo: nat)
    requires Shaped(e, n) && Shaped(m, n) && r < n && q < n && t < n && |x| == n && lo <= n
    requires forall c: nat :: lo <= c < n ==> Get(e, n, r, c) == Get(m, n, q, c) - k * Get(m, n, t, c)
    ensures RowSum(e, n, r, x, lo) == RowSum(m, n, q, x, lo) - k * RowSum(m, n, t, x, lo)
    decreases n - lo
  {
    if lo < n {
      RowSumCombination(e, m, n, r, q, t, k, x, lo + 1);
      CombineStep(Get(e, n, r, lo), Get(m, n, q, lo), Get(m, n, t, lo), k, x[lo],
        RowSum(e, n, r, x, lo + 1), RowSum(m, n, q, x, lo + 1), RowSum(m, n, t, x, lo + 1));
    }
  }

  /** Exchanging two rows reorders the equations, so it keeps the solutions. */
  lemma SwappedSolutions(m: Matrix, n: nat, i: nat, j: nat, x: seq<real>)
    requires Shaped(m, n) && i < n && j < n && Satisfies(Swapped(m, n, i, j), n, x)
    ensures Satisfies(m, n, x)
  {
    var p := Swapped(m, n, i, j);
    forall r: nat | r < n
      ensures RowSum(m, n, r, x, 0) == Get(m, n, r, n)
    {
      var r' := SwapRow(r, i, j);
      assert SwapRow(r', i, j) == r;
      RowSumCombination(m, p, n, r, r', r', 0.0, x, 0);
    }
  }

  /** The multiple of row i that stage i subtracts from row r (zero for rows it leaves alone). */
  function StageFactor(p: Matrix, n: nat, i: nat, r: nat): real
    requires Shaped(p, n) && i < n && r < n && Get(p, n, i, i) != 0.0
  {
    if i < r && Get(p, n, r, i) != 0.0 then Get(p, n, r, i) / Get(p, n, i, i) else 0.0
  }

  /** With row i zero left of column i, every row after stage i is the row before it less
      `StageFactor` times row i, in every column including the right-hand side. */
  lemma EliminatedRow(p: Matrix, n: nat, i: nat, r: nat)
    requires Shaped(p, n) && i < n && r < n && Get(p, n, i, i) != 0.0 && Reduced(p, n, i)
    ensures forall c: nat :: c <= n ==>
      Get(Eliminated(p, n, i), n, r, c) == Get(p, n, r, c) - StageFactor(p, n, i, r) * Get(p, n, i, c)
  {
    EliminatedCells(p, n, i);
    forall c: nat | c <= n
      ensures Get(Eliminated(p, n, i), n, r, c) == Get(p, n, r, c) - StageFactor(p, n, i, r) * Get(p, n, i, c)
    {
      if c < i {
        assert Get(p, n, i, c) == 0.0;
      }
    }
  }

  /** Elimination stage i subtracts from each row below i a multiple of row i, so a
      solution of the eliminated system solves the system the stage started from. */
  lemma EliminatedSolutions(p: Matrix, n: nat, i: nat, x: seq<real>)
    requires Shaped(p, n) && i < n && Get(p, n, i, i) != 0.0 && Reduced(p, n, i)
    requires Satisfies(Eliminated(p, n, i), n, x)
    ensures Satisfies(p, n, x)
  {
    EliminatedRowSolution(p, n, i, i, x);
    forall r: nat | r < n
      ensures RowSum(p, n, r, x, 0) == Get(p, n, r, n)
    {
      EliminatedRowSolution(p, n, i, r, x);
    }
  }

  /** One equation of `EliminatedSolutions`: x solves row r before stage i when it solves
      row r after it and, for a row below i, also the pivot row i before it. */
  lemma EliminatedRowSolution(p: Matrix, n: nat, i: nat, r: nat, x: seq<real>)
    requires Shaped(p, n) && i < n && r < n && Get(p, n, i, i) != 0.0 && Reduced(p, n, i) && |x| == n
    requires RowSum(Eliminated(p, n, i), n, r, x, 0) == Get(Eliminated(p, n, i), n, r, n)
    requires i < r ==> RowSum(p, n, i, x, 0) == Get(p, n, i, n)
    ensures RowSum(p, n, r, x, 0) == Get(p, n, r, n)
  {
    EliminatedRow(p, n, i, r);
    RowSumCombination(Eliminated(p, n, i), p, n, r, r, i, StageFactor(p, n, i, r), x, 0);
  }

  /** One stage that passes its pivot check keeps the solutions: a solution of the matrix
      it hands on solves the matrix it received. */
  lemma StageSolutions(m: Matrix, n: nat, i: nat, s: Search, x: seq<real>)
    requires Shaped(m, n) && i < n && Reduced(m, n, i) && Get(Pivoted(m, n, i, s), n, i, i) != 0.0
    requires Satisfies(Eliminated(Pivoted(m, n, i, s), n, i), n, x)
    ensures Satisfies(m, n, x)
  {
    var j := PivotRow(m, n, i, s);
    PivotedIsSwapped(m, n, i, s);
    SwapKeepsReduced(m, n, i, j);
    EliminatedSolutions(Pivoted(m, n, i, s), n, i, x);
    SwappedSolutions(m, n, i, j, x);
  }

  /** Stage i with a nonzero pivot, on a matrix reduced up to column i: each solution
      of the eliminated matrix solves the matrix the stage started from. */
  lemma StageKeepsSolutions(m: Matrix, n: nat, i: nat, s: Search)
    requires Shaped(m, n) && i < n && Get(Pivoted(m, n, i, s), n, i, i) != 0.0
    ensures Reduced(m, n, i) ==>
      forall x :: Satisfies(Eliminated(Pivoted(m, n, i, s), n, i), n, x) ==> Satisfies(m, n, x)
  {
    if Reduced(m, n, i) {
      forall x | Satisfies(Eliminated(Pivoted(m, n, i, s), n, i), n, x)
        ensures Satisfies(m, n, x)
      {
        StageSolutions(m, n, i, s, x);
      }
    }
  }

  /** Left of the diagonal an upper triangular row contributes nothing. */
  lemma {:induction false} RowSumSkipZeros(u: Matrix, n: nat, i: nat, x: seq<real>, lo: nat)
    requires Shaped(u, n) && i < n && |x| == n && lo <= i
    requires forall c: nat :: c < i ==> Get(u, n, i, c) == 0.0
    ensures RowSum(u, n, i, x, lo) == RowSum(u, n, i, x, i)
    decreases i - lo
  {
    if lo < i {
      RowSumSkipZeros(u, n, i, x, lo + 1);
    }
  }

  /** With x the last column of v, and v equal to u left of that column, the left-hand
      side of equation i of u is the back-substitution sum of v. */
  lemma {:induction false} RowSumDot(u: Matrix, v: Matrix, n: nat, i: nat, lo: nat)
    requires Shaped(u, n) && Shaped(v, n) && i < n && lo <= n
    requires forall c: nat :: c < n ==> Get(v, n, i, c) == Get(u, n, i, c)
    ensures RowSum(u, n, i, LastColumn(v, n), lo) == Dot(v, n, i, lo)
    decreases n - lo
  {
    if lo < n {
      RowSumDot(u, v, n, i, lo + 1);
    }
  }

  /** Back substitution on an upper triangular system with a nonzero diagonal leaves in
      the last column a solution of that system. */
  lemma BackSubstitutedSatisfies(u: Matrix, n: nat)
    requires Shaped(u, n) && UpperTriangular(u, n) && NonzeroDiagonal(u, n)
    ensures Satisfies(u, n, LastColumn(BackSubstituted(u, n, 0), n))
  {
    var v := BackSubstituted(u, n, 0);
    var x := LastColumn(v, n);
    BackSubstitutionSolves(u, n, 0);
    forall i: nat | i < n
      ensures RowSum(u, n, i, x, 0) == Get(u, n, i, n)
    {
      RowSumSkipZeros(u, n, i, x, 0);
      RowSumDot(u, v, n, i, i);
    }
  }

  /** A run that passes every check leaves in the last column a solution of the input system. */
  lemma RunSolvesInput(m: Matrix, n: nat, s: Search, u: Matrix)
    requires Shaped(m, n) && 1 <= n && Forward(m, n, 0, s) == Solved(u)
    requires Shaped(u, n) && Get(u, n, n - 1, n - 1) != 0.0
    ensures NonzeroDiagonal(u, n)
    ensures Satisfies(m, n, LastColumn(BackSubstituted(u, n, 0), n))
  {
    SolvedTriangular(m, n, s, u);
    BackSubstitutedSatisfies(u, n);
    assert Reduced(m, n, 0);
  }

  // ---------------------------------------------------------------------------
  // The whole run

  /** A forward pass that succeeds, followed by a nonzero last diagonal entry, leaves
      an upper triangular system with a nonzero diagonal. */
  lemma SolvedTriangular(m: Matrix, n: nat, s: Search, u: Matrix)
    requires Shaped(m, n) && 1 <= n && Forward(m, n, 0, s) == Solved(u)
    requires Shaped(u, n) && Get(u, n, n - 1, n - 1) != 0.0
    ensures UpperTriangular(u, n) && NonzeroDiagonal(u, n)
  {
    assert Reduced(m, n, 0);
    assert Reduced(u, n, n - 1);
  }

  /** Forward elimination, the final diagonal check, then back substitution. */
  function Solve(m: Matrix, n: nat, s: Search): (o: Outcome)
    requires Shaped(m, n) && 1 <= n
    ensures o.Solved? ==> Forward(m, n, 0, s).Solved? && Shaped(o.m, n)
    // the coefficient part is the triangularised system, with a nonzero diagonal
    ensures o.Solved? ==> forall r: nat, c: nat :: r < n && c < n ==> Get(o.m, n, r, c) == Get(Forward(m, n, 0, s).m, n, r, c)
    ensures o.Solved? ==> UpperTriangular(o.m, n) && NonzeroDiagonal(o.m, n)
    // and the last column x solves it: sum over j >= i of U[i][j]*x[j] == b[i]
    ensures o.Solved? ==> forall i: nat :: i < n ==> Dot(o.m, n, i, i) == Get(Forward(m, n, 0, s).m, n, i, n)
    // and so it solves the input system too
    ensures o.Solved? ==> Satisfies(m, n, LastColumn(o.m, n))
    // it gives up exactly at a failed pivot check or on a zero in the last diagonal cell
    ensures o.NoUniqueSolution? ==> o.stage < n
    ensures o.NoUniqueSolution? && o.stage < n - 1 <==> Forward(m, n, 0, s).NoUniqueSolution?
    ensures Forward(m, n, 0, s).NoUniqueSolution? ==> o == Forward(m, n, 0, s)
    ensures o.NoUniqueSolution? && o.stage == n - 1 <==>
      Forward(m, n, 0, s).Solved? && Get(Forward(m, n, 0, s).m, n, n - 1, n - 1) == 0.0
    // so it succeeds exactly when the forward pass does and leaves a nonzero (n-1,n-1)
    ensures o.Solved? <==> Forward(m, n, 0, s).Solved? && Get(Forward(m, n, 0, s).m, n, n - 1, n - 1) != 0.0
  {
    match Forward(m, n, 0, s)
    case NoUniqueSolution(i) => NoUniqueSolution(i)
    case Solved(u) =>
      if Get(u, n, n - 1, n - 1) == 0.0 then NoUniqueSolution(n - 1)
      else
        SolvedTriangular(m, n, s, u);
        RunSolvesInput(m, n, s, u);
        var v := BackSubstituted(u, n, 0);
        BackSubstitutionSolves(u, n, 0);
        Solved(v)
  }

  /** The stage loop of gauss.c `serial`: pivot check, abort, elimination, for i = 0 .. n-2. */
  method SerialForward(m: Matrix, n: nat, s: Search) returns (o: Outcome)
    requires Shaped(m, n) && 1 <= n && IndexFitsInt(n)
    ensures o == Forward(m, n, 0, s)
  {
    var cur := m;
    var i := 0;
    while i < n - 1
      invariant 0 <= i <= n - 1 && Shaped(cur, n)
      invariant Forward(cur, n, i, s) == Forward(m, n, 0, s)
    {
      cur := Pivot(cur, n, i, s);
      if Get(cur, n, i, i) == 0.0 {
        return NoUniqueSolution(i);
      }
      cur := EliminateStage(cur, n, i);
      i := i + 1;
    }
    return Solved(cur);
  }

  /** The stage loop of gauss.c `mp`: the same, with the elimination loop of stage i run
      in the thread order `rowOrders[i]`. */
  method MpForward(m: Matrix, n: nat, s: Search, rowOrders: seq<seq<nat>>) returns (o: Outcome)
    requires Shaped(m, n) && 1 <= n && IndexFitsInt(n)
    requires n - 1 <= |rowOrders| && forall i :: 0 <= i < n - 1 ==> Covers(rowOrders[i], i + 1, n)
    ensures o == Forward(m, n, 0, s)
  {
    var cur := m;
    var i := 0;
    while i < n - 1
      invariant 0 <= i <= n - 1 && Shaped(cur, n)
      invariant Forward(cur, n, i, s) == Forward(m, n, 0, s)
    {
      cur := Pivot(cur, n, i, s);
      if Get(cur, n, i, i) == 0.0 {
        return NoUniqueSolution(i);
      }
      cur := MpEliminateStage(cur, n, i, rowOrders[i]);
      i := i + 1;
    }
    return Solved(cur);
  }

  /** gauss.c `serial`: the stages in turn, aborting with "Unique solution does not
      exist" at a failed pivot check or a zero last diagonal entry, then back substitution.
      gauss.c is `s == AsWritten`; `FromNextRow` is the corrected search. */
  method Serial(m: Matrix, n: nat, s: Search) returns (o: Outcome)
    requires Shaped(m, n) && 1 <= n && IndexFitsInt(n)
    ensures o == Solve(m, n, s)
  {
    o := SerialForward(m, n, s);
    if o.NoUniqueSolution? {
      return;
    }
    var u := o.m;
    if Get(u, n, n - 1, n - 1) == 0.0 {
      return NoUniqueSolution(n - 1);
    }
    SolvedTriangular(m, n, s, u);
    var v := BackSubstitute(u, n);
    return Solved(v);
  }

  /** gauss.c `mp`: the same stages and abort policy, with the elimination loop of stage i
      run in the thread order `rowOrders[i]` and the reduction of row i in the order `sumOrders[i]`. */
  method Mp(m: Matrix, n: nat, s: Search, rowOrders: seq<seq<nat>>, sumOrders: seq<seq<nat>>) returns (o: Outcome)
    requires Shaped(m, n) && 1 <= n && IndexFitsInt(n)
    requires n - 1 <= |rowOrders| && forall i :: 0 <= i < n - 1 ==> Covers(rowOrders[i], i + 1, n)
    requires n <= |sumOrders| && forall i :: 0 <= i < n ==> Covers(sumOrders[i], i + 1, n)
    ensures o == Solve(m, n, s)
  {
    o := MpForward(m, n, s, rowOrders);
    if o.NoUniqueSolution? {
      return;
    }
    var u := o.m;
    if Get(u, n, n - 1, n - 1) == 0.0 {
      return NoUniqueSolution(n - 1);
    }
    SolvedTriangular(m, n, s, u);
    var v := MpBackSubstitute(u, n, sumOrders);
    return Solved(v);
  }
}
