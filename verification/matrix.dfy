/** The augmented matrix of gauss.c: n rows of n+1 values stored row-major in one
    flat buffer, cell (r, c) at position r*(n+1)+c; and the row swap used for pivoting. */
module FlatMatrix {

  type Matrix = seq<real>

  /** Flat position of the first cell of row r, r*(n+1), built up row by row so that
      the solver never has to multiply two unknowns. */
  function RowStart(n: nat, r: nat): nat {
    if r == 0 then 0 else RowStart(n, r - 1) + (n + 1)
  }

  /** Number of cells of the augmented matrix. */
  function Size(n: nat): nat {
    RowStart(n, n)
  }

  /** The buffer holds exactly n rows of n+1 cells. */
  predicate Shaped(m: Matrix, n: nat) {
    |m| == Size(n)
  }

  lemma {:induction false} RowStartIsProduct(n: nat, r: nat)
    ensures RowStart(n, r) == r * (n + 1)
  {
    if r > 0 {
      RowStartIsProduct(n, r - 1);
    }
  }

  /** The matrix has n*(n+1) cells. */
  lemma SizeIsProduct(n: nat)
    ensures Size(n) == n * (n + 1)
  {
    RowStartIsProduct(n, n);
  }

  lemma {:induction false} RowStartMono(n: nat, a: nat, b: nat)
    requires a <= b
    ensures RowStart(n, a) <= RowStart(n, b)
    ensures a < b ==> RowStart(n, a) + (n + 1) <= RowStart(n, b)
    decreases b - a
  {
    if a < b {
      RowStartMono(n, a, b - 1);
    }
  }

  /** Flat position of cell (r, c). */
  function Idx(n: nat, r: nat, c: nat): (k: nat)
    requires r < n && c <= n
    ensures k < Size(n)
  {
    RowStartMono(n, r, n);
    RowStart(n, r) + c
  }

  /** Row of flat position k: the inverse of `Idx`. */
  function RowOf(n: nat, k: nat): (r: nat)
    decreases k
  {
    if k <= n then 0 else RowOf(n, k - (n + 1)) + 1
  }

  /** Column of flat position k. */
  function ColOf(n: nat, k: nat): (c: nat)
    ensures c <= n
    decreases k
  {
    if k <= n then k else ColOf(n, k - (n + 1))
  }

  lemma {:induction false} IdxRoundTrip(n: nat, r: nat, c: nat)
    requires r < n && c <= n
    ensures RowOf(n, Idx(n, r, c)) == r && ColOf(n, Idx(n, r, c)) == c
    decreases r
  {
    if r > 0 {
      IdxRoundTrip(n, r - 1, c);
    }
  }

  lemma {:induction false} OfRoundTripRows(n: nat, k: nat, rows: nat)
    requires k < RowStart(n, rows)
    ensures RowOf(n, k) < rows && RowStart(n, RowOf(n, k)) + ColOf(n, k) == k
    decreases k
  {
    if k > n {
      OfRoundTripRows(n, k - (n + 1), rows - 1);
    }
  }

  /** Every flat position is the position of exactly one cell. */
  lemma OfRoundTrip(n: nat, k: nat)
    requires k < Size(n)
    ensures RowOf(n, k) < n && Idx(n, RowOf(n, k), ColOf(n, k)) == k
    ensures forall r: nat, c: nat :: r < n && c <= n && Idx(n, r, c) == k ==> r == RowOf(n, k) && c == ColOf(n, k)
  {
    OfRoundTripRows(n, k, n);
    forall r: nat, c: nat | r < n && c <= n && Idx(n, r, c) == k
      ensures r == RowOf(n, k) && c == ColOf(n, k)
    {
      IdxRoundTrip(n, r, c);
    }
  }

  function Get(m: Matrix, n: nat, r: nat, c: nat): real
    requires Shaped(m, n) && r < n && c <= n
  {
    m[Idx(n, r, c)]
  }

  /** Two buffers of the same shape are equal when they agree on every cell. */
  lemma Ext(m1: Matrix, m2: Matrix, n: nat)
    requires Shaped(m1, n) && Shaped(m2, n)
    requires forall r: nat, c: nat :: r < n && c <= n ==> Get(m1, n, r, c) == Get(m2, n, r, c)
    ensures m1 == m2
  {
    forall k | 0 <= k < |m1|
      ensures m1[k] == m2[k]
    {
      OfRoundTrip(n, k);
      assert Get(m1, n, RowOf(n, k), ColOf(n, k)) == Get(m2, n, RowOf(n, k), ColOf(n, k));
    }
  }

  /** The buffer with cell (r, c) overwritten by v. */
  function Set(m: Matrix, n: nat, r: nat, c: nat, v: real): (s: Matrix)
    requires Shaped(m, n) && r < n && c <= n
    ensures Shaped(s, n)
    ensures forall r': nat, c': nat :: r' < n && c' <= n ==>
      Get(s, n, r', c') == if r' == r && c' == c then v else Get(m, n, r', c')
  {
    var s := m[Idx(n, r, c) := v];
    forall r': nat, c': nat | r' < n && c' <= n
      ensures Get(s, n, r', c') == if r' == r && c' == c then v else Get(m, n, r', c')
    {
      IdxRoundTrip(n, r, c);
      IdxRoundTrip(n, r', c');
    }
    s
  }

  /** The row that ends up in row r after rows r1 and r2 are exchanged. */
  function SwapRow(r: nat, r1: nat, r2: nat): nat {
    if r == r1 then r2 else if r == r2 then r1 else r
  }

  /** The first k flat cells of the matrix with rows r1 and r2 exchanged. */
  function SwapPrefix(m: Matrix, n: nat, r1: nat, r2: nat, k: nat): (s: seq<real>)
    requires Shaped(m, n) && r1 < n && r2 < n && k <= |m|
    ensures |s| == k
  {
    if k == 0 then []
    else
      OfRoundTrip(n, k - 1);
      SwapPrefix(m, n, r1, r2, k - 1) + [Get(m, n, SwapRow(RowOf(n, k - 1), r1, r2), ColOf(n, k - 1))]
  }

  lemma {:induction false} SwapPrefixCells(m: Matrix, n: nat, r1: nat, r2: nat, k: nat, r: nat, c: nat)
    requires Shaped(m, n) && r1 < n && r2 < n && k <= |m|
    requires r < n && c <= n && Idx(n, r, c) < k
    ensures SwapPrefix(m, n, r1, r2, k)[Idx(n, r, c)] == Get(m, n, SwapRow(r, r1, r2), c)
  {
    if Idx(n, r, c) < k - 1 {
      SwapPrefixCells(m, n, r1, r2, k - 1, r, c);
    } else {
      IdxRoundTrip(n, r, c);
    }
  }

  /** The matrix with rows r1 and r2 exchanged: the meaning of `swap_rows`. */
  function Swapped(m: Matrix, n: nat, r1: nat, r2: nat): (s: Matrix)
    requires Shaped(m, n) && r1 < n && r2 < n
    ensures Shaped(s, n)
    ensures forall r: nat, c: nat :: r < n && c <= n ==> Get(s, n, r, c) == Get(m, n, SwapRow(r, r1, r2), c)
  {
    var s := SwapPrefix(m, n, r1, r2, |m|);
    forall r: nat, c: nat | r < n && c <= n
      ensures Get(s, n, r, c) == Get(m, n, SwapRow(r, r1, r2), c)
    {
      SwapPrefixCells(m, n, r1, r2, |m|, r, c);
    }
    s
  }

  /** gauss.c `swap_rows`: exchanges the n+1 cells of rows r1 and r2 one column at a
      time through a temporary, leaving every other cell as it was. */
  method SwapRows(r1: nat, r2: nat, m: Matrix, n: nat) returns (s: Matrix)
    requires Shaped(m, n) && r1 < n && r2 < n
    ensures Shaped(s, n)
    ensures forall c: nat :: c <= n ==> Get(s, n, r1, c) == Get(m, n, r2, c) && Get(s, n, r2, c) == Get(m, n, r1, c)
    ensures forall r: nat, c: nat :: r < n && c <= n && r != r1 && r != r2 ==> Get(s, n, r, c) == Get(m, n, r, c)
    ensures s == Swapped(m, n, r1, r2)
  {
    s := m;
    var i := 0;
    while i < n + 1
      invariant 0 <= i <= n + 1 && Shaped(s, n)
      invariant forall r: nat, c: nat :: r < n && c <= n ==>
        Get(s, n, r, c) == Get(m, n, if c < i then SwapRow(r, r1, r2) else r, c)
    {
      var temp := Get(s, n, r1, i);
      s := Set(s, n, r1, i, Get(s, n, r2, i));
      s := Set(s, n, r2, i, temp);
      i := i + 1;
    }
    Ext(s, Swapped(m, n, r1, r2), n);
  }

  /** Exchanging the same two rows twice restores the matrix. */
  lemma SwapInvolution(m: Matrix, n: nat, r1: nat, r2: nat)
    requires Shaped(m, n) && r1 < n && r2 < n
    ensures Swapped(Swapped(m, n, r1, r2), n, r1, r2) == m
  {
    Ext(Swapped(Swapped(m, n, r1, r2), n, r1, r2), m, n);
  }

  /** Exchanging a row with itself changes nothing. */
  lemma SwapSelf(m: Matrix, n: nat, r: nat)
    requires Shaped(m, n) && r < n
    ensures Swapped(m, n, r, r) == m
  {
    Ext(Swapped(m, n, r, r), m, n);
  }
}
