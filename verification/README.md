# Sieve of Eratosthenes and Gaussian elimination, serial and OpenMP

This project models the two computational kernels of the OpenMP-Applications
repository.

- **The sieve (sieve.c).** A `char` list where `'y'` marks a candidate prime and
  `'n'` a number that has been crossed out.
  - `reset` fills cells 2..n with `'y'`.
  - `serial` sifts the multiples of every i with i*i <= n that is still `'y'`,
    starting at i*i.
  - `mp` is the same loop, with the inner sift split across OpenMP threads.
- **Gaussian elimination (gauss.c).** It works on an n × (n+1) augmented matrix,
  stored row-major in one flat buffer (cell (r, c) at r*(n+1)+c).
  - `reset` fills the buffer from `drand48`.
  - `serial` runs n-1 stages. Each stage has a pivot check (exchange row i with a
    lower row when (i,i) is zero), then an abort ("Unique solution does not
    exist") if the pivot is still zero, then the elimination of column i below the
    diagonal.
  - After the stages comes a check of the last diagonal cell, then back
    substitution, which leaves the solution in the last column.
  - `mp` is the same, with the elimination loop run as an OpenMP `parallel for`
    and the back-substitution sum as an OpenMP `reduction`.
  - `swap_rows` exchanges two rows.

Buffers are immutable sequences: every routine that writes the C array is a
method that returns the new buffer. Each routine has a partner:

- The sieve loops are checked against a functional reference (`Sieve.SieveFrom`).
  That reference is shown to leave `'y'` exactly at the primes.
- Each elimination stage is checked against a cell-by-cell meaning
  (`Gauss.EliminatedCells`).
- The forward pass is shown to triangularise the matrix.
- Back substitution is shown to solve the triangular system it leaves. Each
  stage is shown to keep the solutions of the system, so the last column of a
  successful run also solves the input system.
- A parallel loop is read as the serial loop run in an arbitrary order the
  threads choose, given as a parameter. For each one the model proves that every
  order gives the serial result.

Modules:

- `Arith`: small facts about multiplication and division, and the C `int` bound.
- `Sieve`: sieve.c.
- `FlatMatrix`: the flat row-major layout, cell access and update, and `swap_rows`.
- `Gauss`: the rest of gauss.c. The pivot search takes a `Search` policy:
  - `AsWritten` starts at row i+i, as the code does.
  - `FromNextRow` starts at row i+1 (see Findings).
- `PivotSearchFinding`: a 4 × 4 system on which the two policies differ.

## Model

| member | source | states |
|---|---|---|
| Sieve.Sift | sieve.c:126-128 | the reference inner loop for i: every multiple of i from i*i to n is crossed out and no other cell changes |
| Sieve.Step | sieve.c:124-129 | one outer iteration leaves the list unchanged when cell i is not 'y', and is exactly the sift of i (Sieve.Sift) when it is; it never changes cell i itself, and every cell it changes becomes 'n' and lies between i*i and n |
| Sieve.SieveFrom | sieve.c:123-130 | the reference outer loop from i until i*i > n; it keeps the list's length, and its meaning is proved in Sieve.SieveMarksPrimes, Sieve.SieveFromFrame and Sieve.SieveFromIdempotent |
| Sieve.Reset | sieve.c:156-161 | cells 2..n become 'y' and no other cell of the list changes |
| Sieve.SiftMultiples | sieve.c:126-128 | the inner loop for i sets exactly the multiples of i from i*i to n to 'n' and keeps every other cell |
| Sieve.Serial | sieve.c:117-134 | the outer loop gives the reference sieve's result; it only ever writes 'n', and only at cells 4..n; on a reset list, a cell 2..n stays 'y' exactly when it is prime |
| Sieve.MpSiftMultiples | sieve.c:145-148 | whatever order the threads write the targets of i in, the result is the serial sift of i |
| Sieve.Mp | sieve.c:136-154 | under any thread schedule the OpenMP sieve gives the serial sieve's result, and on a reset list leaves 'y' exactly at the primes |
| Sieve.SieveMarksPrimes | sieve.c:117-130 | from a reset list, the sieve leaves 'y' at k in 2..n if and only if k is prime |
| Sieve.SieveFromFrame | sieve.c:123-130 | the sieve changes a cell only to 'n', and only between i*i and n |
| Sieve.SieveFromIdempotent | sieve.c:123-130 | running the sieve again on its own output changes nothing |
| Sieve.CompositeHasSmallPrimeFactor | sieve.c:123 | stopping the outer loop once i*i > n is safe: every composite k has a prime factor p with p*p <= k |
| Sieve.SmallerMultipleAlreadyCrossed | sieve.c:125-126 | starting the sift at i*i is safe: each multiple m*i with 2 <= m < i has a prime factor below i, which has already crossed it out |
| Sieve.EarlyMultiplesCrossed | sieve.c:125-126 | when the outer loop reaches i, every multiple m*i <= n with 2 <= m < i is already crossed out, so the sift may start at i*i |
| FlatMatrix.Idx | gauss.c:137 | the flat position r*(n+1)+c of every cell lies inside the n*(n+1) buffer |
| FlatMatrix.OfRoundTrip | gauss.c:122 | every flat position of the buffer is the position of exactly one cell (row, column) |
| FlatMatrix.SizeIsProduct | gauss.c:122 | the buffer has n*(n+1) cells |
| FlatMatrix.Set | gauss.c:160 | writing one cell changes that cell and no other |
| FlatMatrix.Swapped | gauss.c:279-287 | the matrix after the exchange holds in row r the old row r1 or r2 when r is r2 or r1, and the old row r otherwise |
| FlatMatrix.SwapRows | gauss.c:279-287 | the column loop through a temporary exchanges all n+1 cells of rows r1 and r2 and leaves every other row alone |
| FlatMatrix.SwapInvolution | gauss.c:279-287 | exchanging the same two rows twice restores the matrix |
| FlatMatrix.SwapSelf | gauss.c:279-287 | exchanging a row with itself changes nothing |
| Gauss.Reset | gauss.c:119-125 | the first n*(n+1) cells become 4*(d-0.5) for the successive draws d, so they lie in [-2, 2) when the draws lie in [0, 1); the rest of the buffer is unchanged |
| Gauss.FirstNonzero | gauss.c:138-145 | the scan finds the first row from its start with a nonzero entry in the column; it finds none if and only if every such entry is zero |
| Gauss.PivotRow | gauss.c:137-146 | the row exchanged with row i is i itself when (i,i) is nonzero, otherwise the first row from the search start with a nonzero entry in column i; after the exchange (i,i) is zero if and only if it was zero and so is every entry the search looked at |
| Gauss.Pivoted | gauss.c:137-146 | cell by cell, the matrix after the pivot check of stage i is the input with row i exchanged with the row the search chose |
| Gauss.PivotedIsSwapped | gauss.c:137-146 | the pivot check is the `swap_rows` exchange of row i with the chosen row (the identity exchange when (i,i) is nonzero) |
| Gauss.Pivot | gauss.c:137-146 | the search loop with its break performs exactly that exchange; a nonzero pivot leaves the matrix alone |
| Gauss.ForwardAbortsAt | gauss.c:149-152 | stage i gives up if and only if (i,i) is zero and so is column i in every row the search looks at |
| Gauss.StageCell | gauss.c:158-160 | a cell after stage i: the entry below the pivot is cleared, and rows 0..i, columns left of i and rows with a zero in column i keep their value |
| Gauss.Eliminated | gauss.c:155-163 | the matrix after stage i keeps the n × (n+1) shape; cell by cell it is given by StageCell (proved in Gauss.EliminatedCells) |
| Gauss.EliminateRow | gauss.c:156-162 | row j loses (j,i)/(i,i) times row i in columns i..n when (j,i) is nonzero, and no other row changes |
| Gauss.EliminatedCells | gauss.c:155-163 | after stage i, only columns i..n of rows below i that have a nonzero entry in column i have changed, and column i is zero below the pivot |
| Gauss.EliminateStage | gauss.c:155-163 | the serial loop over rows i+1..n-1 gives the stage's cell-by-cell result |
| Gauss.MpEliminateStage | gauss.c:216-225 | the OpenMP elimination gives the same matrix whatever order the threads take the rows in |
| Gauss.StageKeepsReduced | gauss.c:134-164 | a stage that passes its pivot check extends the zeros below the diagonal to column i and keeps the diagonal of rows 0..i nonzero |
| Gauss.Forward | gauss.c:134-164 | the forward pass either gives up at some stage i < n-1, or ends with a matrix that has zeros below the diagonal in its first n-1 columns and a nonzero diagonal above the last row; every solution of the system it ends with solves the system it started from |
| Gauss.RowSumCombination | gauss.c:159-160 | when each coefficient of a row is another row's coefficient less k times a third row's, the row's left-hand side at any x is the same combination of theirs |
| Gauss.SwappedSolutions | gauss.c:279-287 | exchanging two rows reorders the equations, so a solution of the exchanged system solves the original one |
| Gauss.EliminatedRow | gauss.c:155-163 | with row i zero left of the pivot, each row after stage i is the row before it less (r,i)/(i,i) times row i in every column, right-hand side included, the factor being zero for the rows the stage leaves alone |
| Gauss.EliminatedRowSolution | gauss.c:155-163 | x solves equation r before stage i when it solves equation r after it and, for a row below i, the pivot equation i |
| Gauss.EliminatedSolutions | gauss.c:155-163 | a solution of the system after elimination stage i solves the system before it |
| Gauss.StageSolutions | gauss.c:137-163 | a stage that passes its pivot check keeps the solutions: a solution of the matrix it hands on solves the matrix it received |
| Gauss.StageKeepsSolutions | gauss.c:137-163 | the same for every x at once, on a matrix reduced up to column i, as the forward pass uses it |
| Gauss.BackSubstitutedSatisfies | gauss.c:172-179 | on an upper triangular system with a nonzero diagonal, the last column left by back substitution satisfies every full equation: the sum over all j of U[i][j]*x[j] equals b[i] |
| Gauss.RunSolvesInput | gauss.c:127-179 | when the forward pass succeeds with a nonzero (n-1,n-1), the last column after back substitution solves the input system |
| Gauss.SolvedTriangular | gauss.c:164-170 | a successful forward pass that leaves a nonzero (n-1,n-1) entry leaves an upper triangular system with a nonzero diagonal |
| Gauss.SolveRow | gauss.c:175-178 | solving row i changes only x_i, stored in (i,n), and afterwards equation i holds: (i,i)*x_i plus the sum over j > i of (i,j)*x_j equals b_i |
| Gauss.BackSubstituted | gauss.c:173-179 | back substitution writes only the last column, and only in rows it has reached |
| Gauss.BackSubstitutionSolves | gauss.c:172-179 | after back substitution, the last column x satisfies every equation of the triangular system: the sum over j >= i of U[i][j]*x[j] equals b[i] |
| Gauss.SubstituteRow | gauss.c:175-178 | the in-place loop from j = n-1 down to i+1, followed by the division by (i,i), stores x_i = (b_i - sum of (i,j)*x_j) / (i,i) |
| Gauss.BackSubstitute | gauss.c:173-179 | the serial back substitution computes the solved system bottom row first |
| Gauss.SumOverAnyOrder | gauss.c:239-242 | the reduction's sum over rows j > i is the same whatever order the terms are added in |
| Gauss.MpSubstituteRow | gauss.c:238-243 | the OpenMP reduction for row i stores the same x_i as the serial loop, for any order of the terms |
| Gauss.MpBackSubstitute | gauss.c:236-244 | the OpenMP back substitution gives the serial result |
| Gauss.SerialForward | gauss.c:134-164 | the serial stage loop gives up at the same stage as the forward pass, or hands on the same matrix |
| Gauss.MpForward | gauss.c:195-226 | the OpenMP stage loop gives the serial forward pass's outcome whatever order the threads take the rows of each stage in |
| Gauss.Solve | gauss.c:127-186 | when the forward pass gives up, a run gives up with the same outcome, at the same stage i < n-1; it gives up at stage n-1 exactly when the forward pass succeeds but leaves a zero (n-1,n-1); it succeeds exactly when the forward pass succeeds with a nonzero (n-1,n-1), and then leaves an upper triangular system with a nonzero diagonal whose last column solves both that system and the input system |
| Gauss.Serial | gauss.c:127-186 | the serial routine computes exactly that outcome and gives up at the same stage |
| Gauss.Mp | gauss.c:188-249 | the OpenMP routine has the serial outcome under every thread schedule of its two parallel loops |
| PivotSearchFinding.ExchangedHasUniqueSolution | gauss.c:137-146 | a 4 × 4 system whose coefficients are the identity with rows 2 and 3 exchanged has exactly one solution, (b0, b1, b3, b2) |
| PivotSearchFinding.AsWrittenGivesUp | gauss.c:138 | the search as written gives up on every such system at stage 2, although row 3 has a nonzero entry in column 2 |
| PivotSearchFinding.AsWrittenGivesUpOnM4 | gauss.c:199 | the concrete system M4 has the solution X4, yet the as-written run gives up on it |
| PivotSearchFinding.NextRowGivesUpOnlyOnZeroColumn | gauss.c:148-152 | with the search starting at row i+1, stage i gives up if and only if column i is zero from row i down, which is the case the message describes |
| PivotSearchFinding.NextRowSolves | gauss.c:137-146 | with the search starting at row i+1, the run solves every such system and leaves (b0, b1, b3, b2) in the last column |
| PivotSearchFinding.NextRowSolvesM4 | gauss.c:137-146 | the corrected run leaves X4 in the last column of M4 |

## Left out

- `main`, argument parsing, the timing with `gettimeofday`, and the printing routines are I/O and are not modelled.
- OpenMP threads, `num_threads` and barriers are not modelled as concurrency. A parallel loop is read as its iterations run one after another, in an order given as a parameter.
  - The iterations of the sieve's inner loop and of the elimination loop write disjoint cells, so for them this reading loses nothing.
  - The iterations of the back-substitution reduction all update `b`. OpenMP gives each thread a private copy and adds the copies at the end. With exact reals that equals the terms subtracted in some order, which is what the model states; with doubles the grouping changes the rounding.
- The thread count of the reduction (`omp_get_num_procs`) is not modelled. Only the order of the terms is.
- Floating point is not modelled: matrix cells are exact reals. Rounding, the small nonzero residues it leaves below the diagonal, and NaN/infinity are outside the model.
  - Given the matrix a stage receives, its zero tests and the cells it writes are as in the code.
  - Over a whole run the values differ from rounded doubles, so the zero tests of later stages and of (n-1,n-1) see exact values, not rounded ones.
  - So the stage at which a run gives up, and the rows a later stage writes, can differ from the code. For example, with rows (3, 1 | 0) and (1, fl(1/3) | 0), doubles leave (1,1) = 0.0 and the code gives up, while the model leaves fl(1/3) - 1/3, which is nonzero, and solves the system.
- `drand48` and `srand48` are not modelled. `Gauss.Reset` takes the stream of draws as a parameter.
- C `int` overflow is excluded by preconditions:
  - the sieve's marking loops require n <= 2^30, and its reset requires n < 2^31-1, so that `i++` cannot overflow;
  - the gauss entry points `Gauss.Serial`, `Gauss.Mp` and `Gauss.Reset` require n*(n+1) to fit an `int`.
- `exit(1)` after "Unique solution does not exist" is modelled as the `NoUniqueSolution(stage)` outcome.
- Gauss.Reset: the buffer must hold at least n*(n+1) cells. For a negative n the code's loop writes n*(n+1) cells (none for n = -1). Negative n is not modelled, because n is a `nat`.
- Gauss.Serial, Gauss.Mp: both require 1 <= n, because for n = 0 the last-pivot check (gauss.c:167 and gauss.c:229) reads `matrix[-2]`.
- Sieve.Reset: a list shorter than n+1 is excluded, as the code would write out of bounds.

## Findings

| source | as written | input that shows it | evidently intended | confidence | as-written member | corrected member |
|---|---|---|---|---|---|---|
| gauss.c:138 | the pivot search of `serial` starts at row `j=i+i`, so rows i+1 .. 2i-1 are never considered | n = 4, rows (1 0 0 0 \| 1), (0 1 0 0 \| 2), (0 0 0 1 \| 3), (0 0 1 0 \| 4): at stage 2, (2,2) is zero, the search starts at row 4 and finds nothing, and the run prints "Unique solution does not exist" although the unique solution is x = (1, 2, 4, 3) | start the search at `j=i+1`, so that the run gives up only when column i is zero from row i down | high; not executed | PivotSearchFinding.AsWrittenGivesUp | PivotSearchFinding.NextRowSolves |
| gauss.c:199 | the same search, starting at `j=i+i`, in `mp` | the same 4 × 4 system M4 | `j=i+1` | high; not executed | PivotSearchFinding.AsWrittenGivesUpOnM4 | PivotSearchFinding.NextRowGivesUpOnlyOnZeroColumn |

`Gauss.Serial` and `Gauss.Mp` take the search policy as a parameter: `AsWritten` is
the code as it stands and `FromNextRow` is the corrected search. Everything they
promise (`Gauss.Solve`) holds under both policies.
