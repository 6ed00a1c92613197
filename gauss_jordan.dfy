/** The row reduction that `invert` performs on its augmented buffer
    `[a | eye]`, written step by step as the code does it, including the
    places where it departs from textbook Gauss-Jordan elimination:
      - the pivot search stops one row past a pivot found below the
        diagonal, so the swap that follows brings up the wrong row (or
        indexes past the buffer when the pivot is in the last row);
      - each forward step eliminates only the first lower row with a
        non-zero entry, and a non-last column with no such row makes the
        code index one row past the buffer;
      - only the last pivot row is scaled to 1.
    Paths that index past the buffer are undefined behaviour in the source;
    they are kept apart as `Overrun` so that `invert` can exclude them. */
module GaussJordan {
  import opened Matrices

  datatype Reduction =
    | Singular              // a pivot column is zero from the diagonal down: FAILURE
    | Overrun               // the code would index a row past the buffer
    | Reduced(aug: Matrix)  // the buffer after the pass

  /** A buffer the routine can work on: h rows, at least h columns. */
  predicate Wide(m: Matrix) {
    Rectangular(m) && Rows(m) <= Cols(m)
  }

  /** The first row k >= from whose entry in column c is non-zero, or |m|. */
  function FirstNonzeroBelow(m: Matrix, c: nat, from: nat): (k: nat)
    requires from <= |m| && forall r :: from <= r < |m| ==> c < |m[r]|
    ensures from <= k <= |m|
    ensures k < |m| ==> m[k][c] != 0.0
    ensures forall r :: from <= r < k ==> m[r][c] == 0.0
    decreases |m| - from
  {
    if from == |m| then |m|
    else if m[from][c] != 0.0 then from
    else FirstNonzeroBelow(m, c, from + 1)
  }

  /** Where the pivot search of column c (started on diagonal row c) leaves
      `pivot_row` when it finds a non-zero entry in row k: on k itself when
      k is the diagonal row, one row further down otherwise. */
  function PivotRowAfterSearch(c: nat, k: nat): (pr: nat)
    requires c <= k
    ensures c <= pr
    ensures pr == k <==> k == c
  {
    if k == c then c else k + 1
  }

  /** The pivot search and the swap of forward step c: `Singular` when
      column c is zero from row c down, `Overrun` when the search ends one
      row past the buffer, and otherwise the buffer with the row the search
      ended on exchanged with row c. */
  function PivotSwap(m: Matrix, c: nat): (r: Reduction)
    requires Wide(m) && c < Rows(m)
    ensures r.Reduced? ==> Wide(r.aug) && Shaped(r.aug, Rows(m), Cols(m))
    ensures r.Reduced? && c == Rows(m) - 1 ==> r.aug[c][c] != 0.0
  {
    var k := FirstNonzeroBelow(m, c, c);
    if k == Rows(m) then Singular
    else
      var pr := PivotRowAfterSearch(c, k);
      if pr == Rows(m) then Overrun
      else if pr != c then Reduced(Swapped(m, c, pr))
      else Reduced(m)
  }

  /** The elimination of forward step c after the swap. Above the last row,
      the first row t below c with a non-zero entry in column c is scaled
      by m[c][c] / m[t][c] and has row c subtracted (`Overrun` when there is
      no such row); in the last row, row c is scaled by 1 / m[c][c]. */
  function Eliminate(m: Matrix, c: nat): (r: Reduction)
    requires Wide(m) && c < Rows(m)
    requires c == Rows(m) - 1 ==> m[c][c] != 0.0
    ensures r.Reduced? ==> Wide(r.aug) && Shaped(r.aug, Rows(m), Cols(m))
  {
    if c != Rows(m) - 1 then
      var t := FirstNonzeroBelow(m, c, c + 1);
      if t == Rows(m) then Overrun
      else Reduced(m[t := Minus(Scaled(m[t], m[c][c] / m[t][c]), m[c])])
    else
      Reduced(m[c := Scaled(m[c], 1.0 / m[c][c])])
  }

  /** One iteration of the forward loop, for pivot column c and diagonal row c. */
  function EliminateBelow(m: Matrix, c: nat): (r: Reduction)
    requires Wide(m) && c < Rows(m)
    ensures r.Reduced? ==> Wide(r.aug) && Shaped(r.aug, Rows(m), Cols(m))
  {
    match PivotSwap(m, c)
    case Reduced(m1) => Eliminate(m1, c)
    case other => other
  }

  /** The forward loop after its first c iterations (prefix form). */
  function ForwardPass(m: Matrix, c: nat): (r: Reduction)
    requires Wide(m) && c <= Rows(m)
    ensures r.Reduced? ==> Wide(r.aug) && Shaped(r.aug, Rows(m), Cols(m))
    decreases c, 0
  {
    if c == 0 then Reduced(m) else ForwardIteration(m, c - 1)
  }

  /** Iteration c of the forward loop, applied to what the first c
      iterations leave; a loop that has already returned stays returned. */
  function ForwardIteration(m: Matrix, c: nat): (r: Reduction)
    requires Wide(m) && c < Rows(m)
    ensures r.Reduced? ==> Wide(r.aug) && Shaped(r.aug, Rows(m), Cols(m))
    decreases c, 1
  {
    match ForwardPass(m, c)
    case Reduced(m') => EliminateBelow(m', c)
    case other => other
  }

  /** One iteration of the backward loop, pivot row and column p: every row
      above p with a non-zero entry in column p has that multiple of row p
      subtracted. */
  function ClearAbove(m: Matrix, p: nat): (r: Matrix)
    requires Wide(m) && p < Rows(m)
    ensures Wide(r) && Shaped(r, Rows(m), Cols(m))
  {
    ClearedRows(m, p, |m|)
  }

  /** The first n rows of `ClearAbove(m, p)`. */
  function ClearedRows(m: Matrix, p: nat, n: nat): (r: Matrix)
    requires Wide(m) && p < Rows(m) && n <= Rows(m)
    ensures |r| == n && forall t :: 0 <= t < n ==> |r[t]| == Cols(m)
  {
    if n == 0 then [] else ClearedRows(m, p, n - 1) + [ClearedRow(m, p, n - 1)]
  }

  function ClearedRow(m: Matrix, p: nat, t: nat): (r: seq<real>)
    requires Wide(m) && p < Rows(m) && t < Rows(m)
    ensures |r| == Cols(m)
  {
    if t < p && m[t][p] != 0.0 then MinusScaled(m[t], m[p], m[t][p]) else m[t]
  }

  /** Row t of `ClearAbove(m, p)`: row t less m[t][p] times row p when t is
      above p and that entry is non-zero, row t itself otherwise. */
  lemma ClearAboveRows(m: Matrix, p: nat)
    requires Wide(m) && p < Rows(m)
    ensures forall t :: 0 <= t < Rows(m) ==> ClearAbove(m, p)[t] == ClearedRow(m, p, t)
  {
    ClearedRowsCells(m, p, Rows(m));
  }

  lemma {:induction false} ClearedRowsCells(m: Matrix, p: nat, n: nat)
    requires Wide(m) && p < Rows(m) && n <= Rows(m)
    ensures forall t :: 0 <= t < n ==> ClearedRows(m, p, n)[t] == ClearedRow(m, p, t)
  {
    if n > 0 {
      ClearedRowsCells(m, p, n - 1);
    }
  }

  /** The backward loop after its first n iterations; iteration i uses pivot
      row h - 1 - i. */
  function BackwardPass(m: Matrix, n: nat): (r: Matrix)
    requires Wide(m) && n < Rows(m)
    ensures Wide(r) && Shaped(r, Rows(m), Cols(m))
  {
    if n == 0 then m else ClearAbove(BackwardPass(m, n - 1), Rows(m) - n)
  }

  /** The buffer `invert` starts from: `augment_width(a, eye(h, w))`. */
  function Augmented(a: Matrix): (m: Matrix)
    requires Rectangular(a) && Rows(a) == Cols(a)
    ensures Wide(m) && Shaped(m, Rows(a), 2 * Cols(a))
  {
    IdentityCells(Rows(a), Cols(a));
    AugmentedWidthBlocks(a, Identity(Rows(a), Cols(a)));
    AugmentedWidth(a, Identity(Rows(a), Cols(a)))
  }

  /** The whole routine on a square a: forward pass over every column, then
      the backward pass over pivot rows h - 1 down to 1. */
  function Run(a: Matrix): (r: Reduction)
    requires Rectangular(a) && Rows(a) == Cols(a)
    ensures r.Reduced? ==> Wide(r.aug) && Shaped(r.aug, Rows(a), 2 * Cols(a))
  {
    match ForwardPass(Augmented(a), Rows(a))
    case Reduced(m) => Reduced(BackwardPass(m, Rows(a) - 1))
    case other => other
  }

  /** The right-hand n x n block of an augmented buffer: what `invert`
      copies into `a_inv`. */
  function RightBlock(m: Matrix, n: nat): (b: Matrix)
    requires Shaped(m, n, 2 * n)
    ensures Shaped(b, n, n)
    ensures forall i, j :: 0 <= i < n && 0 <= j < n ==> b[i][j] == m[i][n + j]
  {
    seq(n, i requires 0 <= i < n => m[i][n..])
  }

  // ---------------------------------------------------------------------
  // Lemmas
  // ---------------------------------------------------------------------

  /** Once the forward loop has returned (FAILURE, or an overrun), later
      iterations do not happen. */
  lemma {:induction false} ForwardPassStops(m: Matrix, c: nat, c': nat)
    requires Wide(m) && c <= c' <= Rows(m)
    requires !ForwardPass(m, c).Reduced?
    ensures ForwardPass(m, c') == ForwardPass(m, c)
    decreases c' - c
  {
    if c < c' {
      ForwardPassHolds(m, c);
      ForwardPassStops(m, c + 1, c');
    }
  }

  /** A pass that has stopped stays stopped for one more column. */
  lemma ForwardPassHolds(m: Matrix, c: nat)
    requires Wide(m) && c < Rows(m)
    requires !ForwardPass(m, c).Reduced?
    ensures ForwardPass(m, c + 1) == ForwardPass(m, c)
  {
  }

  /** After a forward step that does not reduce, the pass is over: its
      outcome is the outcome of the whole forward loop. */
  lemma ForwardPassRest(m0: Matrix, c: nat)
    requires Wide(m0) && c < Rows(m0)
    ensures ForwardPass(m0, c + 1).Reduced? || ForwardPass(m0, Rows(m0)) == ForwardPass(m0, c + 1)
  {
    if !ForwardPass(m0, c + 1).Reduced? {
      ForwardPassStops(m0, c + 1, Rows(m0));
    }
  }

  /** The outcome of the routine read off its forward pass: a failed or
      overrunning forward pass is the outcome, and a reduced one is followed
      by the backward pass. */
  lemma RunByPasses(a: Matrix, fwd: Matrix)
    requires Rectangular(a) && Rows(a) == Cols(a)
    ensures !ForwardPass(Augmented(a), Rows(a)).Reduced? ==> Run(a) == ForwardPass(Augmented(a), Rows(a))
    ensures ForwardPass(Augmented(a), Rows(a)) == Reduced(fwd) ==> Run(a) == Reduced(BackwardPass(fwd, Rows(a) - 1))
  {
  }

  /** One more iteration of the backward loop clears the next pivot column
      up. */
  lemma BackwardPassNext(m: Matrix, n: nat)
    requires Wide(m) && n + 1 < Rows(m)
    ensures BackwardPass(m, n + 1) == ClearAbove(BackwardPass(m, n), Rows(m) - 1 - n)
  {
  }

  /** Column `col` being zero throughout survives a forward step. */
  lemma EliminateBelowKeepsZeroColumn(m: Matrix, c: nat, col: nat)
    requires Wide(m) && c < Rows(m) && col < Cols(m)
    requires forall i :: 0 <= i < Rows(m) ==> m[i][col] == 0.0
    ensures EliminateBelow(m, c).Reduced? ==>
      forall i :: 0 <= i < Rows(m) ==> EliminateBelow(m, c).aug[i][col] == 0.0
  {
  }

  /** The forward pass keeps an all-zero column all zero. */
  lemma {:induction false} ForwardPassKeepsZeroColumn(m: Matrix, c: nat, col: nat)
    requires Wide(m) && c <= Rows(m) && col < Cols(m)
    requires forall i :: 0 <= i < Rows(m) ==> m[i][col] == 0.0
    ensures ForwardPass(m, c).Reduced? ==>
      forall i :: 0 <= i < Rows(m) ==> ForwardPass(m, c).aug[i][col] == 0.0
  {
    if c > 0 {
      ForwardPassKeepsZeroColumn(m, c - 1, col);
      if ForwardPass(m, c - 1).Reduced? {
        EliminateBelowKeepsZeroColumn(ForwardPass(m, c - 1).aug, c - 1, col);
      }
    }
  }

  /** The left half of the starting buffer is the input. */
  lemma AugmentedLeft(a: Matrix)
    requires Rectangular(a) && Rows(a) == Cols(a)
    ensures forall i, j :: 0 <= i < Rows(a) && 0 <= j < Cols(a) ==> Augmented(a)[i][j] == a[i][j]
  {
    AugmentedWidthBlocks(a, Identity(Rows(a), Cols(a)));
  }

  /** A column that is zero from the diagonal down makes the forward step
      report FAILURE. */
  lemma ZeroColumnStepFails(m: Matrix, c: nat)
    requires Wide(m) && c < Rows(m)
    requires forall i :: c <= i < Rows(m) ==> m[i][c] == 0.0
    ensures EliminateBelow(m, c) == Singular
  {
    assert FirstNonzeroBelow(m, c, c) == Rows(m);
  }

  /** When the first non-zero entry of column c at or below the diagonal
      lies in a lower row k, the search stops on row k + 1, and that row,
      not row k, is swapped up to the diagonal. */
  lemma PivotSearchOvershoots(m: Matrix, c: nat)
    requires Wide(m) && c < Rows(m)
    requires c < FirstNonzeroBelow(m, c, c) < Rows(m) - 1
    ensures PivotSwap(m, c) == Reduced(Swapped(m, c, FirstNonzeroBelow(m, c, c) + 1))
    ensures PivotSwap(m, c).aug[c] == m[FirstNonzeroBelow(m, c, c) + 1]
  {
  }

  /** An instance of the overshoot: column 0 is non-zero only in row 1, the
      swap brings up row 2, and the diagonal entry stays zero. */
  lemma ZeroPivotSwappedUp()
    ensures PivotSwap([[0.0, 1.0, 0.0], [1.0, 0.0, 0.0], [0.0, 0.0, 1.0]], 0) ==
      Reduced([[0.0, 0.0, 1.0], [1.0, 0.0, 0.0], [0.0, 1.0, 0.0]])
    ensures PivotSwap([[0.0, 1.0, 0.0], [1.0, 0.0, 0.0], [0.0, 0.0, 1.0]], 0).aug[0][0] == 0.0
  {
    var m: Matrix := [[0.0, 1.0, 0.0], [1.0, 0.0, 0.0], [0.0, 0.0, 1.0]];
    assert FirstNonzeroBelow(m, 0, 0) == 1 by {
      assert m[0][0] == 0.0 && m[1][0] != 0.0;
    }
  }

  /** A square matrix with an all-zero column is never inverted: the run
      fails (FAILURE) at that column, unless an earlier column already
      overran the buffer. */
  lemma {:induction false} ZeroColumnFails(a: Matrix, col: nat)
    requires Rectangular(a) && Rows(a) == Cols(a) && col < Cols(a)
    requires forall i :: 0 <= i < Rows(a) ==> a[i][col] == 0.0
    ensures Run(a).Singular? || Run(a).Overrun?
    ensures ForwardPass(Augmented(a), col).Reduced? ==> Run(a).Singular?
  {
    var aug := Augmented(a);
    AugmentedLeft(a);
    ForwardPassKeepsZeroColumn(aug, col, col);
    RunByPasses(a, []);
    if ForwardPass(aug, col).Reduced? {
      var m := ForwardPass(aug, col).aug;
      ZeroColumnStepFails(m, col);
      ForwardPassRest(aug, col);
    } else {
      ForwardPassStops(aug, col, Rows(a));
    }
  }

  /** The routine cannot invert even the identity of size two or more: the
      first column has no lower non-zero entry, so the code indexes one row
      past the buffer. */
  lemma IdentityOverruns(n: nat)
    requires n >= 2
    ensures Rectangular(Identity(n, n)) && Rows(Identity(n, n)) == Cols(Identity(n, n)) == n
    ensures Run(Identity(n, n)) == Overrun
  {
    var a := Identity(n, n);
    IdentityCells(n, n);
    var aug := Augmented(a);
    AugmentedWidthBlocks(a, Identity(n, n));
    assert aug[0][0] == 1.0;
    assert FirstNonzeroBelow(aug, 0, 0) == 0;
    assert forall i :: 1 <= i < n ==> aug[i][0] == 0.0;
    assert FirstNonzeroBelow(aug, 0, 1) == n;
    assert ForwardPass(aug, 1) == Overrun;
    ForwardPassStops(aug, 1, n);
  }

  // The instance the source exercises, step by step.
  const ExampleA: Matrix := [[1.0, 2.0, 3.0], [0.0, 1.0, 4.0], [5.0, 6.0, 1.0]]
  const ExampleStart: Matrix :=
    [[1.0, 2.0, 3.0, 1.0, 0.0, 0.0], [0.0, 1.0, 4.0, 0.0, 1.0, 0.0], [5.0, 6.0, 1.0, 0.0, 0.0, 1.0]]
  const ExampleCol0: Matrix :=
    [[1.0, 2.0, 3.0, 1.0, 0.0, 0.0], [0.0, 1.0, 4.0, 0.0, 1.0, 0.0], [0.0, -0.8, -2.8, -1.0, 0.0, 0.2]]
  const ExampleCol1: Matrix :=
    [[1.0, 2.0, 3.0, 1.0, 0.0, 0.0], [0.0, 1.0, 4.0, 0.0, 1.0, 0.0], [0.0, 0.0, -0.5, 1.25, -1.0, -0.25]]
  const ExampleCol2: Matrix :=
    [[1.0, 2.0, 3.0, 1.0, 0.0, 0.0], [0.0, 1.0, 4.0, 0.0, 1.0, 0.0], [0.0, 0.0, 1.0, -2.5, 2.0, 0.5]]
  const ExampleBack2: Matrix :=
    [[1.0, 2.0, 0.0, 8.5, -6.0, -1.5], [0.0, 1.0, 0.0, 10.0, -7.0, -2.0], [0.0, 0.0, 1.0, -2.5, 2.0, 0.5]]
  const ExampleBack1: Matrix :=
    [[1.0, 0.0, 0.0, -11.5, 8.0, 2.5], [0.0, 1.0, 0.0, 10.0, -7.0, -2.0], [0.0, 0.0, 1.0, -2.5, 2.0, 0.5]]

  lemma ExampleAugmented()
    ensures Augmented(ExampleA) == ExampleStart
  {
    AugmentedWidthBlocks(ExampleA, Identity(3, 3));
    CellsEqual(Augmented(ExampleA), ExampleStart, 3, 6);
  }

  /** Column 0: pivot on row 0; row 2 is scaled by 1/5 and row 0 subtracted. */
  lemma ExampleColumn0()
    ensures EliminateBelow(ExampleStart, 0) == Reduced(ExampleCol0)
  {
    var m := ExampleStart;
    assert FirstNonzeroBelow(m, 0, 0) == 0;
    assert FirstNonzeroBelow(m, 0, 1) == 2 by { assert m[1][0] == 0.0 && m[2][0] != 0.0; }
    assert Minus(Scaled(m[2], 0.2), m[0]) == ExampleCol0[2];
  }

  /** Column 1: pivot on row 1; row 2 is scaled by -1.25 and row 1 subtracted. */
  lemma ExampleColumn1()
    ensures EliminateBelow(ExampleCol0, 1) == Reduced(ExampleCol1)
  {
    var m := ExampleCol0;
    assert FirstNonzeroBelow(m, 1, 1) == 1;
    assert FirstNonzeroBelow(m, 1, 2) == 2;
    assert Minus(Scaled(m[2], -1.25), m[1]) == ExampleCol1[2];
  }

  /** Column 2 is the last: its row is scaled by 1 / -0.5. */
  lemma ExampleColumn2()
    ensures EliminateBelow(ExampleCol1, 2) == Reduced(ExampleCol2)
  {
    var m := ExampleCol1;
    assert FirstNonzeroBelow(m, 2, 2) == 2;
    assert Scaled(m[2], -2.0) == ExampleCol2[2];
  }

  /** Pivot row 2 clears column 2 from rows 1 and 0. */
  lemma ExampleBackward2()
    ensures ClearAbove(ExampleCol2, 2) == ExampleBack2
  {
    var m := ExampleCol2;
    assert MinusScaled(m[0], m[2], 3.0) == ExampleBack2[0];
    assert MinusScaled(m[1], m[2], 4.0) == ExampleBack2[1];
    CellsEqual(ClearAbove(m, 2), ExampleBack2, 3, 6);
  }

  /** Pivot row 1 clears column 1 from row 0. */
  lemma ExampleBackward1()
    ensures ClearAbove(ExampleBack2, 1) == ExampleBack1
  {
    var m := ExampleBack2;
    assert MinusScaled(m[0], m[1], 2.0) == ExampleBack1[0];
    CellsEqual(ClearAbove(m, 1), ExampleBack1, 3, 6);
  }

  lemma ExampleForward()
    ensures ForwardPass(ExampleStart, 3) == Reduced(ExampleCol2)
  {
    ExampleColumn0();
    assert ForwardPass(ExampleStart, 1) == Reduced(ExampleCol0);
    ExampleColumn1();
    assert ForwardPass(ExampleStart, 2) == Reduced(ExampleCol1);
    ExampleColumn2();
  }

  lemma ExampleBackward()
    ensures BackwardPass(ExampleCol2, 2) == ExampleBack1
  {
    ExampleBackward2();
    assert BackwardPass(ExampleCol2, 1) == ExampleBack2;
    ExampleBackward1();
  }

  lemma ExampleRun()
    ensures Rectangular(ExampleA) && Rows(ExampleA) == Cols(ExampleA) == 3
    ensures Run(ExampleA) == Reduced(ExampleBack1)
  {
    assert Rectangular(ExampleA) && Rows(ExampleA) == Cols(ExampleA) == 3;
    ExampleAugmented();
    ExampleForward();
    ExampleBackward();
    var aug := Augmented(ExampleA);
    assert ForwardPass(aug, 3) == Reduced(ExampleCol2);
  }

  lemma ExampleBlock()
    ensures RightBlock(ExampleBack1, 3) == [[-11.5, 8.0, 2.5], [10.0, -7.0, -2.0], [-2.5, 2.0, 0.5]]
  {
    CellsEqual(RightBlock(ExampleBack1, 3), [[-11.5, 8.0, 2.5], [10.0, -7.0, -2.0], [-2.5, 2.0, 0.5]], 3, 3);
  }

  /** The instance the source exercises: [[1,2,3],[0,1,4],[5,6,1]] runs to
      the end, and the block copied out is its inverse
      [[-11.5,8,2.5],[10,-7,-2],[-2.5,2,0.5]]. */
  lemma InvertExample()
    ensures Rectangular(ExampleA) && Rows(ExampleA) == Cols(ExampleA) == 3
    ensures Run(ExampleA).Reduced?
    ensures RightBlock(Run(ExampleA).aug, 3) == [[-11.5, 8.0, 2.5], [10.0, -7.0, -2.0], [-2.5, 2.0, 0.5]]
  {
    ExampleRun();
    ExampleBlock();
  }

  /** [[1,0,3],[0,0,4],[5,0,1]] has an all-zero column 1: the first column
      reduces normally and the second reports FAILURE. */
  lemma SingularExample()
    ensures Rectangular([[1.0, 0.0, 3.0], [0.0, 0.0, 4.0], [5.0, 0.0, 1.0]])
    ensures Run([[1.0, 0.0, 3.0], [0.0, 0.0, 4.0], [5.0, 0.0, 1.0]]) == Singular
  {
    var a: Matrix := [[1.0, 0.0, 3.0], [0.0, 0.0, 4.0], [5.0, 0.0, 1.0]];
    assert Rectangular(a) && Rows(a) == Cols(a) == 3;
    var aug := Augmented(a);
    AugmentedWidthBlocks(a, Identity(3, 3));
    assert aug[0][0] == 1.0 && aug[1][0] == 0.0 && aug[2][0] == 5.0;
    assert FirstNonzeroBelow(aug, 0, 0) == 0;
    assert FirstNonzeroBelow(aug, 0, 1) == 2;
    assert ForwardPass(aug, 1).Reduced?;
    ZeroColumnFails(a, 1);
  }

  // [[2,0],[1,1]], whose inverse is [[0.5,0],[-0.5,1]].
  const SkewA: Matrix := [[2.0, 0.0], [1.0, 1.0]]
  const SkewReduced: Matrix := [[2.0, 0.0, 1.0, 0.0], [0.0, 1.0, -0.5, 1.0]]

  lemma SkewRun()
    ensures Rectangular(SkewA) && Rows(SkewA) == Cols(SkewA) == 2
    ensures Run(SkewA) == Reduced(SkewReduced)
  {
    assert Rectangular(SkewA) && Rows(SkewA) == Cols(SkewA) == 2;
    var m0: Matrix := [[2.0, 0.0, 1.0, 0.0], [1.0, 1.0, 0.0, 1.0]];
    AugmentedWidthBlocks(SkewA, Identity(2, 2));
    CellsEqual(Augmented(SkewA), m0, 2, 4);
    // column 0: pivot on row 0, row 1 scaled by 2 and row 0 subtracted
    var m1: Matrix := [[2.0, 0.0, 1.0, 0.0], [0.0, 2.0, -1.0, 2.0]];
    assert FirstNonzeroBelow(m0, 0, 0) == 0;
    assert FirstNonzeroBelow(m0, 0, 1) == 1;
    assert Minus(Scaled(m0[1], 2.0), m0[0]) == m1[1];
    assert EliminateBelow(m0, 0) == Reduced(m1);
    // column 1: last row, scaled by 1/2
    assert FirstNonzeroBelow(m1, 1, 1) == 1;
    assert Scaled(m1[1], 0.5) == SkewReduced[1];
    assert EliminateBelow(m1, 1) == Reduced(SkewReduced);
    assert ForwardPass(m0, 2) == Reduced(SkewReduced);
    // backward: row 0 already has 0.0 in column 1
    CellsEqual(ClearAbove(SkewReduced, 1), SkewReduced, 2, 4);
  }

  /** Success does not mean the block copied out is an inverse: for the
      invertible [[2,0],[1,1]] the routine succeeds, yet because row 0 is never scaled
      to a unit pivot the block it copies out is [[1,0],[-0.5,1]], and
      a times that block is [[2,0],[0.5,1]], not the identity. */
  lemma NotAnInverse()
    ensures Rectangular(SkewA) && Rows(SkewA) == Cols(SkewA) == 2
    ensures Run(SkewA).Reduced?
    ensures RightBlock(Run(SkewA).aug, 2) == [[1.0, 0.0], [-0.5, 1.0]]
    ensures Product(SkewA, RightBlock(Run(SkewA).aug, 2)) != Identity(2, 2)
  {
    SkewRun();
    var inv: Matrix := [[1.0, 0.0], [-0.5, 1.0]];
    CellsEqual(RightBlock(SkewReduced, 2), inv, 2, 2);
    assert RowCol(SkewA, inv, 0, 0, 2) == 2.0 by {
      assert RowCol(SkewA, inv, 0, 0, 1) == 2.0;
    }
    assert Product(SkewA, inv)[0][0] == 2.0;
    assert Identity(2, 2)[0][0] == 1.0;
  }
}
