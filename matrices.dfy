/** The value a tensor holds: a row-major buffer of reals, and the buffers
    that the tensor library's operations produce from their operands. Every
    `double` of the library is a `real` here. */
module Matrices {

  /** Row-major buffer: `m[i][j]` is row `i`, column `j`. */
  type Matrix = seq<seq<real>>

  /** `m` has exactly `h` rows, each exactly `w` long. */
  predicate Shaped(m: Matrix, h: nat, w: nat) {
    |m| == h && forall i :: 0 <= i < h ==> |m[i]| == w
  }

  function Rows(m: Matrix): nat { |m| }

  function Cols(m: Matrix): nat { if |m| == 0 then 0 else |m[0]| }

  /** The shape every tensor keeps: at least one row and one column, and
      every row as long as the first. */
  predicate Rectangular(m: Matrix) {
    |m| >= 1 && |m[0]| >= 1 && Shaped(m, |m|, |m[0]|)
  }

  /** The zero-filled tensor constructor raises a dimension below one to one. */
  function AtLeastOne(n: nat): nat { if n < 1 then 1 else n }

  function Zeros(h: nat, w: nat): Matrix {
    seq(h, _ => ZeroRow(w))
  }

  function ZeroRow(w: nat): seq<real> {
    seq(w, _ => 0.0)
  }

  /** What `eye(m, n)` builds: a zero tensor of the clamped shape with 1.0
      written at every (i, i) with i < m and i < n. */
  function Identity(m: nat, n: nat): (r: Matrix)
    ensures Rectangular(r) && Shaped(r, AtLeastOne(m), AtLeastOne(n))
  {
    seq(AtLeastOne(m), i => IdentityRow(m, n, i))
  }

  /** Row i of `Identity(m, n)`. */
  function IdentityRow(m: nat, n: nat, i: int): seq<real> {
    seq(AtLeastOne(n), j => if i == j && i < m && j < n then 1.0 else 0.0)
  }

  /** Sum over k < n of a[i][k] * b[k][j], accumulated in increasing k. */
  function RowCol(a: Matrix, b: Matrix, i: nat, j: nat, n: nat): real
    requires Rectangular(a) && Rectangular(b)
    requires i < Rows(a) && j < Cols(b) && n <= Cols(a) && n <= Rows(b)
  {
    if n == 0 then 0.0 else RowCol(a, b, i, j, n - 1) + a[i][n - 1] * b[n - 1][j]
  }

  /** The matrix product, defined when the inner dimensions agree. */
  function Product(a: Matrix, b: Matrix): Matrix
    requires Rectangular(a) && Rectangular(b) && Cols(a) == Rows(b)
  {
    seq(Rows(a), i requires 0 <= i < Rows(a) => ProductRow(a, b, i))
  }

  /** Row i of `Product(a, b)`. */
  function ProductRow(a: Matrix, b: Matrix, i: nat): seq<real>
    requires Rectangular(a) && Rectangular(b) && Cols(a) == Rows(b) && i < Rows(a)
  {
    seq(Cols(b), j requires 0 <= j < Cols(b) => RowCol(a, b, i, j, Rows(b)))
  }

  /** What `multiply(a, b)` returns: the product, or, when the inner
      dimensions disagree, a zero tensor of the shape the product would have. */
  function Multiplied(a: Matrix, b: Matrix): (r: Matrix)
    requires Rectangular(a) && Rectangular(b)
    ensures Rectangular(r) && Shaped(r, Rows(a), Cols(b))
  {
    if Cols(a) == Rows(b) then Product(a, b) else Zeros(Rows(a), Cols(b))
  }

  /** Element-wise sum of two tensors of one shape (`add`). */
  function Sum(a: Matrix, b: Matrix): (r: Matrix)
    requires Rectangular(a) && Shaped(b, Rows(a), Cols(a))
    ensures Rectangular(r) && Shaped(r, Rows(a), Cols(a))
  {
    seq(Rows(a), i requires 0 <= i < Rows(a) => SumRow(a[i], b[i]))
  }

  /** Cell-by-cell sum of two rows, as long as the first. */
  function SumRow(x: seq<real>, y: seq<real>): seq<real>
    requires |x| <= |y|
  {
    seq(|x|, j requires 0 <= j < |x| => x[j] + y[j])
  }

  function Transposed(a: Matrix): (r: Matrix)
    requires Rectangular(a)
    ensures Rectangular(r) && Shaped(r, Cols(a), Rows(a))
  {
    seq(Cols(a), i requires 0 <= i < Cols(a) => Column(a, i))
  }

  /** Column i of `a`, top to bottom. */
  function Column(a: Matrix, i: nat): seq<real>
    requires Rectangular(a) && i < Cols(a)
  {
    seq(Rows(a), j requires 0 <= j < Rows(a) => a[j][i])
  }

  /** What `augment_width(a, b)` returns: each row of `a` followed by the
      same row of `b`, or zeros of that shape when the heights differ. */
  function AugmentedWidth(a: Matrix, b: Matrix): (r: Matrix)
    requires Rectangular(a) && Rectangular(b)
    ensures Rectangular(r) && Shaped(r, Rows(a), Cols(a) + Cols(b))
  {
    if Rows(a) == Rows(b) then seq(Rows(a), i requires 0 <= i < Rows(a) => a[i] + b[i])
    else Zeros(Rows(a), Cols(a) + Cols(b))
  }

  /** `augment_height` fills row i >= height(a) from row i - width(a) of `b`;
      that row exists for every such i exactly when `a` is square. */
  predicate BottomBlockInRange(a: Matrix, b: Matrix) {
    Cols(a) == Cols(b) ==> Rows(a) == Cols(a)
  }

  /** What `augment_height(a, b)` returns: the rows of `a` then rows taken
      from `b` at the offset the code uses, or zeros when the widths differ. */
  function AugmentedHeight(a: Matrix, b: Matrix): (r: Matrix)
    requires Rectangular(a) && Rectangular(b) && BottomBlockInRange(a, b)
    ensures Rectangular(r) && Shaped(r, Rows(a) + Rows(b), Cols(a))
  {
    if Cols(a) == Cols(b) then
      seq(Rows(a) + Rows(b), i requires 0 <= i < Rows(a) + Rows(b) =>
        if i < Rows(a) then a[i] else b[i - Cols(a)])
    else Zeros(Rows(a) + Rows(b), Cols(a))
  }

  /** What `swap_rows(r, s)` leaves: rows r and s exchanged, every other
      row kept. */
  function Swapped(m: Matrix, r: nat, s: nat): (w: Matrix)
    requires r < |m| && s < |m|
    ensures |w| == |m| && w[r] == m[s] && w[s] == m[r]
    ensures forall i :: 0 <= i < |m| && i != r && i != s ==> w[i] == m[i]
  {
    m[r := m[s]][s := m[r]]
  }

  /** `m` with the single cell (i, j) replaced by v. */
  function WithCell(m: Matrix, i: nat, j: nat, v: real): Matrix
    requires i < |m| && j < |m[i]|
  {
    m[i := m[i][j := v]]
  }

  function Scaled(row: seq<real>, x: real): seq<real> {
    seq(|row|, k requires 0 <= k < |row| => row[k] * x)
  }

  function Minus(row: seq<real>, other: seq<real>): seq<real>
    requires |row| <= |other|
  {
    seq(|row|, k requires 0 <= k < |row| => row[k] - other[k])
  }

  function MinusScaled(row: seq<real>, other: seq<real>, x: real): seq<real>
    requires |row| <= |other|
  {
    seq(|row|, k requires 0 <= k < |row| => row[k] - x * other[k])
  }

  // ---------------------------------------------------------------------
  // Lemmas
  // ---------------------------------------------------------------------

  /** Two buffers of one shape that agree cell by cell are equal. */
  lemma CellsEqual(x: Matrix, y: Matrix, h: nat, w: nat)
    requires Shaped(x, h, w) && Shaped(y, h, w)
    requires forall i, j :: 0 <= i < h && 0 <= j < w ==> x[i][j] == y[i][j]
    ensures x == y
  {
    forall i | 0 <= i < h ensures x[i] == y[i] {
      assert forall j :: 0 <= j < w ==> x[i][j] == y[i][j];
    }
  }

  /** A zero tensor of m x n (m, n >= 1) with 1.0 on the diagonal only;
      with a zero argument the clamped tensor has no 1.0 at all. */
  lemma IdentityCells(m: nat, n: nat)
    ensures Shaped(Identity(m, n), AtLeastOne(m), AtLeastOne(n))
    ensures m >= 1 && n >= 1 ==>
      forall i, j :: 0 <= i < m && 0 <= j < n ==> (Identity(m, n)[i][j] == 1.0 <==> i == j)
    ensures m >= 1 && n >= 1 ==>
      forall i, j :: 0 <= i < m && 0 <= j < n && i != j ==> Identity(m, n)[i][j] == 0.0
    ensures m == 0 || n == 0 ==>
      forall i, j :: 0 <= i < AtLeastOne(m) && 0 <= j < AtLeastOne(n) ==> Identity(m, n)[i][j] == 0.0
  {
  }

  /** Transposing swaps the dimensions and the indices, and twice is the identity. */
  lemma TransposeInvolution(a: Matrix)
    requires Rectangular(a)
    ensures Rectangular(Transposed(a)) && Shaped(Transposed(a), Cols(a), Rows(a))
    ensures forall i, j :: 0 <= i < Cols(a) && 0 <= j < Rows(a) ==> Transposed(a)[i][j] == a[j][i]
    ensures Transposed(Transposed(a)) == a
  {
    var t := Transposed(a);
    assert Rows(t) == Cols(a) && Cols(t) == Rows(a);
    CellsEqual(Transposed(t), a, Rows(a), Cols(a));
  }

  /** The product has the shape height(a) x width(b), and its cells are the
      row-column sums when the inner dimensions agree, 0.0 otherwise. */
  lemma MultipliedCells(a: Matrix, b: Matrix)
    requires Rectangular(a) && Rectangular(b)
    ensures Rectangular(Multiplied(a, b)) && Shaped(Multiplied(a, b), Rows(a), Cols(b))
    ensures Cols(a) == Rows(b) ==>
      forall i, j :: 0 <= i < Rows(a) && 0 <= j < Cols(b) ==> Multiplied(a, b)[i][j] == RowCol(a, b, i, j, Rows(b))
    ensures Cols(a) != Rows(b) ==>
      forall i, j :: 0 <= i < Rows(a) && 0 <= j < Cols(b) ==> Multiplied(a, b)[i][j] == 0.0
  {
  }

  /** [[1,2,0],[2,1,0]] times the column [1,2,3] is the column [5,4]. */
  lemma MultiplyExample()
    ensures Multiplied([[1.0, 2.0, 0.0], [2.0, 1.0, 0.0]], [[1.0], [2.0], [3.0]]) == [[5.0], [4.0]]
  {
    var a: Matrix := [[1.0, 2.0, 0.0], [2.0, 1.0, 0.0]];
    var b: Matrix := [[1.0], [2.0], [3.0]];
    assert RowCol(a, b, 0, 0, 3) == 5.0 by {
      assert RowCol(a, b, 0, 0, 1) == 1.0;
      assert RowCol(a, b, 0, 0, 2) == 5.0;
    }
    assert RowCol(a, b, 1, 0, 3) == 4.0 by {
      assert RowCol(a, b, 1, 0, 1) == 2.0;
      assert RowCol(a, b, 1, 0, 2) == 4.0;
    }
    CellsEqual(Multiplied(a, b), [[5.0], [4.0]], 2, 1);
  }

  /** The sum has the operands' shape and adds cell by cell. */
  lemma SumCells(a: Matrix, b: Matrix)
    requires Rectangular(a) && Shaped(b, Rows(a), Cols(a))
    ensures Rectangular(Sum(a, b)) && Shaped(Sum(a, b), Rows(a), Cols(a))
    ensures forall i, j :: 0 <= i < Rows(a) && 0 <= j < Cols(a) ==> Sum(a, b)[i][j] == a[i][j] + b[i][j]
  {
  }

  /** A dot product against a sum of two columns is the sum of the two dot
      products. */
  lemma {:induction false} RowColSums(a: Matrix, x: Matrix, y: Matrix, i: nat, j: nat, n: nat)
    requires Rectangular(a) && Rectangular(x) && Shaped(y, Rows(x), Cols(x))
    requires i < Rows(a) && j < Cols(x) && n <= Cols(a) && n <= Rows(x)
    ensures RowCol(a, Sum(x, y), i, j, n) == RowCol(a, x, i, j, n) + RowCol(a, y, i, j, n)
  {
    if n > 0 {
      RowColSums(a, x, y, i, j, n - 1);
      SumCells(x, y);
      var k := n - 1;
      assert a[i][k] * Sum(x, y)[k][j] == a[i][k] * x[k][j] + a[i][k] * y[k][j];
    }
  }

  /** Multiplication distributes over the sum: a(x + y) = ax + ay. */
  lemma ProductDistributes(a: Matrix, x: Matrix, y: Matrix)
    requires Rectangular(a) && Rectangular(x) && Shaped(y, Rows(x), Cols(x)) && Cols(a) == Rows(x)
    ensures Multiplied(a, Sum(x, y)) == Sum(Multiplied(a, x), Multiplied(a, y))
  {
    var lhs, rhs := Multiplied(a, Sum(x, y)), Sum(Multiplied(a, x), Multiplied(a, y));
    MultipliedCells(a, Sum(x, y));
    MultipliedCells(a, x);
    MultipliedCells(a, y);
    SumCells(Multiplied(a, x), Multiplied(a, y));
    forall i, j | 0 <= i < Rows(a) && 0 <= j < Cols(x)
      ensures lhs[i][j] == rhs[i][j]
    {
      RowColSums(a, x, y, i, j, Rows(x));
    }
    CellsEqual(lhs, rhs, Rows(a), Cols(x));
  }

  /** Width augmentation: a on the left, b on the right when the heights
      agree, all zeros otherwise; the shape is height(a) x (width(a) + width(b)). */
  lemma AugmentedWidthBlocks(a: Matrix, b: Matrix)
    requires Rectangular(a) && Rectangular(b)
    ensures Rectangular(AugmentedWidth(a, b)) && Shaped(AugmentedWidth(a, b), Rows(a), Cols(a) + Cols(b))
    ensures Rows(a) == Rows(b) ==>
      (forall i, j :: 0 <= i < Rows(a) && 0 <= j < Cols(a) ==> AugmentedWidth(a, b)[i][j] == a[i][j]) &&
      (forall i, j :: 0 <= i < Rows(a) && Cols(a) <= j < Cols(a) + Cols(b) ==>
        AugmentedWidth(a, b)[i][j] == b[i][j - Cols(a)])
    ensures Rows(a) != Rows(b) ==>
      forall i, j :: 0 <= i < Rows(a) && 0 <= j < Cols(a) + Cols(b) ==> AugmentedWidth(a, b)[i][j] == 0.0
  {
    if Rows(a) == Rows(b) {
      forall i, j | 0 <= i < Rows(a) && Cols(a) <= j < Cols(a) + Cols(b)
        ensures AugmentedWidth(a, b)[i][j] == b[i][j - Cols(a)]
      {
        assert AugmentedWidth(a, b)[i] == a[i] + b[i];
      }
    }
  }

  /** Height augmentation: a on top; b below it when the widths agree (which,
      for the offset the code uses, requires a square); zeros otherwise. */
  lemma AugmentedHeightBlocks(a: Matrix, b: Matrix)
    requires Rectangular(a) && Rectangular(b) && BottomBlockInRange(a, b)
    ensures Rectangular(AugmentedHeight(a, b)) && Shaped(AugmentedHeight(a, b), Rows(a) + Rows(b), Cols(a))
    ensures Cols(a) == Cols(b) ==>
      (forall i :: 0 <= i < Rows(a) ==> AugmentedHeight(a, b)[i] == a[i]) &&
      (forall i :: Rows(a) <= i < Rows(a) + Rows(b) ==> AugmentedHeight(a, b)[i] == b[i - Rows(a)])
    ensures Cols(a) != Cols(b) ==>
      forall i, j :: 0 <= i < Rows(a) + Rows(b) && 0 <= j < Cols(a) ==> AugmentedHeight(a, b)[i][j] == 0.0
  {
  }

  /** Swapping the same two rows twice restores the buffer. */
  lemma SwapTwice(m: Matrix, r: nat, s: nat)
    requires r < |m| && s < |m|
    ensures Swapped(Swapped(m, r, s), r, s) == m
  {
    var once := Swapped(m, r, s);
    assert once[r] == m[s] && once[s] == m[r];
  }

  /** A row swap permutes the rows. */
  lemma SwapPermutes(m: Matrix, r: nat, s: nat)
    requires r < |m| && s < |m|
    ensures multiset(Swapped(m, r, s)) == multiset(m)
  {
    if r != s {
      UpdatedMultiset(m, r, m[s]);
      UpdatedMultiset(m[r := m[s]], s, m[r]);
    }
  }

  /** Replacing one row trades its copy in the multiset of rows for the new one. */
  lemma UpdatedMultiset(m: Matrix, i: nat, row: seq<real>)
    requires i < |m|
    ensures multiset(m[i := row]) == multiset(m) - multiset{m[i]} + multiset{row}
  {
  }
}
