/** The tensor class (a dense row-major buffer with its two dimensions), its
    in-place mutators, and the library's operations that build a fresh
    tensor cell by cell. Each operation is proved to produce the buffer
    described by the corresponding function of `Matrices` or `GaussJordan`. */
module Tensors {
  import opened Matrices
  import opened GaussJordan

  /** Result code of the library's operations. */
  datatype Status = Success | Failure

  /** Cells of `m` before (i, j) in row-major order agree with `t`, all later
      cells are still 0.0: the state of a fresh zero tensor being filled. */
  ghost predicate FilledTo(m: Matrix, t: Matrix, h: nat, w: nat, i: nat, j: nat) {
    Shaped(m, h, w) && Shaped(t, h, w) &&
    forall r, s :: 0 <= r < h && 0 <= s < w ==>
      m[r][s] == (if r < i || (r == i && s < j) then t[r][s] else 0.0)
  }

  class Tensor {
    const height: nat   // number of rows
    const width: nat    // number of columns
    var content: Matrix

    /** Every row is `width` long and there are `height` of them; both are
        at least one. */
    ghost predicate Valid()
      reads this
      ensures Valid() ==> Rectangular(content) && Rows(content) == height && Cols(content) == width
    {
      height >= 1 && width >= 1 && Shaped(content, height, width)
    }

    /** `tensor(m_rows, n_cols)`: a zero tensor; a dimension below one is
        raised to one. */
    constructor Sized(rows: nat, cols: nat)
      ensures Valid()
      ensures height == AtLeastOne(rows) && width == AtLeastOne(cols)
      ensures forall i, j :: 0 <= i < height && 0 <= j < width ==> content[i][j] == 0.0
    {
      var m, n := rows, cols;
      if m < 1 {
        m := 1;
      }
      if n < 1 {
        n := 1;
      }
      var row: seq<real> := [];
      for c := 0 to n
        invariant |row| == c && forall k :: 0 <= k < c ==> row[k] == 0.0
      {
        row := row + [0.0];
      }
      var buf: Matrix := [];
      for r := 0 to m
        invariant |buf| == r && forall k :: 0 <= k < r ==> buf[k] == row
      {
        buf := buf + [row];
      }
      content := buf;
      height := |buf|;
      width := |buf[0]|;
    }

    /** `tensor(m_rows)`: a zero column vector; a height below one is raised
        to one. */
    constructor Column(rows: nat)
      ensures Valid()
      ensures height == AtLeastOne(rows) && width == 1
      ensures forall i :: 0 <= i < height ==> content[i][0] == 0.0
    {
      var m := rows;
      if m < 1 {
        m := 1;
      }
      var row: seq<real> := [0.0];
      var buf: Matrix := [];
      for r := 0 to m
        invariant |buf| == r && forall k :: 0 <= k < r ==> buf[k] == row
      {
        buf := buf + [row];
      }
      content := buf;
      height := |buf|;
      width := |buf[0]|;
    }

    /** `tensor(v)`: the shape is taken from the literal (height |v|, width
        |v[0]|, no clamping) and cell (i, j) is v[i][j]. Every row must be at
        least as long as the first. */
    constructor FromRows(v: Matrix)
      requires |v| >= 1 && |v[0]| >= 1
      requires forall i :: 0 <= i < |v| ==> |v[0]| <= |v[i]|
      ensures Valid()
      ensures height == |v| && width == |v[0]|
      ensures forall i, j :: 0 <= i < height && 0 <= j < width ==> content[i][j] == v[i][j]
    {
      var m, n := |v|, |v[0]|;
      var row: seq<real> := [];
      for c := 0 to n
        invariant |row| == c
      {
        row := row + [0.0];
      }
      var buf: Matrix := [];
      for r := 0 to m
        invariant |buf| == r && forall k :: 0 <= k < r ==> buf[k] == row
      {
        buf := buf + [row];
      }
      for r := 0 to m
        invariant Shaped(buf, m, n)
        invariant forall i, j :: 0 <= i < r && 0 <= j < n ==> buf[i][j] == v[i][j]
      {
        for c := 0 to n
          invariant Shaped(buf, m, n)
          invariant forall i, j :: 0 <= i < r && 0 <= j < n ==> buf[i][j] == v[i][j]
          invariant forall j :: 0 <= j < c ==> buf[r][j] == v[r][j]
        {
          buf := WithCell(buf, r, c, v[r][c]);
        }
      }
      content := buf;
      height := |buf|;
      width := |buf[0]|;
    }

    /** `set_tensor_element`: writes cell (row, col) when it lies inside the
        tensor and reports SUCCESS; otherwise reports FAILURE and writes
        nothing. */
    method SetElement(row: nat, col: nat, value: real) returns (status: Status)
      requires Valid()
      modifies this
      ensures Valid()
      ensures status == (if row < height && col < width then Success else Failure)
      ensures forall i, j :: 0 <= i < height && 0 <= j < width ==>
        content[i][j] == (if status == Success && i == row && j == col then value else old(content[i][j]))
    {
      status := Success;
      if row < height && col < width {
        content := WithCell(content, row, col, value);
      } else {
        status := Failure;
      }
    }

    /** `set_tensor_content`: when `vv` has `height` rows and its first row
        is `width` long, every cell is overwritten from `vv`; otherwise
        nothing is written. SUCCESS is reported either way. */
    method SetContent(vv: Matrix) returns (status: Status)
      requires Valid()
      requires |vv| == height && |vv[0]| == width ==> forall i :: 0 <= i < |vv| ==> width <= |vv[i]|
      modifies this
      ensures Valid()
      ensures status == Success
      ensures |vv| == height && |vv[0]| == width ==>
        forall i, j :: 0 <= i < height && 0 <= j < width ==> content[i][j] == vv[i][j]
      ensures !(|vv| == height && |vv[0]| == width) ==> content == old(content)
    {
      status := Success;
      if |vv| == height && |vv[0]| == width {
        for row := 0 to height
          invariant Valid()
          invariant forall i, j :: 0 <= i < row && 0 <= j < width ==> content[i][j] == vv[i][j]
        {
          for col := 0 to width
            invariant Valid()
            invariant forall i, j :: 0 <= i < row && 0 <= j < width ==> content[i][j] == vv[i][j]
            invariant forall j :: 0 <= j < col ==> content[row][j] == vv[row][j]
          {
            content := WithCell(content, row, col, vv[row][col]);
          }
        }
      }
    }

    /** `swap_rows`: equal indices report SUCCESS and change nothing; two
        distinct non-negative indices have their rows exchanged and report
        SUCCESS; otherwise FAILURE and nothing changes. The code has no
        upper-bound check, so in-range indices are demanded of the caller. */
    method SwapRows(rowA: int, rowB: int) returns (status: Status)
      requires Valid()
      requires rowA >= 0 && rowB >= 0 && rowA != rowB ==> rowA < height && rowB < height
      modifies this
      ensures Valid()
      ensures status == (if rowA == rowB || (rowA >= 0 && rowB >= 0) then Success else Failure)
      ensures rowA >= 0 && rowB >= 0 && rowA != rowB ==> content == Swapped(old(content), rowA, rowB)
      ensures !(rowA >= 0 && rowB >= 0 && rowA != rowB) ==> content == old(content)
    {
      status := Failure;
      if rowA >= 0 && rowB >= 0 && rowA != rowB {
        for j := 0 to width
          invariant Valid()
          invariant forall i :: 0 <= i < height && i != rowA && i != rowB ==> content[i] == old(content[i])
          invariant forall k :: 0 <= k < j ==> content[rowA][k] == old(content[rowB][k]) && content[rowB][k] == old(content[rowA][k])
          invariant forall k :: j <= k < width ==> content[rowA][k] == old(content[rowA][k]) && content[rowB][k] == old(content[rowB][k])
        {
          var temp := content[rowA][j];
          content := WithCell(content, rowA, j, content[rowB][j]);
          content := WithCell(content, rowB, j, temp);
        }
        status := Success;
        CellsEqual(content, Swapped(old(content), rowA, rowB), height, width);
      } else if rowA == rowB {
        status := Success;
      } else {
        status := Failure;
      }
    }
  }

  /** `multiply(a, b)`: a fresh height(a) x width(b) tensor holding the
      product when width(a) == height(b), and zeros otherwise. */
  method Multiply(a: Tensor, b: Tensor) returns (c: Tensor)
    requires a.Valid() && b.Valid()
    ensures fresh(c) && c.Valid()
    ensures c.height == a.height && c.width == b.width
    ensures c.content == Multiplied(a.content, b.content)
  {
    c := new Tensor.Sized(a.height, b.width);
    MultipliedCells(a.content, b.content);
    ghost var target := Multiplied(a.content, b.content);
    if a.width == b.height {
      for i := 0 to a.height
        invariant c.Valid() && FilledTo(c.content, target, a.height, b.width, i, 0)
      {
        for j := 0 to b.width
          invariant c.Valid() && FilledTo(c.content, target, a.height, b.width, i, j)
        {
          AccumulateCell(c, a.content, b.content, i, j);
        }
      }
    }
    CellsEqual(c.content, target, a.height, b.width);
  }

  /** The innermost loop of `multiply`: cell (i, j) of c is zeroed and then
      accumulates a[i][k] * b[k][j] for k in order; no other cell changes. */
  method AccumulateCell(c: Tensor, a: Matrix, b: Matrix, i: nat, j: nat)
    requires c.Valid() && i < c.height && j < c.width
    requires Rectangular(a) && Rectangular(b) && Cols(a) == Rows(b) && i < Rows(a) && j < Cols(b)
    modifies c
    ensures c.Valid()
    ensures c.content == WithCell(old(c.content), i, j, RowCol(a, b, i, j, Rows(b)))
  {
    ghost var m0 := c.content;
    c.content := WithCell(c.content, i, j, 0.0);
    for k := 0 to Rows(b)
      invariant c.Valid()
      invariant c.content == WithCell(m0, i, j, RowCol(a, b, i, j, k))
    {
      c.content := WithCell(c.content, i, j, c.content[i][j] + a[i][k] * b[k][j]);
      assert c.content[i] == m0[i][j := RowCol(a, b, i, j, k + 1)];
    }
  }

  /** `add(a, b)`, which the library declares but does not define here: the
      element-wise sum of two tensors of one shape. */
  method Add(a: Tensor, b: Tensor) returns (c: Tensor)
    requires a.Valid() && b.Valid()
    requires a.height == b.height && a.width == b.width
    ensures fresh(c) && c.Valid()
    ensures c.height == a.height && c.width == a.width
    ensures c.content == Sum(a.content, b.content)
  {
    SumCells(a.content, b.content);
    c := new Tensor.FromRows(Sum(a.content, b.content));
    CellsEqual(c.content, Sum(a.content, b.content), a.height, a.width);
  }

  /** `copy(a)`: a fresh tensor of a's shape whose content is filled from a's
      through `set_tensor_content`. Writing to the copy cannot touch `a`. */
  method Copy(a: Tensor) returns (b: Tensor)
    requires a.Valid()
    ensures fresh(b) && b.Valid()
    ensures b.height == a.height && b.width == a.width
    ensures b.content == a.content
  {
    b := new Tensor.Sized(a.height, a.width);
    var _ := b.SetContent(a.content);
    CellsEqual(b.content, a.content, a.height, a.width);
  }

  /** `transpose(a)`: a fresh width(a) x height(a) tensor with cell (i, j)
      taken from a's cell (j, i). */
  method Transpose(a: Tensor) returns (b: Tensor)
    requires a.Valid()
    ensures fresh(b) && b.Valid()
    ensures b.height == a.width && b.width == a.height
    ensures b.content == Transposed(a.content)
  {
    b := new Tensor.Sized(a.width, a.height);
    TransposeInvolution(a.content);
    ghost var target := Transposed(a.content);
    for i := 0 to b.height
      invariant b.Valid() && FilledTo(b.content, target, b.height, b.width, i, 0)
    {
      for j := 0 to b.width
        invariant b.Valid() && FilledTo(b.content, target, b.height, b.width, i, j)
      {
        b.content := WithCell(b.content, i, j, a.content[j][i]);
      }
    }
    CellsEqual(b.content, target, b.height, b.width);
  }

  /** `eye(m, n)`: a fresh zero tensor of the clamped shape with 1.0 written
      where the row index equals the column index, for rows below m and
      columns below n. */
  method Eye(m: nat, n: nat) returns (e: Tensor)
    ensures fresh(e) && e.Valid()
    ensures e.height == AtLeastOne(m) && e.width == AtLeastOne(n)
    ensures e.content == Identity(m, n)
  {
    e := new Tensor.Sized(m, n);
    IdentityCells(m, n);
    ghost var target := Identity(m, n);
    for i := 0 to m
      invariant e.Valid() && FilledTo(e.content, target, e.height, e.width, i, 0)
    {
      for j := 0 to n
        invariant e.Valid() && FilledTo(e.content, target, e.height, e.width, i, j)
      {
        if i == j {
          e.content := WithCell(e.content, i, j, 1.0);
        }
      }
      assert FilledTo(e.content, target, e.height, e.width, i + 1, 0);
    }
    CellsEqual(e.content, target, e.height, e.width);
  }

  /** `augment_width(a, b)`: a fresh height(a) x (width(a) + width(b))
      tensor, a's rows followed by b's when the heights agree, zeros
      otherwise. */
  method AugmentWidth(a: Tensor, b: Tensor) returns (c: Tensor)
    requires a.Valid() && b.Valid()
    ensures fresh(c) && c.Valid()
    ensures c.height == a.height && c.width == a.width + b.width
    ensures c.content == AugmentedWidth(a.content, b.content)
  {
    c := new Tensor.Sized(a.height, a.width + b.width);
    AugmentedWidthBlocks(a.content, b.content);
    ghost var target := AugmentedWidth(a.content, b.content);
    if a.height == b.height {
      for i := 0 to c.height
        invariant c.Valid() && FilledTo(c.content, target, c.height, c.width, i, 0)
      {
        for j := 0 to c.width
          invariant c.Valid() && FilledTo(c.content, target, c.height, c.width, i, j)
        {
          if j < a.width {
            c.content := WithCell(c.content, i, j, a.content[i][j]);
          } else if j >= a.width && j < c.width {
            c.content := WithCell(c.content, i, j, b.content[i][j - a.width]);
          }
        }
      }
    }
    CellsEqual(c.content, target, c.height, c.width);
  }

  /** `augment_height(a, b)`: a fresh (height(a) + height(b)) x width(a)
      tensor, a's rows then rows read from b at offset width(a), when the
      widths agree; zeros otherwise. The offset stays inside b only for a
      square a, which the caller must then supply. */
  method AugmentHeight(a: Tensor, b: Tensor) returns (c: Tensor)
    requires a.Valid() && b.Valid()
    requires a.width == b.width ==> a.height == a.width
    ensures fresh(c) && c.Valid()
    ensures c.height == a.height + b.height && c.width == a.width
    ensures c.content == AugmentedHeight(a.content, b.content)
  {
    c := new Tensor.Sized(a.height + b.height, a.width);
    AugmentedHeightBlocks(a.content, b.content);
    ghost var target := AugmentedHeight(a.content, b.content);
    if a.width == b.width {
      for i := 0 to c.height
        invariant c.Valid() && FilledTo(c.content, target, c.height, c.width, i, 0)
      {
        AugmentHeightRow(c, a.content, b.content, i);
      }
    }
    CellsEqual(c.content, target, c.height, c.width);
  }

  /** Row i of the loop of `augment_height`: cell by cell, from row i of a
      when i is above height(a), from row i - width(a) of b otherwise. */
  method AugmentHeightRow(c: Tensor, a: Matrix, b: Matrix, i: nat)
    requires Rectangular(a) && Rectangular(b) && Cols(a) == Cols(b) && Rows(a) == Cols(a)
    requires c.Valid() && c.height == Rows(a) + Rows(b) && c.width == Cols(a) && i < c.height
    modifies c
    ensures c.Valid()
    ensures c.content == old(c.content)[i := if i < Rows(a) then a[i] else b[i - Cols(a)]]
  {
    ghost var m0 := c.content;
    ghost var row := if i < Rows(a) then a[i] else b[i - Cols(a)];
    for j := 0 to c.width
      invariant c.Valid()
      invariant forall r :: 0 <= r < c.height && r != i ==> c.content[r] == m0[r]
      invariant forall s :: 0 <= s < c.width ==> c.content[i][s] == (if s < j then row[s] else m0[i][s])
    {
      if i < Rows(a) {
        c.content := WithCell(c.content, i, j, a[i][j]);
      } else if i >= Rows(a) && i < c.height {
        c.content := WithCell(c.content, i, j, b[i - Cols(a)][j]);
      }
    }
    assert forall s :: 0 <= s < c.width ==> c.content[i][s] == row[s];
    assert c.content[i] == row;
  }

  // ---------------------------------------------------------------------
  // invert: the row-reduction loops on the augmented buffer
  // ---------------------------------------------------------------------

  /** The pivot search of column c started on diagonal row d: `pivot` is 0.0
      exactly when the column is zero from row d down; otherwise `pivotRow`
      is d when the diagonal entry is non-zero and one past the first
      non-zero row below it otherwise. */
  method FindPivot(m: Matrix, c: nat, d: nat) returns (pivot: real, pivotRow: nat)
    requires d < |m| && forall r :: 0 <= r < |m| ==> c < |m[r]|
    ensures pivot == 0.0 <==> forall r :: d <= r < |m| ==> m[r][c] == 0.0
    ensures pivot != 0.0 ==> pivotRow == PivotRowAfterSearch(d, FirstNonzeroBelow(m, c, d))
  {
    pivotRow := d;
    pivot := m[pivotRow][c];
    while pivotRow < |m| && pivot == 0.0
      invariant d <= pivotRow <= |m|
      invariant pivot == m[if pivotRow == d then d else pivotRow - 1][c]
      invariant pivotRow > d ==> m[d][c] == 0.0
      invariant forall r :: d <= r < pivotRow - 1 ==> m[r][c] == 0.0
      decreases |m| - pivotRow
    {
      pivot := m[pivotRow][c];
      pivotRow := pivotRow + 1;
    }
  }

  /** The target search below pivot row p in column c: the first row below p
      with a non-zero entry, or |m| when there is none; for a found row, x
      is the ratio of the pivot entry to the target's entry. */
  method FindTarget(m: Matrix, c: nat, p: nat) returns (target: nat, x: real)
    requires p < |m| && forall r :: 0 <= r < |m| ==> c < |m[r]|
    ensures target == FirstNonzeroBelow(m, c, p + 1)
    ensures target < |m| ==> x == m[p][c] / m[target][c]
  {
    target := p;
    x := 0.0;
    while target < |m|
      invariant p <= target <= |m|
      invariant forall r :: p < r < target ==> m[r][c] == 0.0
      decreases |m| - target
    {
      if m[target][c] != 0.0 && target > p {
        x := m[p][c] / m[target][c];
        break;
      }
      target := target + 1;
    }
  }

  /** Multiplies every cell of row t by x. */
  method ScaleRow(m: Tensor, t: nat, x: real)
    requires m.Valid() && t < m.height
    modifies m
    ensures m.Valid()
    ensures m.content == old(m.content)[t := Scaled(old(m.content)[t], x)]
  {
    for i := 0 to m.width
      invariant m.Valid()
      invariant forall r :: 0 <= r < m.height && r != t ==> m.content[r] == old(m.content)[r]
      invariant forall k :: 0 <= k < m.width ==>
        m.content[t][k] == (if k < i then old(m.content)[t][k] * x else old(m.content)[t][k])
    {
      m.content := WithCell(m.content, t, i, m.content[t][i] * x);
    }
    assert forall k :: 0 <= k < m.width ==> m.content[t][k] == Scaled(old(m.content)[t], x)[k];
    assert m.content[t] == Scaled(old(m.content)[t], x);
  }

  /** Subtracts row p from row t, cell by cell. */
  method SubtractRow(m: Tensor, t: nat, p: nat)
    requires m.Valid() && t < m.height && p < m.height && t != p
    modifies m
    ensures m.Valid()
    ensures m.content == old(m.content)[t := Minus(old(m.content)[t], old(m.content)[p])]
  {
    for i := 0 to m.width
      invariant m.Valid()
      invariant forall r :: 0 <= r < m.height && r != t ==> m.content[r] == old(m.content)[r]
      invariant forall k :: 0 <= k < m.width ==>
        m.content[t][k] == (if k < i then old(m.content)[t][k] - old(m.content)[p][k] else old(m.content)[t][k])
    {
      m.content := WithCell(m.content, t, i, m.content[t][i] - m.content[p][i]);
    }
    assert m.content[t] == Minus(old(m.content)[t], old(m.content)[p]);
  }

  /** Subtracts x times row p from row t, cell by cell. */
  method SubtractScaledRow(m: Tensor, t: nat, p: nat, x: real)
    requires m.Valid() && t < m.height && p < m.height && t != p
    modifies m
    ensures m.Valid()
    ensures m.content == old(m.content)[t := MinusScaled(old(m.content)[t], old(m.content)[p], x)]
  {
    for i := 0 to m.width
      invariant m.Valid()
      invariant forall r :: 0 <= r < m.height && r != t ==> m.content[r] == old(m.content)[r]
      invariant forall k :: 0 <= k < m.width ==>
        m.content[t][k] == (if k < i then old(m.content)[t][k] - x * old(m.content)[p][k] else old(m.content)[t][k])
    {
      m.content := WithCell(m.content, t, i, m.content[t][i] - x * m.content[p][i]);
    }
    assert forall k :: 0 <= k < m.width ==> m.content[t][k] == MinusScaled(old(m.content)[t], old(m.content)[p], x)[k];
    assert m.content[t] == MinusScaled(old(m.content)[t], old(m.content)[p], x);
  }

  /** The pivot search and the swap of forward step c on the buffer:
      FAILURE exactly when `PivotSwap` finds the column zero, and otherwise
      the buffer it computes. */
  method PivotAndSwap(aug: Tensor, c: nat) returns (status: Status)
    requires aug.Valid() && Wide(aug.content) && c < aug.height
    requires !PivotSwap(aug.content, c).Overrun?
    modifies aug
    ensures aug.Valid()
    ensures status == Failure <==> PivotSwap(old(aug.content), c).Singular?
    ensures status == Success ==> PivotSwap(old(aug.content), c) == Reduced(aug.content)
  {
    var pivot, pivotRow := FindPivot(aug.content, c, c);
    if pivot == 0.0 {
      return Failure;
    }
    if pivotRow != c {
      var swapped := aug.SwapRows(c, pivotRow);
      // both indices are non-negative, so the swap cannot report FAILURE;
      // the pivot row is row c from here on
      assert swapped == Success;
    }
    status := Success;
  }

  /** The elimination of forward step c once the pivot row is row c: the
      buffer `Eliminate` computes. */
  method EliminateStep(aug: Tensor, c: nat)
    requires aug.Valid() && Wide(aug.content) && c < aug.height
    requires c == aug.height - 1 ==> aug.content[c][c] != 0.0
    requires !Eliminate(aug.content, c).Overrun?
    modifies aug
    ensures aug.Valid()
    ensures Eliminate(old(aug.content), c) == Reduced(aug.content)
  {
    var pivotRow := c;
    if pivotRow != aug.height - 1 {
      var target, x := FindTarget(aug.content, c, pivotRow);
      ScaleRow(aug, target, x);
      SubtractRow(aug, target, pivotRow);
    } else {
      // the code tests `pivot_row == h - 1` here, which always holds
      var target := pivotRow;
      var x := 1.0 / aug.content[target][c];
      ScaleRow(aug, target, x);
    }
  }

  /** One iteration of the forward loop on the buffer, pivot column and
      diagonal row c: FAILURE exactly when `EliminateBelow` finds the column
      zero, and otherwise the buffer it computes. */
  method ForwardStep(aug: Tensor, c: nat, ghost m0: Matrix) returns (status: Status)
    requires aug.Valid() && Wide(m0) && c < Rows(m0) && aug.height == Rows(m0)
    requires ForwardPass(m0, c) == Reduced(aug.content)
    requires !ForwardPass(m0, c + 1).Overrun?
    modifies aug
    ensures aug.Valid() && Wide(aug.content)
    ensures status == Failure <==> ForwardPass(m0, c + 1).Singular?
    ensures status == Success ==> ForwardPass(m0, c + 1) == Reduced(aug.content)
  {
    ghost var m := aug.content;
    assert ForwardPass(m0, c + 1) == EliminateBelow(m, c);
    status := PivotAndSwap(aug, c);
    if status == Success {
      EliminateStep(aug, c);
    }
  }

  /** One iteration of the backward loop, pivot row and column p (they
      coincide on a square matrix): rows p - 1 down to 0 are visited and a
      row with a non-zero entry in column p has that multiple of row p
      subtracted. The code tests that entry twice; the tests agree. */
  method ClearColumnAbove(aug: Tensor, p: nat)
    requires aug.Valid() && Wide(aug.content) && p < aug.height
    modifies aug
    ensures aug.Valid() && Wide(aug.content)
    ensures aug.content == ClearAbove(old(aug.content), p)
  {
    ghost var goal := ClearAbove(aug.content, p);
    ClearAboveRows(aug.content, p);
    var q := 0;
    var target := p - 1;
    while q < p
      invariant 0 <= q <= p && target == p - 1 - q
      invariant aug.Valid() && Shaped(aug.content, Rows(old(aug.content)), Cols(old(aug.content)))
      invariant forall t :: 0 <= t < aug.height ==>
        aug.content[t] == (if p - q <= t then goal[t] else old(aug.content)[t])
    {
      if aug.content[target][p] != 0.0 {
        var x := aug.content[target][p];
        SubtractScaledRow(aug, target, p, x);
      }
      q := q + 1;
      target := target - 1;
    }
    assert forall t :: 0 <= t < aug.height ==> aug.content[t] == goal[t];
  }

  /** The forward loop of `invert` over pivot columns 0 .. h - 1 (h is also
      the width of the square input): it returns FAILURE at the first zero
      pivot column and otherwise leaves the buffer `ForwardPass` computes. */
  method ForwardLoop(aug: Tensor) returns (status: Status)
    requires aug.Valid() && Wide(aug.content)
    requires !ForwardPass(aug.content, aug.height).Overrun?
    modifies aug
    ensures aug.Valid() && Wide(aug.content)
    ensures status == Failure <==> ForwardPass(old(aug.content), aug.height).Singular?
    ensures status == Success ==> ForwardPass(old(aug.content), aug.height) == Reduced(aug.content)
  {
    ghost var m0 := aug.content;
    var pivotCol := 0;
    while pivotCol < aug.height
      invariant pivotCol <= aug.height
      invariant aug.Valid() && Wide(aug.content)
      invariant ForwardPass(m0, pivotCol) == Reduced(aug.content)
    {
      ForwardPassRest(m0, pivotCol);
      var s := ForwardStep(aug, pivotCol, m0);
      if s == Failure {
        return Failure;
      }
      pivotCol := pivotCol + 1;
    }
    status := Success;
  }

  /** The backward loop of `invert`: pivot rows h - 1 down to 1, each
      clearing its column above the diagonal. */
  method BackwardLoop(aug: Tensor)
    requires aug.Valid() && Wide(aug.content)
    modifies aug
    ensures aug.Valid() && Wide(aug.content)
    ensures aug.content == BackwardPass(old(aug.content), aug.height - 1)
  {
    ghost var m0 := aug.content;
    var pivotRow := aug.height - 1;
    var p := 0;
    while p < aug.height - 1
      invariant p <= aug.height - 1 && pivotRow == aug.height - 1 - p
      invariant aug.Valid() && Wide(aug.content)
      invariant aug.content == BackwardPass(m0, p)
    {
      BackwardPassNext(m0, p);
      // the code tests `pivot_row > 0` here, which always holds
      if pivotRow > 0 {
        ClearColumnAbove(aug, pivotRow);
      }
      p := p + 1;
      pivotRow := pivotRow - 1;
    }
  }

  /** The last loop of `invert`: cell (i, j) of `aInv`, for i < h and j < n,
      receives cell (i, n + j) of the buffer `aug`; other cells are kept. */
  method CopyRightBlock(aug: Matrix, aInv: Tensor, h: nat, n: nat)
    requires aInv.Valid() && Shaped(aug, h, 2 * n)
    requires h <= aInv.height && n <= aInv.width
    modifies aInv
    ensures aInv.Valid()
    ensures forall i, j :: 0 <= i < aInv.height && 0 <= j < aInv.width ==>
      aInv.content[i][j] == (if i < h && j < n then aug[i][n + j] else old(aInv.content)[i][j])
  {
    for i := 0 to h
      invariant aInv.Valid()
      invariant forall r, s :: 0 <= r < aInv.height && 0 <= s < aInv.width ==>
        aInv.content[r][s] == (if r < i && s < n then aug[r][n + s] else old(aInv.content)[r][s])
    {
      for j := 0 to n
        invariant aInv.Valid()
        invariant forall r, s :: 0 <= r < aInv.height && 0 <= s < aInv.width ==>
          aInv.content[r][s] ==
            (if (r < i && s < n) || (r == i && s < j) then aug[r][n + s] else old(aInv.content)[r][s])
      {
        aInv.content := WithCell(aInv.content, i, j, aug[i][n + j]);
      }
    }
  }

  /** The first statement of `invert`: `augment_width(a, eye(h, w))`. */
  method AugmentedBuffer(a: Tensor) returns (aug: Tensor)
    requires a.Valid() && a.height == a.width
    ensures fresh(aug) && aug.Valid()
    ensures aug.height == a.height && aug.width == 2 * a.width
    ensures aug.content == Augmented(a.content)
  {
    var id := Eye(a.height, a.width);
    aug := AugmentWidth(a, id);
  }

  /** Both loops of `invert` on the buffer built from `a`: FAILURE exactly
      when `Run(a)` is `Singular`, and otherwise the buffer `Run(a)` ends
      with. */
  method Reduce(aug: Tensor, ghost a: Matrix) returns (status: Status)
    requires Rectangular(a) && Rows(a) == Cols(a) && !Run(a).Overrun?
    requires aug.Valid() && aug.content == Augmented(a)
    modifies aug
    ensures aug.Valid()
    ensures status == Failure <==> Run(a).Singular?
    ensures status == Success ==> Run(a) == Reduced(aug.content)
  {
    RunByPasses(a, aug.content);
    status := ForwardLoop(aug);
    if status == Failure {
      return;
    }
    RunByPasses(a, aug.content);
    BackwardLoop(aug);
  }

  /** `invert(a, a_inv)` on a square a whose run does not overrun the
      buffer: FAILURE exactly when the run finds a zero pivot column, and
      then a_inv is untouched; SUCCESS otherwise, with the top-left
      h x h block of a_inv overwritten by the right-hand block of the
      reduced buffer and every other cell of a_inv kept. a_inv need hold
      the h x h block only when the run succeeds; FAILURE never touches it. */
  method Invert(a: Tensor, aInv: Tensor) returns (status: Status)
    requires a.Valid() && aInv.Valid()
    requires a.height == a.width
    requires !Run(a.content).Overrun?
    requires Run(a.content).Reduced? ==> aInv.height >= a.height && aInv.width >= a.width
    modifies aInv
    ensures aInv.Valid()
    ensures status == Failure <==> Run(old(a.content)).Singular?
    ensures status == Failure ==> aInv.content == old(aInv.content)
    ensures status == Success ==>
      Run(old(a.content)).Reduced? &&
      forall i, j :: 0 <= i < aInv.height && 0 <= j < aInv.width ==>
        aInv.content[i][j] ==
          (if i < a.height && j < a.width then Run(old(a.content)).aug[i][a.width + j] else old(aInv.content)[i][j])
  {
    ghost var a0 := a.content;
    var aug := AugmentedBuffer(a);
    status := Reduce(aug, a0);
    if status == Failure {
      return;
    }
    CopyRightBlock(aug.content, aInv, a.height, a.width);
    status := Success;
  }

  // ---------------------------------------------------------------------
  // The library's unit tests, each on its own literal
  // ---------------------------------------------------------------------

  /** The constructor test: `tensor(4, 3)` is a 4 x 3 zero tensor, and the
      literal is taken as given. */
  method ConstructorTest() returns (t0: Tensor, a: Tensor)
    ensures fresh(t0) && fresh(a)
    ensures t0.content == [[0.0, 0.0, 0.0], [0.0, 0.0, 0.0], [0.0, 0.0, 0.0], [0.0, 0.0, 0.0]]
    ensures a.content == [[1.0, 2.0], [2.0, 1.0], [1.0, 2.0], [2.0, 1.0]]
  {
    t0 := new Tensor.Sized(4, 3);
    CellsEqual(t0.content, [[0.0, 0.0, 0.0], [0.0, 0.0, 0.0], [0.0, 0.0, 0.0], [0.0, 0.0, 0.0]], 4, 3);
    a := new Tensor.FromRows([[1.0, 2.0], [2.0, 1.0], [1.0, 2.0], [2.0, 1.0]]);
    CellsEqual(a.content, [[1.0, 2.0], [2.0, 1.0], [1.0, 2.0], [2.0, 1.0]], 4, 2);
  }

  /** The copy test: the copy is a distinct tensor with the same cells. */
  method CopyTest() returns (a: Tensor, b: Tensor)
    ensures fresh(a) && fresh(b) && a != b
    ensures a.content == b.content == [[1.0, 2.0, 5.0], [2.0, 1.0, 50.02]]
  {
    a := new Tensor.FromRows([[1.0, 2.0, 5.0], [2.0, 1.0, 50.02]]);
    CellsEqual(a.content, [[1.0, 2.0, 5.0], [2.0, 1.0, 50.02]], 2, 3);
    b := Copy(a);
  }

  /** The transpose test. */
  method TransposeTest() returns (a: Tensor, b: Tensor)
    ensures fresh(a) && fresh(b)
    ensures a.content == [[1.0, 3.2, 0.5], [0.2, 1.0, 50.02], [0.1, 11.0, 25.01]]
    ensures b.content == [[1.0, 0.2, 0.1], [3.2, 1.0, 11.0], [0.5, 50.02, 25.01]]
  {
    a := new Tensor.FromRows([[1.0, 3.2, 0.5], [0.2, 1.0, 50.02], [0.1, 11.0, 25.01]]);
    CellsEqual(a.content, [[1.0, 3.2, 0.5], [0.2, 1.0, 50.02], [0.1, 11.0, 25.01]], 3, 3);
    b := Transpose(a);
    TransposeInvolution(a.content);
    CellsEqual(b.content, [[1.0, 0.2, 0.1], [3.2, 1.0, 11.0], [0.5, 50.02, 25.01]], 3, 3);
  }

  /** The row-swap test: `swap_rows(0, 2)` succeeds and exchanges the first
      and last rows. */
  method SwapRowsTest() returns (a: Tensor, status: Status)
    ensures fresh(a) && status == Success
    ensures a.content == [[0.1, 11.0, 25.01], [0.2, 1.0, 50.02], [1.0, 3.2, 0.5]]
  {
    a := new Tensor.FromRows([[1.0, 3.2, 0.5], [0.2, 1.0, 50.02], [0.1, 11.0, 25.01]]);
    CellsEqual(a.content, [[1.0, 3.2, 0.5], [0.2, 1.0, 50.02], [0.1, 11.0, 25.01]], 3, 3);
    status := a.SwapRows(0, 2);
  }

  /** The width-augmentation test: a beside its copy. */
  method AugmentWidthTest() returns (c: Tensor)
    ensures fresh(c)
    ensures c.content ==
      [[1.0, 2.0, 3.0, 1.0, 2.0, 3.0], [0.0, 1.0, 4.0, 0.0, 1.0, 4.0], [5.0, 6.0, 1.0, 5.0, 6.0, 1.0]]
  {
    var a := new Tensor.FromRows([[1.0, 2.0, 3.0], [0.0, 1.0, 4.0], [5.0, 6.0, 1.0]]);
    CellsEqual(a.content, [[1.0, 2.0, 3.0], [0.0, 1.0, 4.0], [5.0, 6.0, 1.0]], 3, 3);
    var b := Copy(a);
    c := AugmentWidth(a, b);
    AugmentedWidthBlocks(a.content, b.content);
    CellsEqual(c.content,
      [[1.0, 2.0, 3.0, 1.0, 2.0, 3.0], [0.0, 1.0, 4.0, 0.0, 1.0, 4.0], [5.0, 6.0, 1.0, 5.0, 6.0, 1.0]], 3, 6);
  }

  /** The height-augmentation test: a above its copy (a is square, so the
      offset the code reads the copy at is the right one). */
  method AugmentHeightTest() returns (c: Tensor)
    ensures fresh(c)
    ensures c.content ==
      [[1.0, 2.0, 3.0], [0.0, 1.0, 4.0], [5.0, 6.0, 1.0], [1.0, 2.0, 3.0], [0.0, 1.0, 4.0], [5.0, 6.0, 1.0]]
  {
    var a := new Tensor.FromRows([[1.0, 2.0, 3.0], [0.0, 1.0, 4.0], [5.0, 6.0, 1.0]]);
    CellsEqual(a.content, [[1.0, 2.0, 3.0], [0.0, 1.0, 4.0], [5.0, 6.0, 1.0]], 3, 3);
    var b := Copy(a);
    c := AugmentHeight(a, b);
    AugmentedHeightBlocks(a.content, b.content);
    CellsEqual(c.content,
      [[1.0, 2.0, 3.0], [0.0, 1.0, 4.0], [5.0, 6.0, 1.0], [1.0, 2.0, 3.0], [0.0, 1.0, 4.0], [5.0, 6.0, 1.0]], 6, 3);
  }

  /** The identity test: `eye(4, 4)`. */
  method EyeTest() returns (e: Tensor)
    ensures fresh(e)
    ensures e.content ==
      [[1.0, 0.0, 0.0, 0.0], [0.0, 1.0, 0.0, 0.0], [0.0, 0.0, 1.0, 0.0], [0.0, 0.0, 0.0, 1.0]]
  {
    e := Eye(4, 4);
    IdentityCells(4, 4);
    CellsEqual(e.content,
      [[1.0, 0.0, 0.0, 0.0], [0.0, 1.0, 0.0, 0.0], [0.0, 0.0, 1.0, 0.0], [0.0, 0.0, 0.0, 1.0]], 4, 4);
  }
}
