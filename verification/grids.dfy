/**
 * Two-dimensional arrays and the block view of `CI/display.py`: a view of an
 * (n*a, m*b) array as an n-by-m arrangement of a-by-b blocks, and the
 * downsampling that summarises every block by one number.
 */
module Grids {
  import opened Wrappers

  /** A rows-by-cols array, stored row-major; `Valid` says the shape is honest. */
  datatype Grid<T> = Grid(rows: nat, cols: nat, cells: seq<seq<T>>) {

    predicate Valid()
    {
      |cells| == rows && forall i :: 0 <= i < |cells| ==> |cells[i]| == cols
    }

    function At(i: nat, j: nat): T
      requires Valid() && i < rows && j < cols
    {
      cells[i][j]
    }
  }

  /** An elementwise array operation: `f` applied to every entry, the shape kept. */
  function Pointwise<T, U>(g: Grid<T>, f: T -> U): (r: Grid<U>)
    ensures r.rows == g.rows && r.cols == g.cols && |r.cells| == |g.cells|
    ensures forall i :: 0 <= i < |g.cells| ==> |r.cells[i]| == |g.cells[i]|
    ensures forall i, j :: 0 <= i < |g.cells| && 0 <= j < |g.cells[i]| ==> r.cells[i][j] == f(g.cells[i][j])
    ensures g.Valid() ==> r.Valid()
  {
    Grid(g.rows, g.cols, seq(|g.cells|, i requires 0 <= i < |g.cells| =>
      seq(|g.cells[i]|, j requires 0 <= j < |g.cells[i]| => f(g.cells[i][j]))))
  }

  /** `out` is `g` with every entry `x` replaced by `f(x)`. */
  ghost predicate IsPointwise<T, U>(out: Grid<U>, g: Grid<T>, f: T -> U)
  {
    && out.rows == g.rows && out.cols == g.cols && |out.cells| == |g.cells|
    && (forall i :: 0 <= i < |g.cells| ==> |out.cells[i]| == |g.cells[i]|)
    && (forall i, j :: 0 <= i < |g.cells| && 0 <= j < |g.cells[i]| ==> out.cells[i][j] == f(g.cells[i][j]))
  }

  /** The ways `block_view` refuses its arguments. */
  datatype BlockError =
    | ZeroBlock              // the divisibility test divides by zero
    | NotDivisible(axis: nat) // the assertion on that axis fails
    | NegativeShape          // `as_strided` refuses a negative dimension

  /** A whole block of index i fits below n blocks of height a. */
  lemma BlockFits(i: nat, n: nat, a: nat)
    requires i < n
    ensures i * a + a <= n * a
  {
    assert i * a + a == (i + 1) * a;
    MulMonotone(i + 1, n, a);
  }

  lemma MulMonotone(x: nat, y: nat, a: nat)
    requires x <= y
    ensures x * a <= y * a
  {
    assert y * a == x * a + (y - x) * a;
  }

  /** The a-by-b block of `A` with block index (i, j). */
  function BlockOf<T>(A: Grid<T>, a: nat, b: nat, i: nat, j: nat): (B: Grid<T>)
    requires A.Valid() && i * a + a <= A.rows && j * b + b <= A.cols
    ensures B.Valid() && B.rows == a && B.cols == b
    ensures forall k, l :: 0 <= k < a && 0 <= l < b ==> B.At(k, l) == A.At(i * a + k, j * b + l)
  {
    Grid(a, b, seq(a, k requires 0 <= k < a => A.cells[i * a + k][j * b .. j * b + b]))
  }

  /**
   * The block view of `A` with block shape (a, b), or the error Python raises.
   * Divisibility is checked on axis 0 before axis 1; a zero block dimension
   * fails at its modulo, a negative one (which can pass the modulo) fails when
   * the strided view is built.
   */
  function BlockView<T>(A: Grid<T>, a: int, b: int): (r: Result<Grid<Grid<T>>, BlockError>)
    requires A.Valid()
    ensures r.Success? <==> a > 0 && b > 0 && A.rows % a == 0 && A.cols % b == 0
    ensures a == 0 ==> r == Failure(ZeroBlock)
    ensures r.Success? ==>
      var B := r.value;
      && B.Valid() && B.rows * a == A.rows && B.cols * b == A.cols
      && (forall i, j :: 0 <= i < B.rows && 0 <= j < B.cols ==>
            B.cells[i][j].Valid() && B.cells[i][j].rows == a && B.cells[i][j].cols == b)
  {
    if a == 0 then Failure(ZeroBlock)
    else if A.rows % a != 0 then Failure(NotDivisible(0))
    else if b == 0 then Failure(ZeroBlock)
    else if A.cols % b != 0 then Failure(NotDivisible(1))
    else if a < 0 || b < 0 then Failure(NegativeShape)
    else
      var n, m := A.rows / a, A.cols / b;
      assert n * a == A.rows && m * b == A.cols;
      Success(Grid(n, m, seq(n, i requires 0 <= i < n => seq(m, j requires 0 <= j < m =>
        BlockFits(i, n, a);
        BlockFits(j, m, b);
        BlockOf(A, a, b, i, j)))))
  }

  /**
   * Every element of the block view is the element of `A` it stands for:
   * B[i][j][k][l] == A[i*a + k][j*b + l].
   */
  lemma BlockViewElements<T>(A: Grid<T>, a: int, b: int, i: nat, j: nat, k: nat, l: nat)
    requires A.Valid()
    requires BlockView(A, a, b).Success?
    requires i < BlockView(A, a, b).value.rows && j < BlockView(A, a, b).value.cols
    requires k < a && l < b
    ensures i * a + k < A.rows && j * b + l < A.cols
    ensures BlockView(A, a, b).value.At(i, j).At(k, l) == A.At(i * a + k, j * b + l)
  {
    var B := BlockView(A, a, b).value;
    BlockFits(i, B.rows, a);
    BlockFits(j, B.cols, b);
    assert B.cells[i][j] == BlockOf(A, a, b, i, j);
  }

  /** Reassembles an arrangement of a-by-b blocks into one array. */
  function Unblock<T>(B: Grid<Grid<T>>, a: nat, b: nat): (A: Grid<T>)
    requires 0 < a && 0 < b && B.Valid()
    requires forall i, j :: 0 <= i < B.rows && 0 <= j < B.cols ==>
      B.cells[i][j].Valid() && B.cells[i][j].rows == a && B.cells[i][j].cols == b
    ensures A.Valid() && A.rows == B.rows * a && A.cols == B.cols * b
  {
    var rows, cols := B.rows * a, B.cols * b;
    Grid(rows, cols, seq(rows, r requires 0 <= r < rows => seq(cols, c requires 0 <= c < cols =>
      DivBelow(r, a, B.rows);
      DivBelow(c, b, B.cols);
      B.cells[r / a][c / b].At(r % a, c % b))))
  }

  lemma DivBelow(r: nat, a: nat, n: nat)
    requires 0 < a && r < n * a
    ensures r / a < n
  {
    var q := r / a;
    assert q * a <= r;
    if q >= n {
      MulMonotone(n, q, a);
    }
  }

  /** One element of the reassembled block view is the original element. */
  lemma UnblockCell<T>(A: Grid<T>, a: nat, b: nat, r: nat, c: nat)
    requires A.Valid() && 0 < a && 0 < b && A.rows % a == 0 && A.cols % b == 0
    requires r < A.rows && c < A.cols
    ensures Unblock(BlockView(A, a, b).value, a, b).At(r, c) == A.At(r, c)
  {
    var B := BlockView(A, a, b).value;
    var q, p := r / a, c / b;
    DivBelow(r, a, B.rows);
    DivBelow(c, b, B.cols);
    assert q * a + r % a == r;
    assert p * b + c % b == c;
    BlockViewElements(A, a, b, q, p, r % a, c % b);
  }

  /** Reassembling the block view of an array gives back the array. */
  lemma UnblockBlockView<T>(A: Grid<T>, a: nat, b: nat)
    requires A.Valid() && 0 < a && 0 < b && A.rows % a == 0 && A.cols % b == 0
    ensures Unblock(BlockView(A, a, b).value, a, b) == A
  {
    var U := Unblock(BlockView(A, a, b).value, a, b);
    forall r | 0 <= r < A.rows
      ensures U.cells[r] == A.cells[r]
    {
      forall c | 0 <= c < A.cols
        ensures U.cells[r][c] == A.cells[r][c]
      {
        UnblockCell(A, a, b, r, c);
      }
    }
  }

  /**
   * `downsample`: the (rows/d)-by-(cols/d) array whose entries summarise the
   * d-by-d blocks of `data`; `summary` stands for the numpy reduction passed in.
   */
  function Downsample<T>(data: Grid<T>, d: int, summary: Grid<T> -> real): (r: Result<Grid<real>, BlockError>)
    requires data.Valid()
    ensures r.Success? <==> BlockView(data, d, d).Success?
    ensures r.Failure? ==> r.error == BlockView(data, d, d).error
    ensures r.Success? ==>
      && r.value.Valid() && r.value.rows == data.rows / d && r.value.cols == data.cols / d
      && forall i, j :: 0 <= i < r.value.rows && 0 <= j < r.value.cols ==>
           r.value.At(i, j) == summary(BlockView(data, d, d).value.At(i, j))
  {
    match BlockView(data, d, d)
    case Failure(e) => Failure(e)
    case Success(B) =>
      Success(Grid(B.rows, B.cols, seq(B.rows, i requires 0 <= i < B.rows =>
        seq(B.cols, j requires 0 <= j < B.cols => summary(B.cells[i][j])))))
  }

  /** The summary that reads the top-left element of a block. */
  function Corner(g: Grid<real>): real
  {
    if g.Valid() && g.rows > 0 && g.cols > 0 then g.At(0, 0) else 0.0
  }

  lemma DownsampleByOneCell(data: Grid<real>, i: nat, j: nat)
    requires data.Valid() && i < data.rows && j < data.cols
    ensures Downsample(data, 1, Corner).value.At(i, j) == data.At(i, j)
  {
    var B := BlockView(data, 1, 1).value;
    BlockViewElements(data, 1, 1, i, j, 0, 0);
    assert B.At(i, j).At(0, 0) == data.At(i, j);
  }

  /** Downsampling by one with the corner summary leaves an array unchanged. */
  lemma DownsampleByOne(data: Grid<real>)
    requires data.Valid()
    ensures Downsample(data, 1, Corner) == Success(data)
  {
    var r := Downsample(data, 1, Corner).value;
    forall i | 0 <= i < data.rows
      ensures r.cells[i] == data.cells[i]
    {
      forall j | 0 <= j < data.cols
        ensures r.cells[i][j] == data.cells[i][j]
      {
        DownsampleByOneCell(data, i, j);
      }
    }
    assert r.rows == data.rows && r.cols == data.cols;
    assert r.cells == data.cells;
  }
}
