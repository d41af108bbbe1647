/** The sensor frame decoder: `create_2d_array` reshapes a flat register
    read row-major into an m-by-n grid, `array_to_image` lays the 10-by-8
    grid out as a three-channel image, and one cycle of the polling loop
    chains `read96` into the reshape. */
module Frame {
  import opened Modbus
  import opened Registers
  import opened Accessors

  /** A grid of `m` rows of `n` cells each. */
  ghost predicate IsGrid(g: seq<seq<int>>, m: nat, n: nat)
  {
    |g| == m && forall r :: 0 <= r < m ==> |g[r]| == n
  }

  /** What `create_2d_array` gives: the reshaped grid, or the `ValueError` it
      raises when the element count is not `m * n`. */
  datatype GridResult = Grid(rows: seq<seq<int>>) | ShapeMismatch

  /** The row-major reading of a grid: its rows concatenated in order. */
  function Flatten(g: seq<seq<int>>): (e: seq<int>)
  {
    if g == [] then [] else g[0] + Flatten(g[1..])
  }

  /** Cutting `m * n` elements into `m` consecutive rows of `n`. */
  function Rows(m: nat, n: nat, e: seq<int>): (g: seq<seq<int>>)
    requires |e| == m * n
    ensures |g| == m
    decreases m
  {
    if m == 0 then []
    else
      assert |e| == (m - 1) * n + n;
      [e[..n]] + Rows(m - 1, n, e[n..])
  }

  /** `(a + 1) * n` is `a * n + n`. */
  lemma MulSucc(a: nat, n: nat)
    ensures (a + 1) * n == a * n + n
  {
  }

  /** Cell (r, c) of the rows is element `r * n + c`, and every row has
      `n` cells. */
  lemma {:induction false} RowsAt(m: nat, n: nat, e: seq<int>, r: nat, c: nat)
    requires |e| == m * n
    requires r < m
    ensures |Rows(m, n, e)[r]| == n
    ensures c < n ==> r * n + c < |e| && Rows(m, n, e)[r][c] == e[r * n + c]
    decreases m
  {
    MulSucc(m - 1, n);
    if r > 0 {
      RowsAt(m - 1, n, e[n..], r - 1, c);
      MulSucc(r - 1, n);
    }
  }

  /** Reading the rows back row-major gives the elements back. */
  lemma {:induction false} FlattenRows(m: nat, n: nat, e: seq<int>)
    requires |e| == m * n
    ensures Flatten(Rows(m, n, e)) == e
    decreases m
  {
    assert |e| == (m - 1) * n + n;
    if m > 0 {
      FlattenRows(m - 1, n, e[n..]);
      assert Rows(m, n, e)[1..] == Rows(m - 1, n, e[n..]);
      assert e == e[..n] + e[n..];
    }
  }

  /** An m-by-n grid has `m * n` elements when flattened. */
  lemma {:induction false} FlattenLength(g: seq<seq<int>>, m: nat, n: nat)
    requires IsGrid(g, m, n)
    ensures |Flatten(g)| == m * n
    decreases m
  {
    if m > 0 {
      FlattenLength(g[1..], m - 1, n);
      assert |Flatten(g)| == n + (m - 1) * n;
    }
  }

  /** Cutting the row-major reading of an m-by-n grid into rows of `n`
      rebuilds the grid. */
  lemma {:induction false} RowsFlatten(g: seq<seq<int>>, m: nat, n: nat)
    requires IsGrid(g, m, n)
    ensures |Flatten(g)| == m * n && Rows(m, n, Flatten(g)) == g
    decreases m
  {
    FlattenLength(g, m, n);
    if m > 0 {
      RowsFlatten(g[1..], m - 1, n);
      var e := Flatten(g);
      assert e == g[0] + Flatten(g[1..]);
      assert e[..n] == g[0] && e[n..] == Flatten(g[1..]);
      assert |e| == (m - 1) * n + n;
      assert g == [g[0]] + g[1..];
    }
  }

  /** `create_2d_array(m, n, elements)`: a `ValueError` exactly when the
      number of elements is not `m * n`; otherwise `m` rows whose row-major
      reading is the elements. */
  function Create2dArray(m: nat, n: nat, elements: seq<int>): (res: GridResult)
    ensures res.ShapeMismatch? <==> |elements| != m * n
    ensures res.Grid? ==> |res.rows| == m && Flatten(res.rows) == elements
  {
    if |elements| != m * n then ShapeMismatch
    else
      FlattenRows(m, n, elements);
      Grid(Rows(m, n, elements))
  }

  /** A successful reshape is an m-by-n grid. */
  lemma ReshapeIsGrid(m: nat, n: nat, elements: seq<int>)
    requires |elements| == m * n
    ensures Create2dArray(m, n, elements).Grid?
    ensures IsGrid(Create2dArray(m, n, elements).rows, m, n)
  {
    var g := Rows(m, n, elements);
    assert Create2dArray(m, n, elements) == Grid(g);
    forall r | 0 <= r < m
      ensures |g[r]| == n
    {
      RowsAt(m, n, elements, r, 0);
    }
  }

  /** Cell (r, c) of a successful reshape is element `r * n + c`. */
  lemma ReshapeCell(m: nat, n: nat, elements: seq<int>, r: nat, c: nat)
    requires |elements| == m * n
    requires r < m && c < n
    ensures r * n + c < |elements| && |Create2dArray(m, n, elements).rows[r]| == n
    ensures Create2dArray(m, n, elements).rows[r][c] == elements[r * n + c]
  {
    RowsAt(m, n, elements, r, c);
  }

  /** Reshaping is a bijection between flat sequences of `m * n` elements
      and m-by-n grids: it succeeds on the reading of any such grid and
      gives the grid back. */
  lemma ReshapeFlattenRoundTrip(g: seq<seq<int>>, m: nat, n: nat)
    requires IsGrid(g, m, n)
    ensures Create2dArray(m, n, Flatten(g)) == Grid(g)
  {
    RowsFlatten(g, m, n);
  }

  // --------------------------------------------------------- array_to_image

  /** Sensor grid and display frame dimensions. */
  const FrameRows: nat := 10
  const FrameCols: nat := 8

  /** An 8-bit channel value. */
  type Byte = x: int | 0 <= x < 0x100

  /** `array_to_image`: a 10-by-8 image of three-channel pixels. Channel 0
      (the source's `red_channel`) is a function of the cell's raw value
      alone; channels 1 and 2 are zero. The scaling of channel 0 (a float
      division and a cast to an 8-bit integer) is the parameter `red`. */
  function ArrayToImage(grid: seq<seq<int>>, red: int -> Byte): (image: seq<seq<seq<int>>>)
    requires |grid| == FrameRows && forall r :: 0 <= r < |grid| ==> |grid[r]| == FrameCols
    ensures |image| == FrameRows
    ensures forall r :: 0 <= r < FrameRows ==> |image[r]| == FrameCols
    ensures forall r, c :: 0 <= r < FrameRows && 0 <= c < FrameCols ==>
              |image[r][c]| == 3 && image[r][c][1] == 0 && image[r][c][2] == 0 &&
              image[r][c][0] == red(grid[r][c]) && 0 <= image[r][c][0] < 0x100
  {
    seq(FrameRows, r requires 0 <= r < FrameRows =>
      seq(FrameCols, c requires 0 <= c < FrameCols => [red(grid[r][c]) as int, 0, 0]))
  }

  // ------------------------------------------------------------ poll cycle

  /** One cycle of the polling loop up to the image: read the tactile block
      and reshape it into the 10-by-8 grid. */
  function PollFrame(client: Client): (res: GridResult)
    ensures res.ShapeMismatch? <==> |ReadRegister(client, 4320, 80)| != 80
    ensures res.Grid? ==> |res.rows| == 10 && Flatten(res.rows) == ReadRegister(client, 4320, 80)
  {
    Create2dArray(FrameRows, FrameCols, Read96(client, GridName).value)
  }

  /** A poll cycle produces a grid exactly when the transport answers the
      read of 80 registers at 4320 with 80 registers, and the grid then
      reads back row-major as those registers; a failed read is a shape
      mismatch, which the loop does not catch and which ends the program. */
  lemma PollFrameOutcome(client: Client)
    ensures var resp := client(ReadHoldingRegisters(4320, 80));
            PollFrame(client).Grid? <==> resp.Registers? && |resp.registers| == 80
    ensures client(ReadHoldingRegisters(4320, 80)).ErrorResponse? ==> PollFrame(client) == ShapeMismatch
    ensures PollFrame(client).Grid? ==>
              Flatten(PollFrame(client).rows) == client(ReadHoldingRegisters(4320, 80)).registers
  {
  }

  /** Cell (r, c) of a polled grid is register `8 r + c` of the block. */
  lemma PollFrameCells(client: Client)
    requires PollFrame(client).Grid?
    ensures var regs := ReadRegister(client, 4320, 80);
            |regs| == 80 &&
            forall r, c :: 0 <= r < 10 && 0 <= c < 8 ==> PollFrame(client).rows[r][c] == regs[8 * r + c]
  {
    var regs := ReadRegister(client, 4320, 80);
    assert PollFrame(client) == Create2dArray(10, 8, regs);
    var g := Create2dArray(10, 8, regs).rows;
    forall r, c | 0 <= r < 10 && 0 <= c < 8
      ensures g[r][c] == regs[8 * r + c]
    {
      ReshapeCell(10, 8, regs, r, c);
    }
  }
}
