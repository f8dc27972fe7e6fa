/** World-space placement in terminator.py: `world_pos_from_index` for the
    two horizontal axes, the layer height `iz * VERT_SPACING`, and the
    squares of the checkerboard ground plane. Python floats are modelled
    as exact reals. */
module Geometry {

  const GridSize: nat := 8
  const VolZ: nat := 8
  const Cell: real := 1.0
  const VertSpacing: real := 0.6

  /** One axis of `world_pos_from_index`: -N*cell/2 + cell/2 + i*cell. */
  function AxisPos(i: int, n: int, cell: real): real
  {
    var half := n as real * cell / 2.0;
    -half + cell / 2.0 + i as real * cell
  }

  /** `world_pos_from_index(ix, iy, grid_size, cell)`: (wx, wz). */
  function WorldPos(ix: int, iy: int, n: int, cell: real): (p: (real, real))
  {
    (AxisPos(ix, n, cell), AxisPos(iy, n, cell))
  }

  /** Mirror symmetry: index i and index n-1-i lie on opposite sides of
      the origin at the same distance; for i = 0 these are the two edges. */
  lemma AxisSymmetric(i: int, n: int, cell: real)
    ensures AxisPos(i, n, cell) + AxisPos(n - 1 - i, n, cell) == 0.0
  {
    var a, b := i as real, (n - 1 - i) as real;
    assert a + b == n as real - 1.0;
    assert a * cell + b * cell == (a + b) * cell;
    assert (n as real - 1.0) * cell == n as real * cell - cell;
  }

  /** Neighbouring indices are exactly one cell apart. */
  lemma AxisEvenlySpaced(i: int, n: int, cell: real)
    ensures AxisPos(i + 1, n, cell) - AxisPos(i, n, cell) == cell
  {
    assert (i + 1) as real * cell == i as real * cell + cell;
  }

  /** A larger index is further along the axis when the cell size is positive. */
  lemma AxisIncreasing(i: int, j: int, n: int, cell: real)
    requires i < j && cell > 0.0
    ensures AxisPos(i, n, cell) < AxisPos(j, n, cell)
  {
    var d := (j - i) as real;
    assert d * cell > 0.0;
    assert j as real * cell == i as real * cell + d * cell;
    assert AxisPos(j, n, cell) == AxisPos(i, n, cell) + d * cell;
  }

  /** wx depends only on ix, wz only on iy, and each mirrors through the origin. */
  lemma WorldPosAxes(ix: int, iy: int, ix': int, iy': int, n: int, cell: real)
    ensures WorldPos(ix, iy, n, cell).0 == WorldPos(ix, iy', n, cell).0
    ensures WorldPos(ix, iy, n, cell).1 == WorldPos(ix', iy, n, cell).1
    ensures WorldPos(n - 1 - ix, n - 1 - iy, n, cell).0 == -WorldPos(ix, iy, n, cell).0
    ensures WorldPos(n - 1 - ix, n - 1 - iy, n, cell).1 == -WorldPos(ix, iy, n, cell).1
  {
    AxisSymmetric(ix, n, cell);
    AxisSymmetric(iy, n, cell);
  }

  /** Sum of AxisPos(i) over the first k indices. */
  function AxisSum(k: nat, n: int, cell: real): real
  {
    if k == 0 then 0.0 else AxisSum(k - 1, n, cell) + AxisPos(k - 1, n, cell)
  }

  /** The n positions of an axis are centred on the origin: they sum to 0. */
  lemma {:induction false} AxisCentred(n: nat, cell: real)
    ensures AxisSum(n, n, cell) == 0.0
  {
    AxisSumClosed(n, n, cell);
    var m := n as real;
    assert m * (cell / 2.0 - m * cell / 2.0) + cell * m * (m - 1.0) / 2.0
        == m * cell / 2.0 - m * m * cell / 2.0 + m * m * cell / 2.0 - m * cell / 2.0;
  }

  lemma {:induction false} AxisSumClosed(k: nat, n: int, cell: real)
    ensures var m, c := k as real, n as real;
            AxisSum(k, n, cell) == m * (cell / 2.0 - c * cell / 2.0) + cell * m * (m - 1.0) / 2.0
  {
    if k > 0 {
      AxisSumClosed(k - 1, n, cell);
      var m, c := k as real, n as real;
      var p := m - 1.0;
      assert AxisPos(k - 1, n, cell) == -(c * cell / 2.0) + cell / 2.0 + p * cell;
      assert p * (cell / 2.0 - c * cell / 2.0) + (cell / 2.0 - c * cell / 2.0)
          == m * (cell / 2.0 - c * cell / 2.0);
      assert cell * p * (p - 1.0) / 2.0 + p * cell == cell * m * (m - 1.0) / 2.0;
    }
  }

  /** With the program's constants the eight columns run from -3.5 to 3.5. */
  lemma DefaultFootprint()
    ensures AxisPos(0, GridSize, Cell) == -3.5 && AxisPos(GridSize - 1, GridSize, Cell) == 3.5
  {
  }

  /** Height of layer iz: layer 0 sits at 0 and layers stack upward,
      VertSpacing apart, with no vertical centring. */
  function LayerHeight(iz: int): real
  {
    iz as real * VertSpacing
  }

  lemma LayersStackUpward(iz: int, jz: int)
    ensures LayerHeight(0) == 0.0
    ensures LayerHeight(iz + 1) - LayerHeight(iz) == VertSpacing
    ensures iz < jz ==> LayerHeight(iz) < LayerHeight(jz)
  {
  }

  // The checkerboard ground plane

  /** The low corner of board square i as `draw_checkboard` computes it:
      -(N-1)*cell/2 + i*cell; the square spans one cell from there. */
  function SquareCorner(i: int, n: int, cell: real): real
  {
    -((n - 1) as real * cell / 2.0) + i as real * cell
  }

  /** As written, the billboard of column i stands on the low corner of
      board square i rather than at its centre: the board is shifted half
      a cell from the billboards, and reaches from -3.5 to 4.5 with the
      program's constants instead of being centred on the origin. */
  lemma BoardOffsetAsWritten(i: int, n: int, cell: real)
    ensures AxisPos(i, n, cell) == SquareCorner(i, n, cell)
    ensures SquareCorner(0, GridSize, Cell) == -3.5
    ensures SquareCorner(GridSize - 1, GridSize, Cell) + Cell == 4.5
  {
    assert (n - 1) as real * cell == n as real * cell - cell;
  }

  /** The corrected low corner, -N*cell/2 + i*cell, for the board the
      billboards are laid out on. */
  function CentredSquareCorner(i: int, n: int, cell: real): real
  {
    -(n as real * cell / 2.0) + i as real * cell
  }

  /** With the corrected corner every billboard stands at the centre of its
      square, and the board is symmetric about the origin. */
  lemma CentredBoard(i: int, n: int, cell: real)
    ensures AxisPos(i, n, cell) == CentredSquareCorner(i, n, cell) + cell / 2.0
    ensures CentredSquareCorner(0, n, cell) == -(CentredSquareCorner(n - 1, n, cell) + cell)
  {
    assert (n - 1) as real * cell == n as real * cell - cell;
  }
}
