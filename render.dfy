/** The billboards `draw_volume` of terminator.py emits for a grid: one
    textured quad per non-blank cell, at the cell's world position lifted
    to its layer, with the skull texture on row 0 and the drone texture on
    every other row. */
module Render {
  import opened Text
  import opened SceneParser
  import opened Geometry

  datatype Texture = Skull | Drone

  /** One `draw_textured_quad` call: its texture and the translation it is drawn at. */
  datatype Billboard = Billboard(texture: Texture, x: real, y: real, z: real)

  /** The quads float this far above their layer's height. */
  const Lift: real := 0.3

  /** What the cell (iz, iy, ix) holding `value` contributes: nothing
      when the value strips to "", otherwise one billboard. The world
      position always uses the default grid size and cell, whatever the
      extents of the grid. */
  function CellDraws(iz: nat, iy: nat, ix: nat, value: string): seq<Billboard>
  {
    if Strip(value) == [] then []
    else
      var p := WorldPos(ix, iy, GridSize, Cell);
      [Billboard(if iy == 0 then Skull else Drone, p.0, LayerHeight(iz) + Lift, p.1)]
  }

  /** The billboards of one row, in column order. */
  function RowDraws(iz: nat, iy: nat, row: seq<string>): seq<Billboard>
    decreases |row|
  {
    if row == [] then []
    else RowDraws(iz, iy, row[..|row| - 1]) + CellDraws(iz, iy, |row| - 1, row[|row| - 1])
  }

  /** The billboards of one layer, row by row. */
  function LayerDraws(iz: nat, layer: seq<seq<string>>): seq<Billboard>
    decreases |layer|
  {
    if layer == [] then []
    else LayerDraws(iz, layer[..|layer| - 1]) + RowDraws(iz, |layer| - 1, layer[|layer| - 1])
  }

  /** The billboards of a whole grid, layer by layer. */
  function VolumeDraws(volume: Grid): seq<Billboard>
    decreases |volume|
  {
    if volume == [] then []
    else VolumeDraws(volume[..|volume| - 1]) + LayerDraws(|volume| - 1, volume[|volume| - 1])
  }

  /** `draw_volume`: the three nested loops over layers, rows and cells,
      collecting the quads in the order they are drawn; the loop over the
      rows of a layer is DrawLayer and the loop over its cells DrawRow. */
  method DrawVolume(volume: Grid) returns (draws: seq<Billboard>)
    ensures draws == VolumeDraws(volume)
  {
    draws := [];
    var iz := 0;
    while iz < |volume|
      invariant 0 <= iz <= |volume|
      invariant draws == VolumeDraws(volume[..iz])
    {
      var d := DrawLayer(iz, volume[iz]);
      assert volume[..iz + 1][..iz] == volume[..iz];
      draws := draws + d;
      iz := iz + 1;
    }
    assert volume[..iz] == volume;
  }

  method DrawLayer(iz: nat, layer: seq<seq<string>>) returns (draws: seq<Billboard>)
    ensures draws == LayerDraws(iz, layer)
  {
    draws := [];
    var iy := 0;
    while iy < |layer|
      invariant 0 <= iy <= |layer|
      invariant draws == LayerDraws(iz, layer[..iy])
    {
      var d := DrawRow(iz, iy, layer[iy]);
      assert layer[..iy + 1][..iy] == layer[..iy];
      draws := draws + d;
      iy := iy + 1;
    }
    assert layer[..iy] == layer;
  }

  method DrawRow(iz: nat, iy: nat, row: seq<string>) returns (draws: seq<Billboard>)
    ensures draws == RowDraws(iz, iy, row)
  {
    draws := [];
    var ix := 0;
    while ix < |row|
      invariant 0 <= ix <= |row|
      invariant draws == RowDraws(iz, iy, row[..ix])
    {
      assert row[..ix + 1][..ix] == row[..ix];
      draws := draws + CellDraws(iz, iy, ix, row[ix]);
      ix := ix + 1;
    }
    assert row[..ix] == row;
  }

  /** The draw rule of one cell: drawn exactly when its label is not all
      whitespace, with the skull texture exactly on row 0, at the cell's
      world position lifted to its layer. */
  lemma CellRule(iz: nat, iy: nat, ix: nat, value: string)
    ensures var d := CellDraws(iz, iy, ix, value);
            (|d| == 0 <==> AllSpace(value)) && |d| <= 1 &&
            (|d| == 1 ==> (d[0].texture == Skull <==> iy == 0) &&
                          d[0].x == AxisPos(ix, GridSize, Cell) &&
                          d[0].z == AxisPos(iy, GridSize, Cell) &&
                          d[0].y == LayerHeight(iz) + Lift)
  {
    StripEmpty(value);
  }

  /** Only the row of a cell picks its texture: its label, layer and column do not. */
  lemma TextureIgnoresLabel(iz: nat, iy: nat, ix: nat, value: string, iz': nat, ix': nat, value': string)
    requires CellDraws(iz, iy, ix, value) != [] && CellDraws(iz', iy, ix', value') != []
    ensures CellDraws(iz, iy, ix, value)[0].texture == CellDraws(iz', iy, ix', value')[0].texture
  {
  }

  /** A cell of a loaded grid is drawn exactly when the file has a token at
      that place with something other than whitespace in it: the padding
      and the blank label are never drawn. */
  lemma LoadedCellDrawn(text: string, t: nat, y: nat, x: nat)
    requires LoadsSpec(text).Ok?
    requires t < Depth(text) && y < Height(text) && x < Width(text)
    ensures var rows := RowsOf(Layers(text)[t]);
            CellDraws(t, y, x, LoadsSpec(text).grid[t][y][x]) != [] <==>
              y < |rows| && x < |TokensOf(rows[y])| && !AllSpace(TokensOf(rows[y])[x])
  {
    var rows := RowsOf(Layers(text)[t]);
    LoadsCell(text, t, y, x);
    assert Strip(Blank) == [];
    if y < |rows| && x < |TokensOf(rows[y])| {
      var token := TokensOf(rows[y])[x];
      StripIdempotent(token);
      StripEmpty(token);
    }
  }

  /** The front row: the z of row 0. */
  predicate TextureByRow(b: Billboard)
  {
    b.texture == Skull <==> b.z == AxisPos(0, GridSize, Cell)
  }

  predicate AllTextureByRow(d: seq<Billboard>)
  {
    forall k :: 0 <= k < |d| ==> TextureByRow(d[k])
  }

  lemma AllTextureByRowAppend(a: seq<Billboard>, b: seq<Billboard>)
    requires AllTextureByRow(a) && AllTextureByRow(b)
    ensures AllTextureByRow(a + b)
  {
  }

  lemma CellTextureByRow(iz: nat, iy: nat, ix: nat, value: string)
    ensures AllTextureByRow(CellDraws(iz, iy, ix, value))
  {
    if iy > 0 {
      AxisIncreasing(0, iy, GridSize, Cell);
    }
  }

  lemma {:induction false} RowTextureByRow(iz: nat, iy: nat, row: seq<string>)
    ensures AllTextureByRow(RowDraws(iz, iy, row))
    decreases |row|
  {
    if row != [] {
      RowTextureByRow(iz, iy, row[..|row| - 1]);
      CellTextureByRow(iz, iy, |row| - 1, row[|row| - 1]);
      AllTextureByRowAppend(RowDraws(iz, iy, row[..|row| - 1]), CellDraws(iz, iy, |row| - 1, row[|row| - 1]));
    }
  }

  lemma {:induction false} LayerTextureByRow(iz: nat, layer: seq<seq<string>>)
    ensures AllTextureByRow(LayerDraws(iz, layer))
    decreases |layer|
  {
    if layer != [] {
      LayerTextureByRow(iz, layer[..|layer| - 1]);
      RowTextureByRow(iz, |layer| - 1, layer[|layer| - 1]);
      AllTextureByRowAppend(LayerDraws(iz, layer[..|layer| - 1]), RowDraws(iz, |layer| - 1, layer[|layer| - 1]));
    }
  }

  /** Across a whole drawing, a billboard shows the skull exactly when it
      stands on the front row (row 0) of the board, in every layer. */
  lemma {:induction false} SkullsOnFrontRow(volume: Grid)
    ensures AllTextureByRow(VolumeDraws(volume))
    decreases |volume|
  {
    if volume != [] {
      SkullsOnFrontRow(volume[..|volume| - 1]);
      LayerTextureByRow(|volume| - 1, volume[|volume| - 1]);
      AllTextureByRowAppend(VolumeDraws(volume[..|volume| - 1]), LayerDraws(|volume| - 1, volume[|volume| - 1]));
    }
  }

  // Counting the billboards of any grid

  /** The labels of a layer in drawing order, row by row. */
  function RowMajor(layer: seq<seq<string>>): seq<string>
    decreases |layer|
  {
    if layer == [] then [] else RowMajor(layer[..|layer| - 1]) + layer[|layer| - 1]
  }

  /** The labels of a grid in drawing order, layer by layer. */
  function DrawOrder(volume: Grid): seq<string>
    decreases |volume|
  {
    if volume == [] then [] else DrawOrder(volume[..|volume| - 1]) + RowMajor(volume[|volume| - 1])
  }

  /** How many of the labels have something other than whitespace in them. */
  function Shown(labels: seq<string>): nat
    decreases |labels|
  {
    if labels == [] then 0 else (if AllSpace(labels[0]) then 0 else 1) + Shown(labels[1..])
  }

  lemma {:induction false} ShownAppend(a: seq<string>, b: seq<string>)
    ensures Shown(a + b) == Shown(a) + Shown(b)
    decreases |a|
  {
    if a == [] {
      assert a + b == b;
    } else {
      assert (a + b)[1..] == a[1..] + b;
      ShownAppend(a[1..], b);
    }
  }

  /** A row draws one billboard per label that is not all whitespace. */
  lemma {:induction false} RowDrawCount(iz: nat, iy: nat, row: seq<string>)
    ensures |RowDraws(iz, iy, row)| == Shown(row)
    decreases |row|
  {
    if row != [] {
      var init, last := row[..|row| - 1], row[|row| - 1];
      RowDrawCount(iz, iy, init);
      CellRule(iz, iy, |row| - 1, last);
      assert row == init + [last];
      ShownAppend(init, [last]);
    }
  }

  lemma {:induction false} LayerDrawCount(iz: nat, layer: seq<seq<string>>)
    ensures |LayerDraws(iz, layer)| == Shown(RowMajor(layer))
    decreases |layer|
  {
    if layer != [] {
      var init, last := layer[..|layer| - 1], layer[|layer| - 1];
      LayerDrawCount(iz, init);
      RowDrawCount(iz, |layer| - 1, last);
      ShownAppend(RowMajor(init), last);
    }
  }

  /** A grid of any shape draws exactly as many billboards as it has
      labels that are not all whitespace. */
  lemma {:induction false} VolumeDrawCount(volume: Grid)
    ensures |VolumeDraws(volume)| == Shown(DrawOrder(volume))
    decreases |volume|
  {
    if volume != [] {
      var init, last := volume[..|volume| - 1], volume[|volume| - 1];
      VolumeDrawCount(init);
      LayerDrawCount(|volume| - 1, last);
      ShownAppend(DrawOrder(init), RowMajor(last));
    }
  }

  // Counting the billboards of a grid with no blank cell

  /** The number of skull billboards in d. */
  function Skulls(d: seq<Billboard>): nat
    decreases |d|
  {
    if d == [] then 0 else Skulls(d[..|d| - 1]) + (if d[|d| - 1].texture == Skull then 1 else 0)
  }

  lemma {:induction false} SkullsAppend(a: seq<Billboard>, b: seq<Billboard>)
    ensures Skulls(a + b) == Skulls(a) + Skulls(b)
    decreases |b|
  {
    if b == [] {
      assert a + b == a;
    } else {
      assert (a + b)[..|a + b| - 1] == a + b[..|b| - 1];
      assert (a + b)[|a + b| - 1] == b[|b| - 1];
      SkullsAppend(a, b[..|b| - 1]);
    }
  }

  /** Every label of the row has something other than whitespace in it. */
  predicate Filled(row: seq<string>)
  {
    forall x :: 0 <= x < |row| ==> !AllSpace(row[x])
  }

  /** A filled row draws one billboard per cell: all skulls on row 0, no skull elsewhere. */
  lemma {:induction false} FilledRowDraws(iz: nat, iy: nat, row: seq<string>)
    requires Filled(row)
    ensures |RowDraws(iz, iy, row)| == |row|
    ensures Skulls(RowDraws(iz, iy, row)) == if iy == 0 then |row| else 0
    decreases |row|
  {
    if row != [] {
      var init, last := row[..|row| - 1], row[|row| - 1];
      FilledRowDraws(iz, iy, init);
      CellRule(iz, iy, |row| - 1, last);
      SkullsAppend(RowDraws(iz, iy, init), CellDraws(iz, iy, |row| - 1, last));
    }
  }

  /** A filled h-by-w layer draws h*w billboards, w of them skulls (row 0). */
  lemma {:induction false} FilledLayerDraws(iz: nat, layer: seq<seq<string>>, w: nat)
    requires forall y :: 0 <= y < |layer| ==> |layer[y]| == w && Filled(layer[y])
    ensures |LayerDraws(iz, layer)| == |layer| * w
    ensures Skulls(LayerDraws(iz, layer)) == if |layer| > 0 then w else 0
    decreases |layer|
  {
    if layer != [] {
      var h := |layer|;
      var init, last := layer[..h - 1], layer[h - 1];
      assert forall y :: 0 <= y < h - 1 ==> init[y] == layer[y];
      FilledLayerDraws(iz, init, w);
      FilledRowDraws(iz, h - 1, last);
      SkullsAppend(LayerDraws(iz, init), RowDraws(iz, h - 1, last));
      MulSucc(h - 1, w);
    }
  }

  /** A filled d-by-h-by-w grid draws d*h*w billboards, d*w of them skulls. */
  lemma {:induction false} FilledVolumeDraws(volume: Grid, h: nat, w: nat)
    requires h >= 1
    requires forall t :: 0 <= t < |volume| ==> |volume[t]| == h
    requires forall t, y :: 0 <= t < |volume| && 0 <= y < h ==> |volume[t][y]| == w && Filled(volume[t][y])
    ensures |VolumeDraws(volume)| == |volume| * (h * w)
    ensures Skulls(VolumeDraws(volume)) == |volume| * w
    decreases |volume|
  {
    if volume != [] {
      var d := |volume|;
      var init, last := volume[..d - 1], volume[d - 1];
      assert forall t :: 0 <= t < d - 1 ==> init[t] == volume[t];
      FilledVolumeDraws(init, h, w);
      FilledLayerDraws(d - 1, last, w);
      SkullsAppend(VolumeDraws(init), LayerDraws(d - 1, last));
      MulSucc(d - 1, h * w);
      MulSucc(d - 1, w);
    }
  }

  lemma MulSucc(a: nat, b: nat)
    ensures (a + 1) * b == a * b + b
  {
  }
}
