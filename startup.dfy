/** How `main` of terminator.py picks the scene: the grid parsed from the
    file my.xyz when it exists, otherwise a full 8 x 8 x 8 volume of "x". */
module Startup {
  import opened Text
  import opened SceneParser
  import opened SceneFormat
  import opened Geometry
  import opened Render

  /** The scene file as `main` finds it: absent, or present with the text
      `fh.read()` returns, already decoded from UTF-8 and with "\r\n" and
      a lone "\r" already turned into "\n" by text mode. */
  datatype SceneFile = Missing | Present(contents: string)

  /** The label of every cell of the default scene. */
  const DefaultLabel: string := "x"

  /** VOL_Z layers of GRID_SIZE rows of GRID_SIZE cells, all "x". */
  function DefaultScene(): Grid
  {
    seq(VolZ, _ => seq(GridSize, _ => seq(GridSize, _ => DefaultLabel)))
  }

  /** The default scene is 8 x 8 x 8 and holds "x" in every cell. */
  lemma DefaultSceneShape()
    ensures Shaped(DefaultScene(), VolZ, GridSize, GridSize)
    ensures forall t, y, x :: 0 <= t < VolZ && 0 <= y < GridSize && 0 <= x < GridSize ==>
              DefaultScene()[t][y][x] == DefaultLabel
  {
  }

  /** The scene `main` starts with. */
  method InitialScene(file: SceneFile) returns (r: ParseResult)
    ensures file.Missing? ==> r == Ok(DefaultScene())
    ensures file.Present? ==> r == LoadsSpec(file.contents)
  {
    match file
    case Missing =>
      r := Ok(DefaultScene());
    case Present(text) =>
      r := Loads(text);
  }

  /** A file holding the default scene's text, eight layers of eight rows
      "x,x,x,x,x,x,x,x", loads to the default scene itself. */
  lemma DefaultSceneAsFile()
    ensures WellFormed(DefaultScene())
    ensures LoadsSpec(Serialize(DefaultScene())) == Ok(DefaultScene())
  {
    var g := DefaultScene();
    assert IsToken(DefaultLabel);
    assert WellFormed(g);
    RoundTrip(g);
  }

  /** The default scene draws a billboard in each of its 512 cells; the 64
      of row 0 (eight per layer) show the skull and the rest the drone. */
  lemma DefaultSceneDraws()
    ensures |VolumeDraws(DefaultScene())| == 512
    ensures Skulls(VolumeDraws(DefaultScene())) == 64
  {
    var g := DefaultScene();
    assert !AllSpace(DefaultLabel) by {
      assert !IsSpace(DefaultLabel[0]);
    }
    assert forall t, y :: 0 <= t < VolZ && 0 <= y < GridSize ==> Filled(g[t][y]);
    FilledVolumeDraws(g, GridSize, GridSize);
  }
}
