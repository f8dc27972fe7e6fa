# terminator.py in Dafny

A model of the core of `terminator.py`, a small OpenGL viewer that shows an
8 x 8 x 8 volume of billboards (a skull on the front row, drones elsewhere)
over a checkerboard, with an orbiting camera driven by the keyboard.

The model covers:

- **the scene parser `loads`** (`SceneParser.Loads`): text with layers
  separated by `;`, rows by newlines and cells by `,`. It has the same nested
  loops, the same one-shot allocation flag and the same cell-by-cell writes
  into the grid as the source. It is proved against a functional
  specification, `LoadsSpec`, which is in turn proved to have the layer
  count, shape, cell contents and error condition of the source.
  `SceneFormat` adds the inverse writer: it characterises exactly the grids
  `loads` can return (`Canonical`), and proves that every such grid, written
  out with the blank label as its single space and parsed again, is itself,
  so any parsed grid survives a write and a reload. `Text` holds Python's
  `str.split`, `str.strip` (the full `isspace` set) and `str.join` on a
  non-empty list (the writer never joins an empty one), all on
  `seq<char>`;
- **the geometry** (`Geometry`): `world_pos_from_index`, the layer height
  `iz * VERT_SPACING` and the checkerboard squares;
- **the camera** (`CameraControl`): the globals `yaw`, `pitch` and `zoom` as
  the class `Camera`, updated in place by `Keyboard`. It is proved against
  the pure `Press`, and the eye position of `display` is covered too;
- **the draw rule of `draw_volume`** (`Render`): a method with the same three
  loops, proved to emit `VolumeDraws`, with lemmas about what is drawn, where
  and with which texture;
- **the scene chosen by `main`** (`Startup`): the parsed file, or the default
  grid of `"x"`.

Where the intended design and the code differ, the model follows the code:

- Empty scene text is not an error. `"".split(";")` is `[""]`, so `loads("")`
  is `[[[" "]]]` (`LoadsEmptyText`).
- The grid's extents are never validated. The number of layers, the row
  count of the first layer and the token count of its first row fix the
  extents. Shorter later rows and layers are padded with the blank label
  `" "`. Longer ones raise IndexError, modelled as `Err(IndexError)`
  (`LoadsError`).
- Texture choice is by row only: the label is read only to decide whether
  the cell is drawn at all (`TextureIgnoresLabel`).

## Model

| member | source | states |
|---|---|---|
| Text.IsSpace | terminator.py:47 | a character is whitespace exactly when Python's `str.isspace` says so: the ASCII controls 9-13 and 28-31, space, U+0085 (next line), the Unicode space separators U+00A0, U+1680, U+2000-U+200A, U+202F, U+205F and U+3000, and the line and paragraph separators U+2028 and U+2029 |
| Text.StripLeft | terminator.py:47 | `lstrip`: drop whitespace characters from the front one at a time |
| Text.StripRight | terminator.py:56 | `rstrip`: drop whitespace characters from the back one at a time |
| Text.Strip | terminator.py:47 | `strip` is `rstrip` after `lstrip` (used on a layer at line 47 and on a token at line 56) |
| Text.Join | terminator.py:44 | `sep.join(parts)`: the pieces with one separator between neighbours; the first piece is a prefix of the result |
| Text.StripLeftSpec | terminator.py:47 | `lstrip` removes exactly the leading whitespace: the result is a suffix, everything dropped is whitespace, and the result does not start with whitespace |
| Text.StripRightSpec | terminator.py:56 | `rstrip` removes exactly the trailing whitespace, symmetrically |
| Text.StripIsTrimmed | terminator.py:56 | the result of `strip` has whitespace at neither end |
| Text.StripTrimmed | terminator.py:56 | a string without whitespace at either end is its own strip |
| Text.StripIdempotent | terminator.py:56 | stripping twice is stripping once |
| Text.StripEmpty | terminator.py:57 | `strip` yields `""` exactly for all-whitespace strings (both directions) |
| Text.Split | terminator.py:44 | `split` always returns at least one piece |
| Text.SplitFreeOf | terminator.py:44 | no piece of a split contains the separator |
| Text.SplitJoin | terminator.py:44 | splitting a join of separator-free pieces gives the pieces back |
| Text.JoinSplit | terminator.py:44 | joining the pieces of a split with the same separator gives the original text |
| SceneParser.Layers | terminator.py:44 | the layer sections are the `;`-split of the whole text |
| SceneParser.RowsOf | terminator.py:47 | a layer section is stripped as a whole and then split on newlines |
| SceneParser.TokensOf | terminator.py:50 | a row is split on `,` without being stripped first |
| SceneParser.Fits | terminator.py:46-57 | no layer has more rows than the first layer, and no row more tokens than the first row: the condition under which no write indexes out of range |
| SceneParser.LoadsSpec | terminator.py:38-58 | the outcome of `loads`: the cell-by-cell grid of the allocated extents when the text fits them, IndexError otherwise |
| SceneParser.CellOf | terminator.py:56-57 | a cell is the stripped token, or the blank label when the token strips to `""`; never empty |
| SceneParser.RowCells | terminator.py:55-57 | a written row has exactly the allocated width |
| SceneParser.LayerCells | terminator.py:49-57 | a written layer has the allocated height, and every row has the allocated width |
| SceneParser.Expected | terminator.py:53 | the grid has the extents fixed at allocation: layer count, first layer's row count, first row's token count |
| SceneParser.BlankGrid | terminator.py:53 | the allocated grid has the requested shape and is blank everywhere |
| SceneParser.Loads | terminator.py:38-58 | the imperative parser returns exactly `LoadsSpec(texts)`: the filled grid, or IndexError |
| SceneParser.WriteLayer | terminator.py:47-57 | one layer pass allocates on the first row, succeeds exactly when the layer fits the allocated extents, and then leaves every cell up to the end of the layer written |
| SceneParser.WriteRow | terminator.py:50-57 | one row pass succeeds exactly when the row index and token count fit, and then leaves the row written |
| SceneParser.LoadsLayerCount | terminator.py:44-46 | a parsed grid has one layer per `;`-separated section, so at least one |
| SceneParser.LoadsRectangular | terminator.py:53 | a parsed grid is rectangular: every layer has the first layer's row count and every row the first row's token count |
| SceneParser.LoadsCell | terminator.py:47-57 | each cell is the stripped token at its place (blank if that strips to `""`), or blank padding where the file has no token there |
| SceneParser.LoadsError | terminator.py:46-57 | parsing fails exactly when some layer has more rows than the first layer, or some row more tokens than the first row |
| SceneParser.LoadsEmptyText | terminator.py:38-58 | empty text parses to a single blank cell |
| SceneParser.LoadsBlankTokens | terminator.py:56-57 | `"x, \n ,y"` parses to `[[["x"," "],[" ","y"]]]`: whitespace-only tokens become the blank label |
| SceneParser.TwoByTwo | terminator.py:44-57 | a text of one layer with two rows of two tokens loads to the cells of those four tokens |
| SceneFormat.Serialize | terminator.py:44-50 | the writer, defined on any rectangular grid: layers joined with `;`, rows with newlines, cells with `,`, the blank label as its single space; it is the inverse of `loads` on the canonical grids (`CanonicalRoundTrip`), not on others (a label `a,b` reads back as two cells) |
| SceneFormat.Canonical | terminator.py:44-57 | the grids `loads` can return: rectangular with a stripped token or the blank label in every cell, and, when one column wide, every layer all blank or starting with a label, and the first layer either a single blank row or ending with a label, since `strip` on line 47 removes blank rows at the edges of a non-blank layer and the first layer's row count fixes the height |
| SceneFormat.ParsesAs | terminator.py:47-57 | a layer written as the text of its trimmed rows between whitespace reads back as those rows, fits the extents, and its cells are the layer's labels |
| SceneFormat.WideLayer | terminator.py:47-57 | a layer at least two cells wide reads back with all its rows: `strip` takes off at most the space of a blank first or last cell, which the parser restores as the blank label |
| SceneFormat.ColumnBlank | terminator.py:47-57 | an all-blank one-column layer strips to `""`, reads back as one empty row, and the parser pads it to the blank layer |
| SceneFormat.ColumnFilled | terminator.py:47-57 | a one-column layer with a label first reads back with its rows up to the last label; the blank rows after it, removed by `strip`, come back as padding |
| SceneFormat.LayerRead | terminator.py:47-57 | any layer of a canonical grid, written out, holds no `;`, fits the extents, and reads back as itself row for row |
| SceneFormat.CanonicalRoundTrip | terminator.py:38-58 | every canonical grid, written out and parsed, is itself |
| SceneFormat.ParsedIsCanonical | terminator.py:38-58 | every grid `loads` returns is canonical |
| SceneFormat.ReserializeParsed | terminator.py:38-58 | any grid `loads` returns can be written out, and loading that text gives the same result again: the format is closed under the round trip |
| SceneFormat.RoundTrip | terminator.py:38-58 | in particular every rectangular grid of tokens, written out and parsed, is itself |
| SceneFormat.LoadsTwoByTwo | terminator.py:38-58 | `"a,b\nc,d"` parses to one layer with rows `a,b` and `c,d` |
| Geometry.AxisPos | terminator.py:62-64 | one axis of `world_pos_from_index`: -N*cell/2 + cell/2 + i*cell |
| Geometry.WorldPos | terminator.py:61-65 | `(wx, wz)` of column ix and row iy, each by the same axis formula |
| Geometry.AxisSymmetric | terminator.py:61-65 | index i and index N-1-i sit at opposite positions about the origin |
| Geometry.AxisEvenlySpaced | terminator.py:63-64 | neighbouring indices are one cell apart |
| Geometry.AxisIncreasing | terminator.py:63-64 | with a positive cell size, a larger index lies further along the axis |
| Geometry.WorldPosAxes | terminator.py:61-65 | wx depends only on ix and wz only on iy, and both mirror under i -> N-1-i |
| Geometry.AxisCentred | terminator.py:62-64 | the N positions of an axis sum to zero: the footprint is centred on the origin |
| Geometry.DefaultFootprint | terminator.py:61-65 | with N = 8 and cell 1 the columns run from -3.5 to 3.5 |
| Geometry.LayerHeight | terminator.py:118 | the height of layer iz is `iz * VERT_SPACING` |
| Geometry.LayersStackUpward | terminator.py:118 | layer 0 is at height 0, and layers rise by VERT_SPACING each, strictly increasing |
| Geometry.SquareCorner | terminator.py:85-90 | the low corner of board square i as written: -(N-1)*cell/2 + i*cell |
| Geometry.CentredSquareCorner | terminator.py:85-90 | the corrected low corner -N*cell/2 + i*cell |
| Geometry.BoardOffsetAsWritten | terminator.py:85-90 | as written, each board square starts where its billboard stands, so the board spans -3.5 to 4.5 |
| Geometry.CentredBoard | terminator.py:85-90 | with half = N*cell/2 each billboard stands at its square's centre, and the board is symmetric about the origin |
| CameraControl.Classify | terminator.py:148-155 | the if/elif chain: a byte of 128 or more fails to decode, ESC quits, letters compare after `lower()`, `+` and `-` exactly, anything else selects nothing |
| CameraControl.Apply | terminator.py:150-155 | each command's update of yaw, pitch or zoom, with the clamps of `min` and `max` |
| CameraControl.Press | terminator.py:146-155 | the view after one key: the command the key selects, applied |
| CameraControl.Reaction | terminator.py:148-156 | after a key the callback exits on ESC, raises on an undecodable byte, and otherwise redraws |
| CameraControl.Presses | terminator.py:146-156 | the view after a sequence of keys, oldest first |
| CameraControl.Camera.constructor | terminator.py:18-20 | the camera starts at yaw 0, pitch 25, zoom 14 |
| CameraControl.Camera.Keyboard | terminator.py:146-156 | one key updates the globals to `Press(old view, key)` and returns `Reaction(key)`; the clamped ranges are preserved |
| CameraControl.InitialInRange | terminator.py:18-20 | the start-up view lies in pitch [-10, 80] and zoom [4, 40] |
| CameraControl.PressKeepsRange | terminator.py:152-155 | no key takes pitch or zoom out of its range |
| CameraControl.PressesKeepRange | terminator.py:146-156 | any key sequence keeps a view in range |
| CameraControl.ReachableInRange | terminator.py:146-156 | every view reachable from start-up lies in the clamped ranges |
| CameraControl.KeyTable | terminator.py:148-156 | the full key table: non-ASCII bytes fail to decode, ESC exits, a/A and d/D turn by 8, w/W and s/S tilt by 5 up to the bounds, + and - zoom by 1 up to the bounds, and only the key's own parameter changes |
| CameraControl.UnboundKey | terminator.py:149-156 | any other ASCII key leaves the view unchanged and redraws |
| CameraControl.CaseInsensitive | terminator.py:150-153 | an upper-case letter acts exactly as its lower-case letter |
| CameraControl.TurnsCancel | terminator.py:150-151 | a then d, or d then a, restores the view |
| CameraControl.StepsCancel | terminator.py:152-155 | away from the bounds, w/s and +/- undo each other |
| CameraControl.ClampsHold | terminator.py:152-155 | at a bound, pressing further toward it changes nothing |
| CameraControl.TiltUpRepeated | terminator.py:152 | n taps of w raise pitch to min(80, pitch + 5n) and change nothing else |
| CameraControl.ZoomInRepeated | terminator.py:154 | n taps of + lower zoom to max(4, zoom - n) and change nothing else |
| CameraControl.HeldKeyIdle | terminator.py:146-156 | a key that leaves a view unchanged leaves it unchanged however often it is pressed |
| CameraControl.ClampsHoldRepeated | terminator.py:152-155 | held at a bound, any number of presses further toward it changes nothing |
| CameraControl.Eye | terminator.py:132-134 | the eye of `gluLookAt`: zoom times the spherical direction of yaw and pitch |
| CameraControl.TargetHeight | terminator.py:135 | the camera looks at (0, VOL_Z*VERT_SPACING/4, 0) = (0, 1.2, 0) |
| CameraControl.EyeOnSphere | terminator.py:132-134 | the eye lies at distance zoom from the origin (not from the target) |
| CameraControl.EyeAtRest | terminator.py:132-134 | at yaw 0 and pitch 0 the eye is at (0, 0, zoom) |
| CameraControl.EyeHeightIgnoresYaw | terminator.py:133 | the eye's height depends on pitch and zoom, not on yaw |
| Render.CellDraws | terminator.py:116-125 | a cell contributes nothing when its label strips to `""`, otherwise one billboard at its world position and layer height plus 0.3, skull on row 0, drone elsewhere |
| Render.RowDraws | terminator.py:115-126 | a row's billboards in column order |
| Render.LayerDraws | terminator.py:114-126 | a layer's billboards, row by row |
| Render.VolumeDraws | terminator.py:113-126 | a grid's billboards, layer by layer, in the order they are drawn |
| Render.DrawVolume | terminator.py:112-126 | the three loops emit exactly `VolumeDraws(volume)`, in drawing order |
| Render.DrawLayer | terminator.py:114-126 | the loop over a layer's rows emits `LayerDraws` |
| Render.DrawRow | terminator.py:115-126 | the loop over a row's cells emits `RowDraws` |
| Render.CellRule | terminator.py:116-125 | a cell is drawn exactly when its label is not all whitespace; its texture is the skull exactly on row 0; it is drawn at (wx, iz*0.6 + 0.3, wz) |
| Render.TextureIgnoresLabel | terminator.py:122-125 | the texture depends only on the row, not on label, layer or column |
| Render.LoadedCellDrawn | terminator.py:116 | a cell of a parsed grid is drawn exactly when the file has a token there holding something other than whitespace |
| Render.SkullsOnFrontRow | terminator.py:113-125 | across a whole drawing, a billboard shows the skull exactly when it stands on row 0 of the board |
| Render.RowDrawCount | terminator.py:115-126 | any row draws one billboard per label that is not all whitespace |
| Render.LayerDrawCount | terminator.py:114-126 | any layer draws one billboard per such label, over its rows in order |
| Render.VolumeDrawCount | terminator.py:113-126 | a grid of any shape draws exactly as many billboards as it has labels that are not all whitespace |
| Render.FilledRowDraws | terminator.py:115-125 | a row with no blank label draws one billboard per cell, all skulls on row 0 and none elsewhere |
| Render.FilledLayerDraws | terminator.py:114-125 | a filled h x w layer draws h*w billboards, w of them skulls |
| Render.FilledVolumeDraws | terminator.py:113-125 | a filled d x h x w grid draws d*h*w billboards, d*w of them skulls |
| Startup.DefaultScene | terminator.py:174 | the default scene: VOL_Z layers of GRID_SIZE rows of GRID_SIZE cells, all `"x"` |
| Startup.DefaultSceneShape | terminator.py:174 | the default scene is 8 x 8 x 8 with `"x"` in every cell |
| Startup.InitialScene | terminator.py:169-174 | the scene is the parse of the file when it exists, the default grid otherwise |
| Startup.DefaultSceneAsFile | terminator.py:174 | the default scene is a rectangular grid of tokens, and a file holding its text loads back to it |
| Startup.DefaultSceneDraws | terminator.py:174 | the default scene draws 512 billboards, 64 of them skulls |

## Left out

- OpenGL and GLUT state, lighting, blending, `init_gl`, `reshape` (viewport and aspect ratio) and the idle callback: calls into a graphics library whose behaviour is not visible here.
- `load_texture` and PIL image decoding: external libraries. A texture is the `Render.Texture` enum.
- File I/O in `main`: the existence check and the read of `my.xyz` become the `Startup.SceneFile` parameter, whose contents are the text `fh.read()` returns. UTF-8 decoding of the file and text mode's newline translation (`\r\n` and a lone `\r` become `\n` before `loads` sees the text) happen before that and are not modelled.
- `sys.exit(0)` and the decode exception: the `Exit` and `DecodeError` outcomes of `Keyboard`. What GLUT does after a raising callback is not modelled; the view is left unchanged.
- The window coordinates `x`, `y` passed to `keyboard`: they are unused.
- A key given as `str` rather than `bytes`: GLUT delivers keys as bytes, so only the decoding branch is modelled.
- Floating point: all positions and camera values are exact reals, so rounding (for example in `iz * 0.6`) is not modelled.
- `math.sin`, `math.cos` and `math.radians`: passed to `CameraControl.Eye` as sine and cosine in degrees. The lemmas assume only sin^2 + cos^2 = 1, sin 0 = 0 and cos 0 = 1.
- The matrix transforms of `draw_textured_quad` and the `(0, -1.5, 0)` translation in `display`: `Render.Billboard` records one quad's texture and translation, not its vertices.
- The checkerboard colours (`(ix + iy) % 2`): only the placement of the squares is modelled.
- SceneParser.LoadsSpec: `loads` raises IndexError part-way through the grid. The model returns `Err(IndexError)` and drops the partly written grid, which the exception discards anyway.
- Python `str(val)` in `draw_volume`: grid cells are already strings, so it is the identity.

## Findings

| source | as written | input that shows it | evidently intended | confidence | as-written member | corrected member |
|---|---|---|---|---|---|---|
| terminator.py:85 | `half = (GRID_SIZE - 1) * CELL / 2.0`, so square ix spans [-3.5 + ix, -2.5 + ix] (lemma `Geometry.BoardOffsetAsWritten`) | ix = 0: the billboard stands at -3.5, the low corner of its square, whose centre is -3.0; the board spans -3.5 to 4.5 | `half = GRID_SIZE * CELL / 2.0`, putting each billboard at its square's centre on a board centred at the origin (lemma `Geometry.CentredBoard`) | medium, not executed | Geometry.SquareCorner | Geometry.CentredSquareCorner |
