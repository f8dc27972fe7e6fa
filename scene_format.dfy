/** The inverse of `loads`: writing a rectangular grid back with the same
    three delimiters, the round trip through the parser, and which grids
    the parser can return. */
module SceneFormat {
  import opened Text
  import opened SceneParser

  /** A label that survives the text format unchanged: not empty, no
      whitespace at either end and none of the three delimiters inside. */
  predicate IsToken(s: string)
  {
    s != [] && Trimmed(s) && ';' !in s && '\n' !in s && ',' !in s
  }

  /** A label the parser can produce: a token, or the blank label. */
  predicate IsCell(s: string)
  {
    IsToken(s) || s == Blank
  }

  /** What may stand between two delimiters of a written layer once its
      surrounding whitespace is stripped: a label, or nothing. */
  predicate IsPiece(s: string)
  {
    IsCell(s) || s == []
  }

  /** h rows of w cells each. */
  predicate LayerShaped(layer: seq<seq<string>>, h: nat, w: nat)
  {
    |layer| == h && forall y :: 0 <= y < h ==> |layer[y]| == w
  }

  /** At least one cell, and every layer and row as long as the first. */
  predicate Rectangular(g: Grid)
  {
    |g| >= 1 && |g[0]| >= 1 && |g[0][0]| >= 1 &&
    forall t :: 0 <= t < |g| ==> LayerShaped(g[t], |g[0]|, |g[0][0]|)
  }

  predicate AllCells(layer: seq<seq<string>>)
  {
    forall y, x :: 0 <= y < |layer| && 0 <= x < |layer[y]| ==> IsCell(layer[y][x])
  }

  predicate AllPieces(layer: seq<seq<string>>)
  {
    forall y, x :: 0 <= y < |layer| && 0 <= x < |layer[y]| ==> IsPiece(layer[y][x])
  }

  predicate AllBlank(layer: seq<seq<string>>)
  {
    forall y, x :: 0 <= y < |layer| && 0 <= x < |layer[y]| ==> layer[y][x] == Blank
  }

  /** Exactly the grids `loads` can return (ParsedIsCanonical and
      CanonicalRoundTrip): rectangular with a label in every cell. When the
      grid is one column wide, whole blank rows at the edge of a layer are
      whitespace that strip() removes; so each layer is blank or starts with
      a label, and the first layer, whose rows fix the height, is a single
      blank row or also ends with a label. */
  predicate Canonical(g: Grid)
  {
    Rectangular(g) && (forall t :: 0 <= t < |g| ==> AllCells(g[t])) &&
    (|g[0][0]| == 1 ==>
       (forall t :: 0 <= t < |g| ==> AllBlank(g[t]) || g[t][0][0] != Blank) &&
       (if AllBlank(g[0]) then |g[0]| == 1 else g[0][|g[0]| - 1][0] != Blank))
  }

  /** A rectangular grid whose every cell is a token. */
  predicate WellFormed(g: Grid)
  {
    Rectangular(g) &&
    forall t, y, x :: 0 <= t < |g| && 0 <= y < |g[t]| && 0 <= x < |g[t][y]| ==> IsToken(g[t][y][x])
  }

  function RowText(row: seq<string>): string
    requires |row| >= 1
  {
    Join(row, ',')
  }

  function RowTexts(layer: seq<seq<string>>): (rs: seq<string>)
    requires forall y :: 0 <= y < |layer| ==> |layer[y]| >= 1
    ensures |rs| == |layer|
  {
    seq(|layer|, y requires 0 <= y < |layer| => RowText(layer[y]))
  }

  function LayerText(layer: seq<seq<string>>): string
    requires |layer| >= 1 && forall y :: 0 <= y < |layer| ==> |layer[y]| >= 1
  {
    Join(RowTexts(layer), '\n')
  }

  function LayerTexts(g: Grid): (ls: seq<string>)
    requires Rectangular(g)
    ensures |ls| == |g|
  {
    seq(|g|, t requires 0 <= t < |g| => LayerText(g[t]))
  }

  /** Layers joined with ';', rows with '\n', cells with ','; the blank
      label is written as its single space. */
  function Serialize(g: Grid): string
    requires Rectangular(g)
  {
    Join(LayerTexts(g), ';')
  }

  // Reading one written layer back

  lemma PieceFree(s: string)
    requires IsPiece(s)
    ensures ';' !in s && '\n' !in s && ',' !in s
  {
  }

  /** The parser reads a piece as the label it stands for. */
  lemma CellOfPiece(s: string)
    requires IsPiece(s)
    ensures CellOf(s) == if s == [] then Blank else s
  {
    if IsToken(s) {
      StripTrimmed(s);
    } else if s == Blank {
      assert StripLeft(s) == [];
    }
  }

  /** A layer whose text is whitespace around the trimmed text of a core
      of pieces: its rows are the core's rows, and the parser reads the
      core's labels, padded with blank rows up to h. */
  lemma ParsesAs(layer: seq<seq<string>>, core: seq<seq<string>>, h: nat, w: nat, pre: string, suf: string)
    requires h >= 1 && w >= 1 && LayerShaped(layer, h, w)
    requires 1 <= |core| <= h && LayerShaped(core, |core|, w) && AllPieces(core)
    requires forall y, x :: 0 <= y < h && 0 <= x < w ==>
               layer[y][x] == if y < |core| then CellOf(core[y][x]) else Blank
    requires AllSpace(pre) && AllSpace(suf) && Trimmed(LayerText(core))
    requires LayerText(layer) == pre + LayerText(core) + suf
    ensures RowsOf(LayerText(layer)) == RowTexts(core)
    ensures RowsFit(RowTexts(core), h, w)
    ensures |TokensOf(RowTexts(core)[0])| == w
    ensures LayerCells(RowTexts(core), h, w) == layer
  {
    StripFrame(pre, LayerText(core), suf);
    CoreRows(core, w);
    var rs := RowTexts(core);
    var l := LayerCells(rs, h, w);
    forall y | 0 <= y < h ensures l[y] == layer[y] {
      var r := RowCells(if y < |rs| then TokensOf(rs[y]) else [], w);
      assert l[y] == r;
    }
  }

  /** The core's text splits back into its rows, and each row into its pieces. */
  lemma CoreRows(core: seq<seq<string>>, w: nat)
    requires |core| >= 1 && w >= 1 && LayerShaped(core, |core|, w) && AllPieces(core)
    ensures Split(LayerText(core), '\n') == RowTexts(core)
    ensures forall y :: 0 <= y < |core| ==> TokensOf(RowTexts(core)[y]) == core[y]
  {
    var rs := RowTexts(core);
    forall y | 0 <= y < |core| ensures TokensOf(rs[y]) == core[y] && '\n' !in rs[y] {
      forall x | 0 <= x < w ensures ',' !in core[y][x] && '\n' !in core[y][x] {
        PieceFree(core[y][x]);
      }
      SplitJoin(core[y], ',');
      JoinFreeOf(core[y], ',', '\n');
    }
    SplitJoin(rs, '\n');
  }

  /** A written layer holds no ';'. */
  lemma LayerTextFree(layer: seq<seq<string>>, h: nat, w: nat)
    requires h >= 1 && w >= 1 && LayerShaped(layer, h, w) && AllCells(layer)
    ensures ';' !in LayerText(layer)
  {
    var rs := RowTexts(layer);
    forall y | 0 <= y < h ensures ';' !in rs[y] {
      forall x | 0 <= x < w ensures ';' !in layer[y][x] {
        PieceFree(layer[y][x]);
      }
      JoinFreeOf(layer[y], ',', ';');
    }
    JoinFreeOf(rs, '\n', ';');
  }

  // Layers at least two cells wide: every row holds a ',', so strip()
  // can only take the space of a blank label at the very start or end.

  /** The space a blank label contributes, and what is left without it. */
  function Lead(c: string): string
  {
    if c == Blank then Blank else []
  }

  function Bare(c: string): string
  {
    if c == Blank then [] else c
  }

  lemma LeadBare(c: string)
    ensures Lead(c) + Bare(c) == c && Bare(c) + Lead(c) == c
  {
    assert Blank + [] == Blank && [] + Blank == Blank;
  }

  /** The pieces a wide layer's text strips down to: a blank label first
      in the first row or last in the last row loses its space. */
  function WideCore(layer: seq<seq<string>>, h: nat, w: nat): (core: seq<seq<string>>)
    requires h >= 1 && w >= 2 && LayerShaped(layer, h, w)
    ensures LayerShaped(core, h, w)
  {
    BareLast(BareFirst(layer, h, w), h, w)
  }

  function BareFirst(layer: seq<seq<string>>, h: nat, w: nat): (l: seq<seq<string>>)
    requires h >= 1 && w >= 2 && LayerShaped(layer, h, w)
    ensures LayerShaped(l, h, w) && l[h - 1][w - 1] == layer[h - 1][w - 1]
  {
    layer[0 := layer[0][0 := Bare(layer[0][0])]]
  }

  function BareLast(layer: seq<seq<string>>, h: nat, w: nat): (l: seq<seq<string>>)
    requires h >= 1 && w >= 2 && LayerShaped(layer, h, w)
    ensures LayerShaped(l, h, w) && l[0][0] == layer[0][0]
  {
    layer[h - 1 := layer[h - 1][w - 1 := Bare(layer[h - 1][w - 1])]]
  }

  /** A row of at least two pieces starts with a non-space character when
      its first piece is empty or a token, and likewise at the end. */
  lemma RowTextStart(row: seq<string>)
    requires |row| >= 2 && (row[0] == [] || IsToken(row[0]))
    ensures var s := RowText(row); s != [] && !IsSpace(s[0])
  {
    assert RowText(row) == row[0] + [','] + Join(row[1..], ',');
  }

  lemma RowTextEnd(row: seq<string>)
    requires |row| >= 2 && (row[|row| - 1] == [] || IsToken(row[|row| - 1]))
    ensures var s := RowText(row); s != [] && !IsSpace(s[|s| - 1])
  {
    var n := |row|;
    assert row[..n - 1] + [row[n - 1]] == row;
    JoinAppend(row[..n - 1], [row[n - 1]], ',');
  }

  /** The text of a wide layer is its core's text with at most one space
      before and one after. */
  lemma WideText(layer: seq<seq<string>>, h: nat, w: nat)
    requires h >= 1 && w >= 2 && LayerShaped(layer, h, w)
    ensures LayerText(layer) ==
            Lead(layer[0][0]) + LayerText(WideCore(layer, h, w)) + Lead(layer[h - 1][w - 1])
  {
    WideTextFirst(layer, h, w);
    WideTextLast(BareFirst(layer, h, w), h, w);
  }

  lemma WideTextFirst(layer: seq<seq<string>>, h: nat, w: nat)
    requires h >= 1 && w >= 2 && LayerShaped(layer, h, w)
    ensures LayerText(layer) == Lead(layer[0][0]) + LayerText(BareFirst(layer, h, w))
  {
    var c := layer[0][0];
    var r0 := layer[0][0 := Bare(c)];
    var l1 := layer[0 := r0];
    LeadBare(c);
    assert r0[0 := Lead(c) + r0[0]] == layer[0];
    JoinPrefixFirst(r0, Lead(c), ',');
    var rs, rs1 := RowTexts(layer), RowTexts(l1);
    assert rs == rs1[0 := Lead(c) + rs1[0]];
    JoinPrefixFirst(rs1, Lead(c), '\n');
  }

  lemma WideTextLast(l1: seq<seq<string>>, h: nat, w: nat)
    requires h >= 1 && w >= 2 && LayerShaped(l1, h, w)
    ensures LayerText(l1) == LayerText(BareLast(l1, h, w)) + Lead(l1[h - 1][w - 1])
  {
    var d := l1[h - 1][w - 1];
    var rl := l1[h - 1][w - 1 := Bare(d)];
    var core := l1[h - 1 := rl];
    LeadBare(d);
    assert rl[w - 1 := rl[w - 1] + Lead(d)] == l1[h - 1];
    JoinSuffixLast(rl, Lead(d), ',');
    var rs1, rsc := RowTexts(l1), RowTexts(core);
    assert rs1 == rsc[h - 1 := rsc[h - 1] + Lead(d)];
    JoinSuffixLast(rsc, Lead(d), '\n');
  }

  /** How the parser reads back a written layer at least two cells wide. */
  lemma WideLayer(layer: seq<seq<string>>, h: nat, w: nat)
    requires h >= 1 && w >= 2 && LayerShaped(layer, h, w) && AllCells(layer)
    ensures var core := WideCore(layer, h, w);
            RowsOf(LayerText(layer)) == RowTexts(core) &&
            RowsFit(RowTexts(core), h, w) && |RowTexts(core)| == h &&
            |TokensOf(RowTexts(core)[0])| == w &&
            LayerCells(RowTexts(core), h, w) == layer
  {
    var core := WideCore(layer, h, w);
    WideText(layer, h, w);
    WideCells(layer, h, w);
    WideTrimmed(layer, h, w);
    ParsesAs(layer, core, h, w, Lead(layer[0][0]), Lead(layer[h - 1][w - 1]));
  }

  /** The core holds pieces, each read as the label it replaced. */
  lemma WideCells(layer: seq<seq<string>>, h: nat, w: nat)
    requires h >= 1 && w >= 2 && LayerShaped(layer, h, w) && AllCells(layer)
    ensures var core := WideCore(layer, h, w);
            AllPieces(core) &&
            forall y, x :: 0 <= y < h && 0 <= x < w ==>
              layer[y][x] == if y < |core| then CellOf(core[y][x]) else Blank
  {
    var core := WideCore(layer, h, w);
    forall y, x | 0 <= y < h && 0 <= x < w
      ensures IsPiece(core[y][x]) && layer[y][x] == CellOf(core[y][x])
    {
      assert core[y][x] == layer[y][x] || core[y][x] == Bare(layer[y][x]);
      CellOfPiece(layer[y][x]);
      CellOfPiece(core[y][x]);
    }
  }

  /** The core's text neither starts nor ends with whitespace. */
  lemma WideTrimmed(layer: seq<seq<string>>, h: nat, w: nat)
    requires h >= 1 && w >= 2 && LayerShaped(layer, h, w) && AllCells(layer)
    ensures Trimmed(LayerText(WideCore(layer, h, w)))
  {
    var core := WideCore(layer, h, w);
    assert core[0][0] == Bare(layer[0][0]);
    assert core[h - 1][w - 1] == Bare(layer[h - 1][w - 1]);
    RowTextStart(core[0]);
    RowTextEnd(core[h - 1]);
    var rs := RowTexts(core);
    var text := LayerText(core);
    JoinEndsWith(rs, '\n');
    assert text[0] == rs[0][0];
    assert text[|text| - 1] == rs[h - 1][|rs[h - 1]| - 1];
  }

  // Layers one cell wide: a blank row is all whitespace, so strip()
  // removes whole blank rows at either end of the layer.

  /** The number of rows up to the last whose label is not blank. */
  function Extent(layer: seq<seq<string>>): (j: nat)
    requires forall y :: 0 <= y < |layer| ==> |layer[y]| >= 1
    ensures j <= |layer|
    ensures forall y :: j <= y < |layer| ==> layer[y][0] == Blank
    ensures j > 0 ==> layer[j - 1][0] != Blank
    decreases |layer|
  {
    if layer == [] then 0
    else if layer[|layer| - 1][0] != Blank then |layer|
    else Extent(layer[..|layer| - 1])
  }

  /** The rows a one-column layer's text strips down to. */
  function ColumnCore(layer: seq<seq<string>>): (core: seq<seq<string>>)
    requires forall y :: 0 <= y < |layer| ==> |layer[y]| == 1
    ensures |core| >= 1 && forall y :: 0 <= y < |core| ==> |core[y]| == 1
  {
    if Extent(layer) == 0 then [[[]]] else layer[..Extent(layer)]
  }

  /** A one-column layer's rows are written as their labels. */
  lemma ColumnTexts(layer: seq<seq<string>>)
    requires forall y :: 0 <= y < |layer| ==> |layer[y]| == 1
    ensures forall y :: 0 <= y < |layer| ==> RowTexts(layer)[y] == layer[y][0]
  {
    forall y | 0 <= y < |layer| ensures RowTexts(layer)[y] == layer[y][0] {
      assert layer[y] == [layer[y][0]];
    }
  }

  /** A blank one-column layer is all whitespace and reads back as blank. */
  lemma ColumnBlank(layer: seq<seq<string>>, h: nat)
    requires h >= 1 && LayerShaped(layer, h, 1) && Extent(layer) == 0
    ensures AllBlank(layer)
    ensures var core := ColumnCore(layer);
            RowsOf(LayerText(layer)) == RowTexts(core) &&
            RowsFit(RowTexts(core), h, 1) && |RowTexts(core)| == 1 &&
            |TokensOf(RowTexts(core)[0])| == 1 &&
            LayerCells(RowTexts(core), h, 1) == layer
  {
    var core := ColumnCore(layer);
    ColumnTexts(layer);
    JoinAllSpace(RowTexts(layer), '\n');
    assert LayerText(core) == [] by {
      assert RowTexts(core) == [[]];
    }
    assert LayerText(layer) == LayerText(layer) + LayerText(core) + [];
    ParsesAs(layer, core, h, 1, LayerText(layer), []);
  }

  /** A one-column layer that starts with a label reads back from its
      rows up to the last label; strip() removes the blank rows after it. */
  lemma ColumnFilled(layer: seq<seq<string>>, h: nat)
    requires h >= 1 && LayerShaped(layer, h, 1) && AllCells(layer)
    requires layer[0][0] != Blank
    ensures var core := ColumnCore(layer);
            RowsOf(LayerText(layer)) == RowTexts(core) &&
            RowsFit(RowTexts(core), h, 1) && |RowTexts(core)| == Extent(layer) &&
            |TokensOf(RowTexts(core)[0])| == 1 &&
            LayerCells(RowTexts(core), h, 1) == layer
  {
    var j := Extent(layer);
    var core := ColumnCore(layer);
    assert core == layer[..j];
    forall y, x | 0 <= y < h && 0 <= x < 1
      ensures layer[y][x] == if y < |core| then CellOf(core[y][x]) else Blank
    {
      if y < j { CellOfPiece(layer[y][0]); }
    }
    var suf := ColumnFilledText(layer, h);
    ParsesAs(layer, core, h, 1, [], suf);
  }

  /** The text of such a layer is its rows up to the last label, trimmed,
      followed by whitespace. */
  lemma ColumnFilledText(layer: seq<seq<string>>, h: nat) returns (suf: string)
    requires h >= 1 && LayerShaped(layer, h, 1) && AllCells(layer)
    requires layer[0][0] != Blank
    ensures var core := ColumnCore(layer);
            AllSpace(suf) && Trimmed(LayerText(core)) &&
            LayerText(layer) == [] + LayerText(core) + suf
  {
    var j := Extent(layer);
    var core := ColumnCore(layer);
    var rs := RowTexts(layer);
    ColumnTexts(layer);
    assert core == layer[..j];
    assert RowTexts(core) == rs[..j];
    JoinTrimmed(rs[..j], '\n');
    if j == h {
      assert rs[..j] == rs;
      suf := [];
    } else {
      suf := ['\n'] + Join(rs[j..], '\n');
      assert rs == rs[..j] + rs[j..];
      JoinRowsAppend(rs[..j], rs[j..]);
      BlankRows(rs[j..]);
    }
  }

  /** The rows of head, then a line break, then the rows of tail. */
  lemma JoinRowsAppend(head: seq<string>, tail: seq<string>)
    requires |head| >= 1 && |tail| >= 1
    ensures Join(head + tail, '\n') == Join(head, '\n') + (['\n'] + Join(tail, '\n'))
  {
    JoinAppend(head, tail, '\n');
  }

  /** A line break followed by blank rows is whitespace. */
  lemma BlankRows(tail: seq<string>)
    requires |tail| >= 1 && forall k :: 0 <= k < |tail| ==> tail[k] == Blank
    ensures AllSpace(['\n'] + Join(tail, '\n'))
  {
    assert AllSpace(Blank) by {
      assert Blank[0] == ' ';
    }
    JoinAllSpace(tail, '\n');
    var t := Join(tail, '\n');
    forall i | 0 <= i < |t| + 1 ensures IsSpace((['\n'] + t)[i]) {
      if i > 0 {
        assert (['\n'] + t)[i] == t[i - 1];
      }
    }
  }

  /** How the parser reads back a layer of a canonical grid. */
  lemma LayerRead(layer: seq<seq<string>>, h: nat, w: nat)
    requires h >= 1 && w >= 1 && LayerShaped(layer, h, w) && AllCells(layer)
    requires w == 1 ==> AllBlank(layer) || layer[0][0] != Blank
    ensures var rows := RowsOf(LayerText(layer));
            ';' !in LayerText(layer) && 1 <= |rows| &&
            RowsFit(rows, h, w) && |TokensOf(rows[0])| == w &&
            LayerCells(rows, h, w) == layer &&
            (w >= 2 ==> |rows| == h) &&
            (w == 1 ==> |rows| == if AllBlank(layer) then 1 else Extent(layer))
  {
    LayerTextFree(layer, h, w);
    if w >= 2 {
      WideLayer(layer, h, w);
    } else if Extent(layer) == 0 {
      ColumnBlank(layer, h);
    } else {
      assert !AllBlank(layer);
      ColumnFilled(layer, h);
    }
  }

  // The round trip

  /** A canonical grid, written out and parsed back, is itself. */
  lemma CanonicalRoundTrip(g: Grid)
    requires Canonical(g)
    ensures LoadsSpec(Serialize(g)) == Ok(g)
  {
    var text := Serialize(g);
    var ls := LayerTexts(g);
    var h, w := |g[0]|, |g[0][0]|;
    SerializedLayers(g);
    SerializedExtents(g);
    forall t | 0 <= t < |g|
      ensures LayerFits(ls[t], h, w) && LayerCells(RowsOf(ls[t]), h, w) == g[t]
    {
      LayerRead(g[t], h, w);
    }
    LoadsFromLayers(text, g, h, w);
  }

  /** The text's ';'-sections are the written layers. */
  lemma SerializedLayers(g: Grid)
    requires Canonical(g)
    ensures Layers(Serialize(g)) == LayerTexts(g)
  {
    var ls := LayerTexts(g);
    forall t | 0 <= t < |g| ensures ';' !in ls[t] {
      LayerTextFree(g[t], |g[0]|, |g[0][0]|);
    }
    SplitJoin(ls, ';');
  }

  /** The first written layer fixes the grid's own height and width. */
  lemma SerializedExtents(g: Grid)
    requires Canonical(g)
    ensures Height(Serialize(g)) == |g[0]| && Width(Serialize(g)) == |g[0][0]|
  {
    var h, w := |g[0]|, |g[0][0]|;
    SerializedLayers(g);
    assert Layers(Serialize(g))[0] == LayerText(g[0]);
    LayerRead(g[0], h, w);
    if w == 1 && !AllBlank(g[0]) {
      assert Extent(g[0]) == h;
    }
  }

  /** A text each of whose layers fits the first layer's extents and
      reads back as the matching layer of g loads to g. */
  lemma LoadsFromLayers(text: string, g: Grid, h: nat, w: nat)
    requires |Layers(text)| == |g| && Height(text) == h && Width(text) == w
    requires forall t :: 0 <= t < |g| ==>
               LayerFits(Layers(text)[t], h, w) && LayerCells(RowsOf(Layers(text)[t]), h, w) == g[t]
    ensures LoadsSpec(text) == Ok(g)
  {
    var e := Expected(text);
    forall t | 0 <= t < |g| ensures e[t] == g[t] {
    }
  }

  // Every parsed grid is canonical

  /** Tokens hold none of the three delimiters. */
  lemma TokenFree(text: string, t: nat, y: nat, x: nat)
    requires t < |Layers(text)| && y < |RowsOf(Layers(text)[t])|
    requires x < |TokensOf(RowsOf(Layers(text)[t])[y])|
    ensures var tok := TokensOf(RowsOf(Layers(text)[t])[y])[x];
            ';' !in tok && '\n' !in tok && ',' !in tok
  {
    var layer := Layers(text)[t];
    SplitFreeOf(text, ';');
    StripFreeOf(layer, ';');
    var s := Strip(layer);
    SplitFreeOf(s, '\n');
    SplitKeepsFree(s, '\n', ';');
    var row := RowsOf(layer)[y];
    SplitFreeOf(row, ',');
    SplitKeepsFree(row, ',', ';');
    SplitKeepsFree(row, ',', '\n');
  }

  /** Every cell of a parsed grid is a label. */
  lemma ParsedCell(text: string, t: nat, y: nat, x: nat)
    requires LoadsSpec(text).Ok?
    requires t < Depth(text) && y < Height(text) && x < Width(text)
    ensures IsCell(LoadsSpec(text).grid[t][y][x])
  {
    LoadsCell(text, t, y, x);
    var rows := RowsOf(Layers(text)[t]);
    if y < |rows| && x < |TokensOf(rows[y])| {
      var tok := TokensOf(rows[y])[x];
      TokenFree(text, t, y, x);
      StripFreeOf(tok, ';');
      StripFreeOf(tok, '\n');
      StripFreeOf(tok, ',');
      StripIsTrimmed(tok);
    }
  }

  /** In a one-column grid, a row with a non-space character at one end
      holds a label. */
  lemma ColumnRowLabel(text: string, t: nat, y: nat)
    requires LoadsSpec(text).Ok? && Width(text) == 1 && t < Depth(text)
    requires y < |RowsOf(Layers(text)[t])|
    requires var row := RowsOf(Layers(text)[t])[y];
             row != [] && (!IsSpace(row[0]) || !IsSpace(row[|row| - 1]))
    ensures y < Height(text) && LoadsSpec(text).grid[t][y][0] != Blank
  {
    var row := RowsOf(Layers(text)[t])[y];
    assert LayerFits(Layers(text)[t], Height(text), 1);
    SplitSingle(row, ',');
    LoadsCell(text, t, y, 0);
    StripEmpty(row);
    StripIsTrimmed(row);
  }

  /** In a one-column grid each layer is blank or starts with a label;
      a layer that is not blank also ends with one, and a blank one is a
      single row. */
  lemma ColumnEdges(text: string, t: nat)
    requires LoadsSpec(text).Ok? && Width(text) == 1 && t < Depth(text)
    ensures var g := LoadsSpec(text).grid; var rows := RowsOf(Layers(text)[t]);
            1 <= |rows| <= Height(text) &&
            (AllBlank(g[t]) ==> |rows| == 1) &&
            (!AllBlank(g[t]) ==> g[t][0][0] != Blank && g[t][|rows| - 1][0] != Blank)
  {
    var layer := Layers(text)[t];
    assert LayerFits(layer, Height(text), 1);
    if Strip(layer) == [] {
      BlankColumnLayer(text, t);
    } else {
      FilledColumnLayer(text, t);
    }
  }

  /** A layer that strips to nothing is one blank row. */
  lemma BlankColumnLayer(text: string, t: nat)
    requires LoadsSpec(text).Ok? && t < Depth(text) && Strip(Layers(text)[t]) == []
    ensures RowsOf(Layers(text)[t]) == [[]] && AllBlank(LoadsSpec(text).grid[t])
  {
    var g := LoadsSpec(text).grid;
    forall y, x | 0 <= y < |g[t]| && 0 <= x < |g[t][y]| ensures g[t][y][x] == Blank {
      LoadsCell(text, t, y, x);
    }
  }

  /** In a one-column grid, a layer that does not strip to nothing has a
      label in its first row and in its last. */
  lemma FilledColumnLayer(text: string, t: nat)
    requires LoadsSpec(text).Ok? && Width(text) == 1 && t < Depth(text)
    requires Strip(Layers(text)[t]) != []
    ensures var g := LoadsSpec(text).grid; var rows := RowsOf(Layers(text)[t]);
            g[t][0][0] != Blank && |rows| <= Height(text) && g[t][|rows| - 1][0] != Blank
  {
    var layer := Layers(text)[t];
    var rows := RowsOf(layer);
    RowEnds(layer, rows);
    ColumnRowLabel(text, t, 0);
    ColumnRowLabel(text, t, |rows| - 1);
  }

  /** A layer that does not strip to nothing has a first row starting,
      and a last row ending, with a character other than whitespace. */
  lemma RowEnds(layer: string, rows: seq<string>)
    requires Strip(layer) != [] && rows == RowsOf(layer)
    ensures rows[0] != [] && !IsSpace(rows[0][0])
    ensures rows[|rows| - 1] != [] && !IsSpace(rows[|rows| - 1][|rows[|rows| - 1]| - 1])
  {
    var s := Strip(layer);
    StripIsTrimmed(layer);
    SplitFirst(s, '\n');
    SplitLast(s, '\n', rows);
  }

  /** Every grid `loads` returns is canonical. */
  lemma ParsedIsCanonical(text: string)
    requires LoadsSpec(text).Ok?
    ensures Canonical(LoadsSpec(text).grid)
  {
    ParsedLabels(text);
    if Width(text) == 1 {
      ParsedColumns(text);
    }
  }

  lemma ParsedLabels(text: string)
    requires LoadsSpec(text).Ok?
    ensures var g := LoadsSpec(text).grid;
            Rectangular(g) && |g[0]| == Height(text) && |g[0][0]| == Width(text) &&
            forall t :: 0 <= t < |g| ==> AllCells(g[t])
  {
    var g := LoadsSpec(text).grid;
    LoadsRectangular(text);
    forall t, y, x | 0 <= t < |g| && 0 <= y < |g[t]| && 0 <= x < |g[t][y]|
      ensures IsCell(g[t][y][x])
    {
      ParsedCell(text, t, y, x);
    }
  }

  /** The clause of Canonical for a one-column grid. */
  lemma ParsedColumns(text: string)
    requires LoadsSpec(text).Ok? && Width(text) == 1
    ensures var g := LoadsSpec(text).grid;
            Rectangular(g) &&
            (forall t :: 0 <= t < |g| ==> AllBlank(g[t]) || g[t][0][0] != Blank) &&
            (if AllBlank(g[0]) then |g[0]| == 1 else g[0][|g[0]| - 1][0] != Blank)
  {
    var g := LoadsSpec(text).grid;
    LoadsRectangular(text);
    forall t | 0 <= t < |g| ensures AllBlank(g[t]) || g[t][0][0] != Blank {
      ColumnEdges(text, t);
    }
    ColumnEdges(text, 0);
  }

  /** Writing any grid `loads` returned and loading it again gives the
      same grid: the format is closed under the round trip. */
  lemma ReserializeParsed(text: string)
    requires LoadsSpec(text).Ok?
    ensures Rectangular(LoadsSpec(text).grid)
    ensures LoadsSpec(Serialize(LoadsSpec(text).grid)) == LoadsSpec(text)
  {
    ParsedIsCanonical(text);
    CanonicalRoundTrip(LoadsSpec(text).grid);
  }

  /** Round trip: a grid of tokens, written out and parsed back, is itself. */
  lemma RoundTrip(g: Grid)
    requires WellFormed(g)
    ensures LoadsSpec(Serialize(g)) == Ok(g)
  {
    forall t | 0 <= t < |g| ensures AllCells(g[t]) {
    }
    assert !AllBlank(g[0]) by {
      assert IsToken(g[0][0][0]);
    }
    CanonicalRoundTrip(g);
  }

  /** The two-by-two example: "a,b\nc,d" is one layer with rows ["a","b"] and ["c","d"]. */
  lemma LoadsTwoByTwo()
    ensures LoadsSpec("a,b\nc,d") == Ok([[["a", "b"], ["c", "d"]]])
  {
    var g: Grid := [[["a", "b"], ["c", "d"]]];
    assert WellFormed(g);
    assert ["a", "b"][1..] == ["b"] && ["c", "d"][1..] == ["d"];
    assert RowText(["a", "b"]) == "a,b" && RowText(["c", "d"]) == "c,d";
    assert RowTexts(g[0]) == ["a,b", "c,d"];
    assert ["a,b", "c,d"][1..] == ["c,d"];
    assert Serialize(g) == "a,b\nc,d";
    RoundTrip(g);
  }
}
