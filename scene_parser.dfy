/** The scene-file parser `loads` of terminator.py: text with layers split on
    ';', rows on '\n' and cells on ',' becomes a grid indexed
    [layer][row][column]. The grid's three extents are fixed once, when the
    first row of the first layer is reached; later, shorter rows and layers
    leave blank padding, and later, longer ones index out of range. */
module SceneParser {
  import opened Text

  type Grid = seq<seq<seq<string>>>

  /** The label of a cell with nothing in it. */
  const Blank: string := " "

  /** Python raises IndexError when a later row or layer is longer than the
      extents fixed at allocation. */
  datatype ParseError = IndexError

  datatype ParseResult = Ok(grid: Grid) | Err(error: ParseError)

  function Layers(text: string): seq<string>
  {
    Split(text, ';')
  }

  /** A layer section is stripped as a whole before it is split into rows. */
  function RowsOf(layer: string): seq<string>
  {
    Split(Strip(layer), '\n')
  }

  /** A row is split on ',' without being stripped first. */
  function TokensOf(row: string): seq<string>
  {
    Split(row, ',')
  }

  /** Every token is stripped; one that strips to "" becomes the blank label. */
  function CellOf(token: string): (c: string)
    ensures c != []
    ensures Strip(token) != [] ==> c == Strip(token)
    ensures Strip(token) == [] ==> c == Blank
  {
    var b := Strip(token);
    if b != [] then b else Blank
  }

  /** The extents fixed at allocation: the number of layers, the row count of
      the first layer and the token count of its first row. */
  function Depth(text: string): nat
  {
    |Layers(text)|
  }

  function Height(text: string): nat
  {
    |RowsOf(Layers(text)[0])|
  }

  function Width(text: string): nat
  {
    |TokensOf(RowsOf(Layers(text)[0])[0])|
  }

  /** Rows that write only inside an h-by-w footprint. */
  predicate RowsFit(rows: seq<string>, h: nat, w: nat)
  {
    |rows| <= h && forall j :: 0 <= j < |rows| ==> |TokensOf(rows[j])| <= w
  }

  predicate LayerFits(layer: string, h: nat, w: nat)
  {
    RowsFit(RowsOf(layer), h, w)
  }

  /** No layer writes outside the allocated grid. */
  predicate Fits(text: string)
  {
    var layers := Layers(text);
    forall t :: 0 <= t < |layers| ==> LayerFits(layers[t], Height(text), Width(text))
  }

  /** Row y of a layer once written: the cell of each token, then blank
      padding up to the allocated width w. */
  function RowCells(tokens: seq<string>, w: nat): (r: seq<string>)
    ensures |r| == w
  {
    seq(w, x requires 0 <= x < w => if x < |tokens| then CellOf(tokens[x]) else Blank)
  }

  /** A layer once written: its rows, then blank rows up to the allocated height h. */
  function LayerCells(rows: seq<string>, h: nat, w: nat): (l: seq<seq<string>>)
    ensures |l| == h && forall y :: 0 <= y < h ==> |l[y]| == w
  {
    var l := seq(h, y requires 0 <= y < h => RowCells(if y < |rows| then TokensOf(rows[y]) else [], w));
    assert forall y :: 0 <= y < h ==> l[y] == RowCells(if y < |rows| then TokensOf(rows[y]) else [], w);
    l
  }

  /** The grid `loads` builds when nothing is out of range. */
  function Expected(text: string): (g: Grid)
    ensures Shaped(g, Depth(text), Height(text), Width(text))
  {
    var layers, h, w := Layers(text), Height(text), Width(text);
    seq(|layers|, t requires 0 <= t < |layers| => LayerCells(RowsOf(layers[t]), h, w))
  }

  /** The outcome of `loads`: the grid, or IndexError when some later row or
      layer is longer than the first. */
  function LoadsSpec(text: string): ParseResult
  {
    if Fits(text) then Ok(Expected(text)) else Err(IndexError)
  }

  /** The grid as allocated: every cell blank. */
  function BlankGrid(d: nat, h: nat, w: nat): (g: Grid)
    ensures Shaped(g, d, h, w)
    ensures forall t, y, x :: 0 <= t < d && 0 <= y < h && 0 <= x < w ==> g[t][y][x] == Blank
  {
    seq(d, _ => seq(h, _ => seq(w, _ => Blank)))
  }

  ghost predicate Shaped(g: Grid, d: nat, h: nat, w: nat)
  {
    |g| == d &&
    (forall t :: 0 <= t < d ==> |g[t]| == h) &&
    (forall t, y :: 0 <= t < d && 0 <= y < h ==> |g[t][y]| == w)
  }

  ghost predicate SameShape(a: Grid, e: Grid)
  {
    |a| == |e| &&
    (forall i :: 0 <= i < |a| ==> |a[i]| == |e[i]|) &&
    (forall i, j :: 0 <= i < |a| && 0 <= j < |a[i]| ==> |a[i][j]| == |e[i][j]|)
  }

  /** Cell (i, j, k) is visited before cell (t, y, x) in the parser's order. */
  predicate Before(i: nat, j: nat, k: nat, t: nat, y: nat, x: nat)
  {
    i < t || (i == t && (j < y || (j == y && k < x)))
  }

  /** The grid after the parser has visited every cell before (t, y, x):
      those hold their final value in e, all others are still blank. */
  ghost predicate WrittenUpTo(a: Grid, e: Grid, t: nat, y: nat, x: nat)
  {
    SameShape(a, e) &&
    forall i, j, k :: 0 <= i < |a| && 0 <= j < |a[i]| && 0 <= k < |a[i][j]| ==>
      a[i][j][k] == if Before(i, j, k, t, y, x) then e[i][j][k] else Blank
  }

  /** `loads`: the same three nested loops, the same one-shot allocation flag
      and the same cell-by-cell writes into the grid as the source; the loop over the rows of
      a layer is WriteLayer and the loop over the tokens of a row WriteRow. */
  method Loads(texts: string) returns (r: ParseResult)
    ensures r == LoadsSpec(texts)
  {
    ghost var d, h, w := Depth(texts), Height(texts), Width(texts);
    ghost var e := Expected(texts);
    var unallocated := true;
    var a: Grid := [];
    var layers := Layers(texts);
    var zi := |layers|;
    var t := 0;
    while t < zi
      invariant 0 <= t <= zi == d
      invariant unallocated <==> t == 0
      invariant unallocated ==> a == []
      invariant !unallocated ==> WrittenUpTo(a, e, t, 0, 0)
      invariant forall i :: 0 <= i < t ==> LayerFits(layers[i], h, w)
    {
      var rows := RowsOf(layers[t]);
      var fits;
      a, unallocated, fits := WriteLayer(a, unallocated, e, h, w, zi, t, rows);
      if !fits {
        return Err(IndexError);
      }
      t := t + 1;
    }
    WrittenIsExpected(a, e);
    return Ok(a);
  }

  /** The loop of `loads` over the rows of layer t. On the first row of the
      first layer it allocates the blank grid, h rows by w columns in every
      layer; it stops with fits == false where Python raises IndexError. */
  method WriteLayer(a: Grid, unallocated: bool, ghost e: Grid, ghost h: nat, ghost w: nat,
                    zi: nat, t: nat, rows: seq<string>)
    returns (a': Grid, unallocated': bool, fits: bool)
    requires Shaped(e, zi, h, w) && |rows| >= 1 && t < zi && e[t] == LayerCells(rows, h, w)
    requires unallocated ==> a == [] && t == 0 && h == |rows| && w == |TokensOf(rows[0])|
    requires !unallocated ==> WrittenUpTo(a, e, t, 0, 0)
    ensures !unallocated'
    ensures fits <==> RowsFit(rows, h, w)
    ensures fits ==> WrittenUpTo(a', e, t + 1, 0, 0)
  {
    a', unallocated' := a, unallocated;
    var yi := |rows|;
    var y := 0;
    while y < yi
      invariant 0 <= y <= yi
      invariant unallocated' <==> y == 0 && unallocated
      invariant unallocated' ==> a' == []
      invariant !unallocated' ==> WrittenUpTo(a', e, t, y, 0)
      invariant y <= h
      invariant forall j :: 0 <= j < y ==> |TokensOf(rows[j])| <= w
    {
      var tokens := TokensOf(rows[y]);
      var xi := |tokens|;
      if unallocated' {
        a' := BlankGrid(zi, yi, xi);
        unallocated' := false;
        BlankIsUnwritten(a', e);
      }
      var rowFits;
      a', rowFits := WriteRow(a', e, t, y, tokens);
      if !rowFits {
        return a', unallocated', false;
      }
      y := y + 1;
    }
    forall j, k | yi <= j < h && 0 <= k < w ensures e[t][j][k] == Blank {
      assert e[t][j] == RowCells([], w);
    }
    LayerDone(a', e, t, yi);
    fits := true;
  }

  /** The inner loop of `loads` over the tokens of row y of layer t: it
      writes each token's cell into the grid and stops with fits == false where
      Python raises IndexError. */
  method WriteRow(a: Grid, ghost e: Grid, t: nat, y: nat, tokens: seq<string>)
    returns (a': Grid, fits: bool)
    requires WrittenUpTo(a, e, t, y, 0) && t < |a| && |tokens| >= 1
    requires y < |a[t]| ==> e[t][y] == RowCells(tokens, |a[t][y]|)
    ensures fits <==> y < |a[t]| && |tokens| <= |a[t][y]|
    ensures fits ==> WrittenUpTo(a', e, t, y + 1, 0)
  {
    a' := a;
    var xi := |tokens|;
    var x := 0;
    while x < xi
      invariant 0 <= x <= xi
      invariant WrittenUpTo(a', e, t, y, x)
      invariant x > 0 ==> y < |a[t]| && x <= |a[t][y]|
    {
      var b := Strip(tokens[x]);
      if y >= |a'[t]| || x >= |a'[t][y]| {
        return a', false;
      }
      ghost var before := a';
      a' := a'[t := a'[t][y := a'[t][y][x := if b != [] then b else Blank]]];
      WriteCell(before, a', e, t, y, x);
      x := x + 1;
    }
    RowDone(a', e, t, y, xi);
    fits := true;
  }

  /** The freshly allocated grid: nothing written yet. */
  lemma BlankIsUnwritten(a: Grid, e: Grid)
    requires SameShape(a, e)
    requires forall i, j, k :: 0 <= i < |a| && 0 <= j < |a[i]| && 0 <= k < |a[i][j]| ==> a[i][j][k] == Blank
    ensures WrittenUpTo(a, e, 0, 0, 0)
  {
  }

  /** Writing e's value at (t, y, x) advances the parser by one cell. */
  lemma WriteCell(a: Grid, a': Grid, e: Grid, t: nat, y: nat, x: nat)
    requires WrittenUpTo(a, e, t, y, x)
    requires t < |a| && y < |a[t]| && x < |a[t][y]|
    requires a' == a[t := a[t][y := a[t][y][x := e[t][y][x]]]]
    ensures WrittenUpTo(a', e, t, y, x + 1)
  {
    assert SameShape(a', e);
    forall i, j, k | 0 <= i < |a'| && 0 <= j < |a'[i]| && 0 <= k < |a'[i][j]|
      ensures a'[i][j][k] == if Before(i, j, k, t, y, x + 1) then e[i][j][k] else Blank
    {
      if i != t || j != y || k != x {
        assert a'[i][j][k] == a[i][j][k];
      }
    }
  }

  /** After the last token of row y the parser moves to row y + 1: the
      cells past the row's end are blank padding. */
  lemma RowDone(a: Grid, e: Grid, t: nat, y: nat, n: nat)
    requires WrittenUpTo(a, e, t, y, n)
    requires t < |a| && y < |a[t]| ==> forall k :: n <= k < |a[t][y]| ==> e[t][y][k] == Blank
    ensures WrittenUpTo(a, e, t, y + 1, 0)
  {
  }

  /** After the last row of layer t the parser moves to layer t + 1. */
  lemma LayerDone(a: Grid, e: Grid, t: nat, n: nat)
    requires WrittenUpTo(a, e, t, n, 0)
    requires t < |a| ==> forall j, k :: n <= j < |a[t]| && 0 <= k < |a[t][j]| ==> e[t][j][k] == Blank
    ensures WrittenUpTo(a, e, t + 1, 0, 0)
  {
  }

  /** Once every cell has been visited the grid is e. */
  lemma WrittenIsExpected(a: Grid, e: Grid)
    requires WrittenUpTo(a, e, |a|, 0, 0)
    ensures a == e
  {
    forall i | 0 <= i < |a| ensures a[i] == e[i] {
      forall j | 0 <= j < |a[i]| ensures a[i][j] == e[i][j] {
      }
    }
  }

  // Properties of the grid `loads` returns

  /** One layer per ';'-separated section, and never zero layers. */
  lemma LoadsLayerCount(text: string)
    requires LoadsSpec(text).Ok?
    ensures |LoadsSpec(text).grid| == |Split(text, ';')| >= 1
  {
  }

  /** All extents are those fixed at allocation: every layer has the first
      layer's row count and every row the first row's token count. */
  lemma LoadsRectangular(text: string)
    requires LoadsSpec(text).Ok?
    ensures var g := LoadsSpec(text).grid;
            Height(text) >= 1 && Width(text) >= 1 &&
            (forall t :: 0 <= t < |g| ==> |g[t]| == Height(text)) &&
            (forall t, y :: 0 <= t < |g| && 0 <= y < |g[t]| ==> |g[t][y]| == Width(text))
  {
  }

  /** Each cell is its stripped token, the blank label for a token that
      strips to "", and blank padding where a later row or layer is shorter;
      no cell is ever the empty string. */
  lemma LoadsCell(text: string, t: nat, y: nat, x: nat)
    requires LoadsSpec(text).Ok?
    requires t < Depth(text) && y < Height(text) && x < Width(text)
    ensures var c := LoadsSpec(text).grid[t][y][x];
            var rows := RowsOf(Layers(text)[t]);
            c != [] &&
            (y < |rows| && x < |TokensOf(rows[y])| ==>
               var b := Strip(TokensOf(rows[y])[x]); c == if b != [] then b else Blank) &&
            (!(y < |rows| && x < |TokensOf(rows[y])|) ==> c == Blank)
  {
    var rows := RowsOf(Layers(text)[t]);
    var e := Expected(text);
    assert e[t] == LayerCells(rows, Height(text), Width(text));
    assert e[t][y] == RowCells(if y < |rows| then TokensOf(rows[y]) else [], Width(text));
  }

  /** `loads` fails exactly when a later layer has more rows than the first,
      or some row has more tokens than the first row of the first layer. */
  lemma LoadsError(text: string)
    ensures LoadsSpec(text).Err? <==>
      exists t :: 0 <= t < Depth(text) &&
        (|RowsOf(Layers(text)[t])| > Height(text) ||
         exists y :: 0 <= y < |RowsOf(Layers(text)[t])| &&
           |TokensOf(RowsOf(Layers(text)[t])[y])| > Width(text))
  {
  }

  /** The empty text is one layer of one row of one blank cell, not an error. */
  lemma LoadsEmptyText()
    ensures LoadsSpec("") == Ok([[[Blank]]])
  {
    assert Layers("") == [""];
    assert StripLeft("") == "";
    assert RowsOf("") == [""];
    assert TokensOf("") == [""];
    assert Strip("") == "";
    var e := Expected("");
    assert Height("") == 1 && Width("") == 1;
    assert |e| == 1 && |e[0]| == 1 && |e[0][0]| == 1;
    assert e[0][0][0] == Blank;
    assert e[0][0] == [Blank];
    assert e[0] == [[Blank]];
    assert e == [[[Blank]]];
  }

  /** Tokens that strip to "" become the blank label, not an error:
      "x, \n ,y" is [[["x", " "], [" ", "y"]]]. */
  lemma LoadsBlankTokens()
    ensures LoadsSpec("x, \n ,y") == Ok([[["x", Blank], [Blank, "y"]]])
  {
    TwoTokens("x, ", "x", " ");
    TwoTokens(" ,y", " ", "y");
    TwoRows("x, \n ,y", "x, ", " ,y");
    TwoByTwo("x, \n ,y", "x, ", " ,y", "x", " ", " ", "y");
    SampleCells();
  }

  lemma SampleCells()
    ensures CellOf(" ") == Blank && CellOf("x") == "x" && CellOf("y") == "y"
  {
    assert StripLeft(" ") == [];
    StripTrimmed("x");
    StripTrimmed("y");
  }

  /** One layer of two rows of two tokens loads to the cells of those tokens. */
  lemma TwoByTwo(text: string, r0: string, r1: string, a: string, b: string, c: string, d: string)
    requires Layers(text) == [text] && RowsOf(text) == [r0, r1]
    requires TokensOf(r0) == [a, b] && TokensOf(r1) == [c, d]
    ensures LoadsSpec(text) == Ok([[[CellOf(a), CellOf(b)], [CellOf(c), CellOf(d)]]])
  {
    var rows := [r0, r1];
    assert RowsFit(rows, 2, 2);
    OneLayerRows(text, rows);
    var l := LayerCells(rows, 2, 2);
    TwoCells(a, b);
    TwoCells(c, d);
    PairIs(l, [CellOf(a), CellOf(b)], [CellOf(c), CellOf(d)]);
  }

  lemma PairIs(l: seq<seq<string>>, p: seq<string>, q: seq<string>)
    requires |l| == 2 && l[0] == p && l[1] == q
    ensures l == [p, q]
  {
  }

  /** A text of two rows and no ';' is one layer of those two rows. */
  lemma TwoRows(text: string, r0: string, r1: string)
    requires text == r0 + "\n" + r1
    requires ';' !in r0 && ';' !in r1 && '\n' !in r0 && '\n' !in r1
    requires r0 != [] && !IsSpace(r0[0]) && r1 != [] && !IsSpace(r1[|r1| - 1])
    ensures Layers(text) == [text] && RowsOf(text) == [r0, r1]
  {
    assert ';' !in text;
    SplitJoin([text], ';');
    assert text[0] == r0[0] && text[|text| - 1] == r1[|r1| - 1];
    StripTrimmed(text);
    assert Join([r0, r1], '\n') == text by {
      assert [r0, r1][1..] == [r1];
    }
    SplitJoin([r0, r1], '\n');
  }

  lemma TwoCells(a: string, b: string)
    ensures RowCells([a, b], 2) == [CellOf(a), CellOf(b)]
  {
    var r := RowCells([a, b], 2);
    assert r[0] == CellOf(a) && r[1] == CellOf(b);
  }

  /** A one-layer text whose rows fit the first row loads to that layer. */
  lemma OneLayerRows(text: string, rows: seq<string>)
    requires Layers(text) == [text] && RowsOf(text) == rows && |rows| >= 1
    requires RowsFit(rows, |rows|, |TokensOf(rows[0])|)
    ensures LoadsSpec(text) == Ok([LayerCells(rows, |rows|, |TokensOf(rows[0])|)])
  {
    OneLayer(text);
  }

  /** A text without ';' is one layer; it loads when its rows fit. */
  lemma OneLayer(text: string)
    requires Layers(text) == [text]
    ensures LoadsSpec(text) ==
      if RowsFit(RowsOf(text), Height(text), Width(text))
      then Ok([LayerCells(RowsOf(text), Height(text), Width(text))])
      else Err(IndexError)
  {
    var e := Expected(text);
    assert e == [e[0]];
  }

  /** A row of two comma-free tokens splits into those two. */
  lemma TwoTokens(row: string, a: string, b: string)
    requires row == a + "," + b && ',' !in a && ',' !in b
    ensures TokensOf(row) == [a, b]
  {
    assert Join([a, b], ',') == row by {
      assert [a, b][1..] == [b];
    }
    SplitJoin([a, b], ',');
  }
}
