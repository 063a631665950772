/**
  The canvas: a width × height grid of RGBA colours, indexed by column `x`
  and row `y` as Go's `image.Image.At(x, y)` is. PNG decoding and encoding
  are not part of this model; a canvas stands for the decoded image.
 */
module Raster {
  import opened Common

  datatype Color = Color(r: byte, g: byte, b: byte, a: byte)

  /** The alpha of every placed pixel. */
  const Opaque: byte := 0xFF

  /** Go's `color.White`, converted to 8-bit RGBA. */
  const White := Color(0xFF, 0xFF, 0xFF, 0xFF)

  /** A grid of colours, `columns[x][y]`, with its declared dimensions. */
  datatype Grid = Grid(width: nat, height: nat, columns: seq<seq<Color>>)

  /** The declared dimensions match the stored columns. */
  predicate WellFormed(g: Grid)
  {
    && |g.columns| == g.width
    && forall x :: 0 <= x < |g.columns| ==> |g.columns[x]| == g.height
  }

  /** A decoded image: its dimensions are those of its pixel data. */
  type Canvas = g: Grid | WellFormed(g) witness Grid(0, 0, [])

  predicate InBounds(c: Canvas, x: int, y: int)
  {
    0 <= x < c.width && 0 <= y < c.height
  }

  function At(c: Canvas, x: int, y: int): Color
    requires InBounds(c, x, y)
  {
    c.columns[x][y]
  }

  /** Two canvases with the same dimensions and the same colour at every cell are the same canvas. */
  lemma {:induction false} CanvasExtensionality(c: Canvas, d: Canvas)
    requires c.width == d.width && c.height == d.height
    requires forall x, y :: InBounds(c, x, y) ==> At(c, x, y) == At(d, x, y)
    ensures c == d
  {
    forall x | 0 <= x < c.width
      ensures c.columns[x] == d.columns[x]
    {
      forall y | 0 <= y < c.height
        ensures c.columns[x][y] == d.columns[x][y]
      {
        assert At(c, x, y) == At(d, x, y);
      }
    }
  }

  /** The canvas generated when no image is cached: every pixel white. */
  function Blank(width: nat, height: nat): (c: Canvas)
    ensures c.width == width && c.height == height
    ensures forall x, y :: InBounds(c, x, y) ==> At(c, x, y) == White
  {
    Grid(width, height, seq(width, _ => seq(height, _ => White)))
  }

  /**
    The pixel loop of the blank branch of `generateBlankImage`: every column,
    then every row of it, is set to white.
   */
  method GenerateBlank(width: nat, height: nat) returns (c: Canvas)
    ensures c.width == width && c.height == height
    ensures forall x, y :: InBounds(c, x, y) ==> At(c, x, y) == White
    ensures c == Blank(width, height)
  {
    var columns: seq<seq<Color>> := [];
    for x := 0 to width
      invariant |columns| == x
      invariant forall i :: 0 <= i < x ==> |columns[i]| == height
      invariant forall i, j :: 0 <= i < x && 0 <= j < height ==> columns[i][j] == White
    {
      var column: seq<Color> := [];
      for y := 0 to height
        invariant |column| == y
        invariant forall j :: 0 <= j < y ==> column[j] == White
      {
        column := column + [White];
      }
      columns := columns + [column];
    }
    c := Grid(width, height, columns);
    CanvasExtensionality(c, Blank(width, height));
  }

  const InvalidXMessage := "Invalid x coordinate for pixel."
  const InvalidYMessage := "Invalid y coordinate for pixel."
  const PlacedMessage := "Successfully placed pixel."

  /** What `drawPixelToImage` returns, together with the canvas it leaves behind. */
  datatype DrawResult = DrawResult(message: string, status: Status, canvas: Canvas)

  /**
    `drawPixelToImage`: reject an x outside [0, width), then a y outside
    [0, height), leaving the canvas as it was; otherwise rebuild the canvas
    with the one cell replaced.
   */
  function Draw(c: Canvas, x: int, y: int, color: Color): (r: DrawResult)
    ensures r.canvas.width == c.width && r.canvas.height == c.height
    ensures !(0 <= x < c.width) ==> r == DrawResult(InvalidXMessage, Error, c)
    ensures 0 <= x < c.width && !(0 <= y < c.height) ==> r == DrawResult(InvalidYMessage, Error, c)
    ensures InBounds(c, x, y) ==> r.status == Success && r.message == PlacedMessage
    ensures InBounds(c, x, y) ==> At(r.canvas, x, y) == color
    ensures forall i, j :: InBounds(c, i, j) && (i != x || j != y) ==> At(r.canvas, i, j) == At(c, i, j)
  {
    if x < 0 || x >= c.width then DrawResult(InvalidXMessage, Error, c)
    else if y < 0 || y >= c.height then DrawResult(InvalidYMessage, Error, c)
    else DrawResult(PlacedMessage, Success, c.(columns := c.columns[x := c.columns[x][y := color]]))
  }

  /**
    `drawPixelToImage` with its own loop: after the bounds checks, a
    fresh image is filled column by column, taking the new colour at the
    target cell and the old colour everywhere else.
   */
  method DrawPixelToImage(c: Canvas, px: int, py: int, color: Color)
    returns (message: string, status: Status, out: Canvas)
    ensures DrawResult(message, status, out) == Draw(c, px, py, color)
  {
    if px < 0 || px >= c.width {
      return InvalidXMessage, Error, c;
    }
    if py < 0 || py >= c.height {
      return InvalidYMessage, Error, c;
    }
    var columns: seq<seq<Color>> := [];
    for x := 0 to c.width
      invariant |columns| == x
      invariant forall i :: 0 <= i < x ==> |columns[i]| == c.height
      invariant forall i, j :: 0 <= i < x && 0 <= j < c.height ==>
        columns[i][j] == (if i == px && j == py then color else c.columns[i][j])
    {
      var column: seq<Color> := [];
      for y := 0 to c.height
        invariant |column| == y
        invariant forall j :: 0 <= j < y ==> column[j] == (if x == px && j == py then color else c.columns[x][j])
      {
        if x == px && y == py {
          column := column + [color];
        } else {
          column := column + [c.columns[x][y]];
        }
      }
      columns := columns + [column];
    }
    out := Grid(c.width, c.height, columns);
    CanvasExtensionality(out, Draw(c, px, py, color).canvas);
    return PlacedMessage, Success, out;
  }

  /** Placing the same colour twice at a cell is placing it once. */
  lemma DrawIdempotent(c: Canvas, x: int, y: int, color: Color)
    ensures Draw(Draw(c, x, y, color).canvas, x, y, color) == Draw(c, x, y, color)
  {
    var d := Draw(c, x, y, color).canvas;
    if InBounds(c, x, y) {
      CanvasExtensionality(Draw(d, x, y, color).canvas, d);
    }
  }

  /** Placements at different cells commute: both survive, whichever runs first. */
  lemma DrawDistinctCellsCommute(c: Canvas, x1: int, y1: int, c1: Color, x2: int, y2: int, c2: Color)
    requires x1 != x2 || y1 != y2
    ensures Draw(Draw(c, x1, y1, c1).canvas, x2, y2, c2).canvas
         == Draw(Draw(c, x2, y2, c2).canvas, x1, y1, c1).canvas
  {
    CanvasExtensionality(Draw(Draw(c, x1, y1, c1).canvas, x2, y2, c2).canvas,
                         Draw(Draw(c, x2, y2, c2).canvas, x1, y1, c1).canvas);
  }

  /** Of two placements at the same cell, the later colour is the one that stays. */
  lemma DrawSameCellLastWins(c: Canvas, x: int, y: int, c1: Color, c2: Color)
    ensures Draw(Draw(c, x, y, c1).canvas, x, y, c2) == Draw(c, x, y, c2)
  {
    if InBounds(c, x, y) {
      CanvasExtensionality(Draw(Draw(c, x, y, c1).canvas, x, y, c2).canvas, Draw(c, x, y, c2).canvas);
    }
  }
}
