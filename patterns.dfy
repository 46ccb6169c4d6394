/** Known patterns of the Game of Life, stepped on the model of setNextFrame. */
module Patterns {
  import opened Grid
  import opened Rules

  /** The live cells of g are exactly the cells of s. */
  ghost predicate LiveExactly(g: seq<Pixel>, cols: Pos, rows: Pos, s: set<(int, int)>)
    requires Dense(g, cols, rows)
  {
    forall a, b :: PixelIsActive(g, cols, rows, a, b) <==> (a, b) in s
  }

  /** The board of cols × rows cells whose live cells are those of s. */
  function BoardOf(cols: Pos, rows: Pos, s: set<(int, int)>): seq<Pixel>
  {
    MulMonotone(0, cols, rows);
    seq(cols * rows, i => Pixel(i / rows, i % rows, (i / rows, i % rows) in s))
  }

  /** Any set of cells on the board is the live set of a dense board,
      BoardOf; by DenseExtensional it is the only such board. */
  lemma BoardOfIsDense(cols: Pos, rows: Pos, s: set<(int, int)>)
    requires forall c :: c in s ==> InBounds(cols, rows, c.0, c.1)
    ensures Dense(BoardOf(cols, rows, s), cols, rows)
    ensures LiveExactly(BoardOf(cols, rows, s), cols, rows, s)
  {
    var g := BoardOf(cols, rows, s);
    forall a, b
      ensures PixelIsActive(g, cols, rows, a, b) <==> (a, b) in s
    {
      if InBounds(cols, rows, a, b) {
        CellIndex(cols, rows, a, b);
      }
    }
  }

  function Horizontal(): set<(int, int)> { {(1, 2), (2, 2), (3, 2)} }

  function Vertical(): set<(int, int)> { {(2, 1), (2, 2), (2, 3)} }

  /** A lone live cell has no live neighbour and dies; no cell is born. */
  lemma LonelyCellDies(g: seq<Pixel>, cols: Pos, rows: Pos, p: int, q: int)
    requires Dense(g, cols, rows) && LiveExactly(g, cols, rows, {(p, q)})
    ensures AllDead(NextFrame(g, cols, rows))
  {
    var r := NextFrame(g, cols, rows);
    forall i | 0 <= i < |r|
      ensures !r[i].active
    {
      IndexCell(cols, rows, i);
      var x, y := i / rows, i % rows;
      StepRule(g, cols, rows, x, y);
      CellIndex(cols, rows, x, y);
    }
  }

  /** The corner cell (0, 0) counts its diagonal neighbour (1, 1); the cells
      off the board around the corner count as dead. */
  lemma CornerCountsDiagonal(g: seq<Pixel>, cols: Pos, rows: Pos)
    requires Dense(g, cols, rows) && LiveExactly(g, cols, rows, {(1, 1)})
    ensures CountNeighbors(g, cols, rows, 0, 0) == 1
  {
  }

  /** On a board whose live cells are s, countNeighbors counts the
      neighbours that belong to s. */
  lemma CountOnSet(g: seq<Pixel>, cols: Pos, rows: Pos, s: set<(int, int)>, x: int, y: int)
    requires Dense(g, cols, rows) && LiveExactly(g, cols, rows, s)
    ensures CountNeighbors(g, cols, rows, x, y) ==
      Bit((x - 1, y) in s) + Bit((x + 1, y) in s) +
      Bit((x, y - 1) in s) + Bit((x, y + 1) in s) +
      Bit((x - 1, y - 1) in s) + Bit((x + 1, y - 1) in s) +
      Bit((x - 1, y + 1) in s) + Bit((x + 1, y + 1) in s)
  {
  }

  /** The blinker: three cells in a row turn into three in a column. */
  lemma BlinkerTurnsVertical(g: seq<Pixel>, cols: Pos, rows: Pos)
    requires cols >= 4 && rows >= 4
    requires Dense(g, cols, rows) && LiveExactly(g, cols, rows, Horizontal())
    ensures LiveExactly(NextFrame(g, cols, rows), cols, rows, Vertical())
  {
    forall a, b
      ensures PixelIsActive(NextFrame(g, cols, rows), cols, rows, a, b) <==> (a, b) in Vertical()
    {
      StepRule(g, cols, rows, a, b);
      CountOnSet(g, cols, rows, Horizontal(), a, b);
    }
  }

  /** ... and three in a column turn back into three in a row. */
  lemma BlinkerTurnsHorizontal(g: seq<Pixel>, cols: Pos, rows: Pos)
    requires cols >= 4 && rows >= 4
    requires Dense(g, cols, rows) && LiveExactly(g, cols, rows, Vertical())
    ensures LiveExactly(NextFrame(g, cols, rows), cols, rows, Horizontal())
  {
    forall a, b
      ensures PixelIsActive(NextFrame(g, cols, rows), cols, rows, a, b) <==> (a, b) in Horizontal()
    {
      StepRule(g, cols, rows, a, b);
      CountOnSet(g, cols, rows, Vertical(), a, b);
    }
  }

  /** The blinker oscillates with period two: two steps give back the very
      same board. */
  lemma BlinkerHasPeriodTwo(g: seq<Pixel>, cols: Pos, rows: Pos)
    requires cols >= 4 && rows >= 4
    requires Dense(g, cols, rows) && LiveExactly(g, cols, rows, Horizontal())
    ensures NextFrame(g, cols, rows) != g
    ensures NextFrame(NextFrame(g, cols, rows), cols, rows) == g
  {
    var g1 := NextFrame(g, cols, rows);
    BlinkerTurnsVertical(g, cols, rows);
    BlinkerTurnsHorizontal(g1, cols, rows);
    assert PixelIsActive(g1, cols, rows, 2, 1) && !PixelIsActive(g, cols, rows, 2, 1);
    DenseExtensional(NextFrame(g1, cols, rows), g, cols, rows);
  }

  /** The blinker on any board of at least 4 × 4 cells: the row becomes the
      column, and the column the row again. */
  lemma BlinkerOscillates(cols: Pos, rows: Pos)
    requires cols >= 4 && rows >= 4
    ensures NextFrame(BoardOf(cols, rows, Horizontal()), cols, rows) == BoardOf(cols, rows, Vertical())
    ensures NextFrame(BoardOf(cols, rows, Vertical()), cols, rows) == BoardOf(cols, rows, Horizontal())
  {
    var h, v := BoardOf(cols, rows, Horizontal()), BoardOf(cols, rows, Vertical());
    BoardOfIsDense(cols, rows, Horizontal());
    BoardOfIsDense(cols, rows, Vertical());
    BlinkerTurnsVertical(h, cols, rows);
    BlinkerTurnsHorizontal(v, cols, rows);
    DenseExtensional(NextFrame(h, cols, rows), v, cols, rows);
    DenseExtensional(NextFrame(v, cols, rows), h, cols, rows);
  }
}
