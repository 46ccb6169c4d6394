/** The board of the Game of Life: a dense, column-major list of pixels.

    Coordinates are in cell units: the program stores x and y as multiples
    of its 25-pixel cell size, and this model divides that factor out. */
module Grid {

  /** A board dimension; the program derives it from the window size. */
  type Pos = n: int | n > 0 witness 1

  /** One cell of the board: column x, row y and whether it is alive. */
  datatype Pixel = Pixel(x: int, y: int, active: bool)

  datatype Option<T> = None | Some(value: T)

  predicate InBounds(cols: int, rows: int, x: int, y: int)
  {
    0 <= x < cols && 0 <= y < rows
  }

  /** g holds exactly one pixel per cell of the cols × rows board, in the
      order the program builds it: x outer, y inner. */
  predicate Dense(g: seq<Pixel>, cols: Pos, rows: Pos)
  {
    |g| == cols * rows &&
    forall i :: 0 <= i < |g| ==> g[i].x == i / rows && g[i].y == i % rows
  }

  predicate AllDead(g: seq<Pixel>)
  {
    forall i :: 0 <= i < |g| ==> !g[i].active
  }

  /** Multiplying by a non-negative number keeps order. */
  lemma MulMonotone(a: int, b: int, c: int)
    requires c >= 0
    ensures a <= b ==> a * c <= b * c
  {
    if a <= b {
      assert b * c - a * c == (b - a) * c;
    }
  }

  /** Euclidean division by d is determined by quotient and remainder. */
  lemma DivUnique(i: int, d: Pos, q: int, r: int)
    requires 0 <= r < d && i == q * d + r
    ensures i / d == q && i % d == r
  {
    var q', r' := i / d, i % d;
    MulMonotone(q + 1, q', d);
    MulMonotone(q' + 1, q, d);
    assert (q + 1) * d == q * d + d && (q' + 1) * d == q' * d + d;
  }

  /** The flat position of cell (x, y) in a dense list, and its inverse. */
  lemma CellIndex(cols: Pos, rows: Pos, x: int, y: int)
    requires InBounds(cols, rows, x, y)
    ensures 0 <= x * rows + y < cols * rows
    ensures (x * rows + y) / rows == x && (x * rows + y) % rows == y
  {
    MulMonotone(0, x, rows);
    MulMonotone(x + 1, cols, rows);
    assert (x + 1) * rows == x * rows + rows;
    DivUnique(x * rows + y, rows, x, y);
  }

  /** Every flat position of a dense list names a cell on the board. */
  lemma IndexCell(cols: Pos, rows: Pos, i: int)
    requires 0 <= i < cols * rows
    ensures InBounds(cols, rows, i / rows, i % rows)
    ensures (i / rows) * rows + i % rows == i
  {
    MulMonotone(cols, i / rows, rows);
    MulMonotone(i / rows + 1, 0, rows);
    assert (i / rows + 1) * rows == (i / rows) * rows + rows;
  }

  /** initPixels: builds the all-dead board with two nested loops. */
  method InitPixels(cols: Pos, rows: Pos) returns (pixels: seq<Pixel>)
    ensures Dense(pixels, cols, rows)
    ensures AllDead(pixels)
  {
    pixels := [];
    var x := 0;
    while x < cols
      invariant 0 <= x <= cols
      invariant |pixels| == x * rows
      invariant forall i :: 0 <= i < |pixels| ==> pixels[i] == Pixel(i / rows, i % rows, false)
    {
      var y := 0;
      while y < rows
        invariant 0 <= y <= rows
        invariant |pixels| == x * rows + y
        invariant forall i :: 0 <= i < |pixels| ==> pixels[i] == Pixel(i / rows, i % rows, false)
      {
        CellIndex(cols, rows, x, y);
        pixels := pixels + [Pixel(x, y, false)];
        y := y + 1;
      }
      assert x * rows + rows == (x + 1) * rows;
      x := x + 1;
    }
  }

  /** Two dense, all-dead boards of the same size are the same board, so
      every reset produces the board the program started with. */
  lemma BlankIsUnique(a: seq<Pixel>, b: seq<Pixel>, cols: Pos, rows: Pos)
    requires Dense(a, cols, rows) && AllDead(a)
    requires Dense(b, cols, rows) && AllDead(b)
    ensures a == b
  {
  }

  /** pixelIsActive, with the list search replaced by indexing: the
      liveness of cell (x, y); every cell off the board reads as dead. */
  function PixelIsActive(g: seq<Pixel>, cols: Pos, rows: Pos, x: int, y: int): (active: bool)
    requires Dense(g, cols, rows)
    ensures active ==> InBounds(cols, rows, x, y)
  {
    if InBounds(cols, rows, x, y) then
      CellIndex(cols, rows, x, y);
      g[x * rows + y].active
    else
      false
  }

  /** Array.prototype.find over the list: the first index whose pixel sits
      at (x, y), if any. */
  function FindPixel(g: seq<Pixel>, x: int, y: int): (r: Option<nat>)
    ensures r.Some? ==> r.value < |g| && g[r.value].x == x && g[r.value].y == y
    ensures r.Some? ==> forall j :: 0 <= j < r.value ==> !(g[j].x == x && g[j].y == y)
    ensures r.None? ==> forall j :: 0 <= j < |g| ==> !(g[j].x == x && g[j].y == y)
  {
    if g == [] then None
    else if g[0].x == x && g[0].y == y then Some(0)
    else match FindPixel(g[1..], x, y)
      case None => None
      case Some(k) => Some(k + 1)
  }

  /** pixelIsActive exactly as the program writes it: search the list and
      read the match, or answer dead when nothing matches. */
  function PixelIsActiveByFind(g: seq<Pixel>, x: int, y: int): (active: bool)
    ensures active ==> exists i :: 0 <= i < |g| && g[i] == Pixel(x, y, true)
    ensures (forall i :: 0 <= i < |g| ==> !(g[i].x == x && g[i].y == y)) ==> !active
    ensures forall i :: (0 <= i < |g| && g[i].x == x && g[i].y == y &&
                         (forall j :: 0 <= j < i ==> !(g[j].x == x && g[j].y == y))) ==>
                        (active <==> g[i].active)
  {
    match FindPixel(g, x, y)
    case Some(k) => g[k].active
    case None => false
  }

  /** On a dense board the indexed lookup answers what the list search
      answers, for every coordinate on or off the board. */
  lemma LookupAgreesWithFind(g: seq<Pixel>, cols: Pos, rows: Pos, x: int, y: int)
    requires Dense(g, cols, rows)
    ensures PixelIsActive(g, cols, rows, x, y) == PixelIsActiveByFind(g, x, y)
  {
    if InBounds(cols, rows, x, y) {
      CellIndex(cols, rows, x, y);
      var i := x * rows + y;
      assert g[i].x == x && g[i].y == y;
      IndexCell(cols, rows, FindPixel(g, x, y).value);
    } else {
      forall j | 0 <= j < |g|
        ensures !(g[j].x == x && g[j].y == y)
      {
        IndexCell(cols, rows, j);
      }
    }
  }

  /** A dense board is determined by the liveness of its cells. */
  lemma DenseExtensional(a: seq<Pixel>, b: seq<Pixel>, cols: Pos, rows: Pos)
    requires Dense(a, cols, rows) && Dense(b, cols, rows)
    requires forall x, y :: PixelIsActive(a, cols, rows, x, y) == PixelIsActive(b, cols, rows, x, y)
    ensures a == b
  {
    forall i | 0 <= i < |a|
      ensures a[i] == b[i]
    {
      IndexCell(cols, rows, i);
      var x, y := i / rows, i % rows;
      CellIndex(cols, rows, x, y);
      assert PixelIsActive(a, cols, rows, x, y) == a[i].active;
      assert PixelIsActive(b, cols, rows, x, y) == b[i].active;
    }
  }
}
