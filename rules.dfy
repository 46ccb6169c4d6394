/** The generation step: neighbour counting, Conway's rule and setNextFrame. */
module Rules {
  import opened Grid

  function Bit(b: bool): nat
  {
    if b then 1 else 0
  }

  /** countNeighbors: the live cells among the eight around (x, y), read
      with the lookup that answers dead off the board, so edges and corners
      need no special case. */
  function CountNeighbors(g: seq<Pixel>, cols: Pos, rows: Pos, x: int, y: int): (ct: nat)
    requires Dense(g, cols, rows)
    ensures ct <= 8
  {
    Bit(PixelIsActive(g, cols, rows, x - 1, y)) +         // left
    Bit(PixelIsActive(g, cols, rows, x + 1, y)) +         // right
    Bit(PixelIsActive(g, cols, rows, x, y - 1)) +         // up
    Bit(PixelIsActive(g, cols, rows, x, y + 1)) +         // down
    Bit(PixelIsActive(g, cols, rows, x - 1, y - 1)) +     // up-left
    Bit(PixelIsActive(g, cols, rows, x + 1, y - 1)) +     // up-right
    Bit(PixelIsActive(g, cols, rows, x - 1, y + 1)) +     // down-left
    Bit(PixelIsActive(g, cols, rows, x + 1, y + 1))       // down-right
  }

  /** The Moore neighbourhood of (x, y): the 3 × 3 block around it, without it. */
  function Moore(x: int, y: int): set<(int, int)>
  {
    set a, b | x - 1 <= a <= x + 1 && y - 1 <= b <= y + 1 && (a, b) != (x, y) :: (a, b)
  }

  /** The live cells of the board that neighbour (x, y). */
  function LiveNeighbours(g: seq<Pixel>, cols: Pos, rows: Pos, x: int, y: int): set<(int, int)>
    requires Dense(g, cols, rows)
  {
    set c | c in Moore(x, y) && PixelIsActive(g, cols, rows, c.0, c.1)
  }

  /** How many of the cells cs[k..] are in alive. */
  function HitsFrom(cs: seq<(int, int)>, k: nat, alive: set<(int, int)>): nat
    decreases |cs| - k
  {
    if k >= |cs| then 0 else Bit(cs[k] in alive) + HitsFrom(cs, k + 1, alive)
  }

  predicate Distinct(cs: seq<(int, int)>)
  {
    forall i, j :: 0 <= i < j < |cs| ==> cs[i] != cs[j]
  }

  /** Counting the distinct cells cs[k..] that are in alive gives the size
      of the part of alive they cover. */
  lemma {:induction false} HitsIsCardinality(cs: seq<(int, int)>, k: nat, alive: set<(int, int)>)
    requires Distinct(cs) && k <= |cs|
    ensures |(set j | k <= j < |cs| :: cs[j]) * alive| == HitsFrom(cs, k, alive)
    decreases |cs| - k
  {
    if k < |cs| {
      HitsIsCardinality(cs, k + 1, alive);
      var rest := (set j | k + 1 <= j < |cs| :: cs[j]) * alive;
      assert cs[k] !in rest;
      if cs[k] in alive {
        assert (set j | k <= j < |cs| :: cs[j]) * alive == rest + {cs[k]};
      } else {
        assert (set j | k <= j < |cs| :: cs[j]) * alive == rest;
      }
    }
  }

  /** The eight cells countNeighbors visits, in its order. */
  function Offsets(x: int, y: int): seq<(int, int)>
  {
    [(x - 1, y), (x + 1, y), (x, y - 1), (x, y + 1),
     (x - 1, y - 1), (x + 1, y - 1), (x - 1, y + 1), (x + 1, y + 1)]
  }

  /** The eight offsets countNeighbors visits are distinct and are exactly
      the Moore neighbourhood. */
  lemma MooreIsOffsets(x: int, y: int)
    ensures Distinct(Offsets(x, y))
    ensures Moore(x, y) == set j | 0 <= j < 8 :: Offsets(x, y)[j]
  {
    var e := set j | 0 <= j < 8 :: Offsets(x, y)[j];
    forall c | c in Moore(x, y) ensures c in e {
      var (a, b) := c;
      assert a == x - 1 || a == x || a == x + 1;
      assert b == y - 1 || b == y || b == y + 1;
      assert c in Offsets(x, y);
    }
  }

  /** The hit count over the eight offsets, spelled out in their order. */
  lemma HitsOfOffsets(x: int, y: int, alive: set<(int, int)>)
    ensures HitsFrom(Offsets(x, y), 0, alive) ==
      Bit((x - 1, y) in alive) + Bit((x + 1, y) in alive) +
      Bit((x, y - 1) in alive) + Bit((x, y + 1) in alive) +
      Bit((x - 1, y - 1) in alive) + Bit((x + 1, y - 1) in alive) +
      Bit((x - 1, y + 1) in alive) + Bit((x + 1, y + 1) in alive)
  {
    var o := Offsets(x, y);
    assert HitsFrom(o, 8, alive) == 0;
    assert HitsFrom(o, 7, alive) == Bit(o[7] in alive);
    assert HitsFrom(o, 6, alive) == Bit(o[6] in alive) + HitsFrom(o, 7, alive);
    assert HitsFrom(o, 5, alive) == Bit(o[5] in alive) + HitsFrom(o, 6, alive);
    assert HitsFrom(o, 4, alive) == Bit(o[4] in alive) + HitsFrom(o, 5, alive);
    assert HitsFrom(o, 3, alive) == Bit(o[3] in alive) + HitsFrom(o, 4, alive);
    assert HitsFrom(o, 2, alive) == Bit(o[2] in alive) + HitsFrom(o, 3, alive);
    assert HitsFrom(o, 1, alive) == Bit(o[1] in alive) + HitsFrom(o, 2, alive);
  }

  /** Any set of cells inside the Moore neighbourhood of (x, y) has as many
      elements as the eight offsets find in it. */
  lemma NeighbourhoodCount(x: int, y: int, live: set<(int, int)>)
    requires live <= Moore(x, y)
    ensures |live| ==
      Bit((x - 1, y) in live) + Bit((x + 1, y) in live) +
      Bit((x, y - 1) in live) + Bit((x, y + 1) in live) +
      Bit((x - 1, y - 1) in live) + Bit((x + 1, y - 1) in live) +
      Bit((x - 1, y + 1) in live) + Bit((x + 1, y + 1) in live)
  {
    var o := Offsets(x, y);
    MooreIsOffsets(x, y);
    HitsIsCardinality(o, 0, live);
    HitsOfOffsets(x, y, live);
    assert (set j | 0 <= j < |o| :: o[j]) == Moore(x, y);
    assert Moore(x, y) * live == live;
  }

  /** A neighbour is in LiveNeighbours exactly when the lookup finds it alive. */
  lemma LiveNeighbour(g: seq<Pixel>, cols: Pos, rows: Pos, x: int, y: int, a: int, b: int)
    requires Dense(g, cols, rows)
    requires (a, b) in Offsets(x, y)
    ensures (a, b) in LiveNeighbours(g, cols, rows, x, y) <==> PixelIsActive(g, cols, rows, a, b)
  {
  }

  /** countNeighbors counts each live neighbour once, so its result is the
      number of live cells in the Moore neighbourhood, and the cell itself
      never counts. */
  lemma CountIsLiveNeighbours(g: seq<Pixel>, cols: Pos, rows: Pos, x: int, y: int)
    requires Dense(g, cols, rows)
    ensures CountNeighbors(g, cols, rows, x, y) == |LiveNeighbours(g, cols, rows, x, y)|
    ensures (x, y) !in LiveNeighbours(g, cols, rows, x, y)
  {
    var live := LiveNeighbours(g, cols, rows, x, y);
    NeighbourhoodCount(x, y, live);
    LiveNeighbour(g, cols, rows, x, y, x - 1, y);
    LiveNeighbour(g, cols, rows, x, y, x + 1, y);
    LiveNeighbour(g, cols, rows, x, y, x, y - 1);
    LiveNeighbour(g, cols, rows, x, y, x, y + 1);
    LiveNeighbour(g, cols, rows, x, y, x - 1, y - 1);
    LiveNeighbour(g, cols, rows, x, y, x + 1, y - 1);
    LiveNeighbour(g, cols, rows, x, y, x - 1, y + 1);
    LiveNeighbour(g, cols, rows, x, y, x + 1, y + 1);
  }
  /** The rule setNextFrame applies to one cell with ct live neighbours. */
  function NextState(active: bool, ct: int): (alive: bool)
    ensures active && ct < 2 ==> !alive                   // underpopulation
    ensures active && (ct == 2 || ct == 3) ==> alive      // survival
    ensures active && ct > 3 ==> !alive                   // overpopulation
    ensures !active ==> (alive <==> ct == 3)              // birth
  {
    if active then
      if ct < 2 || ct > 3 then false
      else if ct == 2 || ct == 3 then true
      else active
    else if ct == 3 then true
    else active
  }

  /** The callback setNextFrame maps over the list: the pixel keeps its
      place and takes the rule's verdict, counted on the board g. */
  function NextPixel(g: seq<Pixel>, cols: Pos, rows: Pos, px: Pixel): (p: Pixel)
    requires Dense(g, cols, rows)
    ensures p.x == px.x && p.y == px.y
    ensures p.active <==>
      CountNeighbors(g, cols, rows, px.x, px.y) == 3 ||
      (px.active && CountNeighbors(g, cols, rows, px.x, px.y) == 2)
  {
    px.(active := NextState(px.active, CountNeighbors(g, cols, rows, px.x, px.y)))
  }

  /** setNextFrame: the next generation. Every count is taken on g, the
      board before the step, never on the list being built. */
  function NextFrame(g: seq<Pixel>, cols: Pos, rows: Pos): (r: seq<Pixel>)
    requires Dense(g, cols, rows)
    ensures Dense(r, cols, rows)
    ensures forall i :: 0 <= i < |r| ==> r[i].x == g[i].x && r[i].y == g[i].y
  {
    seq(|g|, i requires 0 <= i < |g| => NextPixel(g, cols, rows, g[i]))
  }

  /** After a step, a cell on the board is alive exactly when the rule says
      so for its liveness and neighbour count before the step; cells off the
      board still read as dead. */
  lemma StepRule(g: seq<Pixel>, cols: Pos, rows: Pos, x: int, y: int)
    requires Dense(g, cols, rows)
    ensures PixelIsActive(NextFrame(g, cols, rows), cols, rows, x, y) ==
      (InBounds(cols, rows, x, y) &&
       NextState(PixelIsActive(g, cols, rows, x, y), CountNeighbors(g, cols, rows, x, y)))
  {
    if InBounds(cols, rows, x, y) {
      CellIndex(cols, rows, x, y);
    }
  }

  /** Standard Conway's rule, as one equivalence: alive after the step iff
      three live neighbours, or two and alive before. */
  lemma StepIsConway(g: seq<Pixel>, cols: Pos, rows: Pos, x: int, y: int)
    requires Dense(g, cols, rows) && InBounds(cols, rows, x, y)
    ensures PixelIsActive(NextFrame(g, cols, rows), cols, rows, x, y) <==>
      |LiveNeighbours(g, cols, rows, x, y)| == 3 ||
      (PixelIsActive(g, cols, rows, x, y) && |LiveNeighbours(g, cols, rows, x, y)| == 2)
  {
    StepRule(g, cols, rows, x, y);
    CountIsLiveNeighbours(g, cols, rows, x, y);
  }

  /** Every lookup on an all-dead board answers dead. */
  lemma DeadBoardReadsDead(g: seq<Pixel>, cols: Pos, rows: Pos)
    requires Dense(g, cols, rows) && AllDead(g)
    ensures forall x, y :: !PixelIsActive(g, cols, rows, x, y)
  {
    forall x, y | InBounds(cols, rows, x, y)
      ensures !PixelIsActive(g, cols, rows, x, y)
    {
      CellIndex(cols, rows, x, y);
    }
  }

  /** An all-dead board is a fixed point of the step. */
  lemma DeadBoardIsFixed(g: seq<Pixel>, cols: Pos, rows: Pos)
    requires Dense(g, cols, rows) && AllDead(g)
    ensures NextFrame(g, cols, rows) == g
  {
    DeadBoardReadsDead(g, cols, rows);
    forall i | 0 <= i < |g|
      ensures NextFrame(g, cols, rows)[i] == g[i]
    {
      assert CountNeighbors(g, cols, rows, g[i].x, g[i].y) == 0;
    }
  }

  /** The board after n generations. */
  function Generations(g: seq<Pixel>, cols: Pos, rows: Pos, n: nat): (r: seq<Pixel>)
    requires Dense(g, cols, rows)
    ensures Dense(r, cols, rows)
  {
    if n == 0 then g else NextFrame(Generations(g, cols, rows, n - 1), cols, rows)
  }

  /** An all-dead board stays all-dead, however many steps run. */
  lemma {:induction false} DeadBoardStaysDead(g: seq<Pixel>, cols: Pos, rows: Pos, n: nat)
    requires Dense(g, cols, rows) && AllDead(g)
    ensures Generations(g, cols, rows, n) == g
  {
    if n > 0 {
      DeadBoardStaysDead(g, cols, rows, n - 1);
      DeadBoardIsFixed(g, cols, rows);
    }
  }
}
