/** The interaction around the board: the space-key state machine, clicks
    that seed cells, the per-frame tick, and the arrow-key cursor. */
module Game {
  import opened Grid
  import opened Rules

  datatype GameState = Stopped | Seeding | Playing

  /** The keys the keydown handler distinguishes; every other key is Other. */
  datatype Key = Space | ArrowLeft | ArrowRight | ArrowUp | ArrowDown | Other

  /** While playing, the board advances on every frame divisible by this. */
  const StepEvery: nat := 30

  /** Position of a state on the cycle the space key drives. */
  function Phase(s: GameState): nat
  {
    match s
    case Stopped => 0
    case Seeding => 1
    case Playing => 2
  }

  /** The state after a key press. */
  function NextGameState(s: GameState, key: Key): (t: GameState)
    ensures key != Space ==> t == s
    ensures key == Space ==> Phase(t) == (Phase(s) + 1) % 3
  {
    if key != Space then s
    else if s == Playing then Stopped
    else if s == Stopped then Seeding
    else Playing
  }

  /** Three presses of the space key come back to the starting state, and
      visit every state on the way. */
  lemma SpaceCycles(s: GameState)
    ensures NextGameState(NextGameState(NextGameState(s, Space), Space), Space) == s
    ensures {s, NextGameState(s, Space), NextGameState(NextGameState(s, Space), Space)}
            == {Stopped, Seeding, Playing}
  {
  }

  /** The cursor wrap of the keydown handler for one axis of n cells: past
      the far edge to 0, before 0 to the last cell. */
  function Wrap(v: int, n: Pos): (w: int)
    ensures 0 <= w < n
    ensures 0 <= v < n ==> w == v
    ensures -1 <= v <= n ==> w == v % n
  {
    if v >= n then 0
    else if v < 0 then n - 1
    else v
  }

  function DeltaX(key: Key): int
  {
    if key == ArrowLeft then -1 else if key == ArrowRight then 1 else 0
  }

  function DeltaY(key: Key): int
  {
    if key == ArrowUp then -1 else if key == ArrowDown then 1 else 0
  }

  /** The cursor after a key press: an arrow moves it one cell, and the
      wrap brings it back onto the board; from a cell on the board this is
      a step modulo the board's size. */
  function MoveCursor(cx: int, cy: int, key: Key, cols: Pos, rows: Pos): (c: (int, int))
    ensures InBounds(cols, rows, c.0, c.1)
    ensures InBounds(cols, rows, cx, cy) ==>
      c == ((cx + DeltaX(key)) % cols, (cy + DeltaY(key)) % rows)
  {
    (Wrap(cx + DeltaX(key), cols), Wrap(cy + DeltaY(key), rows))
  }

  /** Left undoes right and up undoes down, edges included. */
  lemma CursorMovesAreInverse(cx: int, cy: int, cols: Pos, rows: Pos)
    requires InBounds(cols, rows, cx, cy)
    ensures var (x, y) := MoveCursor(cx, cy, ArrowRight, cols, rows);
            MoveCursor(x, y, ArrowLeft, cols, rows) == (cx, cy)
    ensures var (x, y) := MoveCursor(cx, cy, ArrowDown, cols, rows);
            MoveCursor(x, y, ArrowUp, cols, rows) == (cx, cy)
  {
  }

  /** The click handler's map: flip every pixel at (x, y), keep the rest. */
  function Toggled(g: seq<Pixel>, x: int, y: int): (r: seq<Pixel>)
    ensures |r| == |g|
    ensures forall i :: 0 <= i < |r| ==> r[i].x == g[i].x && r[i].y == g[i].y
    ensures forall i :: 0 <= i < |r| ==>
      (r[i].active != g[i].active <==> g[i].x == x && g[i].y == y)
  {
    seq(|g|, i requires 0 <= i < |g| =>
      if g[i].x == x && g[i].y == y then g[i].(active := !g[i].active) else g[i])
  }

  /** The click handler's loop, which flips the matching pixel in place. */
  method ToggleAt(g: seq<Pixel>, x: int, y: int) returns (r: seq<Pixel>)
    ensures r == Toggled(g, x, y)
  {
    r := g;
    var i := 0;
    while i < |r|
      invariant 0 <= i <= |r| == |g|
      invariant forall j :: 0 <= j < i ==> r[j] == Toggled(g, x, y)[j]
      invariant forall j :: i <= j < |r| ==> r[j] == g[j]
    {
      if r[i].x == x && r[i].y == y {
        r := r[i := r[i].(active := !r[i].active)];
      }
      i := i + 1;
    }
  }

  /** A click flips exactly the clicked cell when it is on the board and
      leaves every other cell, and the board's shape, as they were. */
  lemma ToggleFlipsOneCell(g: seq<Pixel>, cols: Pos, rows: Pos, x: int, y: int, a: int, b: int)
    requires Dense(g, cols, rows)
    ensures Dense(Toggled(g, x, y), cols, rows)
    ensures PixelIsActive(Toggled(g, x, y), cols, rows, a, b) ==
      if (a, b) == (x, y) && InBounds(cols, rows, x, y) then !PixelIsActive(g, cols, rows, a, b)
      else PixelIsActive(g, cols, rows, a, b)
  {
    if InBounds(cols, rows, a, b) {
      CellIndex(cols, rows, a, b);
    }
  }

  /** A click off the board matches no pixel and changes nothing. */
  lemma ToggleOffBoardIsNoop(g: seq<Pixel>, cols: Pos, rows: Pos, x: int, y: int)
    requires Dense(g, cols, rows) && !InBounds(cols, rows, x, y)
    ensures Toggled(g, x, y) == g
  {
  }

  /** Clicking the same cell twice gives back the board. */
  lemma ToggleTwiceIsIdentity(g: seq<Pixel>, x: int, y: int)
    ensures Toggled(Toggled(g, x, y), x, y) == g
  {
  }

  /** The program's module-level state: the board, the game state and the
      cursor. */
  class Life {
    const cols: Pos
    const rows: Pos
    var pixels: seq<Pixel>
    var gameState: GameState
    var cursorX: int
    var cursorY: int

    ghost predicate Valid()
      reads this
    {
      Dense(pixels, cols, rows) && InBounds(cols, rows, cursorX, cursorY)
    }

    /** Start-up: an all-dead board, stopped, cursor at the origin. */
    constructor (cols: Pos, rows: Pos)
      ensures Valid() && this.cols == cols && this.rows == rows
      ensures AllDead(pixels) && gameState == Stopped
      ensures cursorX == 0 && cursorY == 0
    {
      var blank := InitPixels(cols, rows);
      this.cols, this.rows := cols, rows;
      pixels := blank;
      gameState := Stopped;
      cursorX, cursorY := 0, 0;
    }

    /** The keydown handler: space advances the state machine, an arrow
      moves the cursor, and the cursor is wrapped onto the board. */
    method KeyDown(key: Key)
      requires Valid()
      modifies this
      ensures Valid()
      ensures gameState == NextGameState(old(gameState), key)
      ensures (cursorX, cursorY) == MoveCursor(old(cursorX), old(cursorY), key, cols, rows)
      ensures pixels == old(pixels)
    {
      if key == Space {
        if gameState == Playing {
          gameState := Stopped;
        } else if gameState == Stopped {
          gameState := Seeding;
        } else if gameState == Seeding {
          gameState := Playing;
        }
      }
      if key == ArrowLeft {
        cursorX := cursorX - 1;
      } else if key == ArrowRight {
        cursorX := cursorX + 1;
      } else if key == ArrowUp {
        cursorY := cursorY - 1;
      } else if key == ArrowDown {
        cursorY := cursorY + 1;
      }
      if cursorX >= cols {
        cursorX := 0;
      } else if cursorX < 0 {
        cursorX := cols - 1;
      }
      if cursorY >= rows {
        cursorY := 0;
      } else if cursorY < 0 {
        cursorY := rows - 1;
      }
    }

    /** The click handler, with the click already in cell units: ignored
      unless seeding, otherwise flips the clicked cell. */
    method Click(x: int, y: int)
      requires Valid()
      modifies this`pixels
      ensures Valid()
      ensures gameState != Seeding ==> pixels == old(pixels)
      ensures gameState == Seeding ==> pixels == Toggled(old(pixels), x, y)
    {
      if gameState != Seeding {
        return;
      }
      pixels := ToggleAt(pixels, x, y);
      ToggleFlipsOneCell(old(pixels), cols, rows, x, y, x, y);
    }

    /** One run of the animation loop on the given frame number: stopped
      resets the board to all-dead, playing steps it on every thirtieth
      frame, and seeding leaves it alone. */
    method Tick(frame: nat)
      requires Valid()
      modifies this`pixels
      ensures Valid()
      ensures gameState == Stopped ==> AllDead(pixels)
      ensures gameState == Playing && frame % StepEvery == 0 ==>
        pixels == NextFrame(old(pixels), cols, rows)
      ensures gameState == Seeding || (gameState == Playing && frame % StepEvery != 0) ==>
        pixels == old(pixels)
    {
      if gameState != Stopped {
        if gameState == Playing {
          if frame % StepEvery == 0 {
            pixels := NextFrame(pixels, cols, rows);
          }
        }
      } else {
        pixels := InitPixels(cols, rows);
      }
    }
  }

  /** Space pressed twice while playing, before the animation loop runs
      again: the loop's stopped branch never runs, so the game is seeding
      again on the board it was playing, not on an all-dead one. */
  method SpaceTwiceKeepsBoard(life: Life)
    requires life.Valid() && life.gameState == Playing
    modifies life
    ensures life.Valid() && life.gameState == Seeding
    ensures life.pixels == old(life.pixels)
  {
    life.KeyDown(Space);
    life.KeyDown(Space);
  }

  /** A whole session as the handlers see it: space to seed, some clicks,
      space to play, some frames, space to stop, and one more run of the
      loop. Whatever was seeded and played, the board ends as the board the
      program started with. */
  method Session(cols: Pos, rows: Pos, clicks: seq<(int, int)>, frames: seq<nat>, last: nat)
    returns (initial: seq<Pixel>, final: seq<Pixel>)
    ensures Dense(initial, cols, rows) && AllDead(initial)
    ensures final == initial
  {
    var life := new Life(cols, rows);
    initial := life.pixels;
    life.KeyDown(Space);
    for k := 0 to |clicks|
      invariant life.Valid() && life.gameState == Seeding
    {
      life.Click(clicks[k].0, clicks[k].1);
    }
    life.KeyDown(Space);
    for k := 0 to |frames|
      invariant life.Valid() && life.gameState == Playing
    {
      life.Tick(frames[k]);
    }
    life.KeyDown(Space);
    life.Tick(last);
    final := life.pixels;
    BlankIsUnique(initial, final, cols, rows);
  }
}
