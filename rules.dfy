/**
 * The game state machine as functions over a value of the game record.
 * Each function mirrors one C function of the engine (addNewTile,
 * moveLeft/moveRight/moveDown, clearRow, advanceLevel, newGame, gameOver,
 * sTetris) and the driver's tick update; the class in module Engine performs
 * the same steps in place and is proved equal to these functions.
 */
module Rules {
  import opened Colors
  import opened Playfield

  /** The key codes sTetris can receive. Up and Enter fall into the switch's
      default branch (the driver stops on Enter before calling sTetris). */
  datatype Key = NoKey | Left | Right | Down | Up | Enter

  /** The three bits of game.state: ACTIVE, ROW_CLEAR, TILE_ADDED. */
  datatype Flags = Flags(active: bool, rowClear: bool, tileAdded: bool)

  /** state == 0 */
  const GAMEOVER: Flags := Flags(false, false, false)
  /** state == ACTIVE */
  const ACTIVE: Flags := Flags(true, false, false)

  /** The constant part of the game record. */
  datatype Config = Config(w: nat, h: nat, rowsPerLevel: nat, initNextGameTick: nat)

  predicate ValidConfig(c: Config)
  {
    c.w >= 1 && c.h >= 1 && c.rowsPerLevel >= 1 && c.initNextGameTick >= 1
  }

  /** The instance every variant of the program uses. */
  const SenseHat: Config := Config(8, 8, 2, 50)

  /** blockColor of the colour variant; newTile picks one entry with rand() % 6. */
  const BlockColor: seq<Color> := [Red, Green, Blue, Magenta, Cyan, Yellow]

  /** The mutable part of the game record, with the playfield. */
  datatype GameState = GameState(
    grid: Grid,
    tiles: nat,
    rows: nat,
    score: nat,
    level: nat,
    state: Flags,
    activeTile: Coord,
    tick: nat,
    nextGameTick: nat)

  /** The playfield has the configured shape and the active tile is on it. */
  predicate Fits(c: Config, s: GameState)
  {
    WellFormed(s.grid, c.w, c.h) && InBounds(s.activeTile, c.w, c.h)
  }

  /** Where addNewTile places a tile: top row, column (w-1)/2. */
  function SpawnPoint(c: Config): (p: Coord)
    requires ValidConfig(c)
    ensures InBounds(p, c.w, c.h) && p.y == 0
    ensures 2 * p.x <= c.w - 1 <= 2 * p.x + 1
  {
    Coord((c.w - 1) / 2, 0)
  }

  /** The direction of moveLeft, moveRight and moveDown. */
  datatype Direction = West | East | South

  /** The wall test of each move: x > 0, x < w-1, y < h-1. */
  predicate OffWall(c: Config, a: Coord, d: Direction)
  {
    match d
    case West => a.x > 0
    case East => a.x < c.w - 1
    case South => a.y < c.h - 1
  }

  /** The neighbour in direction d; only formed once the wall test passed,
      so the unsigned x-1 of moveLeft never wraps here. */
  function Target(a: Coord, d: Direction): Coord
    requires d == West ==> a.x > 0
  {
    match d
    case West => Coord(a.x - 1, a.y)
    case East => Coord(a.x + 1, a.y)
    case South => Coord(a.x, a.y + 1)
  }

  /** moveLeft / moveRight / moveDown: the active cell moves one step when the
      wall test passes and the neighbour is free; the flag says whether it did. */
  function Move(c: Config, s: GameState, d: Direction): (r: (GameState, bool))
    requires ValidConfig(c) && Fits(c, s)
    ensures Fits(c, r.0)
    ensures r.0 == s.(grid := r.0.grid, activeTile := r.0.activeTile)
  {
    if OffWall(c, s.activeTile, d) && !Occupied(s.grid, Target(s.activeTile, d)) then
      var t := Target(s.activeTile, d);
      (s.(grid := Moved(s.grid, s.activeTile, t), activeTile := t), true)
    else
      (s, false)
  }

  /** while (moveDown()) {} */
  function HardDrop(c: Config, s: GameState): (r: GameState)
    requires ValidConfig(c) && Fits(c, s)
    ensures Fits(c, r)
    ensures r == s.(grid := r.grid, activeTile := r.activeTile)
    decreases c.h - s.activeTile.y
  {
    var (s', moved) := Move(c, s, South);
    if moved then HardDrop(c, s') else s
  }

  /** clearRow: only the bottom row is examined; when it is full every row
      moves one down and row 0 is emptied. */
  function ClearRow(c: Config, s: GameState): (r: (GameState, bool))
    requires ValidConfig(c) && Fits(c, s)
    ensures Fits(c, r.0)
  {
    if RowFull(s.grid[c.h - 1]) then (s.(grid := ShiftDown(s.grid, c.w)), true) else (s, false)
  }

  /** The speed curve of advanceLevel: keep 1, minus 1 on [2,10], minus 2 on
      [11,20], minus 10 above. */
  function NextSpeed(t: nat): (r: nat)
    requires t >= 1
    ensures 1 <= r <= t
    ensures t > 1 ==> r < t
  {
    if t == 1 then 1
    else if t <= 10 then t - 1
    else if t <= 20 then t - 2
    else t - 10
  }

  /** advanceLevel */
  function AdvanceLevel(c: Config, s: GameState): (r: GameState)
    requires s.nextGameTick >= 1
    ensures r.level == s.level + 1 && r.nextGameTick == NextSpeed(s.nextGameTick)
    ensures r == s.(level := r.level, nextGameTick := r.nextGameTick)
  {
    s.(level := s.level + 1, nextGameTick := NextSpeed(s.nextGameTick))
  }

  /** newGame: counters and tick to zero, state ACTIVE, empty playfield.
      nextGameTick and the active tile are left alone. */
  function NewGame(c: Config, s: GameState): (r: GameState)
    ensures r.nextGameTick == s.nextGameTick && r.activeTile == s.activeTile
    ensures Count(r.grid) == 0
  {
    CountEmptyGrid(c.w, c.h);
    s.(state := ACTIVE, tiles := 0, rows := 0, score := 0, tick := 0, level := 0,
       grid := EmptyGrid(c.w, c.h))
  }

  /** gameOver: state 0 and the initial speed; nothing else changes. */
  function GameOver(c: Config, s: GameState): (r: GameState)
    ensures r.state == GAMEOVER && r.nextGameTick == c.initNextGameTick
    ensures r == s.(state := r.state, nextGameTick := r.nextGameTick)
  {
    s.(state := GAMEOVER, nextGameTick := c.initNextGameTick)
  }

  /** addNewTile: the active tile is set to the spawn point first; the tile is
      placed (with palette entry `pick`) only when that cell is free. */
  function AddNewTile(c: Config, s: GameState, pick: nat): (r: (GameState, bool))
    requires ValidConfig(c) && Fits(c, s) && pick < |BlockColor|
    ensures Fits(c, r.0)
  {
    var p := SpawnPoint(c);
    if Occupied(s.grid, p) then (s.(activeTile := p), false)
    else (s.(activeTile := p, grid := SetCell(s.grid, p, Cell(true, BlockColor[pick]))), true)
  }

  /** The spawn of a gravity step: TILE_ADDED and tiles++ on success,
      gameOver() when the spawn point is taken. */
  function SpawnOrEnd(c: Config, s: GameState, pick: nat): (r: GameState)
    requires ValidConfig(c) && Fits(c, s) && pick < |BlockColor|
    ensures Fits(c, r)
  {
    var (s', added) := AddNewTile(c, s, pick);
    if added then s'.(state := s'.state.(tileAdded := true), tiles := s'.tiles + 1)
    else GameOver(c, s')
  }

  /** The bookkeeping of a cleared row: ROW_CLEAR, rows++, score += level+1,
      and advanceLevel when rows reaches a multiple of rowsPerLevel. */
  function ScoreRow(c: Config, s: GameState): (r: GameState)
    requires ValidConfig(c) && s.nextGameTick >= 1
    ensures r.nextGameTick >= 1
  {
    var s' := s.(state := s.state.(rowClear := true), rows := s.rows + 1, score := s.score + s.level + 1);
    if s'.rows % c.rowsPerLevel == 0 then AdvanceLevel(c, s') else s'
  }

  /** The body of `if (game.tick == 0)`: clear the two event bits, clear a full
      bottom row, then let the tile fall one row, or spawn when the active
      cell is empty or cannot fall (the `||` never calls moveDown on an
      empty active cell). */
  function Gravity(c: Config, s: GameState, pick: nat): (r: GameState)
    requires ValidConfig(c) && Fits(c, s) && s.nextGameTick >= 1 && pick < |BlockColor|
    ensures Fits(c, r) && r.nextGameTick >= 1
  {
    var s1 := s.(state := s.state.(rowClear := false, tileAdded := false));
    var (s2, cleared) := ClearRow(c, s1);
    var s3 := if cleared then ScoreRow(c, s2) else s2;
    if !Occupied(s3.grid, s3.activeTile) then SpawnOrEnd(c, s3, pick)
    else
      var (s4, fell) := Move(c, s3, South);
      if fell then s4 else SpawnOrEnd(c, s4, pick)
  }

  /** The key switch of an active game. Every recognised direction reports a
      change, whether or not the tile could move; DOWN also zeroes tick. */
  function Steer(c: Config, s: GameState, key: Key): (r: (GameState, bool))
    requires ValidConfig(c) && Fits(c, s)
    ensures Fits(c, r.0)
    ensures r.0 == s.(grid := r.0.grid, activeTile := r.0.activeTile, tick := r.0.tick)
  {
    match key
    case Left => (Move(c, s, West).0, true)
    case Right => (Move(c, s, East).0, true)
    case Down => (HardDrop(c, s).(tick := 0), true)
    case _ => (s, false)
  }

  /** The restart of `if ((game.state == GAMEOVER) && key)`: newGame(),
      addNewTile(), TILE_ADDED and tiles++. */
  function Restart(c: Config, s: GameState, pick: nat): (r: GameState)
    requires ValidConfig(c) && Fits(c, s) && pick < |BlockColor|
    ensures Fits(c, r)
  {
    var (s1, _) := AddNewTile(c, NewGame(c, s), pick);
    s1.(state := s1.state.(tileAdded := true), tiles := s1.tiles + 1)
  }

  /** sTetris(key): the new game record and the playfieldChanged flag. */
  function Step(c: Config, s: GameState, key: Key, pick: nat): (r: (GameState, bool))
    requires ValidConfig(c) && Fits(c, s) && s.nextGameTick >= 1 && pick < |BlockColor|
    ensures Fits(c, r.0) && r.0.nextGameTick >= 1
  {
    var (s1, changed1) := if s.state.active then Steer(c, s, key) else (s, false);
    var (s2, changed2) := if s.state.active && s1.tick == 0 then (Gravity(c, s1, pick), true) else (s1, changed1);
    if s2.state == GAMEOVER && key != NoKey then (Restart(c, s2, pick), true) else (s2, changed2)
  }

  /** The driver's tick = (tick + 1) % nextGameTick. */
  function NextTick(tick: nat, nextGameTick: nat): (r: nat)
    requires nextGameTick >= 1
    ensures r < nextGameTick
    ensures tick + 1 < nextGameTick ==> r == tick + 1
    ensures tick + 1 == nextGameTick ==> r == 0
  {
    (tick + 1) % nextGameTick
  }

  /** The record as main leaves it before the loop: the zero-initialised
      global after resetPlayfield() and gameOver(). */
  function PowerOn(c: Config): (s: GameState)
    requires ValidConfig(c)
    ensures Fits(c, s) && s.state == GAMEOVER && s.nextGameTick == c.initNextGameTick
  {
    GameState(EmptyGrid(c.w, c.h), 0, 0, 0, 0, GAMEOVER, Coord(0, 0), 0, c.initNextGameTick)
  }

  // ---- What the counters must be after a given number of cleared rows ----

  /** The level after `rows` row clears: one advance at every multiple of rpl. */
  function LevelFor(rows: nat, rpl: nat): nat
    requires rpl >= 1
  {
    if rows == 0 then 0 else LevelFor(rows - 1, rpl) + (if rows % rpl == 0 then 1 else 0)
  }

  /** The score after `rows` row clears: each clear adds the level before it, plus 1. */
  function ScoreFor(rows: nat, rpl: nat): nat
    requires rpl >= 1
  {
    if rows == 0 then 0 else ScoreFor(rows - 1, rpl) + LevelFor(rows - 1, rpl) + 1
  }

  /** nextGameTick after `level` calls of advanceLevel from `init`; never below 1
      and never above the start. */
  function SpeedFor(init: nat, level: nat): (t: nat)
    requires init >= 1
    ensures 1 <= t <= init
  {
    if level == 0 then init else NextSpeed(SpeedFor(init, level - 1))
  }

  /** The invariant of every reachable game record. */
  predicate Consistent(c: Config, s: GameState)
  {
    && ValidConfig(c)
    && Fits(c, s)
    && s.tick < s.nextGameTick
    && (s.state.active || s.state == GAMEOVER)
    && s.level == LevelFor(s.rows, c.rowsPerLevel)
    && s.score == ScoreFor(s.rows, c.rowsPerLevel)
    && Count(s.grid) + c.w * s.rows == s.tiles
    && s.nextGameTick == (if s.state.active then SpeedFor(c.initNextGameTick, s.level) else c.initNextGameTick)
  }
}
