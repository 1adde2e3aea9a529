/**
 * The game record and its in-place operations. The playfield is a
 * two-dimensional array of cells indexed [y, x]; a ghost copy `grid` of its
 * contents lets every method state its effect as one of the functions of
 * module Rules applied to the record before the call.
 */
module Engine {
  import opened Colors
  import opened Playfield
  import Rules
  import RulesProps

  class Game {
    const w: nat
    const h: nat
    const rowsPerLevel: nat
    const initNextGameTick: nat
    const playfield: array2<Cell>

    var tiles: nat
    var rows: nat
    var score: nat
    var level: nat
    var state: Rules.Flags
    var activeTile: Coord
    var tick: nat
    var nextGameTick: nat

    /** The contents of `playfield`, row by row. */
    ghost var grid: Grid

    function Conf(): Rules.Config
    {
      Rules.Config(w, h, rowsPerLevel, initNextGameTick)
    }

    /** The array has the configured shape, `grid` mirrors it, and the
        active tile lies on it. */
    ghost predicate Valid()
      reads this, playfield
    {
      && Rules.ValidConfig(Conf())
      && playfield.Length0 == h && playfield.Length1 == w
      && WellFormed(grid, w, h)
      && (forall y, x :: 0 <= y < h && 0 <= x < w ==> playfield[y, x] == grid[y][x])
      && InBounds(activeTile, w, h)
    }

    /** The whole record as a value. */
    ghost function Snapshot(): Rules.GameState
      reads this
    {
      Rules.GameState(grid, tiles, rows, score, level, state, activeTile, tick, nextGameTick)
    }

    /** The record main() starts from: zeroed counters, then resetPlayfield()
        and gameOver(). */
    constructor (width: nat, height: nat, rpl: nat, initTicks: nat)
      requires Rules.ValidConfig(Rules.Config(width, height, rpl, initTicks))
      ensures Valid() && fresh(playfield)
      ensures Conf() == Rules.Config(width, height, rpl, initTicks)
      ensures Snapshot() == Rules.PowerOn(Conf())
    {
      w, h, rowsPerLevel, initNextGameTick := width, height, rpl, initTicks;
      playfield := new Cell[height, width]((y, x) => Empty);
      tiles, rows, score, level := 0, 0, 0, 0;
      state := Rules.GAMEOVER;
      activeTile := Coord(0, 0);
      tick, nextGameTick := 0, 0;
      grid := EmptyGrid(width, height);
      new;
      ResetPlayfield();
      GameOver();
    }

    // ---- The playfield primitives ----

    /** newTile: mark the cell occupied with palette entry `pick`. */
    method NewTile(target: Coord, pick: nat)
      requires Valid() && InBounds(target, w, h) && pick < |Rules.BlockColor|
      modifies this, playfield
      ensures Valid()
      ensures Snapshot() == old(Snapshot()).(grid := SetCell(old(grid), target, Cell(true, Rules.BlockColor[pick])))
    {
      playfield[target.y, target.x] := Cell(true, Rules.BlockColor[pick]);
      grid := SetCell(grid, target, Cell(true, Rules.BlockColor[pick]));
    }

    /** copyTile: the cell at `from` is copied to `to`. */
    method CopyTile(to: Coord, from: Coord)
      requires Valid() && InBounds(to, w, h) && InBounds(from, w, h)
      modifies this, playfield
      ensures Valid()
      ensures Snapshot() == old(Snapshot()).(grid := SetCell(old(grid), to, old(grid)[from.y][from.x]))
    {
      playfield[to.y, to.x] := playfield[from.y, from.x];
      grid := SetCell(grid, to, grid[from.y][from.x]);
    }

    /** resetTile: the cell becomes empty. */
    method ResetTile(target: Coord)
      requires Valid() && InBounds(target, w, h)
      modifies this, playfield
      ensures Valid()
      ensures Snapshot() == old(Snapshot()).(grid := SetCell(old(grid), target, Empty))
    {
      playfield[target.y, target.x] := Empty;
      grid := SetCell(grid, target, Empty);
    }

    /** copyRow: row `from` is copied over row `to`. */
    method CopyRow(to: nat, from: nat)
      requires Valid() && to < h && from < h
      modifies this, playfield
      ensures Valid()
      ensures Snapshot() == old(Snapshot()).(grid := old(grid)[to := old(grid)[from]])
    {
      forall x | 0 <= x < w {
        playfield[to, x] := playfield[from, x];
      }
      grid := grid[to := grid[from]];
    }

    /** resetRow: every cell of the row becomes empty. */
    method ResetRow(target: nat)
      requires Valid() && target < h
      modifies this, playfield
      ensures Valid()
      ensures Snapshot() == old(Snapshot()).(grid := old(grid)[target := EmptyRow(w)])
    {
      forall x | 0 <= x < w {
        playfield[target, x] := Empty;
      }
      grid := grid[target := EmptyRow(w)];
    }

    /** tileOccupied */
    function TileOccupied(target: Coord): (b: bool)
      requires Valid() && InBounds(target, w, h)
      reads this, playfield
      ensures b == Occupied(grid, target)
    {
      playfield[target.y, target.x].occupied
    }

    /** rowOccupied: true exactly when every cell of the row is occupied. */
    method RowOccupied(target: nat) returns (full: bool)
      requires Valid() && target < h
      ensures full <==> RowFull(grid[target])
    {
      var x := 0;
      while x < w
        invariant 0 <= x <= w
        invariant forall i :: 0 <= i < x ==> grid[target][i].occupied
      {
        if !TileOccupied(Coord(x, target)) {
          return false;
        }
        x := x + 1;
      }
      return true;
    }

    /** resetPlayfield: every row is reset. */
    method ResetPlayfield()
      requires Valid()
      modifies this, playfield
      ensures Valid()
      ensures Snapshot() == old(Snapshot()).(grid := EmptyGrid(w, h))
    {
      var y := 0;
      while y < h
        invariant 0 <= y <= h
        invariant Valid()
        invariant Snapshot() == old(Snapshot()).(grid := grid)
        invariant forall k :: 0 <= k < y ==> grid[k] == EmptyRow(w)
      {
        ResetRow(y);
        y := y + 1;
      }
      assert grid == EmptyGrid(w, h);
    }

    // ---- The game logic ----

    /** addNewTile */
    method AddNewTile(pick: nat) returns (added: bool)
      requires Valid() && pick < |Rules.BlockColor|
      modifies this, playfield
      ensures Valid()
      ensures (Snapshot(), added) == Rules.AddNewTile(Conf(), old(Snapshot()), pick)
    {
      activeTile := Coord((w - 1) / 2, 0);
      if TileOccupied(activeTile) {
        return false;
      }
      NewTile(activeTile, pick);
      return true;
    }

    /** copyTile + resetTile + the new position, shared by the three moves. */
    method MoveTo(target: Coord)
      requires Valid() && InBounds(target, w, h) && target != activeTile
      modifies this, playfield
      ensures Valid()
      ensures Snapshot() == old(Snapshot()).(grid := Moved(old(grid), old(activeTile), target), activeTile := target)
    {
      CopyTile(target, activeTile);
      ResetTile(activeTile);
      activeTile := target;
    }

    /** moveRight */
    method MoveRight() returns (moved: bool)
      requires Valid()
      modifies this, playfield
      ensures Valid()
      ensures (Snapshot(), moved) == Rules.Move(Conf(), old(Snapshot()), Rules.East)
    {
      var target := Coord(activeTile.x + 1, activeTile.y);
      if activeTile.x < w - 1 && !TileOccupied(target) {
        MoveTo(target);
        return true;
      }
      return false;
    }

    /** moveLeft. The C code forms x-1 before the test; it is only used after
        x > 0 has been checked, which the short-circuit `&&` keeps here. */
    method MoveLeft() returns (moved: bool)
      requires Valid()
      modifies this, playfield
      ensures Valid()
      ensures (Snapshot(), moved) == Rules.Move(Conf(), old(Snapshot()), Rules.West)
    {
      if activeTile.x > 0 && !TileOccupied(Coord(activeTile.x - 1, activeTile.y)) {
        MoveTo(Coord(activeTile.x - 1, activeTile.y));
        return true;
      }
      return false;
    }

    /** moveDown */
    method MoveDown() returns (moved: bool)
      requires Valid()
      modifies this, playfield
      ensures Valid()
      ensures (Snapshot(), moved) == Rules.Move(Conf(), old(Snapshot()), Rules.South)
    {
      var target := Coord(activeTile.x, activeTile.y + 1);
      if activeTile.y < h - 1 && !TileOccupied(target) {
        MoveTo(target);
        return true;
      }
      return false;
    }

    /** clearRow: when the bottom row is full, copy every row onto the one
        below it, from the bottom up, and reset row 0. */
    method ClearRow() returns (cleared: bool)
      requires Valid()
      modifies this, playfield
      ensures Valid()
      ensures (Snapshot(), cleared) == Rules.ClearRow(Conf(), old(Snapshot()))
    {
      var full := RowOccupied(h - 1);
      if !full {
        return false;
      }
      ghost var g0 := grid;
      var y := h - 1;
      while y > 0
        invariant 0 <= y < h
        invariant Valid()
        invariant Snapshot() == old(Snapshot()).(grid := grid)
        invariant forall k :: 0 <= k <= y ==> grid[k] == g0[k]
        invariant forall k :: y < k < h ==> grid[k] == g0[k - 1]
      {
        CopyRow(y, y - 1);
        y := y - 1;
      }
      ResetRow(0);
      assert grid == ShiftDown(g0, w);
      return true;
    }

    /** advanceLevel: one level up and the next delay of the speed curve. */
    method AdvanceLevel()
      requires Valid() && nextGameTick >= 1
      modifies this
      ensures Valid()
      ensures Snapshot() == Rules.AdvanceLevel(Conf(), old(Snapshot()))
    {
      level := level + 1;
      if nextGameTick == 1 {
      } else if nextGameTick <= 10 {
        nextGameTick := nextGameTick - 1;
      } else if nextGameTick <= 20 {
        nextGameTick := nextGameTick - 2;
      } else {
        nextGameTick := nextGameTick - 10;
      }
    }

    /** newGame */
    method NewGame()
      requires Valid()
      modifies this, playfield
      ensures Valid()
      ensures Snapshot() == Rules.NewGame(Conf(), old(Snapshot()))
    {
      state := Rules.ACTIVE;
      tiles, rows, score, tick, level := 0, 0, 0, 0, 0;
      ResetPlayfield();
    }

    /** gameOver */
    method GameOver()
      requires Valid()
      modifies this
      ensures Valid()
      ensures Snapshot() == Rules.GameOver(Conf(), old(Snapshot()))
    {
      state := Rules.GAMEOVER;
      nextGameTick := initNextGameTick;
    }

    /** The `if (game.tick == 0)` block of sTetris. */
    method GravityStep(pick: nat)
      requires Valid() && nextGameTick >= 1 && pick < |Rules.BlockColor|
      modifies this, playfield
      ensures Valid()
      ensures Snapshot() == Rules.Gravity(Conf(), old(Snapshot()), pick)
    {
      state := state.(rowClear := false, tileAdded := false);
      ghost var s1 := Snapshot();
      var cleared := ClearRow();
      ghost var s2 := Snapshot();
      if cleared {
        ScoreRow();
      }
      ghost var s3 := Snapshot();
      assert s3 == if cleared then Rules.ScoreRow(Conf(), s2) else s2;
      var spawn := !TileOccupied(activeTile);
      if !spawn {
        var fell := MoveDown();
        spawn := !fell;
      }
      if spawn {
        SpawnOrEnd(pick);
      }
    }

    /** The bookkeeping after clearRow() succeeded: ROW_CLEAR, rows++,
        score += level + 1, advanceLevel() at each multiple of rowsPerLevel. */
    method ScoreRow()
      requires Valid() && nextGameTick >= 1
      modifies this
      ensures Valid()
      ensures Snapshot() == Rules.ScoreRow(Conf(), old(Snapshot()))
    {
      state := state.(rowClear := true);
      rows := rows + 1;
      score := score + level + 1;
      if rows % rowsPerLevel == 0 {
        AdvanceLevel();
      }
    }

    /** `if (addNewTile()) { TILE_ADDED; tiles++ } else gameOver()`. */
    method SpawnOrEnd(pick: nat)
      requires Valid() && pick < |Rules.BlockColor|
      modifies this, playfield
      ensures Valid()
      ensures Snapshot() == Rules.SpawnOrEnd(Conf(), old(Snapshot()), pick)
    {
      var added := AddNewTile(pick);
      if added {
        state := state.(tileAdded := true);
        tiles := tiles + 1;
      } else {
        GameOver();
      }
    }

    /** while (moveDown()) {} */
    method HardDrop()
      requires Valid()
      modifies this, playfield
      ensures Valid()
      ensures Snapshot() == Rules.HardDrop(Conf(), old(Snapshot()))
    {
      var moved := MoveDown();
      while moved
        invariant Valid()
        invariant Rules.HardDrop(Conf(), Snapshot()) == Rules.HardDrop(Conf(), old(Snapshot()))
        invariant !moved ==> Rules.HardDrop(Conf(), Snapshot()) == Snapshot()
        decreases h - activeTile.y + (if moved then 1 else 0)
      {
        moved := MoveDown();
      }
    }

    /** The key switch of sTetris for a running game. */
    method Steer(key: Rules.Key) returns (changed: bool)
      requires Valid()
      modifies this, playfield
      ensures Valid()
      ensures (Snapshot(), changed) == Rules.Steer(Conf(), old(Snapshot()), key)
    {
      if key == Rules.NoKey {
        return false;
      }
      changed := true;
      match key {
        case Left =>
          var _ := MoveLeft();
        case Right =>
          var _ := MoveRight();
        case Down =>
          HardDrop();
          tick := 0;
        case _ =>
          changed := false;
      }
    }

    /** newGame(); addNewTile(); TILE_ADDED; tiles++ */
    method Restart(pick: nat)
      requires Valid() && pick < |Rules.BlockColor|
      modifies this, playfield
      ensures Valid()
      ensures Snapshot() == Rules.Restart(Conf(), old(Snapshot()), pick)
    {
      NewGame();
      var _ := AddNewTile(pick);
      state := state.(tileAdded := true);
      tiles := tiles + 1;
    }

    /** sTetris(key): one step of the game; the result says whether the
        playfield needs to be drawn again. */
    method STetris(key: Rules.Key, pick: nat) returns (changed: bool)
      requires Valid() && nextGameTick >= 1 && pick < |Rules.BlockColor|
      modifies this, playfield
      ensures Valid()
      ensures (Snapshot(), changed) == Rules.Step(Conf(), old(Snapshot()), key, pick)
    {
      changed := false;
      if state.active {
        changed := Steer(key);
        if tick == 0 {
          changed := true;
          GravityStep(pick);
        }
      }
      if state == Rules.GAMEOVER && key != Rules.NoKey {
        changed := true;
        Restart(pick);
      }
    }

    /** The driver's tick = (tick + 1) % nextGameTick. */
    method AdvanceTick()
      requires Valid() && nextGameTick >= 1
      modifies this
      ensures Valid()
      ensures Snapshot() == old(Snapshot()).(tick := Rules.NextTick(old(tick), old(nextGameTick)))
    {
      tick := (tick + 1) % nextGameTick;
    }

    /** One pass of main's loop for a key already read: ENTER leaves the loop;
        any other key runs sTetris and the tick update. The game invariant
        holds before and after. */
    method RunOnce(key: Rules.Key, pick: nat) returns (quit: bool, changed: bool)
      requires Valid() && Rules.Consistent(Conf(), Snapshot()) && pick < |Rules.BlockColor|
      modifies this, playfield
      ensures Valid() && Rules.Consistent(Conf(), Snapshot())
      ensures quit <==> key == Rules.Enter
      ensures quit ==> Snapshot() == old(Snapshot()) && !changed
      ensures !quit ==> var (s, c) := Rules.Step(Conf(), old(Snapshot()), key, pick);
                        Snapshot() == s.(tick := Rules.NextTick(s.tick, s.nextGameTick)) && changed == c
    {
      if key == Rules.Enter {
        return true, false;
      }
      RulesProps.StepKeepsConsistent(Conf(), Snapshot(), key, pick);
      changed := STetris(key, pick);
      RulesProps.NextTickKeepsConsistent(Conf(), Snapshot());
      AdvanceTick();
      quit := false;
    }
  }
}
