/**
 * Properties of the game state machine: what each operation does to the
 * playfield and the counters, the invariant every step keeps, the speed and
 * level curves, and the behaviour of sTetris for the keys it recognises.
 */
module RulesProps {
  import opened Colors
  import opened Playfield
  import opened Rules

  // ---- Single operations ----

  /** A move happens exactly when the wall test passes and the neighbour is
      free; the tile's cell travels one step, its old cell is left empty and
      the number of occupied cells is kept. A refused move changes nothing. */
  lemma MoveSemantics(c: Config, s: GameState, d: Direction)
    requires ValidConfig(c) && Fits(c, s)
    ensures var (r, moved) := Move(c, s, d);
      && (moved <==> OffWall(c, s.activeTile, d) && !Occupied(s.grid, Target(s.activeTile, d)))
      && (moved ==> r.activeTile == Target(s.activeTile, d)
                    && r.grid[r.activeTile.y][r.activeTile.x] == s.grid[s.activeTile.y][s.activeTile.x]
                    && r.grid[s.activeTile.y][s.activeTile.x] == Empty)
      && (!moved ==> r == s)
      && Count(r.grid) == Count(s.grid)
  {
    if OffWall(c, s.activeTile, d) && !Occupied(s.grid, Target(s.activeTile, d)) {
      CountMoved(s.grid, s.activeTile, Target(s.activeTile, d));
    }
  }

  /** while (moveDown()) {}: the tile stays in its column, never rises, keeps
      its cell contents, and ends where one more moveDown would fail: on the
      bottom row or on top of an occupied cell. */
  lemma {:induction false} HardDropSettles(c: Config, s: GameState)
    requires ValidConfig(c) && Fits(c, s)
    ensures var r := HardDrop(c, s);
      && r.activeTile.x == s.activeTile.x
      && r.activeTile.y >= s.activeTile.y
      && r.grid[r.activeTile.y][r.activeTile.x] == s.grid[s.activeTile.y][s.activeTile.x]
      && (r.activeTile.y == c.h - 1 || Occupied(r.grid, Coord(r.activeTile.x, r.activeTile.y + 1)))
      && !Move(c, r, South).1
      && Count(r.grid) == Count(s.grid)
    decreases c.h - s.activeTile.y
  {
    MoveSemantics(c, s, South);
    var (s', moved) := Move(c, s, South);
    if moved {
      HardDropSettles(c, s');
    }
  }

  /** clearRow clears exactly when the bottom row is full, and then removes
      one row's worth of occupied cells; rows 0..h-2 move one down. */
  lemma ClearRowSemantics(c: Config, s: GameState)
    requires ValidConfig(c) && Fits(c, s)
    ensures var (r, cleared) := ClearRow(c, s);
      && (cleared <==> RowFull(s.grid[c.h - 1]))
      && (cleared ==> Count(r.grid) + c.w == Count(s.grid)
                      && r.grid[0] == EmptyRow(c.w)
                      && forall y :: 1 <= y < c.h ==> r.grid[y] == s.grid[y - 1])
      && (!cleared ==> r == s)
  {
    if RowFull(s.grid[c.h - 1]) {
      CountShiftDown(s.grid, c.w);
    }
  }

  /** addNewTile always moves the active tile to the spawn point; it succeeds
      exactly when that cell is free, and then occupies it with the picked
      colour, adding one occupied cell; otherwise the playfield is untouched. */
  lemma AddNewTileSemantics(c: Config, s: GameState, pick: nat)
    requires ValidConfig(c) && Fits(c, s) && pick < |BlockColor|
    ensures var (r, added) := AddNewTile(c, s, pick);
      && r.activeTile == SpawnPoint(c)
      && (added <==> !Occupied(s.grid, SpawnPoint(c)))
      && (added ==> r.grid[0][SpawnPoint(c).x] == Cell(true, BlockColor[pick])
                    && Count(r.grid) == Count(s.grid) + 1)
      && (!added ==> r.grid == s.grid)
  {
    var p := SpawnPoint(c);
    if !Occupied(s.grid, p) {
      CountSetCell(s.grid, p, Cell(true, BlockColor[pick]));
    }
  }

  // ---- Speed, level and score curves ----

  /** Each advanceLevel lowers the delay by at least one until it reaches 1,
      so after `level` advances the delay is at most max(1, init - level). */
  lemma {:induction false} SpeedBound(init: nat, level: nat)
    requires init >= 1
    ensures SpeedFor(init, level) <= if level < init then init - level else 1
  {
    if level > 0 {
      SpeedBound(init, level - 1);
    }
  }

  /** The delay reaches 1 after at most init - 1 advances and stays there. */
  lemma SpeedReachesOne(init: nat, level: nat)
    requires init >= 1 && level >= init - 1
    ensures SpeedFor(init, level) == 1
  {
    SpeedBound(init, level);
  }

  /** The whole curve from the configured start of 50 ticks, level by level
      until it reaches 1. */
  lemma SpeedCurveFrom50()
    ensures forall l :: 0 <= l <= 17 ==>
      SpeedFor(50, l) == [50, 40, 30, 20, 18, 16, 14, 12, 10, 9, 8, 7, 6, 5, 4, 3, 2, 1][l]
  {
    assert SpeedFor(50, 1) == 40;
    assert SpeedFor(50, 2) == 30;
    assert SpeedFor(50, 3) == 20;
    assert SpeedFor(50, 4) == 18;
    assert SpeedFor(50, 5) == 16;
    assert SpeedFor(50, 6) == 14;
    assert SpeedFor(50, 7) == 12;
    assert SpeedFor(50, 8) == 10;
    assert SpeedFor(50, 9) == 9;
    assert SpeedFor(50, 10) == 8;
    assert SpeedFor(50, 11) == 7;
    assert SpeedFor(50, 12) == 6;
    assert SpeedFor(50, 13) == 5;
    assert SpeedFor(50, 14) == 4;
    assert SpeedFor(50, 15) == 3;
    assert SpeedFor(50, 16) == 2;
    assert SpeedFor(50, 17) == 1;
  }

  /** From 50 the delay is 1 from level 17 on. */
  lemma {:induction false} SpeedStaysAtOne(level: nat)
    requires level >= 17
    ensures SpeedFor(50, level) == 1
  {
    if level == 17 {
      SpeedCurveFrom50();
    } else {
      SpeedStaysAtOne(level - 1);
    }
  }

  lemma {:induction false} MulAtLeast(a: nat, d: nat)
    requires a >= 1
    ensures a * d >= d
  {
    if a > 1 {
      MulAtLeast(a - 1, d);
      assert a * d == (a - 1) * d + d;
    }
  }

  /** Quotient and remainder are the only ones with 0 <= r < d. */
  lemma DivUnique(n: int, d: int, q: int, r: int)
    requires d >= 1 && 0 <= r < d && n == q * d + r
    ensures n / d == q && n % d == r
  {
    var q0, r0 := n / d, n % d;
    assert n == q0 * d + r0;
    assert (q - q0) * d == r0 - r;
    if q > q0 {
      MulAtLeast(q - q0, d);
    } else if q < q0 {
      MulAtLeast(q0 - q, d);
    }
  }

  lemma DivStep(n: nat, d: nat)
    requires n >= 1 && d >= 1
    ensures n / d == (n - 1) / d + (if n % d == 0 then 1 else 0)
  {
    var q, r := (n - 1) / d, (n - 1) % d;
    if r == d - 1 {
      DivUnique(n, d, q + 1, 0);
    } else {
      DivUnique(n, d, q, r + 1);
    }
  }

  /** The level is the number of completed groups of rowsPerLevel rows. */
  lemma {:induction false} LevelIsQuotient(rows: nat, rpl: nat)
    requires rpl >= 1
    ensures LevelFor(rows, rpl) == rows / rpl
  {
    if rows > 0 {
      LevelIsQuotient(rows - 1, rpl);
      DivStep(rows, rpl);
    }
  }

  /** Clearing the (n+1)-th row is worth the level reached after n rows, plus one. */
  lemma ScoreGrowth(n: nat, rpl: nat)
    requires rpl >= 1
    ensures ScoreFor(n + 1, rpl) == ScoreFor(n, rpl) + n / rpl + 1
  {
    LevelIsQuotient(n, rpl);
  }

  /** Every cleared row is worth at least one point. */
  lemma {:induction false} ScoreAtLeastRows(n: nat, rpl: nat)
    requires rpl >= 1
    ensures ScoreFor(n, rpl) >= n
  {
    if n > 0 {
      ScoreAtLeastRows(n - 1, rpl);
    }
  }

  /** With two rows per level the first four rows are worth 1, 1, 2, 2. */
  /** With two rows per level the score after 2m cleared rows is m(m+1):
      it grows with the square of the rows. */
  lemma {:induction false} ScoreTwoRowsPerLevel(m: nat)
    ensures ScoreFor(2 * m, 2) == m * (m + 1)
  {
    if m > 0 {
      ScoreTwoRowsPerLevel(m - 1);
      ScoreGrowth(2 * m - 2, 2);
      ScoreGrowth(2 * m - 1, 2);
      assert (2 * m - 2) / 2 == m - 1;
      assert (2 * m - 1) / 2 == m - 1;
    }
  }

  /** On the Sense HAT configuration the score passes 2^32, the range of the
      C counter, after 131072 cleared rows. */
  lemma ScoreExceeds32Bits()
    ensures ScoreFor(131072, 2) >= 0x1_0000_0000
    ensures 131072 < 0x1_0000_0000
  {
    ScoreTwoRowsPerLevel(65536);
  }

  lemma SenseHatScores()
    ensures ScoreFor(1, 2) == 1 && ScoreFor(2, 2) == 2 && ScoreFor(3, 2) == 4 && ScoreFor(4, 2) == 6
    ensures LevelFor(4, 2) == 2
  {
  }

  // ---- The invariant ----

  /** The record main builds before its loop satisfies the invariant. */
  lemma InitialConsistent(c: Config)
    requires ValidConfig(c)
    ensures Consistent(c, PowerOn(c))
  {
    CountEmptyGrid(c.w, c.h);
  }

  lemma MoveKeepsConsistent(c: Config, s: GameState, d: Direction)
    requires Consistent(c, s)
    ensures Consistent(c, Move(c, s, d).0)
  {
    MoveSemantics(c, s, d);
  }

  lemma {:induction false} HardDropKeepsConsistent(c: Config, s: GameState)
    requires Consistent(c, s)
    ensures Consistent(c, HardDrop(c, s))
    decreases c.h - s.activeTile.y
  {
    MoveKeepsConsistent(c, s, South);
    var (s', moved) := Move(c, s, South);
    if moved {
      HardDropKeepsConsistent(c, s');
    }
  }

  lemma SteerKeepsConsistent(c: Config, s: GameState, key: Key)
    requires Consistent(c, s)
    ensures Consistent(c, Steer(c, s, key).0)
  {
    match key
    case Left => MoveKeepsConsistent(c, s, West);
    case Right => MoveKeepsConsistent(c, s, East);
    case Down => HardDropKeepsConsistent(c, s);
    case _ =>
  }

  lemma SpawnOrEndKeepsConsistent(c: Config, s: GameState, pick: nat)
    requires Consistent(c, s) && s.state.active && pick < |BlockColor|
    ensures Consistent(c, SpawnOrEnd(c, s, pick))
  {
    AddNewTileSemantics(c, s, pick);
    var (s', added) := AddNewTile(c, s, pick);
    if added {
      var r := s'.(state := s'.state.(tileAdded := true), tiles := s'.tiles + 1);
      assert Count(r.grid) + c.w * r.rows == r.tiles;
      assert r.nextGameTick == s.nextGameTick && r.level == s.level && r.state.active == s.state.active;
    } else {
      var r := GameOver(c, s');
      assert r.tick == s.tick < s.nextGameTick <= c.initNextGameTick;
    }
  }

  /** A cleared row adds one to rows and keeps level, score, speed and the
      cell count in step with it. */
  lemma ScoreRowKeepsConsistent(c: Config, s: GameState)
    requires Consistent(c, s) && s.state.active && s.tick == 0 && RowFull(s.grid[c.h - 1])
    ensures Consistent(c, ScoreRow(c, ClearRow(c, s).0))
  {
    ClearRowSemantics(c, s);
    var s2 := ClearRow(c, s).0;
    assert c.w * (s.rows + 1) == c.w * s.rows + c.w;
    assert LevelFor(s.rows + 1, c.rowsPerLevel) == s.level + (if (s.rows + 1) % c.rowsPerLevel == 0 then 1 else 0);
  }

  lemma GravityKeepsConsistent(c: Config, s: GameState, pick: nat)
    requires Consistent(c, s) && s.state.active && s.tick == 0 && pick < |BlockColor|
    ensures Consistent(c, Gravity(c, s, pick))
  {
    var s1 := s.(state := s.state.(rowClear := false, tileAdded := false));
    assert Consistent(c, s1);
    var (s2, cleared) := ClearRow(c, s1);
    var s3 := if cleared then ScoreRow(c, s2) else s2;
    if cleared {
      ScoreRowKeepsConsistent(c, s1);
    }
    assert Consistent(c, s3);
    if !Occupied(s3.grid, s3.activeTile) {
      SpawnOrEndKeepsConsistent(c, s3, pick);
    } else {
      MoveKeepsConsistent(c, s3, South);
      var (s4, fell) := Move(c, s3, South);
      if !fell {
        SpawnOrEndKeepsConsistent(c, s4, pick);
      }
    }
  }

  /** A restart yields a fresh game: one tile at the spawn point, no rows, no
      score, level 0, ACTIVE with TILE_ADDED, and the delay it found. */
  lemma RestartSemantics(c: Config, s: GameState, pick: nat)
    requires ValidConfig(c) && Fits(c, s) && pick < |BlockColor|
    ensures var r := Restart(c, s, pick);
      && r.state == Flags(true, false, true)
      && r.tiles == 1 && r.rows == 0 && r.score == 0 && r.level == 0 && r.tick == 0
      && r.activeTile == SpawnPoint(c)
      && Count(r.grid) == 1
      && r.grid[0][SpawnPoint(c).x] == Cell(true, BlockColor[pick])
      && r.nextGameTick == s.nextGameTick
  {
    var n := NewGame(c, s);
    AddNewTileSemantics(c, n, pick);
  }

  /** Every call of sTetris keeps the invariant, whatever the key and the
      random pick. */
  lemma StepKeepsConsistent(c: Config, s: GameState, key: Key, pick: nat)
    requires Consistent(c, s) && pick < |BlockColor|
    ensures Consistent(c, Step(c, s, key, pick).0)
  {
    var (s1, changed1) := if s.state.active then Steer(c, s, key) else (s, false);
    if s.state.active {
      SteerKeepsConsistent(c, s, key);
    }
    var (s2, changed2) := if s.state.active && s1.tick == 0 then (Gravity(c, s1, pick), true) else (s1, changed1);
    if s.state.active && s1.tick == 0 {
      GravityKeepsConsistent(c, s1, pick);
    }
    if s2.state == GAMEOVER && key != NoKey {
      RestartSemantics(c, s2, pick);
      CountEmptyGrid(c.w, c.h);
    }
  }

  /** The driver's tick update keeps the invariant. */
  lemma NextTickKeepsConsistent(c: Config, s: GameState)
    requires Consistent(c, s)
    ensures Consistent(c, s.(tick := NextTick(s.tick, s.nextGameTick)))
  {
  }

  // ---- The key handling of sTetris ----

  /** In a running game LEFT, RIGHT and DOWN always report a change, even when
      the tile cannot move (a press of LEFT against the wall included). */
  lemma DirectionKeySetsChanged(c: Config, s: GameState, key: Key, pick: nat)
    requires Consistent(c, s) && s.state.active && pick < |BlockColor|
    requires key == Left || key == Right || key == Down
    ensures Step(c, s, key, pick).1
  {
  }

  /** LEFT against the left wall between gravity ticks leaves the game as it
      is but still reports a change. */
  lemma LeftAtWall(c: Config, s: GameState, pick: nat)
    requires Consistent(c, s) && s.state.active && s.tick != 0 && s.activeTile.x == 0 && pick < |BlockColor|
    ensures Step(c, s, Left, pick) == (s, true)
  {
  }

  /** Without a key and between ticks, sTetris changes nothing and reports no change. */
  lemma IdleStep(c: Config, s: GameState, pick: nat)
    requires Consistent(c, s) && s.tick != 0 && pick < |BlockColor|
    ensures Step(c, s, NoKey, pick) == (s, false)
  {
  }

  /** A key that is not a direction (UP) between ticks changes nothing and
      reports no change. */
  lemma OtherKeyIdle(c: Config, s: GameState, pick: nat)
    requires Consistent(c, s) && s.state.active && s.tick != 0 && pick < |BlockColor|
    ensures Step(c, s, Up, pick) == (s, false)
  {
  }

  /** A gravity step in a running game always reports a change. */
  lemma GravityReportsChange(c: Config, s: GameState, key: Key, pick: nat)
    requires Consistent(c, s) && s.state.active && s.tick == 0 && pick < |BlockColor|
    ensures Step(c, s, key, pick).1
  {
  }

  /** A finished game waits: without a key nothing changes. */
  lemma GameOverIdle(c: Config, s: GameState, pick: nat)
    requires Consistent(c, s) && s.state == GAMEOVER && pick < |BlockColor|
    ensures Step(c, s, NoKey, pick) == (s, false)
  {
  }

  /** Any key in a finished game starts a new one. */
  lemma RestartFromGameOver(c: Config, s: GameState, key: Key, pick: nat)
    requires Consistent(c, s) && s.state == GAMEOVER && key != NoKey && pick < |BlockColor|
    ensures var (r, changed) := Step(c, s, key, pick);
      && changed && r.state == Flags(true, false, true)
      && r.tiles == 1 && r.rows == 0 && r.score == 0 && r.level == 0
      && r.activeTile == SpawnPoint(c) && Count(r.grid) == 1
      && r.grid[0][SpawnPoint(c).x].occupied && r.tick == 0
      && r.nextGameTick == c.initNextGameTick
  {
    RestartSemantics(c, s, pick);
  }

  /** A running game that ends in a call made with a key restarts in that
      same call: the gravity step reaches gameOver() and the restart block
      then starts a fresh game at the initial delay. */
  lemma EndAndRestartInOneCall(c: Config, s: GameState, key: Key, pick: nat)
    requires Consistent(c, s) && s.state.active && key != NoKey && pick < |BlockColor|
    requires Steer(c, s, key).0.tick == 0
    requires Gravity(c, Steer(c, s, key).0, pick).state == GAMEOVER
    ensures var (r, changed) := Step(c, s, key, pick);
      && changed && r.state == Flags(true, false, true)
      && r.tiles == 1 && r.rows == 0 && r.score == 0 && r.level == 0 && r.tick == 0
      && r.activeTile == SpawnPoint(c) && Count(r.grid) == 1
      && r.grid[0][SpawnPoint(c).x].occupied
      && r.nextGameTick == c.initNextGameTick
  {
    var s1 := Steer(c, s, key).0;
    SteerKeepsConsistent(c, s, key);
    GravityKeepsConsistent(c, s1, pick);
    RestartSemantics(c, Gravity(c, s1, pick), pick);
  }

  /** Between ticks the ROW_CLEAR and TILE_ADDED bits of the last gravity step
      stay visible; only a gravity step clears them. */
  lemma FlagsPersistWithoutGravity(c: Config, s: GameState, key: Key, pick: nat)
    requires Consistent(c, s) && s.state.active && s.tick != 0 && key != Down && pick < |BlockColor|
    ensures Step(c, s, key, pick).0.state == s.state
  {
  }

  /** A running game ends only in a gravity step whose spawn point is taken,
      and only when no key was pressed (a key would restart it at once). */
  lemma GameEndsOnlyAtBlockedSpawn(c: Config, s: GameState, key: Key, pick: nat)
    requires Consistent(c, s) && s.state.active && pick < |BlockColor|
    requires Step(c, s, key, pick).0.state == GAMEOVER
    ensures key == NoKey && s.tick == 0
    ensures Occupied(Step(c, s, key, pick).0.grid, SpawnPoint(c))
    ensures Step(c, s, key, pick).0.activeTile == SpawnPoint(c)
  {
    var s1 := Steer(c, s, key).0;
    var s1' := s1.(state := s1.state.(rowClear := false, tileAdded := false));
    var (s2, cleared) := ClearRow(c, s1');
    var s3 := if cleared then ScoreRow(c, s2) else s2;
    AddNewTileSemantics(c, s3, pick);
    if !Occupied(s3.grid, s3.activeTile) {
    } else {
      var (s4, fell) := Move(c, s3, South);
      AddNewTileSemantics(c, s4, pick);
    }
  }

  /** In a running game a gravity step that clears the bottom row adds one
      row, adds level+1 to the score, advances the level exactly when rows
      becomes a multiple of rowsPerLevel, and sets ROW_CLEAR unless the game ends. */
  lemma GravityRowClear(c: Config, s: GameState, pick: nat)
    requires Consistent(c, s) && s.state.active && s.tick == 0 && pick < |BlockColor|
    requires RowFull(s.grid[c.h - 1])
    ensures var r := Gravity(c, s, pick);
      && r.rows == s.rows + 1
      && r.score == s.score + s.level + 1
      && (r.level == s.level + 1 <==> (s.rows + 1) % c.rowsPerLevel == 0)
      && (r.level == s.level <==> (s.rows + 1) % c.rowsPerLevel != 0)
      && (r.state.active ==> r.state.rowClear)
  {
  }

  /** A gravity step with a free cell below the (occupied) active tile and a
      bottom row that is not full lets the tile fall one row, nothing else. */
  lemma GravityFall(c: Config, s: GameState, pick: nat)
    requires Consistent(c, s) && s.state.active && s.tick == 0 && pick < |BlockColor|
    requires !RowFull(s.grid[c.h - 1]) && Occupied(s.grid, s.activeTile)
    requires s.activeTile.y < c.h - 1 && !Occupied(s.grid, Coord(s.activeTile.x, s.activeTile.y + 1))
    ensures var b := Coord(s.activeTile.x, s.activeTile.y + 1);
      Gravity(c, s, pick) == s.(grid := Moved(s.grid, s.activeTile, b), activeTile := b, state := Flags(true, false, false))
  {
  }

  /** DOWN drops the tile as far as it goes and, in the same call, lands it
      and spawns the next one (when the landing row is not full and the spawn
      point is free); the dropped cell stays where it landed. */
  lemma DownLandsAndSpawns(c: Config, s: GameState, pick: nat)
    requires Consistent(c, s) && s.state.active && pick < |BlockColor|
    requires var d := HardDrop(c, s);
      Occupied(d.grid, d.activeTile) && !RowFull(d.grid[c.h - 1]) && !Occupied(d.grid, SpawnPoint(c))
    ensures var d := HardDrop(c, s);
      var (r, changed) := Step(c, s, Down, pick);
      && changed && r.tick == 0
      && r.state == Flags(true, false, true)
      && r.tiles == s.tiles + 1
      && r.activeTile == SpawnPoint(c)
      && r.grid[d.activeTile.y][d.activeTile.x] == d.grid[d.activeTile.y][d.activeTile.x]
  {
    var d := HardDrop(c, s);
    HardDropSettles(c, s);
    var d0 := d.(tick := 0);
    var d1 := d0.(state := d0.state.(rowClear := false, tileAdded := false));
    assert ClearRow(c, d1) == (d1, false);
    assert !Move(c, d1, South).1;
    AddNewTileSemantics(c, d1, pick);
    assert d.activeTile != SpawnPoint(c);
  }

  /** The spawn block of a gravity step: the active tile goes to the spawn
      cell; a free cell gets the new tile with TILE_ADDED and one more tile, a
      taken cell ends the game at the initial delay. */
  lemma SpawnOrEndSemantics(c: Config, s: GameState, pick: nat)
    requires ValidConfig(c) && Fits(c, s) && pick < |BlockColor|
    ensures var p := SpawnPoint(c);
      var r := SpawnOrEnd(c, s, pick);
      && (Occupied(s.grid, p) ==>
            r == s.(activeTile := p, state := GAMEOVER, nextGameTick := c.initNextGameTick))
      && (!Occupied(s.grid, p) ==>
            r == s.(activeTile := p, grid := SetCell(s.grid, p, Cell(true, BlockColor[pick])),
                    state := s.state.(tileAdded := true), tiles := s.tiles + 1))
  {
  }

  /** A gravity step whose tile cannot fall (it rests on the floor or on an
      occupied cell) and whose bottom row is not full lands the tile and
      spawns the next one, or ends the game when the spawn cell is taken. */
  lemma GravityLands(c: Config, s: GameState, pick: nat)
    requires Consistent(c, s) && s.state.active && s.tick == 0 && pick < |BlockColor|
    requires !RowFull(s.grid[c.h - 1]) && Occupied(s.grid, s.activeTile)
    requires s.activeTile.y == c.h - 1 || Occupied(s.grid, Coord(s.activeTile.x, s.activeTile.y + 1))
    ensures var p := SpawnPoint(c);
      var r := Gravity(c, s, pick);
      && (Occupied(s.grid, p) ==>
            r == s.(activeTile := p, state := GAMEOVER, nextGameTick := c.initNextGameTick))
      && (!Occupied(s.grid, p) ==>
            r == s.(activeTile := p, grid := SetCell(s.grid, p, Cell(true, BlockColor[pick])),
                    state := Flags(true, false, true), tiles := s.tiles + 1))
  {
    var s1 := s.(state := s.state.(rowClear := false, tileAdded := false));
    assert ClearRow(c, s1) == (s1, false);
    assert Move(c, s1, South) == (s1, false);
    SpawnOrEndSemantics(c, s1, pick);
  }

  /** A gravity step that clears the bottom row and so empties the active
      cell skips moveDown and always spawns: row 0 of the shifted playfield
      is empty, so the spawn cell is free. */
  lemma GravityClearedSpawn(c: Config, s: GameState, pick: nat)
    requires Consistent(c, s) && s.state.active && s.tick == 0 && pick < |BlockColor|
    requires RowFull(s.grid[c.h - 1]) && !Occupied(ShiftDown(s.grid, c.w), s.activeTile)
    ensures var r := Gravity(c, s, pick);
      && r.state == Flags(true, true, true)
      && r.tiles == s.tiles + 1
      && r.rows == s.rows + 1
      && r.activeTile == SpawnPoint(c)
      && r.grid == SetCell(ShiftDown(s.grid, c.w), SpawnPoint(c), Cell(true, BlockColor[pick]))
  {
    var s1 := s.(state := s.state.(rowClear := false, tileAdded := false));
    var s3 := ScoreRow(c, s1.(grid := ShiftDown(s.grid, c.w)));
    assert !Occupied(s3.grid, SpawnPoint(c));
    SpawnOrEndSemantics(c, s3, pick);
  }

  /** Without a key, a tile that lands while the spawn cell is taken ends the
      game in that call: the record keeps its playfield and counters, the
      state is 0 and the delay returns to its initial value. */
  lemma LandingEndsGame(c: Config, s: GameState, pick: nat)
    requires Consistent(c, s) && s.state.active && s.tick == 0 && pick < |BlockColor|
    requires !RowFull(s.grid[c.h - 1]) && Occupied(s.grid, s.activeTile)
    requires s.activeTile.y == c.h - 1 || Occupied(s.grid, Coord(s.activeTile.x, s.activeTile.y + 1))
    requires Occupied(s.grid, SpawnPoint(c))
    ensures Step(c, s, NoKey, pick)
      == (s.(activeTile := SpawnPoint(c), state := GAMEOVER, nextGameTick := c.initNextGameTick), true)
  {
    GravityLands(c, s, pick);
  }

  // ---- A game on the 8x8 Sense HAT board ----

  /** The first key after power-on starts a game with one tile at column 3 of
      the top row. */
  lemma SenseHatStart(key: Key, pick: nat)
    requires key != NoKey && pick < |BlockColor|
    ensures var (r, changed) := Step(SenseHat, PowerOn(SenseHat), key, pick);
      && changed && r.state == Flags(true, false, true) && r.tiles == 1
      && r.activeTile == Coord(3, 0) && r.nextGameTick == 50
      && r.grid[0][3] == Cell(true, BlockColor[pick])
  {
    var s := PowerOn(SenseHat);
    assert Step(SenseHat, s, key, pick) == (Restart(SenseHat, s, pick), true);
    RestartSemantics(SenseHat, s, pick);
    assert SpawnPoint(SenseHat) == Coord(3, 0);
  }
}
