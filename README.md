# STetris engine and colour parsing in Dafny

STetris is a single-cell falling-block game for the 8x8 LED matrix of a
Raspberry Pi Sense HAT. It is written in C in five variants:

- `stetris_rpi_and_console.c`
- `stetris_rpi.c`, whose cells carry a colour
- `stetris.c`
- `stetris_console.c`
- `stetris_v2.c`

All five share one game record and one game logic.

- **The record.** It holds the playfield (an array of cells, row 0 at the top), the active tile, and the counters: tiles, rows, score and level.
- **The state bits.** `ACTIVE`, `ROW_CLEAR` and `TILE_ADDED` make up the state; a value of 0 means game over.
- **The two ticks.** `tick` counts up and wraps at `nextGameTick`.
- **The step.** Each tick, `sTetris(key)`:
  - moves the tile for LEFT, RIGHT and DOWN (DOWN drops it as far as it goes);
  - on `tick == 0`, runs a gravity step: clear a full bottom row, let the tile fall one row, or spawn a new tile;
  - restarts a finished game on any key.

A separate program, `fb_test.c`, sets one pixel from the command line. It normalises a colour name with `normalize_string`, maps it with `parse_color`, and checks its arguments in `main`.

The model has five modules:

- `Colors` (colors.dfy): the colour enumeration and its RGB565 words.
- `Playfield` (playfield.dfy): the playfield as a value (`seq<seq<Cell>>`).
  - Cell operations: set, move and shift down.
  - A count of occupied cells, with lemmas saying how each operation changes it.
- `Rules` (rules.dfy): each C function of the game logic as a function over a value of the game record.
  - Operations: addNewTile, the moves, clearRow, advanceLevel, newGame, gameOver, the blocks of sTetris, sTetris itself, and the driver's tick update.
  - Curves for level, score and speed after a given number of cleared rows.
  - The invariant `Consistent` of every reachable record.
- `RulesProps` (rules_props.dfy): what each operation does, that every step keeps `Consistent`, the speed and level curves, and how sTetris reacts to keys.
- `Engine` (engine.dfy): class `Game`, the record with its playfield as an `array2<Cell>` updated in place.
  - Every C function is a method, except tileOccupied, which is a function. Each method's postcondition states the new record.
  - The playfield primitives are stated through `Playfield` (`SetCell`, `EmptyRow`, `EmptyGrid`, `RowFull`). addNewTile, the moves, clearRow, advanceLevel, newGame, gameOver and sTetris equate the new record with the `Rules` function applied to the old one.
  - `RunOnce` is one pass of `main`'s loop and keeps `Consistent`.
- `ColorParse` (color_parse.dfy): `normalize_string` on a NUL-terminated `array<char>`, `parse_color`, and the argument checks of `fb_test.c`'s `main`.

All five game variants behave the same. Apart from comments they differ only in the form of rowOccupied (a flag and `break` in `stetris_console.c` and `stetris_rpi.c`) and in the colour field of `stetris_rpi.c`'s cells. They share one configuration: an 8x8 grid, two rows per level, and an initial delay of 50 ticks. One model covers all of them:

- The cells carry the colour of `stetris_rpi.c`.
- The monochrome variants are the `occupied` projection; no operation reads the colour.
- `rand() % 6` becomes a parameter `pick < 6`.

Two behaviours of the code worth knowing:

- In a running game LEFT, RIGHT and DOWN always report a change, even when the tile cannot move. `playfieldChanged` is set before the `switch` (`RulesProps.LeftAtWall`).
- DOWN sets `tick` to 0, so the gravity step runs in the same call, not the next one (`RulesProps.DownLandsAndSpawns`).

## Model

| member | source | states |
|---|---|---|
| `Colors.Rgb565` | fb_test.c:35-44 | The RGB565 word of each colour; the word is 0 exactly for black, so a zeroed cell reads as black |
| `Playfield.EmptyGrid` | stetris_rpi_and_console.c:189-195 | An all-empty playfield of the given shape |
| `Playfield.SetCell` | stetris_rpi_and_console.c:146-149 | Exactly one cell replaced, every other cell kept |
| `Playfield.Moved` | stetris_rpi_and_console.c:151-164 | copyTile then resetTile: the cell arrives at `to`, `from` is empty, nothing else changes |
| `Playfield.ShiftDown` | stetris_rpi_and_console.c:603-615 | Row 0 empty, each other row y holds the old row y-1 |
| `Playfield.CountSetCell` | stetris_rpi_and_console.c:146-149 | Replacing a cell changes the count by what arrived minus what left |
| `Playfield.CountMoved` | stetris_rpi_and_console.c:590-601 | A move into an empty cell keeps the number of occupied cells |
| `Playfield.CountShiftDown` | stetris_rpi_and_console.c:603-615 | Clearing a full bottom row removes exactly `w` occupied cells |
| `Playfield.RowCountFull` | stetris_rpi_and_console.c:176-187 | A full row has `w` occupied cells |
| `Playfield.CountEmptyGrid` | stetris_rpi_and_console.c:189-195 | A reset playfield has no occupied cell |
| `Rules.SpawnPoint` | stetris_rpi_and_console.c:554-556 | The spawn cell is on the top row, in the middle column (lower middle for even widths) |
| `Rules.Move` | stetris_rpi_and_console.c:564-601 | A move changes only the playfield and the active tile, and keeps them in bounds |
| `Rules.HardDrop` | stetris_rpi_and_console.c:670-673 | The drop loop changes only the playfield and the active tile |
| `Rules.ClearRow` | stetris_rpi_and_console.c:603-615 | clearRow keeps the playfield shape |
| `Rules.NextSpeed` | stetris_rpi_and_console.c:617-633 | The next delay is at least 1, never larger, and strictly smaller while above 1 |
| `Rules.AdvanceLevel` | stetris_rpi_and_console.c:617-633 | Level + 1, the next delay of the curve, nothing else changes |
| `Rules.NewGame` | stetris_rpi_and_console.c:635-644 | Empty playfield; the delay and the active tile are kept |
| `Rules.GameOver` | stetris_rpi_and_console.c:646-650 | State 0 and the initial delay, nothing else changes |
| `Rules.AddNewTile` | stetris_rpi_and_console.c:554-562 | The record stays well-formed (the effect is `RulesProps.AddNewTileSemantics`) |
| `Rules.SpawnOrEnd` | stetris_rpi_and_console.c:703-714 | The spawn-or-game-over block keeps the record well-formed (the effect is `RulesProps.SpawnOrEndSemantics`) |
| `Rules.ScoreRow` | stetris_rpi_and_console.c:690-699 | The row bookkeeping keeps the delay positive |
| `Rules.Gravity` | stetris_rpi_and_console.c:682-715 | The gravity step keeps the record well-formed and the delay positive |
| `Rules.Steer` | stetris_rpi_and_console.c:659-679 | The key switch changes only the playfield, the active tile and `tick` |
| `Rules.Restart` | stetris_rpi_and_console.c:719-726 | The restart block keeps the record well-formed |
| `Rules.Step` | stetris_rpi_and_console.c:652-729 | sTetris keeps the record well-formed and the delay positive |
| `Rules.NextTick` | stetris_rpi_and_console.c:802 | The tick stays below the delay, counts up by one and wraps to 0 at the delay |
| `Rules.PowerOn` | stetris_rpi_and_console.c:767-769 | The record before main's loop: game over with the initial delay |
| `Rules.SpeedFor` | stetris_rpi_and_console.c:617-633 | After any number of level advances the delay lies between 1 and its start |
| `RulesProps.MoveSemantics` | stetris_rpi_and_console.c:564-601 | A move happens iff the wall test passes and the neighbour is free; the cell travels, its old place is emptied, the count is kept; a refused move changes nothing |
| `RulesProps.HardDropSettles` | stetris_rpi_and_console.c:670-673 | The drop keeps the column and the cell, never rises, keeps the count, and ends on the bottom row or on an occupied cell where moveDown fails |
| `RulesProps.ClearRowSemantics` | stetris_rpi_and_console.c:603-615 | A row is cleared iff the bottom row is full; then `w` cells go, row 0 is empty and every row moves down one |
| `RulesProps.AddNewTileSemantics` | stetris_rpi_and_console.c:554-562 | The active tile always goes to the spawn cell; a tile is added iff that cell was free, with the picked colour and one more occupied cell |
| `RulesProps.SpeedBound` | stetris_rpi_and_console.c:617-633 | After `n` advances the delay is at most max(1, init - n) |
| `RulesProps.SpeedReachesOne` | stetris_rpi_and_console.c:617-633 | From any start the delay reaches 1 after init - 1 advances and stays there |
| `RulesProps.SpeedCurveFrom50` | stetris_rpi_and_console.c:96-101 | From 50 the delay at levels 0 to 17 is exactly 50, 40, 30, 20, 18, 16, 14, 12, 10, 9, 8, 7, 6, 5, 4, 3, 2, 1 |
| `RulesProps.SpeedStaysAtOne` | stetris_rpi_and_console.c:617-633 | From 50 the delay is 1 from level 17 on |
| `RulesProps.LevelIsQuotient` | stetris_rpi_and_console.c:690-699 | The level is rows / rowsPerLevel |
| `RulesProps.ScoreGrowth` | stetris_rpi_and_console.c:694 | Clearing row n+1 adds n / rowsPerLevel + 1 to the score |
| `RulesProps.ScoreAtLeastRows` | stetris_rpi_and_console.c:694 | The score is at least the number of cleared rows |
| `RulesProps.ScoreTwoRowsPerLevel` | stetris_rpi_and_console.c:690-699 | With two rows per level the score after 2m cleared rows is m(m+1) |
| `RulesProps.ScoreExceeds32Bits` | stetris_rpi_and_console.c:694 | With two rows per level the score reaches 2^32 after 131072 cleared rows, so a 32-bit score can wrap in play |
| `RulesProps.SenseHatScores` | stetris_rpi_and_console.c:96-101 | With two rows per level the first four rows score 1, 1, 2, 2 and reach level 2 |
| `RulesProps.InitialConsistent` | stetris_rpi_and_console.c:767-769 | The record before main's loop satisfies the invariant |
| `RulesProps.MoveKeepsConsistent` | stetris_rpi_and_console.c:564-601 | Every move keeps the invariant |
| `RulesProps.HardDropKeepsConsistent` | stetris_rpi_and_console.c:670-673 | The drop keeps the invariant |
| `RulesProps.SteerKeepsConsistent` | stetris_rpi_and_console.c:659-679 | The key switch keeps the invariant |
| `RulesProps.SpawnOrEndKeepsConsistent` | stetris_rpi_and_console.c:703-714 | In a running game the spawn or game over keeps the invariant |
| `RulesProps.ScoreRowKeepsConsistent` | stetris_rpi_and_console.c:690-699 | A cleared row with its bookkeeping keeps level, score, delay and cell count in step with rows |
| `RulesProps.GravityKeepsConsistent` | stetris_rpi_and_console.c:682-715 | The gravity step keeps the invariant |
| `RulesProps.RestartSemantics` | stetris_rpi_and_console.c:719-726 | A restart gives ACTIVE and TILE_ADDED, one tile at the spawn cell, zero rows, score and level, and the delay it found |
| `RulesProps.StepKeepsConsistent` | stetris_rpi_and_console.c:652-729 | Every call of sTetris keeps the invariant, for every key and random pick |
| `RulesProps.NextTickKeepsConsistent` | stetris_rpi_and_console.c:802 | The tick update keeps the invariant |
| `RulesProps.DirectionKeySetsChanged` | stetris_rpi_and_console.c:659-679 | LEFT, RIGHT and DOWN in a running game always report a change |
| `RulesProps.LeftAtWall` | stetris_rpi_and_console.c:577-588 | LEFT at the left wall between ticks changes nothing but reports a change |
| `RulesProps.IdleStep` | stetris_rpi_and_console.c:652-729 | No key between ticks: nothing changes and no change is reported |
| `RulesProps.OtherKeyIdle` | stetris_rpi_and_console.c:676-677 | UP in a running game between ticks: nothing changes and no change is reported |
| `RulesProps.GravityReportsChange` | stetris_rpi_and_console.c:682-688 | A gravity step in a running game always reports a change, whatever the key |
| `RulesProps.GameOverIdle` | stetris_rpi_and_console.c:719 | A finished game without a key stays as it is |
| `RulesProps.RestartFromGameOver` | stetris_rpi_and_console.c:719-726 | Any key in a finished game starts a fresh game at the initial delay and tick 0: ACTIVE and TILE_ADDED, one tile, zero rows, score and level, and the spawn cell as the only occupied cell |
| `RulesProps.EndAndRestartInOneCall` | stetris_rpi_and_console.c:703-726 | A running game that reaches gameOver in a call made with a key restarts in that same call, with the same fresh record as above |
| `RulesProps.FlagsPersistWithoutGravity` | stetris_rpi_and_console.c:684-686 | ROW_CLEAR and TILE_ADDED stay until the next gravity step |
| `RulesProps.GameEndsOnlyAtBlockedSpawn` | stetris_rpi_and_console.c:703-714 | A running game ends only in a gravity step without a key, with the spawn cell occupied |
| `RulesProps.GravityRowClear` | stetris_rpi_and_console.c:690-699 | A cleared row adds one row and level+1 points, advances the level iff rows becomes a multiple of rowsPerLevel, and sets ROW_CLEAR unless the game ends in the same step |
| `RulesProps.GravityFall` | stetris_rpi_and_console.c:703 | With a free cell below, the gravity step is exactly moveDown: the cell travels one row down, its old place is emptied, every other cell and counter is kept, and the state becomes ACTIVE alone |
| `RulesProps.SpawnOrEndSemantics` | stetris_rpi_and_console.c:705-713 | The tile goes to the spawn cell; a free cell gets the new tile with TILE_ADDED and tiles + 1, a taken cell gives game over at the initial delay |
| `RulesProps.GravityLands` | stetris_rpi_and_console.c:682-715 | A tile that cannot fall, over a bottom row that is not full, lands: a new tile spawns with state ACTIVE and TILE_ADDED and tiles + 1, or the game ends at the initial delay when the spawn cell is taken; nothing else changes |
| `RulesProps.GravityClearedSpawn` | stetris_rpi_and_console.c:688-713 | A row clear that empties the active cell skips moveDown and always spawns: ROW_CLEAR and TILE_ADDED, rows + 1, tiles + 1, the new tile on the shifted playfield |
| `RulesProps.LandingEndsGame` | stetris_rpi_and_console.c:652-729 | Without a key, a tile landing while the spawn cell is taken ends the game in that call: state 0, the initial delay, a change reported, nothing else changed |
| `RulesProps.DownLandsAndSpawns` | stetris_rpi_and_console.c:670-674 | DOWN drops the tile, lands it and spawns the next tile in the same call |
| `RulesProps.SenseHatStart` | stetris_rpi_and_console.c:767-769 | The first key after power-on starts a game with one tile at column 3 of the top row |
| `Engine.Game.constructor` | stetris_rpi_and_console.c:767-769 | The record main builds before its loop is `Rules.PowerOn` |
| `Engine.Game.NewTile` | stetris_rpi.c:163-167 | newTile occupies the cell with the picked colour; nothing else changes |
| `Engine.Game.CopyTile` | stetris_rpi_and_console.c:151-154 | copyTile copies one cell; nothing else changes |
| `Engine.Game.ResetTile` | stetris_rpi_and_console.c:161-164 | resetTile empties one cell; nothing else changes |
| `Engine.Game.CopyRow` | stetris_rpi_and_console.c:156-159 | copyRow copies one row over another; nothing else changes |
| `Engine.Game.ResetRow` | stetris_rpi_and_console.c:166-169 | resetRow empties one row; nothing else changes |
| `Engine.Game.TileOccupied` | stetris_rpi_and_console.c:171-174 | tileOccupied reads the cell's occupied bit |
| `Engine.Game.RowOccupied` | stetris_rpi_and_console.c:176-187 | rowOccupied is true exactly when every cell of the row is occupied |
| `Engine.Game.ResetPlayfield` | stetris_rpi_and_console.c:189-195 | resetPlayfield leaves an empty playfield and no other change |
| `Engine.Game.AddNewTile` | stetris_rpi_and_console.c:554-562 | addNewTile in place equals `Rules.AddNewTile` |
| `Engine.Game.MoveTo` | stetris_rpi_and_console.c:568-572 | The shared move body equals `Playfield.Moved` plus the new position |
| `Engine.Game.MoveRight` | stetris_rpi_and_console.c:564-575 | moveRight in place equals `Rules.Move` eastward |
| `Engine.Game.MoveLeft` | stetris_rpi_and_console.c:577-588 | moveLeft in place equals `Rules.Move` westward |
| `Engine.Game.MoveDown` | stetris_rpi_and_console.c:590-601 | moveDown in place equals `Rules.Move` southward |
| `Engine.Game.ClearRow` | stetris_rpi_and_console.c:603-615 | clearRow in place equals `Rules.ClearRow` |
| `Engine.Game.AdvanceLevel` | stetris_rpi_and_console.c:617-633 | advanceLevel in place equals `Rules.AdvanceLevel` |
| `Engine.Game.NewGame` | stetris_rpi_and_console.c:635-644 | newGame in place equals `Rules.NewGame` |
| `Engine.Game.GameOver` | stetris_rpi_and_console.c:646-650 | gameOver in place equals `Rules.GameOver` |
| `Engine.Game.GravityStep` | stetris_rpi_and_console.c:682-715 | The gravity block in place equals `Rules.Gravity` |
| `Engine.Game.ScoreRow` | stetris_rpi_and_console.c:690-699 | The row bookkeeping in place equals `Rules.ScoreRow` |
| `Engine.Game.SpawnOrEnd` | stetris_rpi_and_console.c:705-713 | The spawn-or-game-over block in place equals `Rules.SpawnOrEnd` |
| `Engine.Game.HardDrop` | stetris_rpi_and_console.c:671-673 | The drop loop in place equals `Rules.HardDrop` |
| `Engine.Game.Steer` | stetris_rpi_and_console.c:659-679 | The key switch in place equals `Rules.Steer` |
| `Engine.Game.Restart` | stetris_rpi_and_console.c:719-726 | The restart block in place equals `Rules.Restart` |
| `Engine.Game.STetris` | stetris_rpi_and_console.c:652-729 | sTetris in place equals `Rules.Step`, record and changed flag |
| `Engine.Game.AdvanceTick` | stetris_rpi_and_console.c:802 | The tick update in place equals `Rules.NextTick`, nothing else changes |
| `Engine.Game.RunOnce` | stetris_rpi_and_console.c:782-803 | One pass of main's loop: ENTER quits with nothing changed; otherwise sTetris then the tick update; the invariant holds after |
| `ColorParse.IsSpace` | fb_test.c:158 | isspace in the C locale: space, tab, newline, vertical tab, form feed, carriage return |
| `ColorParse.ToLower` | fb_test.c:166-168 | Upper-case letters map to lower-case letters; every other character is kept |
| `ColorParse.Strlen` | fb_test.c:160 | strlen is the index of the first NUL |
| `ColorParse.CString` | fb_test.c:176-177 | The string a buffer holds is NUL-free and followed by the terminator |
| `ColorParse.LeadingSpaces` | fb_test.c:158 | The length of the whitespace prefix, which stops at a non-space |
| `ColorParse.TrimEnd` | fb_test.c:160-162 | A prefix that ends in a non-space, followed only by whitespace |
| `ColorParse.Lower` | fb_test.c:165-168 | Each character is lower-cased, the length is kept |
| `ColorParse.Lookup` | fb_test.c:179-187 | Each of the eight names maps to its colour; any other string maps to black |
| `ColorParse.NormalizeString` | fb_test.c:156-169 | The buffer's string becomes `Normalized` of the old one; every byte after the old terminator, and every byte after the new one, is kept |
| `ColorParse.TrimBounds` | fb_test.c:157-162 | The start index skips exactly the leading whitespace, and the terminator index follows the last non-space character, with only whitespace after it |
| `ColorParse.LowerInPlace` | fb_test.c:165-168 | Lower-cases exactly the characters before the terminator |
| `ColorParse.NormalizedOf` | fb_test.c:156-169 | The normalised string is the kept prefix plus the lower-cased middle between the two trim positions |
| `ColorParse.ParseColor` | fb_test.c:171-188 | parse_color of an argument shorter than 31 bytes is `Lookup(Normalized(arg))` |
| `ColorParse.Command` | fb_test.c:284-304 | Usage error iff argc is not 4; range error iff x or y is outside 0..7; unknown colour iff parse_color gives black for an argument other than "black"; otherwise the pixel is set to the parsed colour |
| `ColorParse.SetPixelCommand` | fb_test.c:280-306 | main's checks give `Command`; on success exactly pixel (x, y) gets the colour's RGB565 word |
| `ColorParse.NamesRoundTrip` | fb_test.c:179-186 | Each colour's own name parses to that colour |
| `ColorParse.CaseInsensitive` | fb_test.c:165-168 | Arguments that differ only in letter case normalise alike |
| `ColorParse.TrailingSpaceIgnored` | fb_test.c:160-162 | Trailing whitespace after a name does not change what it normalises to |
| `ColorParse.LeadingSpaceUnrecognised` | fb_test.c:157-158 | An argument starting with whitespace always parses as black |
| `ColorParse.LeadingSpaceRed` | fb_test.c:157-158 | " red" parses as black |
| `ColorParse.CapitalBlackRejected` | fb_test.c:299-304 | "Black" parses as black and is then reported as an unknown colour |
| `ColorParse.CanonicalDropsLeading` | fb_test.c:157-158 | Leading whitespace does not change the canonical name |
| `ColorParse.CanonicalDropsTrailing` | fb_test.c:160-162 | Trailing whitespace does not change the canonical name |
| `ColorParse.CanonicalCase` | fb_test.c:165-168 | Letter case does not change the canonical name |
| `ColorParse.CanonicalIgnoresSpacesAndCase` | fb_test.c:156-169 | Whitespace at both ends and letter case do not change the canonical name |
| `ColorParse.ParseColorTrimmed` | fb_test.c:171-188 | parse_color with both ends trimmed: a name recognises its colour, and a non-black result is a name |
| `ColorParse.CommandIntended` | fb_test.c:284-304 | main's checks with the black test on the canonical name: unknown colour iff the canonical name is none of the eight |
| `ColorParse.IntendedAcceptsEverySpelling` | fb_test.c:299-306 | Every spelling of a name, in any case and with whitespace at either end, sets the pixel to that colour |

## Findings

| source | as written | input that shows it | evidently intended | confidence | as-written member | corrected member |
|---|---|---|---|---|---|---|
| fb_test.c:156-169 | `normalize_string` skips leading whitespace by moving its own copy of the pointer. The caller's buffer still starts with that whitespace, so `parse_color` compares it with the names as it is | `" red"` parses as black, and main reports "Unknown color" | Leading whitespace is removed, as the comment "Trim leading whitespace" says, so `" red"` is red | high, not executed | `ColorParse.LeadingSpaceUnrecognised` | `ColorParse.CanonicalIgnoresSpacesAndCase` |
| fb_test.c:299-304 | main decides "unknown colour" by comparing the raw argument with `"black"`, but `parse_color` accepts black in any case and with trailing whitespace | `"Black"` (or `"black "`) parses as black and is then rejected as an unknown colour | Every spelling that `parse_color` recognises as black is accepted | medium, not executed | `ColorParse.CapitalBlackRejected` | `ColorParse.IntendedAcceptsEverySpelling` |

## Left out

- Rendering is not modelled: the console, the LED matrix framebuffer and the RGB565 drawing of the playfield.
- Input is not modelled: the joystick event device and the terminal. The key each tick is a parameter of `STetris` and `RunOnce`.
- Timing is not modelled (`gettimeofday`, `usleep`, the tick period), nor are signal handling, `cleanUp`, or device discovery and opening.
- `rand()` in newTile is not modelled. The palette index `rand() % 6` is a parameter `pick < 6`.
- Allocation failure of the playfield in main is not modelled: Dafny allocation cannot fail. The row-pointer layout over one raw block is modelled as a two-dimensional array, which has no aliasing between rows.
- Engine.Game.constructor: it starts from an empty array, where the C code mallocs uninitialised memory. resetPlayfield then empties every cell anyway, so the resulting record is the same.
- Wrap-around of the unsigned counters is not modelled; the counters are unbounded `nat`. `score` grows with the square of the cleared rows: with two rows per level it passes 2^32 after 131072 cleared rows (`RulesProps.ScoreExceeds32Bits`), where the C counter would wrap. `tiles`, `rows` and `level` need about 2^32 events to wrap. The model follows neither wrap.
- Rules.NextSpeed: requires a delay of at least 1. With 0 the C switch would take the default branch and wrap. The delay never reaches 0, as `Rules.SpeedFor` and `Rules.Consistent` show.
- ColorParse.ParseColor: requires an argument shorter than 31 bytes without an embedded NUL; `ColorParse.SetPixelCommand` demands this only when the argument reaches parse_color (argc 4 and x, y in range). For longer arguments `strncpy` leaves the copy unterminated and byte 31 uninitialised, which is undefined behaviour. The model's copy starts as all NUL; for arguments that fit, only the NUL padding is ever read.
- ColorParse.ParseColor: a character of the argument stands for one byte of argv (`IsBytes`). Multi-byte encodings are out of scope: the 31-byte bound of `strncpy` is stated on characters below 256, and no character is decoded from several bytes.
- ColorParse.SetPixelCommand: takes `x` and `y` as the values `atoi` returned. The conversion itself is not modelled.
- The key-echo loop of `fb_test.c` after the pixel is set is not modelled: it only prints and exits.
- The monochrome variants store only the occupied bit. They are the same model with the colour ignored; no game operation reads the colour.
