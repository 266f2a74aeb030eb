# Hack-a-badge game firmware, modelled in Dafny

This project models the frame logic of a MicroPython badge with a 7 x 10 field of
lit push-buttons. It has two firmwares:

- **Blue badge** (`code/main.py`, with the commented near-copy
  `Blue_badge/commented-code.py`) runs a fifteen-level puzzle game, an unlock HUD and
  a long-press mode switch.
- **Purple badge** (`Purple_badge/example.py`) runs a bouncing-ball demo.

Every cell of the field is one index 0..69. The game state is a set of 70-byte
arrays (`node_value`, `node_lock`, `node_deform`, `node_counter`, `node_velocity`,
`node_switch_state`, `overscan`, `vendor_code_entry`, ...) plus scalar globals. The
model keeps that shape:

- a `Badge` class holds the bytearrays as `array<byte>` fields and the globals as
  scalar fields;
- each firmware function is a method that changes exactly what its `modifies`
  clause names;
- the `byte` newtype makes every store prove that the stored value fits 0..255, as a
  MicroPython bytearray demands.

The modules follow the firmware's structure:

| module | file | what it covers |
|---|---|---|
| `Grid` | grid.dfy | `get_node_offset` / `get_node_coords`, the byte type |
| `Bits` | bits.dfy | powers of two, xor and bit counts used by the hash and the vendor code |
| `Entropy` | entropy.dfy | `step_level_minus_3`, the ant automaton that is the game's only random source, and `randrange` |
| `Input` | input.dfy | the edge-detection rules of `get_button_states` as functions on the raw matrix |
| `Render` | render.dfy | the `gama_64` / `gama_16` tables and the `chip_60` / `chip_63` reordering of `render` |
| `Firmware` | firmware.dfy | the `Badge` object, its invariants, boot and `level_init` |
| `Buttons` | buttons.dfy | `get_button_states` with the click events, on the badge |
| `Display` | display.dfy | `overscan_fill`, `overscan_set_at` and `draw` for every level |
| `OpeningLevels` | opening_levels.dfy | `step_level_0` .. `step_level_4` |
| `MiddleLevels` | middle_levels.dfy | `step_level_5` .. `step_level_9` |
| `FinalLevels` | final_levels.dfy | `step_level_10` .. `step_level_14` |
| `Game` | game.dfy | `step` with `game_timeout_check` |
| `Hud` | hud.dfy | `check_vendor_code`, `hud_code_get`, `hud_code_check`, `hud_step`, `hud_draw`, `hud_init` |
| `MainLoop` | mainloop.dfy | one frame of the main loop: the long-press HUD toggle, then the game or the HUD |
| `Demo` | demo.dfy | the Purple badge's raster writes, edge detection and bouncing-ball frame |

Invariants of the game:

- `Badge.Ready()` holds in every state. It asks for well-formed arrays, a well-formed
  ant, switch states in 0..1, a known level, and stored indices inside the field.
- `Badge.LevelOk()` is the invariant of the level in play. Examples: level 2's chosen
  cell is a cell or the sentinel 70; level 4's cells satisfy `Level4Cell`; level 13's
  order is a permutation of 0..69.
- `Badge.Valid()` is the conjunction of the two.
- `Badge.Entered(level)` is the state right after `level_init(level)`.

Every level body, `step`, the HUD and a whole main-loop frame are proved to keep
`Valid()`. The levels' own contracts state what one frame does to the arrays.

Where the two Blue badge files differ, the model follows the code:

- `game_timeout_check` in `code/main.py` falls off its end when play is untimed, and
  so returns `None`.
- `Blue_badge/commented-code.py` returns `False` explicitly there.
- Both results make the caller's `== True` test fail, so the model returns `false`.

## Model

| member | source | states |
|---|---|---|
| Grid.Offset | code/main.py:242-244 | every position inside the field lands on an index in 0..69 |
| Grid.Coords | code/main.py:246-250 | the column is below 7 and `i == row * 7 + column`; the row is below 10 exactly when `i < 70` |
| Grid.CoordsOfOffset | Purple_badge/example.py:173-181 | `get_node_coords(get_node_offset(x, y)) == (x, y)` for every position in the field |
| Grid.OffsetOfCoords | code/main.py:242-250 | every index below 70 has coordinates in the field, and their offset is the index |
| Bits.Pow2 | code/main.py:505-507 | `1 << k` is at least 1 |
| Bits.Pow2Add | code/main.py:510-512 | a shift by a + b is a shift by a then by b, so `<< (ant_count % 8)` multiplies by `Pow2` |
| Bits.XorZero | code/main.py:513-515 | xor with 0 is the identity, on either side |
| Bits.XorCommutes | code/main.py:513-515 | `^` does not depend on the order of its operands |
| Bits.XorSelf | code/main.py:513-515 | a value xor itself is 0 |
| Bits.Ones | code/main.py:1279-1281 | the bit count over k rounds is at most k |
| Bits.OnesAllSet | code/main.py:1279-1281 | over k rounds, 2^k - 1 counts k set bits |
| Grid.OffsetInjective | code/main.py:242-244 | two positions in the field with the same offset are the same position |
| Grid.PressedBelowMeans | code/main.py:1231-1250 | the recursive `PressedBelow` holds exactly when some switch below n is pressed |
| Entropy.Paint | code/main.py:475-484 | the turn-and-paint half of an ant step changes only the cell under the ant, keeps a 0/255 grid and leaves a rotation in 0..3 (its "turn on" test reads the cell indexed by the old rotation, as the firmware does) |
| Entropy.Forward | code/main.py:485-497 | the ant's move along its rotation, wrapping at the edges, always lands inside the field |
| Entropy.ForwardBackward | code/main.py:485-497 | the reverse move undoes the move and the move undoes the reverse move: for each rotation the move is a bijection of the field |
| Entropy.Move | code/main.py:485-498 | the ant's new position is a cell index |
| Entropy.MoveIsBijective | code/main.py:485-498 | `MoveBack` inverts `Move` in both directions for each rotation |
| Entropy.Row | code/main.py:503-508 | row y of the ant grid is the seven cells of that row in column order |
| Entropy.Pattern | code/main.py:504-507 | a row's bit pattern (bit x set for an on cell) is below 2 to the row length |
| Entropy.Patterns | code/main.py:502-508 | the ten row patterns, one per row, each the pattern of that row |
| Entropy.ShiftedSumScales | code/main.py:511-512 | adding every row pattern shifted left by s equals the sum of the patterns times 2^s |
| Entropy.HashClosedForm | code/main.py:499-515 | the new random value is `(sum of patterns) * (1 + 2^(count mod 8))`, xor the count, xor the previous value |
| Entropy.Next | code/main.py:472-515 | one ant step keeps the position in the field, the rotation in 0..3 and the grid 0/255, counts exactly one step, and changes no cell but the one under the ant |
| Entropy.Draw | Blue_badge/commented-code.py:377-392 | `randrange(_, m)` advances the ant exactly once and returns a value below `max(m, 1)`; m = 0 and m = 1 both give 0 |
| Entropy.Ant.constructor | code/main.py:1425-1429 | the ant starts on an all-off grid at cell 0, rotation 0, random 0, count 0 |
| Entropy.Ant.Step | code/main.py:472-515 | the in-place step leaves the ant's state equal to `Next` of the old state |
| Entropy.Ant.Turn | code/main.py:475-484 | the in-place turn-and-paint is `Paint` of the old grid, position and rotation |
| Entropy.Ant.Advance | code/main.py:485-498 | the in-place move sets the position to `Move` of the old position along the new rotation |
| Entropy.Ant.Mix | code/main.py:499-515 | the hash loop counts one step and sets the random value to the hash of the grid, the count and the previous value |
| Entropy.Ant.RandRange | code/main.py:252-256 | the in-place draw equals `Draw` on the ant's state, so its result is below `max(m, 1)` |
| Input.Released | code/main.py:1473 | the all-released starting matrix is 7 x 10 |
| Input.Bit | code/main.py:228-240 | a reading stores 1 exactly when the switch is pressed, 0 otherwise |
| Input.Scanned | code/main.py:213-240 | after a scan, a cell whose reading changed holds the reading; a cell whose reading did not change keeps its state, so a held switch that a level cleared stays cleared |
| Input.LastFired | code/main.py:215-222 | the last cell in index order whose event fires, or none when no event fires |
| Input.SameReadings | code/main.py:217-218 | once every cell's reading is copied, the recorded matrix equals the raw matrix |
| Input.RescanChangesNothing | code/main.py:213-226 | scanning the same raw matrix a second time changes no switch state and fires no event |
| Buttons.Scan | Blue_badge/commented-code.py:291-315 | the scan loop records the raw matrix, leaves the switch states equal to `Scanned`, puts `button_x`/`button_y` on `LastFired`, and sets the HUD button only when cell 0 fires |
| Buttons.ScanCell | code/main.py:216-240 | one cell: its reading is recorded; when its event fires its switch follows the reading and it becomes the last button (cell 0 also sets the HUD button); nothing else changes |
| Buttons.GetButtonStates | code/main.py:213-240 | on a badge in play the scan keeps `Ready()` and the level's invariant, with the same results as `Scan` |
| Buttons.ScannedSwitches | code/main.py:220-240 | a scan of switch states that are all 0 or 1 leaves them all 0 or 1 |
| Render.Gamma | code/main.py:70-80 | `gama_64[v / 4]` maps 0 to 0 and 255 to 255 |
| Render.Gamma64Sorted | code/main.py:1466 | the `gama_64` table is sorted |
| Render.GammaMonotone | code/main.py:70-80 | a brighter value never maps to a darker one |
| Render.CellOfSlot | code/main.py:1459-1460 | each of the 70 driver slots (35 per chip) addresses a cell below 70 |
| Render.SlotOfCell | code/main.py:1459-1460 | each cell has a driver slot below 70 |
| Render.Chip60Wiring | code/main.py:1459 | slot s of `chip_60` is `CellOfSlot(s)` |
| Render.Chip63Wiring | code/main.py:1460 | slot s of `chip_63` is `CellOfSlot(35 + s)` |
| Render.SlotRoundTrip | Purple_badge/example.py:194-195 | the slot of a slot's cell is that slot: no two slots share a cell |
| Render.CellRoundTrip | Purple_badge/example.py:194-195 | the cell of a cell's slot is that cell: every cell has a slot, so the two tables list 0..69 exactly once |
| Render.Gather | code/main.py:62-64 | a buffer has one entry per table entry, and slot s holds the raster at the table's cell |
| Render.ChipsInRange | code/main.py:1459-1460 | both tables have 35 entries, all below 70 |
| Render.GatherLosesNothing | Purple_badge/example.py:38-40 | every raster cell can be read back from the two buffers |
| Render.Reorder | code/main.py:60-64 | the reorder loop fills `buffer_60` and `buffer_63` with `Gather` of the raster through `chip_60` and `chip_63` |
| Display.OverscanFill | Blue_badge/commented-code.py:96-106 | every one of the 70 cells becomes `gama_64[v / 4]`, so a second fill with the same value changes nothing |
| Display.OverscanSetAt | Blue_badge/commented-code.py:108-119 | only the addressed cell changes, to `gama_64[v / 4]` |
| Display.ShownKeepsOrder | code/main.py:102-115 | the gamma-corrected field keeps the order of values, and keeps 0 and 255 |
| Display.ShowValues | Blue_badge/commented-code.py:149-164 | the overscan becomes the gamma-corrected `node_value`, cell by cell |
| Display.Multiplier | code/main.py:93-94 | the level-0 multiplier is `counter / 4`, and 1 when that is 0 |
| Display.Deformed | code/main.py:95-96 | a rendered cell is `value - deform * m` clamped at 0: never above the value, equal to it without deform |
| Display.RippleBounds | Blue_badge/commented-code.py:132-146 | a level-0 cell shows no brighter than its plain value, shows dark when locked, and shows its plain value when neither locked nor deformed |
| Display.DrawRipple | code/main.py:87-101 | level 0's drawing stores the deformed values in `node_rendered` and shows them, with locked cells dark |
| Display.RippleCell | code/main.py:91-101 | one level-0 cell: its rendered and shown values, and no other cell changes |
| Display.Walkers | code/main.py:116-124 | level 5's raster over a dark field after n walkers are drawn has 70 cells |
| Display.LastWalkerShows | code/main.py:116-124 | a cell shows the glow of the last walker drawn on it (255 while free, 128 once caught) |
| Display.NoWalkerDark | code/main.py:116-124 | a cell no walker is drawn on stays dark |
| Display.DrawWalkers | code/main.py:116-124 | level 5's drawing leaves the overscan equal to `Walkers` of the seven walkers |
| Display.Tamp | code/main.py:137-141 | the trail brightness k steps behind a comet is 0 exactly from the fifth step on, and at most 128 |
| Display.TampFades | code/main.py:137-141 | the trail never gets brighter further behind the comet |
| Display.Back | code/main.py:142-144 | the distance back from a comet's row, wrapping at the top, is a row |
| Display.TargetRow | code/main.py:142-144 | the wrapped target row `y - yo - 1` is a row and is the only row at that distance back |
| Display.TrailSource | code/main.py:132-136 | the comet a trail cell shows is the last comet in the column that reaches it, or none |
| Display.ColumnShows | code/main.py:132-145 | after one column is drawn, cells of other columns are unchanged and each cell of the column shows its last reaching comet's trail or its old value |
| Display.ColumnsShow | code/main.py:132-145 | after the first m columns are drawn, their cells show `Comet` and the others are unchanged |
| Display.CometsShown | code/main.py:125-145 | over the gamma-corrected field, every cell of level 6's drawing is `Comet` |
| Display.DrawStreak | code/main.py:136-145 | the trail loop of one comet equals `Streak` of the old overscan |
| Display.DrawColumn | code/main.py:133-145 | the trail loop of one column equals `Column` of the old overscan |
| Display.DrawTrails | code/main.py:132-145 | the trail loop of all columns equals `Columns` of the old overscan |
| Display.Draw | code/main.py:82-145 | per level: level 0 renders the ripple; levels 1-4 and 7-14 show the values; level 5 shows the walkers; level 6 shows the comets with their trails; level -3 draws nothing; only level 0 writes `node_rendered` |
| Firmware.Toggle | code/main.py:1041-1044 | a two-tone toggle gives 0 or 128, and 0 exactly when the cell was lit |
| Firmware.ToggleTwice | code/main.py:928-931 | on a cell holding 0 or 128, toggling twice changes nothing |
| Firmware.Badge.constructor | code/main.py:1401-1457 | the globals as declared: zeroed arrays, level 0, timed play, locked HUD, game mode 0, no press pending |
| Firmware.Badge.Boot | code/main.py:1445-1449 | boot runs `level_init(-3)` then `level_init(0)` in timed play, and level 0 is freshly entered |
| Firmware.Badge.LevelInit | code/main.py:258-358 | `level_init(n)` leaves the badge in `Entered(n)`: all six arrays cleared and seeded for level n only, `button_x`, `button_y` and `game_timeout` zero, `game_level == n`, and the game invariant holding; the random source moves only for levels -3, 6, 7, 9, 11, 12 and 13 |
| Firmware.Badge.SeedScalars | code/main.py:258-358 | the scalar part of `level_init`: button position and timeout zeroed, the level's own scalars seeded, `game_level` set |
| Firmware.Badge.SeedCells | code/main.py:263-357 | the array part of `level_init`: everything cleared, then the level's own seeding, switch states all 0 |
| Firmware.Badge.SeedEarly | code/main.py:273-308 | the seeding of levels -3 to 6 is `SeededCells(level)` and keeps the level's invariant; level -3 places the ant at index 39 = (4, 5) facing rotation 0 |
| Firmware.Badge.SeedLate | code/main.py:309-357 | the seeding of levels 7 to 14 is `SeededCells(level)` and keeps the level's invariant |
| Firmware.Badge.SeedCounters | code/main.py:298-301 | level 4: every counter 7 and every velocity 1 |
| Firmware.Badge.SeedHead | code/main.py:339-342 | level 12: the head is a cell, the breathing brightness 64 and rising (128) |
| Firmware.Badge.RandRange | code/main.py:252-256 | a draw through the badge's ant advances it by one step and returns the new `ant_random` modulo `max(m, 1)` |
| Firmware.Badge.ClearCells | code/main.py:263-267 | the six per-cell arrays are all 0 |
| Firmware.Badge.SeedComets | code/main.py:305-308 | level 6: exactly one lit cell (255) in every column, at some row, every other cell dark |
| Firmware.Badge.SeedTargets | code/main.py:309-313 | level 7: six target indices below 70 in `node_lock`, a cell lit at 128 exactly when it is a target, show counter 128 |
| Firmware.Badge.SeedBars | code/main.py:314-317 | level 8: every column's bar (counter of its top cell) is 1, every other counter 0 |
| Firmware.Badge.SeedSnake | code/main.py:318-323 | level 9: the head is a cell, the rest of the body is 70 (empty), the countdown is 69 and there is no target (70) |
| Firmware.Badge.SeedWalkers | code/main.py:326-338 | level 11: walker i stands on cell i with a heading among 2, 4, 6, 8, and every cell has value 8 |
| Firmware.Badge.Shuffle | code/main.py:343-357 | level 13: `node_deform` holds 70 pairwise distinct cells, a permutation of 0..69 |
| Firmware.Badge.Draft | code/main.py:346-356 | the cell drawn for slot n is below 70 and held by none of the first n slots |
| Firmware.Badge.Unused | code/main.py:350-353 | the candidate check is true exactly when no earlier entry holds the candidate |
| Game.GameTimeoutCheck | Blue_badge/commented-code.py:679-694 | untimed: reports false and leaves `game_timeout` alone; timed: counts one frame and reports true exactly when the count reaches 1000 |
| Game.Play | code/main.py:365-461 | the body of the level in play keeps the frame-wide invariant and the level, and a level that does not finish keeps its own invariant; level 14 never finishes |
| Game.StepAttract | code/main.py:362-364 | level -3 advances the ant by exactly one `Next` step and stays at level -3 with the invariant kept |
| Game.PlayOn | code/main.py:365-461 | a level body either keeps the level or finishes and freshly enters the next one |
| Game.FallBack | code/main.py:368-458 | a timed-out level k freshly enters level k - 1 |
| Game.Resolve | code/main.py:368-458 | after the timeout check, an expired level k enters k - 1; otherwise the level stays or moves to k + 1 |
| Game.StepTimed | code/main.py:368-458 | levels 1-13: the level falls back exactly when timed play exhausts its 1000 frames; otherwise it stays or advances; a level left is freshly entered |
| Game.Advance | code/main.py:365-461 | levels 0-14 keep the timed-mode flag, time out exactly as above, and enter any new level freshly |
| Game.Step | code/main.py:360-461 | `step` keeps `Valid()` and the timed-mode flag; a level falls back exactly on timeout; levels -3 and 14 are never left; any new level is freshly entered |
| OpeningLevels.Sat | code/main.py:579-582 | the clamp to 0..255: below 0 gives 0, above 255 gives 255, in range is unchanged |
| OpeningLevels.HeldDrains | code/main.py:525-537 | over k held frames starting with drain at least m, a cell drops by at least `Tri(m + k) - Tri(m)` |
| OpeningLevels.HoldClears | code/main.py:525-537 | any cell is dark after 23 held frames |
| OpeningLevels.Blackout | code/main.py:519-524 | pressed cells go dark and locked at 255, others unchanged; reports whether any cell is pressed |
| OpeningLevels.Drain | code/main.py:528-537 | every cell drops by the drain, clamped at 0; reports whether all were already dark |
| OpeningLevels.Glow | code/main.py:543-556 | the field becomes `Glowed`: every cell brightens by 32 when cell 0 is above 127 and dims by 32 otherwise, clamped to 0..255 |
| OpeningLevels.TwinkleAt | code/main.py:557-583 | one cell's velocity moves by at most 1 and stays in 125..130; its value and lock follow `Twinkle`; no other cell changes |
| OpeningLevels.Twinkles | code/main.py:557-583 | every cell twinkles in index order |
| OpeningLevels.Hold | code/main.py:525-537 | a held frame: `deform[0]` rises by one up to 255 and drains every cell by it; reports whether all were dark |
| OpeningLevels.Idle | code/main.py:540-583 | an idle frame: `deform[0]` falls by one down to 0, the field glows, then twinkles |
| OpeningLevels.Level0 | code/main.py:517-583 | with a press: presses black out and lock their cells, the held drain runs, and the level finishes exactly when every cell is pressed or dark; without: the idle glow and twinkle, never finishing |
| OpeningLevels.ColumnPressed | code/main.py:614-623 | reports whether any cell of column x is pressed, and resets the timeout exactly then |
| OpeningLevels.SidePressed | code/main.py:612-623 | reports whether any cell in columns lo to hi - 1 is pressed, and resets the timeout exactly then |
| OpeningLevels.PaintColumn | code/main.py:599-608 | every cell of column x gets v; others are unchanged |
| OpeningLevels.PaintColumns | code/main.py:633-652 | every cell in columns lo to hi - 1 gets v; others are unchanged |
| OpeningLevels.FillLevel1 | code/main.py:629-652 | for an inner column, the left side is lit exactly when pressed on the left, the right side likewise; edge columns change nothing |
| OpeningLevels.PickColumn | code/main.py:590-597 | the first pressed cell starts the level: the column is `button_x` (not the pressed cell's column), the first pressed cell is remembered, the timeout resets |
| OpeningLevels.HoldColumn | code/main.py:604-627 | releasing the remembered press darkens the column and restarts; holding it lights each side pressed; the level finishes exactly when both sides are pressed; the timeout resets exactly when an inner column is held and a cell on either side is pressed |
| OpeningLevels.Level1 | code/main.py:585-627 | the three sub-states of level 1 as above, and the level finishes exactly when the held press has presses on both sides; the timeout resets on the first press in sub-level 0, stays in sub-level 1, and follows `HoldColumn` in sub-level 2 |
| OpeningLevels.ThrobsAdd | code/main.py:671-688 | j then k throb frames equal j + k frames |
| OpeningLevels.Rising | code/main.py:671-688 | rising from 65 the value climbs by 3 per frame |
| OpeningLevels.Falling | code/main.py:671-688 | falling from 254 the value drops by 3 per frame |
| OpeningLevels.PulseCycle | code/main.py:671-688 | a pulse from 64 returns to 65 falling after 129 frames, then the cell rests at 64 and is released |
| OpeningLevels.AllOut | code/main.py:658-661 | reports exactly whether every cell is dark |
| OpeningLevels.Level2 | code/main.py:654-693 | finishes exactly when every cell was dark; only the chosen cell changes; a cell goes dark only under a press; the chosen cell throbs, and a press on it while it slides above 64 darkens it |
| OpeningLevels.Beat | code/main.py:670-693 | one throb of the chosen cell, its press handling and the timeout reset |
| OpeningLevels.FirstMatch | code/main.py:733-781 | the first pressed cell other than the three excluded ones that passes the test, or 70; the timeout resets exactly when some cell other than the excluded ones is pressed (`PressedBesides`) |
| OpeningLevels.LetGo | code/main.py:700-732 | letting go of any held corner drops all three corners and darkens the field |
| OpeningLevels.TakeFirst | code/main.py:733-739 | the first corner is a pressed cell, and is taken exactly when some cell is pressed; the timeout resets exactly then |
| OpeningLevels.TakeSecond | code/main.py:740-752 | a second corner, when taken, is a pressed cell; the timeout resets exactly when a cell other than the first corner is pressed |
| OpeningLevels.TakeThird | code/main.py:753-765 | a third corner, when taken, is a pressed cell; the timeout resets exactly when a cell other than the first two corners is pressed |
| OpeningLevels.TakeFourth | code/main.py:766-781 | finishes exactly when a pressed cell closes the rectangle (in the third corner's column, on the first corner's row), and then the three corners are lit at 255; the timeout resets exactly when a cell other than the three corners is pressed |
| OpeningLevels.Level3 | code/main.py:695-781 | finishes exactly when three held corners get their fourth; letting go drops all corners; held corners stay held and new ones are pressed; unless a corner was let go, the timeout resets exactly when a cell other than the held corners is pressed |
| OpeningLevels.Level4Step | code/main.py:786-818 | one frame of a cell keeps `Level4Cell` unless the counter hits 0 |
| OpeningLevels.Level4Zero | code/main.py:786-818 | a counter reaches 0 only while falling with a lock of at least 1, and only from 1, or from 2 when the press takes the lock to 7 |
| OpeningLevels.Pulse | code/main.py:787-818 | one cell's press, lock, velocity and counter follow `Level4Next`; it shows `gama_16[counter]` unless the counter is 0; a press is released and resets the timeout; no other cell changes |
| OpeningLevels.Level4 | code/main.py:783-818 | finishes exactly when some cell's counter hits 0; otherwise every cell follows `Level4Next` and keeps `Level4Cell`, and the timeout resets exactly when some cell was pressed; when finished, the loop stopped at the first zero counter and the timeout reset exactly when a cell up to it was pressed |
| MiddleLevels.Drained | code/main.py:958-960 | a bar after p presses is never higher, and is 0 exactly when p reaches it |
| MiddleLevels.BarHeight | code/main.py:970-977 | after drawing, a column lights exactly `min(bar, 10 - y)` cells from row y down |
| MiddleLevels.Drain | code/main.py:953-962 | each press lowers its column's bar by one down to 0, and is released; the timeout resets exactly when some cell is pressed |
| MiddleLevels.Grow | code/main.py:963-969 | each bar grows by at most one, capped at 10 |
| MiddleLevels.ShowBars | code/main.py:970-977 | every cell shows its column's bar as `Bar` says |
| MiddleLevels.AllDrained | code/main.py:978-982 | reports exactly whether every bar is 0 |
| MiddleLevels.Level8 | code/main.py:950-985 | the bars drain by the presses and grow by at most one, the field shows them, and the level finishes exactly when every bar is 0; the timeout resets exactly when some cell is pressed |
| MiddleLevels.LitCells | code/main.py:936-945 | the set of cells with a nonzero value |
| MiddleLevels.IsTarget | code/main.py:939-941 | reports whether a cell is one of the six targets |
| MiddleLevels.SolvedMeans | code/main.py:932-945 | "every target is lit and every lit cell is a target" holds exactly when the set of lit cells equals the set of targets |
| MiddleLevels.Solved | code/main.py:932-945 | reports exactly whether the lit cells are the target set |
| MiddleLevels.Toggles | code/main.py:924-931 | every pressed cell toggles between 0 and 128 and is released; the timeout resets exactly when some cell is pressed |
| MiddleLevels.HideTargets | code/main.py:920-922 | every target cell goes dark |
| MiddleLevels.Level7 | code/main.py:915-948 | while the show counter runs it counts down and hides the targets at 0; then presses toggle cells and the level finishes exactly when the lit cells are the targets; the timeout stays while the targets show, and afterwards resets exactly when some cell is pressed |
| MiddleLevels.FreedApart | code/main.py:875-881 | a walker that stays caught does not share a cell with one that is freed |
| MiddleLevels.Start | code/main.py:840-847 | the last pressed cell starts all seven walkers there, free; the timeout resets exactly when some cell is pressed |
| MiddleLevels.AnyPressed | code/main.py:849-853 | reports whether any cell is pressed, resetting the timeout exactly then |
| MiddleLevels.Catch | code/main.py:857-862 | a free walker under a press is caught; the timeout resets exactly when a free walker's cell is pressed |
| MiddleLevels.Stray | code/main.py:865-874 | a wandering walker ends on its cell or a neighbouring one |
| MiddleLevels.Wander | code/main.py:863-874 | every free walker moves at most one cell in each direction; caught ones stay |
| MiddleLevels.SharesWithFree | code/main.py:877-880 | reports whether another free walker shares walker k's cell |
| MiddleLevels.Release | code/main.py:875-881 | a caught walker is freed exactly when a free one shares its cell |
| MiddleLevels.AllCaught | code/main.py:882-885 | reports exactly whether all seven walkers are caught |
| MiddleLevels.Chase | code/main.py:856-888 | caught walkers stay put and were under a press; free ones move by one; no caught walker shares a free one's cell; finishes exactly when all are caught; the timeout resets exactly when a free walker's cell is pressed |
| MiddleLevels.Level5 | code/main.py:837-888 | the three phases of level 5 (start, wait for release, chase) with the results above; before the chase any press resets the timeout, in the chase only a press on a free walker's cell |
| MiddleLevels.Shoot | code/main.py:893-897 | a press on a lit comet darkens it; the timeout resets exactly when some cell is pressed |
| MiddleLevels.AnyLit | code/main.py:898-901 | reports exactly whether some cell is at 255 |
| MiddleLevels.Fall | code/main.py:905-913 | every lit cell after the fall lies in a column that had a lit cell |
| MiddleLevels.Level6 | code/main.py:890-913 | finishes exactly when every comet is shot; comets stay in columns that had a comet left; the timeout resets exactly when some cell is pressed |
| MiddleLevels.Aimed | code/main.py:993-997 | the last pressed cell, or the old target when none is pressed |
| MiddleLevels.Moved | code/main.py:998-1013 | the snake's head moves to itself or to a neighbour in the four directions, inside the field |
| MiddleLevels.Aim | code/main.py:993-997 | the target becomes `Aimed` of the presses and every press is released; the timeout resets exactly when some cell is pressed |
| MiddleLevels.Shift | code/main.py:1015-1016 | the body shifts one place towards the tail |
| MiddleLevels.ShowSnake | code/main.py:1025-1032 | the target shows 255, the head 150, a cell under the body 150 - 2i for the smallest segment index i on it (the loop paints from the last segment to the first, so the first one wins), and every other cell is dark (`Drawn`) |
| MiddleLevels.FirstOn | code/main.py:1025-1029 | the least segment index in lo..hi-1 on cell c, or hi: that segment lies on c and none before it does |
| MiddleLevels.Painted | code/main.py:1025-1029 | the painted shade is between 0 and 150, and is not dark exactly when some segment lies on the cell |
| MiddleLevels.Crawl | code/main.py:1013-1024 | a move onto a cell that is neither the head nor the neck shifts the body; otherwise the body stays; reaching the target finishes when the countdown is at 1 and otherwise lowers it and clears the target |
| MiddleLevels.Level9 | code/main.py:987-1032 | presses aim, the head moves to a neighbour not the neck, and the level finishes exactly when the head reaches the target on the last count; unless finished the field is `Drawn`; the timeout resets exactly when some cell is pressed |
| FinalLevels.Brighter | code/main.py:1269-1272 | a multiple of 32 stays a multiple of 32 |
| FinalLevels.BrightenedSteps | code/main.py:1266-1272 | n presses on a multiple of 32 give `((v / 32 + n) % 8) * 32` |
| FinalLevels.EightPressesCycle | code/main.py:1266-1272 | eight presses bring a cell back to its value |
| FinalLevels.Level14 | code/main.py:1264-1272 | every pressed cell brightens by 32, wrapping to 0 past 255, and is released; nothing else changes and the level never ends |
| FinalLevels.Flips | code/main.py:1045-1058 | the number of presses among the first n that flip a cell is at most n |
| FinalLevels.LightsOut | code/main.py:1037-1058 | the field after a frame of level 10 has 70 cells |
| FinalLevels.LightsOutTwice | code/main.py:1037-1058 | on a two-tone field, the same presses twice undo each other and the field stays two-toned |
| FinalLevels.Flip | code/main.py:1041-1044 | one cell toggles; no other changes |
| FinalLevels.PressAt | code/main.py:1041-1058 | a press toggles every cell of the 3 x 3 block around it that lies inside the field, with no wrap-around; others are unchanged |
| FinalLevels.FlipAgain | code/main.py:1041-1058 | flipping k + 1 times is toggling the k-times-flipped value |
| FinalLevels.Level10 | code/main.py:1034-1065 | the field becomes `LightsOut`, presses are released, the timeout resets on a press, and the level finishes exactly when no cell is 0 |
| FinalLevels.PressAll | code/main.py:1037-1058 | the press loop computes `LightsOut` and releases every press |
| FinalLevels.TurnedTwice | code/main.py:1113-1120 | two turns face the opposite way, four face the start |
| FinalLevels.Walk | code/main.py:1123-1136 | a walker's step wraps around the field's edges and lands on a cell |
| FinalLevels.WalkBack | code/main.py:1123-1136 | a step back along the opposite heading returns to the cell |
| FinalLevels.Standing | code/main.py:1081-1109 | the number of awake walkers below n of a given parity standing on a cell is at most n |
| FinalLevels.Wake | code/main.py:1070-1075 | every pressed cell wakes its walker and is released |
| FinalLevels.Brighten | code/main.py:1081-1091 | every cell brightens by 64 per odd awake walker on it, capped at 255 |
| FinalLevels.Dim | code/main.py:1099-1109 | every cell dims by 16 per even awake walker on it, floored at 0 |
| FinalLevels.TurnWalkers | code/main.py:1110-1120 | an awake walker keeps or turns its heading; others keep theirs |
| FinalLevels.MoveWalkers | code/main.py:1121-1136 | every awake walker walks one cell along its heading |
| FinalLevels.Level11 | code/main.py:1067-1136 | presses wake walkers; the tick counts modulo 16; only on tick 15 do walkers act, and then the level finishes exactly when every cell is lit to 255 (`Lit`); otherwise each cell dims by 16 per walker standing on it, each woken walker takes one `Walk` step and keeps or turns its heading; any press resets the timeout |
| FinalLevels.Tick | code/main.py:1081-1136 | the acting frame: brighten, finish when all cells are 255, otherwise dim, turn and walk |
| FinalLevels.Breaths | code/main.py:1141-1150 | the breathing brightness stays in 64..192 with direction 127 or 128 |
| FinalLevels.BreathsAdd | code/main.py:1141-1150 | a frames then b frames of breathing equal a + b frames |
| FinalLevels.Rising | code/main.py:1141-1145 | rising, the brightness climbs by one per frame |
| FinalLevels.Falling | code/main.py:1146-1150 | falling, the brightness drops by one per frame |
| FinalLevels.BreathPeriod | code/main.py:1141-1150 | from 64 rising the brightness reaches 192 after 128 frames and returns after 256 |
| FinalLevels.RayInField | code/main.py:1168-1197 | every cell between the head and an in-field endpoint lies in the field |
| FinalLevels.RayInjective | code/main.py:1168-1197 | the cells along a slide are pairwise distinct |
| FinalLevels.Stop | code/main.py:1170-1172 | a slide from distance k stops between k - 1 and the full number of steps |
| FinalLevels.StopClear | code/main.py:1170-1175 | every cell the slide passes was unmarked before it |
| FinalLevels.StopBlocked | code/main.py:1170-1172 | a slide that stops short of the pressed cell stops in front of a cell already marked 63 |
| FinalLevels.SlideAlong | code/main.py:1170-1175 | the new velocity field is the old one with exactly the cells up to the stopping point marked 63, the head moves to the last of them (or stays when none is marked), and the rest of the deform buffer is unchanged |
| FinalLevels.PressSlide | code/main.py:1166-1197 | the trail and head after a press off the head are `Slid` of the old ones: the slide along the head's column or row towards the pressed cell, stopped as `Stop` says; a press in neither changes nothing; only cells in line with the head get marked |
| FinalLevels.SlideOf | code/main.py:1166-1197 | a press in the head's column or row gives a slide whose far end, reached in the field, is the pressed cell |
| FinalLevels.SlidMarks | code/main.py:1166-1197 | a slide changes only cells in the head's column or row, and those only to 63 |
| FinalLevels.HeadPressWipes | code/main.py:1163-1165 | a press on the head, whatever came earlier in the frame, leaves no mark and the head where it was |
| FinalLevels.PressesMarks | code/main.py:1158-1197 | after any run of presses every cell is 0 or 63 and every new mark lies in line with the head |
| FinalLevels.PressesIdle | code/main.py:1158-1162 | a frame without presses changes neither the trail nor the head |
| FinalLevels.PressCell | code/main.py:1163-1197 | one press computes `PressStep`: the wipe on the head, the slide elsewhere |
| FinalLevels.BreatheHead | code/main.py:1141-1150 | the breathing step computes `Breathe` and leaves the head and the rest of the deform buffer alone |
| FinalLevels.ClearTrail | code/main.py:1164-1165 | pressing the head clears every mark |
| FinalLevels.Level12 | code/main.py:1138-1200 | the head breathes; the level finishes exactly when every cell but the head is marked; otherwise the trail and head are `PressesAfter` of the old ones and the frame's presses; new marks lie in line with the head; without a press the marks and head stay; an unfinished frame with a press resets the timeout |
| FinalLevels.ShowTrail | code/main.py:1198-1200 | the field shows the marks and the head's breathing brightness |
| FinalLevels.AllMarked | code/main.py:1151-1155 | reports exactly whether every cell but the head is marked |
| FinalLevels.Presses | code/main.py:1158-1197 | the trail and head after the loop are `PressesAfter`: the presses taken in cell order, each wiping on the head or sliding from the head position the frame started with; marks stay 0 or 63, new marks lie in line with the head, presses are released, the timeout resets on a press |
| FinalLevels.Restart | code/main.py:1205-1211 | the field goes dark and the show phase starts at the first cell: `velocity` becomes the old one with phase 1 and counters 0 |
| FinalLevels.Show | code/main.py:1212-1230 | every ninth frame shows the next cell of the order at 16; after all 70, three rests, then the recall phase (`ShowFrame`: the whole new field and velocity) |
| FinalLevels.Recall | code/main.py:1231-1250 | the level finishes exactly when the frame's presses, in cell order, complete the order from position `velocity[1]`; otherwise velocity is `RecallVelocity` of the walk `RecallAfter` and the lit cells are `LitAfter`; presses are only released; any press resets the timeout |
| FinalLevels.RecallMeans | code/main.py:1231-1250 | the walk is done exactly when the pressed cells in index order extend the rest of the order from p0; it is waiting exactly when they are a proper prefix of it, and then it stands at p0 plus their number; a failed walk is never done |
| FinalLevels.DoneStays | code/main.py:1240-1242 | once the order is complete, later presses change neither the walk nor the lit cells |
| FinalLevels.LitStep | code/main.py:1237-1238 | a press that matches the walk's position lights its cell; any other leaves the field |
| FinalLevels.VelocityStep | code/main.py:1236-1248 | a matching press advances `velocity[1]` or completes the order at the last position; a wrong one sets phase 3 and positions 0 |
| FinalLevels.RecallCells | code/main.py:1231-1250 | the press loop computes the walk `RecallAfter`, its velocity and its lit cells, and stops when the order completes; the timeout is reset exactly when some cell was pressed |
| FinalLevels.RecallPress | code/main.py:1233-1249 | a press on the cell the order expects at `velocity[1]` lights it (255) and advances `velocity[1]`, finishing exactly at position 69; a press elsewhere sets phase 3 with `velocity[1]` and `velocity[2]` at 0 and lights nothing; the press is released and the timeout reset |
| FinalLevels.Fail | code/main.py:1251-1262 | the fail phase waits eight frames, then darkens cells 0..69 one per frame, then returns to phase 0 (`FailFrame`: the whole new field and velocity) |
| FinalLevels.Level13 | code/main.py:1202-1262 | phase 0 restarts the field; phase 1 is one `ShowFrame`; phase 2 gives the walk's velocity and lit cells, and finishes exactly when the frame's presses, in cell order, complete the order from `velocity[1]`; phase 3 is one `FailFrame`; only the recall phase touches the switches, and a press there resets the timeout |
| Hud.CountOnes | code/main.py:1279-1281 | the loop counts the set bits among the lowest n bits |
| Hud.CheckVendorCode | code/main.py:1274-1290 | the bit-twiddling check computes `VendorCode` |
| Hud.ParityBitChecked | code/main.py:1277-1282 | the low bit is a parity bit: two codes differing only in it never both pass |
| Hud.Passes | code/main.py:1274-1290 | a code passes when its six high bits have the parity of its low bit and its top-selected bits have odd parity |
| Hud.SevenCodesPass | code/main.py:1274-1290 | 17, 18, 20, 23, 24, 27 and 29 pass: seven distinct codes that unlock the HUD |
| Hud.Pack | code/main.py:1393-1398 | seven cells pack to a value below 2^7, first cell most significant |
| Hud.UnpackPack | code/main.py:1393-1398 | unpacking a packed group gives it back |
| Hud.PackInjective | code/main.py:1393-1398 | different groups pack to different values |
| Hud.Group | code/main.py:1389-1392 | group k is the seven entry cells from 21 + 7k, each lit or not |
| Hud.Code | code/main.py:1387-1399 | group k's code is below 128 |
| Hud.HudCodeGet | code/main.py:1387-1399 | the loops compute `Code` of the entry cells 21 + 7k .. 27 + 7k |
| Hud.UnlocksByPattern | code/main.py:1368-1385 | the entry unlocks exactly when every group's code passes and the seven groups are pairwise different |
| Hud.Repeats | code/main.py:1379-1382 | reports whether another code equals code i |
| Hud.CheckGroup | code/main.py:1370-1374 | group i's code is stored in slot i and its pass flag says whether it passes `VendorCode`; no other slot changes |
| Hud.CheckGroups | code/main.py:1369-1377 | each group's code is stored and its pass flag set; the result is whether all pass |
| Hud.AllDistinct | code/main.py:1378-1382 | reports exactly whether the seven codes are pairwise distinct |
| Hud.HudCodeCheck | code/main.py:1368-1385 | the pass flags are refreshed; `unlocked` becomes true when the entry unlocks and is never cleared |
| Hud.FirstOne | code/main.py:1337-1341 | the first pressed cell in a range, or none |
| Hud.LastOne | code/main.py:1342-1348 | the last pressed cell in a range, or none |
| Hud.FirstPressed | code/main.py:1337-1341 | the first pressed level-select cell, or 43 |
| Hud.LevelSelect | code/main.py:1338-1341 | a press on cell 28 + n enters level n freshly and leaves the lock, timed play and brightness settings as they were |
| Hud.Brightness | code/main.py:1342-1348 | pressed brightness cells are released and the last one picks the current level |
| Hud.Settings | code/main.py:1342-1357 | brightness as above; cell 55 locks the HUD; cell 62 flips timed play; only those cells are released (`SettingsReleased`) |
| Hud.Toggled | code/main.py:1359-1365 | the entry after the presses on cells 21 to n - 1 have toggled their cells |
| Hud.EnterCell | code/main.py:1359-1365 | a press on cell i toggles entry cell i, is released and runs the code check; no press changes nothing |
| Hud.UnlockedByMeans | code/main.py:1358-1366 | the recursive `UnlockedBy` holds exactly when some press on cells 21..n - 1 left an entry that `Unlocks` |
| Hud.EnterCode | code/main.py:1358-1366 | each press on cells 21..69 toggles its entry cell and is released, and no other switch changes; the HUD unlocks exactly when some press left an unlocking entry; after any press the pass flags say which groups pass |
| Hud.SettingsInPlay | code/main.py:1342-1357 | the settings keep the game invariant and are `Configured`: the brightness from the last pressed cell of 63..66, the lock on cell 55, timed play flipped on cell 62; only those switches are released |
| Hud.EnterCodeInPlay | code/main.py:1358-1366 | code entry keeps the game invariant, toggles the entry as `Toggled` says, releases only cells 21..69, unlocks as `Hud.EnterCode` says and, after any press, leaves the pass flags checked |
| Hud.HudUnlocked | code/main.py:1336-1357 | the first pressed level-select cell (28..42) leaves the badge in `Entered(cell - 28)`; a level select leaves the settings as they were; with none the level stays, the brightness, lock and timed-mode settings are `Configured` from the switch states and only those switches are released; the invariant holds after either |
| Hud.HudStep | code/main.py:1334-1366 | unlocked: a level-select press enters its level freshly and keeps the settings, otherwise the settings are `Configured` and only their switches are released; locked: only cells 21..69 are released, after any press the pass flags are checked, the entry is `Toggled` by the presses and the HUD unlocks exactly when some press left an entry that `Unlocks`; the level and timed play change only through an unlocked HUD; the invariant holds |
| Hud.Passed | code/main.py:1326-1329 | the number of passing groups is at most seven, and 0 exactly when none passes |
| Hud.CountPassed | code/main.py:1326-1329 | the counting loop computes `Passed` |
| Hud.HudRaster | code/main.py:1297-1332 | the HUD picture has 70 cells |
| Hud.SetCell | code/main.py:1302 | one cell gets the gamma-corrected value; no other changes |
| Hud.PaintRange | code/main.py:1303-1305 | cells lo to hi - 1 get the gamma-corrected value |
| Hud.PaintRamp | code/main.py:1306-1308 | brightness cells 63..66 show 32, 64, 96, 128 |
| Hud.PaintEntries | code/main.py:1320-1322 | cells 21..69 show the code entry |
| Hud.HudDrawUnlocked | code/main.py:1300-1315 | the unlocked picture, cell by cell |
| Hud.HudDrawLocked | code/main.py:1316-1332 | the locked picture, cell by cell |
| Hud.HudDraw | code/main.py:1297-1332 | `hud_draw` leaves the overscan equal to `HudRaster` |
| Hud.UnlockedHudShowsLevel | code/main.py:1300-1315 | unlocked, exactly cell level + 7 of the first 28 is at full brightness, and cell 62 is full exactly in timed play |
| Hud.LockedHudShowsLevel | code/main.py:1317-1319 | locked, exactly cell `game_level` of the first 14 is at full brightness (none for levels -3 and 14) |
| Hud.LockedHudShowsPassed | code/main.py:1320-1332 | locked, the pass count shows as the one brighter cell among 14..20, and cells 21..69 show the entry |
| Hud.HudInit | code/main.py:1292-1295 | the HUD code is drawn from the ant in one step and is below 32 |
| MainLoop.LongPress | code/main.py:1506-1539 | the frame is skipped exactly while the HUD button is held alone below 255 frames; the mode flips exactly when it is held alone at 255; a fake press of cell 0 is made exactly when it is held with another cell or has just been released |
| MainLoop.HeldCounts | code/main.py:1512-1525 | n frames held alone count n |
| MainLoop.HeldFlips | code/main.py:1513-1523 | the frame after the count reaches 255 flips the mode and resets the hold |
| MainLoop.LongPressSwitches | code/main.py:1506-1525 | from a fresh press, 255 frames keep the mode and the 256th flips it |
| MainLoop.NoOtherPress | code/main.py:1508-1511 | reports exactly whether no cell but 0 is pressed |
| MainLoop.HudButton | code/main.py:1506-1539 | the long-press block on the badge follows `LongPress`; entering the HUD draws a HUD code below 32 |
| MainLoop.HudHeld | code/main.py:1506-1531 | the held branch follows `LongPress` |
| MainLoop.Prelude | code/main.py:1504-1539 | the frame's start keeps `Ready()` and the level's invariant |
| MainLoop.Tick | code/main.py:1505 | the per-frame ant step keeps the invariants |
| MainLoop.ButtonInPlay | code/main.py:1506-1539 | the long-press block keeps the invariants |
| MainLoop.WithdrawFake | code/main.py:1543-1545 | the fake press of cell 0 is withdrawn |
| MainLoop.GameFrame | code/main.py:1540-1545 | step, draw and withdrawal keep `Valid()` and leave no fake press; timed play is kept; a timed level 1..13 whose patience runs out falls back one level, and only then does the level drop; otherwise the level stays or the next one is entered, with the timeout reset; levels -3 and 14 stay |
| MainLoop.Show | code/main.py:1542-1545 | drawing and withdrawing the fake press keep `Valid()` |
| MainLoop.HudFrame | code/main.py:1546-1548 | the HUD step keeps `Valid()` and the overscan is the HUD picture |
| MainLoop.Frame | code/main.py:1503-1550 | one frame of the main loop keeps `Valid()` |
| Demo.BounceKeepsHeading | Purple_badge/example.py:283-290 | a ball inside the axis heading inwards at the ends moves one step and keeps those properties |
| Demo.SweepOut | Purple_badge/example.py:283-290 | from 0 the ball reaches k after k frames and turns at the far end |
| Demo.SweepBack | Purple_badge/example.py:283-290 | from the far end the ball comes back one cell per frame and turns at 0 |
| Demo.BouncedLast | Purple_badge/example.py:283-290 | k frames are k - 1 frames and one more |
| Demo.BouncedSplit | Purple_badge/example.py:283-290 | k + m frames are k frames then m frames |
| Demo.BallReturns | Purple_badge/example.py:283-290 | the ball is back at the start heading out after `2 * (n - 1)` frames |
| Demo.Fade | Purple_badge/example.py:296-300 | 0 stays 0 and every lit cell gets darker |
| Demo.DarkAfter | Purple_badge/example.py:296-300 | a cell of value v is dark after `v / 16 + v % 16` frames or more |
| Demo.FadeHigh | Purple_badge/example.py:296-300 | above 15 a cell drops by 16 per frame |
| Demo.FadeLow | Purple_badge/example.py:296-300 | from 1 to 15 a cell drops by 1 per frame |
| Demo.FadedSplit | Purple_badge/example.py:296-300 | k + m frames of fading are k then m frames |
| Demo.TrailLength | Purple_badge/example.py:293-300 | the ball's 255 fades out after exactly 30 frames |
| Demo.LastPressed | Purple_badge/example.py:264-270 | the last pressed cell, or none |
| Demo.Steered | Purple_badge/example.py:272-280 | steering keeps a heading of 1 or -1 and leaves it alone without presses |
| Demo.ClearedStep | Purple_badge/example.py:264-270 | a press darkens the ball's cell and then moves the ball to the press; an unpressed cell changes neither |
| Demo.Landed | Purple_badge/example.py:264-271 | with a press the ball stands in the field on the last pressed cell; without one it stays where it was |
| Demo.DemoBadge.constructor | Purple_badge/example.py:192-252 | a dark raster, no presses, the ball at (0, 0) heading (1, 1) |
| Demo.DemoBadge.RasterFill | Purple_badge/example.py:54-58 | every cell becomes `gama_64[v / 4]` |
| Demo.DemoBadge.RasterSetAt | Purple_badge/example.py:60-64 | only the addressed cell changes, to `gama_64[v / 4]` |
| Demo.DemoBadge.GetButtonStates | Purple_badge/example.py:148-168 | the scan records the raw matrix, sets the switch states to `Scanned` and the last button to `LastFired` |
| Demo.DemoBadge.ScanCell | Purple_badge/example.py:150-168 | one cell of the scan; nothing else changes |
| Demo.DemoBadge.TakePresses | Purple_badge/example.py:264-280 | every press is released; the ball's old cell and every cell pressed before the last press go dark (`Cleared`); the ball lands on the last press (`Landed`), heading inwards at an edge (`Steered`) |
| Demo.DemoBadge.TakeAll | Purple_badge/example.py:264-280 | the press loop computes `Cleared`, `BallAt` and `Steered` of the frame's switch states |
| Demo.DemoBadge.TakeCell | Purple_badge/example.py:265-280 | one press as above; an unpressed cell changes nothing |
| Demo.DemoBadge.Move | Purple_badge/example.py:283-290 | both axes bounce, so the ball stays in 0..6 x 0..9 |
| Demo.DemoBadge.FadeAll | Purple_badge/example.py:296-300 | every cell fades once |
| Demo.DemoBadge.Frame | Purple_badge/example.py:259-300 | one frame records the raw matrix, releases the scanned presses, moves the ball from where the presses put it by `Bounce` along the `Steered` heading, and leaves the raster as `Faded` of the `Cleared` raster with the new ball cell at 255; the ball stays in the field with an inward heading at the edges |

## Left out

- The I2C programming of the LED drivers (`led_init`, `led_current`, and the transfers in `render`) is foreign hardware I/O; only the index remap of `render` is modelled.
- The GPIO scan of `handle_events` and the pin set-up are electrical I/O; the raw 7 x 10 matrix is a parameter of `get_button_states`.
- The second-core thread `core1_thread` with the `flip` / `current_change` handshake, `gc.collect` and the 30 ms sleep are concurrency and timing; `current_level` / `current_change` are modelled only as the fields the HUD sets.
- The forever loop is modelled as one frame (`MainLoop.Frame`, `Demo.DemoBadge.Frame`).
- `get_button_states` runs on the second core; it is modelled as its own method, not as part of a frame.
- The Purple badge's indicator bytes overflow a bytearray and only feed the LED driver.
- `hud_value` is assigned and never read.
- `step_level_4_average` is never called.
- No statistical property of `randrange` is claimed, only determinism and the range bound.
- The Blue badge file past line 755 is not part of this model.
- Firmware.Badge.Shuffle: the rejection loop of `level_init(13)` may not terminate in general, since that depends on the ant reaching every unused index. The model (`Firmware.Badge.Draft`) tries the ant a bounded number of times per entry (`ShuffleLimit`). After that it falls back to the smallest unused index (`SmallestUnused`). A run in which the firmware needs more draws than the bound is not modelled. The permutation result holds either way.
- Hud.HudUnlocked: a level-select press is modelled as the first pressed cell in 28..42. The firmware loops over all of them, but `level_init` clears every switch, so later cells see no press and the brightness, lock and timed-mode cells see none either.
- Hud.SettingsInPlay, Hud.HudUnlocked, MainLoop.Show: these state that `Valid()` is preserved as `Valid() == old(Valid())` under `requires Valid()`, which is the same claim.
- MainLoop.Prelude, MainLoop.Tick, MainLoop.ButtonInPlay, MainLoop.WithdrawFake, Buttons.GetButtonStates: these state `Ready()` and preserve `LevelOk()`. That is the whole of `Valid()`, split in two.
- Game.Play: a level body's own effect on the arrays is stated by the level's method in OpeningLevels, MiddleLevels or FinalLevels. `Play` states only the invariant and the level it keeps.
- MainLoop.Frame: states only the invariant; the parts of a frame are stated by the members it calls.
- MainLoop.GameFrame: says that a level entered in the frame has its timeout reset, but not that it is `Entered` as `Game.Step` states. Carrying `Entered` through `draw` and the withdrawal of a faked press made those proofs too costly.
- Firmware.Badge.RandRange: says that the walker took one step and that the result is the new `ant_random` reduced, not that the new walker state is `Next` of the old one. That equation is stated by `Entropy.Ant.RandRange`, which this method calls. On the badge it would make every level that draws reason about the walker's hash.
- Firmware.Badge.SeedLate, Firmware.Badge.SeedTargets, Firmware.Badge.SeedBars, Firmware.Badge.SeedSnake, Firmware.Badge.SeedWalkers, Firmware.Badge.SeedComets, Firmware.Badge.SeedHead: each states its level's seeding through `SeededCells(level)` and the level's invariant. The random values themselves are not stated, only their ranges.
- MiddleLevels.Grow, MiddleLevels.Stray, MiddleLevels.Wander, MiddleLevels.Fall, FinalLevels.TurnWalkers: these draw from the ant. They state where the result can land, not which draw gives which move.
