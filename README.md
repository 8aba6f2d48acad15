# Battleship placement and shooting engine, in Dafny

This project models the game mechanics of a two-player Battleship game written
in C. Two versions are modelled.

- **The engine** (`src/engine.c`) has two parts.
  - Ship placement: `getRotation`, `checkCells`, `rotateShip`, `placeShips`,
    `clearSelectedShip`, `placeSelectedShip` and `setSelectedShip`.
  - Shot resolution: `checkGameOver` and `takeShot`.
- **The prototype** (`src/battleship.c`) covers `initializeBoards`,
  `initializeShips`, `placeShip`, and the orientation arithmetic of
  `rotateShip`.

A grid `int grid[X][Y]` is one flat `array<int>` indexed `x * Y + y`. A pointer
into a grid becomes an index into that array.

- Cell codes: 0 empty, 1 ship, 2 miss, 3 hit.
- Every ship cell is computed with the source's single formula,
  `centre - (centreIndex - i) * stride` (`Board.CellAt`).
- C's truncating `/` and `%` are modelled explicitly (`CInt.Div`, `CInt.Rem`),
  because Dafny's are Euclidean.

Module layout:

- `CInt.dfy`: C integer division, remainder and their laws.
- `Board.dfy`: cell codes, flat indices, ship-cell arithmetic, and the
  `Painted` relation. `Painted` says which cells a sequence of writes marks
  SHIP or EMPTY.
- `Engine.dfy`: the engine's ship datatype and its `Player` class. The class
  has a grid array, a ship array, and a `selectedShip` field. It holds the
  placement operations, each specified against functions of the old state.
- `Shooting.dfy`: `checkGameOver` and `takeShot`, specified against the pure
  function `Shot`, and lemmas about that function.
- `Prototype.dfy`: the prototype's `Ship` and `Player` classes and their
  methods, and lemmas about `placeShip`'s effect.

Properties proved include:

- **Engine grid after `placeShips`.** After `placeShips`, the grid is exactly
  `FleetWrites` of the old grid and fleet.
  - When every ship lies along its orientation, every ship cell holds SHIP and
    no other cell changes.
  - A ship that lay on any straight line, for instance before a turn, lies
    along its current orientation afterwards.
  - Take a fleet whose ships lie along their orientations, whose cells hold
    SHIP, and in which one ship shares no cell with the others. Let
    `rotateShip` accept a turn of that ship, or `placeSelectedShip` accept a
    move of it, and then run `placeShips`. The grid is then exact. The other
    ships' cells and the moved ship's new line hold SHIP. The moved ship's
    other old cells are EMPTY. Every other cell is unchanged.
- **Shots keep the two grids consistent.** A record cell is HIT exactly when
  its target cell is HIT, and a MISS record has an EMPTY target. From that:
  - grids with no HIT and no MISS are consistent, and shots in either
    direction keep them so;
  - a second shot at a resolved cell changes nothing;
  - the game ends exactly on a hit that leaves no ship cell holding SHIP.
- **Prototype `placeShip`.** Suppose a ship is laid out in a straight line and
  its cells hold SHIP. Then `placeShip` refuses an unturned move and a half
  turn. Every move it accepts is a "clean" turn, and after a clean turn the
  grid shows exactly the moved ship.
  - A clean turn is a quarter turn, or any turn of the two-cell patrol boat.
  - The point of this result is write order. A half turn, carried out, would
    have a later slot overwrite with EMPTY the new cell of an earlier slot.
  - The occupancy test is what prevents this.

## Model

| member | source | states |
|---|---|---|
| CInt.TruncatedDivision | src/engine.c:111-112 | C's `/` and `%` by a positive row length satisfy `q * b + r == a`. For a non-negative index they agree with the mathematical quotient and remainder. For a negative one the remainder lies in (-b, 0]. |
| Board.IndexDivMod | src/engine.c:111-112 | dividing a flat index `x * S + y` (with `0 <= y < S`) by the row length gives back `x` and `y` |
| Board.IndexInjective | src/engine.c:264 | two in-row cells with the same flat index are the same cell |
| Board.IndexInGrid | src/battleship.c:42-48 | every cell of an `sx` by `sy` grid has a flat index inside the array |
| Board.CellAtContiguous | src/engine.c:107 | `centre - (centreIndex - i) * stride` puts the centre index at the centre, consecutive cells one stride apart, cell `i` at `centre + (i - centreIndex) * stride` |
| Board.CellAtInjective | src/battleship.c:185 | with a non-zero stride, distinct cell numbers give distinct cells |
| Board.PaintedCompose | src/engine.c:160-170 | two successive paintings are one painting with the unions of the SHIP sets and of the EMPTY sets |
| Engine.GetRotation | src/engine.c:66-79 | orientation 1 gives stride 1. Orientations 0..3 give a stride of ±S or ±1, never 0 for S ≠ 0. |
| Engine.OppositeStrides | src/engine.c:66-79 | orientations `r` and `(r + 2) % 4` give negated strides, and the four orientations give four distinct strides |
| Engine.TurnLaws | src/engine.c:130-132 | for the turns 1 (clockwise) and 3 (counter-clockwise), `(rot + rotation) % 4` stays in 0..3, the two turns undo each other, and four clockwise turns return to the start |
| Engine.NegativeTurnLeavesRange | src/engine.c:132 | under C's `%`, a turn by -1 from any orientation in 0..3 steps back one without wrapping, so from 0 it gives -1. For every row length, `getRotation(-1)` passes -1 through as the stride. |
| Engine.InPlayAreaIsBoardCell | src/engine.c:109-116 | the bounds test on C-truncated coordinates accepts a flat index exactly when it is some cell `(x, y)` with `x, y` in 1..10. Such an index lies in the first 11 rows. |
| Engine.AcceptedPlacementInPlayArea | src/engine.c:106-117 | a move `checkCells` accepts with `placing` set puts every ship cell in the 10 by 10 playing area |
| Engine.Player.CheckCells | src/engine.c:82-126 | writes nothing. It returns true exactly when none of three things holds: the requested centre holds 1 and is not the current centre; some computed cell holds 1 while the ship's own cell `i` is not the new centre; `placing` is set and some computed cell's row or column lies outside 1..10. |
| Engine.Player.RotateShip | src/engine.c:128-143 | stores `(rot + rotation) % 4` in the selected ship exactly when `checkCells` accepts it, with bounds enforced exactly when the ship is placed. No other ship, field or cell changes. |
| Engine.RelocationIsFootprint | src/engine.c:160-170 | a recomputed ship keeps its centre. Each cell is the centre or `centre - (center - j) * stride(rot)`. If no other cell coincided with the centre, every cell is the latter. |
| Engine.UpToMembers | src/engine.c:160-170 | the cells `placeShips` marks SHIP are exactly the recomputed cells. The cells it empties are exactly the old cells other than the centre. |
| Engine.ShipWritesPaint | src/engine.c:160-170 | handling one ship marks its recomputed cells SHIP and its old non-centre cells EMPTY, and leaves every other cell |
| Engine.FleetWritesPaint | src/engine.c:147-172 | the same over the whole fleet |
| Engine.SteadyShipWrites | src/engine.c:160-170 | for a ship lying along its orientation, handling it marks exactly its cells SHIP and nothing else changes |
| Engine.SteadyFleetWrites | src/engine.c:147-172 | when every ship lies along its orientation, after `placeShips` every cell of every ship holds SHIP and every other cell is unchanged |
| Engine.PlacedShipLaidOut | src/engine.c:160-170 | a ship that lay on a straight line, whatever its step, lies along its current orientation once recomputed |
| Engine.Player.PlaceShips | src/engine.c:147-172 | every ship becomes its relocation: the same centre, each other cell recomputed from centre and orientation. The grid becomes `FleetWrites` of the old grid and fleet, which paints the recomputed cells SHIP and the old cells EMPTY. The rows below from `Engine.ShipWritesExact` to `Engine.AcceptedMovePlacement` give the exact grid for a safe write order. |
| Engine.ShipWritesExact | src/engine.c:160-170 | suppose no cell emptied at one step is a cell recomputed at an earlier step. Then handling one ship leaves SHIP on exactly its recomputed cells, EMPTY on its other old non-centre cells, and every other cell unchanged. |
| Engine.FleetWritesExact | src/engine.c:147-172 | suppose also that no ship empties a cell that an earlier ship marked, unless it marks that cell again itself. Then after `placeShips` every recomputed cell of every ship holds SHIP, the other emptied cells are EMPTY, and every other cell is unchanged. |
| Engine.LaidOutRelocation | src/engine.c:160-170 | a ship lying along its orientation recomputes to itself, in a safe write order. The cells it marks are exactly its cells, and every cell it empties is one of them. |
| Engine.LaidOutCentre | src/engine.c:162 | in a ship lying along a non-zero stride, only the centre slot holds the centre cell |
| Engine.AcceptedTurnOrderSafe | src/engine.c:104-123 | a turn `checkCells` accepts for a ship whose cells all hold 1 gives a safe write order. No newly computed cell is an old cell, other than on the centre. |
| Engine.TurnedShipSets | src/engine.c:160-170 | after a turn of a ship lying along its orientation, `placeShips` marks exactly the cells of the new line around the centre. It empties exactly the old cells other than the centre. |
| Engine.ReplacedFleetOrderSafe | src/engine.c:147-172 | replacing one ship of a marked fleet by a ship with a safe write order, whose emptied cells are among the old ship's cells, keeps the whole fleet's write order safe |
| Engine.ReplacedFleetWrites | src/engine.c:147-172 | after such a replacement, `placeShips` leaves SHIP exactly on the other ships' cells and the new ship's marked cells. It leaves EMPTY on the new ship's other emptied cells and changes nothing else. |
| Engine.AcceptedTurnPlacement | src/engine.c:128-172 | a turn `rotateShip` accepts for a ship of a marked fleet, followed by `placeShips`, leaves SHIP exactly on the other ships' cells and the turned ship's new line. The turned ship's other old cells become EMPTY, and no other cell changes. |
| Engine.MovedShip | src/engine.c:195-197 | the moved ship has its centre at the target cell and is placed. Its length, centre number, orientation, starting cell and other slots are unchanged. |
| Engine.AcceptedMoveOrderSafe | src/engine.c:88-123 | for a move `checkCells` accepts of a laid-out ship whose cells hold 1, no non-centre cell lies on the old or the new centre, and the moved ship has a safe write order |
| Engine.MovedShipSets | src/engine.c:160-170 | after such a move, `placeShips` marks exactly the cells of the ship's line around the new centre. It empties exactly the old cells other than the old centre. |
| Engine.AcceptedMovePlacement | src/engine.c:186-199 | a move `placeSelectedShip` accepts, which also empties the old centre, followed by `placeShips`, leaves SHIP exactly on the other ships' cells and the moved ship's new line. The ship's other old cells become EMPTY, and no other cell changes. |
| Engine.Player.PlaceOneShip | src/engine.c:153-171 | one round of the outer loop: ship `i` is relocated, the grid becomes `ShipWrites` for it, and the other ships are unchanged |
| Engine.ClearedShip | src/engine.c:182-183 | the cleared ship has orientation 0, its centre at its starting cell, and everything else unchanged |
| Engine.ClearedGrid | src/engine.c:178-181 | the cleared grid is EMPTY on every cell of the ship and unchanged elsewhere |
| Engine.Player.ClearSelectedShip | src/engine.c:175-184 | the grid becomes `ClearedGrid` and the selected ship becomes `ClearedShip`. The other ships are unchanged. |
| Engine.Player.PlaceSelectedShip | src/engine.c:186-204 | with no selection: returns 0 and changes nothing. With (x, y) outside 1..10, or when `checkCells` rejects: returns 1 and changes nothing. Otherwise: empties the old centre cell, replaces the ship by `MovedShip` with centre (x, y), returns 0. |
| Engine.SelectionProbeOffset | src/engine.c:219-226 | the cell `setSelectedShip` checks, (2 + center, 13), lies 11 rows before the staging cell (13 + center, 13) it moves the centre to |
| Engine.Player.SetSelectedShip | src/engine.c:207-232 | once started: returns 1 and changes nothing. Before that: clears the previous ship. Then, if `checkCells` accepts that ship at the probe cell with ship `k`'s orientation, it selects `k`, marks it unplaced, empties its centre cell, moves its centre to (13 + center, 13), and returns 0. Otherwise it returns 1 with only the clearing done. |
| Shooting.CheckGameOver | src/engine.c:241-252 | writes nothing and returns true exactly when no cell of any of the player's ships holds 1 |
| Shooting.TranslationRoundTrip | src/engine.c:257-264 | a shot (x, y) in the guessing block lands on the defender's cell (x, y - 11). That cell is in the defender's playing area, and the shot's coordinates come back from it. |
| Shooting.ShotChangesOnlyItsCells | src/engine.c:255-281 | a shot outside the guessing block, or at a record cell that holds 2, returns 0 and changes nothing. Any shot returning 0 changes nothing. Only the record cell and the target cell can change. |
| Shooting.ShotOutcomes | src/engine.c:264-276 | a target cell holding 0 is a miss and marks the record 2. A target holding 1 is a hit and marks both cells 3. These are the only misses and hits. |
| Shooting.RepeatedShotIsNoOp | src/engine.c:257-280 | firing again at the cell of a shot that counted returns 0 and changes nothing |
| Shooting.ShotKeepsConsistent | src/engine.c:264-276 | every shot keeps the attacker's record consistent with the defender's grid, under `IndexInjective` |
| Shooting.StartIsConsistent | src/engine.c:264-276 | grids in which no record cell holds 2 or 3 and no target cell holds 3 are consistent |
| Shooting.ReturnFireKeepsConsistent | src/engine.c:255-281 | a shot the other way, by the defender, keeps the attacker's record consistent with the defender's grid. It writes only the defender's record block and the attacker's own block. |
| Shooting.ShotAtResolvedCellIsNoOp | src/engine.c:257-280 | with consistent grids, a shot at a record cell holding 2 or 3 returns 0 and changes nothing |
| Shooting.TakeShot | src/engine.c:255-281 | the two grids become those of `Shot` and the result is 1 exactly for a miss or a hit. `running` turns false exactly on a hit after which no cell of any p2 ship holds 1; otherwise it is unchanged. |
| Prototype.TurnedValues | src/battleship.c:145-148 | left maps 0 to 3 and every other orientation to one less; right maps 3 to 0 and every other orientation to one more |
| Prototype.TurnedInRange | src/battleship.c:145-148 | the turned orientation stays in 0..3, and it changes exactly when an arrow key is pressed |
| Prototype.TurnsUndo | src/battleship.c:145-148 | left then right, or right then left, restores the orientation. Four turns the same way also restore it. |
| Prototype.Ship.Rotate | src/battleship.c:142-149 | the orientation becomes `Turned(rot, key)`. Cells, length and placed flag are unchanged. |
| Prototype.QuarterTurnAxes | src/battleship.c:155-169 | a quarter turn swaps a stride of ±17 for one of ±1, or the reverse |
| Prototype.Ship.Place | src/battleship.c:151-190 | returns 1 exactly when some slot whose cell is not the start cell would move onto a cell holding 1; then nothing changes. Otherwise it returns 0, the slots become `Relocated` and the grid becomes `Writes`. Length, orientation and placed flag never change. |
| Prototype.RelocatedShape | src/battleship.c:180-188 | after a move the start cell and the unused slots are unchanged. Every used slot is the start cell or `start - (len/2 - i) * stride`. |
| Prototype.MovedVacatedMembers | src/battleship.c:180-188 | the cells marked SHIP are exactly the new cells of the moving slots. The cells emptied are exactly their old cells. |
| Prototype.WritesPaint | src/battleship.c:180-188 | emptying each old cell before marking its new one paints the new cells SHIP and the old cells EMPTY, and leaves every other cell |
| Prototype.CleanTurnDisjoint | src/battleship.c:180-188 | after a clean turn of a laid-out ship, no old non-middle cell is a new non-middle cell |
| Prototype.CleanTurnIsExact | src/battleship.c:180-188 | after a clean turn, every new non-middle cell holds 1, every old non-middle cell holds 0, and no other cell changed |
| Prototype.UnturnedPlacementBlocked | src/battleship.c:171-178 | the occupancy test does not skip the ship's own cells, so moving a laid-out ship without turning it is always refused |
| Prototype.HalfTurnBlocked | src/battleship.c:171-178 | a half turn of a laid-out ship of three or more cells is always refused: the slot before the middle would move onto the old cell of the slot after it |
| Prototype.AcceptedMoveIsClean | src/battleship.c:171-188 | every move `placeShip` accepts for a laid-out ship whose cells hold 1 is a clean turn |
| Prototype.RelocatedLaidOut | src/battleship.c:180-188 | a moved laid-out ship is laid out along its new orientation around the same start cell |
| Prototype.Player.InitializeBoards | src/battleship.c:39-51 | every cell of the 17 by 17 grid and of the 10 by 10 shot record becomes 0 |
| Prototype.Player.constructor | src/battleship.c:24-36 | a player with new grids of 17 by 17 and 10 by 10 cells and five new, distinct ships of five slots each |
| Prototype.Player.StageShip | src/battleship.c:89-93 | slot `i` of ship `k` becomes cell `(11 + i, 2k + 1)`, exactly those cells become 1, and nothing else changes: the slots from `len` on, the length, orientation and placed flag and all other cells keep their values |
| Prototype.Player.InitializeShips | src/battleship.c:53-114 | carrier through patrol boat get lengths 5, 4, 3, 3 and 2, orientation 0 and not placed. Ship `k` occupies column `2k + 1` from row 11, and its slots from its length on are unchanged. Exactly those cells become 1. |
| Prototype.Player.SetUpPlayers | src/battleship.c:213-219 | two new, distinct players, each with both grids cleared and then its ships staged. Each grid holds 1 on exactly the staging cells and 0 elsewhere, and each shot record is all 0. |
| Prototype.StagingLayout | src/battleship.c:89-113 | slot `i` of ship `k` lies in the grid at first coordinate `11 + i` and second coordinate `2k + 1`. That is to the right of coordinates 0..9, the 10 by 10 grid `drawGrid` draws, and outside the engine's playing area. The staging cells are pairwise distinct. |
| Prototype.StagedShipLaidOut | src/battleship.c:89-113 | a staged ship is laid out along orientation 0, the orientation it is given |

## Left out

- SDL setup, event polling, rendering and the main loop are not part of this model. This covers `src/rendering.c`, the first lines of `src/engine.c`, and `drawGrid`, `drawPlayerShips`, `render` and all of `main` in `src/battleship.c` except the player set-up (`Prototype.Player.SetUpPlayers`). They are library I/O.
- The key read by the prototype's `rotateShip` is a parameter (`Key`), not a keyboard read.
- The `printf` diagnostics are left out.
- The empty `checkSunk` stub is left out.
- The engine's `player` and `ship` types, `NSHIPS` and the board sizes are not defined in the shown header. They are inferred from use.
- The board sizes are parameters with `BOARD_SIZE_X >= 18` and `BOARD_SIZE_Y >= 22`, and `NSHIPS` is 5.
- Only the engine fields the core reads are modelled.
- The engine's initial fleet and grid set-up is not in the core. The engine `Player` constructor takes any well-formed fleet, an empty grid and any selection (-1 for none).
- Engine.Player.PlaceShips: the exact grid is proved only for a fleet whose ships lie along their orientations, hold SHIP and do not overlap the moved ship, after one accepted turn or move. For any other fleet the contract gives the `FleetWrites` painting, a SHIP set and an EMPTY set that may overlap, and not the order in which an overlap is resolved.
- C leaves undefined what happens when the source indexes `ships[-1]` or computes a cell pointer outside the grid. Those uses become preconditions.
- Engine.Player.RotateShip: requires a selected ship, because the source reads `ships[selectedShip]` before its `!= -1` test.
- Engine.Player.SetSelectedShip: before the game starts, requires that the previous selection exists and is not placed. Otherwise the source's `checkCells` call reads `ships[-1]`. So the first selection and the placed-ship branch are not modelled.
- Engine.Player.CheckCells: requires the requested centre to be in the grid, and, when not placing, every computed cell to be in the grid. The source does not check these.
- Engine.Player.PlaceShips: requires every computed cell to be in the grid.
- Prototype.Ship.Place: requires every cell it reads or writes to be in the grid.
- Engine.Player.PlaceOneShip is the body of `placeShips`' outer loop, taken out as a method of its own.
- Prototype.Ship.constructor: the prototype's players are uninitialised locals before `initializeShips` runs. The constructor fixes their slots to five zeros and their lengths to 0.
- Aliasing between two players' grids is excluded: `TakeShot` requires distinct grids.
- Pointer identity beyond index equality is not modelled.
- The engine's selection check is preserved as written, and `Engine.SelectionProbeOffset` states the offset. `setSelectedShip` checks the ship at (2 + center, 13) but moves it to (13 + center, 13).
