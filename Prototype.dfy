/**
 * The first, single-file version of the game (src/battleship.c): one 17 by 17
 * grid per player holding its ships, a 10 by 10 grid for its shots, and five
 * ships, each with five cell slots of which the first `len` are used. A ship
 * is moved by turning it with the arrow keys and recomputing its cells from
 * its middle cell `pos[len / 2]`.
 */
module Prototype {
  import CInt
  import opened Board
  import Engine

  const BOARD_SIZE := 17
  const OPPONENT_SIZE := BOARD_SIZE - 7
  /** The number of cell slots of a ship. */
  const SLOTS := 5

  /** The key read while turning a ship. */
  datatype Key = LeftKey | RightKey | OtherKey

  /** rotateShip: the left arrow turns the orientation back by one quarter,
      the right arrow forward by one, any other key leaves it. */
  function Turned(rot: int, key: Key): int
  {
    match key
    case LeftKey => CInt.Rem(rot + 3, 4)
    case RightKey => CInt.Rem(rot + 1, 4)
    case OtherKey => rot
  }

  /** The left arrow steps 0 to 3 and every other orientation down by one;
      the right arrow steps 3 to 0 and every other orientation up by one. */
  lemma TurnedValues(rot: int)
    requires 0 <= rot < 4
    ensures Turned(rot, LeftKey) == if rot == 0 then 3 else rot - 1
    ensures Turned(rot, RightKey) == if rot == 3 then 0 else rot + 1
  {
    CInt.TruncatedDivision(rot + 3, 4);
    CInt.TruncatedDivision(rot + 1, 4);
  }

  /** Turning keeps an orientation in 0..3, and an arrow key always changes it. */
  lemma TurnedInRange(rot: int, key: Key)
    requires 0 <= rot < 4
    ensures 0 <= Turned(rot, key) < 4
    ensures key != OtherKey <==> Turned(rot, key) != rot
  {
    TurnedValues(rot);
  }

  /** The two arrows undo each other, and four turns the same way come back
      to the start. */
  lemma TurnsUndo(rot: int)
    requires 0 <= rot < 4
    ensures Turned(Turned(rot, LeftKey), RightKey) == rot
    ensures Turned(Turned(rot, RightKey), LeftKey) == rot
    ensures Turned(Turned(Turned(Turned(rot, RightKey), RightKey), RightKey), RightKey) == rot
    ensures Turned(Turned(Turned(Turned(rot, LeftKey), LeftKey), LeftKey), LeftKey) == rot
  {
    TurnedValues(rot);
    var l, r := Turned(rot, LeftKey), Turned(rot, RightKey);
    TurnedValues(l);
    TurnedValues(r);
    var ll, rr := Turned(l, LeftKey), Turned(r, RightKey);
    TurnedValues(ll);
    TurnedValues(rr);
    TurnedValues(Turned(ll, LeftKey));
    TurnedValues(Turned(rr, RightKey));
  }

  /** The step between consecutive cells of a ship of orientation `rot`; the
      switch in placeShip is the engine's getRotation with 17-cell rows. */
  function Stride(rot: int): int
  {
    Engine.GetRotation(rot, BOARD_SIZE)
  }

  /** The cell placeShip computes for slot `i`: `start - (len / 2 - i) * stride`. */
  function Target(pos: seq<int>, len: int, rot: int, i: int): int
    requires 0 < len <= |pos|
  {
    CellAt(pos[len / 2], len / 2, i, Stride(rot))
  }

  /** Slot `i` takes part in the move: its cell is not the start cell. */
  predicate Moves(pos: seq<int>, len: int, i: int)
    requires 0 <= i < len <= |pos|
  {
    pos[i] != pos[len / 2]
  }

  /** The cells placeShip reads and writes lie in a grid of `cells` cells. */
  ghost predicate Footprint(pos: seq<int>, len: int, rot: int, cells: int)
    requires 0 < len <= |pos|
  {
    forall i :: 0 <= i < len && Moves(pos, len, i) ==>
      0 <= pos[i] < cells && 0 <= Target(pos, len, rot, i) < cells
  }

  /** placeShip refuses the move: some moving slot's new cell holds SHIP. */
  ghost predicate Blocked(g: seq<int>, pos: seq<int>, len: int, rot: int)
    requires 0 < len <= |pos|
  {
    exists i :: 0 <= i < len && Moves(pos, len, i) &&
      0 <= Target(pos, len, rot, i) < |g| && g[Target(pos, len, rot, i)] == SHIP
  }

  /** The slots after an accepted move: moving slots take their new cells. */
  function Relocated(pos: seq<int>, len: int, rot: int): (r: seq<int>)
    requires 0 < len <= |pos|
    ensures |r| == |pos|
  {
    seq(|pos|, i requires 0 <= i < |pos| =>
      if i < len && Moves(pos, len, i) then Target(pos, len, rot, i) else pos[i])
  }

  /** The grid after the first `n` slots of an accepted move: each moving slot
      writes EMPTY to its old cell and then SHIP to its new one. */
  ghost function Writes(g: seq<int>, pos: seq<int>, len: int, rot: int, n: int): (r: seq<int>)
    requires 0 < len <= |pos| && 0 <= n <= len && Footprint(pos, len, rot, |g|)
    ensures |r| == |g|
    decreases n
  {
    if n == 0 then g
    else
      var g' := Writes(g, pos, len, rot, n - 1);
      if Moves(pos, len, n - 1) then g'[pos[n - 1] := EMPTY][Target(pos, len, rot, n - 1) := SHIP]
      else g'
  }

  /** The new cells of the first `n` slots that move. */
  ghost function MovedTo(pos: seq<int>, len: int, rot: int, n: int): set<int>
    requires 0 < len <= |pos| && 0 <= n <= len
    decreases n
  {
    if n == 0 then {}
    else MovedTo(pos, len, rot, n - 1) + (if Moves(pos, len, n - 1) then {Target(pos, len, rot, n - 1)} else {})
  }

  /** The old cells of the first `n` slots that move. */
  ghost function Vacated(pos: seq<int>, len: int, n: int): set<int>
    requires 0 < len <= |pos| && 0 <= n <= len
    decreases n
  {
    if n == 0 then {}
    else Vacated(pos, len, n - 1) + (if Moves(pos, len, n - 1) then {pos[n - 1]} else {})
  }

  /** The members of the two sets, stated directly. */
  lemma {:induction false} MovedVacatedMembers(pos: seq<int>, len: int, rot: int, n: int, c: int)
    requires 0 < len <= |pos| && 0 <= n <= len
    ensures c in MovedTo(pos, len, rot, n) <==> exists i :: 0 <= i < n && Moves(pos, len, i) && Target(pos, len, rot, i) == c
    ensures c in Vacated(pos, len, n) <==> exists i :: 0 <= i < n && Moves(pos, len, i) && pos[i] == c
    decreases n
  {
    if n > 0 {
      MovedVacatedMembers(pos, len, rot, n - 1, c);
      if Moves(pos, len, n - 1) && Target(pos, len, rot, n - 1) == c {
        assert exists i :: 0 <= i < n && Moves(pos, len, i) && Target(pos, len, rot, i) == c;
      }
      if Moves(pos, len, n - 1) && pos[n - 1] == c {
        assert exists i :: 0 <= i < n && Moves(pos, len, i) && pos[i] == c;
      }
    }
  }

  /** An accepted move writes SHIP to the new cells and EMPTY to the old ones
      and leaves every other cell; only a cell that is both old and new can
      end up either way. */
  lemma {:induction false} WritesPaint(g: seq<int>, pos: seq<int>, len: int, rot: int, n: int)
    requires 0 < len <= |pos| && 0 <= n <= len && Footprint(pos, len, rot, |g|)
    ensures Painted(g, Writes(g, pos, len, rot, n), MovedTo(pos, len, rot, n), Vacated(pos, len, n))
    decreases n
  {
    if n > 0 {
      WritesPaint(g, pos, len, rot, n - 1);
      var g' := Writes(g, pos, len, rot, n - 1);
      if Moves(pos, len, n - 1) {
        PaintedMove(g', pos[n - 1], Target(pos, len, rot, n - 1));
        PaintedCompose(g, g', Writes(g, pos, len, rot, n), MovedTo(pos, len, rot, n - 1), Vacated(pos, len, n - 1),
                       {Target(pos, len, rot, n - 1)}, {pos[n - 1]});
      } else {
        assert MovedTo(pos, len, rot, n) == MovedTo(pos, len, rot, n - 1);
        assert Vacated(pos, len, n) == Vacated(pos, len, n - 1);
      }
    }
  }

  /** The first `len` slots form a straight ship of orientation `rot0` around
      its start cell. */
  predicate LaidOut(pos: seq<int>, len: int, rot0: int)
    requires 0 < len <= |pos|
  {
    forall i :: 0 <= i < len ==> pos[i] == CellAt(pos[len / 2], len / 2, i, Stride(rot0))
  }

  /** A turn that placeShip carries out exactly: a quarter turn, or any turn
      of a two-cell ship. */
  predicate CleanTurn(len: int, rot0: int, rot: int)
  {
    0 <= rot0 < 4 && 0 <= rot < 4 && rot != rot0 &&
    (len == 2 || rot == Turned(rot0, LeftKey) || rot == Turned(rot0, RightKey))
  }

  /** For a ship laid out along `rot0`, the slots that move are exactly the
      ones other than the middle. */
  lemma LaidOutMoves(pos: seq<int>, len: int, rot0: int, i: int)
    requires 0 < len <= |pos| && len <= SLOTS && 0 <= rot0 < 4 && LaidOut(pos, len, rot0) && 0 <= i < len
    ensures Moves(pos, len, i) <==> i != len / 2
  {
    Engine.OppositeStrides(rot0, rot0, BOARD_SIZE);
    CellAtContiguous(pos[len / 2], len / 2, i, Stride(rot0));
    if i != len / 2 {
      CellAtInjective(pos[len / 2], len / 2, i, len / 2, Stride(rot0));
      CellAtContiguous(pos[len / 2], len / 2, len / 2, Stride(rot0));
    }
  }

  /** Non-zero steps of at most two cells along a row and along a column
      never reach the same cell. */
  lemma CrossStepsDiffer(a: int, b: int, rowStep: int, colStep: int)
    requires -2 <= a <= 2 && -2 <= b <= 2 && a != 0 && b != 0
    requires (rowStep == BOARD_SIZE || rowStep == -BOARD_SIZE) && (colStep == 1 || colStep == -1)
    ensures a * rowStep != b * colStep
  {
    if rowStep == BOARD_SIZE {
      assert a * rowStep == 17 * a;
    } else {
      assert a * rowStep == -17 * a;
    }
    if colStep == 1 {
      assert b * colStep == b;
    } else {
      assert b * colStep == -b;
    }
  }

  /** A quarter turn swaps steps along a row for steps along a column. */
  lemma QuarterTurnAxes(rot0: int, rot: int)
    requires 0 <= rot0 < 4 && (rot == Turned(rot0, LeftKey) || rot == Turned(rot0, RightKey))
    ensures ((Stride(rot0) == BOARD_SIZE || Stride(rot0) == -BOARD_SIZE) && (Stride(rot) == 1 || Stride(rot) == -1)) ||
            ((Stride(rot) == BOARD_SIZE || Stride(rot) == -BOARD_SIZE) && (Stride(rot0) == 1 || Stride(rot0) == -1))
  {
    TurnedValues(rot0);
  }

  /** After a clean turn no old cell of the ship is one of its new cells. */
  lemma CleanTurnDisjoint(pos: seq<int>, len: int, rot0: int, rot: int, i: int, j: int)
    requires 0 < len <= |pos| && len <= SLOTS && LaidOut(pos, len, rot0) && CleanTurn(len, rot0, rot)
    requires 0 <= i < len && 0 <= j < len && i != len / 2 && j != len / 2
    ensures Target(pos, len, rot, i) != pos[j]
  {
    var c, h := pos[len / 2], len / 2;
    var s0, s1 := Stride(rot0), Stride(rot);
    CellAtContiguous(c, h, i, s1);
    CellAtContiguous(c, h, j, s0);
    assert pos[j] == CellAt(c, h, j, s0);
    if len == 2 {
      Engine.OppositeStrides(rot, rot0, BOARD_SIZE);
      assert Target(pos, len, rot, i) == c - s1 && pos[j] == c - s0;
    } else {
      QuarterTurnAxes(rot0, rot);
      if s0 == BOARD_SIZE || s0 == -BOARD_SIZE {
        CrossStepsDiffer(j - h, i - h, s0, s1);
      } else {
        CrossStepsDiffer(i - h, j - h, s1, s0);
      }
    }
  }

  /** After an accepted clean turn of a laid-out ship, every new cell other
      than the middle holds SHIP, every old cell other than the middle holds
      EMPTY, and no other cell of the grid changed. */
  lemma CleanTurnIsExact(g: seq<int>, pos: seq<int>, len: int, rot0: int, rot: int)
    requires 0 < len <= |pos| && len <= SLOTS && LaidOut(pos, len, rot0) && CleanTurn(len, rot0, rot)
    requires Footprint(pos, len, rot, |g|)
    ensures var g' := Writes(g, pos, len, rot, len);
            (forall i :: 0 <= i < len && i != len / 2 ==> g'[Target(pos, len, rot, i)] == SHIP && g'[pos[i]] == EMPTY) &&
            (forall c :: 0 <= c < |g| && c !in MovedTo(pos, len, rot, len) && c !in Vacated(pos, len, len) ==> g'[c] == g[c])
  {
    var g' := Writes(g, pos, len, rot, len);
    WritesPaint(g, pos, len, rot, len);
    forall i | 0 <= i < len && i != len / 2
      ensures g'[Target(pos, len, rot, i)] == SHIP && g'[pos[i]] == EMPTY
    {
      LaidOutMoves(pos, len, rot0, i);
      var t := Target(pos, len, rot, i);
      MovedVacatedMembers(pos, len, rot, len, t);
      MovedVacatedMembers(pos, len, rot, len, pos[i]);
      if t in Vacated(pos, len, len) {
        var j :| 0 <= j < len && Moves(pos, len, j) && pos[j] == t;
        LaidOutMoves(pos, len, rot0, j);
        CleanTurnDisjoint(pos, len, rot0, rot, i, j);
      }
      if pos[i] in MovedTo(pos, len, rot, len) {
        var j :| 0 <= j < len && Moves(pos, len, j) && Target(pos, len, rot, j) == pos[i];
        LaidOutMoves(pos, len, rot0, j);
        CleanTurnDisjoint(pos, len, rot0, rot, j, i);
      }
    }
  }

  /** placeShip refuses a half turn of a laid-out ship of three or more cells
      whose cells hold SHIP: the slot before the middle would move onto the
      old cell of the slot after it. (Were the move carried out, the later
      slot would overwrite that cell with EMPTY on its way out.) */
  lemma HalfTurnBlocked(g: seq<int>, pos: seq<int>, len: int, rot0: int)
    requires 3 <= len <= |pos| && len <= SLOTS && 0 <= rot0 < 4 && LaidOut(pos, len, rot0)
    requires forall i :: 0 <= i < len ==> 0 <= pos[i] < |g| && g[pos[i]] == SHIP
    ensures Blocked(g, pos, len, (rot0 + 2) % 4)
  {
    var c, h := pos[len / 2], len / 2;
    Engine.OppositeStrides(rot0, rot0, BOARD_SIZE);
    LaidOutMoves(pos, len, rot0, h - 1);
    CellAtContiguous(c, h, h - 1, Stride((rot0 + 2) % 4));
    CellAtContiguous(c, h, h + 1, Stride(rot0));
    assert pos[h + 1] == CellAt(c, h, h + 1, Stride(rot0));
    assert Target(pos, len, (rot0 + 2) % 4, h - 1) == pos[h + 1];
  }

  /** Placing a laid-out ship without turning it is always refused once its
      cells hold SHIP: the occupancy test does not skip the ship's own cells. */
  lemma UnturnedPlacementBlocked(g: seq<int>, pos: seq<int>, len: int, rot: int)
    requires 1 < len <= |pos| && len <= SLOTS && 0 <= rot < 4 && LaidOut(pos, len, rot)
    requires forall i :: 0 <= i < len ==> 0 <= pos[i] < |g| && g[pos[i]] == SHIP
    ensures Blocked(g, pos, len, rot)
  {
    LaidOutMoves(pos, len, rot, 0);
    assert Target(pos, len, rot, 0) == pos[0];
  }

  /** Whenever placeShip accepts the move of a laid-out ship whose cells hold
      SHIP, the move is a clean turn, so by CleanTurnIsExact the grid ends up
      showing exactly the moved ship. */
  lemma AcceptedMoveIsClean(g: seq<int>, pos: seq<int>, len: int, rot0: int, rot: int)
    requires 1 < len <= |pos| && len <= SLOTS && 0 <= rot0 < 4 && 0 <= rot < 4 && LaidOut(pos, len, rot0)
    requires forall i :: 0 <= i < len ==> 0 <= pos[i] < |g| && g[pos[i]] == SHIP
    requires !Blocked(g, pos, len, rot)
    ensures CleanTurn(len, rot0, rot)
  {
    if rot == rot0 {
      UnturnedPlacementBlocked(g, pos, len, rot);
    }
    if len >= 3 && rot == (rot0 + 2) % 4 {
      HalfTurnBlocked(g, pos, len, rot0);
    }
    TurnedValues(rot0);
  }

  /** Moving a laid-out ship leaves it laid out along its new orientation
      around the same start cell. */
  lemma RelocatedLaidOut(pos: seq<int>, len: int, rot0: int, rot: int)
    requires 0 < len <= |pos| && len <= SLOTS && 0 <= rot0 < 4 && LaidOut(pos, len, rot0)
    ensures Relocated(pos, len, rot)[len / 2] == pos[len / 2]
    ensures LaidOut(Relocated(pos, len, rot), len, rot)
  {
    var r, h := Relocated(pos, len, rot), len / 2;
    forall i | 0 <= i < len
      ensures r[i] == CellAt(r[h], h, i, Stride(rot))
    {
      LaidOutMoves(pos, len, rot0, i);
      CellAtContiguous(pos[h], h, h, Stride(rot));
    }
  }

  /** The ship after an accepted move keeps its start cell, and each of its
      first `len` cells is the start cell or the cell the stride gives. */
  lemma RelocatedShape(pos: seq<int>, len: int, rot: int)
    requires 0 < len <= |pos|
    ensures var r := Relocated(pos, len, rot);
            r[len / 2] == pos[len / 2] && r[len..] == pos[len..] &&
            forall i :: 0 <= i < len ==> r[i] == pos[len / 2] || r[i] == Target(pos, len, rot, i)
  {
  }

  /** A ship: five cell slots, a length, an orientation and whether it has
      been placed. */
  class Ship {
    var pos: seq<int>
    var len: int
    var rot: int
    var isPlaced: bool

    /** A ship before initializeShips has set it up. */
    constructor ()
      ensures pos == seq(SLOTS, _ => 0) && len == 0 && rot == 0 && !isPlaced
    {
      pos := seq(SLOTS, _ => 0);
      len := 0;
      rot := 0;
      isPlaced := false;
    }

    ghost predicate Shaped()
      reads this
    {
      0 < len <= |pos| == SLOTS
    }

    /** rotateShip, with the key read from the keyboard as a parameter. */
    method Rotate(key: Key)
      modifies this
      ensures rot == Turned(old(rot), key)
      ensures pos == old(pos) && len == old(len) && isPlaced == old(isPlaced)
    {
      if key == LeftKey {
        rot := CInt.Rem(rot + 3, 4);
      }
      if key == RightKey {
        rot := CInt.Rem(rot + 1, 4);
      }
    }

    /** placeShip: recompute the ship's cells from its middle cell along its
        orientation, in `grid`. Returns 1 and changes nothing when a moving
        slot's new cell holds SHIP; otherwise returns 0, and the slots and the
        grid become those of `Relocated` and `Writes`. */
    method Place(grid: array<int>) returns (code: int)
      requires Shaped() && Footprint(pos, len, rot, grid.Length)
      modifies this, grid
      ensures len == old(len) && rot == old(rot) && isPlaced == old(isPlaced)
      ensures code == 0 || code == 1
      ensures code == 1 <==> Blocked(old(grid[..]), old(pos), len, rot)
      ensures code == 1 ==> pos == old(pos) && grid[..] == old(grid[..])
      ensures code == 0 ==> pos == Relocated(old(pos), len, rot) && grid[..] == Writes(old(grid[..]), old(pos), len, rot, len)
    {
      var startingPos := pos[len / 2];
      var stride := Engine.GetRotation(rot, BOARD_SIZE);
      for i := 0 to len
        invariant forall m :: 0 <= m < i && Moves(pos, len, m) ==> grid[Target(pos, len, rot, m)] != SHIP
      {
        if pos[i] != startingPos && grid[CellAt(startingPos, len / 2, i, stride)] == SHIP {
          assert Moves(pos, len, i) && grid[..][Target(pos, len, rot, i)] == SHIP;
          return 1;
        }
      }
      assert !Blocked(grid[..], pos, len, rot);
      ghost var p0 := pos;
      ghost var g0 := grid[..];
      for i := 0 to len
        invariant |pos| == SLOTS && len == old(len) && rot == old(rot) && isPlaced == old(isPlaced)
        invariant forall m :: 0 <= m < i ==> pos[m] == Relocated(p0, len, rot)[m]
        invariant forall m :: i <= m < SLOTS ==> pos[m] == p0[m]
        invariant grid[..] == Writes(g0, p0, len, rot, i)
      {
        if pos[i] != startingPos {
          grid[pos[i]] := EMPTY;
          pos := pos[i := CellAt(startingPos, len / 2, i, stride)];
          grid[pos[i]] := SHIP;
        }
      }
      return 0;
    }
  }

  /** The length of the `k`-th ship: carrier, cruiser, destroyer, submarine
      and patrol boat. */
  function ShipLength(k: int): int
  {
    match k
    case 0 => 5
    case 1 => 4
    case 2 => 3
    case 3 => 3
    case _ => 2
  }

  /** Where initializeShips puts slot `i` of the `k`-th ship: column
      `2k + 1` of the rows from 11 on, to the right of the playing area. */
  function StagingCell(k: int, i: int): int
  {
    Index(11 + i, 2 * k + 1, BOARD_SIZE)
  }

  /** All the cells initializeShips writes SHIP to. */
  ghost function StagingCells(): set<int>
  {
    set k, i | 0 <= k < 5 && 0 <= i < ShipLength(k) :: StagingCell(k, i)
  }

  /** The staged ships lie in the grid, slot `i` of ship `k` at first
      coordinate `11 + i` and second coordinate `2k + 1`: to the right of the
      coordinates 0..9 of the grid drawGrid draws, and outside the engine's
      playing area. No two of their cells coincide. */
  lemma StagingLayout(k: int, i: int, k': int, i': int)
    requires 0 <= k < 5 && 0 <= i < ShipLength(k) && 0 <= k' < 5 && 0 <= i' < ShipLength(k')
    ensures 0 <= StagingCell(k, i) < BOARD_SIZE * BOARD_SIZE
    ensures StagingCell(k, i) / BOARD_SIZE == 11 + i && StagingCell(k, i) % BOARD_SIZE == 2 * k + 1
    ensures !Engine.InPlayArea(StagingCell(k, i), BOARD_SIZE)
    ensures (k, i) != (k', i') ==> StagingCell(k, i) != StagingCell(k', i')
  {
    var c := StagingCell(k, i);
    assert c == 17 * (11 + i) + 2 * k + 1;
    IndexDivMod(11 + i, 2 * k + 1, BOARD_SIZE);
    assert CInt.Div(c, BOARD_SIZE) == 11 + i;
    if StagingCell(k, i) == StagingCell(k', i') {
      IndexInjective(11 + i, 2 * k + 1, 11 + i', 2 * k' + 1, BOARD_SIZE);
    }
  }

  /** A staged ship is laid out along orientation 0, the one it is given. */
  lemma StagedShipLaidOut(k: int, pos: seq<int>)
    requires 0 <= k < 5 && |pos| == SLOTS
    requires forall i :: 0 <= i < ShipLength(k) ==> pos[i] == StagingCell(k, i)
    ensures LaidOut(pos, ShipLength(k), 0)
  {
    var h := ShipLength(k) / 2;
    forall i | 0 <= i < ShipLength(k)
      ensures pos[i] == CellAt(pos[h], h, i, Stride(0))
    {
      CellAtContiguous(pos[h], h, i, Stride(0));
    }
  }

  /** A player: its own grid, its record of shots and its five ships. */
  class Player {
    const playerGrid: array<int>
    const opponentGrid: array<int>
    const carrier: Ship
    const cruiser: Ship
    const destroyer: Ship
    const submarine: Ship
    const patrolBoat: Ship

    function Fleet(): seq<Ship>
      reads this
    {
      [carrier, cruiser, destroyer, submarine, patrolBoat]
    }

    ghost predicate Valid()
      reads this
    {
      playerGrid.Length == BOARD_SIZE * BOARD_SIZE &&
      opponentGrid.Length == OPPONENT_SIZE * OPPONENT_SIZE &&
      playerGrid != opponentGrid &&
      carrier != cruiser && carrier != destroyer && carrier != submarine && carrier != patrolBoat &&
      cruiser != destroyer && cruiser != submarine && cruiser != patrolBoat &&
      destroyer != submarine && destroyer != patrolBoat &&
      submarine != patrolBoat
    }

    /** A player whose grids and ships are new, its ships not yet set up. */
    constructor ()
      ensures Valid()
      ensures fresh(playerGrid) && fresh(opponentGrid)
      ensures fresh(carrier) && fresh(cruiser) && fresh(destroyer) && fresh(submarine) && fresh(patrolBoat)
      ensures forall k :: 0 <= k < 5 ==> |Fleet()[k].pos| == SLOTS
    {
      playerGrid := new int[BOARD_SIZE * BOARD_SIZE];
      opponentGrid := new int[OPPONENT_SIZE * OPPONENT_SIZE];
      carrier := new Ship();
      cruiser := new Ship();
      destroyer := new Ship();
      submarine := new Ship();
      patrolBoat := new Ship();
    }

    /** The number of cells of the shot record that initializeBoards has
        cleared when it reaches `playerGrid[i][j]`. */
    static function OpponentPrefix(i: int, j: int): int
    {
      if i < OPPONENT_SIZE then Index(i, if j < OPPONENT_SIZE then j else OPPONENT_SIZE, OPPONENT_SIZE)
      else OPPONENT_SIZE * OPPONENT_SIZE
    }

    /** initializeBoards: every cell of both grids becomes EMPTY. */
    method InitializeBoards()
      requires Valid()
      modifies playerGrid, opponentGrid
      ensures forall c :: 0 <= c < playerGrid.Length ==> playerGrid[c] == EMPTY
      ensures forall c :: 0 <= c < opponentGrid.Length ==> opponentGrid[c] == EMPTY
    {
      for i := 0 to BOARD_SIZE
        invariant forall c :: 0 <= c < Index(i, 0, BOARD_SIZE) ==> playerGrid[c] == EMPTY
        invariant forall c :: 0 <= c < OpponentPrefix(i, 0) ==> opponentGrid[c] == EMPTY
      {
        for j := 0 to BOARD_SIZE
          invariant forall c :: 0 <= c < Index(i, j, BOARD_SIZE) ==> playerGrid[c] == EMPTY
          invariant forall c :: 0 <= c < OpponentPrefix(i, j) ==> opponentGrid[c] == EMPTY
        {
          playerGrid[Index(i, j, BOARD_SIZE)] := EMPTY;
          if i < OPPONENT_SIZE && j < OPPONENT_SIZE {
            opponentGrid[Index(i, j, OPPONENT_SIZE)] := EMPTY;
          }
        }
      }
    }

    /** One of initializeShips' loops: slot `i` of ship `s` becomes the cell
        of row `11 + i` and column `column`, and that cell becomes SHIP. */
    method StageShip(s: Ship, k: int)
      requires Valid() && 0 <= k < 5 && s == Fleet()[k] && s.len == ShipLength(k) && |s.pos| == SLOTS
      modifies s, playerGrid
      ensures s.len == old(s.len) && s.rot == old(s.rot) && s.isPlaced == old(s.isPlaced) && |s.pos| == SLOTS
      ensures forall i :: 0 <= i < s.len ==> s.pos[i] == StagingCell(k, i)
      ensures s.pos[s.len..] == old(s.pos[s.len..])
      ensures forall c :: 0 <= c < playerGrid.Length ==>
                playerGrid[c] == if exists i :: 0 <= i < s.len && c == StagingCell(k, i) then SHIP else old(playerGrid[c])
    {
      for i := 0 to s.len
        invariant s.len == old(s.len) && s.rot == old(s.rot) && s.isPlaced == old(s.isPlaced) && |s.pos| == SLOTS
        invariant forall m :: 0 <= m < i ==> s.pos[m] == StagingCell(k, m)
        invariant s.pos[s.len..] == old(s.pos[s.len..])
        invariant forall c :: 0 <= c < playerGrid.Length ==>
                    playerGrid[c] == if exists m :: 0 <= m < i && c == StagingCell(k, m) then SHIP else old(playerGrid[c])
      {
        StagingLayout(k, i, k, i);
        playerGrid[StagingCell(k, i)] := SHIP;
        s.pos := s.pos[i := StagingCell(k, i)];
        forall c | 0 <= c < playerGrid.Length
          ensures playerGrid[c] == if exists m :: 0 <= m < i + 1 && c == StagingCell(k, m) then SHIP else old(playerGrid[c])
        {
          if c == StagingCell(k, i) {
            assert exists m :: 0 <= m < i + 1 && c == StagingCell(k, m);
          }
        }
      }
    }

    /** The state initializeBoards followed by initializeShips leaves: the
        ships staged as initializeShips lays them out, SHIP on exactly their
        cells and EMPTY everywhere else in both grids. */
    ghost predicate Staged()
      reads this, playerGrid, opponentGrid, carrier, cruiser, destroyer, submarine, patrolBoat
    {
      Valid() &&
      (forall k :: 0 <= k < 5 ==>
         var s := Fleet()[k];
         s.len == ShipLength(k) && s.rot == 0 && !s.isPlaced && |s.pos| == SLOTS &&
         forall i :: 0 <= i < s.len ==> s.pos[i] == StagingCell(k, i)) &&
      (forall c :: 0 <= c < playerGrid.Length ==> playerGrid[c] == if c in StagingCells() then SHIP else EMPTY) &&
      (forall c :: 0 <= c < opponentGrid.Length ==> opponentGrid[c] == EMPTY)
    }

    /** initializeShips: the five ships get their lengths, orientation 0 and
        not placed; the `k`-th ship's slots are the cells of column `2k + 1`
        from row 11 on, and exactly those cells of the grid become SHIP. */
    method InitializeShips()
      requires Valid()
      requires forall k :: 0 <= k < 5 ==> |Fleet()[k].pos| == SLOTS
      modifies playerGrid, carrier, cruiser, destroyer, submarine, patrolBoat
      ensures forall k :: 0 <= k < 5 ==>
                var s := Fleet()[k];
                s.len == ShipLength(k) && s.rot == 0 && !s.isPlaced && |s.pos| == SLOTS &&
                forall i :: 0 <= i < s.len ==> s.pos[i] == StagingCell(k, i)
      ensures forall k :: 0 <= k < 5 ==> Fleet()[k].pos[ShipLength(k)..] == old(Fleet()[k].pos[ShipLength(k)..])
      ensures forall c :: 0 <= c < playerGrid.Length ==>
                playerGrid[c] == if c in StagingCells() then SHIP else old(playerGrid[c])
    {
      carrier.len := 5;
      cruiser.len := 4;
      destroyer.len := 3;
      submarine.len := 3;
      patrolBoat.len := 2;

      carrier.rot := 0;
      cruiser.rot := 0;
      destroyer.rot := 0;
      submarine.rot := 0;
      patrolBoat.rot := 0;

      carrier.isPlaced := false;
      cruiser.isPlaced := false;
      destroyer.isPlaced := false;
      submarine.isPlaced := false;
      patrolBoat.isPlaced := false;

      ghost var g0 := playerGrid[..];
      StageShip(carrier, 0);
      StageShip(cruiser, 1);
      StageShip(destroyer, 2);
      StageShip(submarine, 3);
      StageShip(patrolBoat, 4);
      forall c | 0 <= c < playerGrid.Length
        ensures playerGrid[c] == if c in StagingCells() then SHIP else g0[c]
      {
        if c in StagingCells() {
          var k, i :| 0 <= k < 5 && 0 <= i < ShipLength(k) && c == StagingCell(k, i);
        }
      }
    }

    /** main's set-up of the two players before play: each gets its grids
        cleared by initializeBoards and its ships staged by initializeShips. */
    static method SetUpPlayers() returns (p1: Player, p2: Player)
      ensures fresh(p1) && fresh(p2) && p1 != p2
      ensures p1.Staged() && p2.Staged()
      ensures p1.playerGrid != p2.playerGrid
    {
      p1 := new Player();
      p2 := new Player();
      p1.InitializeBoards();
      p2.InitializeBoards();
      p1.InitializeShips();
      p2.InitializeShips();
    }
  }
}
