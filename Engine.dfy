/**
 * Ship placement in the game engine (src/engine.c). A player owns one flat
 * grid of `sizeX * sizeY` cells, indexed `x * sizeY + y`, and five ships.
 * A ship records the grid indices of its cells (`pos`), its length, its
 * orientation `rot`, the number of its centre cell, whether it has been
 * committed to the playing area, and where its centre starts out. The
 * playing area is the 10 by 10 block of cells with both coordinates in
 * 1..10; a ship that is being moved is previewed in a staging area to the
 * right of it.
 */
module Engine {
  import CInt
  import opened Board

  /** The number of ships of a fleet. */
  const NSHIPS := 5

  /** The grid row length `sizeY` (orientation 0 and 2) or one cell (orientation
      3; orientation 1 gives its own value, 1) is the step from one cell of a
      ship to the next. Any other value is returned as it is. */
  function GetRotation(rotation: int, rowStride: int): (stride: int)
    ensures rotation == 1 ==> stride == 1
    ensures 0 <= rotation < 4 ==> stride == rowStride || stride == -rowStride || stride == 1 || stride == -1
    ensures 0 <= rotation < 4 && rowStride != 0 ==> stride != 0
  {
    match rotation
    case 0 => rowStride
    case 2 => -rowStride
    case 3 => -1
    case _ => rotation
  }

  /** Orientations two quarter turns apart step in opposite directions, and on
      a grid with rows of more than one cell the four orientations step in four
      different directions. */
  lemma OppositeStrides(r: int, r': int, rowStride: int)
    requires 0 <= r < 4 && 0 <= r' < 4 && rowStride > 1
    ensures GetRotation((r + 2) % 4, rowStride) == -GetRotation(r, rowStride)
    ensures r != r' ==> GetRotation(r, rowStride) != GetRotation(r', rowStride)
  {
  }

  /** rotateShip's new orientation `(rot + rotation) % 4`, with C's `%`. */
  function Turn(rot: int, rotation: int): int
  {
    CInt.Rem(rot + rotation, 4)
  }

  /** C's `a % 4` for `a` in 0..7. */
  lemma RemFour(a: int)
    requires 0 <= a < 8
    ensures CInt.Rem(a, 4) == if a < 4 then a else a - 4
  {
    CInt.TruncatedDivision(a, 4);
  }

  /** For the turns the engine is given, 1 clockwise and 3 counter-clockwise,
      an orientation in 0..3 stays in 0..3; the two undo each other and four
      clockwise turns come back to the start. */
  lemma TurnLaws(rot: int)
    requires 0 <= rot < 4
    ensures 0 <= Turn(rot, 1) < 4 && 0 <= Turn(rot, 3) < 4
    ensures Turn(Turn(rot, 1), 3) == rot && Turn(Turn(rot, 3), 1) == rot
    ensures Turn(Turn(Turn(Turn(rot, 1), 1), 1), 1) == rot
  {
    forall a | 0 <= a < 8
      ensures CInt.Rem(a, 4) == if a < 4 then a else a - 4
    {
      RemFour(a);
    }
  }

  /** A turn by -1 steps back one orientation without wrapping, since C's `%`
      keeps the sign of the dividend: from orientation 0 it leaves 0..3, and
      the orientation -1 has no stride of its own but falls to -1, whatever the
      row stride. */
  lemma NegativeTurnLeavesRange(rot: int, rowStride: int)
    requires 0 <= rot < 4
    ensures Turn(rot, -1) == rot - 1
    ensures GetRotation(Turn(0, -1), rowStride) == -1
  {
    CInt.TruncatedDivision(rot - 1, 4);
  }

  datatype Ship = Ship(pos: seq<int>, len: int, rot: int, center: int, isPlaced: bool, initCenterPos: int)

  /** The ship's centre number and cell list fit its length. */
  predicate Shaped(s: Ship)
  {
    0 <= s.center < s.len && |s.pos| == s.len
  }

  /** The ship's cells and its starting centre lie in a grid of `cells` cells. */
  predicate WellFormed(s: Ship, cells: int)
  {
    Shaped(s) &&
    (forall i :: 0 <= i < s.len ==> 0 <= s.pos[i] < cells) &&
    0 <= s.initCenterPos < cells
  }

  function CenterPos(s: Ship): int
    requires Shaped(s)
  {
    s.pos[s.center]
  }

  /** Every cell of a ship of `s`'s shape with its centre at `newCenter`,
      laid out along `stride`, lies in a grid of `cells` cells. */
  predicate FootprintInGrid(newCenter: int, s: Ship, stride: int, cells: int)
  {
    forall i :: 0 <= i < s.len ==> 0 <= CellAt(newCenter, s.center, i, stride) < cells
  }

  /** The bounds test the engine applies to a flat index `c` when placing: its
      two coordinates, computed with C's truncating `/` and `%` by the row
      length, both lie in 1..10. */
  predicate InPlayArea(c: int, rowStride: int)
    requires rowStride > 0
  {
    1 <= CInt.Div(c, rowStride) <= 10 && 1 <= CInt.Rem(c, rowStride) <= 10
  }

  /** The bounds test accepts exactly the cells of the 10 by 10 playing area,
      and those lie among the first 11 rows of the grid. */
  lemma InPlayAreaIsBoardCell(c: int, rowStride: int)
    requires rowStride > 10
    ensures InPlayArea(c, rowStride) <==>
              exists x, y :: 1 <= x <= 10 && 1 <= y <= 10 && c == Index(x, y, rowStride)
    ensures InPlayArea(c, rowStride) ==> 0 <= c < 11 * rowStride
  {
    CInt.TruncatedDivision(c, rowStride);
    if InPlayArea(c, rowStride) {
      assert c >= 0;
      var x, y := c / rowStride, c % rowStride;
      assert c == Index(x, y, rowStride);
      assert c < 11 * rowStride;
    }
    if exists x, y :: 1 <= x <= 10 && 1 <= y <= 10 && c == Index(x, y, rowStride) {
      var x, y :| 1 <= x <= 10 && 1 <= y <= 10 && c == Index(x, y, rowStride);
      IndexDivMod(x, y, rowStride);
      assert c >= 0;
    }
  }

  /** The same bounds, in the form the placement code needs: an accepted cell
      is inside a grid of at least 11 rows. */
  lemma PlayAreaInGrid(c: int, sx: int, sy: int)
    requires sx >= 11 && sy > 10 && InPlayArea(c, sy)
    ensures 0 <= c < sx * sy
  {
    InPlayAreaIsBoardCell(c, sy);
    ProductNonNegative(sx - 11, sy);
    assert sx * sy == 11 * sy + (sx - 11) * sy;
  }

  /** The centre a check uses: the requested cell, or the ship's own centre. */
  function NewCenter(s: Ship, target: Option<int>): int
    requires Shaped(s)
  {
    if target.Some? then target.value else CenterPos(s)
  }

  /** The orientation a check uses: the requested one, or the ship's own. */
  function NewRotation(s: Ship, rotation: Option<int>): int
  {
    if rotation.Some? then rotation.value else s.rot
  }

  /** The requested centre holds a ship and is not this ship's current centre. */
  predicate CenterBlocked(g: seq<int>, s: Ship, target: Option<int>)
    requires Shaped(s)
  {
    target.Some? && 0 <= target.value < |g| && g[target.value] == SHIP && CenterPos(s) != target.value
  }

  /** Cell `i` of the moved ship holds a ship, and the ship's current cell `i`
      is not the new centre. */
  predicate CellBlocked(g: seq<int>, s: Ship, newCenter: int, stride: int, i: int)
    requires Shaped(s) && 0 <= i < s.len
  {
    var c := CellAt(newCenter, s.center, i, stride);
    s.pos[i] != newCenter && 0 <= c < |g| && g[c] == SHIP
  }

  /** Cell `i` of the moved ship passes the test the loop of checkCells applies. */
  predicate CellAccepted(g: seq<int>, s: Ship, newCenter: int, stride: int, placing: bool, rowStride: int, i: int)
    requires Shaped(s) && 0 <= i < s.len && rowStride > 0
  {
    (placing ==> InPlayArea(CellAt(newCenter, s.center, i, stride), rowStride)) &&
    !CellBlocked(g, s, newCenter, stride, i)
  }

  /** checkCells accepts a move of ship `s` to centre `target` with orientation
      `rotation` (each defaulting to the ship's own) unless the new centre is
      blocked, some new cell is blocked, or (when `placing`) some new cell is
      outside the playing area. */
  predicate Acceptable(g: seq<int>, s: Ship, target: Option<int>, rotation: Option<int>, placing: bool, rowStride: int)
    requires Shaped(s) && rowStride > 0
  {
    var newCenter := NewCenter(s, target);
    var stride := GetRotation(NewRotation(s, rotation), rowStride);
    !CenterBlocked(g, s, target) &&
    forall i :: 0 <= i < s.len ==> CellAccepted(g, s, newCenter, stride, placing, rowStride, i)
  }

  /** An accepted placement puts every cell of the ship inside the 10 by 10
      playing area. */
  lemma {:induction false} AcceptedPlacementInPlayArea(g: seq<int>, s: Ship, target: Option<int>, rotation: Option<int>, rowStride: int, i: int)
    requires Shaped(s) && rowStride > 10 && 0 <= i < s.len
    requires Acceptable(g, s, target, rotation, true, rowStride)
    ensures var c := CellAt(NewCenter(s, target), s.center, i, GetRotation(NewRotation(s, rotation), rowStride));
            exists x, y :: 1 <= x <= 10 && 1 <= y <= 10 && c == Index(x, y, rowStride)
  {
    var c := CellAt(NewCenter(s, target), s.center, i, GetRotation(NewRotation(s, rotation), rowStride));
    assert CellAccepted(g, s, NewCenter(s, target), GetRotation(NewRotation(s, rotation), rowStride), true, rowStride, i);
    InPlayAreaIsBoardCell(c, rowStride);
  }

  /** The cell placeShips leaves in `pos[j]`: a cell that was the centre cell
      stays, every other one is recomputed from the centre. */
  function RelocatedCell(s: Ship, j: int, rowStride: int): int
    requires Shaped(s) && 0 <= j < s.len
  {
    if s.pos[j] == CenterPos(s) then s.pos[j]
    else CellAt(CenterPos(s), s.center, j, GetRotation(s.rot, rowStride))
  }

  /** `after` is `before` with its cells recomputed from its centre. */
  predicate IsRelocation(before: Ship, after: Ship, rowStride: int)
    requires Shaped(before)
  {
    after == before.(pos := after.pos) && |after.pos| == |before.pos| &&
    forall j :: 0 <= j < |after.pos| ==> after.pos[j] == RelocatedCell(before, j, rowStride)
  }

  /** A relocated ship keeps its centre, and each cell is the centre or lies on
      the line through the centre along the ship's orientation; when no other
      cell coincided with the centre, its cells are exactly the footprint
      `centre - (center - j) * stride`. */
  lemma {:induction false} RelocationIsFootprint(before: Ship, after: Ship, rowStride: int)
    requires Shaped(before) && IsRelocation(before, after, rowStride)
    ensures Shaped(after) && CenterPos(after) == CenterPos(before)
    ensures forall j :: 0 <= j < after.len ==>
              after.pos[j] == CenterPos(before) ||
              after.pos[j] == CellAt(CenterPos(before), before.center, j, GetRotation(before.rot, rowStride))
    ensures (forall j :: 0 <= j < before.len && j != before.center ==> before.pos[j] != CenterPos(before)) ==>
              forall j :: 0 <= j < after.len ==>
                after.pos[j] == CellAt(CenterPos(before), before.center, j, GetRotation(before.rot, rowStride))
  {
    CellAtContiguous(CenterPos(before), before.center, before.center, GetRotation(before.rot, rowStride));
    assert after.pos[before.center] == RelocatedCell(before, before.center, rowStride);
  }

  /** The cells placeShips writes SHIP to for cells `0..n-1` of ship `s`. */
  ghost function PlacedUpTo(s: Ship, n: int, rowStride: int): set<int>
    requires Shaped(s) && 0 <= n <= s.len
    decreases n
  {
    if n == 0 then {} else PlacedUpTo(s, n - 1, rowStride) + {RelocatedCell(s, n - 1, rowStride)}
  }

  /** The cells placeShips writes EMPTY to for cells `0..n-1` of ship `s`: the
      old cells other than the centre. */
  ghost function ClearedUpTo(s: Ship, n: int): set<int>
    requires Shaped(s) && 0 <= n <= s.len
    decreases n
  {
    if n == 0 then {}
    else ClearedUpTo(s, n - 1) + (if s.pos[n - 1] != CenterPos(s) then {s.pos[n - 1]} else {})
  }

  /** The members of the two sets, stated directly. */
  lemma {:induction false} UpToMembers(s: Ship, n: int, rowStride: int, c: int)
    requires Shaped(s) && 0 <= n <= s.len
    ensures c in PlacedUpTo(s, n, rowStride) <==> exists j :: 0 <= j < n && RelocatedCell(s, j, rowStride) == c
    ensures c in ClearedUpTo(s, n) <==> exists j :: 0 <= j < n && s.pos[j] != CenterPos(s) && s.pos[j] == c
    decreases n
  {
    if n > 0 {
      UpToMembers(s, n - 1, rowStride, c);
      if RelocatedCell(s, n - 1, rowStride) == c {
        assert exists j :: 0 <= j < n && RelocatedCell(s, j, rowStride) == c;
      }
      if s.pos[n - 1] != CenterPos(s) && s.pos[n - 1] == c {
        assert exists j :: 0 <= j < n && s.pos[j] != CenterPos(s) && s.pos[j] == c;
      }
    }
  }

  predicate AllShaped(fleet: seq<Ship>)
  {
    forall k :: 0 <= k < |fleet| ==> Shaped(fleet[k])
  }

  /** The cells placeShips writes SHIP to, over a whole fleet. */
  ghost function FleetPlaced(fleet: seq<Ship>, rowStride: int): set<int>
    requires AllShaped(fleet)
    decreases |fleet|
  {
    if fleet == [] then {}
    else
      var last := fleet[|fleet| - 1];
      FleetPlaced(fleet[..|fleet| - 1], rowStride) + PlacedUpTo(last, last.len, rowStride)
  }

  /** The cells placeShips writes EMPTY to, over a whole fleet. */
  ghost function FleetCleared(fleet: seq<Ship>): set<int>
    requires AllShaped(fleet)
    decreases |fleet|
  {
    if fleet == [] then {}
    else
      var last := fleet[|fleet| - 1];
      FleetCleared(fleet[..|fleet| - 1]) + ClearedUpTo(last, last.len)
  }

  /** The ship's cells, its starting centre and every cell placeShips computes
      for it lie in a grid of `cells` cells. */
  predicate ShipFits(s: Ship, rowStride: int, cells: int)
  {
    WellFormed(s, cells) && FootprintInGrid(CenterPos(s), s, GetRotation(s.rot, rowStride), cells)
  }

  /** The grid after placeShips has handled cells `0..n-1` of ship `s`: the
      centre cell is marked SHIP; every other cell empties its old cell and
      marks its recomputed one. */
  ghost function ShipWrites(g: seq<int>, s: Ship, rowStride: int, n: int): (r: seq<int>)
    requires ShipFits(s, rowStride, |g|) && 0 <= n <= s.len
    ensures |r| == |g|
    decreases n
  {
    if n == 0 then g
    else
      var g' := ShipWrites(g, s, rowStride, n - 1);
      if s.pos[n - 1] == CenterPos(s) then g'[CenterPos(s) := SHIP]
      else g'[s.pos[n - 1] := EMPTY][RelocatedCell(s, n - 1, rowStride) := SHIP]
  }

  /** The grid after placeShips has handled every ship of `fleet`, in order. */
  ghost function FleetWrites(g: seq<int>, fleet: seq<Ship>, rowStride: int): (r: seq<int>)
    requires forall k :: 0 <= k < |fleet| ==> ShipFits(fleet[k], rowStride, |g|)
    ensures |r| == |g|
    decreases |fleet|
  {
    if fleet == [] then g
    else
      var last := fleet[|fleet| - 1];
      ShipWrites(FleetWrites(g, fleet[..|fleet| - 1], rowStride), last, rowStride, last.len)
  }

  /** Handling a ship paints its recomputed cells SHIP and its old non-centre
      cells EMPTY and leaves every other cell. */
  lemma {:induction false} ShipWritesPaint(g: seq<int>, s: Ship, rowStride: int, n: int)
    requires ShipFits(s, rowStride, |g|) && 0 <= n <= s.len
    ensures Painted(g, ShipWrites(g, s, rowStride, n), PlacedUpTo(s, n, rowStride), ClearedUpTo(s, n))
    decreases n
  {
    if n > 0 {
      ShipWritesPaint(g, s, rowStride, n - 1);
      var g' := ShipWrites(g, s, rowStride, n - 1);
      if s.pos[n - 1] == CenterPos(s) {
        PaintedMark(g', CenterPos(s));
        PaintedCompose(g, g', ShipWrites(g, s, rowStride, n), PlacedUpTo(s, n - 1, rowStride), ClearedUpTo(s, n - 1),
                       {CenterPos(s)}, {});
      } else {
        PaintedMove(g', s.pos[n - 1], RelocatedCell(s, n - 1, rowStride));
        PaintedCompose(g, g', ShipWrites(g, s, rowStride, n), PlacedUpTo(s, n - 1, rowStride), ClearedUpTo(s, n - 1),
                       {RelocatedCell(s, n - 1, rowStride)}, {s.pos[n - 1]});
      }
    }
  }

  /** placeShips as a whole paints the fleet's recomputed cells SHIP and its
      old non-centre cells EMPTY and leaves every other cell. */
  lemma {:induction false} FleetWritesPaint(g: seq<int>, fleet: seq<Ship>, rowStride: int)
    requires forall k :: 0 <= k < |fleet| ==> ShipFits(fleet[k], rowStride, |g|)
    ensures AllShaped(fleet)
    ensures Painted(g, FleetWrites(g, fleet, rowStride), FleetPlaced(fleet, rowStride), FleetCleared(fleet))
    decreases |fleet|
  {
    if fleet != [] {
      var init, last := fleet[..|fleet| - 1], fleet[|fleet| - 1];
      FleetWritesPaint(g, init, rowStride);
      var g' := FleetWrites(g, init, rowStride);
      ShipWritesPaint(g', last, rowStride, last.len);
      PaintedCompose(g, g', FleetWrites(g, fleet, rowStride), FleetPlaced(init, rowStride), FleetCleared(init),
                     PlacedUpTo(last, last.len, rowStride), ClearedUpTo(last, last.len));
    }
  }

  /** The ship lies on the line through its centre along its orientation. */
  predicate LaidOut(s: Ship, rowStride: int)
    requires Shaped(s)
  {
    forall j :: 0 <= j < s.len ==> s.pos[j] == CellAt(CenterPos(s), s.center, j, GetRotation(s.rot, rowStride))
  }

  /** Handling a laid-out ship marks exactly its cells SHIP. */
  lemma {:induction false} SteadyShipWrites(g: seq<int>, s: Ship, rowStride: int, n: int)
    requires ShipFits(s, rowStride, |g|) && LaidOut(s, rowStride) && 0 <= n <= s.len
    ensures forall c :: 0 <= c < |g| ==> ShipWrites(g, s, rowStride, n)[c] == if c in s.pos[..n] then SHIP else g[c]
    decreases n
  {
    if n > 0 {
      SteadyShipWrites(g, s, rowStride, n - 1);
      assert s.pos[..n] == s.pos[..n - 1] + [s.pos[n - 1]];
      assert RelocatedCell(s, n - 1, rowStride) == s.pos[n - 1];
    }
  }

  /** Cell `c` is one of the cells of some ship of the fleet. */
  ghost predicate InFleet(c: int, fleet: seq<Ship>)
  {
    exists k, j :: 0 <= k < |fleet| && 0 <= j < |fleet[k].pos| && fleet[k].pos[j] == c
  }

  /** When every ship lies along its orientation, placeShips marks every cell
      of every ship SHIP and changes no other cell. */
  lemma {:induction false} SteadyFleetWrites(g: seq<int>, fleet: seq<Ship>, rowStride: int)
    requires forall k :: 0 <= k < |fleet| ==> ShipFits(fleet[k], rowStride, |g|) && LaidOut(fleet[k], rowStride)
    ensures forall c :: 0 <= c < |g| ==> FleetWrites(g, fleet, rowStride)[c] == if InFleet(c, fleet) then SHIP else g[c]
    decreases |fleet|
  {
    if fleet != [] {
      var init, last := fleet[..|fleet| - 1], fleet[|fleet| - 1];
      SteadyFleetWrites(g, init, rowStride);
      var g' := FleetWrites(g, init, rowStride);
      SteadyShipWrites(g', last, rowStride, last.len);
      assert last.pos[..last.len] == last.pos;
      forall c | 0 <= c < |g|
        ensures FleetWrites(g, fleet, rowStride)[c] == if InFleet(c, fleet) then SHIP else g[c]
      {
        if c in last.pos {
          var j :| 0 <= j < |last.pos| && last.pos[j] == c;
          assert fleet[|fleet| - 1].pos[j] == c;
        } else if InFleet(c, init) {
          var k, j :| 0 <= k < |init| && 0 <= j < |init[k].pos| && init[k].pos[j] == c;
          assert fleet[k].pos[j] == c;
        } else if InFleet(c, fleet) {
          var k, j :| 0 <= k < |fleet| && 0 <= j < |fleet[k].pos| && fleet[k].pos[j] == c;
          if k < |init| {
            assert init[k].pos[j] == c;
          }
        }
      }
    }
  }

  /** A ship that lay on a line along some step, for instance along the
      orientation it had before a turn, lies along its current orientation
      once placeShips has recomputed it. */
  lemma PlacedShipLaidOut(before: Ship, after: Ship, rowStride: int, step: int)
    requires Shaped(before) && IsRelocation(before, after, rowStride) && step != 0
    requires forall j :: 0 <= j < before.len ==> before.pos[j] == CellAt(CenterPos(before), before.center, j, step)
    ensures Shaped(after) && LaidOut(after, rowStride)
  {
    forall j | 0 <= j < before.len && j != before.center
      ensures before.pos[j] != CenterPos(before)
    {
      CellAtInjective(CenterPos(before), before.center, j, before.center, step);
      CellAtContiguous(CenterPos(before), before.center, j, step);
    }
    RelocationIsFootprint(before, after, rowStride);
  }

  /** No cell placeShips empties while handling `s` is one it marked earlier
      for `s`: the cell it empties at step `j` differs from every cell it
      recomputed at a step before `j`. */
  predicate WriteOrderSafe(s: Ship, rowStride: int)
    requires Shaped(s)
  {
    forall i, j :: 0 <= i < j < s.len && s.pos[j] != CenterPos(s) ==> s.pos[j] != RelocatedCell(s, i, rowStride)
  }

  /** When the write order is safe, handling a ship leaves exactly its
      recomputed cells SHIP and its other old cells EMPTY. */
  lemma {:induction false} ShipWritesExact(g: seq<int>, s: Ship, rowStride: int, n: int)
    requires ShipFits(s, rowStride, |g|) && WriteOrderSafe(s, rowStride) && 0 <= n <= s.len
    ensures forall c :: 0 <= c < |g| ==>
              ShipWrites(g, s, rowStride, n)[c] ==
                if c in PlacedUpTo(s, n, rowStride) then SHIP
                else if c in ClearedUpTo(s, n) then EMPTY
                else g[c]
    decreases n
  {
    if n > 0 {
      ShipWritesExact(g, s, rowStride, n - 1);
      forall c | 0 <= c < |g|
        ensures ShipWrites(g, s, rowStride, n)[c] ==
                  if c in PlacedUpTo(s, n, rowStride) then SHIP
                  else if c in ClearedUpTo(s, n) then EMPTY
                  else g[c]
      {
        if s.pos[n - 1] != CenterPos(s) && c == s.pos[n - 1] && c != RelocatedCell(s, n - 1, rowStride) {
          UpToMembers(s, n - 1, rowStride, c);
        }
      }
    }
  }

  /** Neither a ship nor any later one empties a cell an earlier ship of the
      fleet was marked on, unless it marks that cell itself. */
  ghost predicate FleetWriteOrderSafe(fleet: seq<Ship>, rowStride: int)
    requires AllShaped(fleet)
  {
    (forall k :: 0 <= k < |fleet| ==> WriteOrderSafe(fleet[k], rowStride)) &&
    forall m, c :: 0 <= m < |fleet| && c in ClearedUpTo(fleet[m], fleet[m].len) &&
                   c !in PlacedUpTo(fleet[m], fleet[m].len, rowStride) ==>
                   c !in FleetPlaced(fleet[..m], rowStride)
  }

  /** When the write order is safe, placeShips leaves exactly the fleet's
      recomputed cells SHIP and its other old cells EMPTY, and changes nothing
      else. */
  lemma {:induction false} FleetWritesExact(g: seq<int>, fleet: seq<Ship>, rowStride: int)
    requires forall k :: 0 <= k < |fleet| ==> ShipFits(fleet[k], rowStride, |g|)
    requires AllShaped(fleet) && FleetWriteOrderSafe(fleet, rowStride)
    ensures forall c :: 0 <= c < |g| ==>
              FleetWrites(g, fleet, rowStride)[c] ==
                if c in FleetPlaced(fleet, rowStride) then SHIP
                else if c in FleetCleared(fleet) then EMPTY
                else g[c]
    decreases |fleet|
  {
    if fleet != [] {
      var init, last := fleet[..|fleet| - 1], fleet[|fleet| - 1];
      forall m | 0 <= m < |init|
        ensures init[..m] == fleet[..m]
      {
      }
      FleetWritesExact(g, init, rowStride);
      ShipWritesExact(FleetWrites(g, init, rowStride), last, rowStride, last.len);
    }
  }

  /** A laid-out ship is recomputed onto its own cells, and its writes are
      in a safe order: the cells marked are its cells, and every cell emptied
      is one of them. */
  lemma LaidOutRelocation(s: Ship, rowStride: int)
    requires Shaped(s) && LaidOut(s, rowStride) && GetRotation(s.rot, rowStride) != 0
    ensures forall i :: 0 <= i < s.len ==> RelocatedCell(s, i, rowStride) == s.pos[i]
    ensures WriteOrderSafe(s, rowStride)
    ensures forall c :: c in PlacedUpTo(s, s.len, rowStride) <==> c in s.pos
    ensures forall c :: c in ClearedUpTo(s, s.len) ==> c in s.pos
  {
    var stride := GetRotation(s.rot, rowStride);
    forall i | 0 <= i < s.len
      ensures RelocatedCell(s, i, rowStride) == s.pos[i]
    {
    }
    forall i, j | 0 <= i < j < s.len
      ensures s.pos[j] != s.pos[i]
    {
      CellAtInjective(CenterPos(s), s.center, i, j, stride);
    }
    forall c
      ensures c in PlacedUpTo(s, s.len, rowStride) <==> c in s.pos
      ensures c in ClearedUpTo(s, s.len) ==> c in s.pos
    {
      UpToMembers(s, s.len, rowStride, c);
      if c in s.pos {
        var j :| 0 <= j < s.len && s.pos[j] == c;
        assert RelocatedCell(s, j, rowStride) == c;
      }
    }
  }

  /** A change of orientation that checkCells accepts, of a ship whose cells
      all hold SHIP, is safe to write: no recomputed cell other than the
      centre holds SHIP, so none is one of the ship's old cells. */
  lemma AcceptedTurnOrderSafe(g: seq<int>, s: Ship, r: int, placing: bool, rowStride: int)
    requires Shaped(s) && rowStride > 0
    requires forall j :: 0 <= j < s.len ==> 0 <= s.pos[j] < |g| && g[s.pos[j]] == SHIP
    requires FootprintInGrid(CenterPos(s), s, GetRotation(r, rowStride), |g|)
    requires Acceptable(g, s, None, Some(r), placing, rowStride)
    ensures WriteOrderSafe(s.(rot := r), rowStride)
  {
    var u := s.(rot := r);
    assert NewCenter(s, None) == CenterPos(s) && NewRotation(s, Some(r)) == r;
    forall i, j | 0 <= i < j < u.len && u.pos[j] != CenterPos(u)
      ensures u.pos[j] != RelocatedCell(u, i, rowStride)
    {
      if s.pos[i] != CenterPos(s) {
        assert CellAccepted(g, s, CenterPos(s), GetRotation(r, rowStride), placing, rowStride, i);
      }
    }
  }

  /** A cell one ship of the fleet marks (or empties) is among the cells the
      whole fleet marks (or empties). */
  lemma {:induction false} InFleetSets(fleet: seq<Ship>, rowStride: int, k: int, c: int)
    requires AllShaped(fleet) && 0 <= k < |fleet|
    ensures c in PlacedUpTo(fleet[k], fleet[k].len, rowStride) ==> c in FleetPlaced(fleet, rowStride)
    ensures c in ClearedUpTo(fleet[k], fleet[k].len) ==> c in FleetCleared(fleet)
    decreases |fleet|
  {
    if k < |fleet| - 1 {
      var init := fleet[..|fleet| - 1];
      assert init[k] == fleet[k];
      InFleetSets(init, rowStride, k, c);
    }
  }

  /** Every cell the fleet marks is marked by one of its ships. */
  lemma {:induction false} PlacedBy(fleet: seq<Ship>, rowStride: int, c: int) returns (k: int)
    requires AllShaped(fleet) && c in FleetPlaced(fleet, rowStride)
    ensures 0 <= k < |fleet| && c in PlacedUpTo(fleet[k], fleet[k].len, rowStride)
    decreases |fleet|
  {
    var init, last := fleet[..|fleet| - 1], fleet[|fleet| - 1];
    if c in PlacedUpTo(last, last.len, rowStride) {
      k := |fleet| - 1;
    } else {
      k := PlacedBy(init, rowStride, c);
      assert init[k] == fleet[k];
    }
  }

  /** Every cell the fleet empties is emptied by one of its ships. */
  lemma {:induction false} ClearedBy(fleet: seq<Ship>, c: int) returns (k: int)
    requires AllShaped(fleet) && c in FleetCleared(fleet)
    ensures 0 <= k < |fleet| && c in ClearedUpTo(fleet[k], fleet[k].len)
    decreases |fleet|
  {
    var init, last := fleet[..|fleet| - 1], fleet[|fleet| - 1];
    if c in ClearedUpTo(last, last.len) {
      k := |fleet| - 1;
    } else {
      k := ClearedBy(init, c);
      assert init[k] == fleet[k];
    }
  }

  /** The state placeShips finds between moves: every ship lies along its
      orientation, all its cells hold SHIP, and ship `t` shares no cell with
      another ship. */
  ghost predicate MarkedFleet(g: seq<int>, fleet: seq<Ship>, rowStride: int, t: int)
  {
    rowStride > 0 && 0 <= t < |fleet| &&
    (forall k :: 0 <= k < |fleet| ==> ShipFits(fleet[k], rowStride, |g|) && 0 <= fleet[k].rot < 4) &&
    AllShaped(fleet) &&
    (forall k :: 0 <= k < |fleet| ==> LaidOut(fleet[k], rowStride)) &&
    (forall k, j :: 0 <= k < |fleet| && 0 <= j < fleet[k].len ==>
       0 <= fleet[k].pos[j] < |g| && g[fleet[k].pos[j]] == SHIP) &&
    (forall k, j, i :: 0 <= k < |fleet| && k != t && 0 <= j < fleet[k].len && 0 <= i < fleet[t].len ==>
       fleet[k].pos[j] != fleet[t].pos[i])
  }

  /** The cells of ship `s` laid out around its centre along `stride`. */
  ghost predicate OnLine(s: Ship, stride: int, c: int)
    requires Shaped(s)
  {
    exists i :: 0 <= i < s.len && CellAt(CenterPos(s), s.center, i, stride) == c
  }

  /** A laid-out ship with a non-zero step has only its centre cell on the
      centre. */
  lemma LaidOutCentre(s: Ship, rowStride: int)
    requires Shaped(s) && LaidOut(s, rowStride) && GetRotation(s.rot, rowStride) != 0
    ensures forall i :: 0 <= i < s.len ==> (s.pos[i] == CenterPos(s) <==> i == s.center)
  {
    var stride := GetRotation(s.rot, rowStride);
    CellAtContiguous(CenterPos(s), s.center, s.center, stride);
    forall i | 0 <= i < s.len && i != s.center
      ensures s.pos[i] != CenterPos(s)
    {
      CellAtInjective(CenterPos(s), s.center, i, s.center, stride);
    }
  }

  /** For a laid-out ship turned to `r`, placeShips marks the cells of the
      ship's line along `r` and empties its old cells other than the centre. */
  lemma TurnedShipSets(s: Ship, r: int, rowStride: int, c: int)
    requires Shaped(s) && LaidOut(s, rowStride) && 0 <= s.rot < 4 && rowStride > 0
    ensures c in PlacedUpTo(s.(rot := r), s.len, rowStride) <==> OnLine(s, GetRotation(r, rowStride), c)
    ensures c in ClearedUpTo(s.(rot := r), s.len) <==> c in s.pos && c != CenterPos(s)
  {
    var u := s.(rot := r);
    var stride := GetRotation(r, rowStride);
    LaidOutCentre(s, rowStride);
    CellAtContiguous(CenterPos(s), s.center, s.center, stride);
    forall i | 0 <= i < s.len
      ensures RelocatedCell(u, i, rowStride) == CellAt(CenterPos(s), s.center, i, stride)
    {
    }
    UpToMembers(u, u.len, rowStride, c);
  }

  /** Cell `c` is a cell of a ship of the fleet other than ship `t`. */
  ghost predicate OnOtherShip(fleet: seq<Ship>, t: int, c: int)
  {
    exists k, j :: 0 <= k < |fleet| && k != t && 0 <= j < |fleet[k].pos| && fleet[k].pos[j] == c
  }

  predicate FleetFits(fleet: seq<Ship>, rowStride: int, cells: int)
  {
    forall k :: 0 <= k < |fleet| ==> ShipFits(fleet[k], rowStride, cells)
  }

  /** Ship `t` of a marked fleet replaced by a ship `u` whose writes are in a
      safe order and which empties only cells of ship `t`: the fleet's writes
      are in a safe order. */
  lemma ReplacedFleetOrderSafe(g: seq<int>, fleet: seq<Ship>, rowStride: int, t: int, u: Ship)
    requires MarkedFleet(g, fleet, rowStride, t) && Shaped(u) && WriteOrderSafe(u, rowStride)
    requires forall c :: c in ClearedUpTo(u, u.len) ==> c in fleet[t].pos
    ensures AllShaped(fleet[t := u]) && FleetWriteOrderSafe(fleet[t := u], rowStride)
  {
    var replaced := fleet[t := u];
    assert AllShaped(replaced);
    forall k | 0 <= k < |fleet| && k != t
      ensures WriteOrderSafe(replaced[k], rowStride)
      ensures forall c :: c in ClearedUpTo(replaced[k], replaced[k].len) ==> c in PlacedUpTo(replaced[k], replaced[k].len, rowStride)
      ensures forall c :: c in PlacedUpTo(replaced[k], replaced[k].len, rowStride) ==> c in fleet[k].pos
    {
      LaidOutRelocation(fleet[k], rowStride);
    }
    forall m, c | 0 <= m < |replaced| && c in ClearedUpTo(replaced[m], replaced[m].len) &&
                  c !in PlacedUpTo(replaced[m], replaced[m].len, rowStride)
      ensures c !in FleetPlaced(replaced[..m], rowStride)
    {
      if m == t && c in FleetPlaced(replaced[..m], rowStride) {
        var k := PlacedBy(replaced[..m], rowStride, c);
      }
    }
  }

  /** The cells the fleet with ship `t` replaced marks: the other ships'
      cells and those `u` marks. */
  lemma ReplacedFleetPlaced(g: seq<int>, fleet: seq<Ship>, rowStride: int, t: int, u: Ship, c: int)
    requires MarkedFleet(g, fleet, rowStride, t) && Shaped(u)
    ensures AllShaped(fleet[t := u])
    ensures c in FleetPlaced(fleet[t := u], rowStride) <==>
              OnOtherShip(fleet, t, c) || c in PlacedUpTo(u, u.len, rowStride)
  {
    var replaced := fleet[t := u];
    assert AllShaped(replaced);
    if OnOtherShip(fleet, t, c) {
      var k, j :| 0 <= k < |fleet| && k != t && 0 <= j < |fleet[k].pos| && fleet[k].pos[j] == c;
      LaidOutRelocation(fleet[k], rowStride);
      InFleetSets(replaced, rowStride, k, c);
    }
    if c in PlacedUpTo(u, u.len, rowStride) {
      InFleetSets(replaced, rowStride, t, c);
    }
    if c in FleetPlaced(replaced, rowStride) {
      var k := PlacedBy(replaced, rowStride, c);
      if k != t {
        LaidOutRelocation(fleet[k], rowStride);
        var j :| 0 <= j < fleet[k].len && fleet[k].pos[j] == c;
      }
    }
  }

  /** Among the cells the fleet with ship `t` replaced does not mark, it
      empties exactly those `u` empties. */
  lemma ReplacedFleetCleared(g: seq<int>, fleet: seq<Ship>, rowStride: int, t: int, u: Ship, c: int)
    requires MarkedFleet(g, fleet, rowStride, t) && Shaped(u) && AllShaped(fleet[t := u])
    requires c !in FleetPlaced(fleet[t := u], rowStride)
    ensures c in FleetCleared(fleet[t := u]) <==> c in ClearedUpTo(u, u.len)
  {
    var replaced := fleet[t := u];
    if c in FleetCleared(replaced) {
      var k := ClearedBy(replaced, c);
      if k != t {
        LaidOutRelocation(fleet[k], rowStride);
        InFleetSets(replaced, rowStride, k, c);
      }
    }
    if c in ClearedUpTo(u, u.len) {
      InFleetSets(replaced, rowStride, t, c);
    }
  }

  /** placeShips on a marked fleet whose ship `t` was replaced by `u`, on any
      grid `g'` of the same size: the other ships' cells and the cells `u`
      marks hold SHIP, the other cells `u` empties are EMPTY, and nothing
      else changes. */
  lemma ReplacedFleetWrites(g: seq<int>, g': seq<int>, fleet: seq<Ship>, rowStride: int, t: int, u: Ship)
    requires MarkedFleet(g, fleet, rowStride, t) && |g'| == |g|
    requires ShipFits(u, rowStride, |g|) && WriteOrderSafe(u, rowStride)
    requires forall c :: c in ClearedUpTo(u, u.len) ==> c in fleet[t].pos
    ensures FleetFits(fleet[t := u], rowStride, |g'|)
    ensures forall c :: 0 <= c < |g'| ==>
              FleetWrites(g', fleet[t := u], rowStride)[c] ==
                if OnOtherShip(fleet, t, c) || c in PlacedUpTo(u, u.len, rowStride) then SHIP
                else if c in ClearedUpTo(u, u.len) then EMPTY
                else g'[c]
  {
    var replaced := fleet[t := u];
    assert FleetFits(replaced, rowStride, |g'|);
    ReplacedFleetOrderSafe(g, fleet, rowStride, t, u);
    FleetWritesExact(g', replaced, rowStride);
    forall c | 0 <= c < |g'|
      ensures FleetWrites(g', replaced, rowStride)[c] ==
                if OnOtherShip(fleet, t, c) || c in PlacedUpTo(u, u.len, rowStride) then SHIP
                else if c in ClearedUpTo(u, u.len) then EMPTY
                else g'[c]
    {
      ReplacedFleetPlaced(g, fleet, rowStride, t, u, c);
      if c !in FleetPlaced(replaced, rowStride) {
        ReplacedFleetCleared(g, fleet, rowStride, t, u, c);
      }
    }
  }

  /** The placement that follows an accepted rotation of ship `t` of a marked
      fleet: after placeShips, the other ships' cells and the turned ship's
      line along its new orientation hold SHIP, the turned ship's other old
      cells are EMPTY, and no other cell changes. */
  lemma AcceptedTurnPlacement(g: seq<int>, fleet: seq<Ship>, rowStride: int, t: int, r: int, placing: bool)
    requires MarkedFleet(g, fleet, rowStride, t)
    requires FootprintInGrid(CenterPos(fleet[t]), fleet[t], GetRotation(r, rowStride), |g|)
    requires Acceptable(g, fleet[t], None, Some(r), placing, rowStride)
    ensures FleetFits(fleet[t := fleet[t].(rot := r)], rowStride, |g|)
    ensures forall c :: 0 <= c < |g| ==>
              FleetWrites(g, fleet[t := fleet[t].(rot := r)], rowStride)[c] ==
                if OnOtherShip(fleet, t, c) || OnLine(fleet[t], GetRotation(r, rowStride), c) then SHIP
                else if c in fleet[t].pos then EMPTY
                else g[c]
  {
    var s := fleet[t];
    var u := s.(rot := r);
    AcceptedTurnOrderSafe(g, s, r, placing, rowStride);
    forall c | c in ClearedUpTo(u, u.len)
      ensures c in s.pos
    {
      TurnedShipSets(s, r, rowStride, c);
    }
    ReplacedFleetWrites(g, g, fleet, rowStride, t, u);
    CellAtContiguous(CenterPos(s), s.center, s.center, GetRotation(r, rowStride));
    assert OnLine(s, GetRotation(r, rowStride), CenterPos(s));
    forall c | 0 <= c < |g|
      ensures FleetWrites(g, fleet[t := u], rowStride)[c] ==
                if OnOtherShip(fleet, t, c) || OnLine(s, GetRotation(r, rowStride), c) then SHIP
                else if c in s.pos then EMPTY
                else g[c]
    {
      TurnedShipSets(s, r, rowStride, c);
    }
  }

  /** The ship as placeSelectedShip leaves it: its centre moved to `target`
      and marked placed. */
  function MovedShip(s: Ship, target: int): (r: Ship)
    requires Shaped(s)
    ensures Shaped(r) && CenterPos(r) == target && r.isPlaced
    ensures r.len == s.len && r.center == s.center && r.rot == s.rot && r.initCenterPos == s.initCenterPos
    ensures forall j :: 0 <= j < s.len && j != s.center ==> r.pos[j] == s.pos[j]
  {
    s.(pos := s.pos[s.center := target], isPlaced := true)
  }

  /** A move of the centre that checkCells accepts, of a laid-out ship whose
      cells all hold SHIP: no other cell of the ship lies on the old or the new
      centre, and the writes of the moved ship are in a safe order. */
  lemma AcceptedMoveOrderSafe(g: seq<int>, s: Ship, target: int, placing: bool, rowStride: int)
    requires Shaped(s) && LaidOut(s, rowStride) && 0 <= s.rot < 4 && rowStride > 0
    requires forall j :: 0 <= j < s.len ==> 0 <= s.pos[j] < |g| && g[s.pos[j]] == SHIP
    requires FootprintInGrid(target, s, GetRotation(s.rot, rowStride), |g|)
    requires Acceptable(g, s, Some(target), None, placing, rowStride)
    ensures forall j :: 0 <= j < s.len && j != s.center ==> s.pos[j] != target && s.pos[j] != CenterPos(s)
    ensures WriteOrderSafe(MovedShip(s, target), rowStride)
  {
    LaidOutCentre(s, rowStride);
    assert NewCenter(s, Some(target)) == target && NewRotation(s, None) == s.rot;
    var u := MovedShip(s, target);
    forall i, j | 0 <= i < j < u.len && u.pos[j] != CenterPos(u)
      ensures u.pos[j] != RelocatedCell(u, i, rowStride)
    {
      if u.pos[i] != CenterPos(u) {
        assert CellAccepted(g, s, target, GetRotation(s.rot, rowStride), placing, rowStride, i);
      }
    }
  }

  /** For a ship whose other cells lie on neither its old centre nor
      `target`, once its centre is moved to `target` placeShips marks the
      cells of its line around `target` and empties its old cells other than
      the old centre. */
  lemma MovedShipSets(s: Ship, target: int, rowStride: int, c: int)
    requires Shaped(s)
    requires forall j :: 0 <= j < s.len && j != s.center ==> s.pos[j] != target && s.pos[j] != CenterPos(s)
    ensures c in PlacedUpTo(MovedShip(s, target), s.len, rowStride) <==>
              OnLine(MovedShip(s, target), GetRotation(s.rot, rowStride), c)
    ensures c in ClearedUpTo(MovedShip(s, target), s.len) <==> c in s.pos && c != CenterPos(s)
  {
    var u := MovedShip(s, target);
    var stride := GetRotation(s.rot, rowStride);
    CellAtContiguous(target, s.center, s.center, stride);
    forall i | 0 <= i < s.len
      ensures RelocatedCell(u, i, rowStride) == CellAt(target, s.center, i, stride)
    {
    }
    UpToMembers(u, u.len, rowStride, c);
    if c in s.pos && c != CenterPos(s) {
      var j :| 0 <= j < s.len && s.pos[j] == c;
      assert u.pos[j] == c;
    }
  }

  /** The placement that follows placeSelectedShip's accepted move of ship
      `t` of a marked fleet to `target`, which also empties the old centre
      cell: after placeShips, the other ships' cells and the moved ship's line
      around `target` hold SHIP, the ship's other old cells are EMPTY, and no
      other cell changes. */
  lemma AcceptedMovePlacement(g: seq<int>, fleet: seq<Ship>, rowStride: int, t: int, target: int)
    requires MarkedFleet(g, fleet, rowStride, t) && 0 <= target < |g|
    requires FootprintInGrid(target, fleet[t], GetRotation(fleet[t].rot, rowStride), |g|)
    requires Acceptable(g, fleet[t], Some(target), None, true, rowStride)
    ensures FleetFits(fleet[t := MovedShip(fleet[t], target)], rowStride, |g|)
    ensures forall c :: 0 <= c < |g| ==>
              FleetWrites(g[CenterPos(fleet[t]) := EMPTY], fleet[t := MovedShip(fleet[t], target)], rowStride)[c] ==
                if OnOtherShip(fleet, t, c) || OnLine(MovedShip(fleet[t], target), GetRotation(fleet[t].rot, rowStride), c)
                then SHIP
                else if c in fleet[t].pos then EMPTY
                else g[c]
  {
    var s := fleet[t];
    var u := MovedShip(s, target);
    var g1 := g[CenterPos(s) := EMPTY];
    AcceptedMoveOrderSafe(g, s, target, true, rowStride);
    assert FootprintInGrid(CenterPos(u), u, GetRotation(u.rot, rowStride), |g|);
    forall c | c in ClearedUpTo(u, u.len)
      ensures c in s.pos
    {
      MovedShipSets(s, target, rowStride, c);
    }
    ReplacedFleetWrites(g, g1, fleet, rowStride, t, u);
    forall c | 0 <= c < |g|
      ensures FleetWrites(g1, fleet[t := u], rowStride)[c] ==
                if OnOtherShip(fleet, t, c) || OnLine(u, GetRotation(s.rot, rowStride), c) then SHIP
                else if c in s.pos then EMPTY
                else g[c]
    {
      MovedShipSets(s, target, rowStride, c);
    }
  }

  /** clearSelectedShip's effect on the ship: orientation 0, centre back at its
      starting cell. */
  function ClearedShip(s: Ship): (r: Ship)
    requires Shaped(s)
    ensures r.len == s.len && r.center == s.center && r.isPlaced == s.isPlaced && r.initCenterPos == s.initCenterPos
    ensures Shaped(r) && CenterPos(r) == s.initCenterPos && r.rot == 0
    ensures forall i :: 0 <= i < s.len && i != s.center ==> r.pos[i] == s.pos[i]
  {
    s.(rot := 0, pos := s.pos[s.center := s.initCenterPos])
  }

  /** clearSelectedShip's effect on the grid: every cell of the ship emptied. */
  function ClearedGrid(g: seq<int>, s: Ship): (r: seq<int>)
    ensures |r| == |g|
    ensures forall c :: 0 <= c < |g| ==> r[c] == if c in s.pos then EMPTY else g[c]
  {
    seq(|g|, c requires 0 <= c < |g| => if c in s.pos then EMPTY else g[c])
  }

  /** The staging cell the selected ship's centre is moved to: the cell at
      coordinates (13 + center, 13). */
  function StagingCenter(s: Ship, rowStride: int): int
  {
    Index(13 + s.center, 13, rowStride)
  }

  /** The cell setSelectedShip checks instead: (2 + center, 13). */
  function SelectionProbe(s: Ship, rowStride: int): int
  {
    Index(2 + s.center, 13, rowStride)
  }

  /** The cell setSelectedShip checks is not where it moves the centre: it
      lies 11 rows earlier, at row 2 + center of column 13, inside the block
      of columns 12..21 that records the player's shots. */
  lemma SelectionProbeOffset(s: Ship, rowStride: int)
    requires 0 <= s.center && rowStride >= 22
    ensures StagingCenter(s, rowStride) == SelectionProbe(s, rowStride) + 11 * rowStride
    ensures SelectionProbe(s, rowStride) / rowStride == 2 + s.center
    ensures SelectionProbe(s, rowStride) % rowStride == 13
  {
    IndexDivMod(2 + s.center, 13, rowStride);
    assert (13 + s.center) * rowStride == (2 + s.center) * rowStride + 11 * rowStride;
  }

  class Player {
    /** BOARD_SIZE_X, the number of rows. */
    const sizeX: int
    /** BOARD_SIZE_Y, the number of cells per row. */
    const sizeY: int
    const grid: array<int>
    const ships: array<Ship>
    /** The ship being edited, or -1. */
    var selectedShip: int

    ghost predicate Valid()
      reads this, ships
    {
      sizeX >= 18 && sizeY >= 22 && grid.Length == sizeX * sizeY &&
      ships.Length == NSHIPS && -1 <= selectedShip < NSHIPS &&
      forall k :: 0 <= k < NSHIPS ==> WellFormed(ships[k], grid.Length)
    }

    /** A player with an empty grid, the given fleet and the given selection
        (-1 for none). How the engine first fills the grid is not part of this
        model. */
    constructor (sx: int, sy: int, fleet: seq<Ship>, sel: int)
      requires sx >= 18 && sy >= 22 && |fleet| == NSHIPS && -1 <= sel < NSHIPS
      requires forall k :: 0 <= k < NSHIPS ==> WellFormed(fleet[k], sx * sy)
      ensures Valid() && fresh(grid) && fresh(ships)
      ensures sizeX == sx && sizeY == sy && ships[..] == fleet && selectedShip == sel
      ensures forall c :: 0 <= c < grid.Length ==> grid[c] == EMPTY
    {
      sizeX, sizeY := sx, sy;
      ProductNonNegative(sx, sy);
      grid := new int[sx * sy](_ => EMPTY);
      ships := new Ship[NSHIPS](k requires 0 <= k < NSHIPS => fleet[k]);
      selectedShip := sel;
    }

    /** The flat index of a requested centre, if any. */
    function TargetIndex(target: Option<(int, int)>): Option<int>
      reads this
    {
      if target.Some? then Some(Index(target.value.0, target.value.1, sizeY)) else None
    }

    /** checkCells: tests whether the selected ship may move to `target` with
        orientation `rotation` (each defaulting to the ship's own), with the
        playing-area bounds enforced when `placing`. Writes nothing. */
    method CheckCells(target: Option<(int, int)>, rotation: Option<int>, placing: bool) returns (ok: bool)
      requires Valid() && 0 <= selectedShip
      requires target.Some? ==> 0 <= Index(target.value.0, target.value.1, sizeY) < grid.Length
      requires !placing ==>
                 FootprintInGrid(NewCenter(ships[selectedShip], TargetIndex(target)), ships[selectedShip],
                                 GetRotation(NewRotation(ships[selectedShip], rotation), sizeY), grid.Length)
      ensures ok == Acceptable(grid[..], ships[selectedShip], TargetIndex(target), rotation, placing, sizeY)
    {
      var s := ships[selectedShip];
      var newCenter := s.pos[s.center];
      if target.Some? {
        var c := Index(target.value.0, target.value.1, sizeY);
        if grid[c] == SHIP && s.pos[s.center] != c {
          return false;
        }
        newCenter := c;
      }
      var rot;
      if rotation.Some? {
        rot := GetRotation(rotation.value, sizeY);
      } else {
        rot := GetRotation(s.rot, sizeY);
      }
      ghost var g := grid[..];
      assert newCenter == NewCenter(s, TargetIndex(target));
      assert rot == GetRotation(NewRotation(s, rotation), sizeY);
      for i := 0 to s.len
        invariant forall k :: 0 <= k < i ==> CellAccepted(g, s, newCenter, rot, placing, sizeY, k)
      {
        var newPos := CellAt(newCenter, s.center, i, rot);
        if placing {
          var newXPos := CInt.Div(newPos, sizeY);
          var newYPos := CInt.Rem(newPos, sizeY);
          if newXPos > 10 || newXPos < 1 || newYPos > 10 || newYPos < 1 {
            assert !CellAccepted(g, s, newCenter, rot, placing, sizeY, i);
            return false;
          }
          PlayAreaInGrid(newPos, sizeX, sizeY);
        }
        if s.pos[i] != newCenter && grid[newPos] == SHIP {
          assert !CellAccepted(g, s, newCenter, rot, placing, sizeY, i);
          return false;
        }
      }
      return true;
    }

    /** rotateShip: turns the selected ship to `(rot + rotation) % 4` (C's
        remainder) when checkCells accepts the new orientation, enforcing the
        bounds exactly when the ship is placed. Nothing else changes. */
    method RotateShip(rotation: int)
      requires Valid() && 0 <= selectedShip
      requires !ships[selectedShip].isPlaced ==>
                 FootprintInGrid(CenterPos(ships[selectedShip]), ships[selectedShip],
                                 GetRotation(Turn(ships[selectedShip].rot, rotation), sizeY), grid.Length)
      modifies ships
      ensures Valid()
      ensures var s := old(ships[selectedShip]);
              var r := Turn(s.rot, rotation);
              ships[..] == old(ships[..])[selectedShip :=
                if Acceptable(grid[..], s, None, Some(r), s.isPlaced, sizeY) then s.(rot := r) else s]
    {
      var rot := Turn(ships[selectedShip].rot, rotation);
      var placing := false;
      if selectedShip != -1 {
        if ships[selectedShip].isPlaced {
          placing := true;
        }
        var ok := CheckCells(None, Some(rot), placing);
        if ok {
          ships[selectedShip] := ships[selectedShip].(rot := rot);
        }
      }
    }

    /** placeShips: recomputes every ship's cells from its centre and
        orientation, emptying each old cell before marking its new one. */
    method PlaceShips()
      requires Valid()
      requires forall k :: 0 <= k < NSHIPS ==>
                 FootprintInGrid(CenterPos(ships[k]), ships[k], GetRotation(ships[k].rot, sizeY), grid.Length)
      modifies grid, ships
      ensures Valid()
      ensures forall k :: 0 <= k < NSHIPS ==> IsRelocation(old(ships[k]), ships[k], sizeY)
      ensures grid[..] == FleetWrites(old(grid[..]), old(ships[..]), sizeY)
      ensures Painted(old(grid[..]), grid[..], FleetPlaced(old(ships[..]), sizeY), FleetCleared(old(ships[..])))
    {
      ghost var olds := ships[..];
      ghost var g0 := grid[..];
      for i := 0 to NSHIPS
        invariant forall k :: 0 <= k < i ==> IsRelocation(olds[k], ships[k], sizeY)
        invariant forall k :: i <= k < NSHIPS ==> ships[k] == olds[k]
        invariant grid[..] == FleetWrites(g0, olds[..i], sizeY)
      {
        PlaceOneShip(i);
        assert olds[..i + 1][..i] == olds[..i];
      }
      assert olds[..NSHIPS] == olds;
      FleetWritesPaint(g0, olds, sizeY);
      forall k | 0 <= k < NSHIPS
        ensures WellFormed(ships[k], grid.Length)
      {
        assert IsRelocation(olds[k], ships[k], sizeY);
        forall j | 0 <= j < ships[k].len
          ensures 0 <= ships[k].pos[j] < grid.Length
        {
          assert ships[k].pos[j] == RelocatedCell(olds[k], j, sizeY);
        }
      }
    }

    /** clearSelectedShip: empties every cell of the selected ship, turns it to
        orientation 0 and puts its centre back at its starting cell. */
    method ClearSelectedShip()
      requires Valid() && 0 <= selectedShip
      modifies grid, ships
      ensures Valid()
      ensures grid[..] == ClearedGrid(old(grid[..]), old(ships[selectedShip]))
      ensures ships[..] == old(ships[..])[selectedShip := ClearedShip(old(ships[selectedShip]))]
    {
      var s := ships[selectedShip];
      ghost var g0 := grid[..];
      for i := 0 to s.len
        invariant ships[..] == old(ships[..])
        invariant forall c :: 0 <= c < grid.Length ==> grid[c] == if c in s.pos[..i] then EMPTY else g0[c]
      {
        grid[s.pos[i]] := EMPTY;
        assert s.pos[..i + 1] == s.pos[..i] + [s.pos[i]];
      }
      assert s.pos[..s.len] == s.pos;
      ships[selectedShip] := ships[selectedShip].(rot := 0);
      ships[selectedShip] := ships[selectedShip].(pos := ships[selectedShip].pos[s.center := s.initCenterPos]);
    }

    /** placeSelectedShip: with no ship selected, does nothing and returns 0.
        Otherwise, when (x, y) lies in the playing area and checkCells accepts
        the move with the bounds enforced, empties the old centre cell, moves
        the centre to (x, y), marks the ship placed and returns 0; else returns
        1 and changes nothing. */
    method PlaceSelectedShip(x: int, y: int) returns (code: int)
      requires Valid()
      modifies grid, ships
      ensures Valid()
      ensures old(selectedShip) == -1 ==> code == 0 && grid[..] == old(grid[..]) && ships[..] == old(ships[..])
      ensures old(selectedShip) != -1 ==>
                var s := old(ships[selectedShip]);
                var ok := 0 < x < 11 && 0 < y < 11 &&
                          Acceptable(old(grid[..]), s, Some(Index(x, y, sizeY)), None, true, sizeY);
                code == (if ok then 0 else 1) &&
                (ok ==> grid[..] == old(grid[..])[CenterPos(s) := EMPTY] &&
                        ships[..] == old(ships[..])[selectedShip := MovedShip(s, Index(x, y, sizeY))]) &&
                (!ok ==> grid[..] == old(grid[..]) && ships[..] == old(ships[..]))
    {
      if selectedShip != -1 {
        var s := ships[selectedShip];
        if x < 11 && x > 0 && y < 11 && y > 0 {
          IndexInGrid(x, y, sizeX, sizeY);
          var ok := CheckCells(Some((x, y)), None, true);
          if ok {
            grid[s.pos[s.center]] := EMPTY;
            ships[selectedShip] := s.(pos := s.pos[s.center := Index(x, y, sizeY)]);
            ships[selectedShip] := ships[selectedShip].(isPlaced := true);
            return 0;
          }
        }
        return 1;
      }
      return 0;
    }

    /** The cells setSelectedShip computes all lie in the grid: the probe cell,
        the previously selected ship's cells laid out around it, and the new
        staging centre. */
    ghost predicate SelectionInGrid(k: int)
      reads this, ships
      requires Valid() && 0 <= k < NSHIPS && 0 <= selectedShip
    {
      var prev := ships[selectedShip];
      var rot := if k == selectedShip then 0 else ships[k].rot;
      0 <= SelectionProbe(ships[k], sizeY) < grid.Length &&
      FootprintInGrid(SelectionProbe(ships[k], sizeY), prev, GetRotation(rot, sizeY), grid.Length) &&
      0 <= StagingCenter(ships[k], sizeY) < grid.Length
    }

    /** setSelectedShip: once the game has started, returns 1 and changes
        nothing. Before that, sends the previously selected (unplaced) ship back
        to its starting position, then, if checkCells accepts that ship at the
        probe cell (2 + center, 13) of ship `k` with ship `k`'s orientation,
        selects ship `k`, marks it unplaced, empties its centre cell and moves
        its centre to the staging cell (13 + center, 13), returning 0; otherwise
        returns 1 with the previous ship already sent back. */
    method SetSelectedShip(started: bool, k: int) returns (code: int)
      requires Valid()
      requires !started ==> 0 <= k < NSHIPS && 0 <= selectedShip && !ships[selectedShip].isPlaced
      requires !started ==> SelectionInGrid(k)
      modifies this, grid, ships
      ensures Valid()
      ensures started ==> code == 1 && selectedShip == old(selectedShip) &&
                          grid[..] == old(grid[..]) && ships[..] == old(ships[..])
      ensures !started ==>
                var prev := old(ships[selectedShip]);
                var g1 := ClearedGrid(old(grid[..]), prev);
                var ships1 := old(ships[..])[old(selectedShip) := ClearedShip(prev)];
                var ok := Acceptable(g1, ClearedShip(prev), Some(SelectionProbe(ships1[k], sizeY)),
                                     Some(ships1[k].rot), false, sizeY);
                code == (if ok then 0 else 1) &&
                (ok ==> selectedShip == k &&
                        grid[..] == g1[CenterPos(ships1[k]) := EMPTY] &&
                        ships[..] == ships1[k := ships1[k].(isPlaced := false,
                                                 pos := ships1[k].pos[ships1[k].center := StagingCenter(ships1[k], sizeY)])]) &&
                (!ok ==> selectedShip == old(selectedShip) && grid[..] == g1 && ships[..] == ships1)
    {
      var y := 13;
      if !started {
        if selectedShip != -1 {
          selectedShip := if ships[selectedShip].isPlaced then -1 else selectedShip;
          if selectedShip != -1 {
            ClearSelectedShip();
          }
        }
        var x := 2 + ships[k].center;
        var ok := CheckCells(Some((x, y)), Some(ships[k].rot), false);
        if ok {
          selectedShip := k;
          var s := ships[selectedShip];
          ships[selectedShip] := s.(isPlaced := false);
          grid[s.pos[s.center]] := EMPTY;
          ships[selectedShip] := ships[selectedShip].(pos := s.pos[s.center := Index(13 + s.center, y, sizeY)]);
          return 0;
        }
      }
      return 1;
    }

    /** The body of placeShips' outer loop for ship `i`. */
    method PlaceOneShip(i: int)
      requires Valid() && 0 <= i < NSHIPS
      requires FootprintInGrid(CenterPos(ships[i]), ships[i], GetRotation(ships[i].rot, sizeY), grid.Length)
      modifies grid, ships
      ensures Valid()
      ensures forall k :: 0 <= k < NSHIPS && k != i ==> ships[k] == old(ships[k])
      ensures IsRelocation(old(ships[i]), ships[i], sizeY)
      ensures grid[..] == ShipWrites(old(grid[..]), old(ships[i]), sizeY, old(ships[i]).len)
    {
      var s := ships[i];
      var rot := GetRotation(s.rot, sizeY);
      ghost var g0 := grid[..];
      for j := 0 to s.len
        invariant forall k :: 0 <= k < NSHIPS && k != i ==> ships[k] == old(ships[k])
        invariant ships[i] == s.(pos := ships[i].pos) && |ships[i].pos| == s.len
        invariant forall m :: 0 <= m < j ==> ships[i].pos[m] == RelocatedCell(s, m, sizeY)
        invariant forall m :: j <= m < s.len ==> ships[i].pos[m] == s.pos[m]
        invariant ships[i].pos[s.center] == s.pos[s.center]
        invariant grid[..] == ShipWrites(g0, s, sizeY, j)
      {
        if ships[i].pos[j] == ships[i].pos[s.center] {
          grid[ships[i].pos[s.center]] := SHIP;
          continue;
        }
        grid[ships[i].pos[j]] := EMPTY;
        ships[i] := ships[i].(pos := ships[i].pos[j := CellAt(ships[i].pos[s.center], s.center, j, rot)]);
        grid[ships[i].pos[j]] := SHIP;
      }
      forall j | 0 <= j < s.len
        ensures 0 <= ships[i].pos[j] < grid.Length
      {
        assert ships[i].pos[j] == RelocatedCell(s, j, sizeY);
      }
    }
  }
}
