/**
 * Shot resolution in the game engine (src/engine.c). Each player's grid holds
 * its own ships in the 10 by 10 block of coordinates 1..10 and, in the block
 * of first coordinate 1..10 and second coordinate 12..21, the record of its
 * shots at the opponent. A shot at (x, y) in the second block is the
 * opponent's own cell (x, y - 11).
 */
module Shooting {
  import opened Board
  import opened Engine

  /** No cell of any ship of the fleet still holds SHIP. */
  predicate AllSunk(g: seq<int>, fleet: seq<Ship>)
    requires forall k :: 0 <= k < |fleet| ==> WellFormed(fleet[k], |g|)
  {
    forall k :: 0 <= k < |fleet| ==> ShipSunk(g, fleet[k])
  }

  /** No cell of the ship holds SHIP. */
  predicate ShipSunk(g: seq<int>, s: Ship)
    requires WellFormed(s, |g|)
  {
    forall j :: 0 <= j < s.len ==> g[s.pos[j]] != SHIP
  }

  /** checkGameOver: true exactly when no cell of any of the player's ships
      still holds SHIP. Writes nothing. */
  method CheckGameOver(p: Player) returns (over: bool)
    requires p.Valid()
    ensures over == AllSunk(p.grid[..], p.ships[..])
  {
    for i := 0 to NSHIPS
      invariant forall k :: 0 <= k < i ==> ShipSunk(p.grid[..], p.ships[k])
    {
      var s := p.ships[i];
      for j := 0 to s.len
        invariant forall m :: 0 <= m < j ==> p.grid[s.pos[m]] != SHIP
      {
        if p.grid[s.pos[j]] == SHIP {
          assert !ShipSunk(p.grid[..], p.ships[i]);
          return false;
        }
      }
    }
    return true;
  }

  /** The block of the attacker's grid that records its shots. */
  predicate InGuessArea(x: int, y: int)
  {
    0 < x < 11 && 11 < y < 22
  }

  /** The attacker's record cell of a shot at (x, y). */
  function GuessCell(x: int, y: int, rowStride: int): int
  {
    Index(x, y, rowStride)
  }

  /** The defender's own cell a shot at (x, y) lands on: (x, y - 11). */
  function TargetCell(x: int, y: int, rowStride: int): int
  {
    Index(x, y - 11, rowStride)
  }

  /** The translation from the guessing block to the defender's playing area
      is a bijection: every shot lands inside the defender's playing area, and
      the shot's coordinates can be recovered from the defender cell. */
  lemma TranslationRoundTrip(x: int, y: int, rowStride: int)
    requires InGuessArea(x, y) && rowStride >= 22
    ensures InPlayArea(TargetCell(x, y, rowStride), rowStride)
    ensures TargetCell(x, y, rowStride) / rowStride == x
    ensures TargetCell(x, y, rowStride) % rowStride + 11 == y
    ensures GuessCell(x, y, rowStride) == TargetCell(x, y, rowStride) + 11
  {
    InPlayAreaIsBoardCell(TargetCell(x, y, rowStride), rowStride);
    IndexDivMod(x, y - 11, rowStride);
  }

  /** Two grids of equal size, each with rows of at least 22 cells and at
      least 11 rows, as the default grid sizes give. */
  predicate ShotBoards(attacker: seq<int>, defender: seq<int>, rowStride: int)
  {
    rowStride >= 22 && |attacker| == |defender| && 11 * rowStride <= |attacker|
  }

  lemma ShotCellsInGrid(attacker: seq<int>, defender: seq<int>, x: int, y: int, rowStride: int)
    requires ShotBoards(attacker, defender, rowStride) && InGuessArea(x, y)
    ensures 0 <= GuessCell(x, y, rowStride) < |attacker|
    ensures 0 <= TargetCell(x, y, rowStride) < |defender|
  {
    IndexInGrid(x, y, 11, rowStride);
    IndexInGrid(x, y - 11, 11, rowStride);
  }

  /** The ways takeShot can classify a shot. `Settled` is a shot at a cell the
      defender's grid already shows as hit (or anything but EMPTY and SHIP):
      the source falls through and reports no shot taken. */
  datatype ShotKind = OutOfRange | AlreadyTaken | Miss | Hit | Settled

  /** What takeShot returns: 1 for a shot that counts, 0 otherwise. */
  function Code(kind: ShotKind): int
  {
    if kind == Miss || kind == Hit then 1 else 0
  }

  function Classify(attacker: seq<int>, defender: seq<int>, x: int, y: int, rowStride: int): ShotKind
    requires ShotBoards(attacker, defender, rowStride)
  {
    if !InGuessArea(x, y) then OutOfRange
    else
      ShotCellsInGrid(attacker, defender, x, y, rowStride);
      if attacker[GuessCell(x, y, rowStride)] == MISS then AlreadyTaken
      else if defender[TargetCell(x, y, rowStride)] == EMPTY then Miss
      else if defender[TargetCell(x, y, rowStride)] == SHIP then Hit
      else Settled
  }

  datatype ShotOutcome = ShotOutcome(kind: ShotKind, attacker: seq<int>, defender: seq<int>)

  /** The two grids after a shot at (x, y): a miss marks the attacker's record
      cell MISS; a hit marks it and the defender's cell HIT; every other shot
      leaves both grids as they were. */
  function Shot(attacker: seq<int>, defender: seq<int>, x: int, y: int, rowStride: int): (r: ShotOutcome)
    requires ShotBoards(attacker, defender, rowStride)
    ensures ShotBoards(r.attacker, r.defender, rowStride)
  {
    var kind := Classify(attacker, defender, x, y, rowStride);
    match kind
    case Miss => ShotOutcome(kind, attacker[GuessCell(x, y, rowStride) := MISS], defender)
    case Hit => ShotOutcome(kind, attacker[GuessCell(x, y, rowStride) := HIT], defender[TargetCell(x, y, rowStride) := HIT])
    case _ => ShotOutcome(kind, attacker, defender)
  }

  /** A shot outside the guessing block, or at a record cell already marked
      MISS, returns 0 and changes neither grid; only a miss or a hit changes a
      grid, and then only its one record cell and (for a hit) its one target
      cell. */
  lemma ShotChangesOnlyItsCells(attacker: seq<int>, defender: seq<int>, x: int, y: int, rowStride: int)
    requires ShotBoards(attacker, defender, rowStride)
    ensures var r := Shot(attacker, defender, x, y, rowStride);
            (!InGuessArea(x, y) ==> Code(r.kind) == 0 && r.attacker == attacker && r.defender == defender) &&
            (InGuessArea(x, y) ==> (ShotCellsInGrid(attacker, defender, x, y, rowStride);
               attacker[GuessCell(x, y, rowStride)] == MISS ==>
               Code(r.kind) == 0 && r.attacker == attacker && r.defender == defender)) &&
            (Code(r.kind) == 0 ==> r.attacker == attacker && r.defender == defender) &&
            (forall c :: 0 <= c < |attacker| && c != GuessCell(x, y, rowStride) ==> r.attacker[c] == attacker[c]) &&
            (forall c :: 0 <= c < |defender| && c != TargetCell(x, y, rowStride) ==> r.defender[c] == defender[c])
  {
  }

  /** A miss is a shot whose target cell is EMPTY, a hit one whose target cell
      holds SHIP; a miss marks the record cell MISS and a hit marks both cells
      HIT. */
  lemma ShotOutcomes(attacker: seq<int>, defender: seq<int>, x: int, y: int, rowStride: int)
    requires ShotBoards(attacker, defender, rowStride) && InGuessArea(x, y)
    requires 0 <= GuessCell(x, y, rowStride) < |attacker|
    requires attacker[GuessCell(x, y, rowStride)] != MISS
    ensures var r := Shot(attacker, defender, x, y, rowStride);
            (defender[TargetCell(x, y, rowStride)] == EMPTY <==> r.kind == Miss) &&
            (defender[TargetCell(x, y, rowStride)] == SHIP <==> r.kind == Hit) &&
            (r.kind == Miss ==> r.attacker[GuessCell(x, y, rowStride)] == MISS) &&
            (r.kind == Hit ==> r.attacker[GuessCell(x, y, rowStride)] == HIT && r.defender[TargetCell(x, y, rowStride)] == HIT)
  {
    ShotCellsInGrid(attacker, defender, x, y, rowStride);
  }

  /** Firing again at the cell of a shot that counted has no effect: it
      returns 0 and both grids stay as the first shot left them. */
  lemma RepeatedShotIsNoOp(attacker: seq<int>, defender: seq<int>, x: int, y: int, rowStride: int)
    requires ShotBoards(attacker, defender, rowStride)
    requires Code(Shot(attacker, defender, x, y, rowStride).kind) == 1
    ensures var r := Shot(attacker, defender, x, y, rowStride);
            var r' := Shot(r.attacker, r.defender, x, y, rowStride);
            Code(r'.kind) == 0 && r'.attacker == r.attacker && r'.defender == r.defender
  {
    ShotCellsInGrid(attacker, defender, x, y, rowStride);
  }

  /** The attacker's record and the defender's grid agree: a record cell is
      HIT exactly when its target cell is HIT, and a record cell marked MISS
      has an EMPTY target cell. */
  ghost predicate Consistent(attacker: seq<int>, defender: seq<int>, rowStride: int)
    requires ShotBoards(attacker, defender, rowStride)
  {
    forall x, y :: InGuessArea(x, y) ==>
      (ShotCellsInGrid(attacker, defender, x, y, rowStride);
       (attacker[GuessCell(x, y, rowStride)] == HIT <==> defender[TargetCell(x, y, rowStride)] == HIT) &&
       (attacker[GuessCell(x, y, rowStride)] == MISS ==> defender[TargetCell(x, y, rowStride)] == EMPTY))
  }

  /** Every shot keeps the two grids consistent. */
  lemma ShotKeepsConsistent(attacker: seq<int>, defender: seq<int>, x: int, y: int, rowStride: int)
    requires ShotBoards(attacker, defender, rowStride) && Consistent(attacker, defender, rowStride)
    ensures var r := Shot(attacker, defender, x, y, rowStride);
            Consistent(r.attacker, r.defender, rowStride)
  {
    var r := Shot(attacker, defender, x, y, rowStride);
    if Code(r.kind) == 1 {
      forall x', y' | InGuessArea(x', y')
        ensures (r.attacker[GuessCell(x', y', rowStride)] == HIT <==> r.defender[TargetCell(x', y', rowStride)] == HIT) &&
                (r.attacker[GuessCell(x', y', rowStride)] == MISS ==> r.defender[TargetCell(x', y', rowStride)] == EMPTY)
      {
        ShotCellsInGrid(attacker, defender, x', y', rowStride);
        if (x', y') != (x, y) {
          if GuessCell(x', y', rowStride) == GuessCell(x, y, rowStride) {
            IndexInjective(x', y', x, y, rowStride);
          }
          if TargetCell(x', y', rowStride) == TargetCell(x, y, rowStride) {
            IndexInjective(x', y' - 11, x, y - 11, rowStride);
          }
        }
      }
    }
  }

  /** Grids that hold no HIT and no MISS, as at the start of play, are
      consistent. */
  lemma StartIsConsistent(attacker: seq<int>, defender: seq<int>, rowStride: int)
    requires ShotBoards(attacker, defender, rowStride)
    requires forall c :: 0 <= c < |attacker| ==> attacker[c] != HIT && attacker[c] != MISS && defender[c] != HIT
    ensures Consistent(attacker, defender, rowStride)
  {
    forall x, y | InGuessArea(x, y)
      ensures 0 <= GuessCell(x, y, rowStride) < |attacker| && 0 <= TargetCell(x, y, rowStride) < |defender|
    {
      ShotCellsInGrid(attacker, defender, x, y, rowStride);
    }
  }

  /** A shot the other way, by the defender at the attacker, writes only the
      defender's record block and the attacker's own block, so it keeps the
      attacker's record consistent with the defender's grid. With
      ShotKeepsConsistent this keeps both records consistent through any
      sequence of alternating shots. */
  lemma ReturnFireKeepsConsistent(attacker: seq<int>, defender: seq<int>, x: int, y: int, rowStride: int)
    requires ShotBoards(attacker, defender, rowStride) && Consistent(attacker, defender, rowStride)
    ensures ShotBoards(defender, attacker, rowStride)
    ensures var r := Shot(defender, attacker, x, y, rowStride);
            Consistent(r.defender, r.attacker, rowStride)
  {
    var r := Shot(defender, attacker, x, y, rowStride);
    if Code(r.kind) == 1 {
      forall x', y' | InGuessArea(x', y')
        ensures (r.defender[GuessCell(x', y', rowStride)] == HIT <==> r.attacker[TargetCell(x', y', rowStride)] == HIT) &&
                (r.defender[GuessCell(x', y', rowStride)] == MISS ==> r.attacker[TargetCell(x', y', rowStride)] == EMPTY)
      {
        ShotCellsInGrid(attacker, defender, x', y', rowStride);
        ShotCellsInGrid(defender, attacker, x, y, rowStride);
        if GuessCell(x', y', rowStride) == TargetCell(x, y, rowStride) {
          IndexInjective(x', y', x, y - 11, rowStride);
        }
        if TargetCell(x', y', rowStride) == GuessCell(x, y, rowStride) {
          IndexInjective(x', y' - 11, x, y, rowStride);
        }
      }
    }
  }

  /** Once the grids are consistent, a shot at a cell already shot at, hit or
      miss, returns 0 and changes nothing. Consistency holds from the start of
      play, when no cell is HIT or MISS, and ShotKeepsConsistent and
      ReturnFireKeepsConsistent keep it through every shot in either
      direction. */
  lemma ShotAtResolvedCellIsNoOp(attacker: seq<int>, defender: seq<int>, x: int, y: int, rowStride: int)
    requires ShotBoards(attacker, defender, rowStride) && Consistent(attacker, defender, rowStride)
    requires InGuessArea(x, y)
    requires 0 <= GuessCell(x, y, rowStride) < |attacker|
    requires attacker[GuessCell(x, y, rowStride)] == MISS || attacker[GuessCell(x, y, rowStride)] == HIT
    ensures var r := Shot(attacker, defender, x, y, rowStride);
            Code(r.kind) == 0 && r.attacker == attacker && r.defender == defender
  {
    ShotCellsInGrid(attacker, defender, x, y, rowStride);
  }

  /** takeShot: player `p1` fires at (x, y) of its guessing block. The grids
      become those of `Shot`, the result is 1 for a miss or a hit and 0
      otherwise, and `running` turns false exactly when the shot is a hit
      after which no cell of any of `p2`'s ships holds SHIP. */
  method TakeShot(p1: Player, p2: Player, running: bool, x: int, y: int) returns (code: int, running': bool)
    requires p1.Valid() && p2.Valid() && p1.grid != p2.grid
    requires p1.sizeX == p2.sizeX && p1.sizeY == p2.sizeY
    modifies p1.grid, p2.grid
    ensures ShotBoards(old(p1.grid[..]), old(p2.grid[..]), p1.sizeY)
    ensures var r := Shot(old(p1.grid[..]), old(p2.grid[..]), x, y, p1.sizeY);
            code == Code(r.kind) && p1.grid[..] == r.attacker && p2.grid[..] == r.defender &&
            running' == (if r.kind == Hit && AllSunk(p2.grid[..], p2.ships[..]) then false else running)
  {
    ProductNonNegative(p1.sizeX - 11, p1.sizeY);
    assert p1.grid.Length == 11 * p1.sizeY + (p1.sizeX - 11) * p1.sizeY;
    running' := running;
    var S := p1.sizeY;
    if x < 11 && x > 0 && y < 22 && y > 11 {
      ShotCellsInGrid(p1.grid[..], p2.grid[..], x, y, S);
      if p1.grid[Index(x, y, S)] == MISS {
        return 0, running';
      }
      if p2.grid[Index(x, y - 11, S)] == EMPTY {
        p1.grid[Index(x, y, S)] := MISS;
        return 1, running';
      }
      if p2.grid[Index(x, y - 11, S)] == SHIP {
        p1.grid[Index(x, y, S)] := HIT;
        p2.grid[Index(x, y - 11, S)] := HIT;
        var over := CheckGameOver(p2);
        if over {
          running' := false;
        }
        return 1, running';
      }
    }
    return 0, running';
  }
}
