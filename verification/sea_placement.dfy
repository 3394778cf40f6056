/** `Board.createRandomShip`, one draw at a time: the cells a drawn
    placement covers, the test that decides whether the ship may go there,
    and what happens to the game when that test lets two ships share a cell.
    The test as written looks only at the grid, which a hidden board never
    marks, so on the CPU's board ships can overlap; the corrected test also
    consults the ships already placed. */
module SeaPlacement {
  import opened Wrappers
  import opened Seqs
  import opened SeaCoordinates
  import opened SeaShip
  import opened SeaBoard

  /** One pass of the `while (!placed)` loop draws an orientation and a
      start cell; `Math.random` is left out, so the draw is a parameter. */
  datatype Placement = Placement(horizontal: bool, startRow: int, startCol: int)

  /** The ranges `getRandomInt` draws the start cell from. */
  predicate InRange(p: Placement) {
    if p.horizontal then 0 <= p.startRow < BOARD_SIZE && 0 <= p.startCol < BOARD_SIZE - SHIP_LENGTH + 1
    else 0 <= p.startRow < BOARD_SIZE - SHIP_LENGTH + 1 && 0 <= p.startCol < BOARD_SIZE
  }

  /** The SHIP_LENGTH cells a placement covers, from its start cell rightwards
      or downwards; a drawn placement stays on the board. */
  function Cells(p: Placement): (r: seq<Coord>)
    ensures |r| == SHIP_LENGTH
    ensures InRange(p) ==> forall i :: 0 <= i < |r| ==> IsOnBoard(r[i])
  {
    seq(SHIP_LENGTH, i =>
      if p.horizontal then Coord(p.startRow, p.startCol + i) else Coord(p.startRow + i, p.startCol))
  }

  /** `tempLocations.forEach(({ row, col }) => ship.addLocation(row, col))`. */
  function AddLocations(s: Ship, cells: seq<Coord>): (r: Ship)
    ensures r.locations == s.locations + CellNames(cells) && r.hits == s.hits
    decreases |cells|
  {
    if |cells| == 0 then s
    else
      var s1 := AddLocation(s, cells[0].row, cells[0].col);
      AddFirstLocation(s, cells);
      AddLocations(s1, cells[1..])
  }

  /** Adding the first cell and then the names of the rest adds the names
      of all the cells. */
  lemma AddFirstLocation(s: Ship, cells: seq<Coord>)
    requires |cells| > 0
    ensures AddLocation(s, cells[0].row, cells[0].col).locations + CellNames(cells[1..])
      == s.locations + CellNames(cells)
  {
    CellNamesCons(cells);
    AppendAssoc(s.locations, CellName(cells[0]), CellNames(cells[1..]));
  }

  lemma AppendAssoc<T>(a: seq<T>, x: T, b: seq<T>)
    ensures (a + [x]) + b == a + ([x] + b)
  {
  }

  lemma CellNamesCons(cells: seq<Coord>)
    requires |cells| > 0
    ensures CellNames(cells) == [CellName(cells[0])] + CellNames(cells[1..])
  {
    var a := CellNames(cells);
    var b := [CellName(cells[0])] + CellNames(cells[1..]);
    assert |a| == |b|;
    forall k | 0 <= k < |a|
      ensures a[k] == b[k]
    {
      if k > 0 {
        assert b[k] == CellNames(cells[1..])[k - 1] == CellName(cells[1..][k - 1]);
      }
    }
  }

  /** The ship a successful draw builds. */
  function ShipOf(p: Placement): Ship {
    AddLocations(NewShip(), Cells(p))
  }

  /** The test at line 116 as written: every covered cell reads WATER. */
  predicate GridClear(g: Grid, cells: seq<Coord>)
    requires WellFormedGrid(g)
  {
    forall i :: 0 <= i < |cells| ==> ReadsWater(g, cells[i])
  }

  /** A board cell that reads WATER. */
  predicate ReadsWater(g: Grid, c: Coord)
    requires WellFormedGrid(g)
  {
    IsOnBoard(c) && g[c.row][c.col] == WATER
  }

  /** One pass of the loop as written: the ship when the grid test passes,
      `None` when the loop must draw again. */
  function TryPlaceAsWritten(b: Board, p: Placement): (r: Option<Ship>)
    requires WellFormedGrid(b.grid) && InRange(p)
    ensures r.Some? <==> GridClear(b.grid, Cells(p))
    ensures r.Some? ==> r.value.locations == CellNames(Cells(p)) && r.value.hits == NewShip().hits
  {
    if GridClear(b.grid, Cells(p)) then Some(ShipOf(p)) else None
  }

  /** No ship placed so far occupies any of `cells`. */
  predicate Unoccupied(ships: seq<Ship>, cells: seq<Coord>) {
    forall k, i :: 0 <= k < |ships| && 0 <= i < |cells| ==> !HasLocation(ships[k], CellName(cells[i]))
  }

  /** One pass of the loop with the test corrected: the covered cells must
      read WATER and must not belong to a ship already placed, shown or not. */
  function TryPlace(b: Board, p: Placement): (r: Option<Ship>)
    requires WellFormedGrid(b.grid) && InRange(p)
    ensures r.Some? <==> GridClear(b.grid, Cells(p)) && Unoccupied(b.ships, Cells(p))
    ensures r.Some? ==> r.value.locations == CellNames(Cells(p)) && r.value.hits == NewShip().hits
  {
    if GridClear(b.grid, Cells(p)) && Unoccupied(b.ships, Cells(p)) then Some(ShipOf(p)) else None
  }

  /** No cell belongs to two ships. */
  predicate Disjoint(ships: seq<Ship>) {
    forall i, j, x :: 0 <= i < j < |ships| && x in ships[i].locations ==> x !in ships[j].locations
  }

  /** The cells of a drawn ship are named by two digits, so placing it, shown
      or not, never throws. */
  lemma ShipOfPlaces(b: Board, p: Placement, show: bool)
    requires WellFormedGrid(b.grid) && InRange(p)
    ensures PlaceShip(b, ShipOf(p), show).Some?
  {
    var cells := Cells(p);
    var locs := ShipOf(p).locations;
    forall k | 0 <= k < |locs|
      ensures ParseDigitAt(locs[k], 0).Some?
    {
      CellNameIsTwoDigits(cells[k]);
    }
  }

  /** The corrected test keeps the ships of a board pairwise disjoint. */
  lemma TryPlaceKeepsDisjoint(b: Board, p: Placement, show: bool)
    requires WellFormedGrid(b.grid) && InRange(p) && Disjoint(b.ships)
    requires TryPlace(b, p).Some?
    ensures PlaceShip(b, TryPlace(b, p).value, show).Some?
    ensures Disjoint(PlaceShip(b, TryPlace(b, p).value, show).value.ships)
  {
    ShipOfPlaces(b, p, show);
    AppendUnoccupied(b.ships, ShipOf(p), Cells(p));
  }

  /** A ship on unoccupied cells joins a disjoint fleet without overlap. */
  lemma AppendUnoccupied(ships: seq<Ship>, s: Ship, cells: seq<Coord>)
    requires Disjoint(ships) && Unoccupied(ships, cells) && s.locations == CellNames(cells)
    ensures Disjoint(ships + [s])
  {
    var all := ships + [s];
    forall i, j, x | 0 <= i < j < |all| && x in all[i].locations
      ensures x !in all[j].locations
    {
      if j == |ships| {
        forall m | 0 <= m < |cells|
          ensures s.locations[m] != x
        {
          assert !HasLocation(ships[i], CellName(cells[m]));
        }
      }
    }
  }

  /** The first placement on an empty board, one of the draws the loop can
      make. */
  const FIRST: Placement := Placement(true, 0, 0)

  /** The test as written lets a ship go exactly where a hidden ship already
      is: after the first ship is placed unseen, the same draw passes the
      grid test again and the two ships share every cell. The corrected test
      refuses it. */
  lemma HiddenBoardAllowsOverlap()
    ensures var b1 := PlaceShip(NewBoard(), ShipOf(FIRST), false).value;
      TryPlaceAsWritten(b1, FIRST) == Some(ShipOf(FIRST))
      && !Disjoint(PlaceShip(b1, ShipOf(FIRST), false).value.ships)
      && TryPlace(b1, FIRST).None?
  {
    var s := ShipOf(FIRST);
    var b1 := PlaceShip(NewBoard(), s, false).value;
    assert b1.grid == NewBoard().grid;
    var ships := PlaceShip(b1, s, false).value.ships;
    TwinShipsOverlap(ships, s);
    assert HasLocation(b1.ships[0], CellName(Cells(FIRST)[0]));
  }

  /** Two copies of a ship with a cell are not disjoint. */
  lemma TwinShipsOverlap(ships: seq<Ship>, s: Ship)
    requires ships == [s, s] && |s.locations| > 0
    ensures !Disjoint(ships)
  {
    assert s.locations[0] in ships[0].locations && s.locations[0] in ships[1].locations;
  }

  // ---------------------------------------------------------------------
  // What an overlap does to the game
  // ---------------------------------------------------------------------

  /** Cell `x` of ship `j` also belongs to an earlier ship, and ship `j`'s
      flag for it is down. */
  predicate Shadowed(ships: seq<Ship>, j: int, x: string) {
    0 <= j < |ships| && x in ships[j].locations
    && (exists i :: 0 <= i < j && x in ships[i].locations)
    && var m := IndexOf(ships[j].locations, x);
       0 <= m < |ships[j].hits| && ships[j].hits[m] == Some(false)
  }

  /** An attack never moves a ship's cells. */
  lemma AttackKeepsLocations(b: Board, coord: string, k: int)
    requires WellFormedGrid(b.grid) && ProcessAttack(b, coord).Some? && 0 <= k < |b.ships|
    ensures ProcessAttack(b, coord).value.0.ships[k].locations == b.ships[k].locations
  {
  }

  /** An attack cannot raise a shadowed flag: the shared cell always hits the
      earlier ship, and a hit on any other cell of ship `j` raises another
      flag. */
  lemma AttackKeepsShadow(b: Board, coord: string, j: int, x: string)
    requires WellFormedGrid(b.grid) && ProcessAttack(b, coord).Some? && Shadowed(b.ships, j, x)
    ensures Shadowed(ProcessAttack(b, coord).value.0.ships, j, x)
  {
    var (b1, res) := ProcessAttack(b, coord).value;
    var i :| 0 <= i < j && x in b.ships[i].locations;
    AttackKeepsLocations(b, coord, i);
    AttackKeepsLocations(b, coord, j);
    if res.isHit {
      var k := FirstShipAt(b.ships, coord);
      if k == j {
        var s := b.ships[j];
        IndexOfFinds(s.locations, coord);
        IndexOfFinds(s.locations, x);
        assert coord != x;
        assert IndexOf(s.locations, coord) != IndexOf(s.locations, x);
      }
    }
  }

  /** Attacks one cell after another, as the turns of a game do; `None` when
      an attack throws. */
  function AttackAll(b: Board, coords: seq<string>): (r: Option<Board>)
    requires WellFormedGrid(b.grid)
    ensures r.Some? ==> WellFormedGrid(r.value.grid)
    decreases |coords|
  {
    if |coords| == 0 then Some(b)
    else
      var a := ProcessAttack(b, coords[0]);
      if a.None? then None else AttackAll(a.value.0, coords[1..])
  }

  /** A ship with a shadowed cell is never sunk, however many attacks follow,
      so at least one ship always remains and the board can never be
      cleared. */
  lemma {:induction false} ShadowedShipNeverSinks(b: Board, coords: seq<string>, j: int, x: string)
    requires WellFormedGrid(b.grid) && Shadowed(b.ships, j, x) && AttackAll(b, coords).Some?
    ensures var b1 := AttackAll(b, coords).value;
      Shadowed(b1.ships, j, x) && !IsSunk(b1.ships[j]) && GetRemainingShips(b1) >= 1
    decreases |coords|
  {
    if |coords| > 0 {
      AttackKeepsShadow(b, coords[0], j, x);
      ShadowedShipNeverSinks(ProcessAttack(b, coords[0]).value.0, coords[1..], j, x);
    } else {
      NoShipsRemainIffAllSunk(b.ships);
    }
  }

  /** The overlap of `HiddenBoardAllowsOverlap` leaves the second ship with
      every cell shadowed. */
  lemma OverlapShadowsSecondShip()
    ensures var b1 := PlaceShip(NewBoard(), ShipOf(FIRST), false).value;
      var b2 := PlaceShip(b1, ShipOf(FIRST), false).value;
      forall m :: 0 <= m < |b2.ships[1].locations| ==> Shadowed(b2.ships, 1, b2.ships[1].locations[m])
  {
    var s := ShipOf(FIRST);
    var b2 := PlaceShip(PlaceShip(NewBoard(), s, false).value, s, false).value;
    assert b2.ships == [s, s];
    forall m | 0 <= m < |s.locations|
      ensures Shadowed(b2.ships, 1, s.locations[m])
    {
      var x := s.locations[m];
      assert x in b2.ships[0].locations;
      var n := IndexOf(s.locations, x);
      assert 0 <= n < SHIP_LENGTH;
    }
  }
}
