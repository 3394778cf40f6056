/** `Board`: the 10 x 10 grid of symbols a player sees and the ships placed
    on it, with attack resolution and the remaining-ship count. */
module SeaBoard {
  import opened Wrappers
  import opened SeaCoordinates
  import opened SeaShip

  /** Rows of symbols, indexed `grid[row][col]`. */
  type Grid = seq<seq<char>>

  predicate WellFormedGrid(g: Grid) {
    |g| == BOARD_SIZE && forall r :: 0 <= r < |g| ==> |g[r]| == BOARD_SIZE
  }

  datatype Board = Board(grid: Grid, ships: seq<Ship>)

  /** `new Board()`: all water, no ships. */
  function NewBoard(): (b: Board)
    ensures WellFormedGrid(b.grid) && b.ships == []
    ensures forall r, c :: IsValidCoordinate(r, c) ==> b.grid[r][c] == WATER
  {
    Board(seq(BOARD_SIZE, _ => seq(BOARD_SIZE, _ => WATER)), [])
  }

  /** `grid[row][col] = sym`, with row and column read by `parseInt` from the
      first two characters of a cell name. A NaN row reads `grid[NaN]`, which
      is `undefined`, and the write throws a TypeError (`None`); a NaN column
      only sets a non-index property of the row, leaving every cell alone. */
  function WriteCell(g: Grid, coord: string, sym: char): (r: Option<Grid>)
    requires WellFormedGrid(g)
    ensures r.None? <==> ParseDigitAt(coord, 0).None?
    ensures r.Some? ==> WellFormedGrid(r.value)
    ensures r.Some? ==> forall i, j :: IsValidCoordinate(i, j) ==>
      r.value[i][j] == if CellOf(coord) == Some(Coord(i, j)) then sym else g[i][j]
  {
    var row := ParseDigitAt(coord, 0);
    var col := ParseDigitAt(coord, 1);
    if row.None? then None
    else if col.None? then Some(g)
    else Some(g[row.value := g[row.value][col.value := sym]])
  }

  /** Some name in `locs` denotes cell `c`. */
  predicate Names(locs: seq<string>, c: Coord) {
    exists k :: 0 <= k < |locs| && CellOf(locs[k]) == Some(c)
  }

  /** Some name in `locs` has no digit for a row. */
  predicate SomeRowless(locs: seq<string>) {
    exists k :: 0 <= k < |locs| && ParseDigitAt(locs[k], 0).None?
  }

  /** Writes `sym` at every name of `locs` in order (`forEach`); the first
      name without a row digit throws. */
  function WriteCells(g: Grid, locs: seq<string>, sym: char): (r: Option<Grid>)
    requires WellFormedGrid(g)
    ensures r.None? <==> SomeRowless(locs)
    ensures r.Some? ==> WellFormedGrid(r.value)
    ensures r.Some? ==> forall i, j :: IsValidCoordinate(i, j) ==>
      r.value[i][j] == if Names(locs, Coord(i, j)) then sym else g[i][j]
    decreases |locs|
  {
    if |locs| == 0 then Some(g)
    else
      var first := WriteCell(g, locs[0], sym);
      if first.None? then None
      else
        var r := WriteCells(first.value, locs[1..], sym);
        assert forall k :: 0 < k < |locs| ==> locs[k] == locs[1..][k - 1];
        assert SomeRowless(locs[1..]) ==> SomeRowless(locs);
        assert r.None? ==> SomeRowless(locs);
        assert forall c: Coord :: Names(locs, c) <==> CellOf(locs[0]) == Some(c) || Names(locs[1..], c);
        r
  }

  /** `Board.placeShip`: the ship joins the board and, when shown, its cells
      read SHIP; a name without a row digit makes the drawing throw. */
  function PlaceShip(b: Board, ship: Ship, show: bool): (r: Option<Board>)
    requires WellFormedGrid(b.grid)
    ensures r.None? <==> show && SomeRowless(ship.locations)
    ensures r.Some? ==> r.value.ships == b.ships + [ship] && WellFormedGrid(r.value.grid)
    ensures r.Some? ==> forall i, j :: IsValidCoordinate(i, j) ==>
      r.value.grid[i][j] == if show && Names(ship.locations, Coord(i, j)) then SHIP else b.grid[i][j]
  {
    if !show then Some(b.(ships := b.ships + [ship]))
    else
      var g := WriteCells(b.grid, ship.locations, SHIP);
      if g.None? then None else Some(Board(g.value, b.ships + [ship]))
  }

  /** The index of the first ship occupying `coord`, or -1 (the `for ... of`
      loop with an early return). */
  function FirstShipAt(ships: seq<Ship>, coord: string): (k: int)
    ensures -1 <= k < |ships|
    ensures k >= 0 ==> HasLocation(ships[k], coord)
    ensures forall j :: 0 <= j < |ships| && (k < 0 || j < k) ==> !HasLocation(ships[j], coord)
  {
    if |ships| == 0 then -1
    else if HasLocation(ships[0], coord) then 0
    else
      var k := FirstShipAt(ships[1..], coord);
      if k < 0 then -1 else k + 1
  }

  /** The object `processAttack` returns. */
  datatype AttackResult = AttackResult(isHit: bool, isSunk: bool, wasAlreadyHit: bool)

  /** `Board.processAttack`: the first ship occupying the cell takes the hit
      and the cell reads HIT; with no ship there the cell reads MISS. Because
      `wasAlreadyHit` is read after the hit it equals `isHit`. `None` is the
      TypeError of a name without a row digit. */
  function ProcessAttack(b: Board, coord: string): (r: Option<(Board, AttackResult)>)
    requires WellFormedGrid(b.grid)
    ensures r.None? <==> ParseDigitAt(coord, 0).None?
    ensures r.Some? ==> WellFormedGrid(r.value.0.grid) && |r.value.0.ships| == |b.ships|
    ensures r.Some? ==> (r.value.1.isHit <==> exists k :: 0 <= k < |b.ships| && HasLocation(b.ships[k], coord))
    ensures r.Some? ==> r.value.1.wasAlreadyHit == r.value.1.isHit
    ensures r.Some? && !r.value.1.isHit ==> !r.value.1.isSunk && r.value.0.ships == b.ships
    ensures r.Some? && r.value.1.isHit ==>
      exists k :: 0 <= k < |b.ships| && HasLocation(b.ships[k], coord)
        && (forall j :: 0 <= j < k ==> !HasLocation(b.ships[j], coord))
        && r.value.0.ships == b.ships[k := Hit(b.ships[k], coord).0]
        && r.value.1.isSunk == IsSunk(r.value.0.ships[k])
    ensures r.Some? ==> forall i, j :: IsValidCoordinate(i, j) ==>
      r.value.0.grid[i][j] ==
        if CellOf(coord) == Some(Coord(i, j)) then (if r.value.1.isHit then HIT else MISS) else b.grid[i][j]
  {
    var k := FirstShipAt(b.ships, coord);
    if k >= 0 then
      var ship := Hit(b.ships[k], coord).0;
      var g := WriteCell(b.grid, coord, HIT);
      if g.None? then None
      else Some((Board(g.value, b.ships[k := ship]), AttackResult(true, IsSunk(ship), IsHit(ship, coord))))
    else
      var g := WriteCell(b.grid, coord, MISS);
      if g.None? then None
      else Some((Board(g.value, b.ships), AttackResult(false, false, false)))
  }

  /** How many of `ships` are still afloat. */
  function CountUnsunk(ships: seq<Ship>): nat {
    if |ships| == 0 then 0 else (if IsSunk(ships[0]) then 0 else 1) + CountUnsunk(ships[1..])
  }

  /** `Board.getRemainingShips`: none remain exactly when every ship is sunk,
      and all remain exactly when none is. */
  function GetRemainingShips(b: Board): (n: nat)
    ensures n <= |b.ships|
    ensures n == 0 <==> forall k :: 0 <= k < |b.ships| ==> IsSunk(b.ships[k])
    ensures n == |b.ships| <==> forall k :: 0 <= k < |b.ships| ==> !IsSunk(b.ships[k])
  {
    NoShipsRemainIffAllSunk(b.ships);
    CountUnsunk(b.ships)
  }

  /** No ships remain exactly when every ship is sunk: the game-over test. */
  lemma {:induction false} NoShipsRemainIffAllSunk(ships: seq<Ship>)
    ensures CountUnsunk(ships) == 0 <==> forall k :: 0 <= k < |ships| ==> IsSunk(ships[k])
    ensures CountUnsunk(ships) <= |ships|
    ensures CountUnsunk(ships) == |ships| <==> forall k :: 0 <= k < |ships| ==> !IsSunk(ships[k])
  {
    if |ships| > 0 {
      NoShipsRemainIffAllSunk(ships[1..]);
      assert forall k :: 0 < k < |ships| ==> ships[k] == ships[1..][k - 1];
    }
  }

  /** Replacing one ship changes the count only by that ship's change. */
  lemma {:induction false} CountUnsunkUpdate(ships: seq<Ship>, k: int, s: Ship)
    requires 0 <= k < |ships|
    ensures CountUnsunk(ships[k := s]) + (if IsSunk(s) then 1 else 0) ==
      CountUnsunk(ships) + (if IsSunk(ships[k]) then 1 else 0)
  {
    if k > 0 {
      CountUnsunkUpdate(ships[1..], k - 1, s);
      assert ships[k := s][1..] == ships[1..][k - 1 := s];
    } else {
      assert ships[k := s][1..] == ships[1..];
    }
  }

  /** Hitting one ship can only sink it, never refloat it. */
  lemma HitShipCount(ships: seq<Ship>, k: int, coord: string)
    requires 0 <= k < |ships|
    ensures var after := ships[k := Hit(ships[k], coord).0];
      CountUnsunk(after) <= CountUnsunk(ships) <= CountUnsunk(after) + 1
      && (CountUnsunk(after) < CountUnsunk(ships) <==> !IsSunk(ships[k]) && IsSunk(after[k]))
  {
    CountUnsunkUpdate(ships, k, Hit(ships[k], coord).0);
    if IsSunk(ships[k]) {
      SunkStaysSunk(ships[k], coord);
    }
  }

  /** An attack never raises the number of ships afloat; it lowers it by at
      most one, and exactly when it sinks a ship that was afloat, which the
      result then reports as sunk. */
  lemma AttackRemainingShips(b: Board, coord: string)
    requires WellFormedGrid(b.grid)
    requires ProcessAttack(b, coord).Some?
    ensures var (b1, res) := ProcessAttack(b, coord).value;
      GetRemainingShips(b1) <= GetRemainingShips(b) <= GetRemainingShips(b1) + 1
      && (GetRemainingShips(b1) < GetRemainingShips(b) <==>
            exists k :: 0 <= k < |b.ships| && !IsSunk(b.ships[k]) && IsSunk(b1.ships[k]))
      && (GetRemainingShips(b1) < GetRemainingShips(b) ==> res.isSunk)
  {
    var (b1, res) := ProcessAttack(b, coord).value;
    if res.isHit {
      var k := FirstShipAt(b.ships, coord);
      HitShipCount(b.ships, k, coord);
    }
  }

  /** `Board.getCell`: the symbol at a board cell; reading off the board
      gives no symbol (`undefined`, or a TypeError for a missing row). */
  function GetCell(b: Board, row: int, col: int): (r: Option<char>)
    requires WellFormedGrid(b.grid)
    ensures r.Some? <==> IsValidCoordinate(row, col)
  {
    if IsValidCoordinate(row, col) then Some(b.grid[row][col]) else None
  }

  /** A new board reads water everywhere. */
  lemma NewBoardIsWater(row: int, col: int)
    requires IsValidCoordinate(row, col)
    ensures GetCell(NewBoard(), row, col) == Some(WATER)
  {
  }

  /** A shown ship's cells read SHIP; a hidden ship leaves the grid as it was. */
  lemma PlaceShipShows(b: Board, ship: Ship, show: bool, k: int)
    requires WellFormedGrid(b.grid) && PlaceShip(b, ship, show).Some?
    requires 0 <= k < |ship.locations| && CellOf(ship.locations[k]).Some?
    ensures var c := CellOf(ship.locations[k]).value;
      GetCell(PlaceShip(b, ship, show).value, c.row, c.col) == if show then Some(SHIP) else GetCell(b, c.row, c.col)
  {
  }

  /** After an attack on a cell the cell reads HIT or MISS as reported. */
  lemma AttackMarksCell(b: Board, coord: string)
    requires WellFormedGrid(b.grid) && ProcessAttack(b, coord).Some? && CellOf(coord).Some?
    ensures var (b1, res) := ProcessAttack(b, coord).value;
      var c := CellOf(coord).value;
      GetCell(b1, c.row, c.col) == Some(if res.isHit then HIT else MISS)
  {
  }
}
