/** Sea Battle configuration and the coordinate helpers of `Utils`: the
    bounds check, reading a two-character guess, writing a cell as its
    two-digit name and listing the orthogonal neighbours of a cell. */
module SeaCoordinates {
  import opened Wrappers
  import opened Text

  const BOARD_SIZE: int := 10
  const NUM_SHIPS: int := 3
  const SHIP_LENGTH: int := 3

  const WATER: char := '~'
  const SHIP: char := 'S'
  const HIT: char := 'X'
  const MISS: char := 'O'

  /** A cell on the board; coordinates may lie outside it. */
  datatype Coord = Coord(row: int, col: int)

  /** `Utils.isValidCoordinate`. */
  predicate IsValidCoordinate(row: int, col: int) {
    0 <= row < BOARD_SIZE && 0 <= col < BOARD_SIZE
  }

  predicate IsOnBoard(c: Coord) {
    IsValidCoordinate(c.row, c.col)
  }

  /** `parseInt` applied to one character: its digit value, or `None` for
      NaN (a sign or a blank alone has no digits either). */
  function ParseDigit(c: char): (r: Option<int>)
    ensures r.Some? <==> IsDigit(c)
    ensures r.Some? ==> 0 <= r.value < 10 && DigitChar(r.value) == c
  {
    if IsDigit(c) then Some(DigitValue(c)) else None
  }

  /** `parseInt(s[i])`: reading past the end gives `undefined`, which parses
      as NaN. */
  function ParseDigitAt(s: string, i: nat): (r: Option<int>)
    ensures r.Some? <==> i < |s| && IsDigit(s[i])
    ensures r.Some? ==> 0 <= r.value < 10
  {
    if i < |s| then ParseDigit(s[i]) else None
  }

  /** The cell a coordinate string names, when both of its first two
      characters are digits. */
  function CellOf(s: string): (r: Option<Coord>)
    ensures r.Some? <==> ParseDigitAt(s, 0).Some? && ParseDigitAt(s, 1).Some?
    ensures r.Some? ==> IsOnBoard(r.value)
    ensures r.Some? ==> r.value == Coord(ParseDigitAt(s, 0).value, ParseDigitAt(s, 1).value)
  {
    var row := ParseDigitAt(s, 0);
    var col := ParseDigitAt(s, 1);
    if row.Some? && col.Some? then Some(Coord(row.value, col.value)) else None
  }

  /** The object `parseCoordinate` builds; `None` in a field is NaN. */
  datatype ParsedCoordinate = ParsedCoordinate(row: Option<int>, col: Option<int>, isValid: bool)

  /** `Utils.parseCoordinate`: `None` for a missing (null or empty) input or
      one whose length is not 2; otherwise both characters parsed, valid iff
      both are digits. */
  function ParseCoordinate(input: Option<string>): (r: Option<ParsedCoordinate>)
    ensures r.None? <==> input.None? || |input.value| != 2
    ensures r.Some? ==> r.value.row == ParseDigit(input.value[0]) && r.value.col == ParseDigit(input.value[1])
    ensures r.Some? ==> (r.value.isValid <==> IsDigit(input.value[0]) && IsDigit(input.value[1]))
  {
    if input.None? || |input.value| == 0 || |input.value| != 2 then None
    else
      var s := input.value;
      var row := ParseDigit(s[0]);
      var col := ParseDigit(s[1]);
      Some(ParsedCoordinate(row, col, row.Some? && col.Some? && IsValidCoordinate(row.value, col.value)))
  }

  /** `Utils.coordinateToString`: the row's decimal text followed by the
      column's. */
  function CoordinateToString(row: int, col: int): (s: string)
    ensures IsValidCoordinate(row, col) ==> s == [DigitChar(row), DigitChar(col)]
  {
    IntToString(row) + IntToString(col)
  }

  function CellName(c: Coord): string {
    CoordinateToString(c.row, c.col)
  }

  /** The names of `cells`, in order. */
  function CellNames(cells: seq<Coord>): (r: seq<string>)
    ensures |r| == |cells| && forall k :: 0 <= k < |cells| ==> r[k] == CellName(cells[k])
  {
    seq(|cells|, k requires 0 <= k < |cells| => CellName(cells[k]))
  }

  /** A string of exactly two digits, the form every board cell is named by. */
  predicate IsCellName(s: string) {
    |s| == 2 && IsDigit(s[0]) && IsDigit(s[1])
  }

  /** Every cell on the board is named by two digits. */
  lemma CellNameIsTwoDigits(c: Coord)
    requires IsOnBoard(c)
    ensures IsCellName(CellName(c))
    ensures CellOf(CellName(c)) == Some(c)
  {
  }

  /** Formatting a cell and parsing the text back gives the cell, marked valid. */
  lemma ParseCoordinateOfString(row: int, col: int)
    requires IsValidCoordinate(row, col)
    ensures ParseCoordinate(Some(CoordinateToString(row, col))) == Some(ParsedCoordinate(Some(row), Some(col), true))
  {
  }

  /** A valid parse formats back to the very text that was typed. */
  lemma CoordinateStringOfParse(s: string)
    requires ParseCoordinate(Some(s)).Some? && ParseCoordinate(Some(s)).value.isValid
    ensures var p := ParseCoordinate(Some(s)).value;
      CoordinateToString(p.row.value, p.col.value) == s
  {
    var p := ParseCoordinate(Some(s)).value;
    assert CoordinateToString(p.row.value, p.col.value) == [s[0], s[1]];
  }

  /** Distinct cells have distinct names, so names can stand for cells in
      the guess lists and ship locations. */
  lemma CellNameInjective(a: Coord, b: Coord)
    requires IsOnBoard(a) && IsOnBoard(b)
    ensures CellName(a) == CellName(b) <==> a == b
  {
    if CellName(a) == CellName(b) {
      assert CellOf(CellName(a)) == Some(a);
      assert CellOf(CellName(b)) == Some(b);
    }
  }

  function Abs(n: int): nat {
    if n < 0 then -n else n
  }

  /** The four orthogonal neighbours in the order the source lists them:
      up, down, left, right. */
  function Neighbours(row: int, col: int): seq<Coord> {
    [Coord(row - 1, col), Coord(row + 1, col), Coord(row, col - 1), Coord(row, col + 1)]
  }

  /** The cells of `cs` that lie on the board, in their original order
      (`Array.prototype.filter`). */
  function OnBoardOnly(cs: seq<Coord>): seq<Coord> {
    if |cs| == 0 then []
    else if IsOnBoard(cs[0]) then [cs[0]] + OnBoardOnly(cs[1..])
    else OnBoardOnly(cs[1..])
  }

  /** The filter keeps exactly the cells on the board. */
  lemma {:induction false} OnBoardOnlyMembers(cs: seq<Coord>)
    ensures forall c :: c in OnBoardOnly(cs) <==> c in cs && IsOnBoard(c)
  {
    if |cs| > 0 {
      OnBoardOnlyMembers(cs[1..]);
      assert cs == [cs[0]] + cs[1..];
    }
  }

  /** `Utils.getAdjacentCoordinates`: exactly the board cells one step away
      from (row, col) horizontally or vertically. */
  function AdjacentCoordinates(row: int, col: int): (r: seq<Coord>)
    ensures forall c :: c in r <==> IsOnBoard(c) && Abs(c.row - row) + Abs(c.col - col) == 1
  {
    OnBoardOnlyMembers(Neighbours(row, col));
    var r := OnBoardOnly(Neighbours(row, col));
    assert forall c: Coord :: Abs(c.row - row) + Abs(c.col - col) == 1 ==> c in Neighbours(row, col);
    r
  }

  /** Four neighbours inside the board, three along an edge, two in a corner. */
  lemma AdjacentCount(row: int, col: int)
    requires IsValidCoordinate(row, col)
    ensures |AdjacentCoordinates(row, col)| ==
      4 - (if row == 0 || row == BOARD_SIZE - 1 then 1 else 0) - (if col == 0 || col == BOARD_SIZE - 1 then 1 else 0)
  {
    NeighboursOnBoardCount(row, col);
  }

  lemma NeighboursOnBoardCount(row: int, col: int)
    requires IsValidCoordinate(row, col)
    ensures |OnBoardOnly(Neighbours(row, col))| ==
      4 - (if row == 0 || row == BOARD_SIZE - 1 then 1 else 0) - (if col == 0 || col == BOARD_SIZE - 1 then 1 else 0)
  {
    var n := Neighbours(row, col);
    OnBoardOnlyCons(n[3], []);
    OnBoardOnlyCons(n[2], [n[3]]);
    OnBoardOnlyCons(n[1], n[2..]);
    OnBoardOnlyCons(n[0], n[1..]);
    assert [n[3]] + [] == n[3..] && [n[2]] + n[3..] == n[2..] && [n[1]] + n[2..] == n[1..] && [n[0]] + n[1..] == n;
  }

  lemma OnBoardOnlyCons(c: Coord, cs: seq<Coord>)
    ensures |OnBoardOnly([c] + cs)| == (if IsOnBoard(c) then 1 else 0) + |OnBoardOnly(cs)|
  {
    assert ([c] + cs)[1..] == cs;
  }

  /** No neighbour is listed twice. */
  lemma AdjacentDistinct(row: int, col: int)
    ensures forall i, j :: 0 <= i < j < |AdjacentCoordinates(row, col)| ==>
      AdjacentCoordinates(row, col)[i] != AdjacentCoordinates(row, col)[j]
  {
    OnBoardOnlyKeepsDistinct(Neighbours(row, col));
  }

  lemma {:induction false} OnBoardOnlyKeepsDistinct(cs: seq<Coord>)
    requires forall i, j :: 0 <= i < j < |cs| ==> cs[i] != cs[j]
    ensures forall i, j :: 0 <= i < j < |OnBoardOnly(cs)| ==> OnBoardOnly(cs)[i] != OnBoardOnly(cs)[j]
  {
    if |cs| > 0 {
      OnBoardOnlyKeepsDistinct(cs[1..]);
      if IsOnBoard(cs[0]) {
        assert cs[0] !in cs[1..];
        OnBoardOnlyMembers(cs[1..]);
      }
    }
  }
}
