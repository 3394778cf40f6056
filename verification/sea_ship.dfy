/** `Ship`: the cells a ship occupies and which of them have been hit. */
module SeaShip {
  import opened Wrappers
  import opened Seqs
  import opened SeaCoordinates

  /** `locations` holds cell names in the order they were added; `hits`
      holds one flag per location slot. The flags start as SHIP_LENGTH
      `false`s, and a flag written past the end of the array (a ship given
      more than SHIP_LENGTH locations) leaves holes, written `None`. */
  datatype Ship = Ship(locations: seq<string>, hits: seq<Option<bool>>)

  /** `new Ship()`: no locations, SHIP_LENGTH flags all down. */
  function NewShip(): (s: Ship)
    ensures s.locations == [] && |s.hits| == SHIP_LENGTH
    ensures forall i :: 0 <= i < |s.hits| ==> s.hits[i] == Some(false)
  {
    Ship([], seq(SHIP_LENGTH, _ => Some(false)))
  }

  /** `Ship.addLocation`: appends the cell's name. The ship then holds that
      cell, and every cell it held before keeps its slot, so its flag is
      unaffected. */
  function AddLocation(s: Ship, row: int, col: int): (r: Ship)
    ensures r.hits == s.hits && |r.locations| == |s.locations| + 1
    ensures HasLocation(r, CoordinateToString(row, col))
  {
    var r := s.(locations := s.locations + [CoordinateToString(row, col)]);
    assert r.locations[|s.locations|] == CoordinateToString(row, col);
    r
  }

  /** Adding a location never moves a cell the ship already holds, so the
      flag `isHit` reads for it is the same one. */
  lemma AddLocationKeepsSlots(s: Ship, row: int, col: int, c: string)
    requires HasLocation(s, c)
    ensures IndexOf(AddLocation(s, row, col).locations, c) == IndexOf(s.locations, c)
    ensures IsHit(AddLocation(s, row, col), c) == IsHit(s, c)
  {
    IndexOfAppend(s.locations, [CoordinateToString(row, col)]);
  }

  /** A name found in `a` is found at the same place in `a + b`. */
  lemma {:induction false} IndexOfAppend(a: seq<string>, b: seq<string>)
    ensures forall c :: c in a ==> IndexOf(a + b, c) == IndexOf(a, c)
  {
    if |a| > 0 {
      IndexOfAppend(a[1..], b);
      assert (a + b)[1..] == a[1..] + b;
    }
  }

  /** `Ship.hasLocation` (`includes`). */
  predicate HasLocation(s: Ship, coord: string) {
    coord in s.locations
  }

  /** `Ship.isHit`: the flag of the first slot holding `coord` is up. A slot
      past the array's end or a hole reads `undefined`, which is false. */
  predicate IsHit(s: Ship, coord: string) {
    var i := IndexOf(s.locations, coord);
    0 <= i < |s.hits| && s.hits[i] == Some(true)
  }

  /** `hits[i] = true` on a JavaScript array: inside the array the flag is
      overwritten; past its end the array grows to i + 1 with holes between. */
  function SetFlag(hits: seq<Option<bool>>, i: nat): (r: seq<Option<bool>>)
    ensures |r| == if i < |hits| then |hits| else i + 1
    ensures r[i] == Some(true)
    ensures forall j :: 0 <= j < |hits| && j != i ==> r[j] == hits[j]
    ensures forall j :: |hits| <= j < i ==> r[j] == None
  {
    if i < |hits| then hits[i := Some(true)]
    else hits + seq(i - |hits|, _ => None) + [Some(true)]
  }

  /** `Ship.hit`: reports whether the ship occupies `coord` and, if so, raises
      the flag of the first slot holding it; no other flag moves. */
  function Hit(s: Ship, coord: string): (r: (Ship, bool))
    ensures r.1 <==> HasLocation(s, coord)
    ensures r.0.locations == s.locations
    ensures |r.0.hits| >= |s.hits|
    ensures r.1 ==> IsHit(r.0, coord)
    ensures !r.1 ==> r.0 == s
    ensures forall j :: 0 <= j < |s.hits| && (j >= |s.locations| || s.locations[j] != coord) ==>
      r.0.hits[j] == s.hits[j]
    ensures forall j :: 0 <= j < |s.hits| && s.hits[j] == Some(true) ==> r.0.hits[j] == Some(true)
  {
    IndexOfFinds(s.locations, coord);
    var i := IndexOf(s.locations, coord);
    if i != -1 then (s.(hits := SetFlag(s.hits, i)), true) else (s, false)
  }

  /** `Ship.isSunk` (`every`, which skips holes): no flag is down. */
  predicate IsSunk(s: Ship) {
    forall i :: 0 <= i < |s.hits| ==> s.hits[i] != Some(false)
  }

  /** `hasLocation` (`includes`) holds exactly when the `indexOf` search
      that `hit` and `isHit` use finds the cell. */
  lemma HasLocationIffFound(s: Ship, coord: string)
    ensures HasLocation(s, coord) <==> IndexOf(s.locations, coord) != -1
  {
    IndexOfFinds(s.locations, coord);
  }

  /** Only a cell the ship holds can read as hit, and on a ship whose flags
      are all down no cell does. */
  lemma IsHitOnlyHeldCells(s: Ship, coord: string)
    ensures IsHit(s, coord) ==> HasLocation(s, coord)
    ensures (forall i :: 0 <= i < |s.hits| ==> s.hits[i] == Some(false)) ==> !IsHit(s, coord)
  {
    IndexOfFinds(s.locations, coord);
  }

  /** The shape every ship built by the game has: SHIP_LENGTH flags with no
      holes and no more locations than flags. */
  predicate WellFormed(s: Ship) {
    |s.locations| <= SHIP_LENGTH && |s.hits| == SHIP_LENGTH && forall i :: 0 <= i < |s.hits| ==> s.hits[i].Some?
  }

  /** A hit on a well-formed ship stays inside its flag array. */
  lemma HitKeepsWellFormed(s: Ship, coord: string)
    requires WellFormed(s)
    ensures WellFormed(Hit(s, coord).0)
  {
  }

  /** Once sunk, further hits leave a ship sunk. */
  lemma SunkStaysSunk(s: Ship, coord: string)
    requires IsSunk(s)
    ensures IsSunk(Hit(s, coord).0)
  {
  }

  /** A hit never lowers the mark of another cell. */
  lemma HitKeepsHits(s: Ship, coord: string, other: string)
    requires IsHit(s, other)
    ensures IsHit(Hit(s, coord).0, other)
  {
  }

  /** Hitting the same cell twice is the same as hitting it once. */
  lemma HitIdempotent(s: Ship, coord: string)
    ensures Hit(Hit(s, coord).0, coord) == Hit(s, coord)
  {
    var s1 := Hit(s, coord).0;
    if HasLocation(s, coord) {
      var i := IndexOf(s.locations, coord);
      assert SetFlag(s1.hits, i) == s1.hits;
    }
  }

  /** In a distinct list the first occurrence of an element is where it is. */
  lemma IndexOfDistinct(s: seq<string>, k: int)
    requires NoDuplicates(s) && 0 <= k < |s|
    ensures IndexOf(s, s[k]) == k
  {
  }

  /** A full ship (SHIP_LENGTH distinct cells) is sunk exactly when every one
      of its cells has been hit. */
  lemma SunkIffEveryLocationHit(s: Ship)
    requires WellFormed(s) && |s.locations| == SHIP_LENGTH && NoDuplicates(s.locations)
    ensures IsSunk(s) <==> forall k :: 0 <= k < |s.locations| ==> IsHit(s, s.locations[k])
  {
    forall k | 0 <= k < |s.locations|
      ensures IsHit(s, s.locations[k]) <==> s.hits[k] != Some(false)
    {
      IndexOfDistinct(s.locations, k);
      assert k < |s.hits|;
      assert s.hits[k].Some?;
      if s.hits[k].value {
        assert s.hits[k] == Some(true);
      } else {
        assert s.hits[k] == Some(false);
      }
    }
  }

  /** Hitting each of `cells` in turn. */
  function HitEach(s: Ship, cells: seq<string>): (r: Ship)
    ensures r.locations == s.locations
    decreases |cells|
  {
    if |cells| == 0 then s else Hit(HitEach(s, cells[..|cells| - 1]), cells[|cells| - 1]).0
  }

  /** A run of hits keeps a ship's shape. */
  lemma {:induction false} HitEachKeepsShape(s: Ship, cells: seq<string>)
    requires WellFormed(s)
    ensures WellFormed(HitEach(s, cells))
    decreases |cells|
  {
    if |cells| > 0 {
      HitEachKeepsShape(s, cells[..|cells| - 1]);
      HitKeepsWellFormed(HitEach(s, cells[..|cells| - 1]), cells[|cells| - 1]);
    }
  }

  /** After a run of hits, a cell of the run that the ship holds reads as hit. */
  lemma {:induction false} HitEachHits(s: Ship, cells: seq<string>, k: int)
    requires 0 <= k < |cells| && HasLocation(s, cells[k])
    ensures IsHit(HitEach(s, cells), cells[k])
    decreases |cells|
  {
    var n := |cells| - 1;
    var prev := HitEach(s, cells[..n]);
    if k < n {
      assert cells[..n][k] == cells[k];
      HitEachHits(s, cells[..n], k);
      HitKeepsHits(prev, cells[n], cells[k]);
    }
  }

  /** A full ship starts afloat, and sinks once each of its cells is hit. */
  lemma SinksWhenEveryCellHit(s: Ship)
    requires WellFormed(s) && |s.locations| == SHIP_LENGTH && NoDuplicates(s.locations)
    ensures !IsSunk(NewShip())
    ensures IsSunk(HitEach(s, s.locations))
  {
    assert NewShip().hits[0] == Some(false);
    var t := HitEach(s, s.locations);
    HitEachKeepsShape(s, s.locations);
    forall k | 0 <= k < |s.locations|
      ensures IsHit(t, t.locations[k])
    {
      HitEachHits(s, s.locations, k);
    }
    SunkIffEveryLocationHit(t);
  }
}
