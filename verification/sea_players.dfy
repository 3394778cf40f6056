/** `Player` and `CPUPlayer`: guess bookkeeping and the CPU's hunt/target
    strategy. The cells `Math.random` would draw are given as a finite
    stream, so a guess in hunt mode is the first drawn cell not guessed yet. */
module SeaPlayers {
  import opened Wrappers
  import opened Seqs
  import opened SeaCoordinates
  import opened SeaShip
  import opened SeaBoard

  datatype Player = Player(name: string, board: Board, guesses: seq<string>, isVisible: bool)

  /** `Player.setupShips`: places each ship in turn, shown when the player is
      visible. The ships `createRandomShip` would draw are a parameter. */
  function SetupShips(b: Board, ships: seq<Ship>, show: bool): (r: Option<Board>)
    requires WellFormedGrid(b.grid)
    ensures r.None? <==> show && exists k :: 0 <= k < |ships| && SomeRowless(ships[k].locations)
    ensures r.Some? ==> WellFormedGrid(r.value.grid) && r.value.ships == b.ships + ships
    ensures !show ==> r == Some(b.(ships := b.ships + ships))
    decreases |ships|
  {
    if |ships| == 0 then Some(b)
    else
      var b1 := PlaceShip(b, ships[0], show);
      if b1.None? then None
      else
        var r := SetupShips(b1.value, ships[1..], show);
        assert forall k :: 0 < k < |ships| ==> ships[k] == ships[1..][k - 1];
        assert b.ships + ships == b.ships + [ships[0]] + ships[1..];
        r
  }

  /** `new Player(name, board, isVisible)`: NUM_SHIPS ships placed, no guesses. */
  function NewPlayer(name: string, board: Board, isVisible: bool, ships: seq<Ship>): (r: Option<Player>)
    requires WellFormedGrid(board.grid) && |ships| == NUM_SHIPS
    ensures r.Some? ==> r.value.guesses == [] && r.value.name == name && r.value.isVisible == isVisible
    ensures r.Some? ==> |r.value.board.ships| == |board.ships| + NUM_SHIPS && WellFormedGrid(r.value.board.grid)
    ensures !isVisible ==> r.Some?
  {
    var b := SetupShips(board, ships, isVisible);
    if b.None? then None else Some(Player(name, b.value, [], isVisible))
  }

  /** `Player.hasGuessed`. */
  predicate HasGuessed(p: Player, coord: string) {
    coord in p.guesses
  }

  /** A new player has guessed nothing. */
  lemma NewPlayerHasGuessedNothing(name: string, board: Board, isVisible: bool, ships: seq<Ship>, coord: string)
    requires WellFormedGrid(board.grid) && |ships| == NUM_SHIPS
    requires NewPlayer(name, board, isVisible, ships).Some?
    ensures !HasGuessed(NewPlayer(name, board, isVisible, ships).value, coord)
  {
  }

  /** `Player.addGuess`: the guess goes at the end of the history, which is
      otherwise kept; nothing else about the player changes. */
  function AddGuess(p: Player, coord: string): (r: Player)
    ensures |r.guesses| == |p.guesses| + 1 && r.guesses[..|p.guesses|] == p.guesses
    ensures r.guesses[|p.guesses|] == coord
    ensures r.board == p.board && r.name == p.name && r.isVisible == p.isVisible
  {
    p.(guesses := p.guesses + [coord])
  }

  /** After a guess is recorded it counts as guessed, and so does every
      earlier guess; nothing else about the player changes. */
  lemma AddGuessRecords(p: Player, coord: string, other: string)
    ensures HasGuessed(AddGuess(p, coord), other) <==> other == coord || HasGuessed(p, other)
    ensures AddGuess(p, coord).board == p.board && AddGuess(p, coord).name == p.name
  {
  }

  /** `Player.getRemainingShips`: the player's fleet is gone exactly when
      every ship on its board is sunk. */
  function PlayerRemainingShips(p: Player): (n: nat)
    ensures n <= |p.board.ships|
    ensures n == 0 <==> forall k :: 0 <= k < |p.board.ships| ==> IsSunk(p.board.ships[k])
  {
    GetRemainingShips(p.board)
  }

  datatype Mode = Hunt | Target

  datatype Cpu = Cpu(player: Player, mode: Mode, targetQueue: seq<string>)

  /** `new CPUPlayer(name, board)`: a hidden player in hunt mode with an
      empty target queue. */
  function NewCpu(name: string, board: Board, ships: seq<Ship>): (r: Option<Cpu>)
    requires WellFormedGrid(board.grid) && |ships| == NUM_SHIPS
    ensures r.Some?
    ensures r.value.mode == Hunt && r.value.targetQueue == [] && r.value.player.guesses == []
    ensures !r.value.player.isVisible
  {
    var p := NewPlayer(name, board, false, ships);
    Some(Cpu(p.value, Hunt, []))
  }

  /** The first of `names` not in `guesses`, if any. */
  function FirstUnguessed(guesses: seq<string>, names: seq<string>): (r: Option<string>)
    ensures r.Some? ==> r.value !in guesses && r.value in names
    ensures r.None? ==> forall k :: 0 <= k < |names| ==> names[k] in guesses
  {
    if |names| == 0 then None
    else if names[0] !in guesses then Some(names[0])
    else
      assert forall k :: 0 < k < |names| ==> names[k] == names[1..][k - 1];
      FirstUnguessed(guesses, names[1..])
  }

  /** The name `FirstUnguessed` picks is name `k`, and every name before it
      is guessed already. */
  lemma {:induction false} FirstUnguessedIsFirst(guesses: seq<string>, names: seq<string>) returns (k: nat)
    requires FirstUnguessed(guesses, names).Some?
    ensures k < |names| && names[k] == FirstUnguessed(guesses, names).value
    ensures forall j :: 0 <= j < k ==> names[j] in guesses
    decreases |names|
  {
    if names[0] !in guesses {
      k := 0;
    } else {
      var tail := names[1..];
      var k1 := FirstUnguessedIsFirst(guesses, tail);
      k := k1 + 1;
      assert names[k] == tail[k1];
      forall j | 0 <= j < k
        ensures names[j] in guesses
      {
        if j > 0 {
          assert names[j] == tail[j - 1];
        }
      }
    }
  }

  /** The hunt loop: the first drawn cell whose name is not guessed yet, or
      `None` when the draws run out first. Naming every draw up front and
      then taking the first unguessed name gives what the loop, drawing one
      cell at a time, stops at. */
  function HuntDraw(guesses: seq<string>, draws: seq<Coord>): (r: Option<string>)
    ensures r.Some? ==> r.value !in guesses
    ensures r.Some? ==> exists k :: 0 <= k < |draws| && CellName(draws[k]) == r.value
    ensures r.None? ==> forall k :: 0 <= k < |draws| ==> CellName(draws[k]) in guesses
  {
    var names := CellNames(draws);
    var r := FirstUnguessed(guesses, names);
    assert r.Some? ==> exists k :: 0 <= k < |names| && names[k] == r.value;
    r
  }

  /** The cell the hunt settles on is the first unguessed draw: it is draw
      `k`, and every draw before it had been guessed already. */
  lemma HuntDrawIsFirst(guesses: seq<string>, draws: seq<Coord>) returns (k: nat)
    ensures HuntDraw(guesses, draws).Some? ==>
      k < |draws| && CellName(draws[k]) == HuntDraw(guesses, draws).value
      && forall j :: 0 <= j < k ==> CellName(draws[j]) in guesses
  {
    var names := CellNames(draws);
    if FirstUnguessed(guesses, names).Some? {
      k := FirstUnguessedIsFirst(guesses, names);
      assert forall j :: 0 <= j < k ==> names[j] == CellName(draws[j]);
    } else {
      k := 0;
    }
  }

  /** `CPUPlayer.makeGuess`. In target mode with a non-empty queue the CPU
      takes the head of the queue, skipping cells it has guessed (dropping
      to hunt mode when the queue runs dry); otherwise it hunts. The guess is
      recorded; `None` means the draws ran out. */
  function MakeGuess(cpu: Cpu, draws: seq<Coord>): (r: Option<(Cpu, string)>)
    ensures r.Some? ==> r.value.1 !in cpu.player.guesses
    ensures r.Some? ==> r.value.0.player == AddGuess(cpu.player, r.value.1)
    ensures r.Some? ==>
      |r.value.0.targetQueue| <= |cpu.targetQueue|
      && r.value.0.targetQueue == cpu.targetQueue[|cpu.targetQueue| - |r.value.0.targetQueue|..]
    ensures r.Some? && r.value.0.mode == Target ==> r.value.1 in cpu.targetQueue
    ensures r.Some? && r.value.0.mode == Hunt ==> exists k :: 0 <= k < |draws| && CellName(draws[k]) == r.value.1
    ensures r.None? ==> forall k :: 0 <= k < |draws| ==> CellName(draws[k]) in cpu.player.guesses
    ensures r.None? && cpu.mode == Target ==> forall i :: 0 <= i < |cpu.targetQueue| ==> cpu.targetQueue[i] in cpu.player.guesses
    decreases |cpu.targetQueue|
  {
    var q := cpu.targetQueue;
    if cpu.mode == Target && |q| > 0 then
      var coord := q[0];
      if coord in cpu.player.guesses then
        var next := cpu.(mode := if |q| == 1 then Hunt else Target, targetQueue := q[1..]);
        var r := MakeGuess(next, draws);
        assert forall i :: 0 < i < |q| ==> q[i] == q[1..][i - 1];
        r
      else
        Some((cpu.(player := AddGuess(cpu.player, coord), targetQueue := q[1..]), coord))
    else
      var h := HuntDraw(cpu.player.guesses, draws);
      if h.None? then None
      else Some((cpu.(mode := Hunt, player := AddGuess(cpu.player, h.value)), h.value))
  }

  /** The board cells next to the cell `coord` names; none when its row or
      column is NaN (every neighbour then fails the bounds check). */
  function AdjacentOf(coord: string): (r: seq<Coord>)
    ensures forall c :: c in r <==>
      CellOf(coord).Some? && IsOnBoard(c) && Abs(c.row - CellOf(coord).value.row) + Abs(c.col - CellOf(coord).value.col) == 1
  {
    var cell := CellOf(coord);
    if cell.None? then [] else AdjacentCoordinates(cell.value.row, cell.value.col)
  }

  /** The `forEach` of `processAttackResult`: appends, in order, each name
      that is neither guessed nor already queued. */
  function EnqueueNew(queue: seq<string>, guesses: seq<string>, names: seq<string>): (r: seq<string>)
    ensures |queue| <= |r| && r[..|queue|] == queue
    ensures forall i :: |queue| <= i < |r| ==> r[i] !in guesses && r[i] !in queue
    decreases |names|
  {
    if |names| == 0 then queue
    else
      var name := names[0];
      var q1 := if name !in guesses && name !in queue then queue + [name] else queue;
      var r := EnqueueNew(q1, guesses, names[1..]);
      assert r[..|queue|] == r[..|q1|][..|queue|];
      assert |q1| > |queue| ==> r[|queue|] == r[..|q1|][|queue|] == q1[|queue|] == name;
      r
  }

  /** After the `forEach` the queue holds exactly what it held before plus
      every unguessed name offered. */
  lemma {:induction false} EnqueueNewMembers(queue: seq<string>, guesses: seq<string>, names: seq<string>)
    ensures forall x :: x in EnqueueNew(queue, guesses, names) <==>
      x in queue || (x !in guesses && x in names)
    decreases |names|
  {
    if |names| > 0 {
      var name := names[0];
      var q1 := if name !in guesses && name !in queue then queue + [name] else queue;
      EnqueueNewMembers(q1, guesses, names[1..]);
      assert names == [name] + names[1..];
    }
  }

  /** The `includes` test keeps a duplicate-free queue duplicate-free. */
  lemma {:induction false} EnqueueNewDistinct(queue: seq<string>, guesses: seq<string>, names: seq<string>)
    ensures NoDuplicates(queue) ==> NoDuplicates(EnqueueNew(queue, guesses, names))
    decreases |names|
  {
    if |names| > 0 && NoDuplicates(queue) {
      var name := names[0];
      var q1 := if name !in guesses && name !in queue then queue + [name] else queue;
      EnqueueNewDistinct(q1, guesses, names[1..]);
    }
  }

  /** `CPUPlayer.processAttackResult`: sinking a ship ends targeting; any
      other hit switches to target mode and queues the unguessed, unqueued
      neighbours of the cell; a miss in target mode with nothing queued
      returns to hunting. */
  function ProcessAttackResult(cpu: Cpu, coord: string, result: AttackResult): (r: Cpu)
    ensures r.player == cpu.player
    ensures result.isHit && result.isSunk ==> r.mode == Hunt && r.targetQueue == []
    ensures result.isHit && !result.isSunk ==>
      r.mode == Target && |cpu.targetQueue| <= |r.targetQueue| && r.targetQueue[..|cpu.targetQueue|] == cpu.targetQueue
    ensures result.isHit && !result.isSunk ==> forall x :: x in r.targetQueue <==>
      x in cpu.targetQueue || (x !in cpu.player.guesses && x in CellNames(AdjacentOf(coord)))
    ensures NoDuplicates(cpu.targetQueue) ==> NoDuplicates(r.targetQueue)
    ensures !result.isHit ==> r.targetQueue == cpu.targetQueue
    ensures !result.isHit ==> (r.mode.Hunt? <==> cpu.mode.Hunt? || cpu.targetQueue == [])
  {
    if result.isHit then
      if result.isSunk then cpu.(mode := Hunt, targetQueue := [])
      else
        var names := CellNames(AdjacentOf(coord));
        var q := EnqueueNew(cpu.targetQueue, cpu.player.guesses, names);
        EnqueueNewMembers(cpu.targetQueue, cpu.player.guesses, names);
        EnqueueNewDistinct(cpu.targetQueue, cpu.player.guesses, names);
        cpu.(mode := Target, targetQueue := q)
    else if cpu.mode == Target && |cpu.targetQueue| == 0 then cpu.(mode := Hunt)
    else cpu
  }

  /** What the CPU keeps true between turns: a hunting CPU has nothing
      queued; queued cells are distinct, unguessed two-digit names; and no
      cell is guessed twice. */
  predicate CpuInvariant(cpu: Cpu) {
    (cpu.mode == Hunt ==> cpu.targetQueue == [])
    && NoDuplicates(cpu.targetQueue)
    && (forall i :: 0 <= i < |cpu.targetQueue| ==>
          cpu.targetQueue[i] !in cpu.player.guesses && IsCellName(cpu.targetQueue[i]))
    && NoDuplicates(cpu.player.guesses)
  }

  lemma NewCpuInvariant(name: string, board: Board, ships: seq<Ship>)
    requires WellFormedGrid(board.grid) && |ships| == NUM_SHIPS
    ensures CpuInvariant(NewCpu(name, board, ships).value)
  {
  }

  /** Handling an attack result keeps the invariant. */
  lemma ProcessAttackResultKeepsInvariant(cpu: Cpu, coord: string, result: AttackResult)
    requires CpuInvariant(cpu)
    ensures CpuInvariant(ProcessAttackResult(cpu, coord, result))
  {
    if result.isHit && !result.isSunk {
      TargetingKeepsInvariant(cpu, coord);
    }
  }

  /** Queueing the neighbours of a hit keeps the invariant. */
  lemma TargetingKeepsInvariant(cpu: Cpu, coord: string)
    requires CpuInvariant(cpu)
    ensures CpuInvariant(cpu.(mode := Target, targetQueue :=
      EnqueueNew(cpu.targetQueue, cpu.player.guesses, CellNames(AdjacentOf(coord)))))
  {
    var cells := AdjacentOf(coord);
    var names := CellNames(cells);
    var q := EnqueueNew(cpu.targetQueue, cpu.player.guesses, names);
    EnqueueNewDistinct(cpu.targetQueue, cpu.player.guesses, names);
    forall k | 0 <= k < |names|
      ensures IsCellName(names[k])
    {
      assert cells[k] in cells;
      CellNameIsTwoDigits(cells[k]);
    }
    EnqueueNewNames(cpu.targetQueue, cpu.player.guesses, names);
    assert forall i :: 0 <= i < |cpu.targetQueue| ==> q[i] == q[..|cpu.targetQueue|][i];
  }

  /** Only two-digit names offered are queued. */
  lemma {:induction false} EnqueueNewNames(queue: seq<string>, guesses: seq<string>, names: seq<string>)
    requires forall k :: 0 <= k < |names| ==> IsCellName(names[k])
    ensures forall i :: |queue| <= i < |EnqueueNew(queue, guesses, names)| ==>
      IsCellName(EnqueueNew(queue, guesses, names)[i])
    decreases |names|
  {
    if |names| > 0 {
      var name := names[0];
      var q1 := if name !in guesses && name !in queue then queue + [name] else queue;
      EnqueueNewNames(q1, guesses, names[1..]);
      var r := EnqueueNew(q1, guesses, names[1..]);
      assert forall i :: |queue| <= i < |q1| ==> r[i] == r[..|q1|][i] == name;
    }
  }

  /** Guessing keeps the invariant, and with on-board draws every guess is a
      two-digit cell name. */
  lemma MakeGuessKeepsInvariant(cpu: Cpu, draws: seq<Coord>)
    requires CpuInvariant(cpu) && MakeGuess(cpu, draws).Some?
    requires forall k :: 0 <= k < |draws| ==> IsOnBoard(draws[k])
    ensures CpuInvariant(MakeGuess(cpu, draws).value.0)
    ensures IsCellName(MakeGuess(cpu, draws).value.1)
  {
    var q := cpu.targetQueue;
    if cpu.mode == Target && |q| > 0 {
      TargetGuessIsQueueHead(cpu, draws);
      TargetGuessKeepsInvariant(cpu);
    } else {
      var coord := MakeGuess(cpu, draws).value.1;
      var k :| 0 <= k < |draws| && CellName(draws[k]) == coord;
      CellNameIsTwoDigits(draws[k]);
      HuntGuessKeepsInvariant(cpu, coord);
    }
  }

  /** Firing at the head of the queue keeps the invariant. */
  lemma TargetGuessKeepsInvariant(cpu: Cpu)
    requires CpuInvariant(cpu) && cpu.mode == Target && |cpu.targetQueue| > 0
    ensures var q := cpu.targetQueue;
      CpuInvariant(cpu.(player := AddGuess(cpu.player, q[0]), targetQueue := q[1..])) && IsCellName(q[0])
  {
    var q := cpu.targetQueue;
    assert forall i :: 0 <= i < |q[1..]| ==> q[1..][i] == q[i + 1] && q[i + 1] != q[0];
  }

  /** Firing at a fresh cell with nothing queued keeps the invariant. */
  lemma HuntGuessKeepsInvariant(cpu: Cpu, coord: string)
    requires CpuInvariant(cpu) && cpu.targetQueue == [] && coord !in cpu.player.guesses
    ensures CpuInvariant(cpu.(mode := Hunt, player := AddGuess(cpu.player, coord)))
  {
  }

  /** With the invariant, a targeting CPU with cells queued fires at the head
      of the queue and keeps the rest queued. */
  lemma TargetGuessIsQueueHead(cpu: Cpu, draws: seq<Coord>)
    requires CpuInvariant(cpu) && cpu.mode == Target && |cpu.targetQueue| > 0
    ensures MakeGuess(cpu, draws) ==
      Some((cpu.(player := AddGuess(cpu.player, cpu.targetQueue[0]), targetQueue := cpu.targetQueue[1..]), cpu.targetQueue[0]))
  {
  }
}
