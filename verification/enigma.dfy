/** The three-rotor Enigma machine of 6/enigma.js: rotors I, II and III,
    reflector B, a plugboard, and the double-stepping rotor drive.  A
    machine is an immutable value; every operation that steps the rotors
    returns the machine it leaves behind. */
module Enigma {
  import opened Text
  import opened Wirings
  import opened Seqs

  const ALPHABET: string := "ABCDEFGHIJKLMNOPQRSTUVWXYZ"

  /** Letter `i` of the alphabet is the letter with index `i`. */
  lemma AlphabetShape()
    ensures |ALPHABET| == 26
    ensures forall i :: 0 <= i < 26 ==> ALPHABET[i] == Letter(i)
  {
  }

  /** `ALPHABET.indexOf(c)`, computed from the character code. */
  function AlphabetIndex(c: char): (k: int)
    ensures -1 <= k < 26
    ensures k >= 0 <==> IsAsciiUpper(c)
    ensures k >= 0 ==> Letter(k) == c
  {
    if IsAsciiUpper(c) then LetterIndex(c) else -1
  }

  /** Searching the alphabet string finds exactly `AlphabetIndex`. */
  lemma {:induction false} AlphabetIndexOf(c: char)
    ensures IndexOf(ALPHABET, c) == AlphabetIndex(c)
  {
    AlphabetShape();
    if IsAsciiUpper(c) {
      assert ALPHABET[LetterIndex(c)] == c;
    }
  }

  /** `alphabet.includes(c)` holds exactly for the capital letters. */
  lemma AlphabetHoldsLetters(c: char)
    ensures c in ALPHABET <==> IsAsciiUpper(c)
  {
    AlphabetShape();
    if IsAsciiUpper(c) {
      assert ALPHABET[LetterIndex(c)] == c;
    }
  }

  // ---------------------------------------------------------------------
  // The JavaScript `mod` helper
  // ---------------------------------------------------------------------

  /** JavaScript's `%`: the remainder of division truncated toward zero,
      which takes the sign of the dividend. */
  function JsRem(n: int, m: int): (r: int)
    requires m != 0
    ensures n >= 0 ==> 0 <= r
    ensures n < 0 ==> r <= 0
    ensures m > 0 ==> -m < r < m
  {
    var r := (if n >= 0 then n else -n) % (if m > 0 then m else -m);
    if n >= 0 then r else -r
  }

  /** `((n % m) + m) % m` with JavaScript's `%`. */
  function Mod(n: int, m: int): int
    requires m != 0
  {
    JsRem(JsRem(n, m) + m, m)
  }

  lemma MulAtLeast(k: int, m: int)
    requires k >= 1 && m > 0
    ensures k * m >= m
  {
  }

  /** Euclidean division has exactly one remainder in [0, m). */
  lemma ModUnique(x: int, m: int, q: int, r: int)
    requires m > 0 && 0 <= r < m && x == q * m + r
    ensures x % m == r
  {
    var q', r' := x / m, x % m;
    assert (q - q') * m == r' - r;
    if q > q' {
      MulAtLeast(q - q', m);
    } else if q < q' {
      MulAtLeast(q' - q, m);
    }
  }

  /** For a positive modulus `mod` lands in [0, m) and is congruent to `n`:
      it is the mathematical remainder even for negative `n`. */
  lemma {:induction false} ModIsEuclidean(n: int, m: int)
    requires m > 0
    ensures 0 <= Mod(n, m) < m
    ensures Mod(n, m) == n % m
  {
    var r0 := JsRem(n, m);
    if n >= 0 {
      assert r0 == n % m;
      ModUnique(r0 + m, m, 1, r0);
    } else {
      var a := (-n) % m;
      var q := (-n) / m;
      assert -n == q * m + a;
      assert r0 == -a;
      if a == 0 {
        ModUnique(r0 + m, m, 1, 0);
        ModUnique(n, m, -q, 0);
      } else {
        ModUnique(r0 + m, m, 0, m - a);
        ModUnique(n, m, -q - 1, m - a);
      }
    }
  }

  // ---------------------------------------------------------------------
  // Rotors
  // ---------------------------------------------------------------------

  datatype RotorSpec = RotorSpec(wiring: string, notch: char)

  /** Rotors I, II and III with their turnover notches. */
  const ROTORS: seq<RotorSpec> := [
    RotorSpec(WIRING_I, 'Q'),
    RotorSpec(WIRING_II, 'E'),
    RotorSpec(WIRING_III, 'V')
  ]

  /** An index into `ROTORS`. */
  type RotorId = i: int | 0 <= i < 3

  /** `new Rotor(wiring, notch, ringSetting, position)`. */
  datatype Rotor = Rotor(wiring: string, notch: char, ringSetting: int, position: int)

  /** Rotors I, II and III are each wired as a permutation of A-Z. */
  lemma RotorWiringsArePermutations()
    ensures |ROTORS| == 3
    ensures forall id: RotorId :: IsPermutation(ROTORS[id].wiring)
  {
    assert ROTORS[0].wiring == WIRING_I && ROTORS[1].wiring == WIRING_II && ROTORS[2].wiring == WIRING_III;
    WiringIIsPermutation();
    WiringIIIsPermutation();
    WiringIIIIsPermutation();
  }

  /** Looking a wired letter up again finds the contact it is wired to. */
  lemma WiringIndexOf(w: string, k: int)
    requires IsPermutation(w) && 0 <= k < 26
    ensures IndexOf(w, w[k]) == k
  {
    var j := IndexOf(w, w[k]);
    assert w[j] == w[k];
  }

  /** Every letter is wired to some contact. */
  lemma WiringHasLetter(w: string, c: char)
    requires IsPermutation(w) && IsAsciiUpper(c)
    ensures 0 <= IndexOf(w, c) < 26 && w[IndexOf(w, c)] == c
  {
    assert Letter(LetterIndex(c)) == c;
  }

  // The rotor arithmetic below reduces modulo 26 with `%`: by
  // `ModIsEuclidean` that is exactly the source's `mod` helper there.

  /** `Rotor.step`: advance one position, wrapping from Z back to A. */
  function Step(r: Rotor): (s: Rotor)
    ensures s.wiring == r.wiring && s.notch == r.notch && s.ringSetting == r.ringSetting
    ensures 0 <= s.position < 26
    ensures s.position != r.position
    ensures 0 <= r.position < 25 ==> s.position == r.position + 1
    ensures r.position == 25 ==> s.position == 0
  {
    r.(position := (r.position + 1) % 26)
  }

  /** Stepping computes the source's `mod(position + 1, 26)`. */
  lemma StepIsMod(r: Rotor)
    ensures Step(r).position == Mod(r.position + 1, 26)
  {
    ModIsEuclidean(r.position + 1, 26);
  }

  /** `Rotor.atNotch`: the letter showing is the notch letter; a position
      outside 0..25 shows no letter. */
  predicate AtNotch(r: Rotor) {
    0 <= r.position < 26 && Letter(r.position) == r.notch
  }

  /** Rotors I, II and III turn their neighbour over at Q, E and V: a rotor
      taken from `ROTORS` is at its notch at exactly one position. */
  lemma NotchPositions(id: RotorId, ringSetting: int, position: int)
    ensures AtNotch(Rotor(ROTORS[id].wiring, ROTORS[id].notch, ringSetting, position)) <==>
            position == [16, 4, 21][id]
  {
    assert ROTORS[0].notch == 'Q' && ROTORS[1].notch == 'E' && ROTORS[2].notch == 'V';
  }

  /** `Rotor.forward`: the signal on its way to the reflector.  Every rotor
      the machine builds has a 26-letter wiring. */
  function Forward(r: Rotor, c: char): (d: char)
    requires |r.wiring| == 26
    ensures IsPermutation(r.wiring) ==> IsAsciiUpper(d)
  {
    r.wiring[(AlphabetIndex(c) + r.position - r.ringSetting) % 26]
  }

  /** `Rotor.backward`: the signal on its way back from the reflector. */
  function Backward(r: Rotor, c: char): (d: char)
    ensures IsAsciiUpper(d)
  {
    Letter((IndexOf(r.wiring, c) - r.position + r.ringSetting) % 26)
  }

  /** The outward path reads the alphabet string and reduces the contact
      index with the source's `mod`, as `Rotor.forward` does. */
  lemma ForwardIsMod(r: Rotor, c: char)
    requires |r.wiring| == 26
    ensures Forward(r, c) == r.wiring[Mod(IndexOf(ALPHABET, c) + r.position - r.ringSetting, 26)]
  {
    AlphabetIndexOf(c);
    ForwardShiftIsMod(r, c, IndexOf(ALPHABET, c));
  }

  lemma ForwardShiftIsMod(r: Rotor, c: char, k: int)
    requires |r.wiring| == 26 && k == AlphabetIndex(c)
    ensures Forward(r, c) == r.wiring[Mod(k + r.position - r.ringSetting, 26)]
  {
    ModIsEuclidean(k + r.position - r.ringSetting, 26);
  }

  /** The return path reduces with the source's `mod` and reads the
      alphabet string, as `Rotor.backward` does. */
  lemma BackwardIsMod(r: Rotor, c: char)
    ensures Backward(r, c) == ALPHABET[Mod(IndexOf(r.wiring, c) - r.position + r.ringSetting, 26)]
  {
    AlphabetShape();
    ModIsEuclidean(IndexOf(r.wiring, c) - r.position + r.ringSetting, 26);
  }

  /** `atNotch` compares the letter the alphabet string shows. */
  lemma AtNotchReadsAlphabet(r: Rotor)
    ensures AtNotch(r) <==> 0 <= r.position < |ALPHABET| && ALPHABET[r.position] == r.notch
  {
    AlphabetShape();
  }

  /** Adding the remainder instead of the number does not change the
      remainder. */
  lemma ModAddCongruent(a: int, b: int, m: int)
    requires m > 0
    ensures (a % m + b) % m == (a + b) % m
  {
    var q := a / m;
    var q2 := (a % m + b) / m;
    var r := (a % m + b) % m;
    assert a + b == (q + q2) * m + r;
    ModUnique(a + b, m, q + q2, r);
  }

  /** Turning a letter index forward by a rotor's position less its ring
      setting, modulo 26, and back again returns it. */
  lemma ModShiftCancels(x: int, p: int, rs: int)
    requires 0 <= x < 26
    ensures ((x + p - rs) % 26 - p + rs) % 26 == x
    ensures ((x - p + rs) % 26 + p - rs) % 26 == x
  {
    ModAddCongruent(x + p - rs, rs - p, 26);
    ModAddCongruent(x - p + rs, p - rs, 26);
  }

  /** The outward path entered at the letter with index `t`. */
  lemma ForwardAt(r: Rotor, t: int)
    requires |r.wiring| == 26 && 0 <= t < 26
    ensures Forward(r, Letter(t)) == r.wiring[(t + r.position - r.ringSetting) % 26]
  {
  }

  /** The return path through a rotor undoes the outward path. */
  lemma {:induction false} BackwardInvertsForward(r: Rotor, c: char)
    requires IsPermutation(r.wiring) && IsAsciiUpper(c)
    ensures Backward(r, Forward(r, c)) == c
  {
    var x := LetterIndex(c);
    var k := (x + r.position - r.ringSetting) % 26;
    ModShiftCancels(x, r.position, r.ringSetting);
    WiringIndexOf(r.wiring, k);
    assert Letter(x) == c;
  }

  /** The outward path undoes the return path from a contact `j` that is
      wired to `c`. */
  lemma ForwardUndoesBackwardAt(r: Rotor, c: char, j: int)
    requires |r.wiring| == 26 && 0 <= j < 26
    requires IndexOf(r.wiring, c) == j && r.wiring[j] == c
    ensures Forward(r, Backward(r, c)) == c
  {
    var t := (j - r.position + r.ringSetting) % 26;
    ModShiftCancels(j, r.position, r.ringSetting);
    ForwardAt(r, t);
  }

  /** And the outward path undoes the return path. */
  lemma ForwardInvertsBackward(r: Rotor, c: char)
    requires IsPermutation(r.wiring) && IsAsciiUpper(c)
    ensures Forward(r, Backward(r, c)) == c
  {
    WiringHasLetter(r.wiring, c);
    ForwardUndoesBackwardAt(r, c, IndexOf(r.wiring, c));
  }

  // ---------------------------------------------------------------------
  // Reflector B
  // ---------------------------------------------------------------------

  /** `createReflector`: enter every pair in both directions, left to right,
      a later entry overwriting an earlier one. */
  function CreateReflector(pairs: seq<(char, char)>): (m: map<char, char>)
    ensures forall k :: 0 <= k < |pairs| ==> pairs[k].0 in m && pairs[k].1 in m
  {
    if |pairs| == 0 then map[]
    else
      var (a, b) := pairs[|pairs| - 1];
      CreateReflector(pairs[..|pairs| - 1])[a := b][b := a]
  }

  const REFLECTOR_MAP: map<char, char> := CreateReflector(REFLECTOR_PAIRS)

  /** When every pair agrees with a table, so does the map built from them,
      whatever the order of overwriting. */
  lemma {:induction false} CreateReflectorFollowsTable(pairs: seq<(char, char)>, table: string)
    requires PairsFollowTable(pairs, table)
    ensures forall c :: c in CreateReflector(pairs) ==>
              IsAsciiUpper(c) && CreateReflector(pairs)[c] == table[LetterIndex(c)]
  {
    if |pairs| > 0 {
      var front := pairs[..|pairs| - 1];
      forall k | 0 <= k < |front|
        ensures PairFollowsTable(front, table, k)
      {
        assert front[k] == pairs[k] && PairFollowsTable(pairs, table, k);
      }
      CreateReflectorFollowsTable(front, table);
      assert PairFollowsTable(pairs, table, |pairs| - 1);
    }
  }

  /** The keys of the reflector map are capitals, each sent where the
      reflector string sends it. */
  lemma ReflectorMapFollowsTable()
    ensures |REFLECTOR| == 26
    ensures forall c :: c in REFLECTOR_MAP ==>
              IsAsciiUpper(c) && REFLECTOR_MAP[c] == REFLECTOR[LetterIndex(c)]
  {
    ReflectorTables();
    CreateReflectorFollowsTable(REFLECTOR_PAIRS, REFLECTOR);
  }

  /** Every capital is a key of the reflector map. */
  lemma ReflectorMapHasLetter(c: char)
    requires IsAsciiUpper(c)
    ensures c in REFLECTOR_MAP
  {
    var i := LetterIndex(c);
    ReflectorAt(i);
    assert Letter(i) == c;
    var k := PAIR_OF_LETTER[i];
    assert REFLECTOR_PAIRS[k].0 in REFLECTOR_MAP && REFLECTOR_PAIRS[k].1 in REFLECTOR_MAP;
  }

  /** Each letter is a key of the reflector map, and the map sends it
      where the reflector string does: to a different letter. */
  lemma ReflectorHasLetter(c: char)
    requires IsAsciiUpper(c)
    ensures |REFLECTOR| == 26
    ensures c in REFLECTOR_MAP && REFLECTOR_MAP[c] == REFLECTOR[LetterIndex(c)]
    ensures IsAsciiUpper(REFLECTOR_MAP[c]) && REFLECTOR_MAP[c] != c
    ensures REFLECTOR[LetterIndex(REFLECTOR_MAP[c])] == c
  {
    ReflectorMapHasLetter(c);
    ReflectorMapFollowsTable();
    var i := LetterIndex(c);
    ReflectorAt(i);
    var d := REFLECTOR[i];
    ReflectorAt(LetterIndex(d));
    var e := REFLECTOR[LetterIndex(d)];
    assert LetterIndex(e) == i && e as int == c as int;
  }

  /** Reflector B pairs every letter with a different letter: the map covers
      A-Z and nothing else, never maps a letter to itself, is its own
      inverse, and agrees with the `REFLECTOR` string. */
  lemma ReflectorIsInvolution()
    ensures forall c :: IsAsciiUpper(c) ==> c in REFLECTOR_MAP
    ensures forall c :: c in REFLECTOR_MAP ==> IsAsciiUpper(c)
    ensures forall c :: IsAsciiUpper(c) ==>
              IsAsciiUpper(REFLECTOR_MAP[c]) && REFLECTOR_MAP[c] != c &&
              REFLECTOR_MAP[REFLECTOR_MAP[c]] == c &&
              REFLECTOR_MAP[c] == REFLECTOR[LetterIndex(c)]
  {
    ReflectorTables();
    CreateReflectorFollowsTable(REFLECTOR_PAIRS, REFLECTOR);
    forall c | IsAsciiUpper(c)
      ensures c in REFLECTOR_MAP && IsAsciiUpper(REFLECTOR_MAP[c]) && REFLECTOR_MAP[c] != c
      ensures REFLECTOR_MAP[c] in REFLECTOR_MAP && REFLECTOR_MAP[REFLECTOR_MAP[c]] == c
      ensures REFLECTOR_MAP[c] == REFLECTOR[LetterIndex(c)]
    {
      ReflectorHasLetter(c);
      ReflectorHasLetter(REFLECTOR_MAP[c]);
    }
  }

  /** The reflector lookup `REFLECTOR_MAP[c]` for the letter leaving the
      last rotor. */
  function Reflect(c: char): (d: char)
    requires IsAsciiUpper(c)
    ensures IsAsciiUpper(d) && d != c
  {
    ReflectorIsInvolution();
    REFLECTOR_MAP[c]
  }

  // ---------------------------------------------------------------------
  // Plugboard
  // ---------------------------------------------------------------------

  /** `c` is one of the letters of some pair. */
  predicate InPairs(pairs: seq<(char, char)>, c: char) {
    exists k :: 0 <= k < |pairs| && (pairs[k].0 == c || pairs[k].1 == c)
  }

  /** No letter appears in two different pairs. */
  predicate Disjoint(pairs: seq<(char, char)>) {
    forall j, k :: 0 <= j < k < |pairs| ==>
      pairs[j].0 != pairs[k].0 && pairs[j].0 != pairs[k].1 &&
      pairs[j].1 != pairs[k].0 && pairs[j].1 != pairs[k].1
  }

  /** The plugboards the interactive front end can build: pairs of capital
      letters, no letter cabled twice. */
  predicate ValidPlugboard(pairs: seq<(char, char)>) {
    && (forall k :: 0 <= k < |pairs| ==> IsAsciiUpper(pairs[k].0) && IsAsciiUpper(pairs[k].1))
    && Disjoint(pairs)
  }

  /** `plugboardSwap`: the partner from the first pair holding `c`, else `c`. */
  function PlugboardSwap(c: char, pairs: seq<(char, char)>): (d: char)
    ensures !InPairs(pairs, c) ==> d == c
    ensures d != c ==> InPairs(pairs, d)
  {
    if |pairs| == 0 then c
    else if c == pairs[0].0 then pairs[0].1
    else if c == pairs[0].1 then pairs[0].0
    else
      var d := PlugboardSwap(c, pairs[1..]);
      assert !InPairs(pairs, c) ==> !InPairs(pairs[1..], c) by {
        if InPairs(pairs[1..], c) {
          var k :| 0 <= k < |pairs[1..]| && (pairs[1..][k].0 == c || pairs[1..][k].1 == c);
          assert pairs[k + 1] == pairs[1..][k];
        }
      }
      assert d != c ==> InPairs(pairs, d) by {
        if d != c {
          var k :| 0 <= k < |pairs[1..]| && (pairs[1..][k].0 == d || pairs[1..][k].1 == d);
          assert pairs[k + 1] == pairs[1..][k];
        }
      }
      d
  }

  /** On a plugboard with no shared letters every cabled letter swaps with
      its partner. */
  lemma {:induction false} PlugboardSwapsPairs(pairs: seq<(char, char)>, k: int)
    requires Disjoint(pairs) && 0 <= k < |pairs|
    ensures PlugboardSwap(pairs[k].0, pairs) == pairs[k].1
    ensures PlugboardSwap(pairs[k].1, pairs) == pairs[k].0
  {
    if k > 0 {
      assert pairs[1..][k - 1] == pairs[k];
      PlugboardSwapsPairs(pairs[1..], k - 1);
    }
  }

  /** Swapping twice gives the letter back when no letter is cabled twice. */
  lemma {:induction false} PlugboardInvolution(c: char, pairs: seq<(char, char)>)
    requires Disjoint(pairs)
    ensures PlugboardSwap(PlugboardSwap(c, pairs), pairs) == c
  {
    if |pairs| > 0 && c != pairs[0].0 && c != pairs[0].1 {
      var rest := pairs[1..];
      var d := PlugboardSwap(c, rest);
      PlugboardInvolution(c, rest);
      if d != c {
        var k :| 0 <= k < |rest| && (rest[k].0 == d || rest[k].1 == d);
        assert rest[k] == pairs[k + 1];
        assert d != pairs[0].0 && d != pairs[0].1;
      }
    }
  }

  /** A plugboard of capital letters sends capital letters to capital letters. */
  lemma PlugboardKeepsLetters(c: char, pairs: seq<(char, char)>)
    requires ValidPlugboard(pairs) && IsAsciiUpper(c)
    ensures IsAsciiUpper(PlugboardSwap(c, pairs))
  {
  }

  // ---------------------------------------------------------------------
  // The machine
  // ---------------------------------------------------------------------

  /** An `Enigma`: `rotors[0]` is the left rotor, `rotors[1]` the middle and
      `rotors[2]` the right (fastest) one. */
  datatype Machine = Machine(rotors: seq<Rotor>, plugboard: seq<(char, char)>)

  /** The i-th entry of a settings array, or the `Rotor` constructor's default
      0 when the array is too short and the entry reads as `undefined`. */
  function SettingAt(settings: seq<int>, i: nat): int {
    if i < |settings| then settings[i] else 0
  }

  /** `new Enigma(rotorIDs, rotorPositions, ringSettings, plugboardPairs)`:
      rotor `i` takes its wiring and notch from `ROTORS[rotorIDs[i]]`, its
      ring setting and starting position from the i-th entries, or 0 where
      an array is shorter than `rotorIDs`. */
  function NewMachine(rotorIds: seq<RotorId>, positions: seq<int>, ringSettings: seq<int>,
                      plugboard: seq<(char, char)>): (m: Machine)
    ensures |m.rotors| == |rotorIds| && m.plugboard == plugboard
    ensures forall i :: 0 <= i < |rotorIds| ==>
              m.rotors[i].wiring == ROTORS[rotorIds[i]].wiring && m.rotors[i].notch == ROTORS[rotorIds[i]].notch &&
              m.rotors[i].position == (if i < |positions| then positions[i] else 0) &&
              m.rotors[i].ringSetting == (if i < |ringSettings| then ringSettings[i] else 0) &&
              IsPermutation(m.rotors[i].wiring)
  {
    RotorWiringsArePermutations();
    Machine(seq(|rotorIds|, i requires 0 <= i < |rotorIds| =>
              Rotor(ROTORS[rotorIds[i]].wiring, ROTORS[rotorIds[i]].notch,
                    SettingAt(ringSettings, i), SettingAt(positions, i))),
            plugboard)
  }

  /** Missing settings read as 0: padding either array with zeros builds the
      same machine, so `promptEnigma`'s answer "0" to both questions sets up
      I, II, III at A-A-A with rings at 0. */
  lemma NewMachinePadsWithZeros(rotorIds: seq<RotorId>, positions: seq<int>,
                               ringSettings: seq<int>, plugboard: seq<(char, char)>, n: nat)
    ensures NewMachine(rotorIds, positions + seq(n, _ => 0), ringSettings + seq(n, _ => 0), plugboard) ==
            NewMachine(rotorIds, positions, ringSettings, plugboard)
    ensures NewMachine([0, 1, 2], [0], [0], plugboard) == NewMachine([0, 1, 2], [0, 0, 0], [0, 0, 0], plugboard)
  {
  }

  /** Every rotor is wired as a permutation of A-Z. */
  ghost predicate Wired(rotors: seq<Rotor>) {
    forall i :: 0 <= i < |rotors| ==> IsPermutation(rotors[i].wiring)
  }

  /** A machine that can encipher letters: at least the three rotors that
      `stepRotors` moves, each wired as a permutation (as `NewMachine` builds
      them). */
  ghost predicate Ready(m: Machine) {
    |m.rotors| >= 3 && Wired(m.rotors)
  }

  /** `stepRotors`, with double-stepping: a middle rotor at its notch steps
      itself and the left rotor; the right rotor always steps. */
  function StepRotors(m: Machine): (s: Machine)
    requires |m.rotors| >= 3
    ensures |s.rotors| == |m.rotors| && s.plugboard == m.plugboard
    ensures s.rotors[2] == Step(m.rotors[2])
    ensures s.rotors[1] == if AtNotch(m.rotors[2]) || AtNotch(m.rotors[1]) then Step(m.rotors[1]) else m.rotors[1]
    ensures s.rotors[0] == if AtNotch(m.rotors[1]) then Step(m.rotors[0]) else m.rotors[0]
    ensures s.rotors[2].position != m.rotors[2].position
    ensures s.rotors[1].position != m.rotors[1].position <==> AtNotch(m.rotors[2]) || AtNotch(m.rotors[1])
    ensures s.rotors[0].position != m.rotors[0].position <==> AtNotch(m.rotors[1])
    ensures forall i :: 0 <= i < |m.rotors| ==>
              s.rotors[i].wiring == m.rotors[i].wiring && s.rotors[i].notch == m.rotors[i].notch &&
              s.rotors[i].ringSetting == m.rotors[i].ringSetting
    ensures forall i :: 3 <= i < |m.rotors| ==> s.rotors[i] == m.rotors[i]
  {
    var middleAtNotch := AtNotch(m.rotors[1]);
    var rightAtNotch := AtNotch(m.rotors[2]);
    var left := if middleAtNotch then Step(m.rotors[0]) else m.rotors[0];
    var middle := if rightAtNotch || middleAtNotch then Step(m.rotors[1]) else m.rotors[1];
    m.(rotors := m.rotors[0 := left][1 := middle][2 := Step(m.rotors[2])])
  }

  /** The positions after `stepRotors`, in the source's own `mod`: the right
      rotor moves to `mod(p + 1, 26)`, the others do so only as double-stepping
      allows. */
  lemma StepRotorsPositions(m: Machine)
    requires |m.rotors| >= 3
    ensures StepRotors(m).rotors[2].position == Mod(m.rotors[2].position + 1, 26)
    ensures StepRotors(m).rotors[1].position ==
              if AtNotch(m.rotors[2]) || AtNotch(m.rotors[1]) then Mod(m.rotors[1].position + 1, 26)
              else m.rotors[1].position
    ensures StepRotors(m).rotors[0].position ==
              if AtNotch(m.rotors[1]) then Mod(m.rotors[0].position + 1, 26) else m.rotors[0].position
  {
    StepIsMod(m.rotors[0]);
    StepIsMod(m.rotors[1]);
    StepIsMod(m.rotors[2]);
  }

  /** Rotors I, II, III at A-A-A: one letter moves only the right rotor. */
  lemma SingleStepExample()
    ensures var m := NewMachine([0, 1, 2], [0, 0, 0], [0, 0, 0], []);
            Ready(m) &&
            EncryptChar(m, 'A').0.rotors[2].position == 1 &&
            EncryptChar(m, 'A').0.rotors[1].position == 0 &&
            EncryptChar(m, 'A').0.rotors[0].position == 0
  {
    var m := NewMachine([0, 1, 2], [0, 0, 0], [0, 0, 0], []);
    assert ROTORS[2].notch == 'V' && ROTORS[1].notch == 'E';
    assert !AtNotch(m.rotors[2]) && !AtNotch(m.rotors[1]);
  }

  /** Rotors I, II, III with the middle rotor showing its notch E: the next
      letter steps the middle rotor off the notch and the left rotor with it. */
  lemma DoubleStepExample()
    ensures var m := NewMachine([0, 1, 2], [0, 4, 0], [0, 0, 0], []);
            Ready(m) &&
            EncryptChar(m, 'A').0.rotors[1].position == 5 &&
            EncryptChar(m, 'A').0.rotors[0].position == 1
  {
    var m := NewMachine([0, 1, 2], [0, 4, 0], [0, 0, 0], []);
    assert ROTORS[1].notch == 'E';
    assert Letter(4) == 'E';
    assert AtNotch(m.rotors[1]);
  }

  /** Right to left through every rotor. */
  function ForwardAll(rotors: seq<Rotor>, c: char): (d: char)
    requires Wired(rotors)
    ensures IsAsciiUpper(c) || |rotors| > 0 ==> IsAsciiUpper(d)
  {
    if |rotors| == 0 then c
    else ForwardAll(rotors[..|rotors| - 1], Forward(rotors[|rotors| - 1], c))
  }

  /** Left to right back through every rotor. */
  function BackwardAll(rotors: seq<Rotor>, c: char): (d: char)
    ensures IsAsciiUpper(c) || |rotors| > 0 ==> IsAsciiUpper(d)
  {
    if |rotors| == 0 then c
    else Backward(rotors[|rotors| - 1], BackwardAll(rotors[..|rotors| - 1], c))
  }

  lemma {:induction false} BackwardAllInvertsForwardAll(rotors: seq<Rotor>, c: char)
    requires Wired(rotors) && IsAsciiUpper(c)
    ensures BackwardAll(rotors, ForwardAll(rotors, c)) == c
  {
    if |rotors| > 0 {
      var last := rotors[|rotors| - 1];
      var init := rotors[..|rotors| - 1];
      var x := Forward(last, c);
      BackwardAllInvertsForwardAll(init, x);
      BackwardInvertsForward(last, c);
    }
  }

  lemma {:induction false} ForwardAllInvertsBackwardAll(rotors: seq<Rotor>, c: char)
    requires Wired(rotors) && IsAsciiUpper(c)
    ensures ForwardAll(rotors, BackwardAll(rotors, c)) == c
  {
    if |rotors| > 0 {
      var last := rotors[|rotors| - 1];
      var init := rotors[..|rotors| - 1];
      var y := BackwardAll(init, c);
      ForwardInvertsBackward(last, y);
      ForwardAllInvertsBackwardAll(init, c);
    }
  }

  /** The path of one letter once the rotors have stepped: plugboard,
      rotors, reflector, rotors back, plugboard again. */
  function SignalPath(m: Machine, c: char): char
    requires Ready(m)
  {
    var p := PlugboardSwap(c, m.plugboard);
    var b := BackwardAll(m.rotors, Reflect(ForwardAll(m.rotors, p)));
    PlugboardSwap(b, m.plugboard)
  }

  /** Sending the output back through the same rotor positions gives the
      input: the reflector makes the whole path its own inverse. */
  lemma {:induction false} SignalPathIsInvolution(m: Machine, c: char)
    requires Ready(m) && ValidPlugboard(m.plugboard) && IsAsciiUpper(c)
    ensures IsAsciiUpper(SignalPath(m, c))
    ensures SignalPath(m, SignalPath(m, c)) == c
  {
    var pb := m.plugboard;
    var p := PlugboardSwap(c, pb);
    PlugboardKeepsLetters(c, pb);
    var f := ForwardAll(m.rotors, p);
    var r := Reflect(f);
    var b := BackwardAll(m.rotors, r);
    PlugboardKeepsLetters(b, pb);
    PlugboardInvolution(b, pb);
    ForwardAllInvertsBackwardAll(m.rotors, r);
    ReflectorIsInvolution();
    assert Reflect(r) == f;
    BackwardAllInvertsForwardAll(m.rotors, p);
    PlugboardInvolution(c, pb);
  }

  /** No letter is ever enciphered as itself. */
  lemma {:induction false} SignalPathHasNoFixedPoint(m: Machine, c: char)
    requires Ready(m) && ValidPlugboard(m.plugboard) && IsAsciiUpper(c)
    ensures SignalPath(m, c) != c
  {
    var pb := m.plugboard;
    var p := PlugboardSwap(c, pb);
    PlugboardKeepsLetters(c, pb);
    var f := ForwardAll(m.rotors, p);
    var r := Reflect(f);
    var b := BackwardAll(m.rotors, r);
    if SignalPath(m, c) == c {
      PlugboardInvolution(b, pb);
      assert b == p;
      ForwardAllInvertsBackwardAll(m.rotors, r);
      assert false;
    }
  }

  /** Stepping keeps a machine ready. */
  lemma StepRotorsKeepsReady(m: Machine)
    requires Ready(m)
    ensures Ready(StepRotors(m))
  {
  }

  /** `encryptChar`: characters the alphabet string does not hold (by
      `AlphabetHoldsLetters`, exactly those outside A-Z) pass through
      without stepping the rotors; a letter first steps them, then takes
      the signal path. */
  function EncryptChar(m: Machine, c: char): (res: (Machine, char))
    requires Ready(m)
    ensures Ready(res.0) && res.0.plugboard == m.plugboard
    ensures !IsAsciiUpper(c) ==> res == (m, c)
    ensures IsAsciiUpper(c) ==> res.0 == StepRotors(m)
    ensures IsAsciiUpper(c) && ValidPlugboard(m.plugboard) ==> IsAsciiUpper(res.1) && res.1 != c
  {
    if !IsAsciiUpper(c) then (m, c)
    else
      var s := StepRotors(m);
      StepRotorsKeepsReady(m);
      if ValidPlugboard(m.plugboard) then
        SignalPathIsInvolution(s, c);
        SignalPathHasNoFixedPoint(s, c);
        (s, SignalPath(s, c))
      else
        (s, SignalPath(s, c))
  }

  /** Enciphering the output with the same starting machine gives the input
      back and leaves the machine in the same state. */
  lemma {:induction false} EncryptCharReciprocal(m: Machine, c: char)
    requires Ready(m) && ValidPlugboard(m.plugboard)
    ensures EncryptChar(m, EncryptChar(m, c).1) == (EncryptChar(m, c).0, c)
  {
    if IsAsciiUpper(c) {
      StepRotorsKeepsReady(m);
      SignalPathIsInvolution(StepRotors(m), c);
    }
  }

  /** The characters of a text, one at a time, the machine carried along. */
  function Run(m: Machine, s: string): (res: (Machine, string))
    requires Ready(m)
    ensures Ready(res.0) && res.0.plugboard == m.plugboard
    ensures |res.1| == |s|
    decreases |s|
  {
    if |s| == 0 then (m, "")
    else
      var first := EncryptChar(m, s[0]);
      var rest := Run(first.0, s[1..]);
      (rest.0, [first.1] + rest.1)
  }

  /** `process`: upper-case the text, then encipher it character by character. */
  function Process(m: Machine, text: string): (res: (Machine, string))
    requires Ready(m)
    ensures |res.1| == |text|
    ensures text == "" ==> res == (m, "")
  {
    Run(m, ToUpper(text))
  }

  /** Deciphering with the same starting machine: running the output of a
      run through the same machine gives the input back, and the machine
      ends in the same state. */
  lemma {:induction false} RunReciprocal(m: Machine, s: string)
    requires Ready(m) && ValidPlugboard(m.plugboard)
    ensures Run(m, Run(m, s).1) == (Run(m, s).0, s)
    decreases |s|
  {
    if |s| > 0 {
      var m1 := EncryptChar(m, s[0]).0;
      var c := EncryptChar(m, s[0]).1;
      EncryptCharReciprocal(m, s[0]);
      RunReciprocal(m1, s[1..]);
      var out := Run(m, s).1;
      assert out[0] == c && out[1..] == Run(m1, s[1..]).1;
      assert s == [s[0]] + s[1..];
    }
  }

  /** Letters become other letters and everything else is left unchanged. */
  lemma {:induction false} RunLetters(m: Machine, s: string)
    requires Ready(m) && ValidPlugboard(m.plugboard)
    ensures forall i :: 0 <= i < |s| ==>
              (IsAsciiUpper(s[i]) ==> IsAsciiUpper(Run(m, s).1[i]) && Run(m, s).1[i] != s[i]) &&
              (!IsAsciiUpper(s[i]) ==> Run(m, s).1[i] == s[i])
    decreases |s|
  {
    if |s| > 0 {
      var m1 := EncryptChar(m, s[0]).0;
      RunLetters(m1, s[1..]);
      var out := Run(m, s).1;
      assert out[1..] == Run(m1, s[1..]).1;
      assert forall i :: 1 <= i < |s| ==> s[i] == s[1..][i - 1] && out[i] == out[1..][i - 1];
    }
  }

  /** An upper-cased text has no lower-case letters, and neither does its
      ciphertext, so `process` upper-casing the ciphertext changes nothing. */
  lemma {:induction false} CiphertextIsUpperCase(m: Machine, text: string)
    requires Ready(m) && ValidPlugboard(m.plugboard)
    ensures ToUpper(Process(m, text).1) == Process(m, text).1
  {
    var u := ToUpper(text);
    var out := Run(m, u).1;
    RunLetters(m, u);
    assert forall i :: 0 <= i < |out| ==> ToUpperChar(out[i]) == out[i];
  }

  /** Reciprocity: with the same settings and a plugboard that cables no
      letter twice, processing the ciphertext returns the (upper-cased)
      plaintext. */
  lemma ProcessIsReciprocal(m: Machine, text: string)
    requires Ready(m) && ValidPlugboard(m.plugboard)
    ensures Process(m, Process(m, text).1).1 == ToUpper(text)
  {
    CiphertextIsUpperCase(m, text);
    RunReciprocal(m, ToUpper(text));
  }

  /** No letter of the message is enciphered as itself, and the characters
      that are not letters after upper-casing come out unchanged. */
  lemma NoLetterEncryptsToItself(m: Machine, text: string)
    requires Ready(m) && ValidPlugboard(m.plugboard)
    ensures forall i :: 0 <= i < |text| ==>
              (IsAsciiUpper(ToUpper(text)[i]) ==> Process(m, text).1[i] != ToUpper(text)[i]) &&
              (!IsAsciiUpper(ToUpper(text)[i]) ==> Process(m, text).1[i] == ToUpper(text)[i])
  {
    RunLetters(m, ToUpper(text));
  }

  /** Upper and lower case give the same ciphertext. */
  lemma ProcessIgnoresCase(m: Machine, text: string)
    requires Ready(m)
    ensures Process(m, ToLower(text)) == Process(m, text)
  {
    assert ToUpper(ToLower(text)) == ToUpper(text);
  }
}
