/** The letter tables of the Enigma machine: the wirings of rotors I, II
    and III and of reflector B, with the facts about them that the machine
    relies on.  Each fact about a table is checked one index at a time by
    a recursive predicate, unfolded from the last index down to the first,
    and then turned into a statement about every index. */
module Wirings {
  import opened Text

  /** Position of a capital letter in the alphabet. */
  function LetterIndex(c: char): int {
    c as int - 'A' as int
  }

  /** The letter with index `k` (0 for 'A'). */
  function Letter(k: int): (c: char)
    requires 0 <= k < 26
    ensures IsAsciiUpper(c) && LetterIndex(c) == k
  {
    ('A' as int + k) as char
  }

  /** A wiring is a permutation of the alphabet. */
  ghost predicate IsPermutation(w: string) {
    && |w| == 26
    && (forall i :: 0 <= i < 26 ==> IsAsciiUpper(w[i]))
    && (forall i, j :: 0 <= i < 26 && 0 <= j < 26 && w[i] == w[j] ==> i == j)
    && (forall k :: 0 <= k < 26 ==> Letter(k) in w)
  }

  // ---------------------------------------------------------------------
  // Rotors I, II and III
  // ---------------------------------------------------------------------

  const WIRING_I: string := "EKMFLGDQVZNTOWYHXUSPAIBRCJ"
  const WIRING_II: string := "AJDKSIRUXBLHWTMCQGZNPYFVOE"
  const WIRING_III: string := "BDFHJLCPRTXVZNYEIWGAKMUSQO"

  /** The inverse wirings: letter k of `INVERSE_I` is the contact that rotor
      I wires to letter k. */
  ghost const INVERSE_I: string := "UWYGADFPVZBECKMTHXSLRINQOJ"
  ghost const INVERSE_II: string := "AJPCZWRLFBDKOTYUQGENHXMIVS"
  ghost const INVERSE_III: string := "TAGBPCSDQEUFVNZHYIXJWLRKOM"

  /** Reading the letter at index `i` of `w` through `inv` gives back `i`. */
  ghost predicate UndoesAt(w: string, inv: string, i: int)
    requires |w| == 26 && |inv| == 26 && 0 <= i < 26
  {
    IsAsciiUpper(w[i]) && LetterIndex(inv[LetterIndex(w[i])]) == i
  }

  /** `w` and `inv` undo each other at every index from `k` on. */
  ghost predicate InverseFrom(w: string, inv: string, k: nat)
    requires |w| == 26 && |inv| == 26
    decreases 26 - k
  {
    k >= 26 || (UndoesAt(w, inv, k) && UndoesAt(inv, w, k) && InverseFrom(w, inv, k + 1))
  }

  lemma {:induction false} InverseFromAll(w: string, inv: string, k: nat)
    requires |w| == 26 && |inv| == 26 && InverseFrom(w, inv, k)
    ensures forall i :: k <= i < 26 ==> UndoesAt(w, inv, i) && UndoesAt(inv, w, i)
    decreases 26 - k
  {
    if k < 26 {
      InverseFromAll(w, inv, k + 1);
    }
  }

  /** A table undone by another holds 26 distinct capitals. */
  lemma {:induction false} UndoneIsInjective(w: string, inv: string)
    requires |w| == 26 && |inv| == 26
    requires forall i :: 0 <= i < 26 ==> UndoesAt(w, inv, i)
    ensures forall i :: 0 <= i < 26 ==> IsAsciiUpper(w[i])
    ensures forall i, j :: 0 <= i < 26 && 0 <= j < 26 && w[i] == w[j] ==> i == j
  {
    forall i | 0 <= i < 26
      ensures IsAsciiUpper(w[i])
    {
      assert UndoesAt(w, inv, i);
    }
    forall i, j | 0 <= i < 26 && 0 <= j < 26 && w[i] == w[j]
      ensures i == j
    {
      assert UndoesAt(w, inv, i) && UndoesAt(w, inv, j);
    }
  }

  /** A table that undoes another holds every capital. */
  lemma {:induction false} UndoingCovers(w: string, inv: string)
    requires |w| == 26 && |inv| == 26
    requires forall i :: 0 <= i < 26 ==> UndoesAt(inv, w, i)
    requires forall i :: 0 <= i < 26 ==> IsAsciiUpper(w[i])
    ensures forall k :: 0 <= k < 26 ==> Letter(k) in w
  {
    forall k | 0 <= k < 26
      ensures Letter(k) in w
    {
      assert UndoesAt(inv, w, k);
      var j := LetterIndex(inv[k]);
      assert IsAsciiUpper(w[j]) && LetterIndex(w[j]) == k;
      assert w[j] == Letter(k);
    }
  }

  /** Two tables that undo each other are permutations. */
  lemma {:induction false} InverseGivesPermutation(w: string, inv: string)
    requires |w| == 26 && |inv| == 26 && InverseFrom(w, inv, 0)
    ensures IsPermutation(w)
  {
    InverseFromAll(w, inv, 0);
    UndoneIsInjective(w, inv);
    UndoingCovers(w, inv);
  }

  /** Rotor I is wired as a permutation of A-Z. */
  lemma WiringIIsPermutation()
    ensures IsPermutation(WIRING_I)
  {
    assert |WIRING_I| == 26 && |INVERSE_I| == 26;
    assert InverseFrom(WIRING_I, INVERSE_I, 25);
    assert InverseFrom(WIRING_I, INVERSE_I, 24);
    assert InverseFrom(WIRING_I, INVERSE_I, 23);
    assert InverseFrom(WIRING_I, INVERSE_I, 22);
    assert InverseFrom(WIRING_I, INVERSE_I, 21);
    assert InverseFrom(WIRING_I, INVERSE_I, 20);
    assert InverseFrom(WIRING_I, INVERSE_I, 19);
    assert InverseFrom(WIRING_I, INVERSE_I, 18);
    assert InverseFrom(WIRING_I, INVERSE_I, 17);
    assert InverseFrom(WIRING_I, INVERSE_I, 16);
    assert InverseFrom(WIRING_I, INVERSE_I, 15);
    assert InverseFrom(WIRING_I, INVERSE_I, 14);
    assert InverseFrom(WIRING_I, INVERSE_I, 13);
    assert InverseFrom(WIRING_I, INVERSE_I, 12);
    assert InverseFrom(WIRING_I, INVERSE_I, 11);
    assert InverseFrom(WIRING_I, INVERSE_I, 10);
    assert InverseFrom(WIRING_I, INVERSE_I, 9);
    assert InverseFrom(WIRING_I, INVERSE_I, 8);
    assert InverseFrom(WIRING_I, INVERSE_I, 7);
    assert InverseFrom(WIRING_I, INVERSE_I, 6);
    assert InverseFrom(WIRING_I, INVERSE_I, 5);
    assert InverseFrom(WIRING_I, INVERSE_I, 4);
    assert InverseFrom(WIRING_I, INVERSE_I, 3);
    assert InverseFrom(WIRING_I, INVERSE_I, 2);
    assert InverseFrom(WIRING_I, INVERSE_I, 1);
    assert InverseFrom(WIRING_I, INVERSE_I, 0);
    InverseGivesPermutation(WIRING_I, INVERSE_I);
  }

  /** Rotor II is wired as a permutation of A-Z. */
  lemma WiringIIIsPermutation()
    ensures IsPermutation(WIRING_II)
  {
    assert |WIRING_II| == 26 && |INVERSE_II| == 26;
    assert InverseFrom(WIRING_II, INVERSE_II, 25);
    assert InverseFrom(WIRING_II, INVERSE_II, 24);
    assert InverseFrom(WIRING_II, INVERSE_II, 23);
    assert InverseFrom(WIRING_II, INVERSE_II, 22);
    assert InverseFrom(WIRING_II, INVERSE_II, 21);
    assert InverseFrom(WIRING_II, INVERSE_II, 20);
    assert InverseFrom(WIRING_II, INVERSE_II, 19);
    assert InverseFrom(WIRING_II, INVERSE_II, 18);
    assert InverseFrom(WIRING_II, INVERSE_II, 17);
    assert InverseFrom(WIRING_II, INVERSE_II, 16);
    assert InverseFrom(WIRING_II, INVERSE_II, 15);
    assert InverseFrom(WIRING_II, INVERSE_II, 14);
    assert InverseFrom(WIRING_II, INVERSE_II, 13);
    assert InverseFrom(WIRING_II, INVERSE_II, 12);
    assert InverseFrom(WIRING_II, INVERSE_II, 11);
    assert InverseFrom(WIRING_II, INVERSE_II, 10);
    assert InverseFrom(WIRING_II, INVERSE_II, 9);
    assert InverseFrom(WIRING_II, INVERSE_II, 8);
    assert InverseFrom(WIRING_II, INVERSE_II, 7);
    assert InverseFrom(WIRING_II, INVERSE_II, 6);
    assert InverseFrom(WIRING_II, INVERSE_II, 5);
    assert InverseFrom(WIRING_II, INVERSE_II, 4);
    assert InverseFrom(WIRING_II, INVERSE_II, 3);
    assert InverseFrom(WIRING_II, INVERSE_II, 2);
    assert InverseFrom(WIRING_II, INVERSE_II, 1);
    assert InverseFrom(WIRING_II, INVERSE_II, 0);
    InverseGivesPermutation(WIRING_II, INVERSE_II);
  }

  /** Rotor III is wired as a permutation of A-Z. */
  lemma WiringIIIIsPermutation()
    ensures IsPermutation(WIRING_III)
  {
    assert |WIRING_III| == 26 && |INVERSE_III| == 26;
    assert InverseFrom(WIRING_III, INVERSE_III, 25);
    assert InverseFrom(WIRING_III, INVERSE_III, 24);
    assert InverseFrom(WIRING_III, INVERSE_III, 23);
    assert InverseFrom(WIRING_III, INVERSE_III, 22);
    assert InverseFrom(WIRING_III, INVERSE_III, 21);
    assert InverseFrom(WIRING_III, INVERSE_III, 20);
    assert InverseFrom(WIRING_III, INVERSE_III, 19);
    assert InverseFrom(WIRING_III, INVERSE_III, 18);
    assert InverseFrom(WIRING_III, INVERSE_III, 17);
    assert InverseFrom(WIRING_III, INVERSE_III, 16);
    assert InverseFrom(WIRING_III, INVERSE_III, 15);
    assert InverseFrom(WIRING_III, INVERSE_III, 14);
    assert InverseFrom(WIRING_III, INVERSE_III, 13);
    assert InverseFrom(WIRING_III, INVERSE_III, 12);
    assert InverseFrom(WIRING_III, INVERSE_III, 11);
    assert InverseFrom(WIRING_III, INVERSE_III, 10);
    assert InverseFrom(WIRING_III, INVERSE_III, 9);
    assert InverseFrom(WIRING_III, INVERSE_III, 8);
    assert InverseFrom(WIRING_III, INVERSE_III, 7);
    assert InverseFrom(WIRING_III, INVERSE_III, 6);
    assert InverseFrom(WIRING_III, INVERSE_III, 5);
    assert InverseFrom(WIRING_III, INVERSE_III, 4);
    assert InverseFrom(WIRING_III, INVERSE_III, 3);
    assert InverseFrom(WIRING_III, INVERSE_III, 2);
    assert InverseFrom(WIRING_III, INVERSE_III, 1);
    assert InverseFrom(WIRING_III, INVERSE_III, 0);
    InverseGivesPermutation(WIRING_III, INVERSE_III);
  }

  // ---------------------------------------------------------------------
  // Reflector B
  // ---------------------------------------------------------------------

  /** The reflector as a string indexed by letter (defined in the source
      next to the pair list, which is what the machine actually uses). */
  const REFLECTOR: string := "YRUHQSLDPXNGOKMIEBFZCWVJAT"

  const REFLECTOR_PAIRS: seq<(char, char)> := [
    ('A', 'Y'), ('B', 'R'), ('C', 'U'), ('D', 'H'), ('E', 'Q'), ('F', 'S'),
    ('G', 'L'), ('I', 'P'), ('J', 'X'), ('K', 'N'), ('M', 'O'), ('T', 'Z'), ('V', 'W')
  ]

  /** Pair `k` is listed in `table` in both directions. */
  ghost predicate PairFollowsTable(pairs: seq<(char, char)>, table: string, k: int)
    requires |table| == 26 && 0 <= k < |pairs|
  {
    && IsAsciiUpper(pairs[k].0) && IsAsciiUpper(pairs[k].1)
    && table[LetterIndex(pairs[k].0)] == pairs[k].1
    && table[LetterIndex(pairs[k].1)] == pairs[k].0
  }

  /** Each pair is listed in `table` in both directions. */
  ghost predicate PairsFollowTable(pairs: seq<(char, char)>, table: string) {
    |table| == 26 && forall k :: 0 <= k < |pairs| ==> PairFollowsTable(pairs, table, k)
  }

  /** Pairs `k` onwards are listed in `table` in both directions. */
  ghost predicate PairsFollowTableFrom(pairs: seq<(char, char)>, table: string, k: nat)
    requires |table| == 26
    decreases |pairs| - k
  {
    k >= |pairs| || (PairFollowsTable(pairs, table, k) && PairsFollowTableFrom(pairs, table, k + 1))
  }

  lemma {:induction false} PairsFollowTableFromAll(pairs: seq<(char, char)>, table: string, k: nat)
    requires |table| == 26 && PairsFollowTableFrom(pairs, table, k)
    ensures forall i :: k <= i < |pairs| ==> PairFollowsTable(pairs, table, i)
    decreases |pairs| - k
  {
    if k < |pairs| {
      PairsFollowTableFromAll(pairs, table, k + 1);
    }
  }

  /** The pair in which each letter of the alphabet appears. */
  ghost const PAIR_OF_LETTER: seq<int> :=
    [0, 1, 2, 3, 4, 5, 6, 3, 7, 8, 9, 6, 10, 9, 10, 7, 4, 1, 5, 11, 2, 12, 12, 8, 0, 11]

  /** At index `i` the table holds a capital other than letter `i`, reading
      the table twice returns `i`, and pair `cover[i]` holds letter `i`. */
  ghost predicate ReflectsAt(table: string, pairs: seq<(char, char)>, cover: seq<int>, i: int)
    requires |table| == 26 && |cover| == 26 && 0 <= i < 26
  {
    && IsAsciiUpper(table[i]) && LetterIndex(table[i]) != i
    && LetterIndex(table[LetterIndex(table[i])]) == i
    && 0 <= cover[i] < |pairs|
    && (pairs[cover[i]].0 == Letter(i) || pairs[cover[i]].1 == Letter(i))
  }

  ghost predicate ReflectsFrom(table: string, pairs: seq<(char, char)>, cover: seq<int>, k: nat)
    requires |table| == 26 && |cover| == 26
    decreases 26 - k
  {
    k >= 26 || (ReflectsAt(table, pairs, cover, k) && ReflectsFrom(table, pairs, cover, k + 1))
  }

  lemma {:induction false} ReflectsFromAll(table: string, pairs: seq<(char, char)>, cover: seq<int>, k: nat)
    requires |table| == 26 && |cover| == 26 && ReflectsFrom(table, pairs, cover, k)
    ensures forall i :: k <= i < 26 ==> ReflectsAt(table, pairs, cover, i)
    decreases 26 - k
  {
    if k < 26 {
      ReflectsFromAll(table, pairs, cover, k + 1);
    }
  }

  /** The pair list agrees with the reflector string, which pairs every
      letter with a different letter and is its own inverse, and every
      letter occurs in some pair. */
  lemma ReflectorTables()
    ensures |REFLECTOR| == 26 && |PAIR_OF_LETTER| == 26
    ensures PairsFollowTable(REFLECTOR_PAIRS, REFLECTOR)
    ensures forall i :: 0 <= i < 26 ==> ReflectsAt(REFLECTOR, REFLECTOR_PAIRS, PAIR_OF_LETTER, i)
  {
    assert |REFLECTOR| == 26 && |REFLECTOR_PAIRS| == 13 && |PAIR_OF_LETTER| == 26;
    assert PairsFollowTableFrom(REFLECTOR_PAIRS, REFLECTOR, 12);
    assert PairsFollowTableFrom(REFLECTOR_PAIRS, REFLECTOR, 11);
    assert PairsFollowTableFrom(REFLECTOR_PAIRS, REFLECTOR, 10);
    assert PairsFollowTableFrom(REFLECTOR_PAIRS, REFLECTOR, 9);
    assert PairsFollowTableFrom(REFLECTOR_PAIRS, REFLECTOR, 8);
    assert PairsFollowTableFrom(REFLECTOR_PAIRS, REFLECTOR, 7);
    assert PairsFollowTableFrom(REFLECTOR_PAIRS, REFLECTOR, 6);
    assert PairsFollowTableFrom(REFLECTOR_PAIRS, REFLECTOR, 5);
    assert PairsFollowTableFrom(REFLECTOR_PAIRS, REFLECTOR, 4);
    assert PairsFollowTableFrom(REFLECTOR_PAIRS, REFLECTOR, 3);
    assert PairsFollowTableFrom(REFLECTOR_PAIRS, REFLECTOR, 2);
    assert PairsFollowTableFrom(REFLECTOR_PAIRS, REFLECTOR, 1);
    assert PairsFollowTableFrom(REFLECTOR_PAIRS, REFLECTOR, 0);
    PairsFollowTableFromAll(REFLECTOR_PAIRS, REFLECTOR, 0);
    assert ReflectsFrom(REFLECTOR, REFLECTOR_PAIRS, PAIR_OF_LETTER, 25);
    assert ReflectsFrom(REFLECTOR, REFLECTOR_PAIRS, PAIR_OF_LETTER, 24);
    assert ReflectsFrom(REFLECTOR, REFLECTOR_PAIRS, PAIR_OF_LETTER, 23);
    assert ReflectsFrom(REFLECTOR, REFLECTOR_PAIRS, PAIR_OF_LETTER, 22);
    assert ReflectsFrom(REFLECTOR, REFLECTOR_PAIRS, PAIR_OF_LETTER, 21);
    assert ReflectsFrom(REFLECTOR, REFLECTOR_PAIRS, PAIR_OF_LETTER, 20);
    assert ReflectsFrom(REFLECTOR, REFLECTOR_PAIRS, PAIR_OF_LETTER, 19);
    assert ReflectsFrom(REFLECTOR, REFLECTOR_PAIRS, PAIR_OF_LETTER, 18);
    assert ReflectsFrom(REFLECTOR, REFLECTOR_PAIRS, PAIR_OF_LETTER, 17);
    assert ReflectsFrom(REFLECTOR, REFLECTOR_PAIRS, PAIR_OF_LETTER, 16);
    assert ReflectsFrom(REFLECTOR, REFLECTOR_PAIRS, PAIR_OF_LETTER, 15);
    assert ReflectsFrom(REFLECTOR, REFLECTOR_PAIRS, PAIR_OF_LETTER, 14);
    assert ReflectsFrom(REFLECTOR, REFLECTOR_PAIRS, PAIR_OF_LETTER, 13);
    assert ReflectsFrom(REFLECTOR, REFLECTOR_PAIRS, PAIR_OF_LETTER, 12);
    assert ReflectsFrom(REFLECTOR, REFLECTOR_PAIRS, PAIR_OF_LETTER, 11);
    assert ReflectsFrom(REFLECTOR, REFLECTOR_PAIRS, PAIR_OF_LETTER, 10);
    assert ReflectsFrom(REFLECTOR, REFLECTOR_PAIRS, PAIR_OF_LETTER, 9);
    assert ReflectsFrom(REFLECTOR, REFLECTOR_PAIRS, PAIR_OF_LETTER, 8);
    assert ReflectsFrom(REFLECTOR, REFLECTOR_PAIRS, PAIR_OF_LETTER, 7);
    assert ReflectsFrom(REFLECTOR, REFLECTOR_PAIRS, PAIR_OF_LETTER, 6);
    assert ReflectsFrom(REFLECTOR, REFLECTOR_PAIRS, PAIR_OF_LETTER, 5);
    assert ReflectsFrom(REFLECTOR, REFLECTOR_PAIRS, PAIR_OF_LETTER, 4);
    assert ReflectsFrom(REFLECTOR, REFLECTOR_PAIRS, PAIR_OF_LETTER, 3);
    assert ReflectsFrom(REFLECTOR, REFLECTOR_PAIRS, PAIR_OF_LETTER, 2);
    assert ReflectsFrom(REFLECTOR, REFLECTOR_PAIRS, PAIR_OF_LETTER, 1);
    assert ReflectsFrom(REFLECTOR, REFLECTOR_PAIRS, PAIR_OF_LETTER, 0);
    ReflectsFromAll(REFLECTOR, REFLECTOR_PAIRS, PAIR_OF_LETTER, 0);
  }

  /** The facts about the reflector string at one index. */
  lemma ReflectorAt(i: int)
    requires 0 <= i < 26
    ensures |REFLECTOR| == 26 && |PAIR_OF_LETTER| == 26
    ensures ReflectsAt(REFLECTOR, REFLECTOR_PAIRS, PAIR_OF_LETTER, i)
  {
    ReflectorTables();
  }
}
