/**
 * The fixed tables of Simplified DES: the permutations (1-based source
 * positions, one per output position), the two S-boxes and the key
 * schedule's rotation amounts.
 */
module Tables {
  import opened Bits

  /** Initial permutation of the 8-bit block. */
  const IP: seq<int> := [2, 6, 3, 1, 4, 8, 5, 7]

  /** Final permutation, the inverse of IP. */
  const IPInv: seq<int> := [4, 1, 3, 5, 7, 2, 8, 6]

  /** Expansion of a 4-bit half to 8 bits (positions repeat). */
  const EP: seq<int> := [4, 1, 2, 3, 2, 3, 4, 1]

  /** Permutation of the 4 S-box output bits. */
  const P4: seq<int> := [2, 4, 3, 1]

  /** Permutation of the 10-bit key. */
  const P10: seq<int> := [3, 5, 2, 7, 4, 10, 1, 9, 8, 6]

  /** Selection of 8 of the 10 rotated key bits. */
  const P8: seq<int> := [6, 3, 7, 4, 8, 5, 10, 9]

  const S0: seq<seq<int>> := [[1, 0, 3, 2],
                              [3, 2, 1, 0],
                              [0, 2, 1, 3],
                              [3, 1, 3, 2]]

  const S1: seq<seq<int>> := [[0, 1, 2, 3],
                              [2, 0, 1, 3],
                              [3, 0, 1, 0],
                              [2, 1, 0, 3]]

  /** Rotation amount of each key-schedule round, applied cumulatively. */
  const Shifts: seq<nat> := [1, 2]

  /** A 4 by 4 grid of 2-bit values. */
  predicate ValidSBox(sbox: seq<seq<int>>)
  {
    |sbox| == 4 && forall i :: 0 <= i < 4 ==> |sbox[i]| == 4 && forall j :: 0 <= j < 4 ==> 0 <= sbox[i][j] <= 3
  }

  /** Each permutation table addresses only positions of the list it is applied to. */
  lemma TablesInRange()
    ensures InRange(IP, 8) && InRange(IPInv, 8) && InRange(EP, 4)
    ensures InRange(P4, 4) && InRange(P10, 10) && InRange(P8, 10)
    ensures Positive(IP) && Positive(IPInv) && Positive(EP)
    ensures Positive(P4) && Positive(P10) && Positive(P8)
  {
  }

  /** Both S-boxes hold only 2-bit values, so substitution never fails. */
  lemma SBoxesValid()
    ensures ValidSBox(S0) && ValidSBox(S1)
  {
  }

  /** IPInv undoes IP, and IP undoes IPInv, on every 8-bit block. */
  lemma IPInverse(x: seq<Bit>)
    requires |x| == 8
    ensures Permuted(Permuted(x, IP), IPInv) == x
    ensures Permuted(Permuted(x, IPInv), IP) == x
  {
    TablesInRange();
    PermutedUndone(x, IP, IPInv);
    PermutedUndone(x, IPInv, IP);
  }
}
