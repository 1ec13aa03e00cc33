/**
 * The all-zero key worked through by hand: its subkeys, the encryption of
 * the all-zero block, and the decryption of that ciphertext, which is not
 * the all-zero block. Because both loops exchange the halves after the last
 * round, decrypt does not undo encrypt in general.
 */
module ZeroKey {
  import opened Bits
  import opened Tables
  import opened Cipher

  predicate AllZero(bits: seq<Bit>)
  {
    forall i :: 0 <= i < |bits| ==> bits[i] == 0
  }

  /** The four 2-bit renderings an S-box entry can have. */
  lemma ToBitsTwo()
    ensures ToBits(0, 2) == [0, 0] && ToBits(1, 2) == [0, 1]
    ensures ToBits(2, 2) == [1, 0] && ToBits(3, 2) == [1, 1]
  {
    assert ToBits(0, 1) == [0] && ToBits(1, 1) == [1];
  }

  /** The all-zero key is an ordinary key: both of its subkeys are the all-zero byte. */
  lemma ZeroKeySubkeys(key: seq<Bit>)
    requires |key| == 10 && AllZero(key)
    ensures AllZero(SubkeysOf(key)[0]) && AllZero(SubkeysOf(key)[1])
  {
    TablesInRange();
    SubkeyRotations(key);
    var (l, r) := KeyHalves(key);
    assert AllZero(l) && AllZero(r);
  }

  /** F(0000, 0) = 1000: S0 row 0 column 0 is 1, S1 row 0 column 0 is 0. */
  lemma RoundFunction0000(x: seq<Bit>, k: seq<Bit>)
    requires x == [0, 0, 0, 0] && |k| == 8 && AllZero(k)
    ensures RoundFunction(x, k) == [1, 0, 0, 0]
  {
    TablesInRange();
    SBoxesValid();
    ToBitsTwo();
    var mixed := Xor(Permuted(x, EP), k);
    assert mixed == [0, 0, 0, 0, 0, 0, 0, 0];
    assert mixed[..4] == x && mixed[4..] == x;
  }

  /** F(1000, 0) = 1011: S0 row 0 column 2 is 3, S1 row 1 column 0 is 2. */
  lemma RoundFunction1000(x: seq<Bit>, k: seq<Bit>)
    requires x == [1, 0, 0, 0] && |k| == 8 && AllZero(k)
    ensures RoundFunction(x, k) == [1, 0, 1, 1]
  {
    TablesInRange();
    SBoxesValid();
    ToBitsTwo();
    var mixed := Xor(Permuted(x, EP), k);
    assert mixed == [0, 1, 0, 0, 0, 0, 0, 1];
    assert mixed[..4] == [0, 1, 0, 0] && mixed[4..] == [0, 0, 0, 1];
  }

  /** F(1011, 0) = 1111: S0 row 3 column 2 is 3, S1 row 1 column 3 is 3. */
  lemma RoundFunction1011(x: seq<Bit>, k: seq<Bit>)
    requires x == [1, 0, 1, 1] && |k| == 8 && AllZero(k)
    ensures RoundFunction(x, k) == [1, 1, 1, 1]
  {
    TablesInRange();
    SBoxesValid();
    ToBitsTwo();
    var mixed := Xor(Permuted(x, EP), k);
    assert mixed == [1, 1, 0, 1, 0, 1, 1, 1];
    assert mixed[..4] == [1, 1, 0, 1] && mixed[4..] == [0, 1, 1, 1];
  }

  /** F(0111, 0) = 1000: S0 row 3 column 1 is 1, S1 row 2 column 3 is 0. */
  lemma RoundFunction0111(x: seq<Bit>, k: seq<Bit>)
    requires x == [0, 1, 1, 1] && |k| == 8 && AllZero(k)
    ensures RoundFunction(x, k) == [1, 0, 0, 0]
  {
    TablesInRange();
    SBoxesValid();
    ToBitsTwo();
    var mixed := Xor(Permuted(x, EP), k);
    assert mixed == [1, 0, 1, 1, 1, 1, 1, 0];
    assert mixed[..4] == [1, 0, 1, 1] && mixed[4..] == [1, 1, 1, 0];
  }

  /** Two rounds under the all-zero subkeys, from the halves 0000 and 0000. */
  lemma RoundsFromZero(l: seq<Bit>, r: seq<Bit>, subkeys: seq<seq<Bit>>)
    requires l == [0, 0, 0, 0] && r == [0, 0, 0, 0]
    requires |subkeys| == 2 && |subkeys[0]| == 8 && AllZero(subkeys[0]) && |subkeys[1]| == 8 && AllZero(subkeys[1])
    ensures Rounds(l, r, subkeys) == ([1, 0, 0, 0], [1, 0, 1, 1])
  {
    RoundFunction0000(r, subkeys[0]);
    var r1 := Xor(l, RoundFunction(r, subkeys[0]));
    assert r1 == [1, 0, 0, 0];
    RoundFunction1000(r1, subkeys[1]);
    var r2 := Xor(r, RoundFunction(r1, subkeys[1]));
    assert r2 == [1, 0, 1, 1];
    assert subkeys[1..][0] == subkeys[1] && |subkeys[1..][1..]| == 0;
    assert Rounds(r1, r2, subkeys[1..][1..]) == (r1, r2);
  }

  /** Two rounds under the all-zero subkeys, from the halves 1000 and 1011. */
  lemma RoundsFromCiphertext(l: seq<Bit>, r: seq<Bit>, subkeys: seq<seq<Bit>>)
    requires l == [1, 0, 0, 0] && r == [1, 0, 1, 1]
    requires |subkeys| == 2 && |subkeys[0]| == 8 && AllZero(subkeys[0]) && |subkeys[1]| == 8 && AllZero(subkeys[1])
    ensures Rounds(l, r, subkeys) == ([0, 1, 1, 1], [0, 0, 1, 1])
  {
    RoundFunction1011(r, subkeys[0]);
    var r1 := Xor(l, RoundFunction(r, subkeys[0]));
    assert r1 == [0, 1, 1, 1];
    RoundFunction0111(r1, subkeys[1]);
    var r2 := Xor(r, RoundFunction(r1, subkeys[1]));
    assert r2 == [0, 0, 1, 1];
    assert subkeys[1..][0] == subkeys[1] && |subkeys[1..][1..]| == 0;
    assert Rounds(r1, r2, subkeys[1..][1..]) == (r1, r2);
  }

  /** The network on a block whose halves after IP are l and r. */
  lemma FeistelFromHalves(block: seq<Bit>, subkeys: seq<seq<Bit>>, l: seq<Bit>, r: seq<Bit>)
    requires |block| >= 8 && SubkeysFit(subkeys) && |l| == 4 && |r| == 4
    requires Permuted(block, IP) == l + r
    ensures var (a, b) := Rounds(l, r, subkeys);
      Feistel(block, subkeys) == Permuted(a + b, IPInv)
  {
    TablesInRange();
    assert SplitIntoHalf(l + r) == (l, r);
  }

  /** IP keeps the all-zero block all zero. */
  lemma ZeroBlockAfterIP(block: seq<Bit>)
    requires |block| == 8 && AllZero(block)
    ensures Permuted(block, IP) == [0, 0, 0, 0] + [0, 0, 0, 0]
  {
    TablesInRange();
  }

  /** IPInv applied to the halves 1000 and 1011. */
  lemma ZeroBlockCiphertext(a: seq<Bit>, b: seq<Bit>)
    requires a == [1, 0, 0, 0] && b == [1, 0, 1, 1]
    ensures Permuted(a + b, IPInv) == [0, 1, 0, 1, 1, 0, 1, 0]
  {
    TablesInRange();
  }

  /** IPInv applied to the halves 0111 and 0011. */
  lemma ZeroKeyDecryption(a: seq<Bit>, b: seq<Bit>)
    requires a == [0, 1, 1, 1] && b == [0, 0, 1, 1]
    ensures Permuted(a + b, IPInv) == [1, 0, 1, 0, 1, 1, 1, 0]
  {
    TablesInRange();
  }

  /** Under the all-zero key the all-zero block encrypts to 01011010. */
  lemma EncryptZeroBlock(plaintext: seq<Bit>, key: seq<Bit>)
    requires |plaintext| == 8 && AllZero(plaintext) && |key| == 10 && AllZero(key)
    ensures Enciphered(plaintext, key) == [0, 1, 0, 1, 1, 0, 1, 0]
  {
    ZeroKeySubkeys(key);
    var z4: seq<Bit> := [0, 0, 0, 0];
    ZeroBlockAfterIP(plaintext);
    FeistelFromHalves(plaintext, SubkeysOf(key), z4, z4);
    RoundsFromZero(z4, z4, SubkeysOf(key));
    ZeroBlockCiphertext([1, 0, 0, 0], [1, 0, 1, 1]);
  }

  /** Under the all-zero key a block whose halves after IP are 1000 and 1011 decrypts to 10101110. */
  lemma DecryptZeroKeyCiphertext(ciphertext: seq<Bit>, key: seq<Bit>)
    requires |ciphertext| == 8 && |key| == 10 && AllZero(key)
    requires Permuted(ciphertext, IP) == [1, 0, 0, 0, 1, 0, 1, 1]
    ensures Deciphered(ciphertext, key) == [1, 0, 1, 0, 1, 1, 1, 0]
  {
    ZeroKeySubkeys(key);
    var subkeys := SubkeysOf(key);
    var reversed := Reverse(subkeys);
    assert reversed[0] == subkeys[1] && reversed[1] == subkeys[0];
    var l: seq<Bit>, r: seq<Bit> := [1, 0, 0, 0], [1, 0, 1, 1];
    assert Permuted(ciphertext, IP) == l + r;
    FeistelFromHalves(ciphertext, reversed, l, r);
    RoundsFromCiphertext(l, r, reversed);
    ZeroKeyDecryption([0, 1, 1, 1], [0, 0, 1, 1]);
  }

  /**
   * Decrypt does not undo encrypt: under the all-zero key the all-zero
   * block encrypts and decrypts to 10101110.
   */
  lemma DecryptDoesNotUndoEncrypt(plaintext: seq<Bit>, key: seq<Bit>)
    requires |plaintext| == 8 && AllZero(plaintext) && |key| == 10 && AllZero(key)
    ensures Deciphered(Enciphered(plaintext, key), key) == [1, 0, 1, 0, 1, 1, 1, 0]
    ensures Deciphered(Enciphered(plaintext, key), key) != plaintext
  {
    EncryptZeroBlock(plaintext, key);
    IPInverse([1, 0, 0, 0, 1, 0, 1, 1]);
    DecryptZeroKeyCiphertext(Enciphered(plaintext, key), key);
    assert plaintext[0] == 0;
  }
}
