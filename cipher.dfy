/**
 * The Simplified DES cipher: S-box substitution, the round function, the
 * key schedule and the two-round Feistel network behind encrypt and decrypt.
 * Each loop of the source is a method proved equal to a recursive
 * specification function; the properties are proved about those functions.
 */
module Cipher {
  import opened Bits
  import opened Tables

  /** S-box row: the outer bits b0 b3 read as a 2-bit number. */
  function Row(bits: seq<Bit>): (r: nat)
    requires |bits| >= 4
    ensures r == 2 * (bits[0] as int) + bits[3] && r <= 3
  {
    FromTwoBits(bits[0], bits[3]);
    FromBits([bits[0], bits[3]])
  }

  /** S-box column: the inner bits b1 b2 read as a 2-bit number. */
  function Col(bits: seq<Bit>): (r: nat)
    requires |bits| >= 4
    ensures r == 2 * (bits[1] as int) + bits[2] && r <= 3
  {
    FromTwoBits(bits[1], bits[2]);
    FromBits([bits[1], bits[2]])
  }

  /** substitute: the S-box entry at (row, col), as 2 bits, most significant first. */
  function Substitute(bits: seq<Bit>, sbox: seq<seq<int>>): (r: seq<Bit>)
    requires |bits| >= 4 && ValidSBox(sbox)
    ensures |r| == 2
    ensures FromBits(r) == sbox[Row(bits)][Col(bits)]
  {
    var v := sbox[Row(bits)][Col(bits)];
    assert Pow2(2) == 4;
    FromToBits(v, 2);
    ToBits(v, 2)
  }

  /** round_function: EP, exclusive-or with the subkey, S0 and S1, then P4. */
  function RoundFunction(bits: seq<Bit>, key: seq<Bit>): (r: seq<Bit>)
    requires |bits| >= 4 && |key| >= 8
    ensures |r| == 4
  {
    TablesInRange();
    SBoxesValid();
    var mixed := Xor(Permuted(bits, EP), key);
    Permuted(Substitute(mixed[..4], S0) + Substitute(mixed[4..], S1), P4)
  }

  /**
   * The loop of generate_subkeys from halves (left, right): each amount
   * rotates both halves further, and P8 of the rotated halves is the next subkey.
   */
  function Schedule(left: seq<Bit>, right: seq<Bit>, shifts: seq<nat>): (r: seq<seq<Bit>>)
    requires |left| + |right| == 10
    ensures |r| == |shifts|
    ensures forall i :: 0 <= i < |r| ==> |r[i]| == 8
    decreases |shifts|
  {
    if shifts == [] then []
    else
      var l := LeftCircularShift(left, shifts[0]);
      var rr := LeftCircularShift(right, shifts[0]);
      TablesInRange();
      [Permuted(l + rr, P8)] + Schedule(l, rr, shifts[1..])
  }

  /** The halves of the key after P10. */
  function KeyHalves(key: seq<Bit>): (r: (seq<Bit>, seq<Bit>))
    requires |key| >= 10
    ensures |r.0| == 5 && |r.1| == 5
  {
    TablesInRange();
    SplitIntoHalf(Permuted(key, P10))
  }

  /** The subkeys generate_subkeys returns for a key. */
  function SubkeysOf(key: seq<Bit>): (r: seq<seq<Bit>>)
    requires |key| >= 10
    ensures |r| == 2 && |r[0]| == 8 && |r[1]| == 8
  {
    var (left, right) := KeyHalves(key);
    Schedule(left, right, Shifts)
  }

  /**
   * Because the rotations accumulate, subkey 1 is P8 of the halves rotated
   * by 1 and subkey 2 is P8 of the halves rotated by 3.
   */
  lemma SubkeyRotations(key: seq<Bit>)
    requires |key| >= 10
    ensures var (left, right) := KeyHalves(key);
      SubkeysOf(key) == [Permuted(LeftCircularShift(left, 1) + LeftCircularShift(right, 1), P8),
                         Permuted(LeftCircularShift(left, 3) + LeftCircularShift(right, 3), P8)]
  {
    TablesInRange();
    var (left, right) := KeyHalves(key);
    var l1, r1 := LeftCircularShift(left, 1), LeftCircularShift(right, 1);
    ShiftCompose(left, 1, 2);
    ShiftCompose(right, 1, 2);
    assert Shifts[1..] == [2];
    assert Schedule(l1, r1, [2]) == [Permuted(LeftCircularShift(l1, 2) + LeftCircularShift(r1, 2), P8)];
  }

  /** generate_subkeys: P10, split, then one rotation and one P8 per shift amount. */
  method GenerateSubkeys(key: seq<Bit>) returns (subkeys: seq<seq<Bit>>)
    requires |key| >= 10
    ensures subkeys == SubkeysOf(key)
  {
    TablesInRange();
    var permuted := Permuted(key, P10);
    var left, right := SplitIntoHalf(permuted).0, SplitIntoHalf(permuted).1;
    subkeys := [];
    for i := 0 to |Shifts|
      invariant |left| == 5 && |right| == 5
      invariant subkeys + Schedule(left, right, Shifts[i..]) == SubkeysOf(key)
    {
      left := LeftCircularShift(left, Shifts[i]);
      right := LeftCircularShift(right, Shifts[i]);
      subkeys := subkeys + [Permuted(left + right, P8)];
    }
  }

  /** Every subkey is long enough for the round function. */
  predicate SubkeysFit(subkeys: seq<seq<Bit>>)
  {
    forall i :: 0 <= i < |subkeys| ==> |subkeys[i]| >= 8
  }

  /** One Feistel round: (L, R) becomes (R, L xor F(R, k)). */
  function Round(left: seq<Bit>, right: seq<Bit>, subkey: seq<Bit>): (r: (seq<Bit>, seq<Bit>))
    requires |left| == 4 && |right| == 4 && |subkey| >= 8
    ensures r.0 == right && |r.1| == 4
  {
    (right, Xor(left, RoundFunction(right, subkey)))
  }

  /** The round loop of encrypt and decrypt, one round per subkey in order. */
  function Rounds(left: seq<Bit>, right: seq<Bit>, subkeys: seq<seq<Bit>>): (r: (seq<Bit>, seq<Bit>))
    requires |left| == 4 && |right| == 4 && SubkeysFit(subkeys)
    ensures |r.0| == 4 && |r.1| == 4
    decreases |subkeys|
  {
    if subkeys == [] then (left, right)
    else
      var (l, rr) := Round(left, right, subkeys[0]);
      Rounds(l, rr, subkeys[1..])
  }

  /** IP, the round loop over the given subkeys, then IPInv on the halves as they stand. */
  function Feistel(block: seq<Bit>, subkeys: seq<seq<Bit>>): (r: seq<Bit>)
    requires |block| >= 8 && SubkeysFit(subkeys)
    ensures |r| == 8
  {
    TablesInRange();
    var (left, right) := SplitIntoHalf(Permuted(block, IP));
    var (l, rr) := Rounds(left, right, subkeys);
    Permuted(l + rr, IPInv)
  }

  /** The sequence in reverse order, as Python's `reversed` walks it. */
  function Reverse<T>(s: seq<T>): (r: seq<T>)
    ensures |r| == |s|
    ensures forall i :: 0 <= i < |s| ==> r[i] == s[|s| - 1 - i]
  {
    if s == [] then [] else [s[|s| - 1]] + Reverse(s[..|s| - 1])
  }

  /** Reversing a non-empty sequence puts its first element last. */
  lemma {:induction false} ReverseFirst<T>(s: seq<T>)
    requires |s| > 0
    ensures Reverse(s) == Reverse(s[1..]) + [s[0]]
  {
    if |s| > 1 {
      var init := s[..|s| - 1];
      ReverseFirst(init);
      assert init[1..] == s[1..][..|s| - 2];
      assert s[1..][|s| - 2] == s[|s| - 1];
    }
  }

  /** What encrypt computes: the Feistel network with the subkeys in schedule order. */
  function Enciphered(plaintext: seq<Bit>, key: seq<Bit>): (r: seq<Bit>)
    requires |plaintext| >= 8 && |key| >= 10
    ensures |r| == 8
  {
    Feistel(plaintext, SubkeysOf(key))
  }

  /** What decrypt computes: the same network with the subkeys reversed. */
  function Deciphered(ciphertext: seq<Bit>, key: seq<Bit>): (r: seq<Bit>)
    requires |ciphertext| >= 8 && |key| >= 10
    ensures |r| == 8
  {
    Feistel(ciphertext, Reverse(SubkeysOf(key)))
  }

  /** encrypt: IP, split, the round loop over the subkeys, then IPInv. */
  method Encrypt(plaintext: seq<Bit>, key: seq<Bit>) returns (ciphertext: seq<Bit>)
    requires |plaintext| >= 8 && |key| >= 10
    ensures ciphertext == Enciphered(plaintext, key)
  {
    TablesInRange();
    var permuted := Permuted(plaintext, IP);
    var subkeys := GenerateSubkeys(key);
    var left, right := SplitIntoHalf(permuted).0, SplitIntoHalf(permuted).1;
    ghost var goal := Rounds(left, right, subkeys);
    for i := 0 to |subkeys|
      invariant |left| == 4 && |right| == 4
      invariant Rounds(left, right, subkeys[i..]) == goal
    {
      left, right := right, Xor(left, RoundFunction(right, subkeys[i]));
    }
    ciphertext := Permuted(left + right, IPInv);
  }

  /** decrypt: as encrypt, walking the subkeys from last to first. */
  method Decrypt(ciphertext: seq<Bit>, key: seq<Bit>) returns (plaintext: seq<Bit>)
    requires |ciphertext| >= 8 && |key| >= 10
    ensures plaintext == Deciphered(ciphertext, key)
  {
    TablesInRange();
    var permuted := Permuted(ciphertext, IP);
    var subkeys := GenerateSubkeys(key);
    var left, right := SplitIntoHalf(permuted).0, SplitIntoHalf(permuted).1;
    ghost var goal := Rounds(left, right, Reverse(subkeys));
    var i := |subkeys|;
    assert subkeys[..i] == subkeys;
    while i > 0
      invariant 0 <= i <= |subkeys|
      invariant |left| == 4 && |right| == 4
      invariant Rounds(left, right, Reverse(subkeys[..i])) == goal
    {
      i := i - 1;
      assert subkeys[..i + 1][..i] == subkeys[..i];
      left, right := right, Xor(left, RoundFunction(right, subkeys[i]));
    }
    plaintext := Permuted(left + right, IPInv);
  }

  /** Appending a subkey appends one round after the others. */
  lemma {:induction false} RoundsAppend(left: seq<Bit>, right: seq<Bit>, subkeys: seq<seq<Bit>>, subkey: seq<Bit>)
    requires |left| == 4 && |right| == 4 && SubkeysFit(subkeys) && |subkey| >= 8
    ensures SubkeysFit(subkeys + [subkey])
    ensures var (l, r) := Rounds(left, right, subkeys);
      Rounds(left, right, subkeys + [subkey]) == Round(l, r, subkey)
    decreases |subkeys|
  {
    if subkeys != [] {
      var (l, r) := Round(left, right, subkeys[0]);
      assert (subkeys + [subkey])[1..] == subkeys[1..] + [subkey];
      RoundsAppend(l, r, subkeys[1..], subkey);
    }
  }

  /**
   * Each round is invertible: running the rounds again, with the subkeys
   * reversed, on the exchanged output halves gives back the input halves,
   * exchanged.
   */
  lemma {:induction false} RoundsUndone(left: seq<Bit>, right: seq<Bit>, subkeys: seq<seq<Bit>>)
    requires |left| == 4 && |right| == 4 && SubkeysFit(subkeys)
    ensures SubkeysFit(Reverse(subkeys))
    ensures var (l, r) := Rounds(left, right, subkeys);
      Rounds(r, l, Reverse(subkeys)) == (right, left)
    decreases |subkeys|
  {
    if subkeys != [] {
      var k := subkeys[0];
      var (l1, r1) := Round(left, right, k);
      RoundsUndone(l1, r1, subkeys[1..]);
      var (a, b) := Rounds(l1, r1, subkeys[1..]);
      ReverseFirst(subkeys);
      RoundsAppend(b, a, Reverse(subkeys[1..]), k);
      XorSelfInverse(left, RoundFunction(right, k));
    }
  }

  /** IPInv of the block's two halves after IP, exchanged: the final swap textbook S-DES has and this cipher lacks. */
  function SwapHalves(block: seq<Bit>): (r: seq<Bit>)
    requires |block| >= 8
    ensures |r| == 8
  {
    TablesInRange();
    var p := Permuted(block, IP);
    Permuted(p[4..] + p[..4], IPInv)
  }

  /** Exchanging the halves twice leaves an 8-bit block unchanged. */
  lemma SwapHalvesInvolution(block: seq<Bit>)
    requires |block| == 8
    ensures SwapHalves(SwapHalves(block)) == block
  {
    TablesInRange();
    var p := Permuted(block, IP);
    var once := p[4..] + p[..4];
    IPInverse(once);
    assert once[4..] + once[..4] == p;
    IPInverse(block);
  }

  /** The Feistel network with reversed subkeys, between two half swaps, undoes the network. */
  lemma FeistelUndone(block: seq<Bit>, subkeys: seq<seq<Bit>>)
    requires |block| == 8 && SubkeysFit(subkeys)
    ensures SubkeysFit(Reverse(subkeys))
    ensures SwapHalves(Feistel(SwapHalves(Feistel(block, subkeys)), Reverse(subkeys))) == block
  {
    TablesInRange();
    var p := Permuted(block, IP);
    var (l, r) := SplitIntoHalf(p);
    RoundsUndone(l, r, subkeys);
    var (a, b) := Rounds(l, r, subkeys);
    IPInverse(a + b);
    assert (a + b)[4..] + (a + b)[..4] == b + a;
    IPInverse(b + a);
    assert SplitIntoHalf(b + a) == (b, a);
    IPInverse(r + l);
    assert (r + l)[4..] + (r + l)[..4] == l + r;
    IPInverse(block);
  }

  /** The plaintext that encrypts to a ciphertext: decrypt between two half swaps. */
  function Preimage(ciphertext: seq<Bit>, key: seq<Bit>): (r: seq<Bit>)
    requires |ciphertext| >= 8 && |key| >= 10
    ensures |r| == 8
  {
    SwapHalves(Deciphered(SwapHalves(ciphertext), key))
  }

  /** Preimage recovers every plaintext from its encryption. */
  lemma PreimageOfEncrypt(plaintext: seq<Bit>, key: seq<Bit>)
    requires |plaintext| == 8 && |key| >= 10
    ensures Preimage(Enciphered(plaintext, key), key) == plaintext
  {
    FeistelUndone(plaintext, SubkeysOf(key));
  }

  /** Encrypting the preimage of a ciphertext gives the ciphertext back. */
  lemma EncryptOfPreimage(ciphertext: seq<Bit>, key: seq<Bit>)
    requires |ciphertext| == 8 && |key| >= 10
    ensures Enciphered(Preimage(ciphertext, key), key) == ciphertext
  {
    var subkeys := SubkeysOf(key);
    var x := SwapHalves(ciphertext);
    FeistelUndone(x, Reverse(subkeys));
    assert Reverse(Reverse(subkeys)) == subkeys;
    SwapHalvesInvolution(ciphertext);
    SwapHalvesInvolution(Enciphered(Preimage(ciphertext, key), key));
  }

  /** For a fixed key, distinct 8-bit plaintexts encrypt to distinct ciphertexts. */
  lemma EncryptInjective(p1: seq<Bit>, p2: seq<Bit>, key: seq<Bit>)
    requires |p1| == 8 && |p2| == 8 && |key| >= 10
    ensures Enciphered(p1, key) == Enciphered(p2, key) ==> p1 == p2
  {
    PreimageOfEncrypt(p1, key);
    PreimageOfEncrypt(p2, key);
  }

  /**
   * Decrypt undoes encrypt on a block exactly when exchanging the halves
   * commutes with encrypting that block.
   */
  lemma DecryptUndoesEncryptIff(plaintext: seq<Bit>, key: seq<Bit>)
    requires |plaintext| == 8 && |key| >= 10
    ensures Deciphered(Enciphered(plaintext, key), key) == plaintext
        <==> SwapHalves(Enciphered(plaintext, key)) == Enciphered(SwapHalves(plaintext), key)
  {
    var c := Enciphered(plaintext, key);
    var sc := SwapHalves(c);
    SwapHalvesInvolution(c);
    SwapHalvesInvolution(plaintext);
    SwapHalvesInvolution(Deciphered(c, key));
    assert Preimage(sc, key) == SwapHalves(Deciphered(c, key));
    EncryptOfPreimage(sc, key);
    PreimageOfEncrypt(SwapHalves(plaintext), key);
  }
}
