/**
 * The brute-force key search: for each known plaintext/ciphertext pair,
 * the first of the 1024 keys, in ascending order, under which decrypting
 * the ciphertext gives the plaintext and encrypting the plaintext gives the
 * ciphertext, or nothing when no key passes both checks.
 */
module KeySearch {
  import opened Wrappers
  import opened Bits
  import opened Cipher

  /** The number of 10-bit keys. */
  const KeyCount: nat := 1024

  /** Key i of the enumeration: its 10-bit binary form, most significant bit first. */
  function KeyBits(i: nat): (r: seq<Bit>)
    requires i < KeyCount
    ensures |r| == 10
  {
    assert Pow2(10) == KeyCount by {
      assert Pow2(5) == 32;
    }
    ToBits(i, 10)
  }

  /** Key i reads back as i. */
  lemma KeyBitsValue(i: nat)
    requires i < KeyCount
    ensures FromBits(KeyBits(i)) == i
  {
    assert Pow2(10) == KeyCount by {
      assert Pow2(5) == 32;
    }
    FromToBits(i, 10);
  }

  /** Every 10-bit key is visited: it is the key of its own binary value. */
  lemma EveryKeyVisited(key: seq<Bit>)
    requires |key| == 10
    ensures FromBits(key) < KeyCount && KeyBits(FromBits(key)) == key
  {
    assert Pow2(10) == KeyCount by {
      assert Pow2(5) == 32;
    }
    ToFromBits(key);
  }

  /** Key i passes both checks of the search for the pair. */
  predicate Matches(plaintext: seq<Bit>, ciphertext: seq<Bit>, i: nat)
    requires |plaintext| >= 8 && |ciphertext| >= 8 && i < KeyCount
  {
    Deciphered(ciphertext, KeyBits(i)) == plaintext && Enciphered(plaintext, KeyBits(i)) == ciphertext
  }

  /** The first position at or after `from` whose entry is true, if there is one. */
  function FirstTrue(checks: seq<bool>, from: nat): (r: Option<nat>)
    requires from <= |checks|
    ensures r.Some? ==> from <= r.value < |checks| && checks[r.value]
    ensures r.Some? ==> forall i :: from <= i < r.value ==> !checks[i]
    ensures r.None? ==> forall i :: from <= i < |checks| ==> !checks[i]
    decreases |checks| - from
  {
    if from == |checks| then None
    else if checks[from] then Some(from)
    else FirstTrue(checks, from + 1)
  }

  /** The outcome of both checks for every key index, in ascending order. */
  function Checks(plaintext: seq<Bit>, ciphertext: seq<Bit>): (r: seq<bool>)
    requires |plaintext| >= 8 && |ciphertext| >= 8
    ensures |r| == KeyCount
  {
    seq(KeyCount, i requires 0 <= i < KeyCount => Matches(plaintext, ciphertext, i))
  }

  /** The smallest key index that passes both checks, if there is one. */
  function FirstKey(plaintext: seq<Bit>, ciphertext: seq<Bit>): (r: Option<nat>)
    requires |plaintext| >= 8 && |ciphertext| >= 8
    ensures r.Some? ==> r.value < KeyCount
  {
    FirstTrue(Checks(plaintext, ciphertext), 0)
  }

  /**
   * FirstKey is the smallest key index that passes both checks: the index
   * it returns passes them, and every index below it, or every index at all
   * when it returns none, fails one.
   */
  lemma FirstKeyIsFirst(plaintext: seq<Bit>, ciphertext: seq<Bit>, i: nat)
    requires |plaintext| >= 8 && |ciphertext| >= 8 && i < KeyCount
    ensures FirstKey(plaintext, ciphertext) == Some(i) ==> Matches(plaintext, ciphertext, i)
    ensures var r := FirstKey(plaintext, ciphertext);
      r.None? || i < r.value ==> !Matches(plaintext, ciphertext, i)
  {
    assert Checks(plaintext, ciphertext)[i] == Matches(plaintext, ciphertext, i);
  }

  /**
   * The search for one pair: keys in ascending order, stopping at the first
   * that passes both checks.
   */
  method SearchKey(plaintext: seq<Bit>, ciphertext: seq<Bit>) returns (found: Option<nat>)
    requires |plaintext| >= 8 && |ciphertext| >= 8
    ensures found == FirstKey(plaintext, ciphertext)
  {
    ghost var checks := Checks(plaintext, ciphertext);
    for i := 0 to KeyCount
      invariant FirstTrue(checks, i) == FirstKey(plaintext, ciphertext)
    {
      var key := KeyBits(i);
      var decrypted := Decrypt(ciphertext, key);
      var encrypted := Encrypt(plaintext, key);
      if decrypted == plaintext && encrypted == ciphertext {
        return Some(i);
      }
    }
    return None;
  }

  /** The pairs the search accepts: strings of '0' and '1' long enough to be blocks. */
  predicate WellFormedPairs(pairs: seq<(string, string)>)
  {
    forall k :: 0 <= k < |pairs| ==>
      IsBinary(pairs[k].0) && IsBinary(pairs[k].1) && |pairs[k].0| >= 8 && |pairs[k].1| >= 8
  }

  /** The answers of the search for every pair in turn. */
  function Searched(pairs: seq<(string, string)>): (r: seq<Option<nat>>)
    requires WellFormedPairs(pairs)
    ensures |r| == |pairs|
  {
    if pairs == [] then []
    else
      var last := pairs[|pairs| - 1];
      assert WellFormedPairs(pairs[..|pairs| - 1]);
      Searched(pairs[..|pairs| - 1]) + [FirstKey(ParseBits(last.0), ParseBits(last.1))]
  }

  /** Answer k of the search is the first key of pair k. */
  lemma {:induction false} SearchedAnswer(pairs: seq<(string, string)>, k: nat)
    requires WellFormedPairs(pairs) && k < |pairs|
    ensures Searched(pairs)[k] == FirstKey(ParseBits(pairs[k].0), ParseBits(pairs[k].1))
    decreases |pairs|
  {
    if k < |pairs| - 1 {
      var init := pairs[..|pairs| - 1];
      assert WellFormedPairs(init);
      SearchedAnswer(init, k);
      assert init[k] == pairs[k];
    }
  }

  /** Searching one more pair appends its answer. */
  lemma SearchedStep(pairs: seq<(string, string)>, k: nat)
    requires WellFormedPairs(pairs) && k < |pairs|
    ensures WellFormedPairs(pairs[..k]) && WellFormedPairs(pairs[..k + 1])
    ensures Searched(pairs[..k + 1]) == Searched(pairs[..k]) + [FirstKey(ParseBits(pairs[k].0), ParseBits(pairs[k].1))]
  {
    assert WellFormedPairs(pairs[..k + 1]);
    assert pairs[..k + 1][..k] == pairs[..k];
  }

  /** The search over every pair in turn, one answer per pair. */
  method BruteForce(pairs: seq<(string, string)>) returns (results: seq<Option<nat>>)
    requires WellFormedPairs(pairs)
    ensures results == Searched(pairs)
  {
    results := [];
    for k := 0 to |pairs|
      invariant WellFormedPairs(pairs[..k])
      invariant results == Searched(pairs[..k])
    {
      SearchedStep(pairs, k);
      var found := SearchKey(ParseBits(pairs[k].0), ParseBits(pairs[k].1));
      results := results + [found];
    }
    assert pairs[..|pairs|] == pairs;
  }

  /**
   * A key can only be found for a pair that the half exchange maps to
   * another pair of the same key: the inverse of encrypt is decrypt between
   * two half swaps, not decrypt itself.
   */
  lemma FoundKeyCommutesWithSwap(plaintext: seq<Bit>, ciphertext: seq<Bit>, i: nat)
    requires |plaintext| == 8 && |ciphertext| >= 8 && i < KeyCount
    requires Matches(plaintext, ciphertext, i)
    ensures SwapHalves(ciphertext) == Enciphered(SwapHalves(plaintext), KeyBits(i))
  {
    DecryptUndoesEncryptIff(plaintext, KeyBits(i));
  }
}
