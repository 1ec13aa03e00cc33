/**
 * Generic helpers on lists of bits: applying a 1-based permutation table,
 * splitting in half, rotating left, bitwise exclusive-or, and the binary
 * rendering of a number (most significant bit first) with its inverse.
 */
module Bits {
  import opened Wrappers

  /** A single bit, as the source stores it: the integer 0 or 1. */
  type Bit = b: int | 0 <= b <= 1

  /** The error `permute` raises (a ValueError in the source). */
  datatype Error = InvalidPermutationIndex

  /** Every table entry is a 1-based position (entries below 1 are outside the model). */
  predicate Positive(table: seq<int>)
  {
    forall j :: 0 <= j < |table| ==> 1 <= table[j]
  }

  /** Every table entry is a 1-based position of a list of length n. */
  predicate InRange(table: seq<int>, n: int)
  {
    forall j :: 0 <= j < |table| ==> 1 <= table[j] <= n
  }

  /** The list that gathers, for each table entry p, the p-th bit of the input. */
  function Permuted(original: seq<Bit>, table: seq<int>): (r: seq<Bit>)
    requires InRange(table, |original|)
    ensures |r| == |table|
  {
    seq(|table|, j requires 0 <= j < |table| => original[table[j] - 1])
  }

  /** Position j of the permuted list is the input bit that table entry j addresses. */
  lemma PermutedBits(original: seq<Bit>, table: seq<int>)
    requires InRange(table, |original|)
    ensures forall j :: 0 <= j < |table| ==> Permuted(original, table)[j] == original[table[j] - 1]
  {
  }

  /**
   * Permuting by `outer` after `inner` gives the input back when each entry
   * of `outer` points at the entry of `inner` that addresses its own position.
   */
  lemma PermutedUndone(original: seq<Bit>, inner: seq<int>, outer: seq<int>)
    requires InRange(inner, |original|) && InRange(outer, |inner|) && |outer| == |original|
    requires forall j :: 0 <= j < |outer| ==> inner[outer[j] - 1] == j + 1
    ensures Permuted(Permuted(original, inner), outer) == original
  {
  }

  /**
   * permute: walks the table, appending the addressed bit, and fails as soon
   * as an entry exceeds the length of the input.
   */
  method Permute(original: seq<Bit>, table: seq<int>) returns (r: Result<seq<Bit>, Error>)
    requires Positive(table)
    ensures r.Err? <==> exists j :: 0 <= j < |table| && table[j] > |original|
    ensures r.Err? ==> r.error == InvalidPermutationIndex
    ensures r.Ok? ==> |r.value| == |table|
    ensures r.Ok? ==> forall j :: 0 <= j < |table| ==> r.value[j] == original[table[j] - 1]
    ensures r.Ok? ==> InRange(table, |original|) && r.value == Permuted(original, table)
  {
    var permuted: seq<Bit> := [];
    for i := 0 to |table|
      invariant |permuted| == i
      invariant forall j :: 0 <= j < i ==> table[j] <= |original| && permuted[j] == original[table[j] - 1]
    {
      if table[i] <= |original| {
        permuted := permuted + [original[table[i] - 1]];
      } else {
        return Err(InvalidPermutationIndex);
      }
    }
    return Ok(permuted);
  }

  /** split_into_half: the first floor(n/2) bits and the rest. */
  function SplitIntoHalf(bits: seq<Bit>): (r: (seq<Bit>, seq<Bit>))
    ensures r.0 + r.1 == bits
    ensures |r.0| == |bits| / 2 && |r.1| == |bits| - |bits| / 2
    ensures |bits| % 2 == 0 ==> |r.0| == |r.1|
  {
    (bits[..|bits| / 2], bits[|bits| / 2..])
  }

  /**
   * left_circular_shift: `bits[n:] + bits[:n]`. With Python's slicing an
   * amount at or beyond the length leaves the list as it is.
   */
  function LeftCircularShift(bits: seq<Bit>, n: nat): (r: seq<Bit>)
    ensures |r| == |bits|
    ensures n <= |bits| ==> forall i :: 0 <= i < |bits| ==>
      r[i] == if i + n < |bits| then bits[i + n] else bits[i + n - |bits|]
    ensures n >= |bits| ==> r == bits
  {
    var k := if n <= |bits| then n else |bits|;
    bits[k..] + bits[..k]
  }

  /** Rotating by a and then by b is rotating by a + b, while a + b stays within the length. */
  lemma ShiftCompose(bits: seq<Bit>, a: nat, b: nat)
    requires a + b <= |bits|
    ensures LeftCircularShift(LeftCircularShift(bits, a), b) == LeftCircularShift(bits, a + b)
  {
    var once := LeftCircularShift(bits, a);
    assert once == bits[a..] + bits[..a];
    assert once[b..] == bits[a + b..] + bits[..a];
    assert once[..b] == bits[a..a + b];
    assert bits[..a] + bits[a..a + b] == bits[..a + b];
  }

  /** Exclusive-or of two bits, the source's `^` on 0 and 1. */
  function XorBit(x: Bit, y: Bit): (r: Bit)
    ensures r == (x + y) % 2
  {
    if x == y then 0 else 1
  }

  /** xor: pairs the bits with `zip`, so the result is as long as the shorter list. */
  function Xor(a: seq<Bit>, b: seq<Bit>): (r: seq<Bit>)
    ensures |r| == if |a| <= |b| then |a| else |b|
    ensures forall i :: 0 <= i < |r| ==> r[i] == XorBit(a[i], b[i])
  {
    seq(if |a| <= |b| then |a| else |b|, i requires 0 <= i < |a| && i < |b| => XorBit(a[i], b[i]))
  }

  /** Exclusive-or with the same mask twice gives back the original list. */
  lemma XorSelfInverse(a: seq<Bit>, b: seq<Bit>)
    requires |a| <= |b|
    ensures Xor(Xor(a, b), b) == a
  {
    var once := Xor(a, b);
    forall i | 0 <= i < |a|
      ensures Xor(once, b)[i] == a[i]
    {
      assert once[i] == XorBit(a[i], b[i]);
    }
  }

  /** Two to the power n: the number of values an n-bit list can spell. */
  function Pow2(n: nat): (r: nat)
    ensures r >= 1
  {
    if n == 0 then 1 else 2 * Pow2(n - 1)
  }

  /** The value of a bit list read as a binary number, most significant bit first. */
  function FromBits(bits: seq<Bit>): (r: nat)
    ensures r < Pow2(|bits|)
  {
    if bits == [] then 0 else 2 * FromBits(bits[..|bits| - 1]) + bits[|bits| - 1]
  }

  /**
   * The width-bit binary rendering of v, most significant bit first, as
   * `format(v, '0<width>b')` spells it; only values that fit are rendered.
   */
  function ToBits(v: nat, width: nat): (r: seq<Bit>)
    requires v < Pow2(width)
    ensures |r| == width
  {
    if width == 0 then [] else ToBits(v / 2, width - 1) + [v % 2]
  }

  /** Two bits read as a binary number. */
  lemma FromTwoBits(hi: Bit, lo: Bit)
    ensures FromBits([hi, lo]) == 2 * hi + lo
  {
    assert [hi, lo][..1] == [hi];
  }

  /** Rendering a number that fits and reading it back gives the number. */
  lemma {:induction false} FromToBits(v: nat, width: nat)
    requires v < Pow2(width)
    ensures FromBits(ToBits(v, width)) == v
  {
    if width > 0 {
      FromToBits(v / 2, width - 1);
      var r := ToBits(v, width);
      assert r[..|r| - 1] == ToBits(v / 2, width - 1);
    }
  }

  /** Reading a bit list and rendering it at its own width gives the list. */
  lemma {:induction false} ToFromBits(bits: seq<Bit>)
    ensures ToBits(FromBits(bits), |bits|) == bits
  {
    if bits != [] {
      var init := bits[..|bits| - 1];
      ToFromBits(init);
      assert bits == init + [bits[|bits| - 1]];
    }
  }

  /** The input strings handled by binary_string_to_list: only '0' and '1'. */
  predicate IsBinary(s: string)
  {
    forall i :: 0 <= i < |s| ==> s[i] == '0' || s[i] == '1'
  }

  /** binary_string_to_list: one bit per character. */
  function ParseBits(s: string): (r: seq<Bit>)
    requires IsBinary(s)
    ensures |r| == |s|
    ensures forall i :: 0 <= i < |s| ==> (r[i] == 1 <==> s[i] == '1')
  {
    seq(|s|, i requires 0 <= i < |s| => if s[i] == '1' then 1 else 0)
  }

  /** The characters '0' and '1' that spell a bit list. */
  function ShowBits(bits: seq<Bit>): (r: string)
    ensures IsBinary(r) && |r| == |bits|
    ensures forall i :: 0 <= i < |bits| ==> (r[i] == '1' <==> bits[i] == 1)
  {
    seq(|bits|, i requires 0 <= i < |bits| => if bits[i] == 1 then '1' else '0')
  }

  /** Parsing is exactly the inverse of spelling, in both directions. */
  lemma ParseShowBits(bits: seq<Bit>, s: string)
    requires IsBinary(s)
    ensures ParseBits(ShowBits(bits)) == bits
    ensures ShowBits(ParseBits(s)) == s
  {
    var p := ParseBits(ShowBits(bits));
    forall i | 0 <= i < |bits| ensures p[i] == bits[i] {}
    var q := ShowBits(ParseBits(s));
    forall i | 0 <= i < |s| ensures q[i] == s[i] {}
  }
}
