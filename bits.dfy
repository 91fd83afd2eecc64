/**
 * Bit strings as the reader produces them: strings over '0'/'1', read
 * most significant bit first, as Python's `int(s, 2)` reads them.
 */
module Bits {

  /** An element of a Python `bytes` value. */
  type Byte = b: int | 0 <= b < 256

  /** 2 to the power n. */
  function Pow2(n: nat): (r: nat)
    ensures r >= 1
  {
    if n == 0 then 1 else 2 * Pow2(n - 1)
  }

  lemma Pow2Eight()
    ensures Pow2(7) == 128 && Pow2(8) == 256
  {
    assert Pow2(4) == 16;
  }

  /** The first eight powers, one bit plane of a byte each. */
  lemma Pow2Planes()
    ensures Pow2(0) == 1 && Pow2(1) == 2 && Pow2(2) == 4 && Pow2(3) == 8
    ensures Pow2(4) == 16 && Pow2(5) == 32 && Pow2(6) == 64 && Pow2(7) == 128
  {
    assert Pow2(2) == 4;
    assert Pow2(4) == 16;
    assert Pow2(6) == 64;
  }

  /** Pow2 is strictly increasing. */
  lemma {:induction false} Pow2Increasing(a: nat, b: nat)
    requires a < b
    ensures Pow2(a) < Pow2(b)
  {
    if a + 1 < b {
      Pow2Increasing(a, b - 1);
    }
  }

  /** Every character is a binary digit. */
  predicate IsBinary(s: string)
  {
    forall i :: 0 <= i < |s| ==> s[i] == '0' || s[i] == '1'
  }

  function Digit(c: char): nat
  {
    if c == '1' then 1 else 0
  }

  /**
   * `int(s, 2)`: the value of a non-empty binary string, most significant
   * digit first. Python rejects the empty string and characters other than
   * '0' and '1'; every caller here passes 8 or 64 characters produced by the
   * reader, all of them '0' or '1' (here any other character would count as 0).
   */
  function BinaryValue(s: string): (v: nat)
    requires |s| >= 1
    ensures v < Pow2(|s|)
  {
    PrefixValue(s, |s|)
  }

  /** The value of the first n digits of s. */
  function PrefixValue(s: string, n: nat): (v: nat)
    requires n <= |s|
    ensures v < Pow2(n)
  {
    if n == 0 then 0 else 2 * PrefixValue(s, n - 1) + Digit(s[n - 1])
  }

  /** The value of the first n digits depends on nothing else. */
  lemma {:induction false} PrefixValueSame(s: string, t: string, n: nat)
    requires n <= |s| && n <= |t|
    requires forall i :: 0 <= i < n ==> s[i] == t[i]
    ensures PrefixValue(s, n) == PrefixValue(t, n)
  {
    if n > 0 {
      PrefixValueSame(s, t, n - 1);
    }
  }

  /** The writer's side: v as exactly n binary digits, most significant first. */
  function BinaryString(v: nat, n: nat): (s: string)
    requires v < Pow2(n)
    ensures |s| == n && IsBinary(s)
  {
    if n == 0 then "" else BinaryString(v / 2, n - 1) + [if v % 2 == 1 then '1' else '0']
  }

  lemma {:induction false} PrefixValueOfBinaryString(v: nat, n: nat)
    requires v < Pow2(n)
    ensures PrefixValue(BinaryString(v, n), n) == v
  {
    if n > 0 {
      var s := BinaryString(v, n);
      var t := BinaryString(v / 2, n - 1);
      PrefixValueSame(s, t, n - 1);
      PrefixValueOfBinaryString(v / 2, n - 1);
    }
  }

  /** Reading back what the writer wrote gives the value. */
  lemma ValueOfBinaryString(v: nat, n: nat)
    requires 1 <= n && v < Pow2(n)
    ensures BinaryValue(BinaryString(v, n)) == v
  {
    PrefixValueOfBinaryString(v, n);
  }

  lemma {:induction false} BinaryStringOfPrefixValue(s: string, n: nat)
    requires n <= |s| && IsBinary(s)
    ensures BinaryString(PrefixValue(s, n), n) == s[..n]
  {
    if n > 0 {
      BinaryStringOfPrefixValue(s, n - 1);
      assert s[..n] == s[..n - 1] + [s[n - 1]];
    }
  }

  /** Writing back the value read gives the string: the representation is unique. */
  lemma BinaryStringOfValue(s: string)
    requires |s| >= 1 && IsBinary(s)
    ensures BinaryString(BinaryValue(s), |s|) == s
  {
    BinaryStringOfPrefixValue(s, |s|);
    assert s[..|s|] == s;
  }
}
