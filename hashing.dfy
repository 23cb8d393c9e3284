/**
 * The string hash of symtablehash.c: a multiply-accumulate fold over the
 * key's characters in a 64-bit unsigned accumulator, reduced modulo the
 * current bucket count.
 */
module Hashing {

  /** A character code of a C string key. The terminating NUL is never part of
      a key, so a key's characters are exactly those the hash loop visits. */
  type KeyChar = c: int | 1 <= c < 256 witness 1

  /** A key: the characters before the NUL terminator. */
  type Key = seq<KeyChar>

  const Multiplier: nat := 65599

  /** size_t arithmetic wraps at 2^64. */
  const WordModulus: nat := 0x1_0000_0000_0000_0000

  /** The accumulator after folding every character of `s`, left to right,
      as `h := h * Multiplier + c` in wrapping 64-bit arithmetic. */
  function HashWord(s: Key): (h: nat)
    ensures h < WordModulus
  {
    if s == [] then 0
    else (HashWord(s[..|s| - 1]) * Multiplier + s[|s| - 1]) % WordModulus
  }

  /** The bucket index of `key` for a table of `bucketCount` buckets. */
  function Hash(key: Key, bucketCount: nat): (r: nat)
    requires bucketCount > 0
    ensures r < bucketCount
  {
    HashWord(key) % bucketCount
  }

  /** The same polynomial in unbounded integers: sum of s[i] * Multiplier^(|s|-1-i). */
  function Poly(s: Key): nat
  {
    if s == [] then 0 else Poly(s[..|s| - 1]) * Multiplier + s[|s| - 1]
  }

  /** Adding a multiple of 2^64 does not change a wrapped value. */
  lemma ModAddMultiple(k: nat, x: nat)
    ensures (k * WordModulus + x) % WordModulus == x % WordModulus
  {
  }

  /** Wrapping the accumulator before a step gives the same wrapped result. */
  lemma ModMulAdd(a: nat, c: nat)
    ensures ((a % WordModulus) * Multiplier + c) % WordModulus == (a * Multiplier + c) % WordModulus
  {
    var q, r := a / WordModulus, a % WordModulus;
    assert a == q * WordModulus + r;
    assert a * Multiplier + c == (q * Multiplier) * WordModulus + (r * Multiplier + c);
    ModAddMultiple(q * Multiplier, r * Multiplier + c);
  }

  /** Wrapping after every step gives the same accumulator as evaluating the
      polynomial exactly and wrapping once at the end. */
  lemma {:induction false} HashWordIsPolynomial(s: Key)
    ensures HashWord(s) == Poly(s) % WordModulus
  {
    if s != [] {
      var init := s[..|s| - 1];
      HashWordIsPolynomial(init);
      ModMulAdd(Poly(init), s[|s| - 1]);
    }
  }

  /** SymTable_hash: the loop over the key's characters. */
  method ComputeHash(key: Key, bucketCount: nat) returns (r: nat)
    requires bucketCount > 0
    ensures r == Hash(key, bucketCount)
    ensures r == Poly(key) % WordModulus % bucketCount
  {
    var h: nat := 0;
    var u := 0;
    while u < |key|
      invariant 0 <= u <= |key|
      invariant h == HashWord(key[..u])
    {
      assert key[..u + 1][..u] == key[..u];
      h := (h * Multiplier + key[u]) % WordModulus;
      u := u + 1;
    }
    assert key[..u] == key;
    HashWordIsPolynomial(key);
    r := h % bucketCount;
  }
}
