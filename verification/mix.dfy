/** The value hash of `Beacon::new` (src/lib.rs): three wrapping
    multiplications by an odd constant, with the high half of the word
    folded into the low half between them. */
module Mix {
  import opened Words

  /** The odd multiplier. */
  const K: u64 := 0x517cc1b727220a95

  /** The inverse of `K` modulo 2^64. */
  const K_INV: u64 := 0x2040003d780970bd

  /** Rust's `u64::wrapping_mul`: the product modulo 2^64. */
  function WrappingMul(a: u64, b: u64): (r: u64)
    ensures a * b < U64_LIMIT ==> r == a * b
    ensures (a * b - r) % U64_LIMIT == 0
  {
    (a * b) % U64_LIMIT
  }

  /** `x ^ (x >> 32)`: the high half is xor-ed into the low half. */
  function FoldHigh(x: u64): (r: u64)
    ensures r / U32_LIMIT == x / U32_LIMIT
  {
    Pow2Words();
    XorBound(x, x / U32_LIMIT, 64);
    XorHigh(x, x / U32_LIMIT, 32);
    Xor(x, x / U32_LIMIT)
  }

  /** The hash of a beacon's value. No information is lost: `Unhash`
      recovers the value. */
  function Hash(x: u64): (r: u64)
    ensures Unhash(r) == x
  {
    var a := WrappingMul(x, K);
    var b := FoldHigh(a);
    var c := WrappingMul(b, K);
    var d := FoldHigh(c);
    MulByKCancels(d);
    FoldHighTwice(c);
    MulByKCancels(b);
    FoldHighTwice(a);
    MulByKCancels(x);
    WrappingMul(d, K)
  }

  /** The inverse of `Hash`: every step undone, in reverse order. */
  function Unhash(y: u64): u64
  {
    var y := WrappingMul(y, K_INV);
    var y := FoldHigh(y);
    var y := WrappingMul(y, K_INV);
    var y := FoldHigh(y);
    WrappingMul(y, K_INV)
  }

  lemma HashOfZero()
    ensures Hash(0) == 0
  {
    assert WrappingMul(0, K) == 0;
    assert Xor(0, 0) == 0;
    assert FoldHigh(0) == 0;
  }

  /** Multiplying by `K` and by `K_INV` cancel, in either order. */
  lemma MulCancel(x: u64, a: u64, b: u64)
    requires a * b % U64_LIMIT == 1
    ensures WrappingMul(WrappingMul(x, a), b) == x
  {
    var t := (a * b) / U64_LIMIT;
    var q := (x * a) / U64_LIMIT;
    var r := (x * a) % U64_LIMIT;
    assert a * b == t * U64_LIMIT + 1;
    assert r * b == x * (a * b) - q * b * U64_LIMIT;
    assert r * b == (x * t - q * b) * U64_LIMIT + x;
    RemainderUnique(r * b, U64_LIMIT, x * t - q * b, x);
  }

  lemma MulByKCancels(x: u64)
    ensures WrappingMul(WrappingMul(x, K), K_INV) == x
    ensures WrappingMul(WrappingMul(x, K_INV), K) == x
  {
    MulCancel(x, K, K_INV);
    MulCancel(x, K_INV, K);
  }

  /** Folding the high half in twice restores the word. */
  lemma FoldHighTwice(x: u64)
    ensures FoldHigh(FoldHigh(x)) == x
  {
    Pow2Words();
    XorCancel(x, x / U32_LIMIT);
  }

  /** `Unhash` undoes `Hash`. */
  lemma UnhashHash(x: u64)
    ensures Unhash(Hash(x)) == x
  {
  }

  /** `Hash` undoes `Unhash`, so every word is the hash of some value. */
  lemma HashUnhash(y: u64)
    ensures Hash(Unhash(y)) == y
  {
    var a := WrappingMul(y, K_INV);
    var b := FoldHigh(a);
    var c := WrappingMul(b, K_INV);
    var d := FoldHigh(c);
    MulByKCancels(d);
    FoldHighTwice(c);
    MulByKCancels(b);
    FoldHighTwice(a);
    MulByKCancels(y);
  }

  /** Distinct values have distinct hashes. */
  lemma HashInjective(x1: u64, x2: u64)
    ensures Hash(x1) == Hash(x2) <==> x1 == x2
  {
    UnhashHash(x1);
    UnhashHash(x2);
  }
}
