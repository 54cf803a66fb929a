/** Machine words as bounded naturals, and the bit operations the hash needs.

    Rust's `u8` and `u64` are modelled as subset types of `int`; shifts are
    divisions by powers of two and `^` is `Xor` below, defined one binary
    digit at a time. */
module Words {

  const U8_LIMIT: int := 0x100
  const U32_LIMIT: int := 0x1_0000_0000
  const U64_LIMIT: int := 0x1_0000_0000_0000_0000

  type u8 = n: int | 0 <= n < U8_LIMIT
  type u64 = n: int | 0 <= n < U64_LIMIT

  function Pow(base: nat, k: nat): (p: nat)
    requires base >= 1
    ensures p >= 1
  {
    if k == 0 then 1 else base * Pow(base, k - 1)
  }

  lemma {:induction false} PowAdd(base: nat, a: nat, b: nat)
    requires base >= 1
    ensures Pow(base, a + b) == Pow(base, a) * Pow(base, b)
    decreases a
  {
    if a > 0 {
      PowAdd(base, a - 1, b);
      var x, y := Pow(base, a - 1), Pow(base, b);
      assert Pow(base, a + b) == base * (x * y);
      assert base * (x * y) == (base * x) * y;
    }
  }

  lemma Pow2Words()
    ensures Pow(2, 8) == U8_LIMIT
    ensures Pow(2, 32) == U32_LIMIT
    ensures Pow(2, 64) == U64_LIMIT
  {
    assert Pow(2, 4) == 0x10;
    PowAdd(2, 4, 4);
    PowAdd(2, 8, 8);
    PowAdd(2, 16, 16);
    PowAdd(2, 32, 32);
  }

  /** Bitwise exclusive or of two naturals. */
  function Xor(a: nat, b: nat): nat
    decreases a + b
  {
    if a == 0 && b == 0 then 0
    else 2 * Xor(a / 2, b / 2) + (a % 2 + b % 2) % 2
  }

  /** The lowest binary digit of a xor, and the xor of the rest. */
  lemma XorDigits(a: nat, b: nat)
    ensures Xor(a, b) / 2 == Xor(a / 2, b / 2)
    ensures Xor(a, b) % 2 == (a % 2 + b % 2) % 2
  {
  }

  lemma ParityCancel(x: nat, y: nat)
    requires x < 2 && y < 2
    ensures ((x + y) % 2 + y) % 2 == x
  {
  }

  lemma {:induction false} XorZero(a: nat)
    ensures Xor(a, 0) == a
    decreases a
  {
    if a != 0 {
      XorZero(a / 2);
    }
  }

  /** Xor-ing twice with the same operand gives back the first operand. */
  lemma {:induction false} XorCancel(a: nat, b: nat)
    ensures Xor(Xor(a, b), b) == a
    decreases a + b
  {
    var c := Xor(a, b);
    if b == 0 {
      XorZero(a);
      XorZero(c);
    } else {
      XorDigits(a, b);
      XorCancel(a / 2, b / 2);
      assert Xor(c / 2, b / 2) == a / 2;
      ParityCancel(a % 2, b % 2);
      assert (c % 2 + b % 2) % 2 == a % 2;
      Euclid(a, 2);
    }
  }

  /** Xor of two k-bit numbers is a k-bit number. */
  lemma {:induction false} XorBound(a: nat, b: nat, k: nat)
    requires a < Pow(2, k) && b < Pow(2, k)
    ensures Xor(a, b) < Pow(2, k)
    decreases k
  {
    if a == 0 && b == 0 {
    } else {
      assert k > 0;
      XorBound(a / 2, b / 2, k - 1);
    }
  }

  /** Quotient and remainder put back together, and the quotient of a
      number at least the divisor is smaller than the number. */
  lemma Euclid(n: nat, d: nat)
    requires d >= 2
    ensures n == (n / d) * d + n % d
    ensures n >= d ==> 1 <= n / d < n
    ensures n < d ==> n / d == 0 && n % d == n
  {
    var q := n / d;
    if n >= d {
      assert q * d <= n;
      assert q * d >= q * 2;
    }
  }

  lemma MultipleBound(n: int, d: int)
    requires d > 0
    ensures n >= 1 ==> n * d >= d
    ensures n <= -1 ==> n * d <= -d
  {
    if n >= 1 {
      assert n * d == (n - 1) * d + d;
    } else if n <= -1 {
      assert n * d == (n + 1) * d - d;
    }
  }

  lemma DivisionUnique(x: int, d: int, q: int, r: int)
    requires d > 0 && 0 <= r < d && x == q * d + r
    ensures x / d == q
  {
    var q0, r0 := x / d, x % d;
    assert q0 * d + r0 == q * d + r;
    assert (q0 - q) * d == r - r0;
    MultipleBound(q0 - q, d);
  }

  lemma RemainderUnique(x: int, d: int, q: int, r: int)
    requires d > 0 && 0 <= r < d && x == q * d + r
    ensures x % d == r
  {
    DivisionUnique(x, d, q, r);
  }

  lemma HalveQuotient(x: nat, p: nat)
    requires p >= 1
    ensures x / (2 * p) == (x / 2) / p
  {
    var q := (x / 2) / p;
    var r := (x / 2) % p;
    assert x / 2 == q * p + r;
    assert x == 2 * (q * p + r) + x % 2;
    assert x == q * (2 * p) + (2 * r + x % 2);
    DivisionUnique(x, 2 * p, q, 2 * r + x % 2);
  }

  /** Xor with a k-bit number leaves the bits at positions k and above alone. */
  lemma {:induction false} XorHigh(a: nat, b: nat, k: nat)
    requires b < Pow(2, k)
    ensures Xor(a, b) / Pow(2, k) == a / Pow(2, k)
    decreases k
  {
    if k == 0 {
      XorZero(a);
    } else if a == 0 && b == 0 {
    } else {
      var p := Pow(2, k - 1);
      var x := Xor(a, b);
      XorHigh(a / 2, b / 2, k - 1);
      assert x / 2 == Xor(a / 2, b / 2);
      HalveQuotient(x, p);
      HalveQuotient(a, p);
    }
  }
}
