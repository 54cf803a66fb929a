/** Positional numerals as Rust's formatting and parsing machinery writes
    and reads them: `{}` and `{:x}` on unsigned integers, and
    `str::parse::<u64>`. */
module Numerals {
  import opened Words
  import opened Wrappers

  /** The digit character for `d`, lower case as `{:x}` writes it. */
  function DigitChar(d: nat): (c: char)
    requires d < 16
    ensures DigitValue(c) == d
    ensures c == '0' <==> d == 0
  {
    if d < 10 then ('0' as int + d) as char else ('a' as int + d - 10) as char
  }

  /** The value of a digit character; 16 for anything that is not a
      lower-case hexadecimal digit. */
  function DigitValue(ch: char): (v: nat)
    ensures v <= 16
    ensures v < 10 <==> '0' <= ch <= '9'
  {
    if '0' <= ch <= '9' then ch as int - '0' as int
    else if 'a' <= ch <= 'f' then ch as int - 'a' as int + 10
    else 16
  }

  predicate AllDigits(s: string, base: nat)
  {
    forall i | 0 <= i < |s| :: DigitValue(s[i]) < base
  }

  /** The shortest numeral for `n`: no leading zero, and `"0"` for zero. */
  function Format(n: nat, base: nat): (s: string)
    requires 2 <= base <= 16
    ensures |s| >= 1
    ensures AllDigits(s, base)
    ensures s[0] == '0' <==> n == 0
    decreases n
  {
    Euclid(n, base);
    if n < base then [DigitChar(n)]
    else Format(n / base, base) + [DigitChar(n % base)]
  }

  /** The number a string of digits denotes, most significant digit first. */
  function Value(s: string, base: nat): nat
    requires 2 <= base <= 16
    requires AllDigits(s, base)
  {
    if s == [] then 0
    else Value(s[..|s| - 1], base) * base + DigitValue(s[|s| - 1])
  }

  /** Rust's `Display` for an unsigned integer. */
  function Dec(n: nat): (s: string)
    ensures AllDigits(s, 10) && Value(s, 10) == n
    ensures |s| >= 1 && (s[0] == '0' <==> n == 0)
  {
    ValueOfFormat(n, 10);
    Format(n, 10)
  }

  /** Rust's `{:x}` (and `{:0x}`, whose zero flag without a width pads
      nothing) for an unsigned integer. */
  function Hex(n: nat): (s: string)
    ensures AllDigits(s, 16) && Value(s, 16) == n
    ensures |s| >= 1 && (s[0] == '0' <==> n == 0)
  {
    ValueOfFormat(n, 16);
    Format(n, 16)
  }

  lemma FormatStep(n: nat, base: nat)
    requires 2 <= base <= 16 && n >= base
    ensures Format(n, base) == Format(n / base, base) + [DigitChar(n % base)]
  {
  }

  /** Reading a numeral back gives the number it was written from. */
  lemma {:induction false} ValueOfFormat(n: nat, base: nat)
    requires 2 <= base <= 16
    ensures Value(Format(n, base), base) == n
    decreases n
  {
    Euclid(n, base);
    if n >= base {
      ValueOfFormat(n / base, base);
      FormatStep(n, base);
      ValueOfSnoc(Format(n / base, base), n % base, base);
    } else {
      ValueOfOneDigit(n, base);
    }
  }

  lemma ValueOfOneDigit(n: nat, base: nat)
    requires 2 <= base <= 16 && n < base
    ensures Format(n, base) == [DigitChar(n)]
    ensures Value([DigitChar(n)], base) == n
  {
    var s := [DigitChar(n)];
    assert s[..0] == [];
  }

  lemma ValueOfSnoc(prefix: string, d: nat, base: nat)
    requires 2 <= base <= 16 && d < base
    requires AllDigits(prefix, base)
    ensures AllDigits(prefix + [DigitChar(d)], base)
    ensures Value(prefix + [DigitChar(d)], base) == Value(prefix, base) * base + d
  {
    var s := prefix + [DigitChar(d)];
    assert s[..|s| - 1] == prefix;
  }

  /** A numeral fits in `k` digits exactly when the number is below
      `base^k`. */
  lemma {:induction false} FormatWidth(n: nat, base: nat, k: nat)
    requires 2 <= base <= 16 && k >= 1
    ensures |Format(n, base)| <= k <==> n < Pow(base, k)
    decreases n
  {
    if n >= base {
      if k == 1 {
        assert |Format(n, base)| >= 2;
      } else {
        FormatWidth(n / base, base, k - 1);
        DivBelowPow(n, base, k - 1);
      }
    } else {
      PowAtLeastBase(base, k);
    }
  }

  lemma PowAtLeastBase(base: nat, k: nat)
    requires base >= 1 && k >= 1
    ensures Pow(base, k) >= base
  {
    if k > 1 {
      PowAtLeastBase(base, k - 1);
    }
  }

  lemma DivBelowPow(n: nat, base: nat, k: nat)
    requires base >= 2
    ensures n / base < Pow(base, k) <==> n < Pow(base, k + 1)
  {
    var p := Pow(base, k);
    var q, r := n / base, n % base;
    assert n == q * base + r;
    assert Pow(base, k + 1) == p * base;
    if q < p {
      MulMonotone(q + 1, p, base);
    } else {
      MulMonotone(p, q, base);
    }
  }

  lemma MulMonotone(a: nat, b: nat, c: nat)
    requires a <= b
    ensures a * c <= b * c
  {
  }

  lemma DecOfByte(n: u8)
    ensures 1 <= |Dec(n)| <= 3
  {
    FormatWidth(n, 10, 3);
  }

  lemma HexOfWord(n: u64)
    ensures 1 <= |Hex(n)| <= 16
    ensures Hex(n) == "0" <==> n == 0
    ensures AllDigits(Hex(n), 16) && Value(Hex(n), 16) == n
  {
    assert Pow(16, 4) == 0x1_0000;
    assert Pow(16, 8) == Pow(16, 4) * Pow(16, 4) by { PowAdd(16, 4, 4); }
    assert Pow(16, 16) == Pow(16, 8) * Pow(16, 8) by { PowAdd(16, 8, 8); }
    FormatWidth(n, 16, 16);
    ValueOfFormat(n, 16);
  }

  /** The longest prefix of decimal digits, and what follows it. */
  function SpanDigits(s: string): (r: (string, string))
    ensures r.0 + r.1 == s
    ensures AllDigits(r.0, 10)
    ensures r.1 != [] ==> DigitValue(r.1[0]) >= 10
  {
    if s != [] && DigitValue(s[0]) < 10 then
      var (digits, rest) := SpanDigits(s[1..]);
      ([s[0]] + digits, rest)
    else ([], s)
  }

  lemma {:induction false} SpanDigitsOf(digits: string, rest: string)
    requires AllDigits(digits, 10)
    requires rest != [] ==> DigitValue(rest[0]) >= 10
    ensures SpanDigits(digits + rest) == (digits, rest)
  {
    if digits == [] {
      assert digits + rest == rest;
    } else {
      assert (digits + rest)[0] == digits[0];
      assert (digits + rest)[1..] == digits[1..] + rest;
      assert AllDigits(digits[1..], 10);
      SpanDigitsOf(digits[1..], rest);
      assert [digits[0]] + digits[1..] == digits;
    }
  }

  /** Rust's `str::parse::<u64>`: an optional `+` sign, then one or more
      decimal digits whose value must fit in 64 bits. */
  function ParseU64(s: string): (r: Option<u64>)
    ensures s == [] ==> r == None
    ensures r.Some? ==> s[0] == '+' || DigitValue(s[0]) < 10
    ensures r.Some? ==> forall i | 0 < i < |s| :: DigitValue(s[i]) < 10
  {
    var digits := if |s| >= 2 && s[0] == '+' then s[1..] else s;
    if digits == [] || !AllDigits(digits, 10) then None
    else
      var v := Value(digits, 10);
      if v < U64_LIMIT then Some(v) else None
  }

  /** Zeros in front of a numeral do not change its value. */
  lemma {:induction false} ValueWithLeadingZeros(k: nat, s: string)
    requires AllDigits(s, 10)
    ensures AllDigits(seq(k, _ => '0') + s, 10)
    ensures Value(seq(k, _ => '0') + s, 10) == Value(s, 10)
    decreases |s|
  {
    var zeros := seq(k, _ => '0');
    var t := zeros + s;
    if s == [] {
      assert t == zeros;
      ValueOfZeros(k);
    } else {
      var front := s[..|s| - 1];
      ValueWithLeadingZeros(k, front);
      assert t[..|t| - 1] == zeros + front;
      assert t[|t| - 1] == s[|s| - 1];
    }
  }

  lemma {:induction false} ValueOfZeros(k: nat)
    ensures AllDigits(seq(k, _ => '0'), 10)
    ensures Value(seq(k, _ => '0'), 10) == 0
  {
    if k > 0 {
      ValueOfZeros(k - 1);
      assert seq(k, _ => '0')[..k - 1] == seq(k - 1, _ => '0');
    }
  }

  /** Every decimal numeral that fits in 64 bits is read back; a larger one
      is refused as an overflow. */
  lemma ParseU64OfDec(n: nat)
    ensures ParseU64(Dec(n)) == if n < U64_LIMIT then Some(n) else None
  {
    ValueOfFormat(n, 10);
  }

  /** Leading zeros are accepted: zeros in front of a numeral that fits
      in 64 bits read as the number, and a longer one is still an
      overflow. */
  lemma ParseU64OfPadded(k: nat, n: nat)
    ensures ParseU64(seq(k, _ => '0') + Dec(n)) == if n < U64_LIMIT then Some(n) else None
  {
    var s := seq(k, _ => '0') + Dec(n);
    ValueWithLeadingZeros(k, Dec(n));
    assert !(|s| >= 2 && s[0] == '+') by { assert DigitValue(s[0]) < 10; }
  }

  /** A single leading `+` is accepted and changes nothing, whatever
      follows it; a second sign is not. */
  lemma ParseU64OfSigned(s: string)
    requires s == [] || s[0] != '+'
    ensures ParseU64("+" + s) == ParseU64(s)
  {
    assert ("+" + s)[1..] == s;
  }

  /** A sign with no digits after it, a minus sign, and any other
      character that is not a decimal digit are refused. */
  lemma ParseU64Refuses(s: string, i: nat)
    requires i < |s| && DigitValue(s[i]) >= 10
    requires !(i == 0 && s[0] == '+' && |s| >= 2)
    ensures ParseU64(s) == None
  {
  }
}
