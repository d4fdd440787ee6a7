/** The numeric built-ins the adapters rely on: `toString(radix)` on numbers and
    bigints, `BigInt(string)`, `parseInt(string, radix)`, and the 32-bit
    operators `>>` and `&`. */
module JsNumbers {
  import opened Wrappers
  import opened JsSequences

  function Pow(base: nat, exp: nat): (r: nat)
    ensures base >= 1 ==> r >= 1
  {
    if exp == 0 then 1 else base * Pow(base, exp - 1)
  }

  lemma {:induction false} PowAdd(base: nat, e1: nat, e2: nat)
    ensures Pow(base, e1 + e2) == Pow(base, e1) * Pow(base, e2)
  {
    if e2 > 0 {
      PowAdd(base, e1, e2 - 1);
      calc {
        Pow(base, e1 + e2);
        base * Pow(base, e1 + e2 - 1);
        base * (Pow(base, e1) * Pow(base, e2 - 1));
        Pow(base, e1) * (base * Pow(base, e2 - 1));
        Pow(base, e1) * Pow(base, e2);
      }
    }
  }

  // ---------------------------------------------------------------------------
  // Digits

  /** The radixes the model formats and parses in (2, 10 and 16 are used). */
  predicate IsRadix(radix: nat) {
    2 <= radix <= 16
  }

  /** The value of a digit character: decimal digits and lower-case letters. */
  function DigitValue(c: char): Option<nat> {
    if '0' <= c <= '9' then Some(c as int - '0' as int)
    else if 'a' <= c <= 'f' then Some(c as int - 'a' as int + 10)
    else None
  }

  /** The digit character `toString(radix)` writes for d: lower-case letters above 9. */
  function DigitChar(d: nat): (c: char)
    requires d < 16
    ensures DigitValue(c) == Some(d)
  {
    if d < 10 then ('0' as int + d) as char else ('a' as int + d - 10) as char
  }

  predicate IsDigit(c: char, radix: nat) {
    DigitValue(c).Some? && DigitValue(c).value < radix
  }

  predicate AllDigits(s: string, radix: nat) {
    forall i :: 0 <= i < |s| ==> IsDigit(s[i], radix)
  }

  /** The number a digit string denotes, most significant digit first. */
  function DigitsValue(s: string, radix: nat): nat
    requires AllDigits(s, radix)
  {
    if s == [] then 0
    else DigitsValue(s[..|s| - 1], radix) * radix + DigitValue(s[|s| - 1]).value
  }

  /** A digit in front weighs radix to the power of the digits after it. */
  lemma {:induction false} DigitsValuePrepend(c: char, t: string, radix: nat)
    requires IsDigit(c, radix) && AllDigits(t, radix)
    ensures AllDigits([c] + t, radix)
    ensures DigitsValue([c] + t, radix) == DigitValue(c).value * Pow(radix, |t|) + DigitsValue(t, radix)
  {
    var u := [c] + t;
    assert AllDigits(u, radix) by {
      forall i | 0 <= i < |u| ensures IsDigit(u[i], radix) {
        if i > 0 { assert u[i] == t[i - 1]; }
      }
    }
    if t == [] {
      assert u[..0] == [];
    } else {
      var t' := t[..|t| - 1];
      assert u[..|u| - 1] == [c] + t';
      DigitsValuePrepend(c, t', radix);
      HornerStep(DigitValue(c).value, Pow(radix, |t'|), DigitsValue(t', radix), radix, DigitValue(t[|t| - 1]).value);
    }
  }

  lemma HornerStep(d: int, power: int, v: int, radix: int, last: int)
    ensures (d * power + v) * radix + last == d * (radix * power) + (v * radix + last)
  {
  }

  /** Leading '0' digits do not change the value. */
  lemma {:induction false} LeadingZerosValue(k: nat, t: string, radix: nat)
    requires IsRadix(radix) && AllDigits(t, radix)
    ensures AllDigits(Fill(k, '0') + t, radix)
    ensures DigitsValue(Fill(k, '0') + t, radix) == DigitsValue(t, radix)
  {
    if k > 0 {
      LeadingZerosValue(k - 1, t, radix);
      var rest := Fill(k - 1, '0') + t;
      assert Fill(k, '0') + t == ['0'] + rest;
      DigitsValuePrepend('0', rest, radix);
    } else {
      assert Fill(k, '0') + t == t;
    }
  }

  lemma DivModDigits(n: int, radix: int)
    requires 2 <= radix <= n
    ensures 1 <= n / radix < n && 0 <= n % radix < radix
    ensures n == n / radix * radix + n % radix
  {
  }

  /** `n.toString(radix)` for n >= 0: the shortest digit string, "0" for zero. */
  function RadixString(n: nat, radix: nat): (s: string)
    requires IsRadix(radix)
    ensures |s| >= 1 && AllDigits(s, radix)
    ensures s[0] == '0' <==> n == 0
    ensures n == 0 ==> s == "0"
    decreases n
  {
    if n < radix then [DigitChar(n)]
    else
      DivModDigits(n, radix);
      RadixString(n / radix, radix) + [DigitChar(n % radix)]
  }

  /** Parsing what `toString(radix)` writes gives the number back. */
  lemma {:induction false} RadixStringValue(n: nat, radix: nat)
    requires IsRadix(radix)
    ensures DigitsValue(RadixString(n, radix), radix) == n
    decreases n
  {
    var s := RadixString(n, radix);
    if n < radix {
      assert s[..0] == [];
    } else {
      DivModDigits(n, radix);
      RadixStringValue(n / radix, radix);
      assert s[..|s| - 1] == RadixString(n / radix, radix);
    }
  }

  /** `toString(radix)` writes exactly as many digits as the number needs:
      radix^(k-1) <= n < radix^k for k digits (one digit for zero). */
  lemma {:induction false} RadixStringLength(n: nat, radix: nat)
    requires IsRadix(radix)
    ensures var k := |RadixString(n, radix)|;
      n < Pow(radix, k) && (k == 1 || Pow(radix, k - 1) <= n)
    decreases n
  {
    if n >= radix {
      DivModDigits(n, radix);
      var q, r := n / radix, n % radix;
      RadixStringLength(q, radix);
      var k' := |RadixString(q, radix)|;
      assert |RadixString(n, radix)| == k' + 1;
      assert Pow(radix, k' + 1) == radix * Pow(radix, k');
      LengthStepUpper(n, q, r, radix, Pow(radix, k'));
      if k' == 1 {
        assert Pow(radix, 1) == radix;
        LengthStepLower(n, q, r, radix, 1);
      } else {
        assert Pow(radix, k') == radix * Pow(radix, k' - 1);
        LengthStepLower(n, q, r, radix, Pow(radix, k' - 1));
      }
    }
  }

  lemma LengthStepUpper(n: int, q: int, r: int, radix: int, power: int)
    requires n == q * radix + r && 0 <= r < radix && q < power
    ensures n < radix * power
  {
    MulMono(q + 1, power, radix);
  }

  lemma LengthStepLower(n: int, q: int, r: int, radix: int, power: int)
    requires n == q * radix + r && 0 <= r && power <= q && radix >= 0
    ensures radix * power <= n
  {
    MulMono(power, q, radix);
  }

  lemma MulMono(a: int, b: int, c: int)
    requires a <= b && c >= 0
    ensures a * c <= b * c
  {
    Distribute(b, a, c);
    if a < b && c > 0 {
      MulAtLeast(b - a, c);
    }
  }

  // ---------------------------------------------------------------------------
  // Integers as decimal strings

  /** `i.toString(radix)` on a bigint: a '-' in front of a negative value. */
  function IntToString(i: int, radix: nat): string
    requires IsRadix(radix)
  {
    if i < 0 then "-" + RadixString(-i, radix) else RadixString(i, radix)
  }

  /** `String(i)` / `i.toString()` on a bigint, or on a Number below 10^21 in
      magnitude (larger Numbers are written in exponent notation, not modelled). */
  function DecimalString(i: int): string {
    IntToString(i, 10)
  }

  /** `BigInt(s)` on a string: the empty string is 0, otherwise an optional sign
      and decimal digits; anything else throws a SyntaxError (None). White space
      and the 0x/0o/0b prefixes are not modelled. */
  function StringToBigInt(s: string): Option<int> {
    if s == [] then Some(0)
    else if s[0] == '-' || s[0] == '+' then
      var body := s[1..];
      if body != [] && AllDigits(body, 10) then
        var v: int := DigitsValue(body, 10);
        Some(if s[0] == '-' then -v else v)
      else None
    else if AllDigits(s, 10) then Some(DigitsValue(s, 10))
    else None
  }

  /** `BigInt(String(i)) === i`: the decimal form of every integer reads back as that integer. */
  lemma DecimalStringRoundTrip(i: int)
    ensures StringToBigInt(DecimalString(i)) == Some(i)
  {
    var s := DecimalString(i);
    if i < 0 {
      RadixStringValue(-i, 10);
      assert s[1..] == RadixString(-i, 10);
    } else {
      RadixStringValue(i, 10);
      assert IsDigit(s[0], 10);
    }
  }

  /** `xs.join("")` on an array of small numbers (here the 0/1 index bits):
      their decimal forms, end to end. */
  function Join(xs: seq<int>): string {
    if xs == [] then "" else DecimalString(xs[0]) + Join(xs[1..])
  }

  // ---------------------------------------------------------------------------
  // parseInt

  /** The length of the longest run of radix digits at the front of s. */
  function DigitPrefixLength(s: string, radix: nat): (k: nat)
    ensures k <= |s| && AllDigits(s[..k], radix)
    ensures k < |s| ==> !IsDigit(s[k], radix)
  {
    if s == [] || !IsDigit(s[0], radix) then 0
    else
      var k' := DigitPrefixLength(s[1..], radix);
      assert s[..k' + 1] == [s[0]] + s[1..][..k'];
      1 + k'
  }

  /** `parseInt(s, radix)` for a radix up to 10: an optional sign, then the
      longest run of digits; None stands for NaN (no digit at all). Leading white
      space is not modelled; above radix 10 JavaScript also strips a `0x` prefix
      (radix 16) and reads upper-case letters, so those radixes are excluded. */
  function ParseInt(s: string, radix: nat): Option<int>
    requires IsRadix(radix) && radix <= 10
  {
    var negative := |s| > 0 && s[0] == '-';
    var body := if |s| > 0 && (s[0] == '-' || s[0] == '+') then s[1..] else s;
    var k := DigitPrefixLength(body, radix);
    if k == 0 then None
    else
      var v: int := DigitsValue(body[..k], radix);
      Some(if negative then -v else v)
  }

  /** The smallest integer that does not fit a Number: `parseInt` rounds to the
      nearest double, and from halfway between the largest finite double
      (2^1024 - 2^971) and 2^1024 upwards the result is Infinity. */
  const NumberOverflow: int := 0xFFFFFFFFFFFFFC00000000000000000000000000000000000000000000000000000000000000000000000000000000000000000000000000000000000000000000000000000000000000000000000000000000000000000000000000000000000000000000000000000000000000000000000000000000000000000000000000

  lemma NumberOverflowValue()
    ensures NumberOverflow == Pow(2, 1024) - Pow(2, 970)
  {
    Pow2Is32Bits();
    assert Pow(2, 1) == 2 && Pow(2, 2) == 4 && Pow(2, 3) == 8 && Pow(2, 4) == 16;
    PowAdd(2, 32, 32);
    assert Pow(2, 64) == 0x10000000000000000;
    PowAdd(2, 64, 64);
    assert Pow(2, 128) == 0x100000000000000000000000000000000;
    PowAdd(2, 128, 128);
    assert Pow(2, 256) == 0x10000000000000000000000000000000000000000000000000000000000000000;
    PowAdd(2, 256, 256);
    assert Pow(2, 512) == 0x100000000000000000000000000000000000000000000000000000000000000000000000000000000000000000000000000000000000000000000000000000000;
    PowAdd(2, 512, 512);
    assert Pow(2, 1024) == 0x10000000000000000000000000000000000000000000000000000000000000000000000000000000000000000000000000000000000000000000000000000000000000000000000000000000000000000000000000000000000000000000000000000000000000000000000000000000000000000000000000000000000000000;
    PowAdd(2, 4, 4);
    assert Pow(2, 8) == 0x100;
    PowAdd(2, 8, 2);
    assert Pow(2, 10) == 0x400;
    PowAdd(2, 10, 64);
    assert Pow(2, 74) == 0x4000000000000000000;
    PowAdd(2, 74, 128);
    assert Pow(2, 202) == 0x400000000000000000000000000000000000000000000000000;
    PowAdd(2, 202, 256);
    assert Pow(2, 458) == 0x4000000000000000000000000000000000000000000000000000000000000000000000000000000000000000000000000000000000000000000;
    PowAdd(2, 458, 512);
    assert Pow(2, 970) == 0x400000000000000000000000000000000000000000000000000000000000000000000000000000000000000000000000000000000000000000000000000000000000000000000000000000000000000000000000000000000000000000000000000000000000000000000000000000000000000000000000000;
  }

  /** On a non-empty string of digits, `parseInt` reads the whole string. */
  lemma ParseIntAllDigits(s: string, radix: nat)
    requires IsRadix(radix) && radix <= 10 && s != [] && AllDigits(s, radix)
    ensures ParseInt(s, radix) == Some(DigitsValue(s, radix))
  {
    assert IsDigit(s[0], radix);
    var k := DigitPrefixLength(s, radix);
    assert k == |s|;
    assert s[..k] == s;
  }

  // ---------------------------------------------------------------------------
  // 32-bit operators on numbers

  const Two31: int := 0x8000_0000
  const Two32: int := 0x1_0000_0000

  /** ECMAScript ToInt32 on an integral number: wrap into [-2^31, 2^31). */
  function ToInt32(x: int): (r: int)
    ensures -Two31 <= r < Two31
    ensures (x - r) % Two32 == 0
  {
    var m := x % Two32;
    if m >= Two31 then m - Two32 else m
  }

  /** `x >> count`: both operands as 32-bit integers, the count taken modulo 32,
      the sign propagated (a floor division). */
  function SignedShiftRight(x: int, count: int): int {
    ToInt32(x) / Pow(2, count % 32)
  }

  /** `x & 1`: the lowest bit of the 32-bit two's-complement form of x. */
  function BitAndOne(x: int): (r: int)
    ensures r == 0 || r == 1
  {
    ToInt32(x) % 2
  }

  lemma {:induction false} MulAtLeast(d: int, p: int)
    requires d >= 1 && p > 0
    ensures d * p >= p
    decreases d
  {
    if d > 1 {
      MulAtLeast(d - 1, p);
      assert d * p == (d - 1) * p + p;
    }
  }

  lemma Distribute(x: int, y: int, p: int)
    ensures x * p - y * p == (x - y) * p
  {
  }

  lemma DivUnique(a: int, p: int, q: int, r: int)
    requires p > 0 && 0 <= r < p && a == q * p + r
    ensures a / p == q && a % p == r
  {
    var q0, r0 := a / p, a % p;
    assert a == q0 * p + r0 && 0 <= r0 < p;
    if q0 < q {
      MulAtLeast(q - q0, p);
      Distribute(q, q0, p);
      assert false;
    } else if q0 > q {
      MulAtLeast(q0 - q, p);
      Distribute(q0, q, p);
      assert false;
    }
  }

  lemma DivAddMultiple(a: int, j: int, p: int)
    requires p > 0
    ensures (a + j * p) / p == a / p + j
  {
    DivUnique(a + j * p, p, a / p + j, a % p);
  }

  lemma Pow2Is32Bits()
    ensures Pow(2, 32) == Two32
  {
    assert Pow(2, 1) == 2;
    assert Pow(2, 2) == 4;
    assert Pow(2, 3) == 8;
    assert Pow(2, 4) == 16;
    PowAdd(2, 4, 4);
    PowAdd(2, 8, 8);
    PowAdd(2, 16, 16);
  }

  /** Adding a multiple of 2 * p * h to x does not change bit log2(p) of x. */
  lemma BitUnderWrap(x: int, t: int, j: int, p: int, h: int)
    requires p > 0 && x == t + (j * h * 2) * p
    ensures (x / p) % 2 == (t / p) % 2
  {
    DivAddMultiple(t, j * h * 2, p);
  }

  lemma Regroup(j: int, p: int, h: int)
    ensures j * (p * (2 * h)) == (j * h * 2) * p
  {
  }

  /** A floor division by p >= 1 stays within the 32-bit range. */
  lemma DivStaysInt32(t: int, p: int)
    requires -Two31 <= t < Two31 && p >= 1
    ensures -Two31 <= t / p < Two31
  {
    var s := t / p;
    DivUnique(t, p, s, t % p);
    if s >= Two31 {
      MulMono(Two31, s, p);
      MulMono(1, p, Two31);
    } else if s < -Two31 {
      MulMono(s + 1, -Two31, p);
      MulMono(1, p, Two31);
    }
  }

  lemma ToInt32InRange(s: int)
    requires -Two31 <= s < Two31
    ensures ToInt32(s) == s
  {
    if s < 0 {
      DivUnique(s, Two32, -1, s + Two32);
    } else {
      DivUnique(s, Two32, 0, s);
    }
  }

  /** `(x >> i) & 1` is bit i of x for every shift below 32, whatever the size of x:
      the wrap to 32 bits only changes bits from 32 upwards. */
  lemma ShiftAndMaskIsBit(x: nat, i: nat)
    requires i < 32
    ensures BitAndOne(SignedShiftRight(x, i)) == (x / Pow(2, i)) % 2
  {
    var t := ToInt32(x);
    var p := Pow(2, i);
    var h := Pow(2, 31 - i);
    assert i % 32 == i;
    Pow2Is32Bits();
    PowAdd(2, i, 32 - i);
    PowAdd(2, 1, 31 - i);
    assert Two32 == p * (2 * h);
    var j := (x - t) / Two32;
    assert x == t + j * Two32;
    Regroup(j, p, h);
    BitUnderWrap(x, t, j, p, h);
    DivStaysInt32(t, p);
    ToInt32InRange(t / p);
    assert SignedShiftRight(x, i) == t / p;
  }
}
