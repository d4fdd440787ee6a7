/** toHex.ts: a number or bigint written as a `0x`-prefixed, zero-padded,
    lower-case hexadecimal string. */
module Hex {
  import opened Wrappers
  import opened JsSequences
  import opened JsNumbers

  /** The padding `toHex` applies when the caller gives none. */
  const DefaultPadding: int := 64

  /** `toHex(value, padding)`: `"0x"` followed by `BigInt(value).toString(16)`
      left-padded with '0' to `padding` characters. A negative value keeps its
      '-' after the padding zeros, as `padStart` leaves it. */
  function ToHex(value: int, padding: int): (s: string)
    ensures |s| >= 3 && s[..2] == "0x"
  {
    "0x" + PadStart(IntToString(value, 16), padding, '0')
  }

  /** Reading a `0x`-prefixed string back as a number: at least one lower-case
      hex digit after the prefix and nothing else. */
  function HexValue(s: string): Option<nat> {
    if |s| > 2 && s[..2] == "0x" && AllDigits(s[2..], 16) then Some(DigitsValue(s[2..], 16))
    else None
  }

  /** For a non-negative value, the digits after 0x are `value.toString(16)`
      behind as many '0's as the padding asks for. */
  lemma ToHexDigits(value: nat, padding: int)
    ensures var s := ToHex(value, padding);
      var digits := RadixString(value, 16);
      var zeros := if padding > |digits| then padding - |digits| else 0;
      && |s| == 2 + zeros + |digits|
      && (forall i :: 2 <= i < |s| ==> IsDigit(s[i], 16))
      && (forall i :: 2 <= i < 2 + zeros ==> s[i] == '0')
      && s[2 + zeros..] == digits
  {
    var s := ToHex(value, padding);
    var digits := RadixString(value, 16);
    var zeros := if padding > |digits| then padding - |digits| else 0;
    assert s == "0x" + Fill(zeros, '0') + digits;
    forall i | 2 <= i < |s| ensures IsDigit(s[i], 16) {
      if i < 2 + zeros {
        assert s[i] == '0';
        assert DigitValue('0') == Some(0);
      } else {
        assert s[i] == digits[i - 2 - zeros];
      }
    }
  }

  /** The part after 0x is never shorter than `padding`, holds every digit of
      the value (padding never truncates), and is longer than `padding` only
      when the value needs more digits. */
  lemma ToHexLength(value: nat, padding: int)
    ensures var n := |ToHex(value, padding)| - 2;
      && n >= padding && n >= 1
      && value < Pow(16, n)
      && (n == padding || n == 1 || Pow(16, n - 1) <= value)
  {
    ToHexDigits(value, padding);
    RadixStringLength(value, 16);
    var k := |RadixString(value, 16)|;
    var n := |ToHex(value, padding)| - 2;
    if n > k {
      PowMono(16, k, n);
    }
  }

  lemma {:induction false} PowMono(base: nat, e1: nat, e2: nat)
    requires base >= 1 && e1 <= e2
    ensures Pow(base, e1) <= Pow(base, e2)
    decreases e2
  {
    if e1 < e2 {
      PowMono(base, e1, e2 - 1);
      MulMono(1, base, Pow(base, e2 - 1));
    }
  }

  /** Reading the hex string back gives the value: toHex loses nothing for a
      non-negative value, whatever the padding. */
  lemma ToHexRoundTrip(value: nat, padding: int)
    ensures HexValue(ToHex(value, padding)) == Some(value)
  {
    var s := ToHex(value, padding);
    var digits := RadixString(value, 16);
    var zeros := if padding > |digits| then padding - |digits| else 0;
    assert s[2..] == Fill(zeros, '0') + digits;
    LeadingZerosValue(zeros, digits, 16);
    RadixStringValue(value, 16);
  }

  /** Changing the padding never changes the number the string denotes (for a
      negative value, neither padding gives a readable hex number). */
  lemma ToHexPaddingKeepsValue(value: int, padding1: int, padding2: int)
    ensures HexValue(ToHex(value, padding1)) == HexValue(ToHex(value, padding2))
  {
    if value >= 0 {
      ToHexRoundTrip(value, padding1);
      ToHexRoundTrip(value, padding2);
    } else {
      NegativeHexUnreadable(value, padding1);
      NegativeHexUnreadable(value, padding2);
    }
  }

  /** A negative value keeps its '-' in the output, so it is not a hex number. */
  lemma NegativeHexUnreadable(value: int, padding: int)
    requires value < 0
    ensures HexValue(ToHex(value, padding)) == None
  {
    var s := ToHex(value, padding);
    var t := IntToString(value, 16);
    var body := PadStart(t, padding, '0');
    assert s[2..] == body;
    var j := |body| - |t|;
    assert body[j] == t[0] == '-';
    assert !IsDigit(s[2..][j], 16);
  }

  /** Two values with the same hex string at the same padding are equal. */
  lemma ToHexInjective(value1: nat, value2: nat, padding: int)
    requires ToHex(value1, padding) == ToHex(value2, padding)
    ensures value1 == value2
  {
    ToHexRoundTrip(value1, padding);
    ToHexRoundTrip(value2, padding);
  }
}
