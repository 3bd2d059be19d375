/** The `printf` conversions the telemetry sentence uses (`%d`, `%ld`, `%u`,
    `%02u`, `%04ld`, `%04X`), together with the parsers a ground station reads
    them back with. */
module Format {
  import opened CTypes

  predicate IsDigit(c: char) { '0' <= c <= '9' }

  predicate AllDigits(s: string) {
    |s| > 0 && forall i :: 0 <= i < |s| ==> IsDigit(s[i])
  }

  function DigitChar(d: nat): (c: char)
    requires d < 10
    ensures IsDigit(c) && c as int - '0' as int == d
  {
    ('0' as int + d) as char
  }

  /** `%u`: the decimal digits of n, most significant first, without a
      leading zero (0 itself is "0"). */
  function Digits(n: nat): (s: string)
    ensures AllDigits(s)
    ensures |s| > 1 ==> s[0] != '0'
  {
    if n < 10 then [DigitChar(n)] else Digits(n / 10) + [DigitChar(n % 10)]
  }

  /** The number a string of decimal digits denotes (leading zeros allowed). */
  function ValueOf(s: string): nat
    requires AllDigits(s)
    decreases |s|
  {
    var last := s[|s| - 1] as int - '0' as int;
    if |s| == 1 then last else ValueOf(s[..|s| - 1]) * 10 + last
  }

  lemma {:induction false} DigitsRoundTrip(n: nat)
    ensures ValueOf(Digits(n)) == n
  {
    if n >= 10 {
      DigitsRoundTrip(n / 10);
      var s := Digits(n);
      assert s[..|s| - 1] == Digits(n / 10);
    }
  }

  /** `%d` and `%ld`: a `-` and the digits of the magnitude when negative,
      the digits alone otherwise (no `+`). */
  function Decimal(i: int): (s: string)
    ensures |s| > 0
    ensures s[0] == '-' <==> i < 0
    ensures i < 0 ==> s[1..] == Digits(-i)
    ensures i >= 0 ==> s == Digits(i)
  {
    if i < 0 then "-" + Digits(-i) else Digits(i)
  }

  function ParseUnsigned(s: string): Option<nat> {
    if AllDigits(s) then Some(ValueOf(s)) else None
  }

  function ParseSigned(s: string): Option<int> {
    if |s| > 0 && s[0] == '-' then
      if AllDigits(s[1..]) then Some(-(ValueOf(s[1..]) as int)) else None
    else
      ParseUnsigned(s)
  }

  lemma DecimalRoundTrip(i: int)
    ensures ParseSigned(Decimal(i)) == Some(i)
  {
    if i < 0 {
      DigitsRoundTrip(-i);
    } else {
      DigitsRoundTrip(i);
    }
  }

  function Zeros(k: nat): (s: string)
    ensures |s| == k && forall j :: 0 <= j < k ==> s[j] == '0'
  {
    seq(k, _ => '0')
  }

  /** `%0<width>u`: the digits of n, padded on the left with zeros to at
      least `width` characters. */
  function ZeroPadded(n: nat, width: nat): (s: string)
    ensures AllDigits(s)
    ensures |s| == if |Digits(n)| < width then width else |Digits(n)|
  {
    var d := Digits(n);
    if |d| < width then Zeros(width - |d|) + d else d
  }

  lemma {:induction false} ZerosValue(k: nat)
    requires k > 0
    ensures AllDigits(Zeros(k)) && ValueOf(Zeros(k)) == 0
  {
    if k > 1 {
      ZerosValue(k - 1);
      assert Zeros(k)[..k - 1] == Zeros(k - 1);
    }
  }

  lemma {:induction false} LeadingZeros(k: nat, s: string)
    requires AllDigits(s)
    ensures AllDigits(Zeros(k) + s) && ValueOf(Zeros(k) + s) == ValueOf(s)
    decreases |s|
  {
    var t := Zeros(k) + s;
    if k > 0 {
      if |s| == 1 {
        assert t[..|t| - 1] == Zeros(k);
        ZerosValue(k);
      } else {
        assert t[..|t| - 1] == Zeros(k) + s[..|s| - 1];
        LeadingZeros(k, s[..|s| - 1]);
      }
    } else {
      assert t == s;
    }
  }

  lemma ZeroPaddedRoundTrip(n: nat, width: nat)
    ensures ParseUnsigned(ZeroPadded(n, width)) == Some(n)
  {
    var d := Digits(n);
    DigitsRoundTrip(n);
    if |d| < width {
      LeadingZeros(width - |d|, d);
    }
  }

  function Pow10(k: nat): (p: nat)
    ensures p >= 1
  {
    if k == 0 then 1 else 10 * Pow10(k - 1)
  }

  /** A number below 10^k prints in at most k digits. */
  lemma {:induction false} DigitsLength(n: nat, k: nat)
    requires k >= 1 && n < Pow10(k)
    ensures |Digits(n)| <= k
  {
    if n >= 10 {
      assert Pow10(1) == 10;
      assert k >= 2;
      assert n / 10 < Pow10(k - 1);
      DigitsLength(n / 10, k - 1);
    }
  }

  /** `%d` of any 32-bit `int` takes at most 11 characters. */
  lemma DecimalLength32(i: int32)
    ensures |Decimal(i)| <= 11
  {
    assert Pow10(10) == 10_000_000_000 by {
      assert Pow10(5) == 100_000;
    }
    if i < 0 {
      DigitsLength(-(i as int), 10);
    } else {
      DigitsLength(i, 10);
    }
  }

  /** `%u` of an 8-bit value takes at most 3 characters. */
  lemma DigitsLength8(n: uint8)
    ensures |Digits(n)| <= 3
  {
    assert Pow10(3) == 1000;
    DigitsLength(n, 3);
  }

  const HexChars: string := "0123456789ABCDEF"

  predicate IsUpperHex(c: char) { IsDigit(c) || 'A' <= c <= 'F' }

  function HexValue(c: char): (v: nat)
    requires IsUpperHex(c)
  {
    if IsDigit(c) then c as int - '0' as int else c as int - 'A' as int + 10
  }

  lemma HexCharValue(d: nat)
    requires d < 16
    ensures IsUpperHex(HexChars[d]) && HexValue(HexChars[d]) == d
  {
  }

  /** `%04X` of a 16-bit value: exactly four upper-case hexadecimal digits. */
  function Hex4(v: nat): (s: string)
    requires v < 0x1_0000
    ensures |s| == 4 && forall i :: 0 <= i < 4 ==> IsUpperHex(s[i])
  {
    HexCharValue(v / 16 / 16 / 16);
    HexCharValue(v / 16 / 16 % 16);
    HexCharValue(v / 16 % 16);
    HexCharValue(v % 16);
    [HexChars[v / 16 / 16 / 16], HexChars[v / 16 / 16 % 16], HexChars[v / 16 % 16], HexChars[v % 16]]
  }

  function ParseHex4(s: string): Option<nat> {
    if |s| == 4 && forall i :: 0 <= i < 4 ==> IsUpperHex(s[i]) then
      Some(((HexValue(s[0]) * 0x10 + HexValue(s[1])) * 0x10 + HexValue(s[2])) * 0x10 + HexValue(s[3]))
    else
      None
  }

  lemma Hex4RoundTrip(v: nat)
    requires v < 0x1_0000
    ensures ParseHex4(Hex4(v)) == Some(v)
  {
    var q1 := v / 16;
    var q2 := q1 / 16;
    var q3 := q2 / 16;
    HexCharValue(q3);
    HexCharValue(q2 % 16);
    HexCharValue(q1 % 16);
    HexCharValue(v % 16);
    assert q3 * 16 + q2 % 16 == q2;
    assert q2 * 16 + q1 % 16 == q1;
    assert q1 * 16 + v % 16 == v;
  }
}
