/** PHP's `hexdec`: the value of the hexadecimal digits in a string, with
    every other character ignored. The inverse direction, `ToHex`, is the
    partner the round trip is proved against. */
module Hex {

  predicate IsHexDigit(c: char) {
    ('0' <= c <= '9') || ('a' <= c <= 'f') || ('A' <= c <= 'F')
  }

  /** The value of one hexadecimal digit; upper and lower case agree. */
  function HexDigitValue(c: char): (d: nat)
    requires IsHexDigit(c)
    ensures d < 16
  {
    if '0' <= c <= '9' then (c as int - '0' as int) as nat
    else if 'a' <= c <= 'f' then (c as int - 'a' as int + 10) as nat
    else (c as int - 'A' as int + 10) as nat
  }

  /** An upper-case digit has the value of its lower-case spelling. */
  lemma HexDigitCaseAgrees(c: char)
    requires 'A' <= c <= 'F'
    ensures HexDigitValue(c) == HexDigitValue((c as int - 'A' as int + 'a' as int) as char)
  {
  }

  /** The lower-case digit for a value below sixteen. */
  function HexDigitChar(d: nat): (c: char)
    requires d < 16
    ensures IsHexDigit(c) && HexDigitValue(c) == d
  {
    "0123456789abcdef"[d]
  }

  function Pow16(e: nat): (r: nat)
    ensures r > 0
  {
    if e == 0 then 1 else 16 * Pow16(e - 1)
  }

  /** The number of hexadecimal digits in `s`. */
  function HexDigitCount(s: string): (n: nat)
    ensures n <= |s|
  {
    if s == [] then 0
    else HexDigitCount(s[..|s| - 1]) + (if IsHexDigit(s[|s| - 1]) then 1 else 0)
  }

  /** `hexdec($s)`: non-hexadecimal characters are skipped, the remaining
      digits are read most significant first. The value always fits in as
      many hexadecimal places as there are digits. */
  function HexDec(s: string): (r: nat)
    ensures r < Pow16(HexDigitCount(s))
  {
    if s == [] then 0
    else if IsHexDigit(s[|s| - 1]) then HexDec(s[..|s| - 1]) * 16 + HexDigitValue(s[|s| - 1])
    else HexDec(s[..|s| - 1])
  }

  /** The hexadecimal digits of `s`, in order, with everything else dropped. */
  function HexDigitsOf(s: string): (d: string)
    ensures |d| == HexDigitCount(s)
    ensures forall k :: 0 <= k < |d| ==> IsHexDigit(d[k])
  {
    if s == [] then []
    else HexDigitsOf(s[..|s| - 1]) + (if IsHexDigit(s[|s| - 1]) then [s[|s| - 1]] else [])
  }

  /** `hexdec` reads only the digits: characters that are not hexadecimal
      digits change nothing. */
  lemma {:induction false} HexDecSkipsNonDigits(s: string)
    ensures HexDec(s) == HexDec(HexDigitsOf(s))
  {
    if s != [] {
      var p := s[..|s| - 1];
      var d := HexDigitsOf(p);
      HexDecSkipsNonDigits(p);
      if IsHexDigit(s[|s| - 1]) {
        var e := d + [s[|s| - 1]];
        assert e[..|e| - 1] == d && e[|e| - 1] == s[|s| - 1];
        assert HexDec(e) == HexDec(d) * 16 + HexDigitValue(s[|s| - 1]);
      } else {
        assert HexDigitsOf(s) == d + [] == d;
      }
    }
  }

  /** The digits are read most significant first, one prefix at a time,
      so leading zeros add nothing. */
  lemma HexDecZeroPadded()
    ensures HexDec("00001388") == 0x1388
  {
    var h := "00001388";
    forall k | 1 <= k <= 8
      ensures h[..k][..k - 1] == h[..k - 1] && h[..k][k - 1] == h[k - 1]
    {
    }
    assert h[0] == '0' && HexDec(h[..1]) == 0;
    assert h[1] == '0' && HexDec(h[..2]) == 0;
    assert h[2] == '0' && HexDec(h[..3]) == 0;
    assert h[3] == '0' && HexDec(h[..4]) == 0;
    assert h[4] == '1' && HexDec(h[..5]) == 1;
    assert h[5] == '3' && HexDec(h[..6]) == 0x13;
    assert h[6] == '8' && HexDec(h[..7]) == 0x138;
    assert h[7] == '8' && HexDec(h[..8]) == 0x1388;
    assert h[..8] == h;
  }

  /** The hexadecimal digits of `n`, lower case, without leading zeros. */
  function ToHex(n: nat): (r: string)
    ensures |r| > 0
    ensures forall k :: 0 <= k < |r| ==> IsHexDigit(r[k])
    ensures r[0] != '0' || n == 0
  {
    if n < 16 then [HexDigitChar(n)] else ToHex(n / 16) + [HexDigitChar(n % 16)]
  }

  /** Decoding what ToHex writes gives back the number. */
  lemma {:induction false} HexRoundTrip(n: nat)
    ensures HexDec(ToHex(n)) == n
  {
    var r := ToHex(n);
    if n >= 16 {
      HexRoundTrip(n / 16);
      assert r[..|r| - 1] == ToHex(n / 16);
    }
  }
}
