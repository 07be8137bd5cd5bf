/** PHP's conversion of a non-negative integer to a string, and
    `number_format` with its default arguments. */
module PhpNumber {

  predicate IsDigitChar(c: char) {
    '0' <= c <= '9'
  }

  function DigitChar(d: nat): (c: char)
    requires d < 10
    ensures IsDigitChar(c)
  {
    "0123456789"[d]
  }

  /** The value of a decimal digit character; inverse of DigitChar. */
  function DigitValue(c: char): (d: nat)
    requires IsDigitChar(c)
    ensures d < 10 && DigitChar(d) == c
  {
    (c as int - '0' as int) as nat
  }

  /** The value of a string of decimal digits. */
  function DecimalValue(s: string): nat
    requires forall k :: 0 <= k < |s| ==> IsDigitChar(s[k])
  {
    if s == [] then 0 else DecimalValue(s[..|s| - 1]) * 10 + DigitValue(s[|s| - 1])
  }

  /** A natural number converted to a string, as PHP's string conversion of a
      non-negative integer writes it. */
  function Decimal(n: nat): (r: string)
    ensures |r| > 0
    ensures forall k :: 0 <= k < |r| ==> IsDigitChar(r[k])
    ensures r[0] != '0' || n == 0
  {
    if n < 10 then [DigitChar(n)] else Decimal(n / 10) + [DigitChar(n % 10)]
  }

  /** Reading a converted number back gives the number. */
  lemma {:induction false} DecimalRoundTrip(n: nat)
    ensures DecimalValue(Decimal(n)) == n
  {
    var r := Decimal(n);
    if n >= 10 {
      DecimalRoundTrip(n / 10);
      assert r[..|r| - 1] == Decimal(n / 10);
    }
  }

  /** Exactly three digits, zero-padded: one thousands group. */
  function Group3(n: nat): (r: string)
    requires n < 1000
    ensures |r| == 3
    ensures forall k :: 0 <= k < 3 ==> IsDigitChar(r[k])
  {
    [DigitChar(n / 100), DigitChar(n % 100 / 10), DigitChar(n % 100 % 10)]
  }

  /** `number_format($n)`: the decimal digits of `n`, grouped in threes from
      the right with "," between the groups. */
  function NumberFormat(n: nat): (r: string)
    ensures |r| > 0 && IsDigitChar(r[0])
    ensures forall k :: 0 <= k < |r| ==> IsDigitChar(r[k]) || r[k] == ','
  {
    if n < 1000 then Decimal(n) else NumberFormat(n / 1000) + "," + Group3(n % 1000)
  }

  /** The digit characters of a string, with everything else dropped. */
  function DigitsOf(s: string): (r: string)
    ensures forall k :: 0 <= k < |r| ==> IsDigitChar(r[k])
  {
    if s == [] then []
    else if IsDigitChar(s[|s| - 1]) then DigitsOf(s[..|s| - 1]) + [s[|s| - 1]]
    else DigitsOf(s[..|s| - 1])
  }

  lemma DigitsOfAppend(a: string, b: string)
    ensures DigitsOf(a + b) == DigitsOf(a) + DigitsOf(b)
    decreases |b|
  {
    if b == [] {
      assert a + b == a;
    } else {
      assert (a + b)[..|a + b| - 1] == a + b[..|b| - 1];
      DigitsOfAppend(a, b[..|b| - 1]);
    }
  }

  function Pow10(e: nat): (r: nat)
    ensures r > 0
  {
    if e == 0 then 1 else 10 * Pow10(e - 1)
  }

  /** Appending one digit, as arithmetic on the values involved. */
  lemma ShiftDigit(x: nat, p: nat, y: nat, v: nat)
    ensures (x * p + y) * 10 + v == x * (p * 10) + (y * 10 + v)
  {
  }

  lemma {:induction false} DecimalValueAppend(d: string, g: string)
    requires forall k :: 0 <= k < |d| ==> IsDigitChar(d[k])
    requires forall k :: 0 <= k < |g| ==> IsDigitChar(g[k])
    ensures DecimalValue(d + g) == DecimalValue(d) * Pow10(|g|) + DecimalValue(g)
  {
    if g == [] {
      assert d + g == d;
    } else {
      var g' := g[..|g| - 1];
      var dg := d + g;
      assert dg[..|dg| - 1] == d + g';
      assert dg[|dg| - 1] == g[|g| - 1];
      DecimalValueAppend(d, g');
      var x, p, y, v := DecimalValue(d), Pow10(|g'|), DecimalValue(g'), DigitValue(g[|g| - 1]);
      assert DecimalValue(dg) == DecimalValue(d + g') * 10 + v;
      assert Pow10(|g|) == p * 10;
      assert DecimalValue(g) == y * 10 + v;
      ShiftDigit(x, p, y, v);
    }
  }

  lemma Group3Value(n: nat)
    requires n < 1000
    ensures DecimalValue(Group3(n)) == n
  {
    var g := Group3(n);
    var a, r := n / 100, n % 100;
    var b, c := r / 10, r % 10;
    assert n == a * 100 + r && r == b * 10 + c;
    assert g[..1][..0] == [];
    assert g[..2][..1] == g[..1];
    assert DecimalValue(g[..1]) == a;
    assert DecimalValue(g[..2]) == a * 10 + b;
    assert g[..3] == g;
    assert DecimalValue(g) == (a * 10 + b) * 10 + c;
  }

  lemma {:induction false} DigitsOfAll(s: string)
    requires forall k :: 0 <= k < |s| ==> IsDigitChar(s[k])
    ensures DigitsOf(s) == s
  {
    if s != [] {
      var init := s[..|s| - 1];
      assert forall k :: 0 <= k < |init| ==> init[k] == s[k];
      DigitsOfAll(init);
      assert IsDigitChar(s[|s| - 1]);
      assert s[..|s| - 1] + [s[|s| - 1]] == s;
    }
  }

  /** Dropping the separators from `number_format` leaves a string that
      reads back as the formatted number. */
  lemma {:induction false} NumberFormatValue(n: nat)
    ensures DecimalValue(DigitsOf(NumberFormat(n))) == n
  {
    if n < 1000 {
      DigitsOfAll(Decimal(n));
      DecimalRoundTrip(n);
    } else {
      var hi := NumberFormat(n / 1000);
      var g := Group3(n % 1000);
      assert NumberFormat(n) == (hi + ",") + g;
      NumberFormatValue(n / 1000);
      DigitsOfAppend(hi + ",", g);
      DigitsOfAppend(hi, ",");
      assert DigitsOf(",") == [] by { assert ","[..0] == []; }
      assert DigitsOf(hi + ",") == DigitsOf(hi);
      DigitsOfAll(g);
      DecimalValueAppend(DigitsOf(hi), g);
      Group3Value(n % 1000);
      assert Pow10(3) == 1000;
    }
  }
}
