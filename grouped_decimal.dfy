/** The text of the "N" format as UTF-8 bytes: the decimal digits of a
    magnitude with a ',' before every group of three digits counted from the
    right, an optional leading '-', and the fractional part that the precision
    asks for. This is the reference the formatter is proved against. */
module GroupedDecimal {
  import opened TwosComplement

  const Minus: byte := 0x2D   // '-'
  const Comma: byte := 0x2C   // ','
  const Period: byte := 0x2E  // '.'
  const Zero: byte := 0x30    // '0'

  predicate IsDigit(b: byte) {
    Zero <= b <= Zero + 9
  }

  /** The ASCII byte of decimal digit `d`. */
  function Digit(d: nat): (b: byte)
    requires d < 10
  {
    Zero + d
  }

  /** The bytes of a string, one per character: the character code itself
      for ASCII text. */
  function Ascii(s: string): (r: seq<byte>)
    ensures |r| == |s|
  {
    seq(|s|, i requires 0 <= i < |s| => s[i] as int % 0x100)
  }

  /** The number of decimal digits of `n`; 0 has one digit. */
  function DigitCount(n: nat): (k: nat)
    ensures k >= 1
  {
    if n < 10 then 1 else 1 + DigitCount(n / 10)
  }

  function Pow10(k: nat): (r: nat) {
    if k == 0 then 1 else 10 * Pow10(k - 1)
  }

  /** DigitCount agrees with the usual characterisation by powers of ten. */
  lemma {:induction false} DigitCountBounds(n: nat)
    ensures n < Pow10(DigitCount(n))
    ensures n == 0 || Pow10(DigitCount(n) - 1) <= n
  {
    if n >= 10 {
      DigitCountBounds(n / 10);
    }
  }

  lemma DigitCountThousands(n: nat)
    requires n >= 1000
    ensures DigitCount(n) == DigitCount(n / 1000) + 3
  {
    ThousandsArithmetic(n);
    assert DigitCount(n) == 1 + DigitCount(n / 10);
    assert DigitCount(n / 10) == 1 + DigitCount(n / 10 / 10);
    assert DigitCount(n / 10 / 10) == 1 + DigitCount(n / 10 / 10 / 10);
  }

  lemma DigitCountBelowThousand(n: nat)
    requires n < 1000
    ensures DigitCount(n) <= 3
  {
    if n >= 10 {
      assert DigitCount(n) == 1 + DigitCount(n / 10);
      if n / 10 >= 10 {
        assert n / 10 / 10 < 10;
        assert DigitCount(n / 10) == 1 + DigitCount(n / 10 / 10);
      }
    }
  }

  lemma ThousandsArithmetic(n: nat)
    requires n >= 1000
    ensures n / 10 / 10 / 10 == n / 1000
    ensures n / 10 / 10 >= 10
    ensures n / 10 % 10 == n % 1000 / 10 % 10
    ensures n / 10 / 10 % 10 == n % 1000 / 100
    ensures n % 10 == n % 1000 % 10
  {
    var q, k := n / 1000, n % 1000;
    assert n == 1000 * q + k;
    assert n / 10 == 100 * q + k / 10;
    assert n / 10 / 10 == 10 * q + k / 100;
  }

  /** The decimal digits of `n`, most significant first, without leading zeros. */
  function Digits(n: nat): (r: seq<byte>)
    decreases n
  {
    if n < 10 then [Digit(n)] else Digits(n / 10) + [Digit(n % 10)]
  }

  /** Digits has one byte per digit, all of them ASCII digits, ends with the
      ones digit and starts with '0' only for 0 itself. */
  lemma {:induction false} DigitsShape(n: nat)
    ensures |Digits(n)| == DigitCount(n)
    ensures forall i | 0 <= i < |Digits(n)| :: IsDigit(Digits(n)[i])
    ensures Digits(n)[|Digits(n)| - 1] == Digit(n % 10)
    ensures Digits(n)[0] == Zero <==> n == 0
    decreases n
  {
    if n >= 10 {
      DigitsShape(n / 10);
      assert Digits(n) == Digits(n / 10) + [Digit(n % 10)];
    }
  }

  /** The three digits of a full group, leading zeros kept. */
  function Group3(k: nat): (r: seq<byte>)
    requires k < 1000
  {
    [Digit(k / 100), Digit(k / 10 % 10), Digit(k % 10)]
  }

  /** The integer part of the "N" format: the digits of `n` with a ','
      before every group of three. */
  function Grouped(n: nat): (r: seq<byte>)
    decreases n
  {
    if n < 1000 then Digits(n) else Grouped(n / 1000) + [Comma] + Group3(n % 1000)
  }

  /** The grouped text has DigitCount(n) digits and one ',' per full group
      after the first, holds nothing but digits and separators, and ends with
      the ones digit of `n`. */
  lemma {:induction false} GroupedShape(n: nat)
    ensures |Grouped(n)| == DigitCount(n) + (DigitCount(n) - 1) / 3
    ensures forall i | 0 <= i < |Grouped(n)| :: IsDigit(Grouped(n)[i]) || Grouped(n)[i] == Comma
    ensures Grouped(n)[|Grouped(n)| - 1] == Digit(n % 10)
    decreases n
  {
    if n < 1000 {
      DigitCountBelowThousand(n);
      DigitsShape(n);
    } else {
      GroupedShape(n / 1000);
      DigitCountThousands(n);
      ThousandsArithmetic(n);
      var g, t := Grouped(n / 1000), Group3(n % 1000);
      assert Grouped(n) == g + [Comma] + t;
      forall i | 0 <= i < |Grouped(n)|
        ensures IsDigit(Grouped(n)[i]) || Grouped(n)[i] == Comma
      {
        if i < |g| {
          assert Grouped(n)[i] == g[i];
        }
      }
    }
  }

  /** Counted from the right end, every fourth byte of `s` is a ',' and no
      other byte is. */
  predicate CommaEveryFourth(s: seq<byte>) {
    forall i | 0 <= i < |s| :: s[i] == Comma <==> (|s| - i) % 4 == 0
  }

  lemma ShortDigitsLayout(s: seq<byte>)
    requires |s| < 4
    requires forall i | 0 <= i < |s| :: IsDigit(s[i])
    ensures CommaEveryFourth(s)
  {
  }

  lemma AppendGroupLayout(g: seq<byte>, t: seq<byte>)
    requires CommaEveryFourth(g)
    requires |t| == 3 && forall i | 0 <= i < 3 :: IsDigit(t[i])
    ensures CommaEveryFourth(g + [Comma] + t)
  {
    var r := g + [Comma] + t;
    forall i | 0 <= i < |g|
      ensures r[i] == Comma <==> (|r| - i) % 4 == 0
    {
      assert r[i] == g[i];
    }
    forall i | |g| + 1 <= i < |r|
      ensures r[i] != Comma && (|r| - i) % 4 != 0
    {
      assert r[i] == t[i - |g| - 1];
    }
  }

  /** Where the separators are: counted from the right end, every fourth
      byte is a ',' and no other byte is. In particular the text never
      starts with a ','. */
  lemma {:induction false} GroupedLayout(n: nat)
    ensures CommaEveryFourth(Grouped(n))
    decreases n
  {
    if n < 1000 {
      DigitCountBelowThousand(n);
      DigitsShape(n);
      ShortDigitsLayout(Digits(n));
    } else {
      GroupedLayout(n / 1000);
      AppendGroupLayout(Grouped(n / 1000), Group3(n % 1000));
    }
  }

  /** `s` with every ',' removed. */
  function DropSeparators(s: seq<byte>): (r: seq<byte>)
    ensures Comma !in r
    ensures forall b | b in r :: b in s
  {
    if s == [] then []
    else if s[|s| - 1] == Comma then DropSeparators(s[..|s| - 1])
    else DropSeparators(s[..|s| - 1]) + [s[|s| - 1]]
  }

  lemma {:induction false} DropSeparatorsAppend(a: seq<byte>, b: seq<byte>)
    ensures DropSeparators(a + b) == DropSeparators(a) + DropSeparators(b)
    decreases |b|
  {
    if b == [] {
      assert a + b == a;
    } else {
      var b' := b[..|b| - 1];
      assert (a + b)[..|a + b| - 1] == a + b';
      DropSeparatorsAppend(a, b');
    }
  }

  lemma {:induction false} NoSeparators(s: seq<byte>)
    requires forall i | 0 <= i < |s| :: IsDigit(s[i])
    ensures DropSeparators(s) == s
    decreases |s|
  {
    if s != [] {
      NoSeparators(s[..|s| - 1]);
      assert s[..|s| - 1] + [s[|s| - 1]] == s;
    }
  }

  /** The number a string of decimal digits denotes. */
  function DecimalValue(s: seq<byte>): (v: nat)
    requires forall i | 0 <= i < |s| :: IsDigit(s[i])
  {
    if s == [] then 0
    else
      assert IsDigit(s[|s| - 1]);
      10 * DecimalValue(s[..|s| - 1]) + (s[|s| - 1] - Zero)
  }

  /** Digits is a faithful decimal rendering: reading it back gives `n`. */
  lemma {:induction false} DigitsRoundTrip(n: nat)
    ensures forall i | 0 <= i < |Digits(n)| :: IsDigit(Digits(n)[i])
    ensures DecimalValue(Digits(n)) == n
    decreases n
  {
    DigitsShape(n);
    if n >= 10 {
      DigitsRoundTrip(n / 10);
      var r := Digits(n);
      assert r[..|r| - 1] == Digits(n / 10);
    }
  }

  /** Splitting off the last three digits of a number of four or more digits. */
  lemma DigitsSplit(n: nat)
    requires n >= 1000
    ensures Digits(n) == Digits(n / 1000) + Group3(n % 1000)
  {
    var a, b, c := n / 10, n / 10 / 10, n / 10 / 10 / 10;
    ThousandsArithmetic(n);
    assert Digits(n) == Digits(a) + [Digit(n % 10)];
    assert Digits(a) == Digits(b) + [Digit(a % 10)];
    assert Digits(b) == Digits(c) + [Digit(b % 10)];
  }

  /** Removing the separators from the grouped text leaves exactly the
      digits of `n`: grouping inserts ',' and nothing else. */
  lemma {:induction false} GroupedDropSeparators(n: nat)
    ensures DropSeparators(Grouped(n)) == Digits(n)
    decreases n
  {
    if n < 1000 {
      DigitsShape(n);
      NoSeparators(Digits(n));
    } else {
      GroupedDropSeparators(n / 1000);
      DigitsSplit(n);
      DropSeparatorsAppend(Grouped(n / 1000) + [Comma], Group3(n % 1000));
      DropSeparatorsAppend(Grouped(n / 1000), [Comma]);
      assert DropSeparators([Comma]) == [] by {
        assert [Comma][..0] == [];
      }
      NoSeparators(Group3(n % 1000));
    }
  }

  /** The grouped text reads back as `n` once its separators are dropped. */
  lemma {:induction false} GroupedRoundTrip(n: nat)
    ensures DropSeparators(Grouped(n)) == Digits(n)
    ensures forall i | 0 <= i < |Digits(n)| :: IsDigit(Digits(n)[i])
    ensures DecimalValue(DropSeparators(Grouped(n))) == n
  {
    GroupedDropSeparators(n);
    DigitsRoundTrip(n);
  }

  lemma {:induction false} DigitsSuccessor(n: nat)
    requires n % 10 != 9
    ensures |Digits(n)| >= 1
    ensures var r := Digits(n); Digits(n + 1) == r[|r| - 1 := IncrementByte(r[|r| - 1])]
  {
    DigitsShape(n);
    if n >= 10 {
      assert (n + 1) / 10 == n / 10;
      assert (n + 1) % 10 == n % 10 + 1;
    }
  }

  /** When the ones digit of `n` is not 9, the grouped text of n + 1 is that
      of `n` with only its last byte incremented: no carry, no new digit and
      no new separator. */
  lemma {:induction false} GroupedSuccessor(n: nat)
    requires n % 10 != 9
    ensures |Grouped(n)| >= 1
    ensures var r := Grouped(n); Grouped(n + 1) == r[|r| - 1 := IncrementByte(r[|r| - 1])]
  {
    GroupedShape(n);
    if n < 1000 {
      assert n + 1 < 1000;
      DigitsSuccessor(n);
    } else {
      ThousandsArithmetic(n);
      assert (n + 1) / 1000 == n / 1000;
      assert (n + 1) % 1000 == n % 1000 + 1;
      assert (n + 1) % 1000 / 10 % 10 == n % 1000 / 10 % 10;
      assert (n + 1) % 1000 / 100 == n % 1000 / 100;
    }
  }

  /** The fractional part for a precision: a '.' and `precision` zeros when
      precision is positive, nothing otherwise. */
  function Fraction(precision: byte): (r: seq<byte>)
    ensures precision == 0 ==> r == []
    ensures precision > 0 ==> |r| == precision + 1 && r[0] == Period
    ensures forall i | 1 <= i < |r| :: r[i] == Zero
  {
    if precision == 0 then [] else [Period] + seq(precision, _ => Zero)
  }

  function Sign(negative: bool): (r: seq<byte>) {
    if negative then [Minus] else []
  }

  /** The full "N" text: an optional '-', the grouped magnitude, then the
      fractional part. */
  function RenderN(negative: bool, magnitude: nat, precision: byte): (r: seq<byte>) {
    Sign(negative) + Grouped(magnitude) + Fraction(precision)
  }

  /** What formatting a signed value must produce: the grouped rendering of
      its magnitude, with a '-' exactly when it is negative. */
  function SignedN(value: int, precision: byte): (r: seq<byte>) {
    RenderN(value < 0, if value < 0 then -value else value, precision)
  }

  /** One level of Grouped with the low group passed as a separate argument.
      The concrete proofs below take one group at a time through it; with the
      small literal `k` the solver evaluates Group3(k) directly instead of
      computing `n % 1000` of a 19-digit number. */
  lemma GroupedStep(n: nat, k: nat)
    requires n >= 1000 && n % 1000 == k
    ensures Grouped(n) == Grouped(n / 1000) + [Comma] + Group3(k)
  {
  }

  /** The bytes of "9,223,372,036,854,775,807". */
  lemma MaxValueAscii()
    ensures Ascii("9,223,372,036,854,775,807") == [0x39, 0x2C, 0x32, 0x32, 0x33, 0x2C, 0x33, 0x37, 0x32, 0x2C, 0x30, 0x33, 0x36, 0x2C, 0x38, 0x35, 0x34, 0x2C, 0x37, 0x37, 0x35, 0x2C, 0x38, 0x30, 0x37]
  {
  }

  /** The seven groups of Int64.MaxValue, spelled out. */
  lemma MaxValueGroupsText()
    ensures Grouped(9) + [Comma] + Group3(223) + [Comma] + Group3(372)
      + [Comma] + Group3(36) + [Comma] + Group3(854) + [Comma] + Group3(775)
      + [Comma] + Group3(807) == [0x39, 0x2C, 0x32, 0x32, 0x33, 0x2C, 0x33, 0x37, 0x32, 0x2C, 0x30, 0x33, 0x36, 0x2C, 0x38, 0x35, 0x34, 0x2C, 0x37, 0x37, 0x35, 0x2C, 0x38, 0x30, 0x37]
  {
    var s0 := [0x39, 0x2C, 0x32, 0x32, 0x33];
    assert Group3(223) == [0x32, 0x32, 0x33];
    assert Grouped(9) + [Comma] + Group3(223) == s0;
    var s1 := [0x39, 0x2C, 0x32, 0x32, 0x33, 0x2C, 0x33, 0x37, 0x32];
    assert Group3(372) == [0x33, 0x37, 0x32];
    assert s0 + [Comma] + Group3(372) == s1;
    var s2 := [0x39, 0x2C, 0x32, 0x32, 0x33, 0x2C, 0x33, 0x37, 0x32, 0x2C, 0x30, 0x33, 0x36];
    assert Group3(36) == [0x30, 0x33, 0x36];
    assert s1 + [Comma] + Group3(36) == s2;
    var s3 := [0x39, 0x2C, 0x32, 0x32, 0x33, 0x2C, 0x33, 0x37, 0x32, 0x2C, 0x30, 0x33, 0x36, 0x2C, 0x38, 0x35, 0x34];
    assert Group3(854) == [0x38, 0x35, 0x34];
    assert s2 + [Comma] + Group3(854) == s3;
    var s4 := [0x39, 0x2C, 0x32, 0x32, 0x33, 0x2C, 0x33, 0x37, 0x32, 0x2C, 0x30, 0x33, 0x36, 0x2C, 0x38, 0x35, 0x34, 0x2C, 0x37, 0x37, 0x35];
    assert Group3(775) == [0x37, 0x37, 0x35];
    assert s3 + [Comma] + Group3(775) == s4;
    var s5 := [0x39, 0x2C, 0x32, 0x32, 0x33, 0x2C, 0x33, 0x37, 0x32, 0x2C, 0x30, 0x33, 0x36, 0x2C, 0x38, 0x35, 0x34, 0x2C, 0x37, 0x37, 0x35, 0x2C, 0x38, 0x30, 0x37];
    assert Group3(807) == [0x38, 0x30, 0x37];
    assert s4 + [Comma] + Group3(807) == s5;
  }

  /** The grouped text of any number whose thousands groups are those of
      Int64.MaxValue. */
  lemma {:induction false} MaxValueGroups(n: nat)
    requires n % 1000 == 807
    requires n / 1000 % 1000 == 775
    requires n / 1000 / 1000 % 1000 == 854
    requires n / 1000 / 1000 / 1000 % 1000 == 36
    requires n / 1000 / 1000 / 1000 / 1000 % 1000 == 372
    requires n / 1000 / 1000 / 1000 / 1000 / 1000 % 1000 == 223
    requires n / 1000 / 1000 / 1000 / 1000 / 1000 / 1000 == 9
    ensures Grouped(n) == Ascii("9,223,372,036,854,775,807")
  {
    MaxValueGroupsText();
    MaxValueAscii();
    var n5 := n / 1000;
    var n4 := n5 / 1000;
    var n3 := n4 / 1000;
    var n2 := n3 / 1000;
    var n1 := n2 / 1000;
    GroupedStep(n1, 223);
    GroupedStep(n2, 372);
    GroupedStep(n3, 36);
    GroupedStep(n4, 854);
    GroupedStep(n5, 775);
    GroupedStep(n, 807);
  }

  /** The integer part of Int64.MaxValue: 19 digits and 6 separators. */
  lemma MaxValueText()
    ensures Grouped(Int64Max) == Ascii("9,223,372,036,854,775,807")
  {
    MaxValueGroups(Int64Max);
  }

  /** The bytes of "9,223,372,036,854,775,808". */
  lemma MinMagnitudeAscii()
    ensures Ascii("9,223,372,036,854,775,808") == [0x39, 0x2C, 0x32, 0x32, 0x33, 0x2C, 0x33, 0x37, 0x32, 0x2C, 0x30, 0x33, 0x36, 0x2C, 0x38, 0x35, 0x34, 0x2C, 0x37, 0x37, 0x35, 0x2C, 0x38, 0x30, 0x38]
  {
  }

  /** The integer part of the magnitude of Int64.MinValue is that of
      Int64.MaxValue with its last digit raised from '7' to '8'. */
  lemma MinMagnitudeText()
    ensures Grouped(Int64Max + 1) == Ascii("9,223,372,036,854,775,808")
  {
    MaxValueText();
    MaxValueAscii();
    MinMagnitudeAscii();
    GroupedSuccessor(Int64Max);
    var r := [0x39, 0x2C, 0x32, 0x32, 0x33, 0x2C, 0x33, 0x37, 0x32, 0x2C, 0x30, 0x33, 0x36, 0x2C, 0x38, 0x35, 0x34, 0x2C, 0x37, 0x37, 0x35, 0x2C, 0x38, 0x30, 0x37];
    assert r[24 := IncrementByte(r[24])] == [0x39, 0x2C, 0x32, 0x32, 0x33, 0x2C, 0x33, 0x37, 0x32, 0x2C, 0x30, 0x33, 0x36, 0x2C, 0x38, 0x35, 0x34, 0x2C, 0x37, 0x37, 0x35, 0x2C, 0x38, 0x30, 0x38];
  }

  /** The examples of the "N" format at precision 0. */
  lemma Examples()
    ensures SignedN(0, 0) == Ascii("0")
    ensures SignedN(1234, 0) == Ascii("1,234")
    ensures SignedN(-1234, 0) == Ascii("-1,234")
  {
  }

  /** Both ends of the `long` range at precision 0. */
  lemma RangeEndExamples()
    ensures SignedN(Int64Max, 0) == Ascii("9,223,372,036,854,775,807")
    ensures SignedN(Int64Min, 0) == [Minus] + Ascii("9,223,372,036,854,775,808")
  {
    MaxValueText();
    MinMagnitudeText();
    assert SignedN(Int64Max, 0) == [] + Grouped(Int64Max) + [];
    assert SignedN(Int64Min, 0) == [Minus] + Grouped(Int64Max + 1) + [];
  }
}
