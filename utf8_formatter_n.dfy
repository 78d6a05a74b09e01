/** The signed front end of the UTF-8 "N" integer formatter: a `long` is
    reduced to a sign flag and an unsigned magnitude, which the unsigned
    grouped formatter renders. The one value whose negation does not fit,
    Int64.MinValue, is rendered as Int64.MaxValue with a minus sign, and the
    final '7' is then raised to '8' in place. */
module Utf8FormatterN {
  import opened TwosComplement
  import opened GroupedDecimal

  /** What the unsigned "N" formatter promises its callers, relating the
      destination before and after a call. It succeeds exactly when its text
      fits; then it reports the length of that text, the destination starts
      with it, and every byte after it is as it was. On failure neither the
      count nor the contents are promised. */
  predicate UnsignedNContract(before: seq<byte>, after: seq<byte>, magnitude: nat,
                              precision: byte, negationSign: bool, ok: bool, written: int)
  {
    var text := RenderN(negationSign, magnitude, precision);
    |after| == |before|
    && (ok <==> |text| <= |before|)
    && (ok ==> written == |text| && after[..written] == text
               && after[written..] == before[written..])
  }

  /** `after` is `before` with the byte at `k` incremented and every other
      byte the same. */
  predicate OneByteBumped(before: seq<byte>, after: seq<byte>, k: nat) {
    |after| == |before|
    && k < |before|
    && after[k] == IncrementByte(before[k])
    && forall i | 0 <= i < |before| && i != k :: after[i] == before[i]
  }

  /** The offset of the ones digit of Int64.MaxValue in its signed rendering:
      one minus sign, 19 digits and 6 separators come to 26 bytes. */
  const MinValueOnesOffset: nat := 25

  /** What the MinValue path does to the destination: the unsigned formatter
      leaves some `inner` contents, and on success exactly the byte at
      MinValueOnesOffset of them is incremented and the count is the one that
      call reported. On failure the unsigned formatter promises neither a count
      nor contents, so this says no more than that the call failed. */
  ghost predicate MinValuePathContract(before: seq<byte>, after: seq<byte>, precision: byte,
                                       ok: bool, written: int)
  {
    exists inner: seq<byte> ::
      UnsignedNContract(before, inner, Int64Max, precision, true, ok, written)
      && (if ok then OneByteBumped(inner, after, MinValueOnesOffset) else after == inner)
  }

  /** The unsigned grouped formatter, with which the signed front end
      delegates. Only its contract is used below; the body is a plain
      reference that copies the expected text. */
  method TryFormatUInt64N(value: uint64, precision: byte, destination: array<byte>,
                          insertNegationSign: bool)
    returns (ok: bool, bytesWritten: int)
    modifies destination
    ensures UnsignedNContract(old(destination[..]), destination[..], value, precision,
                              insertNegationSign, ok, bytesWritten)
  {
    var text := RenderN(insertNegationSign, value, precision);
    if |text| > destination.Length {
      return false, 0;
    }
    var i := 0;
    while i < |text|
      invariant 0 <= i <= |text|
      invariant forall j | 0 <= j < i :: destination[j] == text[j]
      invariant forall j | |text| <= j < destination.Length :: destination[j] == old(destination[j])
    {
      destination[i] := text[i];
      i := i + 1;
    }
    assert destination[..|text|] == text;
    return true, |text|;
  }

  /** Int64.MinValue: its negation does not fit in a `long`, so Int64.MaxValue
      is formatted with a minus sign, and on success the ones digit is
      incremented. */
  method TryFormatInt64N_MinValue(precision: byte, destination: array<byte>)
    returns (ok: bool, bytesWritten: int)
    modifies destination
    ensures MinValuePathContract(old(destination[..]), destination[..], precision, ok, bytesWritten)
    ensures ok <==> |SignedN(Int64Min, precision)| <= destination.Length
    ensures ok ==> bytesWritten == |SignedN(Int64Min, precision)|
                   && destination[..bytesWritten] == SignedN(Int64Min, precision)
                   && destination[bytesWritten..] == old(destination[bytesWritten..])
  {
    ghost var before := destination[..];
    MinValueMagnitude();
    var retVal, tempBytesWritten := TryFormatUInt64N(ToUInt64(Int64Max), precision, destination, true);
    ghost var inner := destination[..];
    MinValueLength(precision);
    if retVal {
      destination[MinValueOnesOffset] := IncrementByte(destination[MinValueOnesOffset]);
      MinValuePatch(precision, inner, destination[..], tempBytesWritten);
    }
    bytesWritten := tempBytesWritten;
    ok := retVal;
    assert UnsignedNContract(before, inner, Int64Max, precision, true, ok, bytesWritten);
  }

  /** Formats a `long` in the "N" format. Non-negative values and ordinary
      negatives go straight to the unsigned formatter; Int64.MinValue, the
      only value still negative after negation, takes its own path. */
  method TryFormatInt64N(value: int64, precision: byte, destination: array<byte>)
    returns (ok: bool, bytesWritten: int)
    modifies destination
    ensures value >= 0 ==>
      UnsignedNContract(old(destination[..]), destination[..], value, precision, false, ok, bytesWritten)
    ensures Int64Min < value < 0 ==>
      UnsignedNContract(old(destination[..]), destination[..], -value, precision, true, ok, bytesWritten)
    ensures value == Int64Min ==>
      MinValuePathContract(old(destination[..]), destination[..], precision, ok, bytesWritten)
    ensures ok <==> |SignedN(value, precision)| <= destination.Length
    ensures ok ==> bytesWritten == |SignedN(value, precision)|
                   && destination[..bytesWritten] == SignedN(value, precision)
                   && destination[bytesWritten..] == old(destination[bytesWritten..])
  {
    var v := value;
    var insertNegationSign := false;
    if v < 0 {
      insertNegationSign := true;
      v := Negate(v);
      if v < 0 {
        NegationStaysNegativeOnlyAtMin(value);
        ok, bytesWritten := TryFormatInt64N_MinValue(precision, destination);
        return;
      }
      OrdinaryNegativeMagnitude(value);
    }
    ok, bytesWritten := TryFormatUInt64N(ToUInt64(v), precision, destination, insertNegationSign);
  }

  /** The reduction the front end performs, stated on values: each of its
      three branches hands the unsigned formatter a flag and a magnitude whose
      rendering is the signed rendering of `value`, the MinValue branch after
      its one-byte patch. */
  lemma SignReduction(value: int64, precision: byte)
    ensures value >= 0 ==> SignedN(value, precision) == RenderN(false, ToUInt64(value), precision)
    ensures Int64Min < value < 0 ==>
      SignedN(value, precision) == RenderN(true, ToUInt64(Negate(value)), precision)
    ensures value == Int64Min ==>
      var t := RenderN(true, ToUInt64(Int64Max), precision);
      SignedN(value, precision) == t[MinValueOnesOffset := IncrementByte(t[MinValueOnesOffset])]
  {
    if value == Int64Min {
      MinValueMagnitude();
      MinValueSuccessor(Fraction(precision));
    } else if value < 0 {
      OrdinaryNegativeMagnitude(value);
    }
  }

  /** Index 25 is the ones digit of the signed rendering of Int64.MaxValue
      whatever follows it: the prefix "-9,223,372,036,854,775,807" is 26 bytes,
      one sign, 19 digits and 6 separators, and its last byte is '7', which
      one increment turns into '8'. */
  lemma OnesOffsetIsLastIntegerDigit(suffix: seq<byte>)
    ensures DigitCount(Int64Max) == 19
    ensures MinValueOnesOffset + 1 == |Sign(true)| + DigitCount(Int64Max) + (DigitCount(Int64Max) - 1) / 3
    ensures |Sign(true) + Grouped(Int64Max)| == MinValueOnesOffset + 1
    ensures (Sign(true) + Grouped(Int64Max) + suffix)[MinValueOnesOffset] == Digit(7)
    ensures IncrementByte(Digit(7)) == Digit(8)
  {
    MaxValueLength();
    TwentyFiveBytesAreNineteenDigits(Int64Max);
    SignedOnesDigit(Int64Max, MinValueOnesOffset, 7, suffix);
  }

  /** A grouped rendering 25 bytes long has 19 digits. */
  lemma TwentyFiveBytesAreNineteenDigits(n: nat)
    requires |Grouped(n)| == 25
    ensures DigitCount(n) == 19
  {
    GroupedShape(n);
  }

  /** In a signed rendering of a magnitude whose grouped text is `k` bytes
      and whose ones digit is `d`, byte `k` is that digit, whatever follows. */
  lemma SignedOnesDigit(n: nat, k: nat, d: nat, suffix: seq<byte>)
    requires |Grouped(n)| == k && n % 10 == d
    ensures |Sign(true) + Grouped(n)| == k + 1
    ensures (Sign(true) + Grouped(n) + suffix)[k] == Digit(d)
  {
    GroupedShape(n);
    var t := Sign(true) + Grouped(n);
    assert (t + suffix)[k] == t[k];
  }

  /** When the ones digit of `n` is not 9, the signed rendering of n + 1 is
      that of `n` with its ones digit incremented, whatever follows. */
  lemma {:induction false} SignedSuccessor(n: nat, suffix: seq<byte>)
    requires n % 10 != 9
    ensures |Grouped(n)| >= 1
    ensures var t := Sign(true) + Grouped(n) + suffix;
      var k := |Grouped(n)|;
      Sign(true) + Grouped(n + 1) + suffix == t[k := IncrementByte(t[k])]
  {
    GroupedSuccessor(n);
    var r := Grouped(n);
    var k := |r|;
    var t := Sign(true) + r + suffix;
    var u := Sign(true) + Grouped(n + 1) + suffix;
    assert |u| == |t|;
    forall i | 0 <= i < |t|
      ensures u[i] == t[k := IncrementByte(t[k])][i]
    {
      if i == 0 {
      } else if i <= k {
        assert u[i] == Grouped(n + 1)[i - 1];
        assert t[i] == r[i - 1];
      } else {
        assert u[i] == suffix[i - k - 1];
      }
    }
  }

  /** The rendering of Int64.MinValue is that of Int64.MaxValue with a minus
      sign and byte 25 incremented, for every suffix. */
  lemma MinValueSuccessor(suffix: seq<byte>)
    ensures var t := Sign(true) + Grouped(Int64Max) + suffix;
      Sign(true) + Grouped(Int64Max + 1) + suffix
        == t[MinValueOnesOffset := IncrementByte(t[MinValueOnesOffset])]
  {
    MaxValueLength();
    SignedSuccessor(Int64Max, suffix);
  }

  /** |"9,223,372,036,854,775,807"| is 25. */
  lemma MaxValueLength()
    ensures |Grouped(Int64Max)| == 25
  {
    MaxValueText();
  }

  /** The MinValue rendering and the text the unsigned formatter writes for
      Int64.MaxValue with a minus sign have the same length, at least 26, for
      every precision; so index 25 is in bounds whenever that call succeeds. */
  lemma MinValueLength(precision: byte)
    ensures |SignedN(Int64Min, precision)| == |RenderN(true, Int64Max, precision)|
    ensures |RenderN(true, Int64Max, precision)| > MinValueOnesOffset
  {
    MinValueSuccessor(Fraction(precision));
    MaxValueLength();
  }

  /** Bumping byte `k` of a buffer that starts with `text` leaves a buffer
      that starts with `text` bumped at `k`. */
  lemma BumpedPrefix(text: seq<byte>, inner: seq<byte>, after: seq<byte>, k: nat)
    requires |text| <= |inner| && inner[..|text|] == text
    requires k < |text|
    requires OneByteBumped(inner, after, k)
    ensures after[..|text|] == text[k := IncrementByte(text[k])]
  {
    forall i | 0 <= i < |text|
      ensures after[..|text|][i] == text[k := IncrementByte(text[k])][i]
    {
      assert inner[i] == text[i];
    }
  }

  /** The patch is correct: if the destination starts with the rendering of
      Int64.MaxValue with a minus sign and only its byte 25 is then
      incremented, it starts with the rendering of Int64.MinValue, which has
      the same length. */
  lemma MinValuePatch(precision: byte, inner: seq<byte>, after: seq<byte>, written: int)
    requires OneByteBumped(inner, after, MinValueOnesOffset)
    ensures written == |RenderN(true, Int64Max, precision)| <= |inner|
            && inner[..written] == RenderN(true, Int64Max, precision)
            ==> written == |SignedN(Int64Min, precision)|
                && after[..written] == SignedN(Int64Min, precision)
  {
    if written == |RenderN(true, Int64Max, precision)| <= |inner|
       && inner[..written] == RenderN(true, Int64Max, precision)
    {
      MinValueSuccessor(Fraction(precision));
      MinValueLength(precision);
      BumpedPrefix(RenderN(true, Int64Max, precision), inner, after, MinValueOnesOffset);
    }
  }
}
