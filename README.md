# Signed "N" integer formatting to UTF-8

This project models the signed front end of the UTF-8 "N" formatter in
`System.Buffers.Text.Utf8Formatter`. The "N" format writes a `long` in
decimal, puts a `,` before every group of three digits, and adds a leading
`-` for negative values. The front end has two routines:

- `TryFormatInt64N` splits a `long` into a sign flag and an unsigned
  magnitude, then passes both to the unsigned grouped formatter
  `TryFormatUInt64N`.
- `TryFormatInt64N_MinValue` handles the one value whose negation does not
  fit in a `long`, Int64.MinValue. It formats Int64.MaxValue with a minus
  sign, giving `-9,223,372,036,854,775,807`. If that succeeds, it adds one to
  the byte at offset 25, so the final `'7'` becomes `'8'`.

The project has three modules:

- `TwosComplement` (`twos_complement.dfy`) writes out 64-bit wrap-around:
  - unchecked negation of a `long`;
  - the `(ulong)` cast;
  - `byte++`.
- `GroupedDecimal` (`grouped_decimal.dfy`) is the reference text that the
  routines are proved against:
  - `Grouped(n)`: the digits of `n` with separators;
  - `RenderN`: an optional sign, those digits, then the fractional part;
  - `SignedN(value, precision)`: what formatting `value` must produce.

  Its lemmas prove the layout, the round trip back to the number, and the
  successor step. They also compute the texts of Int64.MaxValue and of the
  magnitude of Int64.MinValue.
- `Utf8FormatterN` (`utf8_formatter_n.dfy`) holds the three routines as
  methods over an `array<byte>` destination:
  - `TryFormatUInt64N` is known only by its contract, `UnsignedNContract`;
  - `TryFormatInt64N_MinValue` patches the destination in place;
  - `TryFormatInt64N` reassigns a local copy of `value` and the sign flag,
    as the C# code reassigns its parameter.

The success flag and `bytesWritten` of the C# `out` parameter become the
methods' two results.

The main result: for every `long` value, every precision and every
destination, `TryFormatInt64N` succeeds exactly when `SignedN(value,
precision)` fits. On success the destination starts with that text and
`bytesWritten` is its length. This covers Int64.MinValue, whose text is
`-9,223,372,036,854,775,808`. A destination one byte shorter than the text
therefore always fails.

On failure, the code sets `bytesWritten` to the inner call's count whatever
that is, and leaves the destination as the inner call left it. The method
body does the same. Its contract cannot promise this, because the unsigned
formatter's count and contents after a failure are unspecified. On success
the contracts pin down the whole outcome: the count, the written prefix, and
every byte after it, which is left as it was. On failure they promise only
that the text did not fit (see "## Left out").

## Model

| member | source | states |
|---|---|---|
| TwosComplement.Wrap | src/System.Memory/src/System/Buffers/Text/Utf8Formatter/Utf8Formatter.Integer.Signed.N.cs:22 | the 64-bit result of an unchecked operation differs from the exact result by a multiple of 2^64, and equals it when the exact result fits in a `long` |
| TwosComplement.Negate | src/System.Memory/src/System/Buffers/Text/Utf8Formatter/Utf8Formatter.Integer.Signed.N.cs:22 | unchecked `-value` is the exact negation for every `long` except Int64.MinValue, which maps to itself |
| TwosComplement.ToUInt64 | src/System.Memory/src/System/Buffers/Text/Utf8Formatter/Utf8Formatter.Integer.Signed.N.cs:30 | the `(ulong)` cast keeps a non-negative value and adds 2^64 to a negative one |
| TwosComplement.IncrementByte | src/System.Memory/src/System/Buffers/Text/Utf8Formatter/Utf8Formatter.Integer.Signed.N.cs:44 | `byte++` adds one below 0xFF and wraps 0xFF to 0 |
| TwosComplement.NegationStaysNegativeOnlyAtMin | src/System.Memory/src/System/Buffers/Text/Utf8Formatter/Utf8Formatter.Integer.Signed.N.cs:19-26 | a value is negative and its negation is still negative if and only if the value is Int64.MinValue, so the second sign test detects exactly that case, as the `Debug.Assert` claims |
| TwosComplement.OrdinaryNegativeMagnitude | src/System.Memory/src/System/Buffers/Text/Utf8Formatter/Utf8Formatter.Integer.Signed.N.cs:19-30 | for Int64.MinValue < x < 0, `-x` is positive, fits in a `long`, and the cast hands the unsigned formatter exactly the magnitude of `x` |
| TwosComplement.MinValueMagnitude | src/System.Memory/src/System/Buffers/Text/Utf8Formatter/Utf8Formatter.Integer.Signed.N.cs:36-41 | the magnitude of Int64.MinValue is Int64.MaxValue + 1; `(ulong)Int64.MaxValue` is Int64.MaxValue itself |
| GroupedDecimal.GroupedShape | src/System.Memory/src/System/Buffers/Text/Utf8Formatter/Utf8Formatter.Integer.Signed.N.cs:38-39 | the grouped text of `n` has (digits of n) + (digits of n − 1)/3 bytes, each one a digit or a ','; its last byte is the ones digit |
| GroupedDecimal.GroupedLayout | src/System.Memory/src/System/Buffers/Text/Utf8Formatter/Utf8Formatter.Integer.Signed.N.cs:38-39 | counted from the right end, every fourth byte of the grouped text is a ',' and no other byte is |
| GroupedDecimal.GroupedDropSeparators | src/System.Memory/src/System/Buffers/Text/Utf8Formatter/Utf8Formatter.Integer.Signed.N.cs:30 | removing the ',' bytes from the grouped text leaves exactly the plain decimal digits of `n` |
| GroupedDecimal.DigitsRoundTrip | src/System.Memory/src/System/Buffers/Text/Utf8Formatter/Utf8Formatter.Integer.Signed.N.cs:30 | the plain decimal digits of `n` read back as `n` |
| GroupedDecimal.GroupedRoundTrip | src/System.Memory/src/System/Buffers/Text/Utf8Formatter/Utf8Formatter.Integer.Signed.N.cs:30 | the grouped text reads back as `n` once its separators are dropped, so the rendering is faithful to the magnitude |
| GroupedDecimal.GroupedSuccessor | src/System.Memory/src/System/Buffers/Text/Utf8Formatter/Utf8Formatter.Integer.Signed.N.cs:44 | when the ones digit of `n` is not 9, the grouped text of n + 1 is that of `n` with its last byte incremented and nothing else changed |
| GroupedDecimal.Fraction | src/System.Memory/src/System/Buffers/Text/Utf8Formatter/Utf8Formatter.Integer.Signed.N.cs:41 | the precision suffix that follows the integer part: empty at precision 0, otherwise a '.' followed by `precision` zeros |
| GroupedDecimal.MaxValueText | src/System.Memory/src/System/Buffers/Text/Utf8Formatter/Utf8Formatter.Integer.Signed.N.cs:39 | Int64.MaxValue groups as "9,223,372,036,854,775,807" |
| GroupedDecimal.MinMagnitudeText | src/System.Memory/src/System/Buffers/Text/Utf8Formatter/Utf8Formatter.Integer.Signed.N.cs:38 | the magnitude of Int64.MinValue groups as "9,223,372,036,854,775,808" |
| GroupedDecimal.Examples | src/System.Memory/src/System/Buffers/Text/Utf8Formatter/Utf8Formatter.Integer.Signed.N.cs:16-30 | at precision 0, 0 renders as "0", 1234 as "1,234" and −1234 as "-1,234" |
| GroupedDecimal.RangeEndExamples | src/System.Memory/src/System/Buffers/Text/Utf8Formatter/Utf8Formatter.Integer.Signed.N.cs:38-39 | at precision 0, Int64.MaxValue renders as "9,223,372,036,854,775,807" and Int64.MinValue as "-9,223,372,036,854,775,808" |
| Utf8FormatterN.TryFormatUInt64N | src/System.Memory/src/System/Buffers/Text/Utf8Formatter/Utf8Formatter.Integer.Signed.N.cs:30 | the unsigned formatter's contract: it succeeds exactly when the sign, the grouped magnitude and the fraction fit; on success the destination starts with that text, every byte after it is unchanged, and the count is its length |
| Utf8FormatterN.TryFormatInt64N_MinValue | src/System.Memory/src/System/Buffers/Text/Utf8Formatter/Utf8Formatter.Integer.Signed.N.cs:34-49 | it delegates with Int64.MaxValue, the minus sign and the caller's precision and destination. It fails exactly when that call fails. On success only byte 25 of what that call wrote changes, by one, and `bytesWritten` is the count that call reported. It succeeds exactly when the text of Int64.MinValue fits. The destination then starts with that text, and every byte after it is unchanged |
| Utf8FormatterN.TryFormatInt64N | src/System.Memory/src/System/Buffers/Text/Utf8Formatter/Utf8Formatter.Integer.Signed.N.cs:16-31 | a non-negative value passes unchanged to the unsigned formatter without a sign; an ordinary negative passes as `-value` with the sign; Int64.MinValue takes the MinValue path. In every case the call succeeds exactly when the signed text fits. The destination then starts with that text, and every byte after it is unchanged |
| Utf8FormatterN.SignReduction | src/System.Memory/src/System/Buffers/Text/Utf8Formatter/Utf8Formatter.Integer.Signed.N.cs:18-30 | on values, each branch's flag and cast magnitude render as the signed text of `value`; for Int64.MinValue this holds once byte 25 of the Int64.MaxValue rendering is incremented |
| Utf8FormatterN.OnesOffsetIsLastIntegerDigit | src/System.Memory/src/System/Buffers/Text/Utf8Formatter/Utf8Formatter.Integer.Signed.N.cs:36-44 | Int64.MaxValue has 19 digits; one sign, 19 digits and 6 separators make 26 bytes, so offset 25 is their last byte. Whatever suffix follows, that byte is '7', and one increment makes it '8' |
| Utf8FormatterN.TwentyFiveBytesAreNineteenDigits | src/System.Memory/src/System/Buffers/Text/Utf8Formatter/Utf8Formatter.Integer.Signed.N.cs:38-39 | a grouped text 25 bytes long holds 19 digits |
| Utf8FormatterN.SignedSuccessor | src/System.Memory/src/System/Buffers/Text/Utf8Formatter/Utf8Formatter.Integer.Signed.N.cs:37-44 | when the ones digit is not 9, the signed text of n + 1 is that of `n` with the byte at the end of the integer part incremented, whatever suffix follows |
| Utf8FormatterN.MinValueSuccessor | src/System.Memory/src/System/Buffers/Text/Utf8Formatter/Utf8Formatter.Integer.Signed.N.cs:37-44 | for every suffix, the signed text of the magnitude of Int64.MinValue is the signed text of Int64.MaxValue with byte 25 incremented |
| Utf8FormatterN.MinValueLength | src/System.Memory/src/System/Buffers/Text/Utf8Formatter/Utf8Formatter.Integer.Signed.N.cs:41-45 | the texts of Int64.MinValue and of signed Int64.MaxValue have the same length, above 25, at every precision; so index 25 is in bounds whenever the inner call succeeds |
| Utf8FormatterN.BumpedPrefix | src/System.Memory/src/System/Buffers/Text/Utf8Formatter/Utf8Formatter.Integer.Signed.N.cs:42-45 | incrementing one byte inside a buffer's written prefix increments that byte of the prefix and leaves the rest of it unchanged |
| Utf8FormatterN.MinValuePatch | src/System.Memory/src/System/Buffers/Text/Utf8Formatter/Utf8Formatter.Integer.Signed.N.cs:41-47 | a destination that starts with the signed text of Int64.MaxValue, with only byte 25 then incremented, starts with the text of Int64.MinValue, and the count is unchanged |

## Left out

- TryFormatUInt64N: the unsigned grouped formatter is not part of this
  model. It is specified only by its contract, `UnsignedNContract`, which is
  all the signed routines rely on. The method body is a reference copy of
  the expected text. It says nothing about how the real code extracts
  digits or places separators.
- TryFormatUInt64N: on failure the contract promises neither the count nor
  the destination's contents. This is deliberately weaker than any
  particular implementation. On success the contract does promise that the
  formatter writes nothing past its text.
- TryFormatInt64N_MinValue: on failure the contract ties neither
  `bytesWritten` nor the destination to what the inner call left. The
  unsigned formatter's result after a failure is unspecified, so the
  contract has nothing to tie them to. The body passes both through
  unchanged, as the source does.
- TryFormatInt64N: the same holds for all three branches. On failure the
  contract says only that the call failed and that the text did not fit.
- Fraction: precision handling belongs to the unsigned formatter. The model
  renders every positive precision as a '.' followed by `precision` zeros.
  That includes 255: `precision` may be any byte, and `Fraction(255)` is a
  '.' and 255 zeros. The source's sentinel meaning "no precision given"
  gets no special case. The position of the patched byte never depends on
  this choice. `OnesOffsetIsLastIntegerDigit`, `SignedSuccessor` and
  `MinValueSuccessor` are stated for every suffix after the integer part.
  `MinValueLength` and `MinValuePatch` are stated for `Fraction(precision)`.
- `Span<byte>` bounds checks and the exceptions they would throw: the
  destination is an `array<byte>`. The write to offset 25 is proved in
  bounds, so no check can fail.
- The `MethodImpl` inlining attributes: they affect speed only.
- `Debug.Assert`: its condition is proved instead, by
  `NegationStaysNegativeOnlyAtMin`.
- Culture-specific separators: the code always writes ASCII ',' and '-',
  and so does the model.
