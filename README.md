# pycel engineering functions in Dafny

This project models pycel's spreadsheet engineering functions:

- the radix readers BIN2DEC, OCT2DEC and HEX2DEC, modelled as `_base2dec`;
- the radix writers DEC2BIN, DEC2OCT and DEC2HEX, with their optional `places`, modelled as `_dec2base`;
- the base-to-base converters such as BIN2HEX, modelled as `_base2base`;
- the 48-bit operations BITAND, BITOR, BITXOR, BITLSHIFT and BITRSHIFT.

Each function takes tagged scalar arguments: absent, boolean, whole number, fractional number, text, or an error tag. Empty text is treated exactly like an absent argument (`Cells.IsBlank`). It returns a value or an error tag (`#VALUE!`, `#NUM!`, or the error it was given).

The implementation module, `pycel/lib/engineering.py`, is not part of this model. The behaviour is taken from the parametrised cases of `tests/lib/test_engineering.py`. Where those cases do not pin a rule down, the model makes one uniform choice, and each such choice is named under "Left out". Most of these choices agree with the spreadsheet functions' documented behaviour. Padding a negative number does not: the model pads its ten-digit pattern, whereas DEC2BIN and its siblings document that `places` is ignored for negative numbers.

The model has five modules:

- `Digits` (`digits.dfy`) covers digit strings in a radix from 2 to 16:
  - `Parse` reads digits as an unsigned number; letters count in either case.
  - `ToDigits` writes a number with the fewest digits, in upper case.
  - `Pad` left-pads with zeros.
  - The lemmas prove that `Parse` and `ToDigits` are inverse on canonical strings, and when a number fits in `k` digits.
- `Cells` (`cells.dfy`) holds the error tags, the tagged argument type `Cell`, and `ToNumber`. `ToNumber` turns an argument into a whole number, or into the error the functions return for it.
- `Radix` (`radix.dfy`) covers decoding, encoding and converting.
  - Base 2, 8 or 16 has 1, 3 or 4 bits per digit, so a word is 10, 30 or 40 bits wide.
  - The word is read as two's complement: `_SIZE_MASK[base]` is 2^(width-1), the sign threshold.
  - Decode and encode are proved inverse to each other.
  - Their boundaries, the conversion rules, and error propagation are proved for every input.
- `Bitwise` (`bitwise.dfy`) defines AND, OR and XOR by recursion on naturals. Each is proved to act bit by bit, and the 48-bit word rules are added on top.
  - A shift multiplies by, or floor-divides by, a power of two.
  - The lemmas prove which bit goes where, and that a shift and the opposite shift cancel.
- `Vectors` (`vectors.dfy`) states each parametrised case of the test file as a lemma about the model.

Digits are `string`s (sequences of `char`), and numbers are unbounded integers. The 10/30/40-bit words and the 48-bit words are written out as explicit range checks and two's-complement arithmetic.

## Model

| member | source | states |
|---|---|---|
| Radix.SizeMask | tests/lib/test_engineering.py:27-29 | The sign thresholds `_SIZE_MASK` of bases 2, 8 and 16 are 512, 536870912 and 549755813888. |
| Radix.ModulusIsTenDigits | tests/lib/test_engineering.py:27-29 | A word of a base is ten of its digits: 2^width equals base^10, which is twice the threshold. |
| Radix.Unsigned | tests/lib/test_engineering.py:46-52 | The two's-complement pattern of a number in range lies below 2^width. |
| Radix.Signed | tests/lib/test_engineering.py:46-52 | Every pattern below 2^width is read as a number in range whose pattern it is, so `Signed` inverts `Unsigned`. |
| Radix.DecodeDigits | tests/lib/test_engineering.py:46-63 | A digit string decodes exactly when it has 1 to 10 digits of the base; otherwise the result is `#NUM!`. A decoded number is in range and its pattern is the unsigned value of the digits. |
| Radix.Decode | tests/lib/test_engineering.py:41-70 | Covers every kind of argument: an error is passed on, a boolean is `#VALUE!`, absent or empty text is 0, a negative or fractional number is `#NUM!`, a whole non-negative number is decoded from its decimal text (`DecimalText`), and nonempty text through `DecodeDigits`. |
| Radix.DecodeIgnoresCase | tests/lib/test_engineering.py:63 | Strings whose digits have the same values, such as lower- and upper-case hexadecimal, decode alike. |
| Radix.EncodeInt | tests/lib/test_engineering.py:82-123 | Writing a number fails only with `#NUM!`. Without `places` it succeeds exactly in range. With `places` it succeeds exactly in range, with places >= 1 and the pattern below base^places. The digits read back as the pattern and contain no lower-case letter; they are canonical and at most ten long without `places`, and exactly `places` long with it. |
| Radix.Encode | tests/lib/test_engineering.py:96-101 | An argument that is not a number gives its `ToNumber` error; otherwise the number is written by `EncodeInt`. |
| Radix.EncodeShortest | tests/lib/test_engineering.py:87-92 | Without `places`, a number in range is written as the shortest digits of its pattern. |
| Radix.EncodeOutOfRange | tests/lib/test_engineering.py:84-95 | The threshold and one below its negation are `#NUM!` in every base. |
| Radix.EncodeExtremes | tests/lib/test_engineering.py:87-92 | The largest number gives its shortest digits; the most negative gives the sign bit alone, which takes all ten digits. |
| Radix.ThresholdDigits | tests/lib/test_engineering.py:90-92 | The sign bit alone is exactly ten digits long in each base. |
| Radix.RoundTrip | tests/lib/test_engineering.py:82-123 | Every number in range is written without `places`. Whatever is written, with or without up to ten places, decodes back to the number. |
| Radix.DecodeEncode | tests/lib/test_engineering.py:46-48 | A canonical string of at most ten digits decodes, and writing the number back gives the same string. |
| Radix.Convert | tests/lib/test_engineering.py:132-173 | Absent or empty text read as binary is `#NUM!`; a successful conversion is canonical and at most ten digits long. |
| Radix.ConvertFails | tests/lib/test_engineering.py:132-157 | Conversion fails for absent or empty text read as binary (`#NUM!`), when the input base rejects the argument (with that error), and exactly when the decoded number is outside the output base's range (`#NUM!`). |
| Radix.ConvertKeepsValue | tests/lib/test_engineering.py:134-141 | A converted string decodes in the output base to the number the argument decodes to in the input base. |
| Radix.ConvertThereAndBack | tests/lib/test_engineering.py:134-137 | Converting a canonical string to a base whose range holds its number, and back, gives the string again. |
| Radix.ConvertSameBase | tests/lib/test_engineering.py:188-190 | Conversion within one base, which the tests skip, leaves a canonical string unchanged. |
| Radix.ErrorsPassThrough | tests/lib/test_engineering.py:76-79 | Any error tag is returned unchanged by decode, encode and convert in every base. |
| Radix.BooleansRejected | tests/lib/test_engineering.py:64-66 | A boolean is `#VALUE!` for decode, encode and convert in every base. |
| Cells.ParseDecimal | tests/lib/test_engineering.py:96-98 | Text is a number exactly when it is decimal digits with an optional leading minus; the number is the digits' decimal value, negated when the minus is there. |
| Cells.ParseDecimalText | tests/lib/test_engineering.py:43-45 | The decimal text of any integer reads back as that integer. |
| Cells.ToNumber | tests/lib/test_engineering.py:82-101 | Covers every kind of argument: errors are passed on, a boolean is `#VALUE!`, absent or empty text is 0, a fraction is `#NUM!`, and other text is accepted exactly when `ParseDecimal` reads it, as the number it reads, and is otherwise `#VALUE!`. |
| Digits.ToDigits | tests/lib/test_engineering.py:87-92 | The digits written are canonical: nonempty, upper case, and with no leading zero unless the number is 0. |
| Digits.ParseToDigits | tests/lib/test_engineering.py:87-92 | Reading back the written digits gives the number. |
| Digits.ToDigitsParse | tests/lib/test_engineering.py:46-48 | Writing the number a canonical string denotes gives the string back. |
| Digits.CanonicalUnique | tests/lib/test_engineering.py:134-141 | Two canonical strings of the same number are equal. |
| Digits.DigitsLength | tests/lib/test_engineering.py:113-118 | The shortest digits of u fit in k places exactly when k >= 1 and u < r^k. |
| Digits.Parse | tests/lib/test_engineering.py:46-63 | A string of n digits denotes less than r^n. |
| Digits.Pad | tests/lib/test_engineering.py:116 | Padding gives `width` characters, or the string itself when it is already that long; the string is kept at the end and everything before it is '0'. |
| Digits.ParseSameValues | tests/lib/test_engineering.py:63 | Strings whose characters have the same digit values denote the same number. |
| Digits.ParseLeadingZeros | tests/lib/test_engineering.py:116 | Leading zeros do not change the number. |
| Digits.PadDigits | tests/lib/test_engineering.py:116 | Padding reaches the width asked for and keeps the digits and their value. |
| Bitwise.WordSize | tests/lib/test_engineering.py:230 | 2^48 is 281474976710656. |
| Bitwise.And | tests/lib/test_engineering.py:206-207 | `And(x, y)` is at most x and at most y. |
| Bitwise.Or | tests/lib/test_engineering.py:241-242 | `Or(x, y)` is at least x and at least y, and at most x + y. |
| Bitwise.Xor | tests/lib/test_engineering.py:270-271 | `Xor(x, y)` is at most x + y. |
| Bitwise.AndBit | tests/lib/test_engineering.py:206-207 | Bit i of `And(x, y)` is set exactly when bit i is set in both. |
| Bitwise.OrBit | tests/lib/test_engineering.py:241-242 | Bit i of `Or(x, y)` is set exactly when bit i is set in either. |
| Bitwise.XorBit | tests/lib/test_engineering.py:270-271 | Bit i of `Xor(x, y)` is set exactly when bit i is set in one of them only. |
| Bitwise.BitsDetermine | tests/lib/test_engineering.py:204-277 | Two naturals with the same bits are equal. |
| Bitwise.BelowPowerOfTwo | tests/lib/test_engineering.py:204-277 | AND, OR and XOR of two numbers below 2^k are below 2^k, so a result of 48-bit words is a 48-bit word. |
| Bitwise.WordOperands | tests/lib/test_engineering.py:204-216 | A coercion error of `Operands` is passed on. Otherwise the pair is accepted exactly when both coerced numbers are 48-bit words, and it is then that same pair; a pair that is not two words is `#NUM!`. |
| Bitwise.BitAnd | tests/lib/test_engineering.py:204-219 | BITAND succeeds exactly when both operands are words, and otherwise returns the operand error. A result is a word whose bits are set where both operands' bits are. |
| Bitwise.BitOr | tests/lib/test_engineering.py:239-248 | BITOR has the same error rule; a result is a word whose bits are set where either operand's bit is. |
| Bitwise.BitXor | tests/lib/test_engineering.py:268-277 | BITXOR has the same error rule; a result is a word whose bits are set where exactly one operand's bit is. |
| Bitwise.AndBits | tests/lib/test_engineering.py:206-207 | `And` acts on every bit at once. |
| Bitwise.OrBits | tests/lib/test_engineering.py:241-242 | `Or` acts on every bit at once. |
| Bitwise.XorBits | tests/lib/test_engineering.py:270-271 | `Xor` acts on every bit at once. |
| Bitwise.SelfOperations | tests/lib/test_engineering.py:204-277 | x AND x = x, x OR x = x, x XOR x = 0. |
| Bitwise.Identities | tests/lib/test_engineering.py:204-277 | (x OR y) XOR (x XOR y) = x AND y; x OR y = (x AND y) + (x XOR y); (x AND y) + (x OR y) = x + y. |
| Bitwise.Commutative | tests/lib/test_engineering.py:204-277 | AND, OR and XOR are commutative. |
| Bitwise.Operands | tests/lib/test_engineering.py:208-229 | Coercing the two operands of any of the five operations passes on the first argument's error, then the second's. It succeeds exactly when both coerce, with the two coerced numbers. Otherwise it is `#VALUE!` exactly when one of them is text or a boolean that is no number, and `#NUM!` else. The full error order of all five operations is `Bitwise.BitwiseErrors`. |
| Bitwise.ShiftWord | tests/lib/test_engineering.py:222-236 | A shift succeeds exactly for a 48-bit word, an amount within 53 places either way, and a left shift that stays below 2^48; its result is a word, and failure is `#NUM!`. |
| Bitwise.ShiftMovesBits | tests/lib/test_engineering.py:224-226 | Bit i of a shifted number is bit i - k of the number, and 0 where i - k is negative. |
| Bitwise.ShiftMovesAllBits | tests/lib/test_engineering.py:224-226 | The same for every bit position at once. |
| Bitwise.BitLShift | tests/lib/test_engineering.py:222-236 | BITLSHIFT returns the operand error, else succeeds exactly under the `ShiftWord` conditions and returns `#NUM!` otherwise; the result's bit i is bit i - k of the number. |
| Bitwise.BitRShift | tests/lib/test_engineering.py:251-265 | BITRSHIFT is the same with the bits moved the other way: the result's bit i is bit i + k of the number. |
| Bitwise.ShiftLeftThenRight | tests/lib/test_engineering.py:224 | A successful left shift is undone by the right shift of the same amount. |
| Bitwise.ShiftRightThenLeft | tests/lib/test_engineering.py:253 | A right shift of a multiple of 2^k is undone by the left shift of the same amount. |
| Bitwise.RightIsNegatedLeft | tests/lib/test_engineering.py:253-255 | BITRSHIFT by k is BITLSHIFT by -k. |
| Bitwise.BitwiseErrors | tests/lib/test_engineering.py:208-215 | Errors of all five operations: the first operand's error, then the second's, then `#VALUE!` for text or a boolean, then `#NUM!` for a fractional or non-word operand or a shift of more than 53 places. |
| Vectors.DecodeZeroCases | tests/lib/test_engineering.py:43-60 | "0", 0 and absent decode to 0 in every base. |
| Vectors.DecodeCases | tests/lib/test_engineering.py:46-63 | '111111111' is 511 and '1000000000' is -512 in binary; '7777777777' is -1 in octal; '9999999999' is -439804651111 and 'f10000001f' is -64424509409 in hexadecimal. |
| Vectors.DecodeRejectCases | tests/lib/test_engineering.py:49-66 | 3.5, '3.5', eleven digits, -1, 'xyzzy' and 'a' (octal) are `#NUM!`; True is `#VALUE!`. |
| Vectors.EncodeOutOfRangeCases | tests/lib/test_engineering.py:84-95 | The thresholds and one below their negations are `#NUM!`. |
| Vectors.EncodeCases | tests/lib/test_engineering.py:87-92 | The ends of the range give '111111111', '3777777777', '7FFFFFFFFF', '1000000000', '4000000000' and '8000000000'. |
| Vectors.EncodeRejectCases | tests/lib/test_engineering.py:96-101 | 'xyzzy' and True are `#VALUE!` in every base. |
| Vectors.PlacesCases | tests/lib/test_engineering.py:113-118 | 100 in one place is `#NUM!`; absent with 3 places is '000'; absent with 0 places is `#NUM!`; absent with 1 place is '0'. |
| Vectors.ConvertCases | tests/lib/test_engineering.py:134-157 | The eight conversions that succeed give '777', '1FF', '1111111111', 'FFFFFFFFFF', '7777777000', 'FFFFFFFE00', '1111111110' and '7777777776'. |
| Vectors.ConvertHexTooNegative | tests/lib/test_engineering.py:138-139 | '9999999999' read as hexadecimal does not fit binary or octal (`#NUM!`). |
| Vectors.ConvertRejectCases | tests/lib/test_engineering.py:142-155 | Eleven digits, 'fffffffffe' read as binary, and 'a' read as octal are `#NUM!`. |
| Vectors.ConvertAbsentCases | tests/lib/test_engineering.py:146-151 | Absent is `#NUM!` from binary and '0' from octal and hexadecimal. |
| Vectors.ConvertAllBasesCases | tests/lib/test_engineering.py:176-193 | For every pair of bases, True is `#VALUE!`, -1, '-1', '3.5' and 3.5 are `#NUM!`, and '0' and 0 give '0'. |
| Vectors.BitAndCases | tests/lib/test_engineering.py:204-219 | 32 AND 48 is 32, 1 AND 2 is 0; `#DIV/0!`, 'er'/'ze', `#NUM!` and -1 give the errors the test lists, in either position. |
| Vectors.BitLShiftCases | tests/lib/test_engineering.py:222-236 | 6 << 1 is 12, 6 << -1 is 3, 6 << 0 is 6; text is `#VALUE!`; -1, 2^48 and shifts of 54 either way are `#NUM!`. |
| Vectors.BitOrCases | tests/lib/test_engineering.py:239-248 | 32 OR 16 is 48, 1 OR 2 is 3, and -1 in either position is `#NUM!`. |
| Vectors.BitRShiftCases | tests/lib/test_engineering.py:251-265 | 6 >> 1 is 3, 6 >> -1 is 12, 6 >> 0 is 6; text is `#VALUE!`; -1, 2^48 and shifts of 54 either way are `#NUM!`. |
| Vectors.BitXorCases | tests/lib/test_engineering.py:268-277 | 16 XOR 15 is 31, 1 XOR 3 is 2, and -1 in either position is `#NUM!`. |

Each `Vectors.*Cases` lemma above is assembled from one small lemma per case, and one per digit string it uses (`Vectors.BinaryLargest`, `Vectors.DecodeHexNines`, `Vectors.EncodeLargestOctal`, `Vectors.BitAndShared`, …). Each small lemma states its single case. The solver evaluates such literals cheaply one at a time but not several side by side.

## Left out

- `pycel/lib/engineering.py` is not part of this model. Where the test cases do not pin a rule down, the model chooses a rule. These choices agree with the spreadsheet functions' documented behaviour:
  - a boolean is `#VALUE!`;
  - BITAND, BITOR and BITXOR take operands below 2^48 only;
  - a left shift whose result reaches 2^48 is `#NUM!`.
- Radix.EncodeInt: a negative number with `places` pads its ten-digit pattern like any other pattern, so fewer than ten places is `#NUM!` and more than ten adds leading zeros. DEC2BIN, DEC2OCT and DEC2HEX document instead that `places` is ignored for a negative number. No test case covers a negative number with `places`; the model keeps the one uniform padding rule and does not promise the documented one.
- Cells.IsBlank: empty text is treated as an absent argument everywhere. It reads as 0, and read as binary by a converter it is `#NUM!`. No test case passes empty text, and the spreadsheet treats an empty cell as blank.
- Cells.ToNumber: text is a number only when it is decimal digits with an optional leading minus. Text with a decimal point or an exponent, such as '3.0', '3.5' or '1e2', is `#VALUE!` in `Encode` and in the five bit operations. The same value given as a number is accepted there (3) or is `#NUM!` (3.5). The test file's own comparison helper reads such text as a number (tests/lib/test_engineering.py:33-34, with '0.0' and '-512.0' at lines 43 and 52), but no case passes it as an argument to these functions, so the model does not read decimal-point text.
- Cells.Cell: a number with a fractional part is an opaque `Real` that every function answers with `#NUM!`. The model does no floating-point arithmetic and renders no floats.
- Radix.Convert: the absent argument read as binary gives `#NUM!`, as the cases at tests/lib/test_engineering.py:146-147 require. BIN2DEC of absent is still 0 (line 58), so the model keeps the two rules apart exactly as the tests do.
- Radix.RoundTrip: the round trip is stated for `places` up to ten. Padding beyond ten places, of any number, is produced but its read-back is not claimed, because decoding rejects more than ten digits.
- Radix.EncodeInt: `places` is a whole number. A `places` argument given as text, a boolean, a fraction or an error is not modelled.
- `compare_result` (tests/lib/test_engineering.py:32-38) compares through number coercion and approximate float equality, so the tests cannot tell '000' from '0'. The model gives exact digit strings and integers instead.
- The set `ERROR_CODES` comes from `pycel.excelutil`, which is not part of this model. Errors are `#VALUE!`, `#NUM!`, `#DIV/0!` and an open `OtherError(name)` tag, all passed through unchanged.
- The pytest machinery, `load_to_test_module`, and the named wrappers (`bin2dec`, `dec2hex`, `hex2oct`, …) are left out: each is one of the modelled functions with its base fixed.
