# Decimal — a verified model

`tylawin::DataTypes::Decimal` is a fixed-point decimal number. It is kept as three
fields: a sign `positive_`, an unsigned 64-bit integer part `whole_`, and an
unsigned 64-bit `fraction_` that counts units of 10^-19. The class invariant is
`fraction_ < 10^19`. The class provides:

- construction from integers and from text;
- comparison, addition, subtraction, multiplication and division;
- stream insertion (`operator<<`) and stream extraction (`operator>>`);
- a `to_string` with an optional precision.

This project models that class in Dafny. It has these modules:

- `MachineInts` (machine.dfy): the unsigned 64-bit type and its wrap-around `Wrap`,
  plus the modular-arithmetic facts the proofs use.
- `Outcomes` (outcomes.dfy): the exceptions the class throws, as an `Error` of a `Result`.
- `Digits` (digits.dfy): digit strings, `Number` (the value a digit string denotes),
  `std::to_string` of an unsigned integer, and `std::stoull`.
- `Decimals` (decimal.dfy): the value `Dec(positive, whole, fraction)`. It holds
  construction from integers, the comparisons, unary minus, and the arithmetic
  operators, which return a new value.
- `DecimalText` (text.dfy): the string constructor (both as written and as
  intended), `fractionAsString`, `operator<<` and `to_string`.
- `DecimalReader` (reader.dfy): `operator>>` over a character stream. The stream
  is a `CharStream` object that is peeked at and read one character at a time.
- `Compound` (compound.dfy): the `Decimal` object itself. It is a class whose
  fields the compound assignments and stream extraction update in place.
- `Examples` (examples.dfy): cases from the unit tests, proved on values.

### Meaning of a value

- `Scaled(d)` is the magnitude `whole * 10^19 + fraction`, in units of 10^-19.
- `Value(d)` is the same magnitude with the sign applied.
- `Valid(d)` is the class invariant.
- `Canonical(d)` is `Valid(d)` with no negative zero.

The arithmetic is specified through these, modulo `MODULUS = 2^64 * 10^19`. That
modulus is where the 64-bit `whole_` wraps. Each operation has a lemma stating
when it is exact:

- addition and subtraction give the magnitude of the exact sum or difference;
- multiplication gives `Scaled(a) * Scaled(b) / 10^19`;
- division gives `Scaled(a) * 10^19 / Scaled(b)`;
- in each case the sign is the one the true result has.

Multiplication and division truncate. Boost's 128- and 256-bit integers are exact,
so they are modelled as unbounded naturals. Only the 64-bit casts back into
`whole_` and `fraction_` wrap.

The string constructor and `operator>>` are proved to read back what `operator<<` writes.
Both proofs are about the corrected readers (findings 3 to 5 below).

## Model

| member | source | states |
|---|---|---|
| MachineInts.Wrap | include/Decimal.hpp:226-227 | a uint64_t result: the exact value when it is in range, minus 2^64 just above the range, plus 2^64 just below zero |
| MachineInts.WrapAdd | include/Decimal.hpp:306-314 | wrapping a partial uint64_t sum early does not change the final wrapped sum |
| Digits.DigitValue | include/Decimal.hpp:403 | `ch - '0'` of a digit is below 10 |
| Digits.ToDecimal | include/Decimal.hpp:368 | the digits stream insertion writes for a uint64_t: non-empty, all digits, no leading zero, and denoting the number |
| Digits.NumberConcat | include/Decimal.hpp:133-135 | appending k digits multiplies the value by 10^k and adds the value of the appended digits |
| Digits.NumberTrailingZeros | include/Decimal.hpp:133-134 | padding with k zeros multiplies the value by 10^k |
| Digits.NumberPrefix | include/Decimal.hpp:131-132 | keeping the first n digits divides the value by 10^(length - n), truncating |
| Digits.NumberBound | include/Decimal.hpp:131-135 | k digits denote a number below 10^k |
| Digits.ToDecimalLength | include/Decimal.hpp:442-443 | a number below 10^k is written with at most k digits |
| Digits.DigitPrefix | include/Decimal.hpp:124 | the digit run std::stoull reads is all digits and is followed by a non-digit or the end |
| Digits.Stoull | include/Decimal.hpp:124-135 | std::stoull: invalid_argument exactly when no digit follows the optional sign (so "", "-" and ".5"); a digit string is its value below 2^64, and out_of_range otherwise |
| Digits.StoullPrefix | include/Decimal.hpp:135 | std::stoull ignores everything after the sign and the digit run |
| Decimals.ScaledBound | include/Decimal.hpp:47-49 | a valid value's magnitude is below 2^64 * 10^19 |
| Decimals.ZeroUnique | include/Decimal.hpp:52-53 | Decimal() is canonical with value 0, and it is the only canonical value 0 |
| Decimals.CanonicalUnique | include/Decimal.hpp:252-253 | two canonical values with the same signed value are the same representation |
| Decimals.FromSigned | include/Decimal.hpp:58-64 | Decimal(int32_t) and Decimal(int64_t) are canonical and hold the integer's value |
| Decimals.FromUnsigned | include/Decimal.hpp:66-67 | Decimal(uint32_t) and Decimal(uint64_t) are canonical and hold the integer's value |
| Decimals.Equal | include/Decimal.hpp:163-169 | operator== holds iff the fields agree, and for canonical operands iff the values are equal |
| Decimals.NotEqual | include/Decimal.hpp:171-174 | operator!= is the negation of ==, and for canonical operands iff the values differ |
| Decimals.Greater | include/Decimal.hpp:176-194 | operator> is a lexicographic order on sign, then whole and fraction (reversed when negative); for canonical operands it is exactly Value(a) > Value(b) |
| Decimals.GreaterEq | include/Decimal.hpp:196-201 | operator>= is > or ==, and for canonical operands exactly Value(a) >= Value(b) |
| Decimals.Less | include/Decimal.hpp:203-206 | operator< is !(>=), and for canonical operands exactly Value(a) < Value(b) |
| Decimals.LessEq | include/Decimal.hpp:208-213 | operator<= is < or ==, and for canonical operands exactly Value(a) <= Value(b) |
| Decimals.Trichotomy | include/Decimal.hpp:163-213 | exactly one of <, ==, > holds; <= is < or ==, and >= is > or == |
| Decimals.GreaterTransitive | include/Decimal.hpp:176-194 | operator> is transitive |
| Decimals.SignOrder | include/Decimal.hpp:178-193 | a non-negative value is greater than a negative one; between negative values the larger magnitude is the smaller |
| Decimals.NegativeZeroOrder | include/Decimal.hpp:176-213 | a negative zero has the value of zero, but compares below zero and unequal to it |
| Decimals.Neg | include/Decimal.hpp:249-257 | unary minus keeps the parts, negates the value and never yields -0 |
| Decimals.NegInvolution | include/Decimal.hpp:249-257 | negating a canonical value twice gives it back |
| Decimals.Carry | include/Decimal.hpp:228-232 | the carry loop leaves a fraction below 10^19 and keeps the magnitude modulo 2^64 * 10^19 |
| Decimals.SameSignSumAsWritten | include/Decimal.hpp:224-233 | as written: the sum is right when the fractions add below 2^64, and 2^64 units of 10^-19 short otherwise |
| Decimals.SameSignSumWraps | include/Decimal.hpp:227 | for 0.93 + 0.93 the written code yields 0.0153255926290448384 instead of 1.86 |
| Decimals.SameSignSum | include/Decimal.hpp:224-233 | the same-sign branch with an exact fraction sum: the magnitude of the sum, modulo 2^64 * 10^19 |
| Decimals.Borrow | include/Decimal.hpp:274-285 | the in-place branch of operator-=: the difference of the magnitudes, exactly, with no wrap |
| Decimals.Add | include/Decimal.hpp:215-247 | as corrected (finding 1): operator+ and operator+=, canonical, the magnitude of the true sum modulo 2^64 * 10^19, with the sign of the true sum |
| Decimals.Sub | include/Decimal.hpp:259-287 | as corrected (finding 1, reached through a negative operand): operator- and operator-=, canonical, the magnitude of the true difference modulo 2^64 * 10^19, with the sign of the true difference |
| Decimals.AddExact | include/Decimal.hpp:215-247 | as corrected (finding 1): addition is exact when the true sum fits |
| Decimals.SubExact | include/Decimal.hpp:259-287 | as corrected (finding 1): subtraction is exact when the true difference fits |
| Decimals.AddExactWhenPartsFit | include/Decimal.hpp:226-232 | as corrected (finding 1): addition is exact when the whole parts and a carry fit in 64 bits |
| Decimals.AddInverse | include/Decimal.hpp:234-237 | x + (-x) is positive zero |
| Decimals.SubSelf | include/Decimal.hpp:266-287 | x - x is positive zero |
| Decimals.AddCommutes | include/Decimal.hpp:222-247 | operator+ is commutative |
| Decimals.AddZero | include/Decimal.hpp:222-287 | adding or subtracting zero leaves a canonical value unchanged |
| Decimals.SubIsAddNeg | include/Decimal.hpp:266-269 | a - b equals a + (-b) |
| Decimals.MulCarries | include/Decimal.hpp:300-315 | the three cross products split into uint64_t carries and a fraction below 10^19 that together are the truncated product |
| Decimals.MulWidths | include/Decimal.hpp:300-311 | the cross products fit uint128_t, and their quotients by 10^19 fit the uint64_t casts |
| Decimals.Mul | include/Decimal.hpp:289-319 | operator*: canonical, the truncated product of the magnitudes modulo 2^64 * 10^19, negative iff the signs differ and the result is not zero |
| Decimals.MulCommutes | include/Decimal.hpp:289-319 | operator* is commutative |
| Decimals.MulExact | include/Decimal.hpp:289-319 | when the product fits, the result is the signed product truncated toward zero |
| Decimals.MulOne | include/Decimal.hpp:289-319 | one is the identity on both sides |
| Decimals.MulZero | include/Decimal.hpp:316-317 | multiplying by zero or by -0 is positive zero |
| Decimals.DivAsWritten | include/Decimal.hpp:332-350 | as written: division by zero throws, and otherwise the truncated quotient, negative iff the signs differ, even when it is zero |
| Decimals.DivNegativeZero | include/Decimal.hpp:337-341 | 0 / -1 yields -0 as written and positive zero as corrected |
| Decimals.DivSteps | include/Decimal.hpp:345-348 | divide_qr and the scaled remainder give the integer and the fraction digits of the quotient |
| Decimals.DivParts | include/Decimal.hpp:343-348 | the remainder times 10^19 fits uint256_t, the fraction it yields is below 10^19, and quotient and fraction make up the truncated quotient |
| Decimals.Div | include/Decimal.hpp:332-350 | as corrected (finding 2): operator/, division by zero throws; otherwise canonical, the truncated quotient modulo 2^64 * 10^19, negative iff the signs differ |
| Decimals.DivUnsigned | include/Decimal.hpp:327-330 | as corrected (finding 2): operator/(uint64_t), zero throws; otherwise canonical, the magnitude divided by the integer and truncated, with the sign of the left operand when not zero |
| Decimals.DivSigned | include/Decimal.hpp:459-462 | as corrected (finding 2): operator/(int64_t, Decimal), zero throws; otherwise canonical, the integer's magnitude scaled and divided, truncated, negative iff (lhs >= 0) differs from the divisor's sign and the result is not zero |
| Decimals.DivExact | include/Decimal.hpp:332-350 | when the quotient fits, the result is the signed truncated quotient |
| Decimals.DivSelf | include/Decimal.hpp:332-350 | x / x is one for non-zero x |
| Decimals.DivOne | include/Decimal.hpp:332-350 | x / 1 is x |
| DecimalText.Find | include/Decimal.hpp:121 | std::string::find: the index of the first occurrence, or the length when there is none |
| DecimalText.FindAppend | include/Decimal.hpp:485-488 | after appending to text that lacks the character, it is found in the appended part |
| DecimalText.FractionFieldValue | include/Decimal.hpp:130-135 | the 19-character field: digits beyond the 19th are cut and a shorter fraction is scaled up; the field's value is below 10^19 |
| DecimalText.FractionField | include/Decimal.hpp:130-134 | the field is 19 characters: the text after '.' where it reaches, '0' beyond it |
| DecimalText.FieldValue | include/Decimal.hpp:130-135 | the fraction_ that a run of fraction digits yields: below 10^19, with the truncation or the padding |
| DecimalText.PadFraction | include/Decimal.hpp:130-134 | the truncation and padding loop produces the 19-character field |
| DecimalText.ParseAsWritten | include/Decimal.hpp:105-106 | a character outside "-0123456789." throws invalid_argument |
| DecimalText.Construct | include/Decimal.hpp:103-137 | the string constructor as a procedure computes what the normalise-and-convert definition gives |
| DecimalText.Normalize | include/Decimal.hpp:107-119 | the sign is negative exactly for a leading '-', and only "-" leaves nothing to convert |
| DecimalText.Convert | include/Decimal.hpp:121-136 | the sign is kept, text without '.' has no fraction, and the only exceptions are invalid_argument and out_of_range |
| DecimalText.ParseMinusAsWritten | include/Decimal.hpp:105-135 | as written, "1.-5" gives a fraction_ of 2^64 - 5 * 10^17, past the invariant, and "1.5-3" gives 1.0000000000000000005 |
| DecimalText.ParseSecondPointAsWritten | include/Decimal.hpp:105-135 | as written, "1.2.3" passes the character check and reads as 1.0000000000000000002; the corrected constructor rejects it |
| DecimalText.StoullMinusField | include/Decimal.hpp:135 | std::stoull of the field "-5000…" is 2^64 - 5 * 10^17 |
| DecimalText.StoullNegative | include/Decimal.hpp:135 | std::stoull of '-' and digits is the magnitude negated modulo 2^64 |
| DecimalText.Parse | include/Decimal.hpp:103-137 | as corrected (findings 3 and 5): text with an inner '-' or a second '.' is invalid_argument; other text is read as written, and the fraction is below 10^19 |
| DecimalText.ConvertValid | include/Decimal.hpp:121-135 | without an inner '-' and with at most one '.', the fraction read is below 10^19 |
| DecimalText.ParseWhole | include/Decimal.hpp:121-126 | "[-]digits" reads as that integer, or out_of_range past 2^64 - 1 |
| DecimalText.ParsePoint | include/Decimal.hpp:127-136 | "[-]digits.digits" reads as the integer with the fraction truncated or padded to 19 digits, or out_of_range |
| DecimalText.ParseLeadingPoint | include/Decimal.hpp:118-119 | "[-].digits" reads as 0.digits |
| DecimalText.ParseZeros | include/Decimal.hpp:107-116 | "" reads as zero and "-0" as a negative zero |
| DecimalText.StripZeros | include/Decimal.hpp:445-446 | a prefix with no trailing '0', and only '0' characters were removed |
| DecimalText.FractionText | include/Decimal.hpp:437-448 | fractionAsString writes only digits, and writes "0" exactly for a zero fraction |
| DecimalText.FractionAsString | include/Decimal.hpp:437-448 | fractionAsString with its two loops computes "0" or the 19 padded digits without trailing zeros |
| DecimalText.PadDigits | include/Decimal.hpp:443-444 | the padding loop puts '0' characters in front up to 19 digits |
| DecimalText.DropZeros | include/Decimal.hpp:445-446 | the popping loop removes exactly the trailing '0' characters |
| DecimalText.FractionTextDigits | include/Decimal.hpp:437-448 | a non-zero fraction is written as 1 to 19 digits, the last not '0', which read back as the same fraction |
| DecimalText.Format | include/Decimal.hpp:364-372 | operator<< writes a non-empty text that starts with '-' exactly for a negative sign |
| DecimalText.FormatPoint | include/Decimal.hpp:364-372 | operator<< puts '.' right after the sign and the whole digits, and only when the fraction is not zero |
| DecimalText.ParseFormat | include/Decimal.hpp:364-372 | the string constructor reads back what operator<< writes, negative zero included |
| DecimalText.ToString | include/Decimal.hpp:464-493 | to_string: no precision is operator<<'s text; precision 0 is the text before '.'; precision p has the text up to '.', '.', and exactly p further digits, cut or padded with '0' |
| DecimalText.FixPrecision | include/Decimal.hpp:485-492 | the precision branch: the text up to '.', a '.', and exactly p digits after it, taken from the text or padded with '0' |
| DecimalReader.PeekAt | include/Decimal.hpp:376 | istream::peek: a character exactly when the stream is good and not at its end, that character being the one at the position; it consumes nothing and leaves the stream good exactly when it saw a character |
| DecimalReader.PeekTwice | include/Decimal.hpp:376-393 | peeking again after a peek sees the same character and the same stream |
| DecimalReader.ScanWhole | include/Decimal.hpp:391 | is >> whole_: a stream that is not good, or is at its end, stores nothing and fails |
| DecimalReader.NumGet | include/Decimal.hpp:391 | num_get agrees with std::stoull: it fails exactly when stoull throws, stores stoull's value otherwise, 2^64 - 1 on out_of_range, and 0 with nothing consumed when there is no digit |
| DecimalReader.NumGetDigits | include/Decimal.hpp:391 | num_get of a digit run in range stores its value and consumes exactly it |
| DecimalReader.ScanWholeDigits | include/Decimal.hpp:391 | is >> whole_ on a digit run yields its value and stops at the character after it |
| DecimalReader.ScanFraction | include/Decimal.hpp:398-407 | the digit loop with exact place values: below 10^(m + 1) |
| DecimalReader.ScanFractionBound | include/Decimal.hpp:398-407 | as corrected (finding 4): the loop starting at place 10^18 stores a fraction below 10^19 |
| DecimalReader.ScanFractionDigits | include/Decimal.hpp:400-407 | as corrected (finding 4): up to 19 digits at the end of the text read as their value scaled to 19 places, and all are consumed |
| DecimalReader.ScanFractionStop | include/Decimal.hpp:400 | the loop reads nothing when the next character is not a digit |
| DecimalReader.DigitStep | include/Decimal.hpp:402-406 | as corrected (finding 4): one round of the loop, whose uint64_t addition never wraps with the exact place value, and the digits left account for the rest |
| DecimalReader.ExtractSign | include/Decimal.hpp:376-383 | a '-' makes the value negative exactly when it is the next character, and it alone is consumed |
| DecimalReader.ExtractWhole | include/Decimal.hpp:385-391 | a '.' next means no whole part: whole_ is 0 and nothing is consumed |
| DecimalReader.ExtractFraction | include/Decimal.hpp:393-410 | the only exception is invalid_argument, for a bare '.' with no whole part, and it leaves the fraction as it was; otherwise the fraction is below 10^19 (as corrected, finding 4) |
| DecimalReader.Extract | include/Decimal.hpp:373-412 | operator>> keeps the text, throws only invalid_argument and then leaves fraction_ as it was, and otherwise stores a fraction below 10^19 (as corrected, finding 4) |
| DecimalReader.ExtractValid | include/Decimal.hpp:373-412 | as corrected (finding 4): whatever the stream holds, operator>> leaves the fraction below 10^19 |
| DecimalReader.ExtractFractionValid | include/Decimal.hpp:393-410 | as corrected (finding 4): the fraction step keeps a fraction below 10^19 |
| DecimalReader.ExtractLiteral | include/Decimal.hpp:373-412 | as corrected (finding 4): a literal [-]digits[.digits] is read as its sign, whole part and fraction, with no exception and all text consumed |
| DecimalReader.ExtractFormat | source/runTests.cpp:196-210 | as corrected (finding 4): operator>> reads back what operator<< writes, with no exception and the whole text consumed |
| DecimalReader.Int32 | include/Decimal.hpp:37-41 | an int result wraps into [-2^31, 2^31) and is the exact value when that fits |
| DecimalReader.PlaceValueAsWritten | include/Decimal.hpp:403 | as written, uint64_t(constexpr_pow(10, m)) is 10^m while 10^m fits an int |
| DecimalReader.PlaceValueOverflows | include/Decimal.hpp:403 | the int power of ten as written is right up to 10^9; at 10^18 it is 18446744072222932992, so "0.1" breaks the invariant |
| DecimalReader.CharStream.constructor | include/Decimal.hpp:373 | a fresh stream over a text, at its start and good |
| DecimalReader.CharStream.Peek | include/Decimal.hpp:376 | istream::peek on the stream object, as PeekAt |
| DecimalReader.CharStream.Get | include/Decimal.hpp:379 | is >> ch after a peek: the character and the position one further |
| DecimalReader.CharStream.ReadU64 | include/Decimal.hpp:391 | is >> whole_ on the stream object, as ScanWhole |
| Compound.Decimal.constructor | include/Decimal.hpp:55-56 | the copy constructor holds the given value |
| Compound.Decimal.Assign | include/Decimal.hpp:143-149 | operator= copies the three fields |
| Compound.Decimal.AddAssign | include/Decimal.hpp:222-247 | operator+= in place, with its carry loop: the new value is Add of the old one, canonical, and the value returned |
| Compound.Decimal.AddInPlace | include/Decimal.hpp:224-233 | the same-sign branch in place, with its carry loop: the new value is the exact-fraction same-sign sum of the old value and the operand |
| Compound.Decimal.SubAssign | include/Decimal.hpp:266-287 | operator-= in place, with its borrow: the new value is Sub of the old one (as corrected, finding 1), canonical |
| Compound.Decimal.SubInPlace | include/Decimal.hpp:274-285 | the direct branch of operator-= in place: the new value is the borrow difference of the old value and the operand |
| Compound.Decimal.MulAssign | include/Decimal.hpp:321-325 | operator*= assigns Mul of the old value |
| Compound.Decimal.DivAssign | include/Decimal.hpp:358-362 | operator/=, as corrected (finding 2): on success the quotient Div gives is assigned; on division by zero the object is unchanged |
| Compound.Decimal.DivAssignUnsigned | include/Decimal.hpp:352-356 | operator/=(uint64_t), as corrected (finding 2): on success the quotient DivUnsigned gives is assigned; on division by zero the object is unchanged |
| Compound.Decimal.ReadFrom | include/Decimal.hpp:373-412 | operator>> on the object: the new value, the exception and the stream afterwards are those of Extract; the sign and whole part stay updated when the fraction step throws |
| Compound.Decimal.ReadSign | include/Decimal.hpp:376-383 | the sign step updates only positive_ |
| Compound.Decimal.ReadWhole | include/Decimal.hpp:385-391 | the whole-part step updates only whole_ |
| Compound.Decimal.ReadFraction | include/Decimal.hpp:393-410 | the fraction step updates only fraction_ and throws on a bare '.' |
| Compound.Decimal.ReadDigits | include/Decimal.hpp:398-407 | the digit loop stores what ScanFraction gives from place 10^18 |
| Compound.Decimal.AddDigit | include/Decimal.hpp:402-403 | as corrected (finding 4): one digit added at the exact place value 10^m, without wrap |
| Examples.ParseLeadingPointExample | source/runTests.cpp:37 | Decimal(".5") is 0.5 |
| Examples.ParsePointExample | source/runTests.cpp:39 | Decimal("1.1") is 1.1 |
| Examples.AddExamples | source/runTests.cpp:121-126 | 1.9 + -1.9 = 0, 1.9 + -1.5 = 0.4, 1.5 + -1.9 = -0.4, -1.9 + -1.9 = -3.8 |
| Examples.SubExamples | source/runTests.cpp:131-146 | 0 - 1 = -1 and 1.9 - -1.5 = 3.4 |
| Examples.MulExamples | source/runTests.cpp:157-172 | 1.1 * 1.1 = 1.21, 1.9 * -1.9 = -3.61, 1.9999999999999999999 squared = 3.9999999999999999996 |
| Examples.DivThirds | source/runTests.cpp:180-181 | 1 / 3 and 1 / -3 are ±0.3333333333333333333 |
| Examples.DivExamples | source/runTests.cpp:190-191 | 5.55555555 / 6 = 0.925925925 and 6 / 5.55555555 = 1.080000001080000001 |
| Examples.DivTruncates | source/runTests.cpp:192 | 7.5555 / 3.3333 = 2.2666726667266672666, truncated |

## Left out

- The constructors from float, double and long double, operator=(long double) and
  asDouble: they are floating point.
- round: it is private and nothing calls it.
- Decimal(const char[]): it only forwards to the string constructor.
- The whitespace skipping of `is >> ch` and `is >> whole_`, locales, and stream state
  other than end of file and failure. The stream is a text with a position and a good flag.
- The text of the exception messages. Only the exception's kind is kept.
- Heap allocation and the cost of strings.
- Decimals.FromSigned: it excludes -2^63, for which abs() in Decimal(int64_t) is
  undefined behaviour. It also stands for Decimal(int32_t), whose abs(-2^31) is
  undefined behaviour as well; the model gives 2^31 there.
- Decimals.DivSigned: it inherits the exclusion of -2^63 from Decimals.FromSigned.
- DecimalText.ToString: `pos + 1 + precision` is an exact natural, so the size_t
  overflow of a huge precision is not modelled.
- Decimals.Mul, Decimals.Div and Decimals.DivUnsigned: Boost's uint128_t and
  uint256_t are exact naturals. Their widths are only checked where the proofs
  need them (MulWidths, DivParts).
- fractionDenominator_ is taken to be 10^19. As written, constexpr_pow deduces `int`
  from the literal 10, so 10^19 overflows an int in a constant expression.
- Compound.Decimal.AddAssign: its same-sign branch holds the fraction sum exactly,
  as intended (finding 1); the as-written sum is Decimals.SameSignSumAsWritten.
- Decimals.Add: its same-sign branch is the corrected sum of finding 1, so 0.93 + 0.93
  is 1.86 where the code as written gives 0.0153255926290448384.
- Decimals.Sub: a negative operand on either side goes through the corrected sum of
  finding 1, so 0.93 - -0.93 is 1.86 and -0.93 - 0.93 is -1.86, where the code as
  written wraps to 0.0153255926290448384 and -0.0153255926290448384.
- Decimals.AddExact: it is proved of the corrected sum of finding 1; as written,
  0.93 + 0.93 fits and is still wrong.
- Decimals.SubExact: it is proved of the corrected sum of finding 1, reached through
  a negative operand on either side (0.93 - -0.93, -0.93 - 0.93).
- Decimals.AddExactWhenPartsFit: it is proved of the corrected sum of finding 1; as
  written it fails for 0.93 + 0.93, whose whole parts are 0.
- Compound.Decimal.SubAssign: a negative operand on either side (0.93 - -0.93,
  -0.93 - 0.93) goes through the corrected Decimals.Add of finding 1.
- Decimals.Div: a zero quotient is positive zero, as corrected (finding 2); as
  written, 0 / -1 gives -0, which is Decimals.DivAsWritten.
- Decimals.DivUnsigned: it divides through the corrected Decimals.Div of finding 2,
  so a zero quotient of a negative value is positive zero, where the code as written
  gives -0.
- Decimals.DivSigned: it divides through the corrected Decimals.Div of finding 2.
- Compound.Decimal.DivAssign: it assigns the corrected Decimals.Div of finding 2, so
  0 /= -1 leaves positive zero, where the code as written leaves -0.
- Compound.Decimal.DivAssignUnsigned: it assigns Decimals.DivUnsigned, which carries
  the correction of finding 2.
- DecimalText.Parse: besides the inner '-' of finding 3, it rejects a second '.'
  (finding 5), which the code as written reads; DecimalText.ParseAsWritten has both.
- Compound.Decimal.ReadFrom and Compound.Decimal.ReadDigits: they use exact powers of
  ten as place values, as intended (finding 4); the as-written place value is
  DecimalReader.PlaceValueAsWritten.
- DecimalReader.ExtractValid: it is proved of the exact place values of finding 4; as
  written, "0.1" leaves fraction_ = 18446744072222932992.
- DecimalReader.ExtractFractionValid: it is proved of the exact place values of
  finding 4.
- DecimalReader.ExtractLiteral: it is proved of the exact place values of finding 4;
  as written, a fraction digit at places 10^10 to 10^18 is misread.
- DecimalReader.ExtractFormat: the round trip holds for the exact place values of
  finding 4; as written, "-2.2" reads back wrong.
- DecimalReader.Extract and DecimalReader.ExtractFraction: their fraction bound is
  that of the exact place values of finding 4.
- DecimalReader.ScanFractionBound: it is proved of the exact place values of finding
  4; as written, "0.1" stores 18446744072222932992, past 10^19.
- DecimalReader.ScanFractionDigits: it is proved of the exact place values of
  finding 4; as written, digits at places 10^10 to 10^18 are misread.
- DecimalReader.DigitStep: its no-wrap fact holds for the exact place values of
  finding 4; as written, "0.11" adds 18446744072222932992 + 1569325056, which
  wraps the uint64_t sum.
- Compound.Decimal.AddDigit: it adds at the exact place value 10^m of finding 4; as
  written, line 403's place value is not 10^m for m >= 10.
- No function, method or lemma is compiled or executed. Each Examples lemma states
  what a unit test expects, on the values its literals denote.

## Findings

The rows are findings 1 to 5, in the order below. Each as-written member states the
discrepancy of the code as it stands; the corrected member is what the rest of the
model uses.

| source | as written | input that shows it | evidently intended | confidence | as-written member | corrected member |
|---|---|---|---|---|---|---|
| include/Decimal.hpp:227 | `fraction_ += rhs.fraction_` adds two fractions below 10^19 in a uint64_t, and that wraps once the sum reaches 2^64 | 0.93 + 0.93 gives 0.0153255926290448384 | 1.86: the carry loop normalises the exact sum | high (not executed) | Decimals.SameSignSumAsWritten | Decimals.SameSignSum |
| include/Decimal.hpp:337-341 | the sign of a quotient is set from the operands' signs, and a zero quotient keeps it; operator* has the "-0" fix-up, but operator/ does not | 0 / -1 gives -0, which compares below 0 and unequal to it | positive zero, as operator* and unary minus produce | high (not executed) | Decimals.DivAsWritten | Decimals.Div |
| include/Decimal.hpp:105 | the character check lets '-' through anywhere, and std::stoull accepts a sign in front of the fraction field and stops at an inner '-' | "1.-5" gives a fraction_ of 2^64 - 5 * 10^17, past the invariant; "1.5-3" gives 1.0000000000000000005 | invalid_argument for a '-' that is not the first character | high (not executed) | DecimalText.ParseMinusAsWritten | DecimalText.Parse |
| include/Decimal.hpp:403 | `constexpr_pow(10, m)` computes in int, which overflows for m >= 10 (undefined behaviour; two's-complement wrap shown) | "0.1" stores 18446744072222932992 in fraction_ | the exact place value 10^m | medium (not executed; it assumes wrap-around) | DecimalReader.PlaceValueOverflows | DecimalReader.ScanFraction |
| include/Decimal.hpp:105-135 | the character check lets a second '.' through, and std::stoull of the fraction field stops at it | "1.2.3" gives 1.0000000000000000002 | invalid_argument, as for any other text that is not a number | medium (not executed; the intent is inferred from the character check) | DecimalText.ParseSecondPointAsWritten | DecimalText.Parse |
