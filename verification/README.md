# Verified model of fast_io's arithmetic, text and cipher cores

fast_io is a C++20 input and output library. This project models the parts of it that compute something hard to get
right by inspection, and proves what they promise:

- **Two-limb wide integers** (`WideInt`, `WideMul`, `WideDiv`, `UnsignedExtension`, `WidePow`). A mutable number of two
  limbs of 2h bits each (h = 32 or 64 in the library; the proofs hold for every multiple of 16 from 32 up). Every
  compound assignment is tied to plain natural numbers modulo 2^(4h): shifts, comparison and subtraction feed the
  restoring division; the short division feeds the base printer; column multiplication feeds `pow`.
- **Number printing** (`Numerals`, `BasePrinter`, `Jiaendu`, `TableGen`). What a numeral is, character by
  character, that a number has only one, and that the base-N printer and the table-driven 64-bit and 128-bit decimal
  printers write it.
- **UTF-8** (`Utf8Tables`, `Utf8Automaton`, `Utf8Transcode`). The generated tables, the language the automaton accepts
  against the grammar of RFC 3629, and the conversion to UTF-16 built on the tables.
- **Ciphers and modes** (`Words`, `Blocks`, `Speck`, `Rc6`, `ChaCha20`, `Cbc`, `Ctr`, `CipherModes`). Each in-place loop
  against a block function, each block function against plain arithmetic and against its inverse, and the chained modes
  over block sequences of any length.
- **Buffered streams** (`OutputBuffer`, `BufferedOutput`, `Printing`, `InputStream`). The growing temporary buffer, the
  stream buffer that flushes to its handle, the printing paths over both, and skipping over chunked input, against plain
  sequences of characters.

Code that the library writes as in-place updates is modelled by classes, arrays and loops, each method proved against a
specification function; the properties are lemmas about those functions. `NatMath` holds the shared arithmetic and
`Basics` the shared types.

`dafny verify dfyconfig.toml` checks everything.

## Where the code and the expectation differ

The model follows the code. Seven promises a reader might expect do not hold without a condition; each is given as a
lemma with a concrete input and as an if-and-only-if for all inputs.

1. `add_carry_assignment` misreports the carry-out exactly when the carry-in is set and the addend is the largest limb
   (`WideInt.CarryFlagExact`, `WideInt.CarryFlagLost`); on two limbs the condition is `CarryOutMissed`
   (`WideInt.AddTwoLimbs`, `WideInt.CarryOutMissedOnce`).
2. `*=` on two limbs and the generic `mul_extend` are b^3 short exactly when column c1 overflows its limb
   (`WideMul.ProductExactIff`, `WideMul.LargestSquareLosesCarry`).
3. `mul_high` is b too small under the same condition (`WideMul.MulHighExactIff`, `WideMul.LargestSquareLosesHigh`).
4. `pow` inherits the lost carries: it is exact modulo b^3 always, and modulo 2^(4h) exactly when they cancel out; a
   power below b^3 is always exact (`WidePow.PowExactIff`, `WidePow.PowExactWhileCarriesKept`, `WidePow.SmallPowExact`,
   `WidePow.PowLosesCarry`).
5. A growing `write` runs past its new storage exactly when the buffer is not empty and held plus new characters exceed
   twice the capacity (`OutputBuffer.WriteFitsIff`, `OutputBuffer.LongPieceOverruns`).
6. Big-endian counter mode counts from the given start exactly when the start reads the same in both byte orders, as
   zero does (`Ctr.BigEndianCountsIff`, `Ctr.BigEndianStartOne`).
7. The UTF-8 converter accepts octets of type signed `char`, for which every octet passes its test for ASCII. It then
   converts exactly the texts whose octets are all below 0x80; other octets are stored sign-extended, or the loop with SSE
   stands still in front of them (`Utf8Transcode.SignedConvertsIff`, `Utf8Transcode.SignedMisconverts`).

`div_mod` by zero is not undefined in this code: it returns the largest number and the dividend (`WideNumber.DivMod`).

## Model

| member | source | states |
|---|---|---|
| WideInt.WidthsArePowers | include/fast_io_core_impl/unsigned_extension.h:9-13 | Limbs wrap modulo 2^(2h) and two-limb numbers modulo 2^(4h) |
| WideInt.CarryFlagExact | include/fast_io_core_impl/unsigned_extension.h:206-212 | The carry that `add_carry_assignment` reports on one limb is the true carry-out if and only if it is not the case that the carry-in is set and the addend is the largest limb; the stored sum is always right |
| WideInt.CarryFlagLost | include/fast_io_core_impl/unsigned_extension.h:206-212 | The misreport, concretely: adding the largest limb with carry-in leaves the limb as it was and reports no carry although the sum wrapped |
| WideInt.AddTwoLimbs | include/fast_io_core_impl/unsigned_extension.h:214-218 | Adding limb by limb is exact modulo 2^(4h) for every operand pair except that the sum is exactly one limb base short when the carry-in is set and the low addend is the largest limb; the returned flag is the true carry-out if and only if `CarryOutMissed` does not hold, a condition on the operands that covers both settings of the carry-in |
| WideInt.CarryOutMissedOnce | include/fast_io_core_impl/unsigned_extension.h:206-218 | The concrete misreport with carry-in: one more than all ones is zero with a carry-out, and the code reports none |
| WideInt.SubTwoLimbs | include/fast_io_core_impl/unsigned_extension.h:260-269 | Subtracting limb by limb, with the borrow detected by "low difference exceeds the low minuend", is exact modulo 2^(4h) |
| WideInt.CompareTwoLimbs | include/fast_io_core_impl/unsigned_extension.h:147-181 | Comparing high limbs first is numeric comparison, and limb equality is numeric equality |
| WideInt.BitThroughByte | include/fast_io_core_impl/unsigned_extension.h:26-29 | Reading bit i through byte i / 8 of the object representation reads bit i of the number |
| WideInt.ShlLimbs | include/fast_io_core_impl/unsigned_extension.h:388-393 | For 0 < shift < limb width, the two shifted limbs with the leaving bits "or"-ed in are the value times 2^shift modulo 2^(4h) |
| WideInt.ShrLimbs | include/fast_io_core_impl/unsigned_extension.h:416-421 | For 0 < shift < limb width, the two limbs are the value divided by 2^shift |
| WideInt.ShlByLimb | include/fast_io_core_impl/unsigned_extension.h:394-398 | A left shift by a limb or more: the low limb moves up, and the result is again the value times 2^shift modulo 2^(4h) |
| WideInt.ShrByLimb | include/fast_io_core_impl/unsigned_extension.h:422-426 | A right shift by a limb or more is still division by 2^shift |
| WideInt.ShiftedOut | include/fast_io_core_impl/unsigned_extension.h:399-400 | Shifting by the full width or more in either direction gives zero, which is what the arithmetic meaning of the shift gives too |
| WideNumber.UnsignedExtension.constructor | include/fast_io_core_impl/unsigned_extension.h:18-20 | A two-limb number is built from its limbs |
| WideNumber.UnsignedExtension.ComparesByValue | include/fast_io_core_impl/unsigned_extension.h:147-181 | `<`, `==` and the conversion to bool compare the represented values |
| WideNumber.UnsignedExtension.Increment | include/fast_io_core_impl/unsigned_extension.h:183-189 | `++` adds one modulo 2^(4h) |
| WideNumber.UnsignedExtension.Decrement | include/fast_io_core_impl/unsigned_extension.h:190-197 | `--` subtracts one modulo 2^(4h) |
| WideNumber.UnsignedExtension.AddCarryAssign | include/fast_io_core_impl/unsigned_extension.h:214-218 | Value and carry flag of the two-limb `add_carry_assignment` for both settings of the carry-in: the value is one limb base short exactly when the carry between the limbs is lost, and the flag is the true carry-out exactly when none is missed |
| WideNumber.UnsignedExtension.AddAssign | include/fast_io_core_impl/unsigned_extension.h:240-245 | `+=` is addition modulo 2^(4h) for every operand pair, aliasing included |
| WideNumber.UnsignedExtension.SubAssign | include/fast_io_core_impl/unsigned_extension.h:260-269 | `-=` is subtraction modulo 2^(4h) for every operand pair, aliasing included |
| WideNumber.AddSubUndo | include/fast_io_core_impl/unsigned_extension.h:240-269 | `+=` and `-=` by the same operand undo each other, whichever comes first |
| WideNumber.UnsignedExtension.ShlAssign | include/fast_io_core_impl/unsigned_extension.h:382-402 | `<<=` multiplies by 2^shift modulo 2^(4h) for every shift amount, through all four branches |
| WideNumber.UnsignedExtension.ShrAssign | include/fast_io_core_impl/unsigned_extension.h:410-430 | `>>=` divides by 2^shift for every shift amount, through all four branches |
| WideMul.MulIsProduct | include/fast_io_core_impl/unsigned_extension.h:526-542 | The limbs summed column by column are the full product modulo 2^(4h), short by exactly b^3 (b the half-limb base) when column c1 loses its carry; overflow of c2 and c3 never shows |
| WideMul.ProductExactIff | include/fast_io_core_impl/unsigned_extension.h:526-542 | The product is exact modulo 2^(4h) if and only if a0*b1 + a1*b0 + high(a0*b0) stays below the limb base |
| WideMul.ProductModCube | include/fast_io_core_impl/unsigned_extension.h:526-542 | Modulo b^3 the product is exact for all operands |
| WideMul.SmallProductKeepsCarry | include/fast_io_core_impl/unsigned_extension.h:538 | No carry is lost while the low limbs multiply to less than b^3 |
| WideMul.LargestSquareLosesCarry | include/fast_io_core_impl/unsigned_extension.h:538 | Squaring the largest limb loses the carry at every width: a concrete wrong product |
| WideNumber.UnsignedExtension.MulAssign | include/fast_io_core_impl/unsigned_extension.h:526-542 | `a *= b` stores the product described by `MulIsProduct`, also when a and b are the same object |
| WideNumber.UnsignedExtension.MulLimbAssign | include/fast_io_core_impl/unsigned_extension.h:510-524 | `a *= b` for a one-limb b stores the same product as widening b would |
| WideMul.MulSmallExact | include/fast_io_core_impl/unsigned_extension.h:492-508 | With a multiplier of one half limb no column overflows: the product is exact modulo 2^(4h) for every operand |
| WideNumber.UnsignedExtension.MulSmallAssign | include/fast_io_core_impl/unsigned_extension.h:492-508 | `a *= U` for a 32-bit U is exact modulo 2^(4h) |
| WideMul.MulExtendExact | include/fast_io_core_impl/unsigned_extension.h:465-478 | The generic `mul_extend` is the exact double-width product, short by b^3 exactly when column c1 loses its carry |
| WideMul.MulHighIsHighLimb | include/fast_io_core_impl/unsigned_extension.h:479-490 | `mul_high` equals the high limb of `mul_extend` for all operands, although it sums column c1 in another order |
| WideMul.MulHighExactIff | include/fast_io_core_impl/unsigned_extension.h:479-490 | `mul_high` is the true high limb of the product if and only if column c1 keeps its carry; otherwise it is b too small |
| WideMul.LargestSquareLosesHigh | include/fast_io_core_impl/unsigned_extension.h:479-490 | The concrete case at every width: the high limb of the square of the largest limb comes out b too small |
| WideDiv.WordsRoundTrip | include/fast_io_core_impl/unsigned_extension.h:574-583 | A number copied out to 32-bit words reads back unchanged |
| WideDiv.ShortDivFits | include/fast_io_core_impl/unsigned_extension.h:579-580 | Every word quotient of the short division is below 2^32, because the running remainder is below the divisor |
| WideNumber.ShortDivide | include/fast_io_core_impl/unsigned_extension.h:576-582 | The word loop, in place: old value = new value * divisor + remainder, remainder < divisor |
| WideNumber.UnsignedExtension.InPlaceDivMod | include/fast_io_core_impl/unsigned_extension.h:571-585 | `in_place_div_mod` leaves the quotient and returns the remainder, for every non-zero 32-bit divisor |
| WideNumber.UnsignedExtension.Mod | include/fast_io_core_impl/unsigned_extension.h:593-606 | `%` by a 32-bit number returns the same remainder and leaves the number alone |
| WideNumber.MulDivUndo | include/fast_io_core_impl/unsigned_extension.h:492-508 | Multiplying and then dividing by the same small number gives the number back with remainder zero while the product does not wrap; dividing and then multiplying gives it back if and only if the remainder was zero |
| WideDiv.PrefixStep | include/fast_io_core_impl/unsigned_extension.h:557-562 | The prefix of the dividend after bit i is twice the prefix before it plus the bit |
| WideDiv.DivStep | include/fast_io_core_impl/unsigned_extension.h:559-566 | Doubling quotient and remainder, adding the bit and subtracting the divisor if it fits goes from quotient and remainder of one prefix to those of the next, and nothing exceeds the new prefix |
| WideNumber.DivStepFits | include/fast_io_core_impl/unsigned_extension.h:559-565 | No intermediate value of a step wraps: `remainder <<= 1` never drops a bit, whatever the divisor |
| WideNumber.DivModStep | include/fast_io_core_impl/unsigned_extension.h:559-566 | The loop body of `div_mod` on the mutable numbers, from one prefix to the next |
| WideNumber.DivMod | include/fast_io_core_impl/unsigned_extension.h:551-569 | For every dividend and every non-zero divisor `div_mod` returns quotient and remainder; for a zero divisor it returns the largest number and the dividend |
| WidePow.PowRunTracks | include/fast_io_core_impl/unsigned_extension.h:630-636 | Along every run of square-and-multiply, result plus error digit times b^3 is the accumulator times the power, modulo 2^(4h), where the error digit is computed from the carries that the multiplications lose |
| WidePow.PowExactIff | include/fast_io_core_impl/unsigned_extension.h:626-658 | `pow` is the power modulo 2^(4h) if and only if the lost carries cancel out, and it is the power modulo b^3 without any condition |
| WidePow.PowExactWhileCarriesKept | include/fast_io_core_impl/unsigned_extension.h:626-658 | A run in which no multiplication whose result is used loses a carry returns the power modulo 2^(4h) |
| WidePow.SmallPowExact | include/fast_io_core_impl/unsigned_extension.h:626-658 | A power below b^3 is computed exactly, although later unused squares may lose carries |
| WidePow.PowLosesCarry | include/fast_io_core_impl/unsigned_extension.h:626-658 | The square of the largest limb fits the result type and is computed wrongly, at every width |
| WidePow.PowWide | include/fast_io_core_impl/unsigned_extension.h:626-638 | The loop of `pow` with a two-limb exponent computes that run and terminates |
| WidePow.PowNative | include/fast_io_core_impl/unsigned_extension.h:640-658 | The loop of `pow` with a built-in exponent computes the same run |
| Numerals.NumeralUnique | include/fast_io_core_impl/unsigned_extension.h:663-695 | A number has exactly one numeral (digits of one case, right Horner value, no leading zero), so the two printers below are pinned down to the character |
| Numerals.DigitCharacters | include/fast_io_core_impl/unsigned_extension.h:679-692 | Digits below ten are the characters from 0 to 9; from ten on they are letters from A or from a, by the letter case asked for |
| Numerals.NumeralCharacters | include/fast_io_core_impl/unsigned_extension.h:676-693 | A numeral character by character: position i from the right is the character of n / base^i modulo base, every letter has the case asked for, there is no leading zero, and n is below base^length |
| Numerals.PaddedCharacters | helpers/it/uint128.cc:3-26 | Zero-padded digits character by character: position i from the right is the character of n / 10^i modulo 10 |
| BasePrinter.BufferHoldsAllDigits | include/fast_io_core_impl/unsigned_extension.h:674 | The digit array has room for one digit per bit in every base from 2 to 36 |
| BasePrinter.FillDigits | include/fast_io_core_impl/unsigned_extension.h:675-693 | The digit loop terminates, never passes the front of the array, and leaves the numeral at its end |
| BasePrinter.OutputBaseExtensionNumber | include/fast_io_core_impl/unsigned_extension.h:663-695 | The text handed to the stream is the numeral of the number, for every number, base 2 to 36 and letter case |
| TableGen.CalculateTable2 | include/fast_io_core_impl/integers/jiaendu/table_gen.h:28-41 | The loops generate table2: row n is the two digits of n |
| TableGen.CalculateTable3 | include/fast_io_core_impl/integers/jiaendu/table_gen.h:42-59 | The loops generate table3: three zero-padded digits, the fourth character unused |
| TableGen.CalculateTable4 | include/fast_io_core_impl/integers/jiaendu/table_gen.h:60-79 | The loops generate table4: row n is the four zero-padded digits of n |
| TableGen.CalculateTable5 | include/fast_io_core_impl/integers/jiaendu/table_gen.h:80-107 | The three runs of loops generate table5: the digits of n without leading zeros, null characters behind them |
| TableGen.CalculateOffset | include/fast_io_core_impl/integers/jiaendu/table_gen.h:6-16 | The loops generate the digit counts |
| Jiaendu.Table4Digits | include/fast_io_core_impl/integers/jiaendu/table_gen.h:60-79 | A table4 entry, as generated, is the zero-padded decimal text of its index |
| Jiaendu.LeadDigits | include/fast_io_core_impl/integers/jiaendu/table_gen.h:60-107 | The first offset characters of a table5 entry, as generated, are the numeral of its index; above 999 the table4 entry is |
| Jiaendu.MagicDivision | include/fast_io_core_impl/integers/jiaendu/jiaendu.h:166-168 | Multiplying by 3518437209 and shifting right by 45 is division by 10000 for every 32-bit number, without overflow |
| Jiaendu.OutputUnsigned | include/fast_io_core_impl/integers/jiaendu/jiaendu.h:70-209 | The 64-bit printer writes exactly the decimal numeral, returns its length, and leaves every other character of the buffer as it was, in all its branches |
| Jiaendu.OutputUnsignedPartial | helpers/it/uint128.cc:3-26 | Exactly 19 zero-padded digits for every value below 10^19, nothing else changed |
| Jiaendu.OutputUnsigned128 | helpers/it/uint128.cc:28-57 | The 128-bit printer writes exactly the decimal numeral of every value below 2^128 and returns its length, in all three branches |
| Utf8Tables.FirstOctetConsistent | helpers/utf_util/tablegen.cc:45-376 | For every octet the first-octet table agrees with the other three: its state is the transition out of BGN, its payload the octet under the mask of its category |
| Utf8Automaton.ErrAbsorbs | helpers/utf_util/tablegen.cc:345 | ERR is absorbing |
| Utf8Automaton.FromBegin | helpers/utf_util/tablegen.cc:342-356 | From BGN the automaton returns to BGN exactly through one well-formed character followed by an accepted rest |
| Utf8Automaton.AcceptsExactlyUtf8 | helpers/utf_util/tablegen.cc:320-356 | Language equality over every byte sequence: from BGN the run ends in BGN if and only if the sequence is a concatenation of characters of section 4 of RFC 3629 |
| Utf8Transcode.EncodedIsChar | include/fast_io_freestanding_impl/code_cvt/utf.h:89-129 | `get_code_units` turns every scalar value into one well-formed character whose payload bits (section 3 of RFC 3629) are the value |
| Utf8Transcode.CharIsEncoded | include/fast_io_freestanding_impl/code_cvt/utf.h:89-129 | Every well-formed character is the encoding of a scalar value |
| Utf8Transcode.Encode8Sums | include/fast_io_freestanding_impl/code_cvt/utf.h:89-129 | The encoded octets in plain arithmetic, range by range; nothing above 0x10FFFF |
| Utf8Transcode.DecodesCharacter | include/fast_io_freestanding_impl/code_cvt/utf.h:134-154 | Decoding with the tables succeeds exactly on a well-formed character, consumes it, and yields its code point |
| Utf8Transcode.NextIsCharacter | include/fast_io_freestanding_impl/code_cvt/utf.h:202-221 | One turn of the conversion loop, copying shortcut included, consumes exactly one character or fails exactly when there is none |
| Utf8Transcode.PrependAscii | include/fast_io_freestanding_impl/code_cvt/utf.h:185-186 | Copying a run of ASCII octets at once is what the scalar loop would do one octet at a time |
| Utf8Transcode.ConvertAsciiWithSse | include/fast_io_freestanding_impl/code_cvt/utf.h:23-67 | The 16-octet step stores 16 widened octets, eight at a time for two-byte units and four at a time for four-byte units, and advances over the leading ASCII run only |
| Utf8Transcode.TranscodesExactlyUtf8 | include/fast_io_freestanding_impl/code_cvt/utf.h:170-223 | The conversion succeeds if and only if its input is well-formed UTF-8 |
| Utf8Transcode.TranscodePreservesScalars | include/fast_io_freestanding_impl/code_cvt/utf.h:170-223 | What is converted is the UTF-8 encoding of some scalar values, and the output is the UTF-16 encoding of the same values |
| Utf8Transcode.TranscodesEncoded | include/fast_io_freestanding_impl/code_cvt/utf.h:170-223 | The UTF-8 encoding of any scalar values is converted to their UTF-16 encoding |
| Utf8Transcode.Utf8Joins | include/fast_io_freestanding_impl/code_cvt/utf.h:202-221 | The UTF-8 encoding of a text is that of its values, in order |
| Utf8Transcode.Utf16Joins | include/fast_io_freestanding_impl/code_cvt/utf.h:202-221 | and so is the UTF-16 encoding |
| Utf8Transcode.Rfc3629Example | include/fast_io_freestanding_impl/code_cvt/utf.h:170-223 | The first example of section 7 of RFC 3629 is converted to its four code points, and F0 90 8D 88 to the surrogate pair D800 DF48 |
| Utf8Transcode.SurrogatesReadBack | include/fast_io_freestanding_impl/code_cvt/utf.h:73-88 | Values above 0xFFFF become a high and a low surrogate from which the value can be read back; values below are no surrogates |
| Utf8Transcode.GetCodeUnits | include/fast_io_freestanding_impl/code_cvt/utf.h:73-88 | The units are stored at the destination position and the position advances past them |
| Utf8Transcode.AdvanceWithBigTable | include/fast_io_freestanding_impl/code_cvt/utf.h:134-154 | The pointer loop computes the decoder, including the octet count it consumes |
| Utf8Transcode.CodeCvtFromUtf8ToUtf16 | include/fast_io_freestanding_impl/code_cvt/utf.h:170-223 | Both loops on unsigned octets, with and without SSE, into a destination with one unit per octet: no write out of bounds, an exception exactly on ill-formed input, and otherwise the converted text |
| Utf8Transcode.CodeCvtFromSignedUtf8 | include/fast_io_freestanding_impl/code_cvt/utf.h:170-223 | The same loops on octets of type signed char, where every octet passes the ASCII test: what is stored, and exactly when the loop with SSE does not end |
| Utf8Transcode.SignedOutputIs | include/fast_io_freestanding_impl/code_cvt/utf.h:183-209 | With signed octets the loop with SSE does not end if and only if an octet from 0x80 up has 16 or more octets behind it; otherwise each octet gives one unit, sign-extended |
| Utf8Transcode.SignedConvertsIff | include/fast_io_freestanding_impl/code_cvt/utf.h:202-209 | With signed octets the conversion delivers the UTF-16 encoding of its input if and only if every octet is below 0x80, with and without SSE |
| Utf8Transcode.SignedMisconverts | include/fast_io_freestanding_impl/code_cvt/utf.h:183-209 | The concrete case: C3 A9 becomes FFC3 FFA9, and in front of 15 or more octets the loop with SSE does not end |
| Words.RotationsCancel | include/fast_io_crypto/speck.h:10-26 | Rotations by the same amount in opposite directions undo each other, for every width and amount |
| Words.AddSubCancel | include/fast_io_crypto/speck.h:12-23 | Wrapping addition and subtraction of the same word undo each other |
| Words.BytesRoundTrip | include/fast_io_crypto/speck.h:68-80 | Words stored as little-endian bytes read back unchanged |
| Words.ByteIs | include/fast_io_crypto/speck.h:68-80 | Stored byte i of a word is the word divided by 256^i, modulo 256 |
| Words.FourBytes | include/fast_io_crypto/rc6.h:18 | Four bytes read as a word, lowest first |
| Words.EightBytes | include/fast_io_crypto/speck.h:40 | Eight bytes read as a word, lowest first |
| Words.RotlIs | include/fast_io_crypto/speck.h:14 | Rotating left by r bits: x % 2^(w-r) * 2^r + x / 2^(w-r) |
| Words.RotrIs | include/fast_io_crypto/speck.h:11 | Rotating right by r bits: x % 2^r * 2^(w-r) + x / 2^r |
| Words.XorBits | include/fast_io_crypto/xor.h:38-39 | Bit k of an exclusive or is the sum of the two bits modulo 2 |
| Blocks.XorBlockCancels | include/fast_io_crypto/xor.h:10-41 | Xoring the same block in twice gives the block back |
| Blocks.XorBlockBits | include/fast_io_crypto/xor.h:10-41 | Bit k of byte i of the result is the sum modulo 2 of bit k of byte i of the operands |
| Blocks.XorAssign | include/fast_io_crypto/xor.h:12-41 | The in-place exclusive or of two 16-byte blocks, aliasing included |
| Speck.RoundEquations | include/fast_io_crypto/speck.h:10-17 | `speck_round` in plain arithmetic, with its rotations by 8 and 3 bits |
| Speck.BackUndoesRound | include/fast_io_crypto/speck.h:10-26 | `speck_back` undoes `speck_round` for all words |
| Speck.RoundUndoesBack | include/fast_io_crypto/speck.h:10-26 | and `speck_round` undoes `speck_back` |
| Speck.BlocksRoundTrip | include/fast_io_crypto/speck.h:62-104 | Decryption undoes encryption and encryption undoes decryption, for every key schedule, round count and block |
| Speck.EncryptionEquations | include/fast_io_crypto/speck.h:64-81 | Encryption round by round: which half of the block is which word, round i with round key i, and how the last words are stored |
| Speck.RegisterTurn | include/fast_io_crypto/speck.h:44 | A round keyed by the round number turns k_i and l_i into k_(i+1) and l_(i+m-1) of section 4.2 of the SIMON and SPECK paper (IACR ePrint 2013/404) |
| Speck.KeyEquations | include/fast_io_crypto/speck.h:42-60 | The recurrence in plain arithmetic, from the words of the key on |
| Speck.KeyWordIs | include/fast_io_crypto/speck.h:39-40 | Word i of the key, byte by byte |
| Speck.RunRegister | include/fast_io_crypto/speck.h:42-60 | The rotating register of two, three or four words produces exactly the indexed recurrence |
| Speck.Speck.constructor | include/fast_io_crypto/speck.h:36-61 | The key schedule holds k_0 to k_(rounds-1) of the recurrence and a zero behind them |
| Speck.Speck.Encrypt | include/fast_io_crypto/speck.h:64-81 | The encryption loop computes the block function |
| Speck.Speck.Decrypt | include/fast_io_crypto/speck.h:82-103 | The decryption loop computes its inverse |
| Speck.KeyRoundTrip | include/fast_io_crypto/speck.h:30-105 | An encrypting and a decrypting instance built from one 16-, 24- or 32-byte key undo each other on every block, in both directions |
| Rc6.MixEquation | include/fast_io_crypto/rc6.h:48-49 | The word that drives a round in plain arithmetic: x * (2x + 1) modulo 2^32, rotated left by 5 bits |
| Rc6.ScrambleEquation | include/fast_io_crypto/rc6.h:50-51 | Half a round in plain arithmetic: the exclusive or, rotated left by the other word modulo 32, plus the round key, modulo 2^32 |
| Rc6.RoundEquations | include/fast_io_crypto/rc6.h:47-57 | Which words a round scrambles, with which keys, and where they move |
| Rc6.EncryptionEquations | include/fast_io_crypto/rc6.h:36-61 | Encryption round by round: the four words of the block, the first two and last two round keys, round i with keys 2i + 2 and 2i + 3, and how the last words are stored |
| Rc6.ScrambleCancels | include/fast_io_crypto/rc6.h:50-51 | The data-dependent rotation with its xor and key addition is undone when the rotation words are the same |
| Rc6.RoundsCancel | include/fast_io_crypto/rc6.h:47-57 | A decryption round undoes an encryption round and the other way round: the rotation words are recomputed from words the round left unchanged |
| Rc6.BlocksRoundTrip | include/fast_io_crypto/rc6.h:34-90 | decrypt(encrypt(p)) = p and encrypt(decrypt(c)) = c for every round-key array, round count and block |
| Rc6.KeyWordIs | include/fast_io_crypto/rc6.h:17-18 | Word i of the key, byte by byte |
| Rc6.InitialKeyIs | include/fast_io_crypto/rc6.h:19-22 | Round key i before mixing is 0xB7E15163 + i * 0x9E3779B9 modulo 2^32 |
| Rc6.MixStepEquations | include/fast_io_crypto/rc6.h:27-31 | A mixing step in plain arithmetic: both rotations, and which entries are replaced |
| Rc6.ScheduleEquations | include/fast_io_crypto/rc6.h:17-32 | The schedule step by step: the initial keys, three passes over the longer array, and what is left at the end |
| Rc6.MixKeys | include/fast_io_crypto/rc6.h:24-32 | The mixing loop with its two running indices performs 3 * max(c, t) steps, step n on round key n mod t and key word n mod c |
| Rc6.Rc6.constructor | include/fast_io_crypto/rc6.h:15-33 | The constructor fills the round keys with that key schedule of the key words |
| Rc6.Rc6.Encrypt | include/fast_io_crypto/rc6.h:36-61 | The encryption loop with its word rotation computes the block function |
| Rc6.Rc6.Decrypt | include/fast_io_crypto/rc6.h:62-89 | The decryption loop computes its inverse |
| Rc6.KeyRoundTrip | include/fast_io_crypto/rc6.h:7-91 | An encrypting and a decrypting instance built from one key undo each other on every block, in both directions |
| ChaCha20.MixCancels | include/fast_io_crypto/chacha20.h:12-15 | One add-xor-rotate line of `qr` is invertible |
| ChaCha20.QrEquations | include/fast_io_crypto/chacha20.h:9-16 | `qr` in plain arithmetic, with its rotations by 16, 12, 8 and 7 bits |
| ChaCha20.QrCancels | include/fast_io_crypto/chacha20.h:9-16 | `qr` (section 2.1 of RFC 8439) and its inverse undo each other on all words |
| ChaCha20.ColumnRoundWords | include/fast_io_crypto/chacha20.h:27-30 | The first four calls apply `qr` to the four columns of the matrix of words |
| ChaCha20.DiagonalRoundWords | include/fast_io_crypto/chacha20.h:32-35 | The other four apply it to the four diagonals, wrapping around |
| ChaCha20.BlockEquations | include/fast_io_crypto/chacha20.h:18-40 | The block step by step: ten double rounds, then the input added |
| ChaCha20.AddedWord | include/fast_io_crypto/chacha20.h:37-38 | The addition is word by word modulo 2^32 |
| ChaCha20.RoundsCancel | include/fast_io_crypto/chacha20.h:24-36 | Any number of double rounds is a bijection on states |
| ChaCha20.BlockInverts | include/fast_io_crypto/chacha20.h:18-40 | Subtracting the input from the block output and running the quarter rounds backwards recovers the input, for every state |
| ChaCha20.QrInPlace | include/fast_io_crypto/chacha20.h:9-16 | `qr` on four distinct words of the array is QUARTERROUND of section 2.2 of RFC 8439 |
| ChaCha20.ChachaBlock | include/fast_io_crypto/chacha20.h:18-40 | `chacha_block` is the block function of section 2.3 of RFC 8439 on every state |
| Cbc.DecryptUndoesEncrypt | include/fast_io_crypto/cbc.h:23-39 | A decrypting instance fed the output of an encrypting instance with the same IV returns the plaintext, for any number of blocks, and both chained blocks are equal after every block |
| Cbc.EncryptUndoesDecrypt | include/fast_io_crypto/cbc.h:23-39 | The other direction |
| Cbc.EncryptionEquations | include/fast_io_crypto/cbc.h:25-31 | C_i = E(P_i xor C_(i-1)) with C_0 the IV, as in section 6.2 of NIST SP 800-38A |
| Cbc.DecryptionEquations | include/fast_io_crypto/cbc.h:32-38 | P_i = D(C_i) xor C_(i-1), likewise |
| Cbc.Cbc.constructor | include/fast_io_crypto/cbc.h:19-22 | The chained block starts as a copy of the IV |
| Cbc.Cbc.Process | include/fast_io_crypto/cbc.h:23-39 | One call overwrites text and chained block as one step of the mode does |
| Cbc.Exchange | include/fast_io_crypto/cbc.h:6-40 | Two instances in step over the calls themselves: the decrypting one returns every plaintext block, the ciphertext is the run of the encrypting one, and the chained blocks stay equal |
| CipherModes.SpeckCbcRoundTrip | include/fast_io_crypto/cbc.h:23-39 | Chained Speck: round trip in both directions for every key schedule, round count, IV and block sequence |
| CipherModes.Rc6CbcRoundTrip | include/fast_io_crypto/cbc.h:23-39 | Chained RC6, likewise |
| Ctr.SwapTwice | include/fast_io_core_impl/utils.h:25-48 | Swapping the bytes of a 64-bit number twice is the identity, so byte swapping is a bijection |
| Ctr.RunTwice | include/fast_io_crypto/ctr.h:35-49 | Two instances with equal initial state, applied in turn, give back any block sequence |
| Ctr.OutputEquations | include/fast_io_crypto/ctr.h:35-49 | The equation of the mode: output i is text i xored with the cipher of the nonce followed by the stored counter plus i modulo 2^64, in the byte order of the mode |
| Ctr.BigEndianByte | include/fast_io_core_impl/utils.h:25-48 | Byte k of a counter in big-endian order is the counter divided by 256^(7-k), modulo 256 |
| Ctr.Exchange | include/fast_io_crypto/ctr.h:6-50 | The same over the calls of two instances: every block comes back and the nonce blocks stay equal |
| Ctr.CounterAfter | include/fast_io_crypto/ctr.h:47-48 | After n calls the nonce is unchanged and the stored counter is its start plus n modulo 2^64 |
| Ctr.InputAfter | include/fast_io_crypto/ctr.h:37-45 | The cipher input of call n |
| Ctr.InputsDistinct | include/fast_io_crypto/ctr.h:35-49 | The cipher inputs of any 2^64 consecutive calls are pairwise distinct, in both byte orders |
| Ctr.InputsRepeat | include/fast_io_crypto/ctr.h:35-49 | and after exactly 2^64 calls they repeat |
| Ctr.LittleEndianCounts | include/fast_io_crypto/ctr.h:23-49 | In little-endian mode call n presents start + n |
| Ctr.LittleEndianOutput | include/fast_io_crypto/ctr.h:23-49 | From the constructor on, in little-endian mode: output i is text i xored with the cipher of the nonce followed by start + i |
| Ctr.BigEndianCountsIff | include/fast_io_crypto/ctr.h:23-49 | In big-endian mode call n presents start + n in big-endian order if and only if the start counter reads the same in both byte orders: the constructor stores it swapped and every call swaps it again |
| Ctr.BigEndianStartOne | include/fast_io_crypto/ctr.h:23-49 | The concrete case: a start counter of one is presented as 2^56 |
| Ctr.Ctr.constructor | include/fast_io_crypto/ctr.h:19-22 | The nonce is copied and the counter starts at zero |
| Ctr.Ctr.WithStart | include/fast_io_crypto/ctr.h:23-34 | The constructor with a start counter |
| Ctr.Ctr.Process | include/fast_io_crypto/ctr.h:35-49 | One call overwrites the text and advances the stored counter as one step of the mode does |
| OutputBuffer.WriteFitsIff | include/fast_io_core_impl/internal_temporary_buffer.h:66-77 | A `write` stays inside the storage if and only if the buffer is empty or everything fits in twice the capacity, since the new size ignores the held characters |
| OutputBuffer.LongPieceOverruns | include/fast_io_core_impl/internal_temporary_buffer.h:66-77 | The concrete overrun: one held character and a piece of twice the capacity |
| OutputBuffer.ReservedShape | include/fast_io_core_impl/print_scan.h:72-89 | Where an item with a reserve size goes, in plain numbers: when it fits, and what capacity and size it leaves |
| OutputBuffer.SmallPiecesFit | include/fast_io_core_impl/internal_temporary_buffer.h:54-108 | Pieces no longer than the capacity never overrun, however many came before |
| OutputBuffer.SmallCallsFit | include/fast_io_core_impl/internal_temporary_buffer.h:54-108 | The same over any run of put, write and both forms of print_control |
| OutputBuffer.PrintedJoins | include/fast_io_core_impl/internal_temporary_buffer.h:54-108 | What a run prints is what its calls print, in order |
| OutputBuffer.RunCalls | include/fast_io_core_impl/internal_temporary_buffer.h:54-108 | Over any run of those calls the buffer holds the concatenation of everything printed, whichever path each call took |
| OutputBuffer.TemporaryBuffer.constructor | include/fast_io_core_impl/internal_temporary_buffer.h:16-18 | A new buffer is empty with the static capacity |
| OutputBuffer.TemporaryBuffer.Grow | include/fast_io_core_impl/internal_temporary_buffer.h:54-64 | `ogrow` keeps the held characters and sets the capacity |
| OutputBuffer.TemporaryBuffer.Overflow | include/fast_io_core_impl/internal_temporary_buffer.h:81-87 | `overflow` doubles the capacity and appends the character |
| OutputBuffer.TemporaryBuffer.Put | include/fast_io_core_impl/overflow.h:21-33 | `put` appends one character on both paths |
| OutputBuffer.TemporaryBuffer.Write | include/fast_io_core_impl/internal_temporary_buffer.h:90-108 | `write` appends the text on both paths; ok tells exactly when the copy stays inside the storage |
| OutputBuffer.TemporaryBuffer.Reserve | include/fast_io_core_impl/overflow.h:7-13 | `oreserve` grants the position exactly when more than n characters of room are left |
| OutputBuffer.TemporaryBuffer.PrintControl | include/fast_io_core_impl/print_scan.h:63-100 | An item is appended whichever of the reserve, null-reserve and view paths runs |
| OutputBuffer.TemporaryBuffer.PrintControlFollowed | include/fast_io_core_impl/print_scan.h:102-194 | The same for an item followed by a character; `print_control_line` is the case of a line feed |
| OutputBuffer.Collected | include/fast_io_core_impl/print_scan.h:303-305 | What print collects in the temporary buffer is the concatenation of the items, unless a copy overruns; none does while every piece fits the static buffer |
| OutputBuffer.CollectedLine | include/fast_io_core_impl/print_scan.h:335-345 | The same for println and its line feed |
| BufferedOutput.Obuf.constructor | include/fast_io_freestanding_impl/iobuf.h:291-316 | A new buffered stream is cold |
| BufferedOutput.Obuf.Overflow | include/fast_io_freestanding_impl/iobuf.h:364-376 | `overflow` flushes a full buffer or sets up a cold one, then holds the one character |
| BufferedOutput.Obuf.Put | include/fast_io_core_impl/overflow.h:21-33 | `put` on the buffered stream: delivered plus held grows by the character |
| BufferedOutput.HeldAtBorders | include/fast_io_freestanding_impl/iobuf.h:414-460 | The borders of the branches of `write`: an exactly full buffer is kept, a cold piece of exactly the buffer size bypasses it |
| BufferedOutput.Obuf.Write | include/fast_io_freestanding_impl/iobuf.h:411-461 | `write` on the buffered stream, all five paths: delivered plus held grows by the text, and exactly as many characters stay in the buffer as the path taken leaves there |
| BufferedOutput.Obuf.Reserve | include/fast_io_core_impl/overflow.h:7-13 | `oreserve` on the buffered stream: granted exactly when more than n characters of room are left, never in a cold buffer |
| BufferedOutput.Obuf.PrintControl | include/fast_io_core_impl/print_scan.h:63-100 | An item reaches the buffered stream whole, whichever path runs |
| BufferedOutput.Obuf.PrintControlFollowed | include/fast_io_core_impl/print_scan.h:102-194 | The same for an item followed by a character |
| BufferedOutput.Obuf.Flush | include/fast_io_freestanding_impl/iobuf.h:477-485 | `flush` delivers what is held and empties the buffer |
| BufferedOutput.Obuf.Close | include/fast_io_freestanding_impl/iobuf.h:297-309 | The destructor delivers what is held |
| BufferedOutput.RunCalls | include/fast_io_freestanding_impl/iobuf.h:364-475 | Over any run of put, write and both forms of print_control, of any lengths, delivered plus held grows by exactly the printed text, in order |
| BufferedOutput.RunAndClose | include/fast_io_freestanding_impl/iobuf.h:291-475 | A whole run on a new stream of any buffer size ends in the handle as one text when the stream is closed |
| BufferedOutput.Handle.PrintControl | include/fast_io_core_impl/print_scan.h:90-99 | An item on an unbuffered handle is written whole |
| Printing.PrintDirect | include/fast_io_core_impl/print_scan.h:297-300 | print on a buffered stream is direct and delivers the items in order |
| Printing.PrintlnDirect | include/fast_io_core_impl/print_scan.h:320-346 | println on a buffered stream: direct for a single item with a reserve size and where every item is printable, through the temporary buffer otherwise; the items and a line feed are printed |
| Printing.PrintBuffered | include/fast_io_core_impl/print_scan.h:297-306 | print on an unbuffered handle: a single item directly, anything else collected and written at once |
| Printing.PrintlnBuffered | include/fast_io_core_impl/print_scan.h:320-346 | println on an unbuffered handle: a single item with a reserve size directly, anything else collected |
| Printing.PrintAgrees | include/fast_io_core_impl/print_scan.h:286-307 | A closed buffered stream of any size and an unbuffered handle have received the same characters for the same print, unless a copy into the temporary buffer overran; none does while every piece fits the static buffer |
| Printing.PrintlnAgrees | include/fast_io_core_impl/print_scan.h:309-347 | The same for println |
| InputStream.Matching | include/fast_io_core_impl/skip.h:18-46 | How many characters a skip drops: all before it match and the next one does not |
| InputStream.MatchingSplit | include/fast_io_core_impl/skip.h:18-46 | How the count behaves when the text is cut in two |
| InputStream.ConcatJoins | include/fast_io_freestanding_impl/iobuf.h:101-108 | Joining chunks keeps the order of the characters |
| InputStream.SkipDoneMeans | include/fast_io_core_impl/skip.h:18-46 | What a skip has done: it dropped a prefix of characters that all match, and the first one left does not |
| InputStream.SkipUntilMeans | include/fast_io_core_impl/skip.h:47-75 | For `skip_until`: no dropped character satisfies the predicate, and the first one left does |
| InputStream.LineCount | include/fast_io_core_impl/skip.h:164-189 | The count of a line stops at the first line feed, and nowhere else |
| InputStream.ChunkScanned | include/fast_io_core_impl/skip.h:23-36 | Scanning one chunk to its end or to the first character that does not match advances the skip on the whole text |
| InputStream.BufferedInput.Underflow | include/fast_io_freestanding_impl/iobuf.h:101-108 | `underflow` drops the chunk and loads the next; true exactly if characters arrived |
| InputStream.BufferedInput.SkipWhile | include/fast_io_core_impl/skip.h:21-37 | The buffer branch of `skip_while` drops exactly the leading matching unread characters, across chunks, terminates, and tells whether anything is left |
| InputStream.BufferedInput.SkipUntil | include/fast_io_core_impl/skip.h:50-66 | The same for `skip_until` |
| InputStream.BufferedInput.LineTurn | include/fast_io_core_impl/skip.h:160-176 | One turn of the buffer branch of `skip_line`: the line feed consumed, or the chunk used up and the next one loaded |
| InputStream.BufferedInput.SkipLine | include/fast_io_core_impl/skip.h:157-177 | The buffer branch of `skip_line` returns the number of characters before the line feed and consumes the line feed too |
| InputStream.StringView.RemovePrefix | include/fast_io_core_impl/istring_view.h:24-28 | `iremove_prefix` drops the first n characters |
| InputStream.StringView.SkipWhile | include/fast_io_core_impl/skip.h:38-45 | The generator branch of `skip_while` on a string view |
| InputStream.StringView.SkipUntil | include/fast_io_core_impl/skip.h:67-74 | The generator branch of `skip_until` on a string view |
| InputStream.StringView.SkipLine | include/fast_io_core_impl/skip.h:178-189 | The generator branch of `skip_line` on a string view |
| InputStream.Igenerator | include/fast_io_core_impl/igenerator.h:89-98 | `igenerator` loads a chunk if needed, changes nothing unread, and is live exactly if something is unread |
| InputStream.Increment | include/fast_io_core_impl/igenerator.h:14-39 | `++` drops one unread character and stays live exactly while something is unread, across chunk borders |
| InputStream.SkipWhileByGenerator | include/fast_io_core_impl/skip.h:38-45 | The generator loop over a chunked stream |
| InputStream.SkipUntilByGenerator | include/fast_io_core_impl/skip.h:67-74 | The generator loop of `skip_until` over a chunked stream |
| InputStream.SkipLineByGenerator | include/fast_io_core_impl/skip.h:178-189 | The generator loop of `skip_line` over a chunked stream |
| InputStream.SkipWhileAgrees | include/fast_io_core_impl/skip.h:18-46 | Chunk independence: buffer branch and both generator branches return the same answer and leave the same unread characters, for every predicate and every split of the text into chunks |
| InputStream.SkipUntilAgrees | include/fast_io_core_impl/skip.h:47-75 | The same for `skip_until` |
| InputStream.SkipLineAgrees | include/fast_io_core_impl/skip.h:154-190 | The same for `skip_line`: equal counts and equal unread characters |

## Left out

- OutputBuffer.TemporaryBuffer.Write: where the copy would leave the new storage the model stops with ok false and copies
  nothing, because the effect of writing out of bounds is not defined.
- BufferedOutput.Handle.Write: the handle delivers every character it is given; partial writes and failures of drivers are
  not part of this model.
- BufferedOutput.Obuf.Write: the branch for sources of another character width copies the same bytes and is not separate.
- WidePow.PowExactIff: the exact condition is the error digit followed along the run; `SmallPowExact` gives a condition a
  caller can check beforehand.
- Jiaendu.OutputUnsigned: only the 64-bit overload; the 8-, 16- and 32-bit branches are left out.
- Jiaendu.OutputUnsigned128: `compile_pow10<U,38>()` is taken as 10^38.
- Cbc.Cbc.Process: the block cipher is a function value; `CipherModes` supplies Speck and RC6.
- Ctr.Ctr.Process: likewise, on a little-endian host.
- InputStream.BufferedInput.Underflow: a read that delivers nothing ends the stream; a device that delivers characters
  after an empty read is not modelled.
- InputStream.BufferedInput.SkipUntil: `skip_space` passes `is_none_space`; the predicate is a parameter here.
- Limbs that are themselves two-limb numbers: limbs are natural numbers below the limb base, without the compiler's own
  128-bit type or the intrinsic branches for MSVC.
- `+= T`, `-= P` and the bitwise compound assignments of the wide integer: single-limb special cases.
- Host byte order and `memcpy` type punning: words are read and written as little-endian bytes.
- `fast_xor_assignment` for more than 16 bytes: Speck and RC6 need 16.
- AES (CPU instructions), GCM (empty), the parallel counter mode (unfinished), SHA and the block-cipher transformers
  (padding and compression are in files that are not part of this model).
- Both `discard` overloads and the sized branch of `transmit`.
- Mutex and status streams: locking around, and replacement of, the printing paths.
- Drivers, network, memory mapping, locale, processes, C interface, error tables: input and output, foreign calls or
  data.
