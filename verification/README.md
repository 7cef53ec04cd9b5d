# dashcore arithmetic and codecs, verified

A Dafny model of the parts of the `dashcore` crate that compute: 256-bit proof-of-work arithmetic,
BIP 158 block filters, base58, amount parsing and printing, and BIP 152 compact blocks. Machine
words are bounded naturals (`Words`), shifts are multiplications and divisions by powers of two
with explicit truncation, loops over buffers stay loops over arrays, and objects with fields stay
classes. Each loop is proved against a specification function or property that does not mention
it, and the theorems are about those specifications.

`dafny verify dfyconfig.toml` checks everything.

| modules | what they hold |
|---|---|
| `Arith`, `Bitwise`, `Words`, `Radix`, `Sequences`, `BitSeq`, `Sorting` | powers, "or"/"and" on naturals, word types, positional notation, bit strings, sorted lists |
| `Uint256`, `Division`, `Multiplication`, `DecimalFormat`, `FloatFormat`, `CompactTarget`, `CompactCode` | `dash/src/pow.rs` |
| `BitStream`, `BitFields`, `Golomb`, `Gcs`, `GcsWriter`, `GcsReader`, `BlockFilter` | `dash/src/bip158.rs` |
| `Base58`, `Base58Decode`, `Base58Encode`, `Base58Check` | `dash/src/base58.rs` |
| `Numerals`, `Padding`, `AmountParse`, `AmountFormat`, `Units`, `Denominations`, `Amount` | `dash/src/amount.rs` |
| `CompactSize`, `IndexCoding`, `CompactBlock` | `dash/src/bip152.rs` and the `VarInt` of `dash/src/consensus/encode.rs` |

## Main results

- A filter written for any run of added elements answers every query exactly: "any" is true if and
  only if some query shares its mapped value with an element, "all" if and only if every query
  does, so an added script is never missed. On arbitrary, even truncated, bytes the two merge loops
  give the answer determined by the readable values alone. The bytes depend only on the set added.
- `to_compact_lossy` returns the best of all 2^32 encodings from below; it is exact on decoded
  targets, monotone, and loses less than one part in 2^15; a code survives decoding and encoding
  exactly when it is normalised.
- `to_f64` builds the pattern of the nearest 53-bit number, ties to even, for all 2^256 inputs.
- `div_rem` divides, `mul_u64` multiplies with an exact overflow flag, and converting a target to
  work and back gives back the target under an exact condition that holds for 1 <= t < 2^128.
- Base58 encoding and decoding are inverse bijections, the decode buffer always suffices, and the
  checksummed decoder accepts exactly the checksummed encodings, for any digest function.
- The amount parser returns v exactly on the texts that denote v satoshis, each unit at its literal
  worth; every refusal has its reason at the first refused character; printed amounts are read
  back exactly when they fit in 63 bits; any formatting options give exactly the requested width
  and never change the value.
- A compact block and the answer to the request for its missing indexes rebuild the block; the
  differences sent are right exactly when no gap reaches 65536; the request codec accepts exactly
  the encodings of strictly increasing lists below 2^64 - 1.

## Where code, documentation and expectation differ

- `overflowing_mul` adds the product of the top word without shifting it and drops the overflow of
  the lower ones: `ProductRightIff` and `FlagRightIff` give the exact conditions on the operands
  under which product and flag are right, `ProductGoesWrong` inputs where each is wrong.
- The documentation of `Denomination::from_str` promises any mix of upper and lower case;
  `PromiseBroken` shows mixes that are refused, and `RecognisedExactly` says which are accepted.
- In units below a satoshi a zero no longer than the unit's precision goes through the integer
  parser of the standard library, so "+0" is accepted in pDASH and refused in nDASH (`PlusSign`).
- A numeral needs no digit: a lone dot is accepted and read as zero (`LoneDot`).
- `from_block` truncates differences to 16 bits; `CutDifference` shows a block where that changes a
  position, `SentIndexes` says exactly when it does not.
- The documentation of the request encoder names only the index 2^64 - 1 as a cause of a panic;
  any list that is not strictly increasing also causes one (`EncodeRequest`).

## Model

| member | source | states |
|---|---|---|
| Uint256.Bits | dash/src/pow.rs:421-427 | the count from the leading zeros of one half is the least n with value < 2^n, for every 256-bit value |
| Uint256.WrappingShl | dash/src/pow.rs:605-622 | the two-word shift multiplies by 2^(rhs mod 256) modulo 2^256, also across the word border |
| Uint256.WrappingShr | dash/src/pow.rs:631-648 | the two-word shift divides by 2^(rhs mod 256), rounding down |
| Uint256.ShlExact | dash/src/pow.rs:605-622 | a left shift whose product fits loses no bits |
| Uint256.OverflowingAdd | dash/src/pow.rs:503-520 | the sum modulo 2^256; the flag is raised if and only if the sum does not fit |
| Uint256.OverflowingSub | dash/src/pow.rs:527-531 | complement and increment subtract modulo 2^256; the flag means minuend < subtrahend |
| Uint256.WrappingInc | dash/src/pow.rs:586-596 | the successor modulo 2^256 |
| Uint256.MulWords | dash/src/pow.rs:436-449 | the carry loop over four words multiplies the number they spell; nothing exceeds 128 bits |
| Uint256.MulU64 | dash/src/pow.rs:436-453 | the product modulo 2^256, flagged if and only if it does not fit |
| Uint256.LessIsValLess | dash/src/pow.rs:315-317 | the derived order on halves is the order of the numbers |
| Division.SetBit | dash/src/pow.rs:464-496 | or-ing a clear quotient bit adds 2^shift |
| Division.DivStep | dash/src/pow.rs:464-496 | one turn keeps quotient * divisor + rest equal to the dividend and halves the bound on the rest |
| Division.DivRem | dash/src/pow.rs:464-496 | the shift-and-subtract loop ends with quotient and remainder of the two numbers, for every non-zero divisor |
| Division.MulThenDiv | dash/src/pow.rs:1763-1771 | multiplying by y > 0 without overflow and dividing by y returns the number and remainder zero |
| Division.Inverse | dash/src/pow.rs:364-381 | 2^256 / (x + 1) for every x >= 2, the maximum below |
| Division.InverseAntitone | dash/src/pow.rs:221-223 | a lower target never means less work |
| Division.InverseTwice | dash/src/pow.rs:98-100 | target to work to target is the identity if and only if an arithmetic condition on the target holds |
| Division.InverseInvolutive | dash/src/pow.rs:364-381 | the condition holds for every target from 1 to 2^128 - 1 |
| DecimalFormat.DigitsSuffice | dash/src/pow.rs:651-652 | 78 digits hold every 256-bit number |
| DecimalFormat.LastDigit | dash/src/pow.rs:660-662 | two divisions by ten give the last digit and the rest |
| DecimalFormat.FmtDecimal | dash/src/pow.rs:651-668 | the buffer filled from its end never underflows and yields the decimal text of the number |
| DecimalFormat.PadIntegral | dash/src/pow.rs:798-806 | the formatter's padding of the digits, sign and zeros included |
| DecimalFormat.Display | dash/src/pow.rs:798-806 | zero included, the decimal text under any formatter options |
| DecimalFormat.DisplaySound | dash/src/pow.rs:798-806 | the width is exact, the digits between the paddings read back as the number, and only zero starts with 0 |
| CompactTarget.DecodedIsRepresentable | dash/src/pow.rs:162-183 | whatever 32 bits are decoded, masked shifts included, the target is m * 256^k with a 23-bit m |
| CompactCode.DecodedMeans | dash/src/pow.rs:162-183 | the number of every code: leading bytes up to size 3, mantissa * 256^(size - 3) with the shift masked and cut above, zero when the sign bit is set |
| CompactCode.DecodesToZero | dash/src/pow.rs:162-183 | exactly the codes that decode to zero, those with a sign bit from size 3 on among them |
| CompactTarget.FirstBytes | dash/src/pow.rs:190-196 | the three leading bytes of the target, from either word |
| CompactTarget.ToCompactLossy | dash/src/pow.rs:189-204 | the code with its sign adjustment equals size and leading bytes defined from the value |
| CompactTarget.EncodingIsBest | dash/src/pow.rs:162-204 | no 32-bit encoding decodes to anything between the decoded encoding and the target |
| CompactTarget.ExactOnDecoded | dash/src/pow.rs:162-204 | encoding a decoded target loses nothing |
| CompactTarget.RoundingIsMonotone | dash/src/pow.rs:162-204 | a larger target never rounds to a smaller one |
| CompactTarget.RoundingLoss | dash/src/pow.rs:162-204 | less than t / 2^15 is lost |
| CompactCode.EncodedIsNormalised | dash/src/pow.rs:189-204 | the encoder puts out only normalised codes |
| CompactCode.CodeRoundTrip | dash/src/pow.rs:162-204 | decoding and encoding a code gives it back if and only if it has no sign bit, no leading zero byte or half byte to spare, no digits below the number's last byte, and a size within 256 bits |
| FloatFormat.ToF64Bits | dash/src/pow.rs:674-710 | the pattern denotes the number rounded to 53 bits, zero and a carry into the exponent included |
| FloatFormat.Dropped | dash/src/pow.rs:685-688 | or-ing the low 75 bits in keeps the highest dropped bit and whether any other is set |
| FloatFormat.Carry | dash/src/pow.rs:689-697 | the borrow trick yields one exactly above a half, or at a half with an odd mantissa |
| FloatFormat.RoundedMantissa | dash/src/pow.rs:682-697 | mantissa plus carry is the aligned number divided by 2^203, rounded to nearest even |
| FloatFormat.RoundTo53IsNearest | dash/src/pow.rs:674-710 | no number with 53 significant bits, fractions included, is closer |
| FloatFormat.TiesGoToEven | dash/src/pow.rs:689-697 | half way, the even significand is chosen (section 4.3.1 of IEEE 754-2008) |
| Multiplication.OverflowingMul | dash/src/pow.rs:539-557 | what the word loop returns, as arithmetic on the two numbers |
| Multiplication.AddPartial | dash/src/pow.rs:543-547 | each of the first three turns extends the product by one more word of the right operand, modulo 2^256 |
| Multiplication.ProductRightIff | dash/src/pow.rs:539-557 | the wrapped product is right if and only if x * (y / 2^192) vanishes modulo 2^256 |
| Multiplication.SmallRightOperand | dash/src/pow.rs:539-557 | right for every y < 2^192, where the flag is never raised |
| Multiplication.FlagRightIff | dash/src/pow.rs:539-557 | the flag is right if and only if: for y < 2^192, x * y fits; for x < 2^64, x * y fits or the two parts of y overflow even unshifted; else the top product or the last addition overflows |
| Multiplication.ProductGoesWrong | dash/src/pow.rs:539-557 | inputs with a wrong product and with a missed overflow |
| BitStream.BitStreamWriter.constructor | dash/src/bip158.rs:552-558 | a fresh writer holds the bits of the bytes already in the sink |
| BitStream.BitStreamWriter.Write | dash/src/bip158.rs:561-576 | the n low bits are appended whatever the alignment; the count returned is the growth of the output; more than 64 bits are refused and change nothing |
| BitStream.BitStreamWriter.WriteChunk | dash/src/bip158.rs:567-573 | one turn moves bits from the number to the stream; bits written and bits left keep their concatenation |
| BitStream.BitStreamWriter.Flush | dash/src/bip158.rs:579-588 | zero bits fill the last byte, at most one byte is written |
| BitStream.BitStreamReader.constructor | dash/src/bip158.rs:504-510 | a fresh reader has all bits of the input ahead |
| BitStream.BitStreamReader.Read | dash/src/bip158.rs:523-540 | the next n bits as a number and the rest left, or an error exactly when fewer are there |
| BitStream.BitStreamReader.ReadChunk | dash/src/bip158.rs:533-537 | one turn moves bits from the stream into the number, none lost or repeated |
| BitFields.WriteAll | dash/src/bip158.rs:561-588 | any run of writes and a flush emit the concatenated bits and fewer than 8 zero bits |
| BitFields.ReadAll | dash/src/bip158.rs:523-540 | bytes that hold the fields give back every field cut to its width, from any bit position |
| BitFields.WriteThenRead | dash/src/bip158.rs:523-588 | reading the same widths returns every value modulo 2^width, in order |
| Golomb.WriteOnes | dash/src/bip158.rs:465-470 | portions of 64 ones make the whole unary part |
| Golomb.Encode | dash/src/bip158.rs:456-474 | appends quotient in unary, a zero, and the p low bits; a parameter that is no shift distance fails before anything is written |
| Golomb.ReadOnes | dash/src/bip158.rs:481-484 | counts the ones before the first zero; fails at the end of the stream if there is none, or when the 64-bit counter does |
| Golomb.DecodeFrom | dash/src/bip158.rs:477-487 | value, failure and position of the stream determined by the bits ahead, for any input and parameter |
| Golomb.WrappedSum | dash/src/bip158.rs:485-486 | shifted quotient plus remainder never exceeds 64 bits |
| Golomb.DecodeCode | dash/src/bip158.rs:456-487 | decoding undoes encoding for every u64 and p < 64 and stops right behind it |
| Golomb.CodeMeaning | dash/src/bip158.rs:455-474 | the code of n is n / 2^p ones, a zero, and n % 2^p in p bits, the highest first |
| Golomb.EncodeList | dash/src/bip158.rs:456-474 | any list of numbers is written as its codes in order and fewer than 8 zero bits |
| Golomb.DecodeList | dash/src/bip158.rs:477-487 | as many numbers read from bytes that start with the codes are the list |
| Golomb.ListRoundTrip | dash/src/bip158.rs:456-487 | any list of u64 values comes back, whatever its order and sum |
| Gcs.MapToRange | dash/src/bip158.rs:381-383 | the value v of a hash h satisfies v * 2^64 <= h * nm < (v + 1) * 2^64, and lies below nm |
| Gcs.MappedQuery | dash/src/bip158.rs:297-298 | a query is scaled by its hash under the two keys in order |
| Gcs.ListAscends | dash/src/bip158.rs:286-330 | the values read from any bytes ascend |
| Gcs.ListOfDeltas | dash/src/bip158.rs:426-433 | coded differences of a sorted list read back as the list, without overflow |
| Gcs.FilterUnique | dash/src/bip158.rs:412-435 | the bytes of a filter are determined by its values |
| GcsWriter.MapAllBag | dash/src/bip158.rs:416-424 | the mapped bag does not depend on the order of the elements |
| GcsWriter.AnyListing | dash/src/bip158.rs:416-421 | sorting the mapped elements gives one list for a set, however it is walked |
| GcsWriter.MappedMember | dash/src/bip158.rs:416-424 | a value is written if and only if some element maps to it |
| GcsWriter.MappedExactly | dash/src/bip158.rs:416-420 | the values written are exactly the keyed hashes of the elements times nm / 2^64, rounded down |
| GcsWriter.MappedBelowRange | dash/src/bip158.rs:412-420 | every value of a set lies below its size times m |
| GcsWriter.WriteDeltas | dash/src/bip158.rs:426-431 | the loop appends the coded differences of the whole list, or fails with nothing written when p is no shift distance |
| GcsWriter.WriteBody | dash/src/bip158.rs:426-433 | the bytes appended to a prefix are the coded list with fewer than eight zero bits, and the count is theirs |
| GcsWriter.GcsFilterWriter.constructor | dash/src/bip158.rs:395-402 | starts with no elements |
| GcsWriter.GcsFilterWriter.AddElement | dash/src/bip158.rs:405-409 | adds to the set, except empty data |
| GcsWriter.GcsFilterWriter.MapElements | dash/src/bip158.rs:416-424 | in whatever order the set is walked, the sorted result is the same |
| GcsWriter.GcsFilterWriter.Finish | dash/src/bip158.rs:412-435 | appends the filter of the mapped set and returns the bytes written; fails exactly when size times m exceeds 64 bits, or behind the count when p is no shift distance |
| GcsReader.Seek | dash/src/bip158.rs:286-330 | the inner loop stops at the first value not below the query, or reports the end or the failure of the stream |
| GcsReader.Advance | dash/src/bip158.rs:286-330 | the next value of the stream is the next of the listing the bytes determine, or its failure |
| GcsReader.AnyPass | dash/src/bip158.rs:286-330 | the merge loop answers as if every query were looked up among the readable values |
| GcsReader.AllPass | dash/src/bip158.rs:333-377 | the same for all queries |
| GcsReader.MatchAny | dash/src/bip158.rs:286-330 | the answer on any bytes and any query list, independent of its order |
| GcsReader.MatchAll | dash/src/bip158.rs:333-377 | the answer on any bytes and any query list, independent of order and repetition |
| GcsReader.UnreadableCount | dash/src/bip158.rs:286-306 | bytes without a readable count answer like an empty filter |
| BlockFilter.ReadBack | dash/src/bip158.rs:286-435 | a reader finds exactly the written values in the written bytes |
| BlockFilter.QueryWritten | dash/src/bip158.rs:286-435 | on a written filter "any" and "all" never fail and are true exactly on shared mapped values |
| BlockFilter.ElementIsFound | dash/src/bip158.rs:286-435 | no false negatives |
| BlockFilter.Build | dash/src/bip158.rs:395-435 | any run of additions then finish: the filter of the non-empty elements, with its exact length |
| BlockFilter.BuildTwice | dash/src/bip158.rs:404-435 | order and repetition of additions do not change the bytes |
| BlockFilter.AddOutputScripts | dash/src/bip158.rs:190-198 | adds every output script except OP_RETURN ones |
| BlockFilter.AddInputScripts | dash/src/bip158.rs:201-220 | adds the script of every coin spent after the coinbase up to the first failed lookup, whose error it returns |
| BlockFilter.NewScriptFilter | dash/src/bip158.rs:124-139 | the bytes are the filter of exactly the block's scripts; otherwise the first lookup error or the overflow |
| BlockFilter.SpentByAre | dash/src/bip158.rs:206-212 | the coins looked up are exactly the inputs of every transaction but the first |
| BlockFilter.BlockScriptsAre | dash/src/bip158.rs:124-220 | a block commits to exactly the non-empty scripts that are an output not starting with byte 0x6a or the script of a coin spent behind the coinbase |
| BlockFilter.BlockKeys | dash/src/bip158.rs:178-187 | the two keys are the first sixteen bytes of the block hash, the low word first |
| BlockFilter.BlockFilterFindsScript | dash/src/bip158.rs:124-167 | every spendable output script and every spent script of a block makes its filter match |
| CompactSize.DecodeEncoded | dash/src/consensus/encode.rs:518-577 | every u64 is read back and the input behind it left alone |
| CompactSize.EncodeDecoded | dash/src/consensus/encode.rs:545-577 | only the shortest form is accepted: a decoded prefix is the encoding of its value |
| CompactSize.EncodedShape | dash/src/consensus/encode.rs:518-543 | one byte up to 252, otherwise a marker and the fewest of two, four or eight little-endian bytes |
| Base58.TablesAgree | dash/src/base58.rs:132-263 | alphabet and digit table are inverse to each other |
| Base58.AlphabetInOrder | dash/src/base58.rs:132-263 | the alphabet is the ASCII digits and letters without 0, I, O and l, in ASCII order |
| Base58.DecodeEncoded | dash/src/base58.rs:271-378 | every byte string is decoded from its encoding, leading zeros included |
| Base58.EncodeDecoded | dash/src/base58.rs:271-378 | every valid text is the encoding of what it decodes to |
| Base58.EncodedMeans | dash/src/base58.rs:330-369 | the digits spell the number of the bytes and start with as many zeros |
| Base58Decode.ScratchSuffices | dash/src/base58.rs:272-273 | 58^n <= 256^(1 + 11n/15) for every n |
| Base58Decode.ShiftIn | dash/src/base58.rs:286-291 | the in-place loop computes 58 * X + d and the final carry is zero, so the assertion holds |
| Base58Decode.LeadingOnes | dash/src/base58.rs:294-295 | one zero byte per leading digit zero |
| Base58Decode.Decode | dash/src/base58.rs:271-299 | the bytes of the number with one zero byte per leading 1, or the first byte outside the alphabet |
| Base58Encode.SmallVec.constructor | dash/src/base58.rs:104-110 | starts empty |
| Base58Encode.SmallVec.Push | dash/src/base58.rs:112-119 | appends across the border between array and heap |
| Base58Encode.SmallVec.Get | dash/src/base58.rs:121-124 | the chained iterator yields the contents in order |
| Base58Encode.SmallVec.Set | dash/src/base58.rs:126-129 | assignment through the chained iterator changes one element |
| Base58Encode.MultiplyIn | dash/src/base58.rs:348-352 | the loop over the digits computes 256 * X + byte, with its carry |
| Base58Encode.Absorb | dash/src/base58.rs:340-357 | the digits stay without a zero at the top |
| Base58Encode.ReadBackwards | dash/src/base58.rs:364-366 | the characters of the digits, most significant first |
| Base58Encode.FormatIter | dash/src/base58.rs:330-369 | the text is the canonical base-58 form, one leading 1 per leading zero byte |
| Base58Check.DecodeCheck | dash/src/base58.rs:308-328 | succeeds on exactly the checksummed encodings, with their data; every failure is named with its values |
| Base58Check.EncodeCheck | dash/src/base58.rs:388-391 | data and the first four digest bytes, encoded |
| Base58Check.CheckedBytes | dash/src/base58.rs:388-391 | the encoded bytes are the data and the first four bytes of its digest |
| AmountParse.EnoughCharacters | dash/src/amount.rs:208-210 | a text that is not too precise is longer than the precision, in characters as in bytes, and ends in that many zeros |
| AmountParse.ReadDigits | dash/src/amount.rs:256-283 | on a numeral within the allowed decimals and 64 bits, its number and decimals; otherwise the error of the first character at which a prefix stops being one |
| AmountParse.Scale | dash/src/amount.rs:285-292 | the value times 10^factor, or an error exactly when that does not fit; no step overflows earlier |
| AmountParse.ParseUnsigned | dash/src/amount.rs:233-295 | the outcome for the text after the sign, in each of the nine denominations |
| AmountParse.ParseSignedToSatoshi | dash/src/amount.rs:214-295 | the outcome for every string, lengths counted in UTF-8 bytes |
| AmountParse.ParsedExactly | dash/src/amount.rs:214-295 | sign and v are returned if and only if the text is at most 50 bytes and denotes exactly v satoshis within the decimals of the unit, or is a signed zero no longer than a sub-satoshi unit's precision |
| AmountParse.Refusals | dash/src/amount.rs:218-230 | the empty text and a lone minus sign are malformed, more than 50 bytes too large, everything else is refused for what follows the sign |
| AmountParse.FaultIsFirst | dash/src/amount.rs:256-283 | a refused text is refused for its first refused character: a second dot, another character, a number beyond 64 bits or a decimal too many |
| AmountParse.CoarseRefusal | dash/src/amount.rs:233-295 | from a satoshi up the reason is that character or a scaled value beyond 64 bits |
| AmountParse.FineRefusal | dash/src/amount.rs:237-251 | below a satoshi the reason is too much precision or that character of what is left |
| AmountParse.SignedZeroMeans | dash/src/amount.rs:244-247 | the integer parser yields zero exactly on one or more zeros behind at most one sign |
| AmountParse.ByteLenSnoc | dash/src/amount.rs:221-223 | lengths are counted in UTF-8 bytes |
| Units.Worth | dash/src/amount.rs:58-70 | n units and f / 10^k of one are read as v satoshis exactly when v is that many times the literal worth of the unit |
| Units.WholeUnits | dash/src/amount.rs:58-70 | n units are n times 100000000, 1000000, 100000, 100, 100 or 1 satoshis |
| Units.SmallUnits | dash/src/amount.rs:58-70 | units of which 10, 1000 or 10000 make a satoshi are read exactly in multiples of that |
| AmountFormat.NumberDenotes | dash/src/amount.rs:376-413 | the digits printed denote the amount exactly in every denomination and with every requested precision, which only adds zeros |
| AmountFormat.DecWidth | dash/src/amount.rs:343-353 | the length of the decimal text |
| Padding.RepeatChar | dash/src/amount.rs:360-365 | appends that many copies and nothing else |
| AmountFormat.StripZeros | dash/src/amount.rs:397-406 | the number left, padded to the digits left, prints the decimals without trailing zeros |
| AmountFormat.Normalize | dash/src/amount.rs:376-412 | the pieces that print the digits before and after the dot |
| AmountFormat.NumWidth | dash/src/amount.rs:413-429 | the computed width is the sum of the lengths of what will be written |
| Padding.Pads | dash/src/amount.rs:431-442 | the two sides make up the missing width: all left by default and for zeros, all right when left-aligned, halves with the odd one right when centred |
| Padding.WidthExact | dash/src/amount.rs:431-475 | whatever the options, the text is as wide as requested or needed, whichever is more |
| AmountFormat.WriteNumber | dash/src/amount.rs:458-469 | digits, dot, zero-padded decimals and trailing zeros make the number with its requested decimals |
| AmountFormat.FmtSatoshiIn | dash/src/amount.rs:368-476 | the text is padding, sign, zeros, number, denomination, padding, laid out from the real lengths of the pieces |
| AmountFormat.LayoutSound | dash/src/amount.rs:368-476 | the width is the maximum of requested and natural width; between the paddings the text denotes the amount, zero padding included; a plus sign exactly when asked for and not negative |
| Denominations.RecognisedExactly | dash/src/amount.rs:88-137 | a text is read as a denomination if and only if it is one of its names in any case but for the prefix, and spelled all lower, or in capitals behind the prefix, or "mSATs" and not "mSATS" |
| Denominations.PromiseBroken | dash/src/amount.rs:120-137 | two mixes of case that the documentation promises and the code refuses |
| Denominations.ConfusingExactly | dash/src/amount.rs:106-133 | exactly which texts are refused as confusing |
| Denominations.PrintedNames | dash/src/amount.rs:73-85 | the nine printed names |
| Denominations.NamesReadBack | dash/src/amount.rs:73-137 | every printed denomination is parsed as itself |
| Amount.SplitAtSpace | dash/src/amount.rs:297-299 | text splits at its first space, whatever counts as a letter |
| Amount.SplitAtLetter | dash/src/amount.rs:300-304 | text without a space splits before its first letter |
| Amount.NothingToSplit | dash/src/amount.rs:301 | text with neither has no denomination |
| Amount.AmountFromStrIn | dash/src/amount.rs:537-546 | the parser's outcome, negative and oversized values refused |
| Amount.SignedFromStrIn | dash/src/amount.rs:913-922 | the parser's outcome with its sign, oversized values refused |
| Amount.AmountFromStr | dash/src/amount.rs:552-555 | the same for text with a denomination |
| Amount.SignedFromStr | dash/src/amount.rs:928-931 | the same for text with a denomination |
| Amount.AmountReadsExactly | dash/src/amount.rs:537-546 | v is returned if and only if the unsigned text denotes v and v fits in 63 bits |
| Amount.SignedReadsExactly | dash/src/amount.rs:913-922 | v is returned if and only if the magnitude of the text denotes v under its sign |
| Amount.AmountRefusals | dash/src/amount.rs:537-546 | a value that was read is refused for its sign first, then for its size |
| Amount.PrintedIsParsed | dash/src/amount.rs:208-476 | every u64 printed in every denomination, with either sign, is parsed back |
| Amount.DenominationRoundTrip | dash/src/amount.rs:297-305 | text with a denomination splits back into the printed value and that denomination |
| Amount.UnspacedRoundTrip | dash/src/amount.rs:297-305 | a denomination right behind the printed value, without a space, is read back too |
| Amount.AmountRoundTrip | dash/src/amount.rs:537-640 | an amount survives printing and parsing, with or without its denomination, if and only if it is at most i64::MAX |
| Amount.SignedRoundTrip | dash/src/amount.rs:913-1018 | every signed amount but the smallest survives |
| Amount.PlusSign | dash/src/amount.rs:234-251 | a plus sign is accepted in one unit and refused in another |
| Amount.LoneDot | dash/src/amount.rs:256-283 | a dot without digits is read as zero |
| IndexCoding.SumsOfDiffs | dash/src/bip152.rs:265-319 | running sums undo differencing on every increasing list |
| IndexCoding.DiffsOfSums | dash/src/bip152.rs:265-319 | differencing undoes running sums on every list |
| IndexCoding.DiffsMeaning | dash/src/bip152.rs:265-276 | a difference counts the positions skipped since the index before |
| IndexCoding.EncodeRequest | dash/src/bip152.rs:266-276 | the bytes and their number; a panic exactly on lists that are not strictly increasing below 2^64 - 1 |
| IndexCoding.RequestLayout | dash/src/bip152.rs:266-276 | block hash, number of indexes, then the differences |
| IndexCoding.DecodeRequest | dash/src/bip152.rs:280-319 | the loop reads what the recursive reading of the bytes gives, first error included |
| IndexCoding.ReadEncodes | dash/src/bip152.rs:302-316 | whatever is accepted is strictly increasing, below 2^64 - 1, and re-encodes to the bytes consumed |
| IndexCoding.ReadEncoded | dash/src/bip152.rs:302-316 | every encodable list is read back and the input behind it left alone |
| IndexCoding.DecodesExactly | dash/src/bip152.rs:266-319 | a request is decoded if and only if the bytes start with its encoding, it is encodable, and it is within the size limit |
| IndexCoding.CountRefused | dash/src/bip152.rs:284-300 | too short, overflowing and oversized requests, with the numbers reported |
| IndexCoding.OverflowRefused | dash/src/bip152.rs:304-315 | a running sum that reaches 2^64 - 1 is refused, whatever comes behind it |
| CompactBlock.FromBlock | dash/src/bip152.rs:178-246 | succeeds if and only if the version is known and the list strictly increasing and in range; each failure has its exact cause; sent are the chosen transactions, stripped in version 1 and whole in version 2, with their differences modulo 65536, and the short ids of the rest in order |
| CompactBlock.ChosenAre | dash/src/bip152.rs:195-200 | chosen are the requested positions and the coinbase, in order |
| CompactBlock.MissingAre | dash/src/bip152.rs:193-233 | the short ids stand for exactly the positions that are not chosen |
| CompactBlock.ScanDone | dash/src/bip152.rs:193-237 | the greedy matching uses up the list exactly when it is good |
| CompactBlock.FromRequest | dash/src/bip152.rs:354-371 | the requested transactions in order under the requested block hash, or the first index out of range |
| CompactBlock.SentIndexes | dash/src/bip152.rs:203-206 | the sent differences add up to the chosen positions if and only if every difference is below 65536 |
| CompactBlock.CutDifference | dash/src/bip152.rs:203-206 | a position that is not recovered in a larger block |
| CompactBlock.SmallDifferences | dash/src/bip152.rs:203-206 | never in a block of at most 65536 transactions |
| CompactBlock.MissingSound | dash/src/bip152.rs:193-233 | every position is chosen or missing once, and the missing ones form an encodable request |
| CompactBlock.FillRebuilds | dash/src/bip152.rs:178-371 | filling the missing positions around the prefilled ones restores every transaction |
| CompactBlock.BlockRebuilt | dash/src/bip152.rs:178-371 | whenever no difference is cut, summed differences, request and fill-in give back the block, unchanged in version 2 |
| CompactBlock.SmallBlockRebuilt | dash/src/bip152.rs:178-371 | always for blocks of at most 65536 transactions |

## Left out

- GcsWriter.GcsFilterWriter.MapElements: walks the set in any order instead of the order of the ordered set; the standard sort is a function with its specification (`Sorting.Sort`).
- Base58.TablesAgree: the two tables are written as ranges of characters instead of 58 and 128 entries.
- DecimalFormat.PadIntegral: is the documented behaviour of the standard formatter, which is not part of the repository.
- IndexCoding.EncodeRequest: lists of 2^64 and more indexes are excluded by a precondition.
- IndexCoding.DecodeRequest: takes the in-memory size of a transaction as a parameter.
- Arithmetic overflow is the panic of a build with overflow checks (`Overflow`, `Panic`); the wrapping of builds without them is not modelled.
- SipHash, SHA-256, transaction ids and witness stripping are function parameters; scripts and transactions are opaque values.
- Which characters are alphabetic is a parameter of the amount splitter; the integer parser of the standard library is modelled only for the question whether it yields zero.
- Formatter widths and precisions are unbounded naturals.
- A receiver that matches short ids against its pool is not part of the source; the rebuilding theorems start from the requested transactions.
- The wire form of `HeaderAndShortIds` and `PrefilledTransaction`, difficulty and log2 on floats, float conversions of amounts, checked arithmetic on amounts, byte and hex conversions of 256-bit numbers.
- `dash/src/address.rs`, serde and bincode support, hashing, keys, the network client, FFI layers and build scripts: plumbing, or small and finite.
