# libbase strings: UTF primitives, conversions, ASCII toolkit and IdType

This project models, in Dafny, the text layer of the `longlp::base`
library:

- **ICU UTF primitives** (`base/icu/utf.h`):
  - `U8Next` decodes one UTF-8 character.
  - The UTF-16 surrogate tests.
  - `U16GetSupplementary`.
  - `U16Length`.
  - The unchecked appenders `U8AppendUnsafe` and `U16AppendUnsafe`.
- **Conversion utilities** (`utf_string_conversion_utils`):
  - `IsValidCodepoint` and `IsValidCharacter`.
  - The three `ReadUnicodeCharacter` and three `AppendUnicodeCharacter` overloads.
  - The `Prepare*Output` helpers.
- **Conversion drivers** (`utf_string_conversion.cpp`):
  - `DoUTFConversion` from UTF-8, UTF-16 and UTF-32 into any destination unit type.
  - `SizeCoefficient`.
  - `UnicodeAppendUnsafe`.
  - `ASCIIToUTF8`, `ASCIIToUTF16` and `ASCIIToUTF32`.
- **The ASCII string toolkit** (`string_utils.internal.h` and its older duplicate `string_util_internal.h`, `string_utils.h`, `string_utils.cpp`):
  - Case mapping.
  - `CompareCaseInsensitiveASCII` and `EqualsCaseInsensitiveASCII`.
  - The two matchers.
  - The O(n) replace engine `DoReplaceMatchesAfterOffset`.
  - `ReplaceChars`, `RemoveChars`, `TrimString`, `TrimWhitespace` and `TrimWhitespaceASCII`.
  - The `IsASCII*` classifiers, `HexDigitToInt` and the whitespace predicates.
  - `TruncateUTF8ToByteSize`.
- **The constants** (`string_utils.constants.h`): the whitespace sets and the UTF-8 byte order mark. `string_utils.h` repeats the same definitions.
- **`IdType`** (`base/types/id_type.h`): a typed integer id with a null value, and its `Generator`.

One module per component, all files flat:

| file | module | models |
|---|---|---|
| `units.dfy` | `Units` | code-unit types (`char`, `char8_t`, `char16_t`, `char32_t`) and the C++ integer conversions |
| `icu_utf.dfy` | `IcuUtf` | the ICU primitives |
| `unit_string.dfy` | `UnitStrings` | `std::basic_string` as a class over an array buffer |
| `conversion_utils.dfy` | `UtfConversionUtils` | read, append, prepare |
| `conversion.dfy` | `UtfConversion` | the drivers and `SizeCoefficient` |
| `string_internal.dfy` | `StringInternal` | case mapping, comparison, classifiers, trimming |
| `replace.dfy` | `StringReplace` | the matchers and the replace engine |
| `string_utils.dfy` | `StringUtils` | the out-of-line wrappers and truncation |
| `constants.dfy` | `StringConstants` | the constant sets |
| `id_type.dfy` | `IdTypes` | `IdType` and `Generator` |

Code units are modelled as `int`. Each unit type has its range:

- `char` is signed, -128..127.
- `char8_t`, `char16_t` and `char32_t` are unsigned.

Signedness appears where the source depends on it:

- The comparison casts to the unsigned type.
- Mixed-type equality follows the C++ usual arithmetic conversions.
- `HexDigitToInt` casts to the result type.
- `ASCIIToUTF*` sign-extends a negative `char`.

The UTF-8 paths (U8Next, the UTF-8 read and append, and the drivers writing 8-bit units) see a `char` unit as its byte value 0..255. This is the `bit_cast` to `uint8_t` the source applies, and `Units.AsUnsigned` is that conversion. A `char` destination of those paths therefore holds byte values, not the signed range of `Char`.

Well-formed UTF-8 is taken from Table 3-7 of the Unicode Standard, which is the same table as section 4 of RFC 3629. The surrogate arithmetic is from section 2 of RFC 2781.

Each stateful operation is a method specified against a function:

- **The conversion drivers** write into an `array` from a start offset. Their ensures give the whole new array contents as `EncodeAll(t, DecodeUTF*(src, 0))` spliced in. `success` holds exactly when the source is valid.
- **The replace engine** rewrites a `UnitString` in place. It is specified by `Replaced`, a left-to-right, non-overlapping replacement that never rescans inserted text. It keeps its buffer whenever the old capacity holds the result.
- **`Generator`** is a class whose counter is the `n`-th value of `NthId`.

## Model

| member | source | states |
|---|---|---|
| IcuUtf.U8Next | include/base/icu/utf.h:34-49 | One read consumes 1 to 4 bytes and never passes the length bound, or the buffer for a NUL-terminated read. |
| IcuUtf.U8NextSound | include/base/icu/utf.h:34-49 | A result other than -1 is a Unicode scalar value, and the bytes consumed are exactly its UTF-8 encoding. |
| IcuUtf.U8NextOfEncoding | include/base/icu/utf.h:34-49 | On the encoding of any scalar value inside the bound, U8Next returns that code point and moves the offset just past it. |
| IcuUtf.U8NextOfAnyEncoding | include/base/icu/utf.h:34-49 | The same for every scalar value at once, whatever its encoded length. |
| IcuUtf.U8NextMaximalSubpart | include/base/icu/utf.h:34-49 | A success consumes one well-formed sequence. A failure yields -1 and skips exactly the maximal subpart (definition D93b): the longest prefix of a well-formed sequence, at least one byte. |
| IcuUtf.WellFormedByLead | include/base/icu/utf.h:34-49 | A byte sequence is well-formed, or a well-formed prefix, exactly when it fits the Table 3-7 row its lead byte selects. |
| IcuUtf.RowAgreesWithDecoder | include/base/icu/utf.h:34-49 | The decoder's lead-length and narrowed-second-byte tests coincide with the rows of Table 3-7. |
| IcuUtf.U8NextReadsOnlyUpToLength | include/base/icu/utf.h:34-49 | Bytes at or beyond the length bound never affect the result. |
| IcuUtf.U8NextAnyCoveringLength | include/base/icu/utf.h:34-49 | A successful read gives the same result under any bound that still covers the character. |
| IcuUtf.U8NextExamples | include/base/icu/utf.h:34-49 | Test vectors: F0 90 90 81 gives U+10401 and moves 1 to 5; the noncharacter U+FDD0 decodes; ED A0 81 and C0 80 fail after 1 byte; the truncated F3 BE fails after 2; with a negative length, NUL decodes to 0 and cuts a sequence short. |
| IcuUtf.U8Encode | include/base/icu/utf.h:81-84 | The bytes U8_APPEND_UNSAFE writes: 1 to 4 of them, a single byte exactly below 0x80, and continuation bytes after the lead. |
| IcuUtf.U8EncodeLength | include/base/icu/utf.h:81-84 | 2 bytes for 0x80..0x7FF, 3 for 0x800..0xFFFF, 4 for 0x10000..0x10FFFF. |
| IcuUtf.U8EncodeIsWellFormed | include/base/icu/utf.h:81-84 | The encoding of a scalar value is a well-formed Table 3-7 sequence. |
| IcuUtf.U8EncodeAsWritten | include/base/icu/utf.h:81-84 | The RFC 3629 bit layout: lead 0xC0/0xE0/0xF0 plus the high bits, then six bits per continuation byte. |
| IcuUtf.U8AppendUnsafe | include/base/icu/utf.h:81-84 | Writes the encoding at the offset, leaves every other cell as it was, and returns the offset advanced by the encoded length. No validation: a surrogate is written as it is. |
| IcuUtf.U16SurrogateClasses | include/base/icu/utf.h:53-70 | Lead (D800..DBFF) and trail (DC00..DFFF) units split the surrogates (D800..DFFF) between them; a single unit is neither. |
| IcuUtf.U16GetSupplementary | include/base/icu/utf.h:74-77 | A lead and a trail combine to a code point in 0x10000..0x10FFFF whose UTF-16 encoding is that very pair. |
| IcuUtf.U16EncodeThenGetSupplementary | include/base/icu/utf.h:74-77 | Combining the pair produced for a supplementary code point gives that code point back. |
| IcuUtf.U16Encode | include/base/icu/utf.h:95-98 | One unit, equal to the code point, exactly up to 0xFFFF; otherwise a lead followed by a trail. |
| IcuUtf.U16Length | include/base/icu/utf.h:88-91 | The number of units U16Encode produces: 1 exactly for 0..0xFFFF, 2 otherwise. |
| IcuUtf.U16AppendUnsafe | include/base/icu/utf.h:95-98 | Writes the UTF-16 units at the offset, leaves every other cell, and advances the offset by U16Length. |
| IcuUtf.EncodeExamples | include/base/icu/utf.h:81-98 | U+10000 gives D800 DC00 and U+10FFFF gives DBFF DFFF; U+D800 is written unchecked as ED A0 80; U+10401 is F0 90 90 81. |
| UtfConversionUtils.IsValidCodepoint | include/base/strings/utf_string_conversion_utils.h:22-31 | True exactly for scalar values: 0..0x10FFFF without the surrogates, so the -1 sentinel is rejected. |
| UtfConversionUtils.IsValidCharacter | include/base/strings/utf_string_conversion_utils.h:33-44 | True exactly for scalar values that are not noncharacters (FDD0..FDEF, or low 16 bits FFFE/FFFF); hence it implies IsValidCodepoint. |
| UtfConversionUtils.ReadUnicodeCharacterUTF8 | src/strings/utf_string_conversion_utils.cpp:14-30 | The index ends on the last byte consumed, never before its start. The result is true exactly when a scalar value was read, and then the bytes read are its encoding. A failure spans a maximal subpart. Any encoded scalar value at the index is read back. |
| UtfConversionUtils.ReadUnicodeCharacterUTF16 | src/strings/utf_string_conversion_utils.cpp:32-56 | True exactly for a non-surrogate unit or a lead followed by a trail; the units read are the encoding of the result. A lone trail, a final lead, or a lead without a trail gives false with the index and code point untouched. |
| UtfConversionUtils.ReadUnicodeCharacterUTF32 | src/strings/utf_string_conversion_utils.cpp:58-68 | The index stays put. The code point is the unit when it is below 0x8000_0000 and the unit minus 2^32 otherwise, which is the int32_t cast. The result is true exactly when the unit is a scalar value. |
| UtfConversionUtils.AppendUnicodeCharacterUTF8 | src/strings/utf_string_conversion_utils.cpp:72-95 | The output becomes the old contents plus the UTF-8 encoding, and the return value is the number of bytes added. |
| UtfConversionUtils.AppendUnicodeCharacterUTF16 | src/strings/utf_string_conversion_utils.cpp:97-111 | The output becomes the old contents plus the UTF-16 encoding (1 or 2 units), and the return value is that count. |
| UtfConversionUtils.AppendUnicodeCharacterUTF32 | include/base/strings/utf_string_conversion_utils.h:88-96 | Exactly one unit, the code point converted to char32_t, is appended, and 1 is returned. |
| UtfConversionUtils.AppendThenReadUTF8 | src/strings/utf_string_conversion_utils.cpp:14-95 | Appending a scalar value to an empty string and reading at 0 gives true, the same code point, and the index of the last byte. |
| UtfConversionUtils.AppendThenReadUTF16 | src/strings/utf_string_conversion_utils.cpp:32-111 | The same round trip for UTF-16. |
| UtfConversionUtils.AppendThenReadUTF32 | src/strings/utf_string_conversion_utils.cpp:58-68 | The same round trip for UTF-32, with the index staying at 0. |
| UtfConversionUtils.PrepareForUTF8Output | src/strings/utf_string_conversion_utils.cpp:115-131 | The output is left empty; the capacity reserved follows the first unit's ASCII-ness. |
| UtfConversionUtils.PrepareForUTF16Or32Output | src/strings/utf_string_conversion_utils.cpp:137-154 | The output is left empty; the capacity reserved follows the first byte's ASCII-ness. |
| UtfConversion.SizeCoefficient | src/strings/utf_string_conversion.cpp:26-73 | Between 1 and 4. SizeBoundUTF8/16/32 prove it bounds the destination units per source unit for the six Unicode-to-Unicode pairs. The *ToASCII lemmas prove the bound of 1 into ASCII for an all-ASCII source. |
| UtfConversion.SizeBoundUTF8 | src/strings/utf_string_conversion.cpp:26-73 | Converting UTF-8 never produces more than SizeCoefficient times the source length in destination units. |
| UtfConversion.SizeBoundUTF16 | src/strings/utf_string_conversion.cpp:26-73 | The same bound for a UTF-16 source, with coefficient 3 into UTF-8. |
| UtfConversion.SizeBoundUTF32 | src/strings/utf_string_conversion.cpp:26-73 | The same bound for a UTF-32 source: 4 into UTF-8, 2 into UTF-16. |
| UtfConversion.SizeBoundUTF8ToASCII | src/strings/utf_string_conversion.cpp:67-72 | A UTF-8 source whose bytes are all ASCII converts to at most one ASCII unit per byte, the coefficient 1. |
| UtfConversion.SizeBoundUTF16ToASCII | src/strings/utf_string_conversion.cpp:67-72 | A UTF-16 source whose units are all ASCII converts to at most one ASCII unit per unit. |
| UtfConversion.SizeBoundUTF32ToASCII | src/strings/utf_string_conversion.cpp:67-72 | A UTF-32 source whose units are all ASCII converts to at most one ASCII unit per unit. |
| UtfConversion.SizeCoefficientAsWritten | src/strings/utf_string_conversion.cpp:26-73 | Agrees with SizeCoefficient everywhere but UTF-16 to UTF-8, where the branch is dead. |
| UtfConversion.SizeCoefficientAsWrittenUndersizes | src/strings/utf_string_conversion.cpp:61-65 | The written coefficient 1 is too small: the one UTF-16 unit 0x0800 converts to 3 UTF-8 bytes. |
| UtfConversion.EncodeUnits | src/strings/utf_string_conversion.cpp:88-115 | The units UnicodeAppendUnsafe writes: 1 to 4, and the value itself for 32-bit units. |
| UtfConversion.UnicodeAppendUnsafe | src/strings/utf_string_conversion.cpp:88-115 | out[size..] receives the units of the code point for the destination width, and size grows by their count (exactly 1 for 32 bits). |
| UtfConversion.Replaced | src/strings/utf_string_conversion.cpp:21 | A decoded value is kept if IsValidCodepoint holds, otherwise it becomes U+FFFD; the result is always a scalar value. |
| UtfConversion.DecodeUTF8 | src/strings/utf_string_conversion.cpp:122-149 | The code points the UTF-8 driver appends: scalar values only, at most one per byte, and at least one while bytes remain (errors never truncate). |
| UtfConversion.DecodeUTF8Step | src/strings/utf_string_conversion.cpp:122-149 | Each U8Next step contributes its code point or one U+FFFD, and validity fails exactly at an invalid step. |
| UtfConversion.DoUTFConversionFromUTF8 | src/strings/utf_string_conversion.cpp:122-149 | The destination from the offset holds EncodeAll of DecodeUTF8 of the source, the rest is unchanged, the end offset is returned, and success holds iff every step was valid. |
| UtfConversion.ConvertSingle | src/strings/utf_string_conversion.cpp:159-166 | A non-surrogate unit is its own code point; a surrogate becomes U+FFFD. |
| UtfConversion.NextUTF16 | src/strings/utf_string_conversion.cpp:151-198 | The driver advances 2 units exactly at a lead-trail pair, else 1. |
| UtfConversion.DecodeUTF16 | src/strings/utf_string_conversion.cpp:151-198 | The code points the UTF-16 driver appends: scalar values, at most one per unit, at least one while units remain. |
| UtfConversion.ConvertAt | src/strings/utf_string_conversion.cpp:151-198 | One loop step advances 1 or 2 units. The decoding from here is the code point it appends followed by the decoding from the next index. The source is valid from here iff the step reports valid and the rest is valid. |
| UtfConversion.DecodeUTF16Last | src/strings/utf_string_conversion.cpp:151-198 | The final unit is converted on its own; an unpaired final surrogate becomes U+FFFD and invalidates. |
| UtfConversion.DoUTFConversionFromUTF16 | src/strings/utf_string_conversion.cpp:151-198 | The destination from the offset holds EncodeAll of DecodeUTF16, the rest is unchanged, and success holds iff the source is valid UTF-16. |
| UtfConversion.DecodeUTF32 | src/strings/utf_string_conversion.cpp:200-221 | Exactly one scalar value per source unit. |
| UtfConversion.DecodeUTF32Step | src/strings/utf_string_conversion.cpp:200-221 | Each unit contributes itself if IsValidCodepoint holds, otherwise U+FFFD, and validity fails exactly there. |
| UtfConversion.DoUTFConversionFromUTF32 | src/strings/utf_string_conversion.cpp:200-221 | The destination from the offset holds EncodeAll of DecodeUTF32, the rest is unchanged, and success holds iff every unit is a scalar value. |
| UtfConversion.DecodeUTF8OfEncoding | src/strings/utf_string_conversion.cpp:122-149 | Decoding the UTF-8 encoding of any scalar values gives them back and reports success. |
| UtfConversion.EncodeOfValidUTF8 | src/strings/utf_string_conversion.cpp:122-149 | Valid UTF-8 re-encodes to exactly itself. |
| UtfConversion.DecodeUTF16OfEncoding | src/strings/utf_string_conversion.cpp:151-198 | Decoding the UTF-16 encoding of any scalar values gives them back and reports success. |
| UtfConversion.EncodeOfValidUTF16 | src/strings/utf_string_conversion.cpp:151-198 | Valid UTF-16 re-encodes to exactly itself. |
| UtfConversion.DecodeOfValidUTF32 | src/strings/utf_string_conversion.cpp:200-221 | UTF-32 is valid iff every unit is a scalar value, and then it decodes to itself and re-encodes to itself. |
| UtfConversion.LoneLeadSurrogateToUTF8 | src/strings/utf_string_conversion.cpp:151-198 | D800 0041 converts to EF BF BD 41 and reports failure. |
| UtfConversion.Widened | src/strings/utf_string_conversion.cpp:259-275 | One unit per input unit, each in the destination range. |
| UtfConversion.WidenedValues | src/strings/utf_string_conversion.cpp:259-275 | Non-negative units are copied as they are; a negative char is sign-extended into the top of the destination type. |
| UtfConversion.ASCIIToUTF16 | src/strings/utf_string_conversion.cpp:259-263 | The output holds the widened input, and the result is true. |
| UtfConversion.ASCIIToUTF32 | src/strings/utf_string_conversion.cpp:265-269 | The output holds the widened input, and the result is true. |
| UtfConversion.ASCIIToUTF8 | src/strings/utf_string_conversion.cpp:271-275 | The output holds the widened input, and the result is true. |
| StringConstants.WhitespaceASCIIMembers | include/base/strings/string_utils.constants.h:16-25 | kWhitespaceASCII holds exactly TAB, VT, FF, SPACE, LF and CR. |
| StringConstants.WhitespaceUnicodeShape | include/base/strings/string_utils.constants.h:27-62 | The Unicode set has 25 distinct scalar values: the six ASCII ones first, then the 19 from U+0085 to U+3000. |
| StringConstants.WhitespaceNoCRLFMembers | include/base/strings/string_utils.constants.h:64-70 | The NoCRLF sets are the Unicode set without LF and CR. |
| StringConstants.WhitespaceUTF8Units | include/base/strings/string_utils.constants.h:56-58 | kWhitespaceUTF8 contains the UTF-8 encoding of each of the 25 code points, so byte-wise trimming also strips lone bytes such as 0x80. |
| StringConstants.WhitespaceInfraIsASCIIWithoutVT | include/base/strings/string_utils.constants.h:83-85 | kWhitespaceInfraASCII (WHATWG Infra Standard section 4.6) is kWhitespaceASCII without VT. |
| StringConstants.UTF8ByteOrderMarkAsWrittenIsWrong | include/base/strings/string_utils.constants.h:87-89 | The u8 literal of U+00EF U+00BB U+00BF is C3 AF C2 BB C2 BF, not the byte order mark. |
| StringConstants.UTF8ByteOrderMarkIsEncoding | include/base/strings/string_utils.constants.h:87-89 | The corrected constant EF BB BF is the UTF-8 encoding of U+FEFF. |
| StringInternal.ToLowerASCII | include/base/strings/string_utils.internal.h:24-29 | Changes a unit iff it is 'A'..'Z', adding 32; never yields an upper-case letter. |
| StringInternal.ToUpperASCII | include/base/strings/string_utils.internal.h:33-38 | Changes a unit iff it is 'a'..'z', subtracting 32; never yields a lower-case letter. |
| StringInternal.CaseMappingInverse | include/base/strings/string_utils.internal.h:24-38 | The two maps undo each other on letters and are idempotent; lowering after raising equals lowering. |
| StringInternal.CaseMappingKeepsUnit | include/base/strings/string_utils.internal.h:24-38 | The maps stay within every unit type's range. |
| StringInternal.ToLowerASCIIString | include/base/strings/string_utils.internal.h:43-55 | Same length, with ToLowerASCII applied unit by unit. |
| StringInternal.ToUpperASCIIString | include/base/strings/string_utils.internal.h:57-66 | Same length, with ToUpperASCII applied unit by unit. |
| StringInternal.CaseInsensitiveCompareASCII | include/base/strings/string_utils.h:67-73 | The functor holds iff the lowered units are equal, equivalently the raised ones. |
| StringInternal.CaseInsensitiveOrder | include/base/strings/string_utils.internal.h:78-111 | A value in {-1, 0, 1}; 0 only for equal lengths. |
| StringInternal.FoldedUnitInjective | include/base/strings/string_utils.internal.h:78-111 | The lowered unit cast to the unsigned type is equal for two units exactly when their lowered values are equal. |
| StringInternal.OrderByFirstDifference | include/base/strings/string_utils.internal.h:78-111 | At the first index whose lowered unsigned units differ, the smaller unit's side is the lesser string. |
| StringInternal.OrderByLength | include/base/strings/string_utils.internal.h:78-111 | Without a lowered difference in the common part, the lengths decide. |
| StringInternal.OrderAntisymmetric | include/base/strings/string_utils.internal.h:78-111 | Swapping the arguments negates the result. |
| StringInternal.CompareCaseInsensitiveASCII | include/base/strings/string_utils.internal.h:78-111 | The loop returns CaseInsensitiveOrder. |
| StringInternal.EqualsCaseInsensitiveASCII | include/base/strings/string_utils.internal.h:118-132 | True iff the lengths agree and each pair of lowered units is equal after the usual arithmetic conversions. |
| StringInternal.EqualsIffCompareZero | include/base/strings/string_utils.internal.h:78-132 | For one unit type, equality holds exactly when the comparison returns 0. |
| StringInternal.EqualsAcrossSignedness | include/base/strings/string_utils.internal.h:118-132 | A signed char 0xC3 equals char32_t 0xFFFFFFC3 but not 0xC3, nor char16_t 0xFFC3, nor char8_t 0xC3; 'A' equals 'a'. |
| StringInternal.ClassesPartitionASCII | include/base/strings/string_utils.internal.h:441-484 | Every ASCII unit is a control, a space, punctuation or alphanumeric; printable is exactly not control; punctuation is printable and not alphanumeric; alpha is exactly where the two case maps differ. |
| StringInternal.NonASCIIUnclassified | include/base/strings/string_utils.internal.h:422-490 | No unit outside 0..0x7F, negative chars included, is in any ASCII class. |
| StringInternal.HexDigitToInt | include/base/strings/string_utils.internal.h:492-509 | On a hex digit the value is in 0..15, and the digit is that position of "0123456789ABCDEF" or its lower-case twin. |
| StringInternal.HexDigitToIntInverse | include/base/strings/string_utils.internal.h:492-509 | Every value 0..15 is recovered from both its upper- and lower-case digits, for every unit type. |
| StringInternal.HexDigitToIntUnchecked | include/base/strings/string_utils.internal.h:492-509 | A non-digit is not rejected: 'g' gives 16; '!' gives -54 as a signed result and wraps for unsigned result types. |
| StringInternal.IsUnicodeWhitespace | include/base/strings/string_utils.internal.h:516-527 | True exactly for the 25 code points of the Unicode whitespace set. |
| StringInternal.IsWhitespace | include/base/strings/string_utils.internal.h:532-540 | Unicode whitespace for 16- and 32-bit units, ASCII whitespace for 8-bit units. |
| StringInternal.ASCIIWhitespaceIsUnicodeWhitespace | include/base/strings/string_utils.internal.h:422-527 | ASCII whitespace is Unicode whitespace, and the two agree below 0x80. |
| StringInternal.FindFirstNotOf | include/base/strings/string_utils.internal.h:364-404 | npos iff every unit is in the set; otherwise the first unit outside it. |
| StringInternal.FindLastNotOf | include/base/strings/string_utils.internal.h:364-404 | npos iff every unit is in the set; otherwise the last unit outside it, at or after FindFirstNotOf. |
| StringInternal.TrimStringView | include/base/strings/string_utils.internal.h:406-418 | The result is a contiguous piece of the input. |
| StringInternal.TrimStringViewIsTrimmed | include/base/strings/string_utils.internal.h:406-418 | The view equals stripping set units from exactly the requested ends. |
| StringInternal.TrimmedHasNoTrimUnitAtEdges | include/base/strings/string_utils.internal.h:364-418 | A non-empty trimmed result begins, or ends, with a unit outside the set on each requested side. |
| StringInternal.TrimString | include/base/strings/string_utils.internal.h:364-404 | The output is the trimmed view. Empty input gives kTrimNone, and input made only of set units gives the requested positions. Otherwise each side is reported iff it was requested and its end unit was in the set. |
| StringReplace.Matcher.Find | include/base/strings/string_utils.internal.h:135-159 | npos, or a position at or after pos where a match starts and ends inside the input. |
| StringReplace.FindIsFirst | include/base/strings/string_utils.internal.h:135-159 | No match starts between pos and the result (anywhere after pos when the result is npos). |
| StringReplace.SubstringAtIsOccursAt | include/base/strings/string_utils.internal.h:135-145 | The substring matcher's unit-by-unit test is exactly "the substring occurs here". |
| StringReplace.CharacterMatchExists | include/base/strings/string_utils.internal.h:148-159 | The character matcher finds something iff some unit of the input is in the set; an empty set finds nothing. |
| StringReplace.ReplacedFirst | include/base/strings/string_utils.internal.h:200-206 | kReplaceFirst replaces only the first match at or after the offset. |
| StringReplace.ReplacedAll | include/base/strings/string_utils.internal.h:172-333 | kReplaceAll keeps the text before the first match and replaces it and every later match, left to right without overlap. |
| StringReplace.ReplacedSameLength | include/base/strings/string_utils.internal.h:208-218 | With equal find and replace lengths, the length is unchanged. |
| StringReplace.ReplaceAllFromLength | include/base/strings/string_utils.internal.h:236-249 | The replaced tail's length is the old length plus matches times (replace length - find length), and the matches fit inside it. |
| StringReplace.ReplacedAllLength | include/base/strings/string_utils.internal.h:236-249 | The final length is old length + matches x (replace_length - find_length), counting the first match. |
| StringReplace.ReplacedLengthBound | include/base/strings/string_utils.internal.h:236-274 | The result is never longer than the input times (replace length + 1). |
| StringReplace.SubstringMatchesDoNotOverlap | include/base/strings/string_utils.internal.h:296-333 | Matches do not overlap: "11" in "111" is replaced once. |
| StringReplace.CountMatches | include/base/strings/string_utils.internal.h:236-249 | The counting pass returns the number of matches from the first on, and their total expansion. |
| StringReplace.OverwriteMatches | include/base/strings/string_utils.internal.h:208-218 | The equal-length path overwrites each match in the same buffer and yields the replace-all result. |
| StringReplace.AppendIntoNewBuffer | include/base/strings/string_utils.internal.h:251-274 | Building the result in a new buffer yields the replace-all result. |
| StringReplace.CompactMatches | include/base/strings/string_utils.internal.h:296-333 | The compaction loop, write offset never past read offset, yields the replace-all result in the same buffer. |
| StringReplace.GrownLength | include/base/strings/string_utils.internal.h:276-294 | When lengthening, the result is longer by exactly the counted expansion. |
| StringReplace.GrowMatches | include/base/strings/string_utils.internal.h:236-333 | The lengthening path (count, then shift the tail and compact, or use a new buffer) yields the replace-all result and keeps the buffer when the capacity suffices. |
| StringReplace.ResizeMatches | include/base/strings/string_utils.internal.h:220-333 | Both unequal-length paths yield the replace-all result, in the same buffer whenever it is large enough. |
| StringReplace.ReplaceFirstMatch | include/base/strings/string_utils.internal.h:200-206 | The string becomes the kReplaceFirst result. |
| StringReplace.ReplaceEveryMatch | include/base/strings/string_utils.internal.h:208-333 | The string becomes the kReplaceAll result, in the same buffer when its capacity holds it. |
| StringReplace.DoReplaceMatchesAfterOffset | include/base/strings/string_utils.internal.h:172-333 | Returns true iff matches are non-empty and one starts at or after the offset (else the string is unchanged). The string becomes Replaced, and no reallocation happens when the old capacity holds the result. |
| StringReplace.ReplacedCharacters | include/base/strings/string_utils.internal.h:337-355 | Replace-all with the character matcher replaces each unit of the set by the whole replacement. |
| StringReplace.ReplaceCharsNotRescanned | include/base/strings/string_utils.internal.h:337-355 | Inserted text is not searched again: "test" with 't' replaced by "test" is "testestest". |
| StringReplace.ReplaceChars | include/base/strings/string_utils.internal.h:337-355 | The output is each set unit replaced by the replacement. The result is true iff some input unit is in the set. Aliased input keeps its buffer when capacity suffices. |
| StringReplace.ReplaceEachRemoves | src/strings/string_utils.cpp:28-43 | Replacing by nothing removes exactly the set's units, and shortens the input iff one of them occurs. |
| StringUtils.RemoveChars | src/strings/string_utils.cpp:28-43 | ReplaceChars with an empty replacement: the output keeps exactly the units not in the set, and the result is true iff something was removed. |
| StringUtils.TrimString | src/strings/string_utils.cpp:62-73 | The output is the input trimmed at both ends, and the result is true iff an end unit was in the set (the kTrimAll result is not kTrimNone). |
| StringUtils.TrimWhitespaceView | src/strings/string_utils.cpp:99-103 | The view trims the type's kWhitespace set from the requested ends; what remains does not start or end with whitespace there. |
| StringUtils.TrimWhitespace | src/strings/string_utils.cpp:90-98 | The output is that view. Empty input gives kTrimNone, and all-whitespace input gives the requested positions. Otherwise the result has the leading (trailing) bit exactly when that side was requested and the first (last) unit is whitespace. |
| StringUtils.KeptCodePointsEncoding | src/strings/string_utils.cpp:99-104 | The code points a whitespace trim keeps, re-encoded, are valid UTF-8 that decodes back to them. On valid input they are a contiguous piece of the input. |
| StringUtils.TrimWhitespaceUTF8Chars | src/strings/string_utils.cpp:99-104 | The corrected UTF-8 trim removes whole whitespace code points. Its result is valid UTF-8 and decodes to the trimmed code points, with no whitespace code point left on a requested end. On valid input the result is a piece of the input. |
| StringUtils.WhitespaceUTF8HoldsLoneBytes | include/base/strings/string_utils.constants.h:57-58 | The bytes E2, 80, A0 and A9 are each members of kWhitespaceUTF8 on their own. |
| StringUtils.TrimWhitespaceUTF8DropsDagger | src/strings/string_utils.cpp:99-104 | U+2020 DAGGER (E2 80 A0) is valid and not whitespace. The byte-wise trim removes all of it, and the code-point trim keeps it. |
| StringUtils.TrimWhitespaceUTF8CutsCafe | src/strings/string_utils.cpp:99-104 | "café" (63 61 66 C3 A9) is valid UTF-8. The byte-wise trailing trim shortens it, cutting into é, and the code-point trim keeps it whole. |
| StringUtils.TrimWhitespaceASCIIView | src/strings/string_utils.cpp:119-141 | The view trims kWhitespaceASCII from the requested ends. |
| StringUtils.TrimWhitespaceASCII | src/strings/string_utils.cpp:110-135 | The output is that view. Empty input gives kTrimNone, and an input that is all ASCII whitespace gives the requested positions. Otherwise the result has the leading (trailing) bit exactly when that side was requested and the first (last) unit is ASCII whitespace. |
| StringUtils.LastValidStart | src/strings/string_utils.cpp:167-181 | The backward scan's stop: -1 or a start from which a valid character is read within the budget, with no such start after it. |
| StringUtils.LastValidStartUnique | src/strings/string_utils.cpp:167-181 | Any start with that property is the one the scan finds. |
| StringUtils.TruncatedUTF8 | src/strings/string_utils.cpp:145-189 | A budget over the length keeps the input. Otherwise the result is a prefix no longer than the budget. It is empty iff no start below the budget reads a valid character; otherwise it ends where the last such character ends. |
| StringUtils.TruncateUTF8ToByteSize | src/strings/string_utils.cpp:145-189 | The output becomes TruncatedUTF8 of the input. |
| StringUtils.TruncatedUTF8Idempotent | src/strings/string_utils.cpp:145-189 | Truncating a result again to its own length leaves it unchanged. |
| StringUtils.TruncatedUTF8Examples | src/strings/string_utils.cpp:145-189 | Budget 0 gives empty output. ED A0 8F and the noncharacter EF B7 90 give empty output even when the budget covers them. A bad byte before the last valid character is kept. A cut final character is dropped. |
| IdTypes.DefaultFirst | include/base/types/id_type.h:50-65 | The default kFirstGeneratedId meets the template's requires clause; an unsigned invalid value at the maximum makes it 0. |
| IdTypes.StandardParams | include/base/types/id_type.h:111-118 | IdType32/U32/64/U64: invalid value 0, first generated id 1, requires clause met. |
| IdTypes.Default | include/base/types/id_type.h:77-78 | The default id is null and converts to false. |
| IdTypes.FromUnsafeValueRoundTrip | include/base/types/id_type.h:69-107 | GetUnsafeValue returns the value given to FromUnsafeValue; such an id is null iff the value is kInvalidValue; operator bool is not is_null. |
| IdTypes.Generator.constructor | include/base/types/id_type.h:82-98 | A fresh generator starts at kFirstGeneratedId, having handed out nothing. |
| IdTypes.Generator.GenerateNextId | include/base/types/id_type.h:82-98 | Returns the id of the counter's old value, which is the n-th id NthId(n), and post-increments the counter. An unsigned counter wraps to 0, and a signed 8- or 16-bit counter wraps to its minimum. |
| IdTypes.SignedNthId | include/base/types/id_type.h:82-98 | For a signed type the n-th generated id is kFirstGeneratedId + n. For `int8_t` and `int16_t` that sum is converted back to the type, so it wraps modulo 2^width. |
| IdTypes.UnsignedNthId | include/base/types/id_type.h:82-98 | For an unsigned type, within one period of 2^width ids, it is kFirstGeneratedId + n modulo 2^width. |
| IdTypes.SignedIdsIncrease | include/base/types/id_type.h:55-88 | Under the template's requires clause, signed ids strictly increase and are never null. For 8 and 16 bits this holds only until the counter wraps. |
| IdTypes.NarrowSignedReachesInvalid | include/base/types/id_type.h:82-98 | A signed 8- or 16-bit generator wraps past its maximum, and after 2^width ids minus (first - invalid) it hands out kInvalidValue, a null id. |
| IdTypes.NarrowSignedExamples | include/base/types/id_type.h:82-98 | An `int8_t` generator with invalid value 0 hands out 127 as its 127th id, then -128, and its 256th id is the null id 0. |
| IdTypes.UnsignedIdsNotNullBeforeWrap | include/base/types/id_type.h:82-103 | Unsigned ids are never null until the counter wraps round to kInvalidValue. |
| IdTypes.GeneratorExamples | include/base/types/id_type.h:50-98 | With uint32 and invalid value 0xFFFFFFFF the ids are 0, 1, 2, ..., none null. With int32 and invalid -1 they are 0, 1, 2, .... IdType32 gives 1, 2, 3, .... |

## Left out

- ICU internals: U8_NEXT, U8_APPEND_UNSAFE and the UTF-16 macros come from ICU headers that are not part of this model. They are specified from Table 3-7 of the Unicode Standard, RFC 3629 and RFC 2781 rather than transcribed.
- IcuUtf.U8Next: a negative length (NUL-terminated input) requires a NUL byte at or after the offset; an unterminated buffer is undefined behaviour in the source.
- The UTF-16 driver calls lead and single-unit tests that utf.h does not declare. They are modelled as the usual ICU range tests (U16IsSurrogateLead, U16IsSingle).
- UtfConversion drivers: the source's refactoring passes a destination pointer plus offset. The model writes into an `array` from a start offset and returns the end offset, which is the evident intent. The caller sizes the array. SizeCoefficient times the source length is the proved bound between Unicode encodings, and into ASCII when the source is all ASCII.
- `UTF32ToUTF8`, `UTF32ToUTF16` and `UTF32ToASCII` have empty bodies, and the `UTFConversion` template calls undefined helpers with the wrong arity. No behaviour is modelled for them.
- Capacity and reservation heuristics: the `reserve` sizes are not modelled beyond the bounds stated on the Prepare helpers. The only capacity promise modelled is the replace engine keeping its buffer.
- UtfConversionUtils.ReadUnicodeCharacterUTF8 requires a source of at most INT32_MAX bytes. The source casts the view's length to int32_t. A longer view wraps to a cut-down or negative bound, and a negative bound makes U8Next read as if the input were NUL-terminated. That wrap is not modelled.
- UtfConversion.DoUTFConversionFromUTF8 requires a source of at most INT32_MAX bytes, for the same int32_t cast of the length. Past it, the source's loop still stops at `src.size()` while U8Next reads with the wrapped bound. That wrap is not modelled.
- StringReplace.DoReplaceMatchesAfterOffset requires the string and its result to stay below npos. The source would throw length_error there, or overflow size_t.
- StringReplace.ReplaceChars and StringUtils.RemoveChars require the input length to stay below npos, for the same reason.
- StringUtils.TrimString, StringUtils.TrimWhitespace and StringUtils.TrimWhitespaceASCII require the input length below npos, so that positions fit in size_t.
- Aliasing of input and output (`RemoveChars(s, x, s)`) is modelled as the input being equal to the output's contents. The model then states that the buffer is kept. Two names for one buffer are not modelled.
- StringUtils.TruncateUTF8ToByteSize requires a budget that either exceeds the input or fits in int32_t; the source only has a commented-out check for this.
- StringUtils.TruncateUTF8ToByteSize: the source passes its `int32_t` index to U8Next, whose offset parameter is a `size_t&`, and an `int32_t` cannot bind to that reference, so the function does not compile as written. The model follows the evident intent: the signed index is converted for the call and written back.
- IdTypes.Generator.GenerateNextId requires a signed 32- or 64-bit counter below its maximum, where the source's `next_id_++` would be undefined behaviour. A signed 8- or 16-bit counter is promoted to int, and C++20 converts the result back modulo 2^width. The model wraps it to the minimum, as the source does.
- IdTypes.SignedIdsIncrease requires, for 8- and 16-bit signed types, that the ids compared come before the wrap. Past it the ids decrease, as NarrowSignedReachesInvalid shows.
- IdTypes.DefaultFirst wraps `kInvalidValue + 1` for every unsigned width. For `uint8_t` and `uint16_t` at their maximum the source's template argument would not compile; the model does not capture that rejection.
- IdType's type marker, `StrongAlias` and its `Hasher`, the comparison operators, and the move-only nature of `Generator` are compile-time devices with no behaviour here.
- Lifetime helpers (`NoDestructor`, `AutoReset`, `VectorBuffer`), `PassKey`, the literal macros and the platform headers are not part of this model.
- `std::basic_string` is modelled by `UnitStrings.UnitString`: an array buffer, a size, and a capacity equal to the buffer length. The allocator's growth policy is a free choice in the model.

## Findings

| source | as written | input that shows it | evidently intended | confidence | as-written member | corrected member |
|---|---|---|---|---|---|---|
| src/strings/utf_string_conversion.cpp:61-65 | The branch commented "UTF-16 to UTF-8" tests UTF-32 to UTF-8 again, so UTF-16 to UTF-8 falls through to coefficient 1. | The single UTF-16 unit 0x0800 converts to 3 UTF-8 bytes, more than 1 x 1. | Coefficient 3 for UTF-16 to UTF-8. | not executed | UtfConversion.SizeCoefficientAsWrittenUndersizes | UtfConversion.SizeBoundUTF16 |
| include/base/strings/string_utils.constants.h:87-89 | kUTF8ByteOrderMark is the u8 literal of U+00EF U+00BB U+00BF, which is 6 bytes. | The constant's bytes are C3 AF C2 BB C2 BF. | The 3 bytes EF BB BF, the UTF-8 encoding of U+FEFF. | not executed | StringConstants.UTF8ByteOrderMarkAsWrittenIsWrong | StringConstants.UTF8ByteOrderMarkIsEncoding |
| src/strings/string_utils.cpp:99-104 | TrimWhitespace on UTF-8 trims single bytes that occur in kWhitespaceUTF8, which holds the bytes of multi-byte whitespace characters. | u8"café" (63 61 66 C3 A9) loses its final A9, a byte of U+2029, so the trailing trim cuts into é. U+2020 (E2 80 A0) is removed entirely. | Trim whole whitespace code points, so that valid UTF-8 stays valid. | not executed | StringUtils.TrimWhitespaceUTF8CutsCafe | StringUtils.TrimWhitespaceUTF8Chars |
