# UTF-8 utilities of utf8string, modelled in Dafny

This project models the byte-level UTF-8 engine of the `utf8string` library (`src/utf8util.cpp`). It proves properties of that model. The engine has four layers:

- **Classifying and decoding one codepoint.** The lead-byte classifiers, the byte count of the codepoint at an offset, the check that a whole codepoint is present, and the assembly of its value. U+FFFD is the fallback.
- **Display width.** The width of one codepoint and the test for a combining mark. The width table `mk_wcwidth` lives outside the engine and is a parameter here.
- **Whole-string scans.** The validity check, the codepoint count, the string width, and the scan that finds the byte offset of the n-th user-visible character.
- **Extraction and conversion.** The two substring operations, one counting characters and one counting codepoints, and the conversions between UTF-8 and codepoint sequences.

Bytes are `bv8` and codepoints are `bv32` (the source's `char32_t`). Masks and shifts are written as in the source.

Every loop of the source is a method with a loop, proved equal to a recursive function of the input. The properties are lemmas about those functions:

- validity and decodability agree;
- counts and widths add up over concatenation;
- encoding then decoding gives back every codepoint up to U+10FFFF, and the encoder's output is always valid;
- both substring operations return contiguous slices;
- the character substring never splits a character;
- on the encoder's output, both substring operations cut exactly at encoded codepoints.

The strings and checks of the repository's test program (`test/utf8test.cpp`) are restated as lemmas in `scenarios.dfy`. They follow from the general lemmas and are not computed byte by byte. The test file's non-ASCII literals appear in its text as their UTF-8 bytes read as Windows-1254 characters and encoded as UTF-8 again (Windows-1254 agrees with Windows-1252 on every byte of lines 54 and 59; the cards' lead byte F0 shows up as ğ, which only Windows-1254 gives) ("FranÃ§ais" at `test/utf8test.cpp:54` would be 11 bytes, and the Chinese literal at line 59 lacks the last byte 9D of 话). The model uses the intended UTF-8 strings, which the test's own expected sizes (9 and 9) confirm.

Modules:

| file | module | models |
|---|---|---|
| `decoder.dfy` | `Utf8Decoder` | classifiers, `_get_codepoint_byte_count`, `_is_valid_codepoint_at`, `_get_codepoint_at`, and the per-codepoint branch of `codepoints_to_utf8` |
| `width.dfy` | `Utf8Width` | `char_width`, `_is_combining_char` |
| `scanner.dfy` | `Utf8Scanner` | `is_valid_utf8`, `count_codepoints`, `string_width`, `_get_nth_character_byte_pos` |
| `codec.dfy` | `Utf8Codec` | `utf8_to_codepoints`, `codepoints_to_utf8` |
| `substring.dfy` | `Utf8Extract` | `utf8_substring`, `utf8_cp_substring`, `std::string::substr` |
| `scenarios.dfy` | `Utf8Scenarios` | the checks of `test/utf8test.cpp` |

Where the code behaves differently from what its comments and documentation suggest, the model follows the code:

- **Counting and width trust the lead byte.** `count_codepoints` and `string_width` take the length announced by a lead byte without checking the continuation bytes (`src/utf8util.cpp:268-278`, `242-252`). So a truncated or broken sequence still counts as one codepoint, and it adds the width of U+FFFD. The count is guaranteed to equal the number of decoded codepoints on valid input; on invalid input it may differ, as it does for the lone lead byte C3 (`Utf8Codec.TruncatedLeadCounted`, `Utf8Codec.CountIsDecodedLength`).
- **The empty result past the end is narrower than the codepoint count suggests.** `utf8_cp_substring` is empty when `pos` exceeds the codepoint count. When `pos` equals the count, the result is guaranteed empty on valid input. On invalid input it may hold what follows the last counted codepoint, such as continuation bytes or other bytes that cannot start a codepoint: for 61 80 the count is 1, yet the substring from codepoint 1 is 80 (`Utf8Extract.CpSubstringPastEnd`, `Utf8Extract.CpSubstringTrailingByte`).
- **The decoder is structural only.** It accepts overlong forms, surrogates and values up to 0x1FFFFF (`Utf8Decoder.OverlongAccepted`, `Utf8Decoder.SurrogateAccepted`, `Utf8Decoder.BeyondUnicodeAccepted`). So a decoded codepoint is not always in the Unicode range.

## Model

| member | source | states |
|---|---|---|
| Utf8Decoder.IsOneByte | src/utf8util.cpp:14-18 | a byte starts a one-byte codepoint exactly when it is below 0x80 |
| Utf8Decoder.IsTwoByteStart | src/utf8util.cpp:20-24 | a byte starts a two-byte codepoint exactly when it is in 0xC0..0xDF |
| Utf8Decoder.IsThreeByteStart | src/utf8util.cpp:26-30 | a byte starts a three-byte codepoint exactly when it is in 0xE0..0xEF |
| Utf8Decoder.IsFourByteStart | src/utf8util.cpp:32-36 | a byte starts a four-byte codepoint exactly when it is in 0xF0..0xF7 |
| Utf8Decoder.IsContinuation | src/utf8util.cpp:38-42 | a byte is a continuation byte exactly when it is in 0x80..0xBF |
| Utf8Decoder.CodepointByteCount | src/utf8util.cpp:44-75 | the count is 0 past the end, and 0, 1, 2, 3 or 4 for exactly the lead-byte ranges of each length; 0 for continuation bytes and 0xF8..0xFF |
| Utf8Decoder.IsValidCodepointAt | src/utf8util.cpp:77-101 | true exactly when the offset is inside the string, the lead byte announces k ≥ 1 bytes, all k bytes are present, and every byte after the lead is a continuation byte |
| Utf8Decoder.GetCodepointAt | src/utf8util.cpp:103-150 | the result is the value assembled from the lead payload and six bits per continuation byte, and U+FFFD whenever no well-formed codepoint starts at the offset |
| Utf8Decoder.DecodedRange | src/utf8util.cpp:113-149 | a well-formed 1-, 2-, 3- or 4-byte codepoint decodes below 0x80, 0x800, 0x10000 or 0x200000 respectively |
| Utf8Decoder.DecodeAtWindow | src/utf8util.cpp:103-150 | byte count, well-formedness and value depend only on the codepoint's own bytes |
| Utf8Decoder.DecodeAtPrefix | src/utf8util.cpp:103-150 | appending bytes does not change a well-formed codepoint |
| Utf8Decoder.DecodeAtSuffix | src/utf8util.cpp:103-150 | prepending bytes shifts byte count, well-formedness and value by the prefix length |
| Utf8Decoder.EncodeCodepoint | src/utf8util.cpp:391-416 | one codepoint emits 1, 2, 3 or 4 bytes by the thresholds 0x7F, 0x7FF, 0xFFFF and 0x10FFFF, and nothing above 0x10FFFF |
| Utf8Decoder.EncodeTwoBytes | src/utf8util.cpp:396-401 | the two emitted bytes are a two-byte lead and a continuation byte that reassemble to the codepoint |
| Utf8Decoder.EncodeThreeBytes | src/utf8util.cpp:402-408 | the three emitted bytes are a three-byte lead and two continuation bytes that reassemble to the codepoint |
| Utf8Decoder.EncodeFourBytes | src/utf8util.cpp:409-416 | the four emitted bytes are a four-byte lead and three continuation bytes that reassemble to the codepoint |
| Utf8Decoder.ContBytePayload | src/utf8util.cpp:413-415 | each emitted continuation byte is one, and its payload is the six bits of the codepoint it was cut from |
| Utf8Decoder.FourByteLead | src/utf8util.cpp:412 | the four-byte lead is one, and its payload is the codepoint's top three bits |
| Utf8Decoder.FourByteJoin | src/utf8util.cpp:409-416 | the lead payload and three six-bit pieces put back together give a codepoint up to 0x10FFFF |
| Utf8Decoder.DecodeEncodeCodepoint | src/utf8util.cpp:391-416 | the encoding of any codepoint up to 0x10FFFF is one well-formed codepoint spanning all its bytes that decodes back to it |
| Utf8Decoder.OverlongAccepted | src/utf8util.cpp:58-61 | C0 80 is accepted and decodes to 0: overlong forms are not rejected |
| Utf8Decoder.SurrogateAccepted | src/utf8util.cpp:62-65 | ED A0 80 is accepted and decodes to the surrogate D800 |
| Utf8Decoder.BeyondUnicodeAccepted | src/utf8util.cpp:66-69 | F7 BF BF BF is accepted and decodes to 0x1FFFFF, beyond the Unicode range |
| Utf8Width.CharWidth | src/utf8util.cpp:152-167 | the table's width when it is not negative; for a negative table value, -1 for BACKSPACE and 0 otherwise; the result is negative only for BACKSPACE with a negative table value |
| Utf8Width.IsCombining | src/utf8util.cpp:169-175 | never a combining mark below U+0300; from U+0300 on, exactly the codepoints of table width 0; a combining mark has width 0 |
| Utf8Scanner.IsValidUtf8 | src/utf8util.cpp:219-233 | the result is the validity of the whole string, a chain of well-formed codepoints from offset 0 to the end; the empty string is valid |
| Utf8Scanner.CountFrom | src/utf8util.cpp:261-282 | the number of codepoints counted from an offset is at most the number of bytes left, and 0 at or past the end |
| Utf8Scanner.CountCodepoints | src/utf8util.cpp:261-282 | the loop's count is the count of the whole string, and at most its length |
| Utf8Scanner.StringWidth | src/utf8util.cpp:235-256 | the loop's width is the sum of the character widths at every lead byte (U+FFFD's for a broken sequence), reduced modulo 2^64 as `size_t` arithmetic wraps |
| Utf8Scanner.UnitWidthIsCount | src/utf8util.cpp:240-253 | with a table that gives every codepoint width 1, the width scan and the codepoint count agree |
| Utf8Scanner.NthCharacterPos | src/utf8util.cpp:177-211 | the offset of the n-th character lies between the start offset and the string length (which character start it is: Utf8Scanner.NthCharacterPosCounts) |
| Utf8Scanner.GetNthCharacterBytePos | src/utf8util.cpp:182-211 | the loop returns the character scan's offset, which is at most the length and not before the start |
| Utf8Scanner.CharStartsIn | src/utf8util.cpp:189-199 | the number of character starts in a range of offsets is at most the range's length, and 0 for an empty range |
| Utf8Scanner.CharStartsSplit | src/utf8util.cpp:189-199 | the character starts of a range are those of its two halves added together |
| Utf8Scanner.NoCharStartInside | src/utf8util.cpp:189-201 | no character starts strictly inside a well-formed codepoint, since those bytes are continuation bytes |
| Utf8Scanner.CharStartsOverCodepoint | src/utf8util.cpp:189-201 | across one well-formed codepoint, only its first byte can be a character start |
| Utf8Scanner.NthCharacterPosCounts | src/utf8util.cpp:182-210 | the scan stops at the offset with exactly n - seen character starts between its start and that offset; when it reaches the end, the rest of the string holds at most n - seen character starts |
| Utf8Scanner.NthCharacterPosMonotone | src/utf8util.cpp:187-210 | a later character number never gives an earlier offset |
| Utf8Scanner.NthCharacterPosIsStart | src/utf8util.cpp:189-199 | an offset before the end is a character start: a well-formed codepoint that is not a combining mark, unless at offset 0 |
| Utf8Scanner.NthCharacterPosAtStart | src/utf8util.cpp:193-198 | character 0 counted from a character start is that start |
| Utf8Scanner.ValidFromSuffix | src/utf8util.cpp:223-230 | validity scanned inside an appended string is the validity of that string |
| Utf8Scanner.CountFromSuffix | src/utf8util.cpp:266-279 | the codepoint count scanned inside an appended string is the count of that string |
| Utf8Scanner.WidthFromSuffix | src/utf8util.cpp:240-253 | the width scanned inside an appended string is the width of that string |
| Utf8Scanner.ScanConcat | src/utf8util.cpp:219-282 | after a valid stretch, validity of the concatenation is validity of the second part, and counts and widths add |
| Utf8Scanner.ValidPrefixConcat | src/utf8util.cpp:219-282 | for a valid first part, the concatenation is valid exactly when the second part is, and codepoint counts and widths add |
| Utf8Codec.Utf8ToCodepoints | src/utf8util.cpp:361-380 | the loop's result is the decoded sequence: the value of each well-formed codepoint in order, with malformed bytes skipped one at a time |
| Utf8Codec.CodepointsToUtf8 | src/utf8util.cpp:385-420 | the loop's output is the concatenation of the per-codepoint encodings |
| Utf8Codec.EncodedSnoc | src/utf8util.cpp:389-417 | encoding one more codepoint appends its bytes |
| Utf8Codec.InRange | src/utf8util.cpp:409-416 | the kept codepoints are all at most 0x10FFFF, and nothing is dropped from an in-range sequence |
| Utf8Codec.EncodedDropsOutOfRange | src/utf8util.cpp:389-417 | codepoints above 0x10FFFF contribute nothing to the output |
| Utf8Codec.DecodeFromSuffix | src/utf8util.cpp:365-377 | decoding inside an appended string decodes that string |
| Utf8Codec.DecodeConcat | src/utf8util.cpp:365-377 | after a valid stretch, the decoded sequences add over concatenation |
| Utf8Codec.DecodeEncoded | src/utf8util.cpp:361-420 | the encoder's output is valid UTF-8 and decodes to exactly the in-range input codepoints |
| Utf8Codec.RoundTrip | src/utf8util.cpp:361-420 | in-range codepoints survive encoding and decoding unchanged; the encoding is valid and has as many codepoints as the input |
| Utf8Codec.CountIsDecodedLength | src/utf8util.cpp:261-282 | on valid input the codepoint count equals the number of decoded codepoints |
| Utf8Codec.ConcatValid | src/utf8util.cpp:219-282 | the concatenation of two valid strings is valid, and counts and decoded sequences add |
| Utf8Codec.EncodedAppend | src/utf8util.cpp:389-417 | the encoding of a concatenation is the concatenation of the encodings |
| Utf8Codec.EncodedAt | src/utf8util.cpp:389-417 | in the encoder's output, a well-formed codepoint starts at each input codepoint's offset, spans its encoding and decodes to it |
| Utf8Codec.EncodedSlice | src/utf8util.cpp:389-417 | the bytes between the offsets of codepoints i and j are the encoding of codepoints i..j |
| Utf8Codec.EncodedLength | src/utf8util.cpp:389-417 | in-range codepoints take between one and four bytes each |
| Utf8Codec.TruncatedLeadCounted | src/utf8util.cpp:266-279 | a lone lead byte C3 counts as one codepoint and adds U+FFFD's width, but decodes to nothing and is not valid |
| Utf8Extract.Substr | src/utf8util.cpp:299 | `substr(start, count)` is the slice from start, as long as the count or to the end, whichever is shorter |
| Utf8Extract.Utf8Substring | src/utf8util.cpp:284-300 | empty when the start character is at or past the end; otherwise a contiguous slice from the start character's offset; with npos, the whole suffix |
| Utf8Extract.Utf8SubstringCounts | src/utf8util.cpp:284-300 | a non-empty result has exactly `pos` character starts before it; with a finite count it covers at most `count` character starts, and exactly `count` when it ends before the end of the string; with npos it runs to the end |
| Utf8Extract.Utf8SubstringBoundaries | src/utf8util.cpp:284-300 | a non-empty result starts at a character start and ends at a character start or the end of the string; count 0 gives the empty string |
| Utf8Extract.Utf8SubstringPrefix | src/utf8util.cpp:292-299 | a result with a finite count is a prefix of the result for npos |
| Utf8Extract.Utf8SubstringMonotone | src/utf8util.cpp:292-299 | a larger finite count extends the result |
| Utf8Extract.SkipCodepoints | src/utf8util.cpp:304-321 | the codepoint walk never moves back, and stops at most three bytes past the end |
| Utf8Extract.CpSubstring | src/utf8util.cpp:302-356 | empty when the walk reaches the end first; otherwise a contiguous slice from the start offset; count 0 gives the empty string; with npos, the whole suffix |
| Utf8Extract.Utf8CpSubstring | src/utf8util.cpp:302-356 | the two loops return the codepoint substring |
| Utf8Extract.CpSubstringPrefix | src/utf8util.cpp:329-355 | a result with a finite count is a prefix of the result for npos |
| Utf8Extract.SkipPastCount | src/utf8util.cpp:308-321 | walking past more codepoints than are counted runs off the end |
| Utf8Extract.SkipCounts | src/utf8util.cpp:308-321 | the codepoint walk passes exactly the codepoints that codepoint counting counts: stopping inside the string it has passed `n` of them, and running to the end or beyond there were at most `n` left |
| Utf8Extract.CpSubstringCounts | src/utf8util.cpp:302-356 | a non-empty result starts after exactly `pos` counted codepoints; with a finite count it covers exactly `count` counted codepoints when it ends before the end of the string and at most `count` when it reaches the end; with npos it runs to the end |
| Utf8Extract.SkipValidToEnd | src/utf8util.cpp:308-321 | on valid input, walking past all the codepoints lands exactly on the end |
| Utf8Extract.CpSubstringPastEnd | src/utf8util.cpp:323-327 | the result is empty when pos exceeds the codepoint count, or equals it on valid input |
| Utf8Extract.CpSubstringTrailingByte | src/utf8util.cpp:323-327 | for 61 80 the count is 1, yet the substring from codepoint 1 is the trailing 80 |
| Utf8Extract.CodepointSlice | src/utf8util.cpp:329-355 | codepoints pos.. of a sequence, as many as requested or up to the end |
| Utf8Extract.SkipEncoded | src/utf8util.cpp:308-321 | on the encoder's output, each step of the codepoint walk passes exactly one encoded codepoint |
| Utf8Extract.EncodedOffsetEnd | src/utf8util.cpp:389-417 | the offset after the last encoded codepoint is the length of the encoding |
| Utf8Extract.EncodedOffsetBeforeEnd | src/utf8util.cpp:389-417 | the offset of an encoded codepoint other than the past-the-end one lies inside the encoding |
| Utf8Extract.SubstrEncoded | src/utf8util.cpp:299 | `substr` between two codepoint offsets of an encoding is the encoding of the codepoints between them |
| Utf8Extract.SubstrEncodedToEnd | src/utf8util.cpp:299 | `substr` with npos from a codepoint offset of an encoding is the encoding of the remaining codepoints |
| Utf8Extract.CpSubstringEncodedStart | src/utf8util.cpp:308-321 | on the encoder's output, the first loop stops at the offset of codepoint pos, or at the end |
| Utf8Extract.CpSubstringEncodedToEnd | src/utf8util.cpp:323-355 | on the encoder's output, a codepoint substring with npos from an existing codepoint is the encoding of the remaining codepoints |
| Utf8Extract.CpSubstringEncodedBounded | src/utf8util.cpp:329-355 | on the encoder's output, a codepoint substring with a finite count is the encoding of the codepoints pos up to pos + count, cut off at the end |
| Utf8Extract.CpSubstringEncoded | src/utf8util.cpp:302-356 | on the encoder's output, the codepoint substring is the encoding of the requested codepoint slice |
| Utf8Extract.NthCharIndex | src/utf8util.cpp:187-210 | the codepoint-level character scan stops at a character (index 0 or not a combining mark) or at the end, never before where it starts |
| Utf8Extract.NthCharacterPosEncoded | src/utf8util.cpp:187-210 | on the encoder's output, the byte-level character scan stops at the offset of the codepoint the codepoint-level scan finds |
| Utf8Extract.NthCharIndexPlain | src/utf8util.cpp:193-199 | without combining marks after index 0, each codepoint is one character |
| Utf8Extract.CharSlice | src/utf8util.cpp:284-300 | the kept codepoints are a contiguous slice from the start character's codepoint, and empty when that is past the end |
| Utf8Extract.Utf8SubstringEncodedStart | src/utf8util.cpp:286-287 | on the encoder's output, the start offset is the offset of the codepoint where the start character begins |
| Utf8Extract.Utf8SubstringEncodedToEnd | src/utf8util.cpp:288-299 | on the encoder's output, a character substring with npos is the encoding of the codepoints from the start character on |
| Utf8Extract.Utf8SubstringEncodedBounded | src/utf8util.cpp:288-299 | on the encoder's output, a character substring with a finite count is the encoding of the codepoints between the two character boundaries |
| Utf8Extract.Utf8SubstringEncoded | src/utf8util.cpp:284-300 | on the encoder's output, the character substring is the encoding of the codepoints between two character boundaries, so a combining mark stays with its base character |
| Utf8Extract.CharSlicePlain | src/utf8util.cpp:193-199 | without combining marks after the first codepoint, the character substring and the codepoint substring keep the same codepoints |
| Utf8Scenarios.EnglishEncoding | test/utf8test.cpp:49 | "English" is the encoding of its seven ASCII codepoints |
| Utf8Scenarios.NCedillaEncoding | test/utf8test.cpp:54 | the ç (U+00E7) takes the two bytes C3 A7 |
| Utf8Scenarios.FrancaisEncoding | test/utf8test.cpp:54 | "Français" is the encoding of its eight codepoints, ç taking C3 A7 |
| Utf8Scenarios.ChineseEncoding | test/utf8test.cpp:59 | the three Chinese characters take three bytes each |
| Utf8Scenarios.CardsEncoding | test/utf8test.cpp:64 | the two playing cards U+1F0A1 and U+1F0A2 take four bytes each |
| Utf8Scenarios.EnglishCount | test/utf8test.cpp:49-51 | size 7, valid, 7 codepoints |
| Utf8Scenarios.FrancaisCount | test/utf8test.cpp:54-56 | size 9, valid, 8 codepoints |
| Utf8Scenarios.ChineseCount | test/utf8test.cpp:59-61 | size 9, 3 codepoints |
| Utf8Scenarios.CardsCount | test/utf8test.cpp:64-66 | size 8, 2 codepoints |
| Utf8Scenarios.ConcatenationCount | test/utf8test.cpp:69-72 | the French and Chinese strings together have size 18 and 11 codepoints |
| Utf8Scenarios.MixedEncoding | test/utf8test.cpp:75 | the test's string f is the encoding of its 13 codepoints |
| Utf8Scenarios.MixedInRange | test/utf8test.cpp:75-77 | the 13 codepoints of f are all at most 0x10FFFF |
| Utf8Scenarios.MixedReEncode | test/utf8test.cpp:75-78 | f is valid, decodes to its 13 codepoints, and re-encoding them gives back f |
| Utf8Scenarios.MixedWithoutMarks | test/utf8test.cpp:80-92 | with non-zero table widths for the Chinese characters and cards, no codepoint of f after the first is a combining mark |
| Utf8Scenarios.MixedSubstringIsSlice | test/utf8test.cpp:80-92 | with non-zero table widths for the Chinese characters and cards, every character substring of f is the encoding of a codepoint slice |
| Utf8Scenarios.HeadEncoding | test/utf8test.cpp:82 | the expected "Franç" is the encoding of its five codepoints |
| Utf8Scenarios.MiddleEncoding | test/utf8test.cpp:84 | the expected piece is the encoding of U+8BDD and U+1F0A1 |
| Utf8Scenarios.LastEncoding | test/utf8test.cpp:88 | the expected last card is the four bytes F0 9F 82 A2 |
| Utf8Scenarios.MixedSubstringHead | test/utf8test.cpp:81-82 | characters 0..5 of f are "Franç" |
| Utf8Scenarios.MixedSubstringMiddle | test/utf8test.cpp:83-84 | two characters from character 10 are U+8BDD and U+1F0A1 |
| Utf8Scenarios.MixedSubstringEmpty | test/utf8test.cpp:85-86 | count 0 gives the empty string |
| Utf8Scenarios.MixedSubstringLast | test/utf8test.cpp:87-90 | from character 12, both count 100 and npos give the last card |
| Utf8Scenarios.MixedTailSlice | test/utf8test.cpp:91-92 | the codepoints of f from index 8 on are the Chinese characters and the cards |
| Utf8Scenarios.MixedSubstringTail | test/utf8test.cpp:91-92 | from character 8 to the end gives the Chinese characters and the cards |
| Utf8Scenarios.DiaeresisEncoding | test/utf8test.cpp:97 | the diaeresis U+0308 takes the two bytes CC 88 |
| Utf8Scenarios.AcuteEncoding | test/utf8test.cpp:102 | the acute accent U+0301 takes the two bytes CC 81 |
| Utf8Scenarios.AccentsEncoding | test/utf8test.cpp:102 | the two accents together take CC 88 CC 81 |
| Utf8Scenarios.SzEncoding | test/utf8test.cpp:97 | ß (U+00DF) takes the two bytes C3 9F |
| Utf8Scenarios.HelloInRange | test/utf8test.cpp:97-106 | the codepoints of the three test words are all at most 0x10FFFF |
| Utf8Scenarios.HelloEncoding | test/utf8test.cpp:97 | "Grü" + "ße" is the encoding of its six codepoints, U+0308 taking CC 88 and ß C3 9F |
| Utf8Scenarios.Hello2Encoding | test/utf8test.cpp:102 | the word with two accents is the encoding of its codepoints, U+0301 taking CC 81 |
| Utf8Scenarios.Hello3Encoding | test/utf8test.cpp:106 | the word starting with an accent is the encoding of its codepoints |
| Utf8Scenarios.HelloHeadSlice | test/utf8test.cpp:97-98 | with table width 0 for U+0308, the first three characters keep G, r, u and the diaeresis |
| Utf8Scenarios.HelloHeadBytes | test/utf8test.cpp:98 | those four codepoints encode as 47 72 75 CC 88 |
| Utf8Scenarios.HelloAfterMarkSlice | test/utf8test.cpp:99 | character 3 is the single codepoint ß |
| Utf8Scenarios.HelloTwoMarksSlice | test/utf8test.cpp:102-103 | with both accents of width 0, the first three characters keep both accents |
| Utf8Scenarios.HelloTwoMarksBytes | test/utf8test.cpp:103 | those five codepoints encode as 47 72 75 CC 88 CC 81 |
| Utf8Scenarios.HelloIsolatedMarkSlice | test/utf8test.cpp:106-107 | a leading accent is a character of its own, so three characters are the accent, G and r |
| Utf8Scenarios.HelloIsolatedMarkBytes | test/utf8test.cpp:107 | those three codepoints encode as CC 81 47 72 |
| Utf8Scenarios.CombiningHead | test/utf8test.cpp:97-98 | with table width 0 for U+0308, three characters of "Grü" + "ße" keep the diaeresis with the u |
| Utf8Scenarios.CombiningAfterMark | test/utf8test.cpp:99 | character 3 of the same word is ß (C3 9F) |
| Utf8Scenarios.CombiningTwoMarks | test/utf8test.cpp:102-103 | two combining marks both stay with the u |
| Utf8Scenarios.CombiningIsolatedMark | test/utf8test.cpp:106-107 | a combining mark at offset 0 counts as a character of its own |

## Left out

- The `utf8string` class (`src/utf8string.cpp`, `src/utf8string.h`) is not part of this model. It forwards to the functions modelled here, for example `substring` to `utf8_substring` (`src/utf8string.cpp:47-50`). So the test lines that call `hello.substring` are modelled as `Utf8Substring`.
- `mk_wcwidth`, the Unicode width table, is not part of this model. Every member that consults it takes it as a parameter `wcwidth`. The scenarios state only the table values they rely on.
- The `std::ostringstream` of `codepoints_to_utf8` and the `std::vector` of `utf8_to_codepoints` are sequences. Copying a vector by value has no observable effect and is not modelled.
- The test program's printing and pass/fail counters are not modelled.
- Default arguments are not modelled: every member takes all of its arguments explicitly. The defaults are `pos = 0` and `count = npos` for `utf8_substring` and `utf8_cp_substring` (`src/utf8util.h:51`, `58`) and `start_byte_pos = 0` for `_get_nth_character_byte_pos` (`src/utf8util.cpp:182`). A call that omits them is modelled by passing those values, as `Utf8Scenarios.MixedSubstringLast` passes `NPOS` for the call at `test/utf8test.cpp:89` that omits `count`.
- `utf8_to_utf32` and `utf32_to_utf8` are declared in `src/utf8util.h` but not defined in `src/utf8util.cpp`. They are not part of this model.
- Strict RFC 3629 conformance (rejecting overlong forms, surrogates and values above U+10FFFF) is not modelled because the code does not perform it. The decoder is modelled as written.
- `size_t` positions and counts are unbounded naturals, with `Utf8Extract.NPOS` (2^64 - 1) as the "to the end" sentinel. The additions `byte_pos + byte_count` (`src/utf8util.cpp:86`, `107`) cannot wrap in the model. A string long enough to make them wrap cannot exist in memory.
- Utf8Width.CharWidth: returns the integer -1 for BACKSPACE, where the source returns it as the `size_t` value 2^64 - 1. `Utf8Scanner.StringWidth` reduces the sum modulo 2^64, which gives the same total as the source's wrapping `size_t` addition.
- Utf8Extract.Utf8SubstringBoundaries: requires the string to be at most 2^64 - 1 bytes long (`|s| <= NPOS`), so that a byte count of npos always reaches the end of the string. The same holds for Utf8Extract.Utf8SubstringCounts, Utf8Extract.Utf8SubstringPrefix, Utf8Extract.CpSubstringPrefix, Utf8Extract.CpSubstringEncoded and Utf8Extract.Utf8SubstringEncoded.
- Utf8Extract.Utf8SubstringMonotone: compares finite counts only. Npos is covered by Utf8Extract.Utf8SubstringPrefix.
- Utf8Extract.Substr: requires `start <= |s|`, so `std::string::substr`'s `std::out_of_range` exception for a start past the end is not modelled. Neither caller can reach it: `utf8_substring` and `utf8_cp_substring` both return the empty string when the start offset is at or past the end (`src/utf8util.cpp:287-290`, `324-327`) before calling `substr`.
- Utf8Extract.SkipCodepoints: its bound allows the walk to stop up to three bytes past the end. This is what the source does when a lead byte near the end announces more bytes than remain. `utf8_cp_substring` then returns the empty string if this happens while finding the start, and `substr` clamps the length if it happens while finding the end.
