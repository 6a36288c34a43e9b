# Searching, decoding and option text: a Dafny model

The repository configures a VPN server, and the C code it builds carries two libraries with it:
gnulib (`ocserv/Ocserv/gl/`) and AutoOpts (`ocserv/Ocserv/libopts/`). This project models the
algorithms of both whose correctness is not visible from the code, and proves what they promise.

| files | what they model |
|---|---|
| `Words`, `MaximalSuffix`, `Search`, `TwoWay`, `Memmem` | Two-Way substring search: the critical factorization theorem, the two maximal-suffix loops, the four search loops, `memmem` and `strcasestr` |
| `Machine`, `Memchr` | `memchr` a machine word at a time, on words of any width and byte order |
| `Base64Spec`, `Base64Alphabet`, `Base64`, `Base64Alloc`, `Base64Canonical` | Base64 (RFC 4648, section 4): the alphabet, the encoder, the streaming decoder with its carry buffer and roll-back, the allocating functions, and when decoding loses nothing |
| `IntProps`, `TightBound` | the range overflow checks, evaluated in the arithmetic that they guard, and the bound on decimal digits with the first place where it is not tight |
| `CookSpec`, `Cook`, `CookWritten`, `CookQuote` | the in-place cooking of quoted strings, against a lexer on unchanging text, and the ways of quoting that it undoes |
| `SetSpec`, `SetNames`, `SetMembers`, `SetRoundTrip`, `SetAlgebra`, `SetTexts`, `SetReadable` | set membership options: printing a mask, parsing it, what a text of members means, and when the source defines that |
| `OptionValues` | the stable sort of nested values and the two lookups that depend on it |
| `FileScan` | the order in which configuration files are loaded, and the direction in which an option takes effect |
| `Duration`, `ClockForm`, `DurationText` | durations such as `2 d 3 h` and `1 d 2:30`, added up without an overflow |
| `CTypes`, `CText`, `Arith` | bytes, `size_t`, C strings, character classes, and facts about products and quotients |

Code that works on buffers, indices and descriptors is modelled by methods on arrays and classes,
each proved equal to a function or a predicate on values; the lemmas are about those. In the search
`size_t` has 64 bits and wraps around, so that `SIZE_MAX` plays the part of -1 as in the source.
Machine words, masks, overflow ranges and `time_t` have any width.

Where the code and its comments differ, the model follows the code:

- `base64_encode_alloc` says that a wrap-around of `inlen + 2` makes `outlen` 0; it makes it 1
  (`EncodeSizeExact`), which the check still catches.
- The comment before the searches bounds comparisons by 3 * haystack_len - needle_len for a growing
  window; a one-byte needle can exceed that by one (`OneByteExceeds`).
- The cooker's description (`cook.c:231-234`) lets a backslash between apostrophes count only before
  a backslash or an apostrophe; the code honours it before a newline (`cook.c:284-288`) and before
  `#` (`cook.c:308-313`) as well.
- In `optionSetMembers` a member that starts with a number but is none is looked up from behind the
  number on, with the length of the whole member.
- The set separators are those in the table of character classes: neither `-` nor `!` is one.
- The comment before `sort_list`'s loop promises to stop before extracting element -1; the code reads
  that element first, exactly when some value precedes the first one. The value is never used.
- The seconds of a duration have no order check of their own; the loop ends after them, and the
  effect is the same.
- The comments in `direction_ok` and its tests disagree on options that are immediate in one of their
  two states only (`ImmediateAsDocumented`, `EnabledNotPreset`).

## Model

| member | source | states |
|---|---|---|
| Words.ShorterMaximalSuffixIsCritical | ocserv/Ocserv/gl/str-two-way.h:95-106 | Critical factorization theorem: of the maximal suffixes for the two orders on letters, the shorter one starts at a position whose local period is the global period, and that position is smaller than the global period; for every word |
| Words.RepetitionExceedsLeftHalf | ocserv/Ocserv/gl/str-two-way.h:95-100 | No repetition around the start of a maximal suffix fits in the part before it |
| Words.RepetitionIsPeriod | ocserv/Ocserv/gl/str-two-way.h:204-217 | Every repetition around the start of the shorter maximal suffix is a period of the whole word |
| Words.RepetitionIsMultiple | ocserv/Ocserv/gl/str-two-way.h:278-282 | A repetition around a critical position that fits in the right half has a length that the global period divides; this is what makes the shift by i - suffix + 1 safe |
| Words.DistinctHalves | ocserv/Ocserv/gl/str-two-way.h:285-289 | When the right half has the period returned and the needle has not, the global period exceeds both halves, which justifies the shift by MAX (suffix, needle_len - suffix) + 1 |
| MaximalSuffix.StartInside | ocserv/Ocserv/gl/str-two-way.h:126-133 | A start inside the part read either has lost against the candidate already or needs a letter no smaller than the one compared |
| MaximalSuffix.SmallerStep | ocserv/Ocserv/gl/str-two-way.h:143-149 | The branch for a smaller letter keeps the loop invariants with the whole part read as period |
| MaximalSuffix.SameStep | ocserv/Ocserv/gl/str-two-way.h:150-160 | The branch for an equal letter keeps them, inside a period and at its end |
| MaximalSuffix.LargerStep | ocserv/Ocserv/gl/str-two-way.h:161-166 | The branch for a larger letter keeps them with a new candidate, although letters are read again |
| MaximalSuffix.Finally | ocserv/Ocserv/gl/str-two-way.h:139-168 | When the needle is read, the candidate is its maximal suffix and p is the smallest period of that suffix |
| TwoWay.ScanMaximalSuffix | ocserv/Ocserv/gl/str-two-way.h:135-202 | Either loop, with SIZE_MAX for -1 and wrapping arithmetic, finds the maximal suffix and its smallest period in fewer than 2 * needle_len iterations |
| TwoWay.CriticalFactorization | ocserv/Ocserv/gl/str-two-way.h:107-222 | The index returned is a critical position no larger than the global period, and *period is the smallest period of the right half; also for needles of one and two bytes |
| TwoWay.HalvesAgree | ocserv/Ocserv/gl/str-two-way.h:250-253 | The comparison of the halves is equal if and only if period is the global period of the needle; otherwise the global period exceeds both halves |
| TwoWay.CompareEqual | ocserv/Ocserv/gl/str-two-way.h:250-250 | CMP_FUNC, be it memcmp or a comparison that also stops at NUL, tells whether all letters agree under the folding |
| TwoWay.Available | ocserv/Ocserv/gl/strcasestr.c:31-33 | AVAILABLE is true exactly when the window ends inside the haystack; it looks only at bytes behind the known length, and the length known afterwards is never beyond the terminator |
| TwoWay.FindNul | ocserv/Ocserv/gl/strcasestr.c:32-32 | The look-ahead for NUL is true exactly when the terminator lies in the range, and no byte behind the terminator is read |
| TwoWay.ScanRight | ocserv/Ocserv/gl/str-two-way.h:259-263 | The upward scan stops at the first letter that differs, or at the end with all letters equal |
| TwoWay.ScanLeft | ocserv/Ocserv/gl/str-two-way.h:266-271 | The downward scan, which wraps around from 0 to SIZE_MAX, stops at the last letter that differs, or tells that all agree |
| Search.RightMismatch | ocserv/Ocserv/gl/str-two-way.h:278-282 | A mismatch at i in the right half rules out the next i - suffix windows, for every text and every critical position |
| Search.LeftMismatch | ocserv/Ocserv/gl/str-two-way.h:273-276 | A matched right half and a mismatch in the left half rule out every window closer than the global period |
| Search.Remembered | ocserv/Ocserv/gl/str-two-way.h:273-276 | After a shift by the period, the first needle_len - period letters of the new window match already |
| Search.BadByte | ocserv/Ocserv/gl/str-two-way.h:364-379 | When the last byte of the window has distance d in the shift table, no window closer than d matches |
| Search.BadLastPeriod | ocserv/Ocserv/gl/str-two-way.h:369-375 | With memory set and a shift below the period, no window closer than needle_len - period matches, so that the larger shift skips nothing |
| Search.BadByteShift | ocserv/Ocserv/gl/str-two-way.h:366-379 | The whole branch for a wrong last byte shifts past no match and costs no letter comparison |
| Search.DistanceInPeriodic | ocserv/Ocserv/gl/str-two-way.h:369-375 | In a periodic needle a distance in the shift table is below the period, or the byte does not occur at all |
| TwoWay.PeriodicWindow | ocserv/Ocserv/gl/str-two-way.h:259-282 | One round for a periodic needle finds a match or shifts past no match, keeps what memory stands for, and keeps the account of comparisons |
| TwoWay.DistinctWindow | ocserv/Ocserv/gl/str-two-way.h:293-310 | One round for distinct halves finds a match or shifts past no match, and keeps the account of comparisons |
| TwoWay.ShortPeriodic | ocserv/Ocserv/gl/str-two-way.h:250-284 | First loop: the smallest matching index or none, with at most 2 * haystack_len - needle_len letter comparisons |
| TwoWay.ShortDistinct | ocserv/Ocserv/gl/str-two-way.h:285-312 | Second loop: the same |
| TwoWay.ShortNeedle | ocserv/Ocserv/gl/str-two-way.h:224-314 | The smallest index at which the folded needle matches the folded haystack, or NULL exactly when there is none, within 2 * haystack_len - needle_len letter comparisons; with a growing window, these and the bytes that AVAILABLE looks at stay within 3 * haystack_len - needle_len if and only if needle or haystack has two bytes or more, or the haystack starts with the needle; for every haystack and every non-empty needle |
| TwoWay.OneByteExceeds | ocserv/Ocserv/gl/str-two-way.h:230-233 | The documented bound fails on the needle "b" in the haystack "a": one comparison and two looks instead of two in all |
| TwoWay.FillShiftTable | ocserv/Ocserv/gl/str-two-way.h:343-350 | shift_table[c] becomes the distance from the last occurrence of c to the end of the needle, needle_len without one |
| TwoWay.LongPeriodic | ocserv/Ocserv/gl/str-two-way.h:354-406 | Third loop, with the bad-byte shift: the smallest matching index or none, and the bound on comparisons |
| TwoWay.LongDistinct | ocserv/Ocserv/gl/str-two-way.h:407-444 | Fourth loop: the same |
| TwoWay.LongNeedle | ocserv/Ocserv/gl/str-two-way.h:316-446 | As for the short needle, through the shift table; the bound with look-ahead holds if and only if the needle has two bytes or more or the haystack one |
| Search.FirstMatchIsNaive | ocserv/Ocserv/gl/str-two-way.h:224-225 | A smallest match is what the search that tries every position in turn returns |
| Memmem.MatchAfter | ocserv/Ocserv/gl/memmem.c:61-70 | Dropping bytes that cannot start a match moves the first match by their number |
| Memmem.Memmem | ocserv/Ocserv/gl/memmem.c:38-73 | memmem equals the naive search on every haystack and needle: empty needle, short haystack, memchr in front, one-byte needle, short and long needles |
| Strcasestr.Strcasestr | ocserv/Ocserv/gl/strcasestr.c:42-80 | strcasestr equals the naive search on the folded strings, for every folding that maps NUL and only NUL to NUL, and reads no byte behind a terminator |
| Memchr.ZeroTestFindsZero | ocserv/Ocserv/gl/memchr.c:117-140 | ((x - ones) & ~x) & (ones << 7) is nonzero if and only if some byte of x is zero, for words of any number of bytes, borrows included |
| Memchr.XorFindsByte | ocserv/Ocserv/gl/memchr.c:113-116 | Exclusive or with copies of c has a zero byte exactly when the word has a byte c |
| Memchr.Doubling | ocserv/Ocserv/gl/memchr.c:92-109 | One assignment x |= x << s doubles the number of copies and loses no bit |
| Memchr.RepeatedBytes | ocserv/Ocserv/gl/memchr.c:92-109 | The constants hold a copy of 1 and of c in every byte, for every longword size that is a power of two from 4 bytes on |
| Memchr.DoubleToWidth | ocserv/Ocserv/gl/memchr.c:99-108 | The loop for longwords of more than 8 bytes fills the whole word |
| Memchr.WordTest | ocserv/Ocserv/gl/memchr.c:144-147 | The loop test on a longword in memory, in either byte order, is true exactly when one of its bytes is c |
| Memchr.SkipWords | ocserv/Ocserv/gl/memchr.c:142-151 | The loop over longwords skips no byte c, and stops at the first longword with one or when less than a longword is left |
| Memchr.Memchr | ocserv/Ocserv/gl/memchr.c:59-169 | The first byte equal to (unsigned char) c_in among the first n, or NULL exactly when there is none, for every length, alignment, word size and byte order |
| Machine.SplitBits | ocserv/Ocserv/gl/memchr.c:123-138 | Bitwise operators on a word act separately on its low bits and on the others |
| Base64Spec.AlphabetIsBijective | ocserv/Ocserv/gl/base64.c:62-63 | The table for encoding and the table for decoding are inverse to each other on all bytes |
| Base64Alphabet.ToCharIs | ocserv/Ocserv/gl/base64.c:62-63 | Value v is written as character v of the alphabet A-Z, a-z, 0-9, +, / |
| Base64Alphabet.FromCharIs | ocserv/Ocserv/gl/base64.c:62-63 | A character is read as its place in that alphabet, and as -1 exactly when it is not in it |
| Base64Alphabet.OtherCharacters | ocserv/Ocserv/gl/base64.c:402-467 | Padding is "=", and what a context skips is the newline |
| Base64Alphabet.LastTwoValues | ocserv/Ocserv/gl/base64.c:87-133 | The bytes 0xFB 0xFF are encoded as "+/8=", and these characters are decoded to them |
| Base64.EncodeFast | ocserv/Ocserv/gl/base64.c:68-81 | The fast path writes the encoding of its input and nothing behind it |
| Base64.EncodeStep | ocserv/Ocserv/gl/base64.c:104-129 | One round writes the next group, padded at the end of the input, as far as there is room |
| Base64.Encode | ocserv/Ocserv/gl/base64.c:87-133 | With too little room exactly a prefix of the full encoding is written; with more room than needed a NUL follows; no other byte changes |
| Base64.Decode4 | ocserv/Ocserv/gl/base64.c:402-467 | decode_4 succeeds exactly on a valid group, padded only when the input ends with it, and writes as many of its bytes as there is room for, also when it fails |
| Base64Alphabet.ValidGroup | ocserv/Ocserv/gl/base64.c:402-467 | A group is valid if and only if two characters of the alphabet are followed by two more, or, at the end of the input, by one and "=" or by "=="; nothing is asked of the pad bits |
| Base64Alphabet.InvalidGroup | ocserv/Ocserv/gl/base64.c:402-467 | An invalid group leaves one byte for its first two characters if they are in the alphabet, and a second one for the third |
| Base64.DecodeContext.constructor | ocserv/Ocserv/gl/base64.c:335-339 | A new context carries nothing |
| Base64.DecodeContext.Get4 | ocserv/Ocserv/gl/base64.c:348-386 | get_4 delivers the next four characters of the carried ones and the input without newlines, or carries what there is |
| Base64.DecodeContext.Fill | ocserv/Ocserv/gl/base64.c:368-385 | The copying loop of get_4 fills the buffer with characters that are no newlines, up to four |
| Base64.FastGroups | ocserv/Ocserv/gl/base64.c:507-520 | The inner loop decodes group after group and stops at the first that is not valid, having written a part of it that can be rolled back |
| Base64.StreamRound | ocserv/Ocserv/gl/base64.c:504-560 | One round of the outer loop, roll-back included, keeps the decoding that the bytes written, the characters carried and the input left stand for |
| Base64.DecodeUnit | ocserv/Ocserv/gl/base64.c:487-565 | Without a context the result is the decoding of the input as one unit, newlines being garbage, cut to the room |
| Base64.Flush | ocserv/Ocserv/gl/base64.c:497-501 | An empty input with a context succeeds exactly when nothing is carried, and writes what the unfinished group decodes to |
| Base64.DecodeChunk | ocserv/Ocserv/gl/base64.c:487-565 | With a context a non-empty chunk succeeds exactly when the carried characters and the chunk without newlines hold no invalid group; the bytes are those of the groups, cut to the room; the rest is carried |
| Base64.DecodeCtx | ocserv/Ocserv/gl/base64.c:487-565 | base64_decode_ctx: the three cases together |
| Base64Spec.StreamConcat | ocserv/Ocserv/gl/base64.c:479-482 | A stream can be cut anywhere if the characters left over are put in front of the next part |
| Base64Spec.StreamFailure | ocserv/Ocserv/gl/base64.c:474-476 | Once a group is invalid, more input changes neither the bytes nor the verdict |
| Base64Spec.ChunkingIrrelevant | ocserv/Ocserv/gl/base64.c:479-482 | Feeding any split of a stream chunk by chunk decodes to the same bytes, verdict and rest as the whole stream without its newlines |
| Base64Spec.OctetIsOr | ocserv/Ocserv/gl/base64.c:415-459 | Each byte of a decoded group is what decode_4 computes with shifts, the masks 0xf0 and 0xc0, and ors, in an int of any width from 16 bits on |
| Base64Spec.GroupRoundTrip | ocserv/Ocserv/gl/base64.c:402-467 | An encoded group decodes to the bytes it was made of, padding included |
| Base64Spec.StreamRoundTrip | ocserv/Ocserv/gl/base64.c:68-133 | Decoding an encoded byte string as a stream gives the string back with nothing left over, for every byte string |
| Base64Spec.UnitRoundTrip | ocserv/Ocserv/gl/base64.c:484-485 | Decoding an encoded byte string without a context gives the string back, for every byte string |
| Base64Spec.WrappedRoundTrip | ocserv/Ocserv/gl/base64.c:469-482 | Encoded text with newlines inserted anywhere, cut into any chunks, decodes to the original bytes |
| Base64Canonical.UnitAgain | ocserv/Ocserv/gl/base64.c:402-467 | Encoding what was decoded without a context gives the input back if and only if its pad bits are zero, for every valid input |
| Base64Canonical.StreamAgain | ocserv/Ocserv/gl/base64.c:469-482 | Encoding what was decoded with a context gives the stream back if and only if it is padded in its last group only and its pad bits are zero |
| Base64Canonical.NotCanonical | ocserv/Ocserv/gl/base64.c:402-467 | "QR==" is valid and is not encoded again to itself |
| Base64Alloc.EncodeSizeExact | ocserv/Ocserv/gl/base64.c:145-165 | inlen > outlen holds if and only if 1 + BASE64_LENGTH (inlen) does not fit in size_t, and otherwise outlen is that size; it is 1 when inlen + 2 wraps around; for every width of at least 8 bits |
| Base64Alloc.DecodeSizeSuffices | ocserv/Ocserv/gl/base64.c:583-590 | 3 * (inlen / 4) + 3 never wraps and holds whatever the input decodes to, even after three carried characters |
| Base64Alloc.EncodeAlloc | ocserv/Ocserv/gl/base64.c:144-174 | The result is the encoding with its NUL in a buffer of that size, or 0 and NULL exactly when the size does not fit |
| Base64Alloc.DecodeAlloc | ocserv/Ocserv/gl/base64.c:578-605 | The result is the whole decoding, never cut short, or NULL exactly when the input is invalid |
| Base64Alloc.DecodeChunks | ocserv/Ocserv/gl/base64.c:477-482 | One context, any non-empty chunks in turn and a last empty call: success exactly when the stream is valid and nothing is left over, and then all bytes |
| IntProps.CheckedIs | ocserv/Ocserv/libopts/intprops.h:164-183 | An expression that a check evaluates is undefined exactly when its value leaves the range |
| IntProps.QuotientIs | ocserv/Ocserv/libopts/intprops.h:185-205 | The quotient truncates toward zero: the remainder has the sign of the dividend and is smaller than the divisor |
| IntProps.AdditiveChecksExact | ocserv/Ocserv/libopts/intprops.h:164-183 | For every unsigned or two's complement range and operands in it, the checks for addition, subtraction and negation hold if and only if the true result leaves the range, and evaluate no subexpression that leaves it |
| IntProps.MultiplyCheckExact | ocserv/Ocserv/libopts/intprops.h:185-200 | The same for multiplication, with quotients that truncate toward zero |
| IntProps.DivideCheckExact | ocserv/Ocserv/libopts/intprops.h:202-205 | The same for division by anything but zero |
| IntProps.LeftShiftCheckExact | ocserv/Ocserv/libopts/intprops.h:215-225 | The same for a left shift by any valid count, with an arithmetic right shift |
| IntProps.TwoAndTen | ocserv/Ocserv/libopts/intprops.h:108-110 | 2^485 < 10^146, which is log10 (2) < 146 / 485 |
| IntProps.BitsStrlenBoundHolds | ocserv/Ocserv/libopts/intprops.h:108-111 | Every integer below 2^b has at most (b * 146 + 484) / 485 decimal digits, for every b >= 1 |
| TightBound.TenBelowTwo | ocserv/Ocserv/libopts/intprops.h:109-110 | 10^643 < 2^2136, the other side of log10 (2) |
| TightBound.NoFractionBetween | ocserv/Ocserv/libopts/intprops.h:109-110 | No fraction with a denominator below 2621 lies between 643 / 2136 and 146 / 485 |
| TightBound.BoundIsReached | ocserv/Ocserv/libopts/intprops.h:109-111 | For every b from 1 to 2620 the largest integer of b bits has exactly as many digits as the bound says |
| TightBound.BoundIsMissed | ocserv/Ocserv/libopts/intprops.h:109-111 | For b = 2621 it has fewer, so that 2621 is the smallest b for which the bound is not tight |
| Cook.EscapeChar | ocserv/Ocserv/libopts/cook.c:63-136 | The byte and the number of characters of every escape, capped octal and hexadecimal numbers included, and 0 exactly at the end of the string |
| Cook.ContiguousQuote | ocserv/Ocserv/libopts/cook.c:144-215 | Over white space and comments: the next quote, the end of the strings, or failure, with the lines counted; no byte behind the NUL is read |
| Cook.CookStep | ocserv/Ocserv/libopts/cook.c:268-314 | One turn copies or replaces what the lexer reads next; the write position stays below the read position, and the read position grows |
| Cook.CloseQuote | ocserv/Ocserv/libopts/cook.c:255-266 | At a closing quote the text is ended and the scan goes on in the next string, or the result is complete |
| Cook.StringCook | ocserv/Ocserv/libopts/cook.c:238-316 | Cooking in place leaves the text, its NUL, the position behind and the line count that a lexer finds in the original bytes, nothing behind that position changes, and NULL is returned exactly when the lexer fails |
| CText.WhiteCharacters | ocserv/Ocserv/libopts/ag-char-map.h:72-74 | White space is the tab, the newline, the vertical tab, the form feed, the carriage return, the blank and the backspace |
| CText.DigitCharacters | ocserv/Ocserv/libopts/ag-char-map.h:81-83 | The digits are 0 to 9 and a to f in either case, each with its place as value |
| CookWritten.Characters | ocserv/Ocserv/libopts/cook.c:80-86 | The letters a b f n r t v stand for their control characters, and the quotes, the backslash, the number sign and the comment characters are these |
| CookWritten.EscapeIs | ocserv/Ocserv/libopts/cook.c:63-136 | Every escape takes up its whole source and stands for the byte that it is meant for: a letter, one to three octal digits by their places up to 255, x and one or two hexadecimal digits by their places, x alone, a carriage return with its newline, and any other character for itself |
| CookWritten.LexWritten | ocserv/Ocserv/libopts/cook.c:268-314 | A text whose bytes are written plainly, behind a backslash, or in any of those escapes is read back as what it means in either kind of quotes, escaped newlines being dropped and counted, and between apostrophes a backslash before an ordinary character being kept |
| CookWritten.EveryTextWritten | ocserv/Ocserv/libopts/cook.c:228-236 | Between double quotes every byte string can be written, between apostrophes every one without NUL |
| CookWritten.NoClosingQuote | ocserv/Ocserv/libopts/cook.c:271-303 | A string that ends before its closing quote, be it behind a backslash, is refused |
| CookQuote.JointGap | ocserv/Ocserv/libopts/cook.c:149-204 | White space, which is the characters 8 to 13 and the blank, a line comment or a block comment between two strings is skipped and its newlines are counted |
| CookQuote.JointBreaks | ocserv/Ocserv/libopts/cook.c:162-198 | A slash that starts no comment, and a comment without an end, are refused |
| CookQuote.CookUndoesQuoting | ocserv/Ocserv/libopts/cook.c:228-236 | Round trip: a text cut into quoted strings, its bytes written in any of those ways, with any white space and comments between the strings, is cooked back to that text, its end and its number of lines; when a comment breaks off behind the strings it is refused, and in front of another string the cooking goes on in it |
| CookQuote.LastStringEndsEarly | ocserv/Ocserv/libopts/cook.c:271-303 | When the last string has no closing quote, the whole text is refused, with the lines read so far |
| SetMembers.FindNameIn | ocserv/Ocserv/libopts/enum.c:183-238 | Every name that is no number and no two characters for inversion is looked up: full matches are always accepted, a partial one if there is only one, and there is failure exactly when no name is so chosen |
| SetNames.LookUpChooses | ocserv/Ocserv/libopts/enum.c:213-230 | From any point of the search on, with any partial matches remembered, the name chosen is the one that the documentation promises |
| SetNames.LookUpIs | ocserv/Ocserv/libopts/enum.c:213-238 | The search finds name k if and only if k is the first full match, or there is none and k is the only partial match |
| SetTexts.InversionIs | ocserv/Ocserv/libopts/enum.c:206-209 | Of the names that mean inversion, "~0" and "-1" are the last name, and all others of two characters are none |
| SetTexts.NumberedName | ocserv/Ocserv/libopts/enum.c:195-204 | A decimal number stands for the name with that number, and for none when there are not so many |
| SetMembers.CountRoom | ocserv/Ocserv/libopts/enum.c:375-386 | The first loop counts the room for every name of the mask |
| SetMembers.RoomSuffices | ocserv/Ocserv/libopts/enum.c:381-388 | The room counted exceeds the text by at least four characters unless the mask is empty |
| SetMembers.FillNames | ocserv/Ocserv/libopts/enum.c:395-411 | The second loop writes the names joined by plus signs and never leaves the buffer |
| SetMembers.OptDesc.SetMembNames | ocserv/Ocserv/libopts/enum.c:367-413 | The option gets a fresh string with the names of exactly the bits of its mask, in a buffer that it fits |
| SetTexts.IndicesAre | ocserv/Ocserv/libopts/enum.c:395-411 | The bits are taken in rising order, and they are exactly the bits of the mask |
| SetTexts.PrintedIs | ocserv/Ocserv/libopts/enum.c:395-411 | The printed text is the names of those bits joined by " + " |
| SetMembers.OptDesc.CheckMembershipStart | ocserv/Ocserv/libopts/enum.c:429-474 | The initial mask, the inversion and the first member, or failure |
| SetMembers.FindMemberBit | ocserv/Ocserv/libopts/enum.c:488-505 | A result is 1 shifted by the number of the name chosen, failure means that none is chosen; with at most as many names as bits there is no result exactly when the copy would leave the buffer of AO_NAME_SIZE bytes or the text, or for a lone character that means inversion |
| SetMembers.ParseMembers | ocserv/Ocserv/libopts/enum.c:580-629 | The loop over the members is the fold of its turns, and never passes the NUL |
| SetMembers.OptDesc.OptionSetMembers | ocserv/Ocserv/libopts/enum.c:570-643 | The new cookie is what the text means, and 0 after an error; with at most as many names as bits the source defines it if and only if the first member that is not accepted, if any, is readable |
| SetReadable.MemberUndefined | ocserv/Ocserv/libopts/enum.c:614-622 | The source does not define what a member means if and only if it is no number and is longer than 127 characters, or its copy from behind a leading number leaves the text, or it is one character that means inversion |
| SetReadable.PlainIsReadable | ocserv/Ocserv/libopts/enum.c:488-505 | Numbers, and members of at most 127 characters that start with neither digit nor sign and are no lone tilde, are readable |
| SetReadable.ParsedUndefined | ocserv/Ocserv/libopts/enum.c:570-643 | For every text, cookie and list of names: the result is undefined if and only if the first member that is not accepted is unreadable |
| SetReadable.ReadableIsDefined | ocserv/Ocserv/libopts/enum.c:570-643 | A text in which every run of characters that may be a member is readable has a defined result |
| SetReadable.TildeUndefined | ocserv/Ocserv/libopts/enum.c:206-206 | The text "=~" makes the source read a character that was never written, for all names and cookies |
| SetReadable.LongUndefined | ocserv/Ocserv/libopts/enum.c:492-495 | Every member of more than 127 letters overruns the buffer for names |
| SetRoundTrip.SetRoundTrips | ocserv/Ocserv/libopts/enum.c:545-643 | For every mask over fewer names than bits: "=" and the names printed for the mask parse to the mask whatever the old cookie, and "=^" to its complement within the bits that have names |
| SetRoundTrip.MembersPrinted | ocserv/Ocserv/libopts/enum.c:580-629 | Parsing printed names adds exactly their bits |
| SetRoundTrip.SignedName | ocserv/Ocserv/libopts/enum.c:591-598 | A name that starts with - or ! is not read back: the character is read as a sign |
| SetRoundTrip.LeadingName | ocserv/Ocserv/libopts/enum.c:439-459 | A name that starts with = or ^ is not read back when it is the first |
| SetRoundTrip.DigitName | ocserv/Ocserv/libopts/enum.c:616-622 | A name that starts with a digit is looked up from behind its number on and not read back |
| SetRoundTrip.WordName | ocserv/Ocserv/libopts/enum.c:605-613 | The names "all" and "none" are read as all members and as none |
| SetRoundTrip.LookUpExact | ocserv/Ocserv/libopts/enum.c:217-227 | Among distinct names each is found by itself, whatever partial matches come before it |
| SetTexts.SetExpression | ocserv/Ocserv/libopts/enum.c:545-643 | For any text of a lead ("=", "^" and blanks), members and an end: the new cookie is 0 when the text is empty, starts with a comma or with a second "=", or ends with two commas, a comma and a bar, or a word for which no name is chosen; otherwise it holds member i exactly when the members leave it in the set, or out of it after "^", and i has a name; for all names, cookies and widths |
| SetTexts.StartOf | ocserv/Ocserv/libopts/enum.c:429-474 | The lead decides the first mask and the inversion, or the failure |
| SetTexts.EndReads | ocserv/Ocserv/libopts/enum.c:580-621 | A sign with nothing behind it ends the loop with the mask reached; a second comma, a bar behind a comma and an unknown name end it with failure |
| SetAlgebra.MembersOfItems | ocserv/Ocserv/libopts/enum.c:580-629 | The loop goes on behind the members with what they make of any mask, bit by bit: no sign, "+" and the bar add, "-" and "!" take away; a member is a name, "~0", "all", "none" or a number |
| SetAlgebra.Characters | ocserv/Ocserv/libopts/enum.c:583-598 | The separators are the NUL, "+", ",", the bar and white space; the other constants are the characters meant |
| SetAlgebra.WordReads | ocserv/Ocserv/libopts/enum.c:488-505 | A word of at most 127 characters is the bit of the name chosen for it, and is refused if and only if none is chosen |
| SetAlgebra.LastReads | ocserv/Ocserv/libopts/enum.c:206-209 | "~0" is the bit of the last name |
| SetAlgebra.MaskReads | ocserv/Ocserv/libopts/enum.c:614-618 | A decimal, octal or hexadecimal number is converted as a whole, to the largest mask when it is too large, and to its negative behind a minus sign |
| SetAlgebra.HoldsBitwise | ocserv/Ocserv/libopts/enum.c:623-635 | The operators on masks are the operators on the sets of their bits |
| OptionValues.ExceedsIs | ocserv/Ocserv/libopts/nested.c:704-704 | strcmp puts a behind b if and only if b is a proper prefix of a, or the two differ and a has the larger byte at the first difference |
| OptionValues.OrderedIs | ocserv/Ocserv/libopts/nested.c:681-685 | A list is ordered if and only if no name is behind a later one in that sense |
| OptionValues.ArgList.SortList | ocserv/Ocserv/libopts/nested.c:686-718 | Sorting in place leaves the insertion sort of the values: the same values, no name behind a later one by the order of bytes with prefixes first, and those of each name in their order; what is behind useCt is as it was; the source looks at element -1 if and only if some value precedes the first one |
| OptionValues.LooksBelow | ocserv/Ocserv/libopts/nested.c:704-711 | Two values out of order make it look there |
| OptionValues.InsertLast | ocserv/Ocserv/libopts/nested.c:694-717 | One turn of the outer loop moves one value down to its place, and looks at element -1 if and only if the value precedes the first of the ordered values before it |
| OptionValues.SortedIsStableSort | ocserv/Ocserv/libopts/nested.c:681-685 | The sort is a permutation in the order of names that keeps the values of each name in their order |
| OptionValues.StableSortIsUnique | ocserv/Ocserv/libopts/nested.c:681-685 | No other list is a stable sort: order, elements and the order within each name determine it |
| OptionValues.ExceedsAntisymmetric | ocserv/Ocserv/libopts/nested.c:704-704 | Two names of which strcmp puts neither behind the other are equal |
| OptionValues.OptionGetValue | ocserv/Ocserv/libopts/configfile.c:315-345 | The first value of the name, the first of all without a name, ENOENT exactly when there is none, EINVAL for what is no list |
| OptionValues.OptionNextValue | ocserv/Ocserv/libopts/configfile.c:374-407 | What stands behind the given value, ENOENT at the end, EINVAL exactly when the value is not in the list |
| OptionValues.NamedIsBlock | ocserv/Ocserv/libopts/configfile.c:331-340 | In an ordered list the values of one name stand together, from the first of them on |
| OptionValues.WalkVisitsNamed | ocserv/Ocserv/libopts/configfile.c:355-362 | In an ordered list, getting the first value of a name and then the next for as long as the name is the same visits all values of that name in the order of the list |
| OptionValues.WalkAfterSort | ocserv/Ocserv/libopts/nested.c:681-718 | After the sort that walk visits all values of the name in the order of the file, for every list of distinct values |
| OptionValues.VisitNamed | ocserv/Ocserv/libopts/configfile.c:355-362 | Such a walk exists: calling the two lookups in turn ends in every list of distinct values, and after the sort has visited all values of the name in the order of the file |
| FileScan.Options.InternFileLoad | ocserv/Ocserv/libopts/configfile.c:1000-1093 | For every non-empty home list and whatever the files do, the scan ends and restores the flags. In the presetting direction it loads exactly the entries that are usable there and above which no usable entry disables loading; in the processing direction those of the entries so reached that are usable there; first falling, then rising, and never with an error stopping the program |
| FileScan.TurnIs | ocserv/Ocserv/libopts/configfile.c:1079-1089 | The turn is the first entry on the way down that disables further loading, and the bottom without one |
| FileScan.TurnIsReached | ocserv/Ocserv/libopts/configfile.c:1079-1089 | The entries from the turn on are those above which no usable entry disables loading |
| FileScan.ScanOrderIsScan | ocserv/Ocserv/libopts/configfile.c:1055-1093 | The order down to the turn and up again is that set of visits in that order, for every number of entries |
| FileScan.NoDirection | ocserv/Ocserv/libopts/load.c:400-401 | Without a direction every option is accepted |
| FileScan.ExactlyOneDirection | ocserv/Ocserv/libopts/load.c:397-465 | Each option state is accepted in exactly one of the two directions |
| FileScan.ImmediateAsDocumented | ocserv/Ocserv/libopts/load.c:414-452 | In the presetting direction the code accepts what its comments call immediate if and only if the enabled and the disabled state are handled alike |
| FileScan.EnabledNotPreset | ocserv/Ocserv/libopts/load.c:414-423 | An enabled option that is immediate for enablement is not accepted there, against the comment |
| FileScan.EligibleOnce | ocserv/Ocserv/libopts/configfile.c:1024-1029 | A line takes effect at most once, and once exactly when its file is not below the turn and can be loaded in the one direction that accepts the option |
| Duration.ScaleNAdd | ocserv/Ocserv/libopts/parse-duration.c:76-100 | base + val * scale exactly when that fits and there is a base, BAD_TIME otherwise; a negative val makes an intermediate value leave the type |
| Duration.ParseNonIso | ocserv/Ocserv/libopts/parse-duration.c:463-573 | The result is the exact total of the terms when their units fall strictly and the total fits, a bare last number being seconds, and BAD_TIME otherwise; the clock form is entered if and only if, behind terms in falling order above the minutes, a colon follows a number that fits |
| Duration.ParseHrMinSec | ocserv/Ocserv/libopts/parse-duration.c:103-135 | The loop reads at most two numbers behind colons, and then only white space |
| ClockForm.ClockReads | ocserv/Ocserv/libopts/parse-duration.c:103-135 | Numbers behind colons, with blanks, plus signs and blanks at the end, come to the sum in which each counts sixty times as much as the next, and to an error exactly when a time cannot hold it or there are more of them than may be read |
| ClockForm.FailedPartUndefined | ocserv/Ocserv/libopts/parse-duration.c:487-492 | "5:x" makes the source subtract -1 from the largest time |
| ClockForm.LargeNumberWraps | ocserv/Ocserv/libopts/parse-duration.c:114-119 | A number behind the colon that an unsigned long can hold and a time cannot comes to a sum that is too small by the range of an unsigned long, or to an error |
| ClockForm.MissingPart | ocserv/Ocserv/libopts/parse-duration.c:114-123 | A missing number behind the colon counts as zero: "5:" is 300 seconds |
| ClockForm.MinusReads | ocserv/Ocserv/libopts/parse-duration.c:114-119 | A number behind a minus sign is read as a negative time |
| ClockForm.HugeReads | ocserv/Ocserv/libopts/parse-duration.c:114-119 | A number that an unsigned long cannot hold is an error |
| Duration.ParseDuration | ocserv/Ocserv/libopts/parse-duration.c:575-596 | The same behind leading white space, BAD_TIME for a text that does not start with a digit, and the ISO 8601 forms exactly for P and T; without a colon it is the total of the terms |
| Duration.NumberWithUnit | ocserv/Ocserv/libopts/parse-duration.c:495-566 | One turn of the loop: the term is added, or the rest cannot be a duration; an overflow stays through later terms |
| Duration.TooLarge | ocserv/Ocserv/libopts/parse-duration.c:473-476 | A number that time_t cannot hold spoils every total |
| DurationText.UnitTables | ocserv/Ocserv/libopts/parse-duration.c:495-566 | The letters y Y M W d D h m s are the units, in this order, of 31536000, 2592000, 604800, 86400, 3600, 60 and 1 seconds; no other character is one |
| DurationText.AllUnits | ocserv/Ocserv/libopts/parse-duration.c:49-54 | y, M, W, d, h, m and s with their letters fall and add up to 31536000 y + 2592000 M + 604800 W + 86400 d + 3600 h + 60 m + s |
| DurationText.WrittenDuration | ocserv/Ocserv/libopts/parse-duration.c:463-573 | For every written duration, with any blanks before and behind its letters: amounts come to the sum of their numbers times the seconds of their letters, with a bare last number as seconds, if the units fall and the sum fits, and to BAD_TIME otherwise and when something else follows; a clock behind units above the minutes is added, with less than an hour behind hours, and when it does not fit in a time or has more than two colons, although the amounts fit, the result is undefined |

## Left out

- Allocation failure, errno beyond what a result type carries, usage text and every system call: allocation succeeds, and what the file system holds is a parameter.
- The platform shims of gnulib, locale tables, generated strings and simple predicates on characters: they would only add easy members.
- The command-line option machine (`find.c`, `autoopts.c`, `init.c`, `env.c`): its descriptors are declared in headers that are not part of this model.
- The two loops of `critical_factorization` are one method with the order as a parameter, and the inner scans and rounds that the four search loops repeat are shared methods.
- In the search `size_t` has 64 bits; the haystack and the needle have a length that `size_t` can hold.
- TwoWay.LongNeedle: the look at the last byte of a window through the shift table is not counted as a comparison.
- Reads of a longword are reads of its bytes in the byte order given; alignment only fixes where the loop over longwords starts.
- `base64_decode_ctx` is one method for each of its three cases, without a context, with an empty input and with a chunk, and one that chooses.
- The `INT_*_OVERFLOW` macros for mixed types and `INT_STRLEN_BOUND`; `INT_REMAINDER_RANGE_OVERFLOW` is the division check under another name.
- `scan_q_str`, the other scanner of quoted strings.
- SetMembers.OptDesc.OptionSetMembers: for a text that is not defined the method says so and promises nothing about the cookie; the exact condition is stated for at most as many names as the mask has bits, since a shift by more is not defined either.
- `optionSetMembers`: the special requests passed as an options pointer, other than printing the names, and the reset state of the option are not modelled.
- SetRoundTrip.SetRoundTrips: names must be distinct, of 1 to 127 characters, free of separators, other than "all" and "none", and must not start with a digit or one of - ! = ^, nor be a tilde with at most one more character: in some place of a text the parser reads such names as something else, or does not look them up.
- SetTexts.SetExpression: a member that starts with a number but is none, and one that the source does not define, is not among the members written; `MemberUndefined` and `DigitName` are about those.
- SetMembers.OptDesc.SetMembNames: the sum of the lengths of the names is not reduced modulo the width of `size_t`.
- OptionValues.ArgList.SortList: the values are compared by constant names; where the source reads element -1 and drops the value, the model notes it and reads nothing.
- OptionValues.WalkAfterSort: the values in the list are distinct objects, as the parser that builds the list creates them.
- FileScan.Options.InternFileLoad: how a path is made from a home list entry, `stat`, and the text of the files are an oracle, asked at most once for each entry and direction; an empty home list is excluded because the source reads behind its end.
- `handle_cfg` with its line continuation and the text of configuration files.
- DurationText.WrittenDuration: the numbers behind colons are no larger than a time; `LargeNumberWraps`, `MinusReads` and `HugeReads` are about others.
- Duration.ParseDuration: the values of the ISO 8601 forms after `P` and `T` are not modelled. `long` and `time_t` have the same largest value, and converting a larger number to `time_t` wraps around.
