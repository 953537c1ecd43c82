# yscanf: a verified model of the buffered scanf replacement

yscanf is a header-only, fast replacement for `scanf` on `stdin`. It ships in
two versions, and this project models the core of both in Dafny:

- `yscanf3.h` (v3, "EOF-correct");
- `yscanf2.h` (v2).

Each version has three layers:

1. a buffer `ybuf` with the cursors `yptr`/`yend`, refilled with `fread`
   only when it is empty;
2. token readers for integers of four widths, words, floating-point tokens
   and, in v3, lines;
3. the dispatcher `yscanf`, which walks a format string, runs one reader per
   conversion and computes the return count.

## How the model is built

- **Bytes and symbols** (`bytes.dfy`). A byte is `0..255`. What the byte
  primitives return is a `symbol` in `-1..255`, where `EOF` is -1, as C's
  `int c`. `isspace` is the C-locale set: space, `\t`, `\n`, `\v`, `\f`, `\r`.
- **Integers** (`numerals.dfy`). Integers are unbounded. The 32- and 64-bit C
  types are a `Width`, and `Wrap` reduces a value to a width's range modulo
  2^32 or 2^64.
  - v3 accumulates in a wrapping `long long` or `unsigned long long`. Its
    readers are specified as the exact decimal value, wrapped once
    (`AccumulatedWraps`).
  - v2 keeps the literal overflow test `next < x` on wrapped arithmetic
    (`Checked`).
- **The stream** (`stream.dfy`).
  - For v3 the stream is the bytes `stdin` delivers before its first
    zero-length `fread`. The latch `yeof` means nothing after that read is
    ever asked for.
  - For v2, which has no latch, the stream is a sequence of symbols in which
    `EOF` marks each zero-length `fread`. Every access that meets an empty
    buffer calls `fread` again, and a zero-length read uses up its mark.
  - `Fread` and `FreadSymbols` give what one `fread(ybuf, 1, capacity,
    stdin)` returns.
- **The buffer** (`scanner3.dfy`, `scanner2.dfy`). Each version's globals
  become the fields of a class (`Scanner3.Scanner`, `Scanner2.Scanner2`):
  - `buf` is `ybuf`, and `capacity` is its size;
  - `ptr` and `end` are `yptr` and `yend`, as offsets;
  - `eof` is v3's `yeof`;
  - `input` is the part of the stream `fread` has not delivered yet.

  Two ghost fields carry the specification:
  - `freads` counts the calls to `fread`;
  - `avail` is what the coming `yget`/`ynext_char` calls will return, in
    order.

  The class invariant `Valid()` ties `avail` to the unread part of the
  buffer and `input`. Every method is specified by how it changes `avail`.
- **The readers and the dispatcher, as methods.** Each is a method with the
  loop of the source. Its `ensures` ties what it returns, and the new
  `avail`, to a function of the old `avail`.
- **The grammar functions** (`grammar3.dfy`, `grammar2.dfy`). These are the
  functions the methods are proved against:
  - a v3 reader yields `Read<T>`, which is either `Fail(used)` or
    `Got(value, used)`, where `used` is the number of bytes consumed;
  - a v2 reader never fails, and yields `Taken(value, rest)`;
  - the dispatchers `Dispatch`/`Scan` and `Dispatch2`/`Scan2` yield an
    `Outcome`: the return value, the slots stored and the rest of the input.
  - `va_arg` outputs become a list of typed `Slot`s.
  - A floating-point conversion stores the text of its token, not its value.
- **The properties** (`properties3.dfy`, `properties2.dfy`). These files
  prove what the source promises about the grammar functions:
  - round trips through the `printf` form of a number or word;
  - what each reader consumes;
  - saturation and wrap-around;
  - how the return count follows the format;
  - the ways v2 differs from v3.

Some notable behaviours of the code, each proved:

- v3 readers leave the byte after a token unread. v2 readers consume it: for
  numbers, words and the mantissa of a floating-point number. As a
  consequence, v2's `%e`/`%f`/`%g` cannot see an exponent written right after
  the mantissa: "1.23e4" records "1.23", the 'e' is consumed, and "4" stays
  unread for the next conversion (`Properties2.ExponentLost`). An exponent is
  read only after one more byte (`Properties2.GapBeforeExponent`). v3 reads
  "1.23e4" whole (`Properties3.RealRoundTrip`).
- v2's overflow test misses wraps that land above the previous value, in
  `yread_ull` (`Properties2.MissedOverflow`) and in `yread_ll`, which reads
  "25000000000000000000" as 6553255926290448384
  (`Properties2.MissedOverflowSigned`). "-9223372036854775808" reaches `LLONG_MIN`
  only through the overflow flag (`Properties2.LongMinViaOverflow`).
- v2 counts every recognised conversion. At the end of the input `%d` stores
  `INT32_MIN` and `yscanf` returns 1 (`Properties2.IntAtEndCounts`).
- v3 rejects `%lf` with -1 (`Properties3.LongRealRejected`), while v2 accepts
  it.

## Model

| member | source | states |
|---|---|---|
| Stream.Fread | yscanf3.h:42 | one fread hands over the next bytes of the stream, min(capacity, what is left); it returns 0 bytes exactly when the stream is over |
| Stream.FreadSymbols | yscanf2.h:53 | one fread on a stream with zero-length reads: 0 bytes exactly when the stream is over or a zero-length read is next (which it uses up); otherwise at most capacity bytes, in order |
| Numerals.Wrap | yscanf3.h:84 | the value a wrapping accumulator of the given width holds: in the width's range, and unchanged when already in range |
| Numerals.WrapCongruent | yscanf3.h:84 | values that differ by a multiple of 2^32 or 2^64 wrap to the same value |
| Numerals.NarrowAfterWrap | yscanf3.h:86 | casting a wrapped 64-bit value to 32 bits is wrapping the exact value to 32 bits |
| Numerals.WrapSign | yscanf3.h:86 | multiplying a wrapped value by the sign and wrapping again is wrapping the signed exact value |
| Numerals.AccumulatedWraps | yscanf3.h:83-85 | the digit loop x = x*10 + d, wrapping at every step, ends with the exact value of the digits wrapped once |
| Numerals.Accumulated | yscanf3.h:83-85 | the wrapping accumulator, after any number of digits, holds a value of its width |
| Numerals.Checked | yscanf2.h:129-139 | the test next < x keeps a value no smaller than the start, and of the width's range once it has moved; the flag is raised only inside a digit run |
| Numerals.CheckedExact | yscanf2.h:129-139 | when the exact value fits the width, the overflow test never fires and the loop yields the exact value |
| Numerals.CheckedBounds | yscanf2.h:129-139 | the kept value never decreases and stays within the width's range; when the flag is raised the kept value is positive |
| Numerals.CheckedPasses | yscanf2.h:131-136 | for any bound b with 10b+9 in range, digits whose exact value exceeds b either raise the flag or keep a value above b |
| Grammar3.SignedToken | yscanf3.h:202-213 | a signed token consumes at most its bytes; on success it ends on a digit followed by a non-digit; on failure at most the sign was consumed and no digit follows |
| Grammar3.ReadSigned | yscanf3.h:197-215 | yread_ll_ok and yread_int_ok consume the blanks and never more than the input; on success the value is in the type's range and the token ends on a digit followed by a non-digit; on failure at most one byte after the blanks (the sign) was consumed |
| Grammar3.SignedAccumulated | yscanf3.h:204-213 | the wrapping digit loop followed by the multiplication by the sign stores the wrapped signed exact value |
| Grammar3.ReadSignedNarrows | yscanf3.h:70-88 | yread_int_ok succeeds and consumes exactly as yread_ll_ok does, and stores its result cast to int |
| Grammar3.UnsignedToken | yscanf3.h:222-228 | on success an unsigned token ends on a digit followed by a non-digit; on failure nothing was consumed and no digit comes next |
| Grammar3.ReadUnsigned | yscanf3.h:217-229 | yread_ull_ok and yread_uint_ok consume the blanks and never more than the input; on success the value is in the type's range and the token ends on a digit followed by a non-digit; on failure only the blanks were consumed |
| Grammar3.UnsignedAccumulated | yscanf3.h:223-227 | the wrapping digit loop stores the exact value of the digit run, wrapped |
| Grammar3.ReadUnsignedNarrows | yscanf3.h:90-102 | yread_uint_ok succeeds and consumes exactly as yread_ull_ok does, and stores its result cast to unsigned |
| Grammar3.RealToken | yscanf3.h:109-138 | a floating-point token consumes at most the input, and what it records is exactly the bytes it consumed |
| Grammar3.RealTokenGot | yscanf3.h:110-138 | with a digit or '.' after the optional sign, the token is the sign followed by the longest run of digits, fraction and exponent, all of it consumed |
| Grammar3.ReadReal | yscanf3.h:104-146 | yread_double_ok consumes the blanks and never more than the input, and on success records exactly the bytes it consumed after the blanks |
| Grammar3.WordToken | yscanf3.h:152-157 | a word fails exactly on an empty stream; otherwise it is the maximal non-empty run of non-blank bytes, ended by a blank or EOF that stays unread |
| Grammar3.ReadWord | yscanf3.h:148-159 | yread_str_ok consumes the blanks and never more than the input; on success it consumes at least one more byte and stores exactly the bytes it consumed after the blanks |
| Grammar3.Kept | yscanf3.h:186-190 | a line keeps at most maxlen-1 of its bytes (none when maxlen <= 1), and all of them when fewer than maxlen |
| Grammar3.LineEnd | yscanf3.h:186-193 | the terminator consumes nothing exactly at the end of the input, and two bytes only for "\r\n" |
| Grammar3.FirstLine | yscanf3.h:181-195 | ygetline_ok fails exactly on an empty stream, consuming nothing, and never consumes past the input |
| Grammar3.NextLine | yscanf3.h:161-179 | yread_line_ok fails exactly when nothing but line breaks is left, and always consumes the leading line breaks |
| Grammar3.ReadChar | yscanf3.h:294-300 | %c fails exactly at EOF; otherwise it consumes one byte, blank or not, and stores it |
| Grammar3.Convert | yscanf3.h:251-293 | each conversion's reader consumes at most the input and, on success, stores a slot of the type the conversion names |
| Grammar3.Directive | yscanf3.h:249-283 | a recognised specifier is followed by a format position strictly after it and within the format |
| Grammar3.Dispatch | yscanf3.h:239-310 | yscanf returns EOF or the number of slots stored, and never changes slots already stored |
| Grammar3.Scan | yscanf3.h:233-311 | yscanf returns EOF or the number of slots it stored |
| Scanner3.Scanner.constructor | yscanf3.h:32-34 | an empty buffer of the given size, yeof clear, and the whole stream still to come |
| Scanner3.Scanner.ReadStream | yscanf3.h:42 | the fread call: the buffer's first n bytes are the next n bytes of the stream, and one more fread is counted |
| Scanner3.Scanner.Fill | yscanf3.h:40-46 | refill only on an empty buffer and never once yeof is set; a zero-length read sets yeof; afterwards a byte is buffered exactly when the stream has not ended; the bytes to come are unchanged |
| Scanner3.Scanner.Get | yscanf3.h:38-48 | yget returns the next byte of the stream and consumes it, or EOF at its end; once yeof is set fread is not called again |
| Scanner3.Scanner.Peek | yscanf3.h:50-60 | ypeek returns what the next yget returns and consumes nothing; EOF implies yeof; no fread after yeof |
| Scanner3.Scanner.SkipSpace | yscanf3.h:62-66 | yskip_space consumes exactly the maximal run of blanks ahead |
| Scanner3.Scanner.ReadDigits | yscanf3.h:82-85 | the digit loop succeeds exactly when a digit comes, consumes the maximal digit run and holds the wrapping accumulation of it |
| Scanner3.Scanner.TakeSign | yscanf3.h:77-80 | an optional '+' or '-' is consumed and gives the factor 1 or -1 |
| Scanner3.Scanner.SignedLong | yscanf3.h:204-213 | the sign and digits of yread_ll_ok succeed, store and consume exactly as SignedToken states |
| Scanner3.Scanner.ReadLong | yscanf3.h:197-215 | yread_ll_ok succeeds, stores and consumes exactly as ReadSigned at 64 bits states |
| Scanner3.Scanner.ReadInt | yscanf3.h:70-88 | yread_int_ok succeeds, stores and consumes exactly as ReadSigned at 32 bits states |
| Scanner3.Scanner.UnsignedLong | yscanf3.h:222-227 | the digits of yread_ull_ok succeed, store and consume exactly as UnsignedToken states |
| Scanner3.Scanner.ReadULong | yscanf3.h:217-229 | yread_ull_ok succeeds, stores and consumes exactly as ReadUnsigned at 64 bits states |
| Scanner3.Scanner.ReadUInt | yscanf3.h:90-102 | yread_uint_ok succeeds, stores and consumes exactly as ReadUnsigned at 32 bits states |
| Scanner3.Scanner.TakeDigits | yscanf3.h:117-119 | a digit loop of yread_double_ok consumes and returns exactly the maximal digit run ahead |
| Scanner3.Scanner.TakeFraction | yscanf3.h:120-126 | a '.' and the digits after it are consumed exactly when a '.' comes |
| Scanner3.Scanner.TakeSigned | yscanf3.h:131-138 | the exponent's optional sign and its digit run are consumed and returned |
| Scanner3.Scanner.TakeExponent | yscanf3.h:128-138 | an 'e' or 'E', its sign and digits are consumed exactly when an 'e' or 'E' comes |
| Scanner3.Scanner.MarkedExponent | yscanf3.h:129-138 | with an 'e' or 'E' next, the mark, the sign and the digits are consumed and returned |
| Scanner3.Scanner.TakeFractionExponent | yscanf3.h:120-138 | the fraction, then the exponent, consumed and returned in order |
| Scanner3.Scanner.RealRest | yscanf3.h:117-138 | the digits, fraction and exponent after the sign, consumed and returned in order |
| Scanner3.Scanner.RealNumber | yscanf3.h:110-138 | the token after the blanks succeeds, is recorded and consumed exactly as RealToken states |
| Scanner3.Scanner.RealAfterSign | yscanf3.h:115-138 | after the sign the token goes on exactly when a digit or a '.' comes, consuming nothing otherwise; then the rest of the token is consumed and returned |
| Scanner3.Scanner.ReadDouble | yscanf3.h:104-146 | yread_double_ok succeeds, records and consumes exactly as ReadReal states |
| Scanner3.Scanner.Word | yscanf3.h:152-157 | on a non-blank byte or the end of the input, yread_str_ok fails exactly at the end, and otherwise stores and consumes exactly what WordToken states |
| Scanner3.Scanner.TakeNonBlank | yscanf3.h:154-156 | the copy loop consumes and returns exactly the bytes up to the next blank or the end |
| Scanner3.Scanner.ReadStr | yscanf3.h:148-159 | yread_str_ok succeeds, stores and consumes exactly as ReadWord states |
| Scanner3.Scanner.FinishLine | yscanf3.h:186-193 | the line loop keeps the bytes that fit and consumes the line and its terminator as FirstLine states |
| Scanner3.Scanner.EndLine | yscanf3.h:191-192 | after the line's bytes, "\r\n" is consumed as one terminator, any other terminator alone |
| Scanner3.Scanner.GetLine | yscanf3.h:181-195 | ygetline_ok succeeds, stores and consumes exactly as FirstLine states |
| Scanner3.Scanner.SkipBreaks | yscanf3.h:165-168 | the leading loop of yread_line_ok consumes every '\n' and '\r' and the byte after them, which it returns |
| Scanner3.Scanner.ReadLine | yscanf3.h:161-179 | yread_line_ok succeeds, stores and consumes exactly as NextLine states |
| Scanner3.Scanner.ReadSlot | yscanf3.h:251-300 | the reader a conversion runs succeeds, stores and consumes exactly as Convert states |
| Scanner3.Scanner.Scanf | yscanf3.h:233-311 | yscanf returns, stores and consumes exactly as Scan states |
| Scanner3.Scanner.Conversion | yscanf3.h:249-304 | one '%' conversion either ends yscanf with the outcome Dispatch states, or leaves the rest of the format to Dispatch |
| Properties3.SignedTokenDecimal | yscanf3.h:204-213 | the printf form of any integer, followed by a non-digit, is read back as that integer wrapped, and exactly its bytes are consumed |
| Properties3.SignedRoundTrip | yscanf3.h:197-215 | after blanks, the printf form of v is read back as v wrapped, and as v itself whenever v fits the type; its bytes and the blanks are consumed |
| Properties3.UnsignedTokenDigits | yscanf3.h:222-227 | the decimal form of n, followed by a non-digit, is read back as n wrapped |
| Properties3.UnsignedRoundTrip | yscanf3.h:217-229 | after blanks, the decimal form of n is read back as n wrapped, and as n itself whenever n fits the type |
| Properties3.IntWraps | yscanf3.h:86 | "2147483648" is read by %d as INT32_MIN: out-of-range values wrap silently |
| Properties3.UnsignedTokenRead | yscanf3.h:90-102 | the decimal form of n with no blanks in front, followed by a non-digit, is read back as n wrapped and exactly its bytes are consumed |
| Properties3.UIntWraps | yscanf3.h:100 | "4294967296" is read by %u as 0: out-of-range values wrap silently |
| Properties3.SignWithoutDigit | yscanf3.h:204-209 | a sign not followed by a digit fails, with the blanks and the sign consumed |
| Properties3.UnsignedRejectsSign | yscanf3.h:222-223 | the unsigned readers fail on a sign and consume only the blanks |
| Properties3.RealLengthText | yscanf3.h:117-138 | digits, an optional fraction and an optional exponent, followed by a byte that continues none of them, are exactly the token's body |
| Properties3.RealTokenText | yscanf3.h:110-138 | an optional sign, then digits, fraction and exponent with a digit or '.' among them, are read whole and the next byte stays unread |
| Properties3.RealRoundTrip | yscanf3.h:104-146 | after blanks, the printf form of a floating-point number (sign, digits, '.', digits, exponent mark, sign, digits) is recorded whole, "1.23e4" included, and the byte after it stays unread |
| Properties3.RealFails | yscanf3.h:108-116 | yread_double_ok fails exactly when only blanks are left or when neither a digit nor a '.' follows the optional sign; the blanks and the sign stay consumed |
| Properties3.WordFailsOnlyAtEnd | yscanf3.h:151-153 | yread_str_ok fails exactly when only blanks remain |
| Properties3.WordRoundTrip | yscanf3.h:148-159 | after blanks, a word of non-blank bytes followed by a blank or the end is read back whole, and the blank stays unread |
| Properties3.BlanksInFront | yscanf3.h:62-66 | blanks in front of the input only lengthen the skip; where it stops is unchanged |
| Properties3.ConvertAfterBlanks | yscanf3.h:251-293 | every reader but %c gives the same result after extra blanks in front, with the blanks consumed too |
| Properties3.SignedShifts | yscanf3.h:201 | extra blanks in front of yread_ll_ok and yread_int_ok are consumed too and change nothing else |
| Properties3.UnsignedShifts | yscanf3.h:221 | extra blanks in front of yread_ull_ok and yread_uint_ok are consumed too and change nothing else |
| Properties3.RealShifts | yscanf3.h:108 | extra blanks in front of yread_double_ok are consumed too and change nothing else |
| Properties3.WordShifts | yscanf3.h:151 | extra blanks in front of yread_str_ok are consumed too and change nothing else |
| Properties3.LineTruncates | yscanf3.h:186-193 | a line keeps at most maxlen-1 bytes (none when maxlen <= 1), they are a prefix of the input, and none is a line break |
| Properties3.LineRoundTrip | yscanf3.h:181-195 | a line shorter than maxlen, ended by "\n", "\r", "\r\n" or the end, is read back whole with its terminator consumed |
| Properties3.NextLineSkipsBreaks | yscanf3.h:165-168 | yread_line_ok is ygetline_ok after the leading line breaks |
| Properties3.SlotsFollowFormat | yscanf3.h:239-310 | the stored slots are at most the format's conversions, and the k-th has the type of the k-th conversion |
| Properties3.ReturnFollowsFormat | yscanf3.h:239-310 | with every '%' recognised yscanf returns the number of slots stored, or EOF only when none was; when every conversion stored, it returns -1 exactly when the format has an unknown specifier; -1 after a stored slot means an unknown specifier |
| Properties3.DispatchLeavesSuffix | yscanf3.h:239-310 | yscanf only consumes input: what it leaves is a suffix of what it was given |
| Properties3.NoDirectives | yscanf3.h:240-248 | a format without '%' stores nothing and returns 0 |
| Properties3.CharTakesBlank | yscanf3.h:294-300 | %c stores the next byte even when it is a blank |
| Properties3.FormatBlankSkips | yscanf3.h:240-244 | a blank in the format consumes the blanks of the input at once, and nothing else |
| Properties3.IntRejects | yscanf3.h:81-82 | %d fails, consuming nothing, on a byte that is no digit, sign or blank |
| Properties3.IntReads | yscanf3.h:251-255 | %d reads the printf form of v as v wrapped to int and consumes exactly it |
| Properties3.ConversionStores | yscanf3.h:251-293 | a conversion whose reader succeeds stores its slot and yscanf goes on after the specifier with the rest of the input |
| Properties3.ConversionFails | yscanf3.h:252 | a conversion whose reader fails ends yscanf with cnt, or EOF when cnt is 0, and the slots stored so far |
| Properties3.IntStoresAt | yscanf3.h:251-255 | at a "%d" the printf form of v is stored wrapped to int, and yscanf goes on two format bytes later |
| Properties3.IntFailsAt | yscanf3.h:251-253 | at a "%d" a byte that is no digit, sign or blank ends yscanf with cnt or EOF, and that byte stays unread |
| Properties3.FailureAfterStore | yscanf3.h:251-253 | "%d%d" whose second %d fails after the first one read returns 1, keeps the first value and leaves what the failed reader consumed consumed |
| Properties3.LongRealRejected | yscanf3.h:261-283 | "%d%lf" returns -1 after %d stored a value, keeps that value and reads nothing after it |
| Properties3.UnknownStops | yscanf3.h:301-304 | an unrecognised specifier returns -1 with the slots stored so far, reading nothing |
| Properties3.BlanksGiveEOF | yscanf3.h:74-76 | %d on input with only blanks left returns EOF |
| Grammar2.Numeral | yscanf2.h:124-139 | no digit: the flag is raised, 0 is returned and that symbol is consumed; otherwise the digit run and the symbol after it are consumed |
| Grammar2.AfterPeek | yscanf2.h:76-84 | a peek consumes nothing unless a zero-length read is next, which it uses up |
| Grammar2.AfterBlanks | yscanf2.h:90-96 | yskip_space_input consumes the maximal run of blanks and, when a zero-length read ends it, that read too |
| Grammar2.SignedNumeral | yscanf2.h:115-141 | the sign and digits give a value within [-INT64_MAX, INT64_MAX], negative only after a '-', and at least one symbol is consumed |
| Grammar2.ParsedSigned | yscanf2.h:107-142 | yparse_int returns a value within [-INT64_MAX, INT64_MAX] and consumes at least one symbol of any non-empty input |
| Grammar2.ParsedUnsigned | yscanf2.h:149-176 | yparse_uint returns a value within [0, UINT64_MAX] and consumes at least one symbol of any non-empty input |
| Grammar2.SaturatedInt | yscanf2.h:182-190 | yread_int returns a value of int and consumes what yparse_int consumes |
| Grammar2.SaturatedLong | yscanf2.h:192-200 | yread_ll returns a value of long long, LLONG_MIN only when the flag was raised, and consumes what yparse_int consumes |
| Grammar2.SaturatedUInt | yscanf2.h:202-210 | yread_uint returns a value of unsigned and consumes what yparse_uint consumes |
| Grammar2.SaturatedULong | yscanf2.h:212-220 | yread_ull returns a value of unsigned long long and consumes what yparse_uint consumes |
| Grammar2.StringToken | yscanf2.h:315-324 | yread_string stores only bytes that are no blank and no zero-length read, and consumes at least one symbol of any non-empty input |
| Grammar2.Mantissa | yscanf2.h:243-256 | the integer and fraction loops record only digits and '.', and consume at least one symbol of any non-empty input |
| Grammar2.DoubleToken | yscanf2.h:226-259 | yread_double records only digits and '.', after at most a leading sign, and consumes at least one symbol of any non-empty input |
| Grammar2.ExponentPart | yscanf2.h:273-286 | the exponent records only digits after at most a leading sign, and consumes at least one symbol of any non-empty input |
| Grammar2.DoubleExpToken | yscanf2.h:264-308 | yread_double_exp records what yread_double records, then possibly more, and consumes at least one symbol of any non-empty input |
| Grammar2.Directive2 | yscanf2.h:362-450 | a recognised specifier is followed by a format position strictly after it and within the format |
| Grammar2.Convert2 | yscanf2.h:363-445 | every conversion but %c stores a slot of the type it names; none fails |
| Grammar2.Dispatch2 | yscanf2.h:343-457 | yscanf returns EOF or the number of slots stored, and never changes slots already stored |
| Grammar2.Scan2 | yscanf2.h:335-458 | yscanf returns EOF or the number of slots it stored |
| Scanner2.Scanner2.constructor | yscanf2.h:43-45 | an empty buffer of the given size with the whole stream still to come |
| Scanner2.Scanner2.Refill | yscanf2.h:51-56 | yrefill calls fread once, resets yptr to the buffer start and yend to the number of bytes read |
| Scanner2.Scanner2.Fill | yscanf2.h:64-68 | refill only on an empty buffer, and then always (no latch); afterwards a byte is buffered exactly when no zero-length read came, which is then used up, and yptr == yend == ybuf |
| Scanner2.Scanner2.Get | yscanf2.h:62-70 | ynext_char returns and consumes the next symbol; after EOF yptr == yend == ybuf; it calls fread exactly when the buffer was empty |
| Scanner2.Scanner2.Peek | yscanf2.h:76-84 | ypeek_char returns the next symbol and does not consume a byte, but does use up a zero-length read; fread exactly when the buffer was empty |
| Scanner2.Scanner2.SkipSpace | yscanf2.h:90-96 | yskip_space_input consumes the blanks ahead, and a zero-length read its last peek sees |
| Scanner2.Scanner2.DrainDigits | yscanf2.h:134 | after an overflow the remaining digits and the symbol after them are consumed |
| Scanner2.Scanner2.ReadNumeral | yscanf2.h:124-139 | the digit part of yparse_int/yparse_uint returns, flags and consumes exactly as Numeral states |
| Scanner2.Scanner2.Accumulate | yscanf2.h:129-139 | the checked digit loop consumes the digit run and the symbol after it, and yields the literal checked accumulation |
| Scanner2.Scanner2.ParseInt | yscanf2.h:107-142 | yparse_int returns, flags and consumes exactly as ParsedSigned states |
| Scanner2.Scanner2.ParseUInt | yscanf2.h:149-176 | yparse_uint returns, flags and consumes exactly as ParsedUnsigned states |
| Scanner2.Scanner2.ReadInt | yscanf2.h:182-190 | yread_int returns and consumes exactly as SaturatedInt states |
| Scanner2.Scanner2.ReadLong | yscanf2.h:192-200 | yread_ll returns and consumes exactly as SaturatedLong states |
| Scanner2.Scanner2.ReadUInt | yscanf2.h:202-210 | yread_uint returns and consumes exactly as SaturatedUInt states |
| Scanner2.Scanner2.ReadULong | yscanf2.h:212-220 | yread_ull returns and consumes exactly as SaturatedULong states |
| Scanner2.Scanner2.TakeRun | yscanf2.h:320-322 | a loop of ynext_char over one class of bytes returns the maximal run, and consumes it and the symbol after it, which it returns |
| Scanner2.Scanner2.ReadString | yscanf2.h:315-324 | yread_string stores and consumes exactly as StringToken states |
| Scanner2.Scanner2.ReadMantissa | yscanf2.h:243-256 | the integer and fraction loops of yread_double record and consume exactly as Mantissa states |
| Scanner2.Scanner2.ReadDouble | yscanf2.h:226-259 | yread_double records and consumes exactly as DoubleToken states |
| Scanner2.Scanner2.ReadExponentPart | yscanf2.h:273-286 | the exponent's sign and digits are recorded and consumed exactly as ExponentPart states |
| Scanner2.Scanner2.ReadDoubleExp | yscanf2.h:264-308 | yread_double_exp records and consumes exactly as DoubleExpToken states |
| Scanner2.Scanner2.ReadSlot2 | yscanf2.h:363-445 | the reader a conversion runs stores and consumes exactly as Convert2 states |
| Scanner2.Scanner2.Scanf2 | yscanf2.h:335-458 | yscanf returns, stores and consumes exactly as Scan2 states |
| Scanner2.Scanner2.Conversion2 | yscanf2.h:359-453 | one '%' conversion either ends yscanf with the outcome Dispatch2 states, or leaves the rest of the format to Dispatch2 with skip_space cleared |
| Properties2.SkipBlanks2 | yscanf2.h:90-96 | blanks before a byte that is no blank are consumed, and no zero-length read is used up |
| Properties2.NumeralDigits | yscanf2.h:129-139 | the decimal form of n followed by a non-digit gives the checked accumulation of its digits, with the separator consumed |
| Properties2.SignedNumeralDecimal | yscanf2.h:115-141 | the printf form of v gives sign times the checked accumulation of its digits, with the separator consumed |
| Properties2.SignedDecimal | yscanf2.h:107-142 | the same after any blanks |
| Properties2.UnsignedDigits | yscanf2.h:149-176 | after blanks, the decimal form of n gives the checked accumulation of its digits, with the separator consumed |
| Properties2.SignedRoundTrip2 | yscanf2.h:192-200 | after blanks, the printf form of any v with INT64_MIN < v <= INT64_MAX is read back exactly, without the flag, and the separator is consumed |
| Properties2.CheckedAtIntBound | yscanf2.h:129-139 | for digits of value n, the 64-bit test is exact up to INT32_MAX; past it the flag is raised or the kept value is above INT32_MAX, and that value is positive |
| Properties2.SaturatedDecimal | yscanf2.h:182-190 | %d on the printf form of v stores sign times the checked accumulation of its digits, saturated by the flag and the range of int |
| Properties2.IntClamps | yscanf2.h:182-190 | %d reads the printf form of any integer v as v clamped to [INT32_MIN, INT32_MAX] |
| Properties2.UnsignedRoundTrip2 | yscanf2.h:212-220 | after blanks, the decimal form of any n <= UINT64_MAX is read back exactly, without the flag |
| Properties2.UIntClamps | yscanf2.h:202-210 | %u reads the decimal form of any n as n clamped to UINT32_MAX |
| Properties2.CheckedZero | yscanf2.h:129-138 | at either width, one '0' after a kept value x passes the test, with the flag down, and keeps x*10 wrapped whenever that wrap is not below x |
| Properties2.ZeroAfterDigits | yscanf2.h:129-138 | at either width, when the last step's wrapped value is not below the previous one, the test lets an appended '0' pass without the flag |
| Properties2.MissedOverflow | yscanf2.h:165 | a numeral whose last step wraps to a value not below the previous one is read as the wrapped value, which differs from the exact one, with no saturation |
| Properties2.MissedOverflowSigned | yscanf2.h:131 | the same on the signed path: yparse_int keeps the wrapped value with the flag down, and yread_ll returns it |
| Properties2.LongMinDigits | yscanf2.h:129-139 | the digits of 9223372036854775808 raise the flag and keep the value before the last digit |
| Properties2.LongMinViaOverflow | yscanf2.h:192-200 | "-9223372036854775808" sets the overflow flag, and yread_ll returns LLONG_MIN through the saturation |
| Properties2.SignedMalformed | yscanf2.h:124-127 | a byte that is no digit, sign or blank raises the flag, gives 0, is consumed, and %d stores INT32_MIN |
| Properties2.UnsignedMalformed | yscanf2.h:158-161 | a byte that is no digit or blank raises the flag, is consumed, and %u stores UINT32_MAX |
| Properties2.SignWithoutDigit2 | yscanf2.h:117-127 | a sign followed by a non-digit raises the flag and gives 0, with both consumed |
| Properties2.NumbersAtEnd | yscanf2.h:182-210 | with only blanks left, %d stores INT32_MIN and %u UINT32_MAX, and the input is used up |
| Properties2.PeekUsesMark | yscanf2.h:90-96 | a zero-length read met by the blank skip is used up, and the reader then reads what follows |
| Properties2.WordRoundTrip2 | yscanf2.h:315-324 | after blanks, a word followed by a blank, a zero-length read or the end is read back whole, and that terminator is consumed |
| Properties2.WordAfterMark | yscanf2.h:318-320 | a zero-length read during the blank skip does not end the word: the reader goes on with the next bytes |
| Properties2.WordAtEnd2 | yscanf2.h:315-324 | with only blanks left, %s stores the empty word and does not fail |
| Properties2.IntegerMantissa | yscanf2.h:243-246 | digits ended by neither a digit nor '.' are recorded, and the symbol that ends them is consumed |
| Properties2.FractionMantissa | yscanf2.h:243-256 | digits, '.', digits and a non-digit are recorded up to the non-digit, which is consumed |
| Properties2.SignedMantissa | yscanf2.h:232-240 | an optional sign is recorded before the mantissa |
| Properties2.RealRoundTrip2 | yscanf2.h:226-259 | after blanks, sign, digits, '.', digits and a non-digit are recorded up to the non-digit, which is consumed |
| Properties2.ExponentDigits | yscanf2.h:273-286 | an optional sign and at least one digit are recorded, and the symbol after them is consumed |
| Properties2.ExponentLost | yscanf2.h:264-269 | "1.23e4": the 'e' right after the mantissa is consumed by yread_double, so yread_double_exp records only the mantissa and leaves the digits of the exponent |
| Properties2.GapBeforeExponent | yscanf2.h:264-286 | an exponent that comes one byte after the mantissa is recorded with its mark, sign and digits |
| Properties2.SlotsFollowFormat2 | yscanf2.h:343-457 | slots follow the format's conversions in type; without %c every conversion is stored, and when the format has no unknown specifier the return is the count |
| Properties2.CharAfterMark | yscanf2.h:387-398 | %c at a zero-length read returns EOF and uses it up; otherwise it stores the next byte |
| Properties2.LiteralClearsSkip | yscanf2.h:352-356 | a literal after a format blank clears skip_space, so %c then stores a blank |
| Properties2.BlankBeforeChar | yscanf2.h:345-349 | a format blank before %c makes it skip the input's blanks |
| Properties2.IntAtEndCounts | yscanf2.h:363-368 | at the end of input %d stores INT32_MIN and yscanf returns 1, not EOF |
| Properties2.IntConvAtEnd | yscanf2.h:363-368 | "%d" on nothing but blanks stores INT32_MIN, returns 1 and leaves nothing |
| Properties2.UnknownAfterCount2 | yscanf2.h:447-449 | an unknown specifier returns -1 even after a conversion stored and counted a value |
| Properties2.ConversionStores2 | yscanf2.h:363-453 | a conversion other than %c applies skip_space, stores its reader's slot, clears skip_space, and yscanf goes on after the specifier |
| Properties2.UnknownStops2 | yscanf2.h:447-449 | an unrecognised specifier returns -1 with the slots stored so far, reading nothing |

## Left out

- `ybuf` is a sequence field of the scanner class, not an array. The buffer
  is private to its header, so no aliasing is lost. The model keeps no ghost
  history of consumed bytes: the bytes still to come (`avail`) carry the
  specification.
- The buffer size `YSCANF_BUFFER_SIZE` is a parameter `capacity > 0`.
- `stdin` is a flat stream. One `fread` returns as many bytes as the buffer
  holds, or all that are left. How an interactive `stdin` splits its bytes
  into reads changes nothing the readers return, so it is not modelled. For
  v3 the stream ends at its first zero-length read. For v2 each zero-length
  read is an `EOF` mark in the stream.
- Floating-point values are not modelled:
  - the arithmetic of `yread_double_ok`, `yread_double` and
    `yread_double_exp`;
  - the `while(ep--)` loop at yscanf3.h:140;
  - the power loops at yscanf2.h:289-302.

  A floating-point slot records the bytes of the token those loops would
  read. The value is not computed.
- `va_list` and the output pointers become the list of typed slots a call
  returns.
- Destination buffers are not modelled. `yread_str_ok` and `yread_string`
  check no bounds, so a word is returned as a sequence. The line readers'
  truncation to `maxlen-1` bytes is modelled (`Grammar3.Kept`).
- `(char)` casts are not modelled. A stored byte is its value 0..255,
  whatever the signedness of `char` on the platform. Format characters are
  classified by their code, as `isspace` sees them.
- Signed overflow at yscanf3.h:84, yscanf3.h:211 and yscanf2.h:130 is
  undefined in C, and the narrowing `(int)` cast at yscanf3.h:86 is
  implementation-defined. Both are modelled as two's-complement wrapping,
  which is what GCC and Clang do.
- The branch-prediction macros `YSCANF_LIKELY`/`YSCANF_UNLIKELY` carry no
  meaning and are dropped.
- benchmark.c is timing and file I/O, and is not part of this model.
- test_yscanf.c is not part of this model. Its harness reopens `stdin` and
  includes a header, `yscanf_optimized.h`, that is not among the source files.
  Four of its expectations disagree with the headers as written, and the
  model follows the code:
  - the floating-point test (test_yscanf.c:129-139) reads "1.23e4" with
    `%lf`. v3 rejects `%lf` and returns -1 (`Properties3.LongRealRejected`).
    v2 accepts it but reads only "1.23", because its `%lf` reads no exponent
    (`Properties2.ExponentLost`);
  - the character test (test_yscanf.c:164-175) expects `%c` after a format
    blank to store the input's blank. Both versions skip that blank first
    (`Properties3.FormatBlankSkips`, `Properties2.BlankBeforeChar`);
  - the overflow test (test_yscanf.c:205-211) expects `INT32_MAX` and
    `UINT32_MAX`. v3 wraps instead: "4294967296" is stored by `%u` as 0
    (`Properties3.UIntWraps`), and every printed value is stored wrapped
    (`Properties3.SignedRoundTrip`). v2 saturates as expected
    (`Properties2.IntClamps`, `Properties2.UIntClamps`);
  - the EOF test (test_yscanf.c:220-226) expects `yscanf("%d %d")` on "42" to
    return 1. v3 does, since its second reader fails at the end of the input
    and returns the count. v2 returns 2: at the end of input it still stores
    `INT32_MIN` for `%d` and counts it (`Properties2.IntAtEndCounts`).
