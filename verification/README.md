# Verified model of the number, text and protocol core

This project models the arithmetic and protocol code of the server and proves what that code is for. Everything is
Dafny; `dafny verify dfyconfig.toml` checks it all. Code that updates objects, arrays and buffers in place is modelled
by classes and loops in the same form; each such method is proved against a function or relation of the old and new
state, and the laws are proved about those.

- **Big numbers and decimal digits** (`Arith`, `Bits`, `Words`, `Bigint`, `Multiply`, `PowersOfFive`, `Shifts`,
  `Compare`, `Quorem`, `Doubles`, `Decimals`, `Scaling`, `FixedDigits`, `ReadBack`, `Shortest`, `HexRounding`, `GFmt`,
  `PrintDouble`). Numbers are little-endian arrays of 32-bit words changed in place; zero is one zero word or no words
  (with the first word still zero, as the source leaves it). On the kernel stand dtoa's exact paths: with a digit count
  the result is the correctly rounded decimal, ties to even; in the shortest modes a reader that rounds to nearest
  turns the result into the same double, with at most 17 digits, and no decimal with fewer digits.
  `PrintDouble.PrintPositive` goes from the bits of a double to text in the buffer. A positive double is counted in
  quarters of the smallest one (2^-1076), so that it, its neighbours and the midpoints between them are all whole
  numbers.
- **JSON** (`Strbuf`, `Unicode`, `Json`, `JsonLexer`, `JsonParser`, `JsonText`, `JsonReads`, `JsonFound`,
  `JsonRoundTrip`, `JsonNumbers`, `JsonEncoder`, `JsonDecoder`). The encoder appends to a growing buffer, partly
  without checks; the decoder is a cursor with one buffer that never grows. `JsonText` is the grammar of RFC 8259
  written out character by character, with the value each text stands for; it uses nothing of the encoder or the
  lexer. Every text of it is decoded to its value (`JsonReads`), nothing else is decoded (`JsonFound`), and the
  encoder writes such texts (`JsonRoundTrip`). A number is kept as its text, which `JsonNumbers` takes from the number
  printer; how many bytes of a text strtod takes is a parameter of the settings.
- **Threads** (`Fifo`). The fifo as a state machine: one step is one statement of one thread, any number of threads
  in any interleaving. The history of the queue is recorded beside the state.
- **WebSocket frames** (`WsFrames`, `WsStream`, `WsMessages`, `WsDecoder`). The decoder with its sliding buffer, the
  loop that drains it, the messages RFC 6455 asks for, and exactly which frames the decoder treats as it says.
- **MD5** (`Md5Spec`, `Md5`). The streaming interface over any block transform, with the bit count modulo 2^64 and the
  32-bit loop guard as they are.
- **SIP text** (`OsipText`, `QuotedText`, `HeaderSplitter`, `UriEscape`, `UriText`, `UriRoundTrip`, `UriParser`,
  `UriPrinter`). Header lines cut at the commas outside quotes; URIs parsed and printed.
- **Lists and timers** (`OsipList`, `Timers`). A linked list with an iterator that removes; two indexes over the same
  timers, and when a timer fires.

Where the code does not do what it is for, the model keeps the code, the exact condition is proved, and inputs that fail
are shown:

- `HexRounding.GetHexRound`: in every rounding mode the result is the correctly rounded double if and only if
  `Misrounded` does not hold. The overflow test compares with 1023 instead of the largest exponent 971 of the unit in
  the last place, and always answers infinity (`OverflowMissed`); a value just above half of the smallest double is
  answered with zero when its leading 53 bits are a one and zeros (`JustAboveHalf`); and a carry that turns the largest
  subnormal into the smallest normal double loses the hidden bit (`MisroundedExample`).
- `Strbufs.Strbuf.Resize`: linear growth ignores what was asked for; there is room if and only if the present size
  rounded up is enough (`LinearFallsShort`, `LinearStops`).
- `Md5.GuardExact`: the block loop stays inside the input if and only if the sum in its guard does not wrap around;
  `OverrunExample` is an update for which it does.
- `WsMessages.HandledExactly`: a legal frame is treated as the standard says if and only if it is `Handled`. A ping
  inside a fragmented message that already has content is merged into the message (`PingInMessage`); a ping without
  payload is not answered (`EmptyPing`); an empty message is not delivered (`EmptyMessage`); a final fragment whose
  message is empty so far has no content type (`LateContent`).
- `WsMessages.LongSwallows`: a frame with a 64-bit length takes 127 bytes of what follows it into its payload, and
  without them it never completes.
- `UriRoundTrip.RoundTrip`: a printed URI is parsed as that URI if and only if its parts are `Filled`; `PrintedParses`
  says what comes out otherwise.
- `WsDecoder.Decoder.ClientRecv`: a byte that is alone in the buffer closes the connection if and only if the byte that
  happens to stand behind it has no mask bit.
- `Timers.StartKeeps` and `Timers.StopKeeps`: the two indexes stay in agreement if and only if no other pending timer
  has the same key and flag (`StopTakesBoth`, `RestartTakesFirst`, `RestartTakesOther`).

## Model

| member | source | states |
|---|---|---|
| Bigints.MultAdd | lua-cjson-2.1.0/dtoa.c:613-667 | the number becomes m times itself plus a, in place or in a larger copy, for every number that fits its words; no carry is lost |
| Bigints.Bcopy | lua-cjson-2.1.0/dtoa.c:608-609 | sign, length and the used words are those of the original |
| Bigints.Bigint.Balloc | lua-cjson-2.1.0/dtoa.c:545-583 | room for exactly 2^k words, no words used |
| Multiply.Mult | lua-cjson-2.1.0/dtoa.c:806-913 | the exact product; every 64-bit sum fits and the product fits the 2^k words allocated |
| Multiply.RowFits | lua-cjson-2.1.0/dtoa.c:846-859 | a word product plus two carries never exceeds 64 bits |
| PowersOfFive.First | lua-cjson-2.1.0/dtoa.c:934-947 | the list of powers exists after the call and starts with its first node; nodes that were there stay |
| PowersOfFive.Successor | lua-cjson-2.1.0/dtoa.c:954-967 | node i+1 holds the square of node i, computed on first use and kept |
| PowersOfFive.Pow5Mult | lua-cjson-2.1.0/dtoa.c:918-972 | the number times 5^k for every k >= 0, while node i of the list always holds 5^(4*2^i), whatever calls came before |
| PowersOfFive.I2B | lua-cjson-2.1.0/dtoa.c:790-803 | a one-word number |
| Shifts.LShift | lua-cjson-2.1.0/dtoa.c:975-1032 | the number times 2^k, in fresh words that are enough |
| Shifts.RShift | lua-cjson-2.1.0/dtoa.c:1679-1706 | in place, the number divided by 2^k, rounded down |
| Shifts.AnyOn | lua-cjson-2.1.0/dtoa.c:1712-1736 | true exactly when one of the k lowest bits is set |
| Shifts.Increment | lua-cjson-2.1.0/dtoa.c:1644-1669 | the number plus one; a new top word appears exactly when every word wrapped |
| Compare.Cmp | lua-cjson-2.1.0/dtoa.c:1035-1066 | the sign of the comparison of the two numbers, both directions; 0 exactly when they are equal |
| Compare.Diff | lua-cjson-2.1.0/dtoa.c:1069-1160 | the absolute difference, and sign 1 exactly when the first number is smaller |
| Quorem.Estimate | lua-cjson-2.1.0/dtoa.c:2149 | with four leading zero bits in the divisor the top-word estimate is never too large and at most one too small |
| Quorem.QuoRem | lua-cjson-2.1.0/dtoa.c:2120-2241 | the quotient of b and S is returned and b becomes the remainder; b never has more words than S |
| Doubles.Hi0Bits | lua-cjson-2.1.0/dtoa.c:708-739 | the number of leading zero bits, 32 for zero |
| Doubles.Lo0Bits | lua-cjson-2.1.0/dtoa.c:742-787 | the number of trailing zero bits; the word is shifted by it and odd |
| Doubles.DShift | lua-cjson-2.1.0/dtoa.c:2110-2117 | the shift, modulo 32, by which the divisor's top word gets four leading zero bits |
| Scaling.ShiftNormalizes | lua-cjson-2.1.0/dtoa.c:2107-2117 | shifted by it the divisor has exactly four leading zero bits in its top word |
| Doubles.D2B | lua-cjson-2.1.0/dtoa.c:1275-1404 | the significand without trailing zeros, its exponent and its bit length make up exactly the double |
| Doubles.Binary64 | lua-cjson-2.1.0/dtoa.c:1275-1404 | the value given to two words is the one that the binary64 encoding of IEEE 754 gives them |
| Scaling.ChooseExponents | lua-cjson-2.1.0/dtoa.c:3844-3862 | the powers of two and five cancel to d / 10^k, and for the half gap likewise |
| Scaling.CheckEstimate | lua-cjson-2.1.0/dtoa.c:4160-4168 | an estimate that is exact or one too large is corrected: k is floor(log10 d) and b / S is d / 10^k in [1, 10) |
| Scaling.Scale | lua-cjson-2.1.0/dtoa.c:3844-4168 | after scaling b / S == d / 10^k with k = floor(log10 d), S has four leading zero bits, and mhi is the half gap on the same scale |
| FixedDigits.OneDigit | lua-cjson-2.1.0/dtoa.c:4286 | one digit of b / S is taken off and b becomes ten times the remainder |
| FixedDigits.DigitLoop | lua-cjson-2.1.0/dtoa.c:4284-4296 | the digits and the remainder make up b / S; the loop stops early only on a zero remainder |
| FixedDigits.RoundOff | lua-cjson-2.1.0/dtoa.c:4314-4321 | adding one unit in the last place with the carry over nines, trailing zeros removed, decpt moved when all were nines |
| FixedDigits.TrimZeros | lua-cjson-2.1.0/dtoa.c:4327-4328 | trailing zeros go and the value stays |
| FixedDigits.NoDigits | lua-cjson-2.1.0/dtoa.c:4169-4180 | when the first digit asked for is right of all digits, the result is nothing or one unit, rounded half to even |
| FixedDigits.DtoaFixed | lua-cjson-2.1.0/dtoa.c:4084-4355 | modes 2 and 3: the decimal of d correctly rounded at the place asked for, ties to an even digit, without trailing zeros, with the matching decpt; in mode 2 at most ndigits digits |
| Decimals.RoundNearest | lua-cjson-2.1.0/dtoa.c:4303-4312 | the rounding used is to a nearest integer, and to the even one of two equally near |
| Decimals.RoundSameRatio | lua-cjson-2.1.0/dtoa.c:4303-4312 | rounding depends on the quotient only, not on how b and S are scaled |
| Scaling.DecodedQuarters | lua-cjson-2.1.0/dtoa.c:3778 | the double in quarter units is the significand times its power of two |
| ReadBack.Neighbours | lua-cjson-2.1.0/dtoa.c:4136-4143 | every other answer of a reader, zero and infinity included, is at least twice the half gap away |
| ReadBack.NextAbove | lua-cjson-2.1.0/dtoa.c:4136-4143 | the next double (or infinity, in place of 2^1024) lies exactly twice the half gap above |
| ReadBack.PreviousBelow | lua-cjson-2.1.0/dtoa.c:4136-4143 | the previous one (or zero) lies exactly twice the half gap below, which is half as wide below a power of two |
| ReadBack.ReadsExactly | lua-cjson-2.1.0/dtoa.c:4181-4283 | a decimal lies inside the half gaps, with or without their ends, if and only if a reader that rounds to nearest turns it into d, counting or not on ties decided for d |
| Shortest.Judge | lua-cjson-2.1.0/dtoa.c:4213-4275 | the digit kept, raised or carried is the one the comparisons with mlo, mhi and S call for, and the decimal chosen lies inside the gaps |
| Shortest.LeftRight | lua-cjson-2.1.0/dtoa.c:4181-4283 | the left-right loop ends, within 17 digits, on a decimal inside the gaps |
| Shortest.DtoaShortest | lua-cjson-2.1.0/dtoa.c:4170-4322 | modes 0 and 1: at most 17 digits without trailing zeros that a reader rounding to nearest turns into d (ties to even in mode 0, no ties in mode 1), no decimal with fewer digits being turned into d, and nearest to d among those with as many digits, but for a single raised digit at the upper end |
| HexRounding.Normalize | lua-cjson-2.1.0/dtoa.c:1949-1969 | the number is brought to 53 bits; the bits lost are classified as none, below, exactly or above half |
| HexRounding.LostBits | lua-cjson-2.1.0/dtoa.c:1956-1966 | looking at the bit below the cut and whether anything is below it tells how the lost part compares with half |
| HexRounding.Denormalize | lua-cjson-2.1.0/dtoa.c:2016-2025 | a second cut keeps the classification of everything lost, so rounding happens once |
| HexRounding.RaiseSignificand | lua-cjson-2.1.0/dtoa.c:2026-2062 | the significand is raised exactly when the rounding mode asks for it; a carry out of 53 bits moves the exponent |
| HexRounding.NearIsHalfEven | lua-cjson-2.1.0/dtoa.c:2030-2033 | raising in Round_near is rounding half to even of the whole value |
| HexRounding.DirectedRounding | lua-cjson-2.1.0/dtoa.c:2028-2040 | the other modes round the signed value towards zero, plus infinity and minus infinity |
| HexRounding.GetHexRound | lua-cjson-2.1.0/dtoa.c:1949-2103 | in every rounding mode the two words are the value correctly rounded (from 2^1024 on infinity or, as the mode asks, the largest double) if and only if Misrounded does not hold; and above exponent 971 the words stored are the ones given |
| HexRounding.MisroundedExample | lua-cjson-2.1.0/dtoa.c:2065 | the value halfway below 2^-1022, whole in 53 bits, should round up to it and is misrounded |
| HexRounding.OverflowMissed | lua-cjson-2.1.0/dtoa.c:1970-1985 | (2^52 + 1) * 2^972 is above every double, and the words stored are a NaN |
| HexRounding.JustAboveHalf | lua-cjson-2.1.0/dtoa.c:1991-1996 | (2^53 + 1) * 2^-1128 is above half of the smallest double, should round to it and is misrounded |
| GFmt.FindWidth | lua-cjson-2.1.0/g_fmt.c:76 | the exponent gets two digits, or as many as it has |
| GFmt.PutExponent | lua-cjson-2.1.0/g_fmt.c:76-85 | the loop that keeps the power of ten and multiplies what is left prints exactly the decimal digits of the exponent |
| GFmt.PutPlain | lua-cjson-2.1.0/g_fmt.c:95-103 | digits with the point between them, or zeros behind them |
| GFmt.FpconvGFmt | lua-cjson-2.1.0/g_fmt.c:36-111 | for all digits, points and precisions whose text fits the buffer with its terminator: one of the three layouts, or the text of an infinity or NaN, with its sign; the length returned excludes the terminator |
| GFmt.PrintedMeans | lua-cjson-2.1.0/g_fmt.c:61-104 | the text, read character by character from left to right, denotes the number that dtoa's digits and point stand for, with its sign |
| GFmt.ExponentialShape | lua-cjson-2.1.0/g_fmt.c:61-86 | an exponent is printed for a point at -4 or lower or above the precision: one digit, the point and the others, then an e, its sign, and two digits or as many as it needs |
| GFmt.PlainShape | lua-cjson-2.1.0/g_fmt.c:87-104 | otherwise none: a leading zero and the point, or the point after decpt digits, or zeros up to decpt |
| GFmt.LayoutFits | lua-cjson-2.1.0/g_fmt.c:61-104 | for precisions up to 14, text and terminator fit the 32 bytes callers provide |
| JsonNumbers.TextIsNumber | lua-cjson-2.1.0/g_fmt.c:61-104 | the text of a finite number is a number by the grammar of section 6 of RFC 8259, has no zero byte, and fits 32 bytes with its terminator |
| PrintDouble.FloorRange | lua-cjson-2.1.0/dtoa.c:3793-3843 | the decimal exponent of every positive double lies between -360 and 342, so three exponent digits are enough |
| PrintDouble.PointRange | lua-cjson-2.1.0/dtoa.c:4314-4351 | decpt is one more than floor(log10 d), or two more after a carry |
| PrintDouble.PrintPositive | lua-cjson-2.1.0/g_fmt.c:36-111 | on dtoa's exact path, for every positive finite double and precision 1..14 the text printed denotes the double rounded to that many significant digits, ties to even, and fits the buffer |
| Strbufs.Strbuf.constructor | lua-cjson-2.1.0/strbuf.c:44-66 | an empty, terminated buffer of 1023 bytes or of the requested size and one, growing by doubling |
| Strbufs.Strbuf.CalculateNewSize | lua-cjson-2.1.0/strbuf.c:134-159 | shrinking is exact; exponential growth ends at the first size in the geometric row that is enough; linear growth rounds the present size up |
| Strbufs.Strbuf.Resize | lua-cjson-2.1.0/strbuf.c:164-180 | what fits of the old bytes is kept, one reallocation is counted, and there is room for the length asked for if and only if growth is exponential, the buffer shrinks, or the present size rounded up is enough |
| Strbufs.LinearStops | lua-cjson-2.1.0/strbuf.c:153-156 | a size that linear growth has produced is never grown again |
| Strbufs.LinearFallsShort | lua-cjson-2.1.0/strbuf.c:153-156 | a new buffer with linear growth by 1024 gets 1024 bytes whatever is asked for |
| Strbufs.Strbuf.EnsureEmptyLength | lua-cjson-2.1.0/strbuf.h:95-99 | afterwards that many unchecked appends are allowed; nothing is reallocated when the room was there |
| Strbufs.Strbuf.AppendCharUnsafe | lua-cjson-2.1.0/strbuf.h:122-125 | the contents grow by the byte, given room for it and the terminator |
| Strbufs.Strbuf.AppendString | lua-cjson-2.1.0/strbuf.c:182-198 | the contents grow by the string; nothing is reallocated when it fits the counted space |
| Unicode.DecodeHex4 | lua-cjson-2.1.0/lua_cjson.c:750-769 | the value Hex4 of the text; no byte beyond the terminator is read |
| Unicode.HexDigitIs | lua-cjson-2.1.0/lua_cjson.c:737-748 | the digits are the bytes of "0123456789abcdef" and "0123456789ABCDEF", with their places as values, and no others |
| Unicode.Hex4Means | lua-cjson-2.1.0/lua_cjson.c:750-769 | four digits are read as ((v0*16 + v1)*16 + v2)*16 + v3 |
| Unicode.Hex4Only | lua-cjson-2.1.0/lua_cjson.c:750-769 | whatever gives a value is four digits with that value |
| Unicode.Hex4Rejects | lua-cjson-2.1.0/lua_cjson.c:758-763 | one byte that is no digit makes the answer -1 |
| Unicode.CodepointToUtf8 | lua-cjson-2.1.0/lua_cjson.c:773-806 | the bytes of every number of up to 21 bits, code point or not; 0 exactly above that |
| Unicode.Utf8Exact | lua-cjson-2.1.0/lua_cjson.c:773-806 | those bytes are the one byte sequence that section 4 of RFC 3629 gives a scalar value |
| Unicode.EscapeAccepts | lua-cjson-2.1.0/lua_cjson.c:817-873 | every spelling of a code point as one escape or a surrogate pair is accepted and gives its UTF-8 |
| Unicode.EscapeOnly | lua-cjson-2.1.0/lua_cjson.c:817-873 | nothing else is accepted: lone and reversed surrogates are rejected |
| JsonEncoder.AppendJsonString | lua-cjson-2.1.0/lua_cjson.c:461-485 | the quoted and escaped string is appended; after the one reservation of 6*len+2 nothing reallocates and no append leaves the room |
| JsonEncoder.AppendNumber | lua-cjson-2.1.0/lua_cjson.c:611-613 | the printed number is appended inside its 32 reserved bytes |
| JsonEncoder.AppendArray | lua-cjson-2.1.0/lua_cjson.c:564-584 | the items with commas between them; it fails exactly when an item nests too deep |
| JsonEncoder.AppendObject | lua-cjson-2.1.0/lua_cjson.c:616-655 | the members as quoted key, colon and value with commas between them; it fails exactly when a value nests too deep |
| JsonEncoder.AppendData | lua-cjson-2.1.0/lua_cjson.c:658-699 | the text of the value is appended, and it fails exactly when tables nest deeper than the limit |
| JsonEncoder.Encode | lua-cjson-2.1.0/lua_cjson.c:701-730 | the text of the value whatever the kept buffer held before, or an error exactly when tables nest deeper than the limit |
| JsonLexer.NextToken | lua-cjson-2.1.0/lua_cjson.c:1012-1089 | a token other than the end or an error takes at least one byte, and never goes beyond the terminator |
| JsonLexer.StringFrom | lua-cjson-2.1.0/lua_cjson.c:883-941 | a string token never holds more bytes than were read for it |
| JsonReads.BlanksSkipped | lua-cjson-2.1.0/lua_cjson.c:1012-1030 | white space before a token does not matter |
| JsonReads.StringTextReads | lua-cjson-2.1.0/lua_cjson.c:883-941 | a string of the grammar, however its characters are written, is one token: the bytes they stand for |
| JsonReads.NumberReads | lua-cjson-2.1.0/lua_cjson.c:1055-1061 | a number of the grammar, and with invalid numbers allowed whatever begins as strtod lets it, is one token where a value may end |
| JsonReads.TreeReads | lua-cjson-2.1.0/lua_cjson.c:1222-1249 | the text of a value of the grammar, where a value may end, is parsed as the value it stands for and to its last byte |
| JsonReads.TextDecodes | lua-cjson-2.1.0/lua_cjson.c:1251-1289 | every JSON text by RFC 8259, white space and all escapes included, within the depth limit is decoded to the value it stands for, given only that strtod takes its numbers whole |
| JsonReads.WideRefused | lua-cjson-2.1.0/lua_cjson.c:1262-1268 | text with a zero among its first two bytes is refused |
| JsonFound.CharsFound | lua-cjson-2.1.0/lua_cjson.c:883-941 | what is read as a string token is a string of the grammar that stands for the bytes |
| JsonFound.StringFails | lua-cjson-2.1.0/lua_cjson.c:896-925 | a string fails in the first place where no character of the grammar stands: at the end, at an unknown escape or at a u that spells no code point, with the error that says which |
| JsonFound.DecodedIsText | lua-cjson-2.1.0/lua_cjson.c:1251-1289 | whatever is decoded is JSON text up to the zero byte it stops at (control characters in strings are let through), nested within the limit, without numbers the settings refuse, and the result is the value it stands for |
| JsonFound.ErrorsFounded | lua-cjson-2.1.0/lua_cjson.c:1097-1131 | every error names a token that stands in the text where it says and is not of the kind wanted, or the bracket or brace that opens one table too many |
| JsonRoundTrip.EscapeMeans | lua-cjson-2.1.0/lua_cjson.c:151-188 | each byte is written as a character of the grammar that stands for it: escaped by letter, by \u00XX or not at all |
| JsonRoundTrip.PrintedText | lua-cjson-2.1.0/lua_cjson.c:658-699 | what is encoded is a text of the grammar |
| JsonRoundTrip.TreeMeans | lua-cjson-2.1.0/lua_cjson.c:658-699 | and that text stands for the value encoded |
| JsonRoundTrip.StringReads | lua-cjson-2.1.0/lua_cjson.c:883-941 | json_next_string_token undoes json_append_string on every byte string |
| JsonRoundTrip.PrintedNoZero | lua-cjson-2.1.0/lua_cjson.c:658-699 | encoded text has no zero byte |
| JsonRoundTrip.RoundTrip | lua-cjson-2.1.0/lua_cjson.c:1251-1289 | decode(encode(v)) == v for every Lua value within the depth limit whose numbers the decoder reads as printed |
| JsonNumbers.PrintedRoundTrip | lua-cjson-2.1.0/lua_cjson.c:1251-1289 | decode(encode(v)) == v for every Lua value within the depth limit whose numbers fpconv_g_fmt printed, given only that strtod takes each of them whole where a value may end |
| JsonParser.ParseValue | lua-cjson-2.1.0/lua_cjson.c:1222-1249 | a parsed value ends inside the text, behind its first token |
| JsonParser.DecodedFits | lua-cjson-2.1.0/lua_cjson.c:1251-1289 | whatever the text, a decoded value is one Lua can hold (each key once, no empty array), nested no deeper than allowed |
| JsonParser.WithKeyDistinct | lua-cjson-2.1.0/lua_cjson.c:1133-1181 | storing under a key keeps the keys distinct |
| JsonParser.WithKeyHolds | lua-cjson-2.1.0/lua_cjson.c:1133-1181 | the value is stored under its key, every member with another key stays, and nothing else comes in |
| JsonDecoder.Parser.AppendUnicodeEscape | lua-cjson-2.1.0/lua_cjson.c:817-873 | the cursor and the buffer move by what the escape says, or not at all; the unchecked append has room |
| JsonDecoder.Parser.NextStringToken | lua-cjson-2.1.0/lua_cjson.c:883-941 | the token the text defines; the buffer of the text's length is never outgrown |
| JsonDecoder.Parser.NextToken | lua-cjson-2.1.0/lua_cjson.c:1012-1089 | the token the text defines, with its position and the cursor behind it |
| JsonDecoder.Parser.ParseArrayContext | lua-cjson-2.1.0/lua_cjson.c:1184-1219 | the array the text defines, or the same error; it ends, and the depth is as before |
| JsonDecoder.Parser.ParseObjectContext | lua-cjson-2.1.0/lua_cjson.c:1133-1181 | the object the text defines, or the same error; it ends, and the depth is as before |
| JsonDecoder.Parser.ProcessValue | lua-cjson-2.1.0/lua_cjson.c:1222-1249 | the value the text defines, or the same error |
| JsonDecoder.Decode | lua-cjson-2.1.0/lua_cjson.c:1251-1289 | one value and nothing after it, or the error and its place |
| Fifo.InvEnter | common/port_fifo.c:41-197 | a call that begins keeps the counting invariant |
| Fifo.InvRun | common/port_fifo.c:41-197 | every statement of every thread keeps it: semaphore plus getters past the wait plus an element not yet posted equals the queue, at most 1000 elements |
| Fifo.GetterFinds | common/port_fifo.c:133-145 | a getter past the semaphore finds the fifo not empty |
| Fifo.FifoSafety | common/port_fifo.c:158-197 | in every run the branch that must never happen is not reached, the size stays at most 1000, one thread at a time is inside, and with the lock free the semaphore and the getters past it count the queue, and the state is empty exactly without elements and full exactly with 1000 |
| Fifo.Conservation | common/port_fifo.c:41-156 | what was put is what was taken and what is still queued, as multisets |
| Fifo.FirstInFirstOut | common/port_fifo.c:41-70 | without insert the elements leave in the order they came |
| Fifo.NothingLost | common/port_fifo.c:41-197 | in every run each element put is queued, in one getter's hands, or was returned, once |
| Fifo.OnlyGettersWait | common/port_fifo.c:121-156 | when threads are busy and all of them blocked, they are getters waiting for an empty fifo: no wakeup is lost and no lock is stuck |
| Fifo.UnblockedRuns | common/port_fifo.c:41-197 | a busy thread that is not blocked has a next step |
| Fifo.InsertedIsNext | common/port_fifo.c:81 | what insert puts is the only element that can be taken next, and taking it undoes the insert |
| Fifo.PutStep | common/port_fifo.c:47-89 | the statement that changes the queue puts the element first for insert, last for add, and does nothing in a full fifo |
| Fifo.AddAlone | common/port_fifo.c:41-70 | a whole call of add with no other thread running appends the element and posts once, or changes nothing when 1000 are queued |
| Fifo.InsertAlone | common/port_fifo.c:73-104 | a whole call of insert puts the element first |
| Fifo.GetAlone | common/port_fifo.c:121-197 | a whole call of get or tryget hands the first element back, or changes nothing, which tryget does only without a unit |
| Fifo.GetWaits | common/port_fifo.c:121-164 | get waits when there is no unit, tryget never does |
| Md5Spec.DecodeEncode | osipparser2/osip_md5c.c:286-308 | osip_Decode undoes osip_Encode |
| Md5Spec.EncodeDecode | osipparser2/osip_md5c.c:286-308 | osip_Encode undoes osip_Decode |
| Md5Spec.EncodedWord | osipparser2/osip_md5c.c:286-296 | each word is the sum of its four bytes, the first one lowest |
| Md5Spec.InitialBytes | osipparser2/osip_md5c.c:115-120 | the initial state is the bytes 01 23 45 67 89 ab cd ef fe dc ba 98 76 54 32 10 of section 3.3 of RFC 1321 |
| Md5Spec.PaddedIs | osipparser2/osip_md5c.c:174-183 | the padded message is the message, 0x80, as few zeros as fill whole blocks, and the length in bits modulo 2^64 in eight bytes, lowest first |
| Md5.Encode | osipparser2/osip_md5c.c:286-296 | words as bytes, low-order byte first |
| Md5.Decode | osipparser2/osip_md5c.c:301-308 | bytes as words, low-order byte first |
| Md5.Memcpy | osipparser2/osip_md5c.c:313-319 | the bytes are copied and the rest of the target stays |
| Md5.CountAdd | osipparser2/osip_md5c.c:138-141 | the carry test keeps the two words the bit count modulo 2^64 |
| Md5.CountIndex | osipparser2/osip_md5c.c:135 | the low word gives the number of buffered bytes |
| Md5.GuardExact | osipparser2/osip_md5c.c:151 | the 32-bit guard keeps the loop inside the input, on every turn, exactly when its sum does not wrap around |
| Md5.OverrunExample | osipparser2/osip_md5c.c:151 | an update of 2^32 - 1 bytes after one byte, for which it does |
| Md5.PaddingParts | osipparser2/osip_md5c.c:174-183 | the padding length of the code is the one RFC 1321 asks for, always at least one byte |
| Md5.Context.constructor | osipparser2/osip_md5c.c:111-121 | a context that has absorbed nothing |
| Md5.Context.TransformBlocks | osipparser2/osip_md5c.c:145-156 | whole blocks, buffered bytes first, go through the transform once and in order; what remains is the rest of the message |
| Md5.Context.Update | osipparser2/osip_md5c.c:127-161 | the context has absorbed the message and then the input: state, buffer and count are those of the whole |
| Md5.Context.Final | osipparser2/osip_md5c.c:166-191 | the digest is the fold of the transform over the padded message, little-endian; the context is zeroed |
| Md5.DigestOfChunks | osipparser2/osip_md5c.c:127-191 | however a message is cut into updates, the digest is that of the whole message |
| WsFrames.MaskedTwice | cm/wsServer.h:419-425 | masking a second time gives the payload back |
| WsFrames.MaskedBits | cm/wsServer.h:419-425 | each bit of a masked byte is set exactly when the bits of the byte and of its mask byte differ |
| WsFrames.HeadExtends | cm/wsServer.h:332-366 | bytes behind a complete frame do not change it |
| WsMessages.WireRead | cm/wsServer.h:332-425 | a masked frame with a 7-bit or 16-bit length is found whole, whatever follows, with its payload unmasked |
| WsMessages.ArrivingRead | cm/wsServer.h:361-366 | a frame still arriving is not taken |
| WsMessages.LongSwallows | cm/wsServer.h:351-366 | a frame with a 64-bit length is not complete before 127 bytes of what follows are there, and these become part of its payload |
| WsMessages.UnknownCloses | cm/wsServer.h:404-417 | frames with other opcodes close the connection |
| WsMessages.UnmaskedCloses | cm/wsServer.h:334-339 | so does a frame without a mask, and nothing of it is kept |
| WsMessages.HandledExactly | cm/wsServer.h:368-504 | a legal frame leads to what RFC 6455 asks for, and the cache stays in step with the open message, if and only if it is a handled one |
| WsMessages.EmptyPing | cm/wsServer.cpp:232-237 | a ping without payload gets no answer |
| WsMessages.PingInMessage | cm/wsServer.h:448-494 | a ping inside a started message is delivered as the end of the message and empties the cache |
| WsMessages.EmptyMessage | cm/wsServer.h:448-494 | an empty message is not delivered |
| WsMessages.LateContent | cm/wsServer.h:448-494 | a message whose first fragment is empty ends with a content type nobody has set |
| WsStream.DrainSplit | cm/wsServer.cpp:212-253 | draining a prefix and then its rest with the remainder is draining the whole |
| WsStream.ChunkIndependent | cm/wsServer.cpp:212-253 | for every masked stream and every way to cut it that leaves no lone byte to decode, events, unread bytes and cached fragments are those of the whole stream |
| WsMessages.MessagesDelivered | cm/wsServer.cpp:212-253 | frames the decoder handles, cut in any way in which no receive brings the first byte of a frame alone, deliver exactly the messages and answers the standard asks for, in order, and the buffer holds exactly the bytes of the frame still arriving |
| WsMessages.NeverLone | cm/wsServer.cpp:212-253 | in such a cutting the decoder is never called with a single byte |
| WsMessages.RoomLeft | cm/wsServer.cpp:301-302 | when every frame fits the buffer there is room in it before every receive |
| WsDecoder.Decoder.GetBuffer | cm/wsServer.h:293-297 | the place behind the unread bytes, and the room left of 40959 |
| WsDecoder.Decoder.Reset | cm/wsServer.h:279-291 | no unread bytes and no fragments |
| WsDecoder.Decoder.Consume | cm/wsServer.h:499-500 | the remaining bytes move to the front, in order |
| WsDecoder.Decoder.Unmask | cm/wsServer.h:419-425 | the payload with the mask undone |
| WsDecoder.Decoder.LongLength | cm/wsServer.h:351-355 | the eight length bytes added onto 127 |
| WsDecoder.Decoder.ReadHead | cm/wsServer.h:332-366 | what stands at the head of the unread bytes, though stale bytes behind them are looked at |
| WsDecoder.Decoder.Finish | cm/wsServer.h:448-494 | the cached fragments go before the final one, and give the type, exactly when they hold anything |
| WsDecoder.Decoder.TakeFrame | cm/wsServer.h:368-504 | the result, the remaining bytes and the cache after a complete frame |
| WsDecoder.Decoder.Decode | cm/wsServer.h:299-512 | one call is the function of the unread bytes and the cache; with a single byte the stale byte behind it decides |
| WsDecoder.Decoder.DoReceivedData | cm/wsServer.cpp:212-253 | the drain loop ends with the events, unread bytes and fragments of the specification |
| WsDecoder.Decoder.ClientRecv | cm/wsServer.cpp:299-311 | bytes received behind the unread ones are drained with them; a lone byte stays, or closes the connection exactly when the stale byte behind it has no mask bit |
| WsDecoder.Serve | cm/wsServer.cpp:261-313 | receive by receive until the connection closes, events, unread bytes and cached fragments are those of the receives as a stream |
| OsipList.List.Add | osipparser2/osip_list.c:99-172 | for every position: at the end for -1 and from the length on, at the position inside the list, after the first element below -1; the count grows by one |
| OsipList.List.Get | osipparser2/osip_list.c:175-195 | the element at the position, NULL exactly outside the list |
| OsipList.List.Remove | osipparser2/osip_list.c:248-285 | the element at the position goes and the others keep their order; outside the list nothing changes |
| OsipList.Iterator.GetFirst | osipparser2/osip_list.c:198-211 | the iterator stands before the first element |
| OsipList.Iterator.GetNext | osipparser2/osip_list.c:214-226 | it stands before the next one, or at the end |
| OsipList.Iterator.Remove | osipparser2/osip_list.c:229-245 | the element it stands before is unlinked, through the list head or the node before it, and it stands before the following one |
| OsipList.WalkStep | osipparser2/osip_list.c:198-245 | one step of a walk keeps: the kept elements so far, then the ones not yet seen |
| OsipList.RemoveChosen | osipparser2/osip_list.c:198-245 | a full walk that removes any chosen elements leaves exactly the others, in order, with the right count |
| Timers.ExpiresExactly | common/OPPTimerMonitor.cpp:45-48 | exactly when a stored key counts as expired: past the due time, or from the next full second when the microseconds carried or fell below zero |
| Timers.NeverEarly | common/OPPTimerMonitor.cpp:45-48 | never before the time asked for, and at most one second after it |
| Timers.InsertedSorted | common/OPPTimerMonitor.cpp:55 | the timers stay in key order |
| Timers.InsertedBehindEqual | common/OPPTimerMonitor.cpp:55 | the new timer comes behind those whose key is not greater, and the others keep their order |
| Timers.TowardsZero | common/OPPTimerMonitor.cpp:45-48 | division is that of C, towards zero for negative times |
| Timers.WithoutHolds | common/OPPTimerMonitor.cpp:86-109 | cancelling takes away every timer with the key, flag and interface, and no other |
| Timers.AppTimer.AddTimer | common/OPPTimerMonitor.cpp:38-58 | the timer is added under its key |
| Timers.AppTimer.CancelTimer | common/OPPTimerMonitor.cpp:86-109 | among the timers with an equal key, those of the flag and interface go, and no others; the caller's time is marked when one went |
| Timers.AppTimer.CheckExpires | common/OPPTimerMonitor.cpp:60-84 | the first timer fires if its key has passed, and leaves both indexes; when none fires, none has expired |
| Timers.AppTimer.StartTimer | cm/AppTimer.cpp:53-71 | the timer is in both indexes, or -1 and taken away again when its slot is taken |
| Timers.AppTimer.StopTimer | cm/AppTimer.cpp:73-85 | the slot's timer leaves both indexes; nothing happens for a free slot |
| Timers.StartKeeps | cm/AppTimer.cpp:53-71 | the indexes stay in agreement, in a free slot always, in a taken one exactly when no pending timer has the new key and flag |
| Timers.StopKeeps | cm/AppTimer.cpp:73-85 | they stay in agreement exactly when no other pending timer has the same key and flag |
| Timers.StopTakesBoth | cm/AppTimer.cpp:73-85 | of two timers started at one moment with one flag, stopping the first takes both away, and the second never fires |
| Timers.RestartTakesFirst | cm/AppTimer.cpp:53-71 | starting a timer again at the same moment fails and takes the first one away |
| Timers.RestartTakesOther | cm/AppTimer.cpp:53-71 | a failing start takes away another slot's timer with its key and flag |
| Timers.StoppedIsGone | cm/AppTimer.cpp:73-85 | after a stop no timer of the slot is pending |
| Timers.FireKeeps | cm/AppTimer.cpp:38-51 | firing the first timer keeps the indexes in agreement |
| Timers.TimersRun | cm/AppTimer.cpp:38-85 | in every such run both indexes hold the same timers, and each start fires at most once, notifying its owner, never once stopped, and never before its time |
| Timers.Perform | cm/AppTimer.cpp:38-85 | operations performed one after the other on the object leave the indexes and the notifications of the run |
| Timers.NothingOverdue | common/OPPTimerMonitor.cpp:60-84 | when a check finds nothing to fire, no pending timer is a second overdue |
| QuotedText.QuoteFind | osipparser2/osip_message_parse.c:480-515 | stands for __osip_quote_find (lines 616 to 680 of common/osip_port.c), called here: counting backslashes backwards finds the next quote that scanning forwards finds unescaped |
| QuotedText.QuoteTurns | osipparser2/osip_message_parse.c:474-481 | up to the next unescaped quote the text stays inside or outside quotes |
| QuotedText.InsideOdd | osipparser2/osip_message_parse.c:474-481 | a position is inside quotes exactly when an odd number of unescaped quotes comes before it |
| OsipText.TrimCuts | osipparser2/osip_message_parse.c:574 | stands for osip_clrspace (lines 506 to 540 of common/osip_port.c), called here: only blanks are cut, and all of them at both ends |
| OsipText.ToLowerIs | osipparser2/osip_message_parse.c:434 | stands for osip_tolower (lines 426 to 446 of common/osip_port.c), called here: the 26 capital letters become small ones |
| HeaderSplitter.NextComma | osipparser2/osip_message_parse.c:493-516 | the next comma that is not within quotes, or none |
| HeaderSplitter.Advance | osipparser2/osip_message_parse.c:473-546 | one turn finds the separator that closes the piece, or moves behind the next quotes; it makes progress |
| HeaderSplitter.Message.SetHeader | osipparser2/osip_message_parse.c:389-419 | the header is stored when its own parser accepts it |
| HeaderSplitter.Message.SetMultipleHeader | osipparser2/osip_message_parse.c:421-583 | for every line whose quotes pair up: the pieces between the commas outside quotes, trimmed, are stored in order up to the first error; an empty piece before the last is an error and a last piece of fewer than two characters is dropped; it ends |
| HeaderSplitter.PiecesJoin | osipparser2/osip_message_parse.c:421-583 | joined with commas the pieces are the line again |
| HeaderSplitter.StoredWhole | osipparser2/osip_message_parse.c:444-475 | a line without a comma, and a line of the sixteen headers named, is stored whole |
| HeaderSplitter.CutExactly | osipparser2/osip_message_parse.c:477-583 | any other line: the pieces before the first that ends it are stored, trimmed and in order; it ends with 0 at the last piece or a last piece too short, with a syntax error at an empty piece, or with the error of the piece its parser refuses |
| HeaderSplitter.AllStored | osipparser2/osip_message_parse.c:421-583 | when each trimmed piece is accepted and no piece is empty, every piece is stored |
| UriEscape.EscapeNew | osipparser2/osip_uri.c:820-867 | the escaped text; doubling the buffer is always enough for the next escape and the terminator |
| UriEscape.UnescapeInPlace | osipparser2/osip_uri.c:895-929 | the unescaped text, rewritten in its own buffer and terminated |
| UriEscape.UnescapeEscape | osipparser2/osip_uri.c:820-929 | unescaping undoes escaping, for every set of characters let through |
| UriEscape.EscapedAvoids | osipparser2/osip_uri.c:820-867 | escaped text holds no character outside its set |
| UriEscape.EscapeWrites | osipparser2/osip_uri.c:820-867 | text of characters let through stays as it is; another character becomes a percent sign and its two digits of "0123456789ABCDEF" |
| UriEscape.SetsAreGrammar | osipparser2/osip_uri.c:803-818 | each set lets through what section 25.1 of RFC 3261 has for user, password, parameters and headers |
| UriEscape.HexIs | osipparser2/osip_uri.c:820-929 | the digits written and read are those of the two alphabets |
| UriParser.OsipUri.ParseParamList | osipparser2/osip_uri.c:391-469 | the parameters the text defines are added, up to the first error, and the same code is returned |
| UriParser.OsipUri.ParseHeaderList | osipparser2/osip_uri.c:324-389 | the headers the text defines are added, up to the first error, and the same code is returned |
| UriParser.OsipUri.ParseUserPart | osipparser2/osip_uri.c:146-182 | user, password and the mark before the host |
| UriParser.OsipUri.ParsePlacePart | osipparser2/osip_uri.c:215-248 | port and host, found backwards from the parameters, an IPv6 host between its brackets |
| UriParser.OsipUri.Parse | osipparser2/osip_uri.c:95-251 | the URI the text defines, or its error code |
| UriPrinter.PrintPlace | osipparser2/osip_uri.c:503-547 | scheme, user, host and port fit the size counted beforehand |
| UriPrinter.PrintParams | osipparser2/osip_uri.c:549-579 | each parameter fits the size the buffer grew by |
| UriPrinter.PrintHeaders | osipparser2/osip_uri.c:581-617 | each header fits the size the buffer grew by |
| UriPrinter.ToStr | osipparser2/osip_uri.c:471-622 | the text of the URI, or OSIP_BADPARAMETER |
| UriRoundTrip.ParamsRead | osipparser2/osip_uri.c:391-469 | printed parameters are parsed as those parameters, trimmed, up to the first with an empty name or value, where the list ends with an error |
| UriRoundTrip.HeadersRead | osipparser2/osip_uri.c:324-389 | printed headers are parsed as those headers, trimmed, up to one with an empty value that is not the last |
| UriRoundTrip.RoundTrip | osipparser2/osip_uri.c:95-251 | for every URI whose scheme begins with sip in any case and whose host and port hold no separators, parse(print(u)) == u if and only if no part is empty that may not be, the port has at most seven characters, and there are no blanks around host, port, parameters and headers |
| UriRoundTrip.PrintedParses | osipparser2/osip_uri.c:95-251 | what parsing the printed URI gives in every such case: an error, or the URI without what is empty, cut off or blank |
| UriRoundTrip.SipExactly | osipparser2/osip_uri.c:124-125 | exactly the schemes whose first three letters are s, i and p in either case are taken for sip |
| UriRoundTrip.ForeignRead | osipparser2/osip_uri.c:124-136 | a URI of another scheme is kept as it is, when there are two characters of it |
| UriRoundTrip.SipByDefault | osipparser2/osip_uri.c:471-502 | a URI without a scheme is printed as a sip one |
| UriRoundTrip.NoScheme | osipparser2/osip_uri.c:106-122 | no text, no scheme of two characters, or a blank in it: the error code says which |
| UriRoundTrip.LateParams | osipparser2/osip_uri.c:193-205 | a semicolon behind the question mark is an error |
| UriRoundTrip.BracketsExactly | osipparser2/osip_uri.c:231-248 | what stands before the opening bracket of an IPv6 host is passed over; empty brackets and a closing bracket without an opening one are errors |

## Left out

- `dtoa` outside modes 0 to 3, its floating-point shortcuts (the quick path and the small-integer path) and its
  directed rounding variants; the logarithm estimate enters as an input that is floor(log10 d) or one more.
- Sign, zero, infinity and NaN in `dtoa` (handled before the exact path); digits are kept as numbers, not characters.
- `strtod` and its correction loop, `bigcomp`, and the scanning half of `gethex`, whose exponents too large to count
  are answered before the rounding modelled here; the free lists, freeing and running out of memory everywhere.
- Bigints.Bigint.Balloc: every number is new, where the source takes freed ones again.
- GFmt.LayoutFits: bounds decpt by 400 where doubles stay within PrintDouble.FloorRange.
- PrintDouble.PrintPositive: positive finite doubles on dtoa's exact path, which the source enters when its
  floating-point path gives up; the sign is covered by `GFmt.FpconvGFmt`.
- `strbuf` sizes of 2^31 and more.
- JsonEncoder.AppendNumber: takes the printed text; what the settings ask for NaN and infinities is not modelled.
- JsonEncoder.AppendObject: string keys; number keys and keys of other types are not modelled.
- JsonEncoder.AppendData: values that can be serialised; the error for other types is not modelled.
- JSON: sparse arrays and the Lua stack check; a string token carries its bytes at once instead of a pointer into the
  temporary buffer.
- JsonReads.TextDecodes: asks of strtod that it takes each number of the text whole where a value may end.
- JsonNumbers.PrintedRoundTrip: asks the same of strtod for printed numbers.
- JsonFound.DecodedIsText: numbers are whatever strtod takes and the settings do not refuse.
- JsonFound.ErrorsFounded: the wording of the messages is not modelled.
- The fifo built without threads, `osip_fifo_waitget` (its timed wait reports success on a timeout) and
  `osip_fifo_size`; failing mutexes; the return codes of add and insert.
- The MD5 block transform is any function from a state and a block to a state.
- Md5.Context.Update: for inputs on which the loop guard does not wrap around; `Md5.GuardExact` says which they are.
- WsDecoder.Decoder.Decode: from the end of the handshake on; the handshake, the raw decoder, sockets and encoders are
  not modelled.
- WsDecoder.Decoder.Reset: does not model the handshake flag, which it clears too.
- WsDecoder.Decoder.LongLength: sums exactly where the source adds doubles into 64 bits.
- WsDecoder.Decoder.Consume: copies upwards, lowest byte first, where the source calls memcpy on overlapping ranges and
  relies on that order.
- WsMessages.MessagesDelivered: for frames with 7-bit and 16-bit lengths, `WsMessages.LongSwallows` saying what
  becomes of longer ones; a frame larger than the buffer never completes, as in `WsDecoder.Decoder.GetBuffer`.
- OsipList.List.Add: allocation always succeeds. `osip_list_clone` and the freeing loops only call the operations
  modelled here.
- The clock of the timers is a parameter, several interfaces sharing one timer map, and `DelTimer`.
- Header lookup by name and the parsers of the individual headers: which value they accept is a parameter of the
  splitter.
- HeaderSplitter.Message.SetHeader: an unknown header is always stored; when memory runs out the source returns success
  without storing it.
- HeaderSplitter.Message.SetMultipleHeader: says nothing about lines with an unclosed quote.
- UriEscape.UnescapeInPlace: a "%00" becomes a zero character and the text goes on, where readers of the C string stop.
- UriParser.OsipUri.Parse: what a failed parse leaves in the object is not said. What sscanf makes of other than two
  hexadecimal digits is a parameter.
- URI comparison, cloning, `osip_uri_to_str_canonical`; base64, SHA-1, STUN, authentication headers and the event loop.
