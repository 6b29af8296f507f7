# Proofs about nawa's codecs, session store and password format

This project models the parts of nawa whose behaviour is hardest to see from the code, and proves
what they are for: that the Punycode codec, the mail transfer encodings, the MIME printer and
parser and the bcrypt format undo each other, and that the session store is safe in every run.

How it is organised:

- **Punycode.** `PunycodeVarInt` is the arithmetic of section 3.3 and 6.1 of RFC 3492,
  `PunycodeSpec` says what the encoder and the decoder compute, and `PunycodeCodec` holds the two
  C functions as methods over arrays, with their cursors, guards and `memmove`, proved to compute
  just that, also when the buffer is too small. `PunycodeRoundTrip` runs encoder and decoder in lock
  step and proves for which labels decoding undoes encoding. `PunycodeCanonical` runs them against
  each other the other way round and proves for which strings encoding undoes decoding.
  `PunycodeNotation` says in the numbers of the standard what is written: which integers, in which
  digits, with which bias after each; `PunycodeLenient` what is done with strings no encoder writes
  and with small buffers. `PunycodeSize` proves the buffer guess of the domain encoder. `DomainNames` lifts all of it to
  dotted domains (with `Splitting` for `splitString`). `Arithmetic` holds recursive forms of
  `*`, `/` and `%` and proves them equal to the operators, and `Sequences` a few laws of concatenation.
- **Mail.** `Base64`, `QuotedPrintable` (with `RegexReplace` for `regexReplaceCallback`),
  `MimeMessage` (printer, header fields), `MimeParser` (the class `MimeMultipart`), `MimeBoundary`
  (which boundary is found in any content type), `MimeBody` (what the parser makes of multipart bodies
  in general), `MimeRoundTrip` (the parser reads back what the printer wrote, because no encoded body
  can contain a generated boundary), `Searching` for `std::string::find`.
- **Sessions.** `SessionMachine` is a step machine in which every region under the global lock is one
  event; its theorems speak about all runs with any interleaving of connections and a clock that
  does not go back. `SessionLife` says when sessions begin, are extended and end, in times and
  without the functions of the machine. `SessionStore` holds the same code as classes with fields that
  are updated in place; every method is proved to be an event, or a short run, of the machine.
- **bcrypt.** `BcryptBase64`, `KeyExpansion` and `Bcrypt`; the cipher is an arbitrary function of the
  two expanded keys, the number of rounds and the salt. `BcryptSettings` says which texts are settings
  and, by subtype letter and in terms of the bytes of the password, what the cipher is given.

Results that are not what the code's documentation, or a reader's first guess, says:

- `punycode_encode` returns a non-empty all-ASCII label without a delimiter, and no such label is
  ever decoded to itself. `PunycodeRoundTrip.RoundTripExactly` gives the exact condition; one level
  up `DomainNames.DomainRoundTrip` gives it for domains.
- `punycode_decode` on an empty source fills the whole buffer: its search starts in front of the
  source, the index is `SIZE_MAX`, and as many characters are copied as there is room for, from behind
  the source. `PunycodeSpec.CopiesInsideExactly` gives the exact condition for the copies to stay
  inside, `PunycodeRoundTrip.EmptyLabelFilled` the smallest case; the domain decoder always meets the
  condition, because its buffer is as long as the source.
- The count that `punycode_encode` returns is not always the documented number of converted code
  points: with room left behind the basic code points it is the whole length, also when the extended
  part is cut off (`CutOffIsCounted`), and when a basic code point fills the buffer it includes the
  non-basic ones passed over before (`PassedOverIsCounted`). `PunycodeCodec.CountRightExactly` says
  exactly when it is right.
- The deltas are written in full, but cut to 32 bits for the adaptation of the bias, unlike section 6.1
  of RFC 3492 has it, which shows in labels of some thousand code points (`PunycodeNotation.BiasTruncated`
  has one of 4096).
- The multipart parser loses contents of a single character: its test for a content asks for more than
  seven characters between the end of the headers and the delimiter, where the breaks and one character
  make seven (`MimeBody.ContentExactly`; the form field "x" in `MimeBody.OneCharacterLost`).
- A session that is looked up gets the deadline of that lookup, also an earlier one; it ends at once if
  the duration is zero or the deadline no signed 64-bit number (`SessionLife.ResumedDeadExactly`).
- The parser reads what `mergeMimePartList` has written, but refuses the body of a whole printed
  message, because `getRaw` writes a preamble in front of it (`MimeRoundTrip.PreambleRefused`).
- A quoted-printable part comes back from the multipart parser with the line break that the printer
  adds (`MimeRoundTrip.DataComesBack`); base64 decoding ignores it.
- `Session::invalidate` erases by id. If the id of a collected session has been generated again, it
  ends the wrong session (`SessionMachine.ReusedIdIsErased` is such a run); it spares all others
  exactly if the id was not given away (`EraseSparesOthers`), hence in every run in which no id is
  generated twice (`InvalidatesOwnOnly`).
- `utils::parseHeaders` turns a line without a colon into a field whose key and value are both the
  whole line: `find_first_of` returns `npos`, and in `size_t` both `npos + 2` and `npos + 1` wrap
  around (`MimeMessage.PositionsWrap`, `MimeMessage.PutField`). `MimeMessage.FieldWithoutColon` says
  that this happens exactly for lines without a colon.

Conventions: `size_t` is 64 bits wide, `uint32_t` and `unsigned` 32 bits, and where the code narrows
a value the model does so too (`PunycodeVarInt.Low32`, `SessionMachine.Expiry`). Shifts and masks of
non-negative numbers are written as `/`, `%` and `*`, except in `KeyExpansion`, which uses bit
vectors. Bytes are characters or numbers below 256. The overflow branches, which call `assert(0)`
and then jump to `fail`, are modelled as the jump. Random numbers, generated ids, clock readings and
configuration values are parameters.

## Model

| member | source | states |
|---|---|---|
| `Arithmetic.MulIs` | libs/punycode/punycode.c:151 | the recursive product is the operator of the code |
| `Arithmetic.DivModIs` | libs/punycode/punycode.c:258-259 | the recursive quotient and remainder are the operators of the code |
| `PunycodeVarInt.DigitRoundTrip` | libs/punycode/punycode.c:55-62 | every digit 0..35 is written as a lower-case letter or decimal digit and read back as itself |
| `PunycodeVarInt.DigitCanonical` | libs/punycode/punycode.c:98-109 | a lower-case digit is what the encoder writes for its value |
| `PunycodeVarInt.DigitSplit` | libs/punycode/punycode.c:85-87 | the digit written is in 0..35, so the assertion in `encode_digit` holds, and digit and rest add up to the integer at any weight |
| `PunycodeVarInt.VarIntDigits` | libs/punycode/punycode.c:65-96 | an encoded integer is never empty and consists of lower-case digits |
| `PunycodeVarInt.ReadBack` | libs/punycode/punycode.c:214-248 | for every bias the decoder's inner loop reads exactly the encoded delta, whatever follows, and stops at its end; an overflow guard can fire only for sums above 2^64 / 36 |
| `PunycodeVarInt.WriteBack` | libs/punycode/punycode.c:214-248 | whatever the inner loop accepts in lower-case digits is what `encode_var_int` writes for the value read: the representation is unique |
| `PunycodeVarInt.ScaleDownBound` | libs/punycode/punycode.c:48-50 | the scaling loop runs at most five times for 32-bit deltas and ends at 455 or less |
| `PunycodeVarInt.AdaptBiasRange` | libs/punycode/punycode.c:41-53 | no intermediate value of the adaptation leaves 32 bits, neither the sum nor the counter nor the product and the divisor of the last line, and the bias is below 216 |
| `PunycodeSpec.BelowConcat` | libs/punycode/punycode.c:154-167 | filtering by code point distributes over concatenation |
| `PunycodeSpec.BelowAll` | libs/punycode/punycode.c:117-121 | filtering keeps everything if and only if nothing is to be dropped |
| `PunycodeSpec.MinFromLeast` | libs/punycode/punycode.c:139-143 | the search finds the least code point from n on, or `SIZE_MAX` if there is none |
| `PunycodeSpec.NextPoint` | libs/punycode/punycode.c:137-152 | while code points are left the search finds one, skips none, and the sweep for it handles more than before: the outer loop ends |
| `PunycodeSpec.CountStep` | libs/punycode/punycode.c:154-167 | how one step of the sweep moves an element from the unseen to the seen part |
| `PunycodeSpec.CopiesInsideExactly` | libs/punycode/punycode.c:195-205 | with the delimiter index in `size_t`, the copied characters lie inside the source if and only if it is not empty or the buffer has no room |
| `PunycodeRoundTrip.PointDistance` | libs/punycode/punycode.c:258-259 | the accumulated delta, divided by the length plus one, gives the distance in code points and the position, and stays away from the guards when there is room |
| `PunycodeRoundTrip.DecodeDelta` | libs/punycode/punycode.c:211-263 | one round of the decoder on a delta of the encoder inserts the right code point at the right place and adapts the bias alike, unless a guard stops it |
| `PunycodeRoundTrip.EmitInStep` | libs/punycode/punycode.c:161-166 | after an insertion the decoder's output is the source filtered to what the encoder has handled, and the machines are in step again |
| `PunycodeRoundTrip.SkipInStep` | libs/punycode/punycode.c:155-160 | passing over another element keeps the machines in step |
| `PunycodeRoundTrip.WrapInStep` | libs/punycode/punycode.c:137 | the end of a sweep keeps them in step |
| `PunycodeRoundTrip.JumpInStep` | libs/punycode/punycode.c:145-152 | the jump to the next code point keeps them in step |
| `PunycodeRoundTrip.LockStep` | libs/punycode/punycode.c:154-167 | from every matching pair of states the decoder ends with exactly the encoder's source, having read all and refused nothing; only for labels too large for the guards it may be stopped before |
| `PunycodeRoundTrip.LockStepNext` | libs/punycode/punycode.c:137-168 | the same for states at the head of the outer loop |
| `PunycodeRoundTrip.NextSweepIsDigits` | libs/punycode/punycode.c:161-166 | the extended part consists of lower-case digits |
| `PunycodeRoundTrip.DelimiterFound` | libs/punycode/punycode.c:195-198 | the reverse search finds the delimiter that the encoder wrote |
| `PunycodeRoundTrip.EncodeIsAscii` | libs/punycode/punycode.c:111-176 | the output is ASCII |
| `PunycodeRoundTrip.EncodeReplayed` | libs/punycode/punycode.c:111-270 | for all 32-bit code points the decoder gives an encoded label back, or, when there is no room for its sums, an overflow guard stops it with fewer code points |
| `PunycodeRoundTrip.EncodeDecode` | libs/punycode/punycode.c:111-270 | every label up to U+10FFFF with a non-basic code point is decoded from its encoding, with no guard firing |
| `PunycodeRoundTrip.AsciiChanges` | libs/punycode/punycode.c:125-131 | no non-empty ASCII string is decoded to itself |
| `PunycodeRoundTrip.RoundTripExactly` | libs/punycode/punycode.c:111-270 | a label comes back, with the right number of code points reported, if and only if it has a non-basic code point or is empty and so is the buffer |
| `PunycodeRoundTrip.EmptyLabelFilled` | libs/punycode/punycode.c:195-205 | the empty label in a buffer for one code point: one code point is reported |
| `PunycodeRoundTrip.BasicFixed` | libs/punycode/punycode.c:125-131 | a label of basic code points is returned as it is |
| `PunycodeRoundTrip.EncodeInjective` | libs/punycode/punycode.c:111-176 | two different labels with non-basic code points have different encodings |
| `PunycodeCanonical.SkipTo` | libs/punycode/punycode.c:137-168 | the encoder passes over everything up to the next element it has to handle, whatever the state it comes from |
| `PunycodeCanonical.SplitAt` | libs/punycode/punycode.c:154-167 | a prefix of a filtered label is the filtered prefix of the label |
| `PunycodeCanonical.RoundRead` | libs/punycode/punycode.c:211-263 | what an accepted round has read, and the state it leads to |
| `PunycodeCanonical.BackOneRound` | libs/punycode/punycode.c:211-263 | the encoder on the final label, in the state before a round, writes the integer that the round has read |
| `PunycodeCanonical.BackInStep` | libs/punycode/punycode.c:211-263 | from any state of the decoder, the encoder on the final label writes exactly what the decoder has still to read |
| `PunycodeCanonical.DecodeEncode` | libs/punycode/punycode.c:111-270 | a canonical string is the encoding of what it decodes to |
| `PunycodeCanonical.CanonicalExactly` | libs/punycode/punycode.c:111-270 | for every non-empty string, encoding undoes decoding if and only if the string is canonical: ASCII, a non-empty lower-case extended part, read to its end without a refusal or a code point above 32 bits |
| `PunycodeCanonical.EncodedShape` | libs/punycode/punycode.c:125-131 | the extended part of an encoded label is not empty and in lower case |
| `PunycodeSize.ShortVarInt` | libs/punycode/punycode.c:65-96 | integers below the bound for n digits take at most n digits, whatever the bias |
| `PunycodeSize.VarIntLength` | libs/punycode/punycode.c:65-96 | at most seven digits and one more for every `LONG_DELTA` |
| `PunycodeSize.SweepLength` | libs/punycode/punycode.c:137-168 | the deltas of a label share one way, so all digits together are bounded |
| `PunycodeSize.EncodeAtLeast` | libs/punycode/punycode.c:111-176 | the encoding is at least as long as the label |
| `PunycodeSize.Utf8AtLeast` | src/util/encoding.cpp:362 | non-basic code points take at least two bytes |
| `PunycodeSize.BufferSuffices` | src/util/encoding.cpp:360-365 | four times the UTF-8 length of a label is always room enough, so no label is cut off |
| `PunycodeNotation.NotatesUnique` | libs/punycode/punycode.c:65-96 | section 3.3 of RFC 3492: a number has only one text in digits whose weights and thresholds depend on the bias |
| `PunycodeNotation.VarIntNotates` | libs/punycode/punycode.c:65-96 | the text written for a number is its text in that notation, with a-z for 0 to 25, 0-9 for 26 to 35 and thresholds 36 * (j + 1) - bias between 1 and 26 |
| `PunycodeNotation.AdaptBiasMeans` | libs/punycode/punycode.c:41-53 | section 6.1: the next bias is 36 * k + 36 * s / (s + 38), where s is delta / 700 for the first delta and delta / 2 later, plus its share per code point, divided by 35 k times, with k least for s to be 455 or below |
| `PunycodeNotation.BiasTruncated` | libs/punycode/punycode.c:41-53 | an insertion for which the bias of the code is not that of the standard |
| `PunycodeNotation.OneInsertion` | libs/punycode/punycode.c:137-168 | one insertion writes the number of insertion points passed over, with this bias, and goes on behind it |
| `PunycodeNotation.SweepWrites` | libs/punycode/punycode.c:137-168 | all code points left are written like this, in the order of the code points, equal ones from left to right |
| `PunycodeNotation.EncodeWrites` | libs/punycode/punycode.c:111-176 | the whole text of every label: the basic code points, a delimiter if there are any and something follows, and the insertions from code point 128, place 0 and bias 72 on |
| `PunycodeNotation.FirstThresholds` | libs/punycode/punycode.c:134 | with the first bias the thresholds are 1, 1, 26, 26, and so on |
| `PunycodeNotation.OneCodePoint` | libs/punycode/punycode.c:111-176 | a label whose only non-basic code point is c at place p among b others: these, the delimiter if b > 0, and the digits of (c - 128) * (b + 1) + p |
| `PunycodeNotation.Example` | libs/punycode/punycode.c:111-176 | U+00FC is encoded as "tda" |
| `PunycodeNotation.DecodesOne` | libs/punycode/punycode.c:178-270 | any text of one number q behind b ASCII characters is decoded to these and the code point 128 + q / (b + 1), cut to 32 bits, at place q % (b + 1) |
| `PunycodeLenient.DecodeIgnoresCase` | libs/punycode/punycode.c:98-109 | digits are read the same in upper and lower case |
| `PunycodeLenient.RefusedExactly` | libs/punycode/punycode.c:188-193 | nothing is read of a string if and only if it has a byte above 127; then nothing is decoded |
| `PunycodeLenient.DecodeStops` | libs/punycode/punycode.c:211-222 | a character that is no digit ends the decoding: what was decoded before it stays, and it counts as read |
| `PunycodeLenient.RoomIgnored` | libs/punycode/punycode.c:203-263 | as long as the buffer does not get full, its size does not matter |
| `PunycodeLenient.NoRoomLeft` | libs/punycode/punycode.c:203-211 | a buffer that the characters in front of the delimiter fill gets these, or as many as there is room for, and nothing else |
| `PunycodeCodec.AdaptedBias` | libs/punycode/punycode.c:41-53 | the loop computes the bias adaptation, below 216 |
| `PunycodeCodec.EncodeVarInt` | libs/punycode/punycode.c:65-96 | writes as much of the integer as there is room for, and nothing else |
| `PunycodeCodec.CopyBasics` | libs/punycode/punycode.c:117-121 | copies the basic code points as far as there is room |
| `PunycodeCodec.FindNext` | libs/punycode/punycode.c:139-143 | finds the least code point from n on |
| `PunycodeCodec.JumpFits` | libs/punycode/punycode.c:145-151 | the overflow guard of the encoder does not fire and the sum fits |
| `PunycodeCodec.SweepOnce` | libs/punycode/punycode.c:154-167 | one sweep writes what the specification says, clipped to the buffer, and no delta overflows |
| `PunycodeCodec.Sweeps` | libs/punycode/punycode.c:137-168 | the main loop writes the whole extended part, clipped to the buffer |
| `PunycodeCodec.PunycodeEncode` | libs/punycode/punycode.c:111-176 | the buffer holds the first characters of the encoding, whose text `PunycodeNotation.EncodeWrites` states, and is untouched behind them; the count returned, whose meaning `CountRightExactly` states |
| `PunycodeCodec.CountRightExactly` | libs/punycode/punycode.c:174-175 | the returned count is the number of converted code points if and only if the whole encoding fits or the buffer is filled by basic code points from the start of the source |
| `PunycodeCodec.CutOffIsCounted` | libs/punycode/punycode.c:174-175 | "a" and U+00FC with room for two characters: 2 is returned, and only "a-" is written |
| `PunycodeCodec.PassedOverIsCounted` | libs/punycode/punycode.c:174-175 | U+00FC and "a" with room for one character: 2 is returned, and only "a" is written |
| `PunycodeCodec.ReadDelta` | libs/punycode/punycode.c:214-248 | the inner loop reads one integer or stops at the refused character |
| `PunycodeCodec.Insert` | libs/punycode/punycode.c:261-262 | `memmove` and store insert one element and leave the rest alone |
| `PunycodeCodec.FindDelimiter` | libs/punycode/punycode.c:195-198 | the reverse search stops at the last delimiter or at the start, and for an empty source in front of it, which is `SIZE_MAX` as an index |
| `PunycodeCodec.AllAscii` | libs/punycode/punycode.c:188-193 | the check for bytes above 127 |
| `PunycodeCodec.DecodeRounds` | libs/punycode/punycode.c:207-263 | the main loop in place computes the decoder's rounds, also when it fails |
| `PunycodeCodec.StartIndex` | libs/punycode/punycode.c:211 | the main loop starts behind the delimiter; for an empty source the index wraps around to 0 |
| `PunycodeCodec.PunycodeDecode` | libs/punycode/punycode.c:178-270 | for every source that is not empty, or an empty buffer, the destination holds the decoded label and is untouched behind it; the count returned |
| `Splitting.FindFirstOf` | src/util/utils.cpp:451 | the index of the first delimiter, or the length |
| `Splitting.SplitString` | src/util/utils.cpp:448-463 | the loop returns the tokens |
| `Splitting.SplitProper` | src/util/utils.cpp:448-463 | with empty tokens ignored, every token is non-empty and free of the delimiter |
| `Splitting.SplitJoin` | src/util/utils.cpp:448-463 | splitting joined non-empty tokens gives the tokens back |
| `Splitting.JoinSplit` | src/util/utils.cpp:448-463 | joining the tokens gives the string back if and only if it has no empty token |
| `Splitting.AllTokens` | src/util/utils.cpp:448-463 | with empty tokens kept, joining gives the string back but for a delimiter at its end |
| `Splitting.EmptyIgnored` | src/util/utils.cpp:453 | ignoring empty tokens leaves out these and no others |
| `DomainNames.LabelRoundTrip` | src/util/encoding.cpp:360-375 | a label comes back unless it is an ASCII label that starts with `xn--`; that one gets shorter |
| `DomainNames.LabelProper` | src/util/encoding.cpp:360-375 | an encoded label is not empty and has no dot |
| `DomainNames.PartsRoundTrip` | src/util/encoding.cpp:355-411 | the same for all labels of a domain, with a bound on the length |
| `DomainNames.DomainRoundTrip` | src/util/encoding.cpp:355-411 | a domain comes back if and only if it has no empty label and no ASCII label that starts with `xn--` |
| `DomainNames.DomainFixedPoints` | src/util/encoding.cpp:355-378 | encoding returns a domain as it is if and only if it is ASCII and has no empty label |
| `DomainNames.EncodedLabel` | src/util/encoding.cpp:366-374 | ASCII labels are written as they are, all others with "xn--" in front of their encoding |
| `DomainNames.DecodedLabel` | src/util/encoding.cpp:385-408 | behind "xn--" the decoding of the rest, or nothing if that is not ASCII; all other labels as they are |
| `DomainNames.LabelByLabel` | src/util/encoding.cpp:355-411 | the labels between full stops are encoded and decoded one by one |
| `DomainNames.PunycodeEncodeDomain` | src/util/encoding.cpp:355-378 | the loop over the labels encodes the domain |
| `DomainNames.EncodeOneLabel` | src/util/encoding.cpp:361-375 | one label through the allocated buffer, which is never too small |
| `DomainNames.PunycodeDecodeDomain` | src/util/encoding.cpp:380-411 | the loop over the labels decodes the domain |
| `DomainNames.DecodeOneLabel` | src/util/encoding.cpp:385-408 | one label, copied or decoded |
| `Base64.Emit` | libs/base64/base64.cpp:66-71 | one symbol, after a break if the line is full |
| `Base64.EmitAll` | libs/base64/base64.cpp:65-72 | a group of symbols with breaks in the right places |
| `Base64.EmitRest` | libs/base64/base64.cpp:77-104 | the incomplete group and its padding |
| `Base64.Base64Encode` | libs/base64/base64.cpp:49-108 | the loop writes the symbols of the input with breaks |
| `Base64.Base64Decode` | libs/base64/base64.cpp:110-147 | the loop decodes the symbols before the first foreign character, without white space |
| `Base64.SymbolsDecode` | libs/base64/base64.cpp:49-147 | four symbols or padding characters for every three bytes or part of them, and the symbols decode to the bytes |
| `Base64.BreaksAt` | libs/base64/base64.cpp:65-72 | where every symbol stands and how long the text is: a break after each full line and none at the end |
| `Base64.PayloadOfBreaks` | libs/base64/base64.cpp:119-120 | white-space breaks do not change what the decoder sees |
| `Base64.EncodeDecode` | libs/base64/base64.cpp:49-147 | decoding undoes encoding for every input, every line length and every white-space break |
| `Base64.FindInAlphabet` | libs/base64/base64.cpp:35-38 | the symbols are exactly the characters of table 1 of RFC 4648, each with its index as value |
| `Base64.GroupMeans` | libs/base64/base64.cpp:49-108 | three bytes are the four symbols of the same number, two bytes three symbols of four times it and "=", one byte two symbols of sixteen times it and "==" |
| `Base64.SymbolsConcat` | libs/base64/base64.cpp:56-76 | longer inputs are written three bytes at a time |
| `Base64.DecodedMeans` | libs/base64/base64.cpp:119-147 | up to four symbols give the bytes of their number without the bits that fill no byte; a single symbol gives none |
| `Base64.DecodedConcat` | libs/base64/base64.cpp:119-136 | longer texts are decoded four symbols at a time |
| `Base64.PayloadMeans` | libs/base64/base64.cpp:41-47 | decoding skips carriage return, line feed, tab and space and stops at every other character outside the alphabet |
| `QuotedPrintable.EscapeRoundTrip` | src/util/encoding.cpp:313 | an escape is two upper-case hexadecimal digits that give the byte back |
| `QuotedPrintable.QuotedPrintableEncode` | src/util/encoding.cpp:290-318 | the loop with its line count writes the encoding, which `EncodeWraps` and `EncodeQ` state character by character |
| `QuotedPrintable.ScanRewrites` | src/util/encoding.cpp:325-334 | rewriting the matches is one pass from left to right |
| `QuotedPrintable.QuotedPrintableDecode` | src/util/encoding.cpp:320-337 | the decoder computes that pass, after underscores in Q mode |
| `QuotedPrintable.RewritePiece` | src/util/encoding.cpp:293-316 | what is written for one character is decoded to it, soft break included, and leaves the rest alone |
| `QuotedPrintable.DecodePlainMore` | src/util/encoding.cpp:290-337 | an encoded text followed by anything is decoded to the input followed by the decoded rest |
| `QuotedPrintable.DecodeQ` | src/util/encoding.cpp:290-337 | the same in Q mode |
| `QuotedPrintable.EncodeDecode` | src/util/encoding.cpp:290-337 | decoding undoes encoding for every byte string, in Q mode and for line endings CRLF and LF |
| `QuotedPrintable.LinesOf76` | src/util/encoding.cpp:295-315 | no line is longer than 76 characters including the soft break |
| `QuotedPrintable.EncodedHasNoMark` | src/util/encoding.cpp:293-316 | the pair `=_` does not occur in encoded text |
| `QuotedPrintable.EncodeWraps` | src/util/encoding.cpp:290-318 | outside Q mode the text is the tokens of the characters, printable ASCII but "=" as it is, kept line breaks as they are, "=XX" otherwise, with a soft break in front of each token that would make a line longer than 75 |
| `QuotedPrintable.EncodeQ` | src/util/encoding.cpp:290-318 | in Q mode the tokens one after the other, with "_" for a space and "=XX" for "?" and "_" |
| `QuotedPrintable.OutputAllowed` | src/util/encoding.cpp:294-313 | the output is printable 7-bit text and line breaks, in Q mode without space and "?", and with all line breaks escaped without line breaks |
| `QuotedPrintable.BreaksAreSoft` | src/util/encoding.cpp:293-316 | with line breaks escaped, a line break stands only behind the "=" of a soft break |
| `QuotedPrintable.ShortTextUnchanged` | src/util/encoding.cpp:294-300 | outside Q mode up to 75 printable characters without "=" are returned unchanged |
| `QuotedPrintable.EscapeValue` | src/util/encoding.cpp:325-334 | "=" and two upper-case hexadecimal digits are decoded to the character of their value |
| `QuotedPrintable.StrayEqualsStays` | src/util/encoding.cpp:325 | every other "=" that no line break follows stays |
| `RegexReplace.RegexReplaceCallback` | src/util/utils.cpp:213-245 | the state machine puts prefixes, replaced matches and the suffix together |
| `Searching.IndexOfFirst` | src/util/MimeMultipart.cpp:126 | `find` returns the first occurrence if there is one |
| `Searching.OccursBeside` | src/util/MimeMultipart.cpp:126 | a pattern without some character occurs on one side of it or on the other |
| `MimeMessage.PrintHeaders` | src/mail/Email/impl/MimeEmail.cpp:85-96 | the header lines of a part |
| `MimeMessage.PrintPart` | src/mail/Email/impl/MimeEmail.cpp:81-118 | delimiter, headers, blank line and encoded data of a part |
| `MimeMessage.MergeMimePartList` | src/mail/Email/impl/MimeEmail.cpp:75-132 | all parts in order and the closing delimiter |
| `MimeMessage.ParseHeaders` | src/util/utils.cpp:550-567 | the loop builds the map of all fields, later ones replacing earlier ones |
| `MimeMessage.PutField` | src/util/utils.cpp:557-564 | the positions are computed in `size_t`; for `npos` they wrap around to 1 and 0, so a line without a colon is stored under its whole text; all other lines are stored as `FieldAroundColon` says |
| `MimeMessage.PositionsWrap` | src/util/utils.cpp:557-563 | in `size_t` arithmetic the test drops exactly the empty line and the line whose first colon is its last character, and the value starts behind the colon or, without one, at 0 |
| `MimeMessage.FieldWithoutColon` | src/util/utils.cpp:557-564 | a line is a field under its own whole text if and only if it has no colon |
| `MimeMessage.FieldAroundColon` | src/util/utils.cpp:557-564 | the text before the first colon in lower case is the key, the text behind it without leading white space the value; with nothing behind it there is no field |
| `MimeMessage.FieldOfPrinted` | src/util/utils.cpp:557-564 | a printed header line is the field of its name and its value |
| `MimeMessage.HeadersOfLines` | src/util/utils.cpp:550-567 | a printed block of header lines is split into the same lines again |
| `MimeMessage.LowerMeans` | src/util/utils.cpp:561 | letters of the upper case and only these become those of the lower case |
| `MimeMessage.TrimMeans` | src/util/utils.cpp:563 | all white space in front of a value is cut off, and nothing else |
| `MimeMessage.CarriageReturnIgnored` | src/util/utils.cpp:553 | a carriage return anywhere changes nothing |
| `MimeMessage.LineFeedsSeparate` | src/util/utils.cpp:555 | line feeds alone separate lines, and empty lines do not count |
| `MimeParser.ParseRound` | src/util/MimeMultipart.cpp:108-156 | the body of the loop: closing, malformed, or one part and the rest |
| `MimeParser.MimeMultipart.constructor` | src/util/MimeMultipart.cpp:48 | a new object has no parts |
| `MimeParser.MimeMultipart.Parse` | src/util/MimeMultipart.cpp:86-160 | the loop appends the parsed parts, keeps those found before an error, and sets the content type only at the end; it ends because the content shrinks; `MimeBoundary` and `MimeBody` state which boundary and which parts these are |
| `MimeParser.MimeMultipart.Clear` | src/util/MimeMultipart.cpp:162-165 | the object is empty again |
| `MimeBoundary.ClassIs` | src/util/MimeMultipart.cpp:87 | the characters of a boundary are letters, decimal digits, space and the twelve signs of the pattern |
| `MimeBoundary.FindsFirst` | src/util/MimeMultipart.cpp:87-92 | the boundary is the longest run of such characters behind the left-most "boundary=", with an optional quote, that is followed by one |
| `MimeBoundary.NoneExactly` | src/util/MimeMultipart.cpp:87-91 | there is none if and only if no "boundary=" is followed by such a character |
| `MimeBoundary.ValueFound` | src/util/MimeMultipart.cpp:87-92 | the boundary b in a + "boundary=" + b + rest is found, with or without a quote in front of it |
| `MimeBody.RawReadBack` | src/util/MimeMultipart.cpp:108-156 | one round reads any part with header lines and a content that do not contain the delimiter |
| `MimeBody.BodyReadBack` | src/util/MimeMultipart.cpp:106-157 | all parts of any such body, as browsers send it, are read in order, whatever follows |
| `MimeBody.ContentExactly` | src/util/MimeMultipart.cpp:151-153 | a content comes back if and only if it is not a single character |
| `MimeBody.OneCharacterLost` | src/util/MimeMultipart.cpp:151-153 | the form field "x" arrives empty |
| `MimeBody.Closes` | src/util/MimeMultipart.cpp:114-117 | the closing delimiter ends the body, whatever stands behind it |
| `MimeBody.NoDelimiterMalformed` | src/util/MimeMultipart.cpp:109-111 | a text that does not begin with the delimiter and two more characters is malformed |
| `MimeBody.OtherMalformed` | src/util/MimeMultipart.cpp:114-122 | so is a delimiter followed by neither two hyphens nor a line break |
| `MimeBody.UnfinishedMalformed` | src/util/MimeMultipart.cpp:126-129 | and a part that no delimiter follows |
| `MimeBody.HeadersOnly` | src/util/MimeMultipart.cpp:132-138 | text without a blank line up to the next delimiter is all headers, or malformed if shorter than four characters |
| `MimeBody.ShortHeadersMalformed` | src/util/MimeMultipart.cpp:136-138 | headers of fewer than four characters are malformed |
| `MimeBody.NoContentType` | src/util/MimeMultipart.cpp:142-144 | a part without a Content-Type field has an empty content type |
| `MimeBody.IndexAfterBreak` | src/util/MimeMultipart.cpp:126 | the first delimiter after a block that contains none is the one behind it |
| `MimeBody.BlankLineAfter` | src/util/MimeMultipart.cpp:132 | the first blank line is the one that ends the header lines |
| `MimeRoundTrip.PartReadBack` | src/util/MimeMultipart.cpp:108-156 | one round reads one printed part and leaves the rest |
| `MimeRoundTrip.PartsReadBack` | src/util/MimeMultipart.cpp:106-157 | as many parts as were printed, in order, with their fields and payloads, and no error |
| `MimeRoundTrip.EncodedFree` | src/mail/Email/impl/MimeEmail.cpp:39-48 | a generated delimiter occurs in no base64 and no quoted-printable payload |
| `MimeRoundTrip.Base64Payload` | src/mail/Email/impl/MimeEmail.cpp:103-106 | where every base64 symbol of a payload stands: a break after every 76, none at the end |
| `MimeRoundTrip.OtherPayload` | src/mail/Email/impl/MimeEmail.cpp:107-114 | quoted-printable payloads keep the line breaks of the data and have soft breaks with CRLF; data without an encoding is sent as it is |
| `MimeRoundTrip.BoundaryFound` | src/util/MimeMultipart.cpp:87-92 | the parser finds the generated boundary in the content type that the printer's caller writes |
| `MimeRoundTrip.PrintParse` | src/mail/Email/impl/MimeEmail.cpp:75-132 | parsing undoes printing for every list of leaf parts and every generated boundary |
| `MimeRoundTrip.PreambleRefused` | src/mail/Email/impl/MimeEmail.cpp:308-309 | the parser refuses the merged parts with the preamble that `getRaw` writes in front of them |
| `MimeRoundTrip.DataComesBack` | src/mail/Email/impl/MimeEmail.cpp:94-118 | decoding a received part gives the original data; quoted-printable and plain data get one line break |
| `MimeRoundTrip.FieldComesBack` | src/util/utils.cpp:550-567 | a printed field comes back under its lower-case name, with its value without leading white space, unless a later one has the same name |
| `MimeRoundTrip.NamesComeBack` | src/util/utils.cpp:550-567 | the received names are exactly the printed ones in lower case |
| `MimeRoundTrip.SentFieldsPrinted` | src/mail/Email/impl/MimeEmail.cpp:85-106 | the header lines of a part are its names and values, content type and encoding included |
| `MimeRoundTrip.HeadersComeBack` | src/mail/Email/impl/MimeEmail.cpp:85-106 | a received part has exactly the names the sender gave it, in lower case, and for each the last value, without leading white space |
| `MimeRoundTrip.ContentTypeComesBack` | src/util/MimeMultipart.cpp:140-143 | the content type of a received part is the sender's unless an extra header replaces it |
| `SessionMachine.StepKeepsInv` | src/session/Session.cpp:86-101 | every event keeps the invariant, forgets no object and does not turn back the clock |
| `SessionMachine.StoredOnce` | src/session/Session.cpp:177-189 | in every run an object is stored under one id at most, and a connection in a session has the id of its object |
| `SessionMachine.DeadStays` | src/session/Session.cpp:148-186 | in every run a session that was erased or has expired stays dead, and no connection gets hold of it any more |
| `SessionMachine.InvalidatedForGood` | src/session/Session.cpp:313-330 | in every run after `invalidate` the session stays dead, and no connection gets hold of it any more |
| `SessionMachine.LiveStays` | src/session/Session.cpp:148-186 | whatever other connections and the collector do, a session that nobody ends is lost by expiry only |
| `SessionMachine.GcStep` | src/session/Session.cpp:86-101 | one event with and without collection leads to states that differ in expired entries only |
| `SessionMachine.GcInvisible` | src/session/Session.cpp:86-101 | collections can be put in anywhere in a run: it stays possible, and its end differs in expired entries only |
| `SessionMachine.GcNeverNoticed` | src/session/Session.cpp:86-101 | at every point of a run with collections all connections hold the same sessions, with the same data, as without them |
| `SessionMachine.GcRemovable` | src/session/Session.cpp:86-101 | and can be left out of any run in which no id is generated twice |
| `SessionMachine.SetSeenBySharers` | src/session/Session.cpp:286-311 | a value set or unset is seen at once by the connections in the same session, and by no other |
| `SessionMachine.DataStays` | src/session/Session.cpp:297-311 | in a run in which no connection of the session writes a key, its entry stays |
| `SessionMachine.ReadsWhatWasSet` | src/session/Session.cpp:286-304 | every connection in the session reads what was set last |
| `SessionMachine.AddressesStay` | src/session/Session.cpp:160-166 | with address validation, strict or lax, no connection is ever in a session of another address |
| `SessionMachine.EraseSparesOthers` | src/session/Session.cpp:322-326 | erasing by id spares all other sessions if and only if the id has not been given away |
| `SessionMachine.InvalidatesOwnOnly` | src/session/Session.cpp:313-330 | in every run in which no id is generated twice, `invalidate` ends its own session only |
| `SessionMachine.ReusedIdIsErased` | src/session/Session.cpp:322-326 | a run in which an id is generated again and `invalidate` ends another connection's live session |
| `SessionLife.ExpiryExactly` | src/session/Session.cpp:172 | the deadline is the sum if that is a signed 64-bit number, and otherwise lies in the past |
| `SessionLife.LookupOutcome` | src/session/Session.cpp:148-175 | everything a lookup changes: a usable session is taken and expires `now2 + keepalive`, an expired one and in strict mode a foreign one is erased, all else stays |
| `SessionLife.CreationOutcome` | src/session/Session.cpp:177-186 | everything a creation changes: one new object, without data, with the address of the connection and the deadline `now + keepalive` |
| `SessionLife.KeptAlive` | src/session/Session.cpp:148-186 | in every run that does not harm it and looks it up with no earlier deadline, a session stays stored until its deadline |
| `SessionLife.ResumedLives` | src/session/Session.cpp:148-175 | a resumed session expires at `now2 + keepalive`, and until then, in every such run, it is stored and every lookup from its own address takes it |
| `SessionLife.CreatedLives` | src/session/Session.cpp:177-186 | the same for a new session from `now` on |
| `SessionLife.NoneShortens` | src/session/Session.cpp:172 | lookups with the same or a longer duration never give an earlier deadline |
| `SessionLife.ResumableExactly` | src/session/Session.cpp:155-174 | in every run that neither harms a session nor looks it up, a lookup from its own address then takes it if and only if it reads a time before its deadline |
| `SessionLife.CreatedDeadExactly` | src/session/Session.cpp:184 | a new session is dead at once if and only if its duration is zero or its deadline no signed 64-bit number |
| `SessionLife.ResumedDeadExactly` | src/session/Session.cpp:172 | so is a resumed one |
| `SessionLife.ForeignEnds` | src/session/Session.cpp:160-166 | in strict mode a lookup from another address ends the session in every later run |
| `SessionLife.ForeignSpared` | src/session/Session.cpp:160-166 | in lax mode it changes nothing but the time |
| `SessionLife.CollectionOutcome` | src/session/Session.cpp:86-101 | a collection takes every entry that had expired when it began, and none that expires only after its end; objects and connections stay as they are |
| `SessionLife.DestroyedForGood` | src/session/Session.cpp:336-338 | after `destroy` nothing is stored, and in every later run no connection gets hold of a session there was |
| `SessionStore.Store.constructor` | src/session/Session.cpp:58-62 | a new store is the empty state |
| `SessionStore.Store.Sweep` | src/session/Session.cpp:89-100 | the iterator loop erases exactly the entries whose expiry is before the time read for them |
| `SessionStore.Store.CollectGarbage` | src/session/Session.cpp:86-101 | is the collection event |
| `SessionStore.Store.UnusedId` | src/session/Session.cpp:180-182 | returns the first generated id that is not in use |
| `SessionStore.Store.Destroy` | src/session/Session.cpp:336-338 | is the event that ends all sessions |
| `SessionStore.Session.constructor` | src/session/Session.cpp:120-125 | a new connection is not in a session |
| `SessionStore.Session.TakeStored` | src/session/Session.cpp:148-175 | is the lookup event, and takes the session exactly if it is acceptable; then it expires `keepalive` after the time of the lookup, and all other entries stay |
| `SessionStore.Session.StartNew` | src/session/Session.cpp:177-186 | is the creation event, with a fresh object under an unused id, without data, with the address of the connection and the deadline `keepalive` from now |
| `SessionStore.Session.SaveId` | src/session/Session.cpp:188-189 | is the event that saves the id |
| `SessionStore.Session.Obtain` | src/session/Session.cpp:148-186 | resumes an acceptable session and begins a new one otherwise, each with its new deadline; no other session is removed than the one under the given id |
| `SessionStore.Session.Start` | src/session/Session.cpp:127-209 | is a run of the machine; an established session is kept, an acceptable one resumed with a new deadline, otherwise a new one begun, without data; after a collection no entry is left that had expired before, without one only the given id can be gone |
| `SessionStore.Session.Index` | src/session/Session.cpp:286-294 | reads the value in the connection's session |
| `SessionStore.Session.SetValue` | src/session/Session.cpp:297-303 | is the set event, or an error and no change |
| `SessionStore.Session.UnsetValue` | src/session/Session.cpp:305-311 | is the unset event, or an error and no change |
| `SessionStore.Session.Invalidate` | src/session/Session.cpp:313-330 | gives up the pointer, then erases exactly the entry of its id; nothing happens outside a session |
| `BcryptBase64.EncodeOnce` | libs/libbcrypt/crypt_blowfish/crypt_blowfish.c:416-438 | one turn of the loop writes the symbols of up to three bytes |
| `BcryptBase64.BfEncode` | libs/libbcrypt/crypt_blowfish/crypt_blowfish.c:409-439 | writes the encoding at the cursor and changes nothing else |
| `BcryptBase64.DecodeOnce` | libs/libbcrypt/crypt_blowfish/crypt_blowfish.c:392-404 | one turn of the loop reads up to three bytes or fails, and the cursor does not pass the terminator |
| `BcryptBase64.BfDecode` | libs/libbcrypt/crypt_blowfish/crypt_blowfish.c:385-407 | the decoded bytes, or -1 at the first character outside the alphabet, never reading behind the terminator |
| `BcryptBase64.EncodeDecode` | libs/libbcrypt/crypt_blowfish/crypt_blowfish.c:385-439 | decoding undoes encoding for every number of bytes from one up, whatever stands around |
| `BcryptBase64.DecodeEncode` | libs/libbcrypt/crypt_blowfish/crypt_blowfish.c:385-439 | encoding what was decoded gives the text back with its last symbol made canonical |
| `BcryptBase64.ValueInAlphabet` | libs/libbcrypt/crypt_blowfish/crypt_blowfish.c:364-374 | the alphabet is "./A-Za-z0-9", each character with its index as value |
| `BcryptBase64.GroupMeans` | libs/libbcrypt/crypt_blowfish/crypt_blowfish.c:416-438 | three bytes are the four symbols of the same number, two bytes three symbols of four times it, one byte two symbols of sixteen times it |
| `BcryptBase64.EncodeConcat` | libs/libbcrypt/crypt_blowfish/crypt_blowfish.c:416-438 | longer inputs are written three bytes at a time |
| `BcryptBase64.DecodedMeans` | libs/libbcrypt/crypt_blowfish/crypt_blowfish.c:392-404 | what is decoded is the number of the symbols without the bits that fill no byte |
| `BcryptBase64.DecodesExactly` | libs/libbcrypt/crypt_blowfish/crypt_blowfish.c:376-404 | decoding succeeds if and only if all symbols needed are there and in the alphabet |
| `KeyExpansion.StreamRepeats` | libs/libbcrypt/crypt_blowfish/crypt_blowfish.c:605-608 | the bytes read are the infinite repetition of the key and its terminator |
| `KeyExpansion.WordBigEndian` | libs/libbcrypt/crypt_blowfish/crypt_blowfish.c:593-595 | a word is four bytes of the stream, the first on top |
| `KeyExpansion.ReadWord` | libs/libbcrypt/crypt_blowfish/crypt_blowfish.c:591-609 | the inner loop builds the correct and the sign-extended word and notes high bytes in positions 1 to 3 |
| `KeyExpansion.Folded` | libs/libbcrypt/crypt_blowfish/crypt_blowfish.c:625-629 | the branch-free computation yields bit 16 exactly if it is in the safety mask, a high byte was seen and no word differed |
| `KeyExpansion.BfSetKey` | libs/libbcrypt/crypt_blowfish/crypt_blowfish.c:543-643 | both expanded keys, with bit 16 of the first initial word flipped exactly in that case |
| `KeyExpansion.BlocksAgree` | libs/libbcrypt/crypt_blowfish/crypt_blowfish.c:593-598 | both algorithms agree on a word if and only if only bytes 0xff stand before a high byte |
| `KeyExpansion.FlipsNeedFF` | libs/libbcrypt/crypt_blowfish/crypt_blowfish.c:559-563 | the safety measure affects only passwords that contain the byte 0xff |
| `KeyExpansion.FlipSeparates` | libs/libbcrypt/crypt_blowfish/crypt_blowfish.c:617-642 | a password to which the measure applies shares its two expanded keys with no password to which it does not apply, whatever the flags of both: neither under the sign-extending nor under the correct algorithm |
| `KeyExpansion.ImageAgrees` | libs/libbcrypt/crypt_blowfish/crypt_blowfish.c:593-604 | whatever four bytes the sign extension makes of a word, both algorithms agree on the bytes with that value |
| `KeyExpansion.MeasureComplete` | libs/libbcrypt/crypt_blowfish/crypt_blowfish.c:549-564 | a password hashed with the measure and one put through the sign-extending algorithm have the same two expanded keys only if they are the same as far as they are read: no collision is left |
| `KeyExpansion.LongKeys` | libs/libbcrypt/crypt_blowfish/crypt_blowfish.c:590-609 | keys with the same first 72 bytes give the same stream |
| `KeyExpansion.SameExpansion` | libs/libbcrypt/crypt_blowfish/crypt_blowfish.c:590-614 | 72 bytes of the stream determine both expanded keys |
| `KeyExpansion.WordsTellKeys` | libs/libbcrypt/crypt_blowfish/crypt_blowfish.c:590-612 | the correct algorithm gives two passwords the same words if and only if they are equal or agree in their first 72 bytes |
| `Bcrypt.BfCrypt` | libs/libbcrypt/crypt_blowfish/crypt_blowfish.c:649-779 | the hash and its terminator if size, header, rounds and salt are accepted, otherwise an error and an untouched buffer |
| `Bcrypt.WriteHash` | libs/libbcrypt/crypt_blowfish/crypt_blowfish.c:768-776 | setting, canonical salt character, encoded output, terminator |
| `Bcrypt.OutputMagic` | libs/libbcrypt/crypt_blowfish/crypt_blowfish.c:781-794 | the text left for an error |
| `Bcrypt.MagicDiffers` | libs/libbcrypt/crypt_blowfish/crypt_blowfish.c:781-794 | that text never equals the setting |
| `Bcrypt.GensaltBlowfish` | libs/libbcrypt/crypt_blowfish/crypt_blowfish.c:881-907 | a setting with the encoded input, five for cost zero, or an error and an empty text, exactly for short inputs and buffers, costs outside 4 to 31 and prefixes other than "$2a", "$2b" and "$2y" |
| `Bcrypt.SaltAccepted` | libs/libbcrypt/crypt_blowfish/crypt_blowfish.c:675-690 | a generated setting is accepted with its work factor and its salt |
| `Bcrypt.PrefixEncodesSalt` | libs/libbcrypt/crypt_blowfish/crypt_blowfish.c:768-770 | the salt field of a hash is the encoding of the salt that was used |
| `Bcrypt.HashIsSetting` | libs/libbcrypt/crypt_blowfish/crypt_blowfish.c:675-696 | a hash is accepted as a setting with the same header, rounds and salt |
| `Bcrypt.HashAsSetting` | libs/libbcrypt/bcrypt.c:124-129 | hashing any password with a hash as setting is hashing it with the setting of that hash |
| `Bcrypt.HashPw` | libs/libbcrypt/bcrypt.c:124-129 | zero and the hash, or one and the error text; `BcryptSettings.HashesExactly` and `RefusedText` state both |
| `Bcrypt.Gensalt` | libs/libbcrypt/bcrypt.c:97-122 | a setting of the random bytes, with work factor 12 for values out of range |
| `Bcrypt.XorZeroIff` | libs/libbcrypt/bcrypt.c:92 | an exclusive or is zero if and only if the numbers are equal |
| `Bcrypt.TimingSafeStrcmp` | libs/libbcrypt/bcrypt.c:71-95 | zero if and only if the strings are equal |
| `Bcrypt.CheckPw` | libs/libbcrypt/bcrypt.c:131-141 | -1 for an unacceptable hash, zero if and only if hashing gives the stored hash back, positive otherwise |
| `Bcrypt.CheckAfterHash` | libs/libbcrypt/bcrypt.c:97-141 | verification accepts what hashing produced, for every password, work factor and random input |
| `Bcrypt.MatchesExactly` | libs/libbcrypt/bcrypt.c:131-141 | a stored hash is matched by exactly those passwords for which the cipher gives the same first 23 bytes |
| `Bcrypt.LongPasswords` | libs/libbcrypt/crypt_blowfish/crypt_blowfish.c:695-696 | bytes beyond the 72nd do not change a hash |
| `Bcrypt.ShortPasswordsDiffer` | libs/libbcrypt/crypt_blowfish/crypt_blowfish.c:695-696 | all other pairs of passwords are told apart by some cipher, under every accepted setting but those of "$2x$" |
| `Bcrypt.MatchedShape` | libs/libbcrypt/bcrypt.c:131-141 | a stored text that is matched has 60 characters and a canonical 22nd salt character |
| `BcryptSettings.RoundsMultiply` | libs/libbcrypt/crypt_blowfish/crypt_blowfish.c:689 | the number of rounds is the power of two |
| `BcryptSettings.AcceptedExactly` | libs/libbcrypt/crypt_blowfish/crypt_blowfish.c:675-690 | a text is accepted if and only if it is "$2", one of a, b, x, y, "$", a cost from 04 to 31, "$" and 22 characters of the alphabet, whatever follows |
| `BcryptSettings.HashesExactly` | libs/libbcrypt/crypt_blowfish/crypt_blowfish.c:649-779 | hashing succeeds if and only if there is room and the text is a setting; the hash decodes to the first 23 bytes that the cipher gives for the words of the password, sign-extended exactly for "$2x$", the initial words with one bit flipped exactly for "$2a$" and passwords that need it, two to the cost rounds and the salt |
| `BcryptSettings.RefusedText` | libs/libbcrypt/crypt_blowfish/crypt_blowfish.c:781-794 | for every other text "*0" is left, or "*1" if the text itself begins with "*0" |
| `BcryptSettings.EmptyPassword` | libs/libbcrypt/crypt_blowfish/crypt_blowfish.c:356-360 | the words of the initial state, which the empty password leaves as they are |
| `BcryptSettings.SubtypesAgree` | libs/libbcrypt/crypt_blowfish/crypt_blowfish.c:568-583 | "$2b$" and "$2y$" are the same, and "$2a$" differs from them for exactly the passwords that need the measure |
| `BcryptSettings.MeasureSeparates` | libs/libbcrypt/crypt_blowfish/crypt_blowfish.c:549-564 | "$2a$" and "$2x$" give two passwords the same words only if they agree in their first 72 bytes or entirely |
| `BcryptSettings.HistoricalHashesDiffer` | libs/libbcrypt/crypt_blowfish/crypt_blowfish.c:549-564 | so some cipher tells the hashes of any two other passwords under such settings apart |
| `BcryptSettings.GeneratedSetting` | libs/libbcrypt/bcrypt.c:117-121 | a generated text is a setting "$2a$" with the factor as its cost, 12 for one out of range, and the random bytes as its salt |

## Left out

- Conversion between UTF-8 and code points in the Punycode wrappers, and its exceptions: library code; domains are code-point sequences, and only the UTF-8 length is modelled.
- Labels of 2^31 code points and more, for which the 32-bit counter of `adapt_bias` can wrap; domains of 2^26 code points and more.
- `PunycodeCodec.PunycodeDecode`: what an empty source and a buffer with room put into the buffer is not modelled, because the code reads it from behind the source; only how much it reports is (`PunycodeSpec.Reported`).
- `PunycodeRoundTrip.EncodeDecode`: for code points up to U+10FFFF; beyond them, with a buffer for more than about 10^8 code points, the decoder's overflow guards may fire (`EncodeReplayed`).
- `RegexReplace.RegexReplaceCallback`: the matching of `std::regex` is not modelled; the patterns are small scanners (`QuotedPrintable.Scan`, `MimeParser.FindBoundary`), and the iterator's tokens are computed from the matches.
- `Base64.Base64Decode`: the index of the code is an `int` and overflows for texts of 2^31 characters or more.
- `Base64.EncodeDecode`: for encoded texts below 2^31 characters, by the index of the decoder.
- `QuotedPrintable.QuotedPrintableEncode`: the line count of the code is an `int`; it overflows in Q mode, where nothing depends on it, for outputs of 2^31 characters or more.
- `QuotedPrintable.EncodeDecode`: outside Q mode only for the line endings CRLF and LF, the ones the decoder knows.
- `MimeMessage.MergeMimePartList`: no nested lists, which the parser does not support, and no replacement rules; header fields come in the order in which the hash map yields them, given as a sequence.
- `MimeParser.MimeMultipart.Parse`: the part name and the file name are not extracted; the content has at most 2^63 - 1 characters, as every `std::string`.
- `MimeParser.ParseRound`: the part name and the file name are not extracted.
- `MimeRoundTrip.HeadersComeBack`: for header names without a colon, which could not be told from their values.
- `MimeRoundTrip.PrintParse`: the round trip of `mergeMimePartList` alone, without the preamble of `getRaw`; parts sent without an encoding must not contain the delimiter.
- The digest of a generated boundary is any string of hexadecimal digits; the rest of the Email header is not modelled.
- Session cookies and their attributes, and `start` from a cookie: straight-line choices around `start`.
- `SessionStore.Session.Start`: reading the configuration is replaced by parameters; a `gc_divisor` of zero and numbers too large for `stoul` are not modelled; the generated ids are a finite list with an unused one in it.
- `SessionStore.Store.Destroy`: the code does not lock here; the model treats the clearing as one event.
- Connections going away: in the machine (`Close`), not in the classes.
- The locks of single sessions (`dLock`, `eLock`): each protects one read or write, which is one event.
- The Blowfish rounds, S-boxes and byte swaps, the self-test of `_crypt_blowfish_rn`, the other salt generators, and reading `/dev/urandom`.
- `Bcrypt.TimingSafeStrcmp`: string lengths are taken to fit into an `int`; timing is not modelled.
- HTML entities, configuration, request handling, SMTP, logging and the other hashing engines: tables, accessors and I/O.
