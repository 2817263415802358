# Morse code over an LED and a photo-sensor

This project models the two halves of a small Morse link:

- **The receiver** (`lab5_2/main/lab5_2.c`, an ESP32 program). It polls an ADC every 10 ms and
  classifies each reading as high or low against a 700 mV threshold. It counts high and low runs,
  and turns each finished run into `.`, `-`, `' '` or `" / "` in a 200-byte `message` buffer. When
  the line has been low for more than 80 ticks, it decodes the buffer with `morseToAsciiString`
  (which looks each group up in `morseMap` with `morseToAscii`) and clears it.
- **The sender** (`lab5_1/send_faster.c`, a Raspberry Pi program). It flashes a message on an LED
  `times` times, with the patterns of `morseTable`. It prints the same code as text: each pattern,
  a space after each character, `"/ "` for a space, and a newline after each repetition.

The modules follow the two programs:

- `MorseAlphabet` (`alphabet.dfy`) is the receiver's table and lookup.
- `MorseText` (`text.dfy`) is the conversion of a symbol string to text.
- `MorseReceiver` (`receiver.dfy`) is the body of the sampling loop. It is a pure tick function
  `Next` over a `Snapshot` of the loop's variables, and a class `Receiver` whose `Step` updates the
  counters, the `message` array and `msgLen` in place and is proved equal to `Next`.
- `MorseSender` (`sender.dfy`) has a class `Transmitter`. Its methods append every LED action to a
  `trace` of `High(ms)`/`Low(ms)` pulses and every `printf` to an `echo` string, and they are proved
  equal to trace and echo functions of the input.
- `MorseLink` (`link.dfy`) relates the two programs at the level of symbol strings. The tables
  agree, and decoding the sender's echo gives back the message in upper case.
- `MorseOverruns` (`overruns.dfy`) drives the receiver with concrete readings into three buffer
  overruns the C code does not guard against (see "## Findings").

The C code has no bounds checks. The model reports each error case instead of writing past a buffer:

- a mark that would not fit `message` with its NUL is dropped and reported as `Rejected`;
- a group of more than `MAX_CHAR` symbols makes the conversion `GroupOverflow`;
- a text that would not fit `asciiString` with its NUL makes the flush `FlushFailed(TextTooLong)`.

Strings stand for the contents of C strings before their NUL. One Dafny `char` stands for one C byte: the model is meant for characters 0 to 255, and a character above 255 has no C counterpart. A multi-byte UTF-8 character in a C message is several unsupported bytes, each of which the sender turns into its own `Low(LETTER_SPACE)` and `" "`, where the model's single `char` gives one.

## Model

| member | source | states |
|---|---|---|
| MorseAlphabet.AlnumIndex | lab5_2/main/lab5_2.c:38-46 | every letter and digit has a row of `morseMap` other than the final `/` row |
| MorseAlphabet.FirstMatch | lab5_2/main/lab5_2.c:53-57 | the index found holds the pattern, no earlier row does, and the table length means no row matched |
| MorseAlphabet.Search | lab5_2/main/lab5_2.c:52-59 | the loop with early return gives the first matching row's character, or '?' |
| MorseAlphabet.MorseToAscii | lab5_2/main/lab5_2.c:52-59 | `morseToAscii` is the search over `morseMap` |
| MorseAlphabet.LookupIsFirstMatch | lab5_2/main/lab5_2.c:52-59 | the result is '?' if and only if no row matches; otherwise it is the ascii of the first matching row |
| MorseAlphabet.LookupOfRow | lab5_2/main/lab5_2.c:52-59 | in a table with unique patterns, looking up a row's pattern gives that row's character |
| MorseAlphabet.PatternsDistinct | lab5_2/main/lab5_2.c:38-47 | no two rows of `morseMap` share a pattern |
| MorseAlphabet.PatternsAreShortSymbolStrings | lab5_2/main/lab5_2.c:29-47 | every pattern but the '/' row is 1 to MAX_CHAR dots and dashes |
| MorseAlphabet.CharacterColumn | lab5_2/main/lab5_2.c:38-47 | the characters are A-Z, then 0-9, then ' ' for '/' |
| MorseAlphabet.CharacterAppearsOnce | lab5_2/main/lab5_2.c:38-47 | each of A-Z and 0-9 is the character of exactly one row |
| MorseAlphabet.AsciiOfAlnumPattern | lab5_2/main/lab5_2.c:38-59 | looking up a letter's or digit's pattern gives it back |
| MorseText.Convert | lab5_2/main/lab5_2.c:62-93 | the loop over `morseChar` and the output equals `Decode`, with a group past MAX_CHAR reported |
| MorseText.MorseToAsciiString | lab5_2/main/lab5_2.c:62-93 | `morseToAsciiString` is the conversion with `morseMap` |
| MorseText.ScanShift | lab5_2/main/lab5_2.c:65-84 | text already written is a prefix of the result and does not affect the rest |
| MorseText.ConcatAssoc | lab5_2/main/lab5_2.c:71-80 | appending decoded pieces is associative |
| MorseText.ScanGroup | lab5_2/main/lab5_2.c:81-83 | non-separators only extend the pending group while it fits |
| MorseText.ScanLongGroup | lab5_2/main/lab5_2.c:63-82 | a group that grows past MAX_CHAR makes the conversion an overflow |
| MorseText.DecodeSplit | lab5_2/main/lab5_2.c:67-90 | after a separator the conversion restarts: converting `a + b` is converting `a` then `b` |
| MorseText.ScanSplit | lab5_2/main/lab5_2.c:67-84 | the same split from any pending group and output |
| MorseText.DecodeGroupThenSeparator | lab5_2/main/lab5_2.c:68-80 | a group and a separator give its character, plus ' ' for '/'; or an overflow past MAX_CHAR |
| MorseText.DecodeFinalGroup | lab5_2/main/lab5_2.c:86-90 | a final group with no separator after it is still converted |
| MorseText.LoneSeparators | lab5_2/main/lab5_2.c:68-80 | a ' ' with no pending group gives nothing; a '/' gives one ' ' |
| MorseText.ScanLength | lab5_2/main/lab5_2.c:67-90 | output length is the written text, plus the pending group, plus the groups and '/'s still to come |
| MorseText.DecodeLength | lab5_2/main/lab5_2.c:62-93 | output length equals the number of groups plus the number of '/' |
| MorseText.FitsAcrossSeparator | lab5_2/main/lab5_2.c:63-82 | a group that fits, then a separator: the whole fits if and only if the rest does |
| MorseText.ScanOverflow | lab5_2/main/lab5_2.c:63-82 | the conversion overflows if and only if some group is longer than MAX_CHAR |
| MorseText.DecodeOverflowIff | lab5_2/main/lab5_2.c:63-82 | the same for a whole symbol string, with both directions |
| MorseReceiver.UncalibratedTickChangesNothing | lab5_2/main/lab5_2.c:129-168 | without calibration a tick changes no state and reports nothing |
| MorseReceiver.WindowsDisjoint | lab5_2/main/lab5_2.c:134-155 | the gap windows 19..21 and 54..56 and the pulse windows 4..6 and 14..16 are disjoint; a tick appends at most 3 marks |
| MorseReceiver.HighSample | lab5_2/main/lab5_2.c:132-145 | a high sample adds one to highCount and zeroes lowCount; it appends ' ' after 19..21 low ticks, " / " after 54..56, nothing otherwise; it never flushes |
| MorseReceiver.LowSample | lab5_2/main/lab5_2.c:146-166 | a low sample zeroes highCount; it appends '.' after 4..6 high ticks and '-' after 14..16; it flushes if and only if lowCount passes 80 with symbols buffered, and then clears both |
| MorseReceiver.NoFlushOfEmptyBuffer | lab5_2/main/lab5_2.c:158-166 | a flush decodes the non-empty buffer and leaves it empty with lowCount 0 |
| MorseReceiver.TickAppendsAtMostThree | lab5_2/main/lab5_2.c:132-166 | a tick keeps the buffer as a prefix and adds at most 3 marks, or flushes it; it drops marks only when they do not fit |
| MorseReceiver.MarksAreMarks | lab5_2/main/lab5_2.c:135-153 | the classifier writes only '.', '-', ' ' and '/' |
| MorseReceiver.AppendMarks | lab5_2/main/lab5_2.c:135-153 | appending marks keeps the buffer made of marks |
| MorseReceiver.TickKeepsConsistent | lab5_2/main/lab5_2.c:123-166 | every tick keeps room for the NUL, only marks, at most one running counter, and no symbols through a long silence |
| MorseReceiver.Report | lab5_2/main/lab5_2.c:158-163 | a flush always reports its symbols; it gives text exactly when the conversion succeeds and fits `asciiString` with its NUL, and that text is the conversion; a failure says whether the group or the text was too long |
| MorseReceiver.FlushedTextFits | lab5_2/main/lab5_2.c:158-163 | a flushed text is the conversion of the buffer and fits `asciiString` with its NUL |
| MorseReceiver.RunKeepsConsistent | lab5_2/main/lab5_2.c:126-170 | the loop keeps the receiver consistent and reports one tick per reading |
| MorseReceiver.SilenceFlushesOnce | lab5_2/main/lab5_2.c:146-166 | after a flush, a silence of any length reports nothing more |
| MorseReceiver.Receiver.constructor | lab5_2/main/lab5_2.c:118-124 | both counters are 0 and the 200-cell buffer is empty |
| MorseReceiver.Receiver.Append | lab5_2/main/lab5_2.c:135-153 | the marks are written into the `message` array at msgLen when they fit with the NUL, and are dropped otherwise |
| MorseReceiver.Receiver.Sample | lab5_2/main/lab5_2.c:132-157 | the in-place update of counters and buffer equals `Classify` on the old state |
| MorseReceiver.Receiver.Step | lab5_2/main/lab5_2.c:129-166 | the in-place tick equals `Next` on the old state and keeps the receiver consistent |
| MorseReceiver.Receiver.Poll | lab5_2/main/lab5_2.c:126-170 | a finite run of the polling loop equals `Run` on the old state |
| MorseSender.UpperString | lab5_1/send_faster.c:55-58 | the message as `morseTable` indexes it: same length, no lower-case letter left, each lower-case letter replaced by the upper-case letter at the same alphabet offset (the row `c - 'a'` and `c - 'A'` share), every other character unchanged |
| MorseSender.TableIndex | lab5_1/send_faster.c:55-60 | every row index used is within the 36 rows of `morseTable` |
| MorseSender.Durations | lab5_1/send_faster.c:8-12 | a dash lasts three dots; the symbol, letter and word spaces last 1, 3 and 7 dots |
| MorseSender.OnePulsePerSymbol | lab5_1/send_faster.c:22-46 | `flashMorse` emits one High of the symbol's duration and one Low(SYMBOL_SPACE) per dot or dash, in order; it prints exactly those and ignores other characters |
| MorseSender.Symbols | lab5_1/send_faster.c:36-46 | the reference filter, read from the front: only dots and dashes, no longer than the input |
| MorseSender.SymbolsSnoc | lab5_1/send_faster.c:37-45 | read from the back, one more character adds itself to the filter exactly when it is a dot or a dash |
| MorseSender.EchoIsSymbols | lab5_1/send_faster.c:36-46 | `flashMorse` prints exactly the pattern's dots and dashes, which equals the independently defined front-to-back filter `Symbols` |
| MorseSender.SymbolsOfPattern | lab5_1/send_faster.c:36-46 | a string of dots and dashes is its own symbol sequence |
| MorseSender.TableRowsArePatterns | lab5_1/send_faster.c:15-20 | every row is a non-empty pattern of at most 5 dots and dashes |
| MorseSender.PatternOfAlnum | lab5_1/send_faster.c:55-60 | a letter or digit is flashed with its table row, which is non-empty and made of symbols only |
| MorseSender.TableIndexUpToCase | lab5_1/send_faster.c:55-60 | two letters or digits use the same row if and only if they agree up to case |
| MorseSender.TableIndexRanges | lab5_1/send_faster.c:55-60 | letters use rows 0..25 in alphabet order, and digit d uses row 26 + d |
| MorseSender.LowerSentAsUpper | lab5_1/send_faster.c:51-63 | a lower-case letter has the same trace and echo as its upper-case form |
| MorseSender.CaseInsensitive | lab5_1/send_faster.c:50-65 | a message is flashed and printed exactly as its upper-case form |
| MorseSender.CharacterHandling | lab5_1/send_faster.c:51-63 | a space is only Low(WORD_SPACE) and prints "/ "; another unsupported character is only Low(LETTER_SPACE) and prints " "; only letters and digits turn the LED on |
| MorseSender.PatternTraceEnds | lab5_1/send_faster.c:22-46 | a pattern's trace starts with the LED on and ends with a symbol space |
| MorseSender.AlnumTrace | lab5_1/send_faster.c:54-63 | a letter's trace starts High and ends with a symbol space and then a letter space |
| MorseSender.LetterGap | lab5_1/send_faster.c:22-63 | between two letters the LED is off for SYMBOL_SPACE + LETTER_SPACE, 4 dot units |
| MorseSender.PatternSnoc | lab5_1/send_faster.c:37-45 | one more pattern character appends its own trace and echo |
| MorseSender.MessageSnoc | lab5_1/send_faster.c:50-65 | one more message character appends its own trace and echo |
| MorseSender.CopiesSnoc | lab5_1/send_faster.c:49 | n + 1 copies are n copies followed by one more |
| MorseSender.CopiesLength | lab5_1/send_faster.c:49 | n copies are n times as long, and none for n <= 0 |
| MorseSender.SendRepeats | lab5_1/send_faster.c:49-68 | `sendMorse` sends `times` copies of one repetition, each ended by Low(WORD_SPACE + 1000) and a newline; nothing for times <= 0 |
| MorseSender.Transmitter.FlashDot | lab5_1/send_faster.c:22-27 | appends High(DOT_DURATION), Low(SYMBOL_SPACE) and prints nothing |
| MorseSender.Transmitter.FlashDash | lab5_1/send_faster.c:29-34 | appends High(DASH_DURATION), Low(SYMBOL_SPACE) and prints nothing |
| MorseSender.Transmitter.FlashMorse | lab5_1/send_faster.c:36-46 | the loop appends exactly the pattern's trace and echo |
| MorseSender.Transmitter.SendChar | lab5_1/send_faster.c:51-64 | one character appends its trace and echo |
| MorseSender.Transmitter.SendMessage | lab5_1/send_faster.c:50-65 | the inner loop appends the message's trace and echo |
| MorseSender.Transmitter.Send | lab5_1/send_faster.c:49-68 | the outer loop appends `times` repetitions |
| MorseSender.Transmitter.SendMorse | lab5_1/send_faster.c:48-69 | `sendMorse` with `morseTable` |
| MorseLink.TablesAgree | lab5_1/send_faster.c:15-20 | `morseTable` is `morseMap` without its '/' row, row by row (lab5_2/main/lab5_2.c:38-47) |
| MorseLink.SameRow | lab5_1/send_faster.c:55-60 | the sender's row for a letter or digit is the receiver's row for its upper-case form |
| MorseLink.PatternDecodes | lab5_1/send_faster.c:55-60 | the receiver's lookup of the flashed pattern gives the character in upper case |
| MorseLink.PatternIsGroup | lab5_1/send_faster.c:15-20 | a flashed pattern is a non-empty group of at most MAX_CHAR symbols, printed unchanged |
| MorseLink.PatternIsGroupIn | lab5_1/send_faster.c:36-60 | the same for any table of dot/dash rows of at most 5 symbols |
| MorseLink.RowIsGroup | lab5_1/send_faster.c:36-46 | a dot/dash row has no separator and `flashMorse` prints it unchanged |
| MorseLink.CharEchoDecodes | lab5_1/send_faster.c:51-63 | converting one character's echo gives the character in upper case, or nothing for an unsupported character |
| MorseLink.EchoEndsInSpace | lab5_1/send_faster.c:53-63 | the echo of a non-empty message ends in a space |
| MorseLink.RoundTrip | lab5_1/send_faster.c:48-65 | for letters, digits and spaces, `morseToAsciiString` of the echo of one pass is the upper-cased message |
| MorseLink.SupportedKeepsAll | lab5_1/send_faster.c:51-61 | a message of letters, digits and spaces loses no character |
| MorseLink.RoundTripDropsUnsupported | lab5_1/send_faster.c:48-65 | for any message, decoding the echo gives the upper-cased letters, digits and spaces in order |
| MorseLink.Supported | lab5_1/send_faster.c:51-61 | the characters kept are letters, digits and spaces, and there are no more of them than in the input |
| MorseLink.SupportedConcat | lab5_1/send_faster.c:50-61 | the filter distributes over concatenation: the kept characters of `a + b` are those of `a` followed by those of `b` |
| MorseLink.SupportedChar | lab5_1/send_faster.c:51-61 | a single character is kept exactly when it is a letter, a digit or a space |
| MorseOverruns.RunSplit | lab5_2/main/lab5_2.c:126-170 | running the loop over `a + b` is running it over `a` and then over `b` |
| MorseOverruns.AcceptedConcat | lab5_2/main/lab5_2.c:126-170 | two runs of ticks that drop no marks, one after the other, drop none |
| MorseOverruns.HighsFrom | lab5_2/main/lab5_2.c:132-145 | high readings after a low run append its gap marks, then only the high count grows; no mark is dropped |
| MorseOverruns.HighsAfter | lab5_2/main/lab5_2.c:132-145 | more high readings during a high run only grow the high count; no mark is dropped |
| MorseOverruns.LowsAfter | lab5_2/main/lab5_2.c:146-166 | low readings with no pulse pending and no flush in reach only grow the low count, reporting nothing |
| MorseOverruns.FinalSilence | lab5_2/main/lab5_2.c:158-166 | the tick that makes the silence 81 flushes the buffer and returns to the initial state; no mark is dropped on the way |
| MorseOverruns.DotRound | lab5_2/main/lab5_2.c:132-157 | five high readings then a gap append the previous gap's marks and one '.', dropping nothing |
| MorseOverruns.DotsLength | lab5_2/main/lab5_2.c:135-150 | n dots with separators are n + (n - 1) * \|sep\| marks |
| MorseOverruns.TrainReaches | lab5_2/main/lab5_2.c:126-157 | a train of n dots drives the receiver from its initial state to holding those n dots, dropping nothing |
| MorseOverruns.ClassifyAsWritten | lab5_2/main/lab5_2.c:132-157 | as written, the counters move as in the source and the marks are appended whatever the length: the buffer only grows, by at most 3 marks per tick |
| MorseOverruns.NextAsWritten | lab5_2/main/lab5_2.c:129-166 | one calibrated tick as written never drops a mark and never reports a failure; it flushes exactly when the low run passes 80 with symbols buffered, and then clears the buffer and the low count |
| MorseOverruns.RunAsWritten | lab5_2/main/lab5_2.c:126-170 | the loop as written over finite readings reports one tick per reading |
| MorseOverruns.TickAgreesWhileAccepted | lab5_2/main/lab5_2.c:129-166 | from a consistent state, a tick that drops nothing has the same new state as written, and the as-written report of its flush |
| MorseOverruns.RunAgreesWhileAccepted | lab5_2/main/lab5_2.c:126-170 | until the corrected receiver drops a mark, the loop as written goes through the same states, and flushes as written where the corrected one flushes |
| MorseOverruns.ClassifyAgreesWhileFitting | lab5_2/main/lab5_2.c:132-157 | while marks fit with the NUL, the as-written classifier and the corrected one agree |
| MorseOverruns.MessageOverrun | lab5_2/main/lab5_2.c:123-159 | the loop as written, from its initial state, reaches 199 buffered dots, and its next tick makes msg_len 200, so the flush's NUL would go to message[200]; the corrected tick drops that dot |
| MorseOverruns.ReportAsWritten | lab5_2/main/lab5_2.c:158-163 | as written, every flush writes a text whatever its length; where the corrected conversion gives a text it is that text |
| MorseOverruns.ReportAgreesWhileFitting | lab5_2/main/lab5_2.c:158-163 | while the conversion succeeds and fits `asciiString`, the as-written flush and the corrected one agree |
| MorseOverruns.DotIsE | lab5_2/main/lab5_2.c:39 | '.' is looked up as 'E' |
| MorseOverruns.DotsFront | lab5_2/main/lab5_2.c:135-150 | n dots are one dot, a separator, and n - 1 dots |
| MorseOverruns.SpacedDotsConvert | lab5_2/main/lab5_2.c:62-93 | dots separated by single spaces convert to as many 'E's |
| MorseOverruns.TextOverrun | lab5_2/main/lab5_2.c:161-163 | the loop as written buffers 199 marks and flushes them as 100 'E's, which with the NUL is one byte more than `asciiString` holds; the corrected loop reports the text as too long |
| MorseOverruns.FlushAfterTrain | lab5_2/main/lab5_2.c:146-166 | after a train that drops nothing, the rest of the silence ends both loops in the flush of the buffer: the corrected report and the as-written one |
| MorseOverruns.SpacedDotsReports | lab5_2/main/lab5_2.c:158-163 | 100 spaced dots: the corrected flush fails with TextTooLong, and the flush as written writes 100 'E's |
| MorseOverruns.ScanAsWritten | lab5_2/main/lab5_2.c:62-93 | as written, the conversion never fails: the text written so far is a prefix of the result, and each input character adds at most one output character, plus one for the pending group |
| MorseOverruns.ScanAgreesWhileFitting | lab5_2/main/lab5_2.c:62-93 | wherever the corrected conversion gives a text, the as-written one gives the same text |
| MorseOverruns.AsWrittenBuffersGroup | lab5_2/main/lab5_2.c:81-83 | as written, a run of dots is buffered whole in `morseChar` before it is looked up |
| MorseOverruns.GroupOverrun | lab5_2/main/lab5_2.c:63-88 | the loop as written buffers seven dots, its conversion holds all seven in `morseChar` as one group, whose NUL would go to morseChar[7], and the flush writes what it looks up; the corrected loop reports the group as too long |
| MorseOverruns.SevenDotsOverflow | lab5_2/main/lab5_2.c:63-82 | seven dots in a row overflow the group buffer with any table |
| MorseOverruns.DotsAllDots | lab5_2/main/lab5_2.c:149 | a train without gaps is made of dots only |

## Left out

- The ADC bring-up, reading and calibration (`adc_oneshot_*`, `example_adc_calibration_init` and `deinit`, lab5_2/main/lab5_2.c:103-118, 127, 130, 172-241) are vendor hardware calls. The calibration outcome is the `calibrated` flag, and each calibrated voltage is an integer argument.
- `vTaskDelay` and the 10 ms tick are left out. One reading is one tick, and the endless `while (1)` loop is modelled as `Poll` over a finite sequence of readings.
- `ESP_LOGI` logging of the encrypted and decrypted message is left out. A flush reports the symbols and the text in its `Tick` instead.
- `wiringPiSetup`, `pinMode`, `main` and its `argc`/`atoi` handling (lab5_1/send_faster.c:71-89) are left out. `digitalWrite` and `delay` become `High`/`Low` pulses of the trace. `printf` becomes appends to the echo.
- A round trip at the pulse level, from the sender's trace through the receiver's classifier, is not modelled. The constants of the two programs do not agree: a 20 ms dot is 2 ticks of 10 ms, where the receiver wants 4 to 6. The round trip is proved at the level of the printed symbol string instead.
- Counter overflow of the C `int` counters is not modelled. `high_count` grows while the line stays high. The model's counters are unbounded naturals, which differ from C only after 2^31 ticks.
- `MorseText.Convert` and the lookup take the table as a parameter. The transmitter's `Send`, `SendChar` and `SendMessage` also take theirs. `MorseToAsciiString`, `MorseToAscii` and `SendMorse` apply them to the program's own table.
- `MorseText.Convert` builds the output as a sequence, not in the caller's `asciiString` array. The length that array needs is stated by `DecodeLength`, and the receiver's flush checks it.
- MorseReceiver.Receiver.Step, Sample, Append and Poll and the Transmitter methods state their whole new state. In each, that new state is given by a pure function whose properties are the lemmas above.

## Findings

| source | as written | input that shows it | evidently intended | confidence | as-written member | corrected member |
|---|---|---|---|---|---|---|
| lab5_2/main/lab5_2.c:123-159 | marks are appended to `message[200]` without checking `msg_len`, and the flush writes the NUL at `message[msg_len]` | 199 dots, each 5 high readings then 1 low reading, then 5 high readings and 1 low reading: `msg_len` becomes 200 and the next flush writes `message[200]` | a mark is appended only when it fits with the NUL | not executed | MorseOverruns.MessageOverrun | MorseReceiver.TickKeepsConsistent |
| lab5_2/main/lab5_2.c:161-162 | the decoded text is written into `asciiString[100]` whatever its length | 100 dots, each 5 high readings then 20 low readings, then 61 more low readings: 199 marks decode to 100 'E's, and their NUL is byte 101 | the text written, NUL included, fits `asciiString` | not executed | MorseOverruns.TextOverrun | MorseReceiver.FlushedTextFits |
| lab5_2/main/lab5_2.c:63-88 | symbols are appended to `morseChar[MAX_CHAR + 1]` without a bound, and the NUL is written at `morseChar[morseCharIndex]` | 7 dots, each 5 high readings then 1 low reading, then 80 low readings: one group of 7 dots, whose NUL goes to `morseChar[7]` | a group of more than MAX_CHAR symbols is reported, not written | not executed | MorseOverruns.GroupOverrun | MorseText.DecodeOverflowIff |
