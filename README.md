# ataparse: a verified model of the ATA roster decoder

ataparse reads an ATA trapshooting roster file and lets the user browse it.
The file has fixed-width records:

- one 320-byte header line: a 6-byte club number, then 24 event slots of 13
  bytes, then CR LF;
- one 318-byte line per shooter: seven text fields (76 bytes), then 24 score
  windows of 10 bytes, then CR LF.

This project models the decoder at the core of the program
(`src/main.cpp`):

- the lenient count decode, which is `strtol` on a zero-filled buffer cast to
  `unsigned short`;
- the `event`, `header`, `score` and `shooter` constructors;
- the file reader `read_ata_data`;
- the selection rules inside the two report screens.

It proves what each of them reads and returns.

Modules:

- `Field` (`field.dfy`): bytes, the count decode and the three-digit
  encoding it inverts, and fixed-width concatenation.
- `Records` (`records.dfy`): the record datatypes and their parsers. The
  header and shooter constructors fill their lists in 24-step loops, so they
  are methods (`ParseHeader`, `ParseShooter`). Each is proved equal to a
  specification function (`HeaderOf`, `ShooterOf`), and the layout
  properties are lemmas about those functions.
- `Reader` (`reader.dfy`): loading a whole file into a `Result`. `Load` is
  the specification and `ReadAtaData` is the loop.
- `ReaderAsWritten` (`reader_as_written.dfy`): the original end-of-file loop
  and how it differs from `Load` (see Findings).
- `Selection` (`selection.dfy`): the score listing for one event (a
  descending multimap filled in a loop) and the slot filter of the shooter
  report.
- `Writer` (`writer.dfy`): the layout written out the other way round. Its
  round-trip lemmas show that every roster fitting the layout loads back
  unchanged.

**Header events keep gaps.** The event list does not stop at the first
empty slot: the constructor at `src/main.cpp:74-79` keeps every slot whose
tag is `S`, `D` or `H`, even after an empty slot (`KeepEvents`,
`HeaderOfSelectsRealSlots`).

A consequence, which the model keeps: both the score listing
(`src/main.cpp:261`) and the shooter report (`src/main.cpp:281-282`) read
score slot `j` of a shooter for event `j`. Event `j` is read from slot `j`
exactly when none of slots 0 to `j` is empty; this holds for every event
before the first empty slot, and for all events when no real slot follows
an empty one (`EventsAlignWithSlots`). After a gap, event `j` is read from
a later slot than score slot `j` (`EventSlotVersusScoreSlot`).

**The file loop is modelled as corrected.** The file loop of
`read_ata_data` reads once more after the last full line. The model that
the rest of the project uses (`Reader.Load`, `Reader.ReadAtaData`) reads
consecutive full 318-byte lines and stops when fewer than 318 bytes remain.
`ReaderAsWritten` models the loop as written.

## Model

| member | source | states |
|---|---|---|
| Field.ToUShort | src/main.cpp:49 | The cast to `unsigned short` gives a value congruent to the `long` modulo 2^16, and keeps every value already in 0..65535. |
| Field.SkipSpaceSkips | src/main.cpp:49 | `strtol` skips a leading run of white space: what it goes on with is a suffix of the text, every byte skipped is white space, and the first byte left is not. |
| Field.DigitRunStops | src/main.cpp:49 | The digit run `strtol` reads is all digits and ends at the first non-digit or at the end of the text. |
| Field.CStringStopsAtNul | src/main.cpp:47-48 | The text the zero-filled buffer holds is the window up to its first NUL: a NUL-free prefix of the window, followed in the window by NUL or by nothing. |
| Field.StrToLReadsNumber | src/main.cpp:49 | `strtol` reads white space, an optional `+`/`-`, then a digit run. A tail that does not continue the number does not change the result, which is the signed value of the digits (0 when there are none). |
| Field.ReadsNumber | src/main.cpp:47-49 | A count field decodes to the signed value of its digits modulo 2^16, after white space and an optional sign, whatever follows the digits. |
| Field.DigitsValueBound | src/main.cpp:47-48 | A run of n digits is worth less than 10^n. |
| Field.BlankDecodesToZero | src/main.cpp:103-107 | A window of white space has no digits and decodes to 0; the decode never fails. |
| Field.DigitWindowDecodes | src/main.cpp:103-107 | A window of three digits decodes to its decimal value, which is at most 999. |
| Field.StopsAtFirstNonDigit | src/main.cpp:47-49 | Decoding stops at the first non-digit: `" 5X"` gives 5. |
| Field.NegativeCountWraps | src/main.cpp:49 | A negative count wraps in the cast: `"-5 "` gives 65531. |
| Field.DecodeEncodeCount | src/main.cpp:47-49 | Decoding inverts the zero-padded three-digit encoding of every count below 1000. |
| Field.ConcatSlice | src/main.cpp:74-76 | In a concatenation of windows of width k, window i occupies bytes k*i up to k*i+k. |
| Field.WindowOfFramed | src/main.cpp:74-76 | With a prefix in front of the joined windows, window i starts at the prefix length plus k*i: slot i of a header line is at `6 + 13*i`. |
| Records.EventKindFromTag | src/main.cpp:30-43 | The event kind depends on tag byte 8 alone: `S` is Singles, `D` Doubles, `H` Handicap (each in both directions), and any other byte is an empty slot. |
| Records.EventWindowUse | src/main.cpp:27-49 | The date is bytes 0..7 verbatim. An empty slot has 0 targets whatever its count bytes hold. Separator byte 9 never changes the event. |
| Records.ParseHeader | src/main.cpp:72-80 | The 24-step loop returns the header of the line: the club number, then the real events among the 24 slot parses. There are at most 24 events and none is empty. |
| Records.HeaderOfSelectsRealSlots | src/main.cpp:72-79 | The club number is bytes 0..5. Event j is the slot at `6 + 13*i`, where i is the j-th real slot. Slot i is kept exactly when it is real, gaps included, so there are at most 24 events. |
| Records.KeepEventsSelects | src/main.cpp:74-79 | The kept events are the slots at the kept positions, one to one and in order. |
| Records.KeptSlotsSelects | src/main.cpp:74-79 | The kept positions are ascending and are exactly the positions of the real slots. |
| Records.KeepEventsAreReal | src/main.cpp:78 | No kept event is an empty slot. |
| Records.KeepEventsOfReal | src/main.cpp:78 | A list of real events is kept whole. |
| Records.KeepEventsOfContiguous | src/main.cpp:74-79 | When no real slot follows an empty one, event j is slot j. |
| Records.EventsAlignWithSlots | src/main.cpp:72-79 | For a header line without a gap, header event j is the parse of slot j, so it lines up with score slot j. |
| Records.KeptSlotsShift | src/main.cpp:74-79 | The j-th kept slot is never before slot j, and it is slot j exactly when slots 0 to j are all real. |
| Records.AllRealPrefixKept | src/main.cpp:74-79 | When slots 0 to j are all real, the j-th kept slot is slot j. |
| Records.KeptSlotsCountAll | src/main.cpp:74-79 | Every slot is kept exactly when every slot is real. |
| Records.EventSlotVersusScoreSlot | src/main.cpp:74-79 | Event j of a header line is read from a slot at or after j, and from slot j itself exactly when none of slots 0 to j is empty. `print_scores` and `print_shooter_info` read score slot j for event j, so the two agree exactly then. |
| Records.HeaderReadsPayloadOnly | src/main.cpp:72-79 | The header depends on bytes 0..317 of the line only. |
| Records.ScoreFieldsIndependent | src/main.cpp:102-108 | `hit` depends on window bytes 0..2 alone and `shot_at` on bytes 3..5 alone. The yardage is bytes 6..9 and affects neither. |
| Records.ParseShooter | src/main.cpp:131-144 | The 24-step loop returns the shooter of the line, with exactly 24 scores. Score i is parsed from the window at `76 + 10*i`. |
| Records.ShooterLayout | src/main.cpp:131-143 | The seven text fields have widths 7/18/25/18/2/5/1 and together are bytes 0..75 of the line, and there are 24 scores. |
| Records.ShooterReadsPayloadOnly | src/main.cpp:131-143 | A shooter depends on bytes 0..315 of its line only; the last score window ends at byte 316. |
| Reader.FullLinesCut | src/main.cpp:202-203 | The bytes after the header are cut into consecutive 318-byte lines from the start, as many as fit: line j is bytes `318*j` up to `318*j+318`, and fewer than 318 bytes are left over. |
| Reader.FullLinesCount | src/main.cpp:202-203 | The number of full lines is the byte count after the header divided by 318. |
| Reader.ReadAtaData | src/main.cpp:190-212 | The reading loop returns exactly the load of the file: the format error or the dataset. |
| Reader.LoadSucceedsIff | src/main.cpp:193-207 | A load succeeds exactly when the file holds 320 header bytes with CR LF at 318/319, and every full shooter line has CR LF at its bytes 316/317. |
| Reader.LoadReadsEveryFullLine | src/main.cpp:199-209 | On success: the header is parsed from the header line, and there is one shooter per full 318-byte line, in file order. Shooter j is parsed from the line at `320 + 318*j`. |
| Reader.LoadedDatasetValid | src/main.cpp:199-209 | A loaded roster has at most 24 events and 24 scores for every shooter. |
| Reader.TrailingPieceIgnored | src/main.cpp:202-209 | In the corrected loop, a piece shorter than a line at the end of the file does not change what loads. |
| ReaderAsWritten.ReadLoopFrom | src/main.cpp:202-209 | From full line j on, the original loop parses the remaining full lines as `Load` does, then makes one more pass over the extra line. |
| ReaderAsWritten.ReadLoopWholeLine | src/main.cpp:203-208 | A pass of the original loop that reads a whole line ending in CR LF parses that line and goes on with it in the buffer. |
| ReaderAsWritten.ReadLoopLastPass | src/main.cpp:202-208 | After the last full line the original loop makes one more pass: it parses the leftover bytes over the stale rest of the buffer, or fails when bytes 316/317 of that mixture are not CR LF. |
| ReaderAsWritten.AsWrittenReadsOnePastEnd | src/main.cpp:202-209 | When every full line is well formed, the original loop returns `Load`'s header and shooters plus one shooter built from the extra line. It fails instead when that line's bytes 316/317 are not CR LF. |
| ReaderAsWritten.AsWrittenDuplicatesLastShooter | src/main.cpp:202-209 | When the file ends exactly after a shooter line, the original loop appends the last shooter a second time. |
| ReaderAsWritten.AsWrittenRejectsHeaderOnlyFile | src/main.cpp:193-209 | A file holding only a header line loads as that header with no shooters, but the original loop fails on it unless header bytes 316/317 happen to be CR LF. |
| Selection.UpperBound | src/main.cpp:264 | The multimap's insertion point comes after every entry whose hit count is at least the key. The entry there, if any, has a lower hit count. |
| Selection.EmplaceKeepsOrder | src/main.cpp:264 | Inserting the entry of a shooter later in the roster than all entries keeps the listing ordered by hit count descending, with ties in roster order. |
| Selection.EmplaceAddsEntry | src/main.cpp:264 | An insertion adds exactly the new entry. |
| Selection.RankEvent | src/main.cpp:248-265 | The listing is rejected exactly when the event index is below 0 or not below the event count. Otherwise it holds exactly the shooters with non-zero `shot_at` in that slot, ordered by hit count descending, ties in roster order. |
| Selection.CompetitorsExactly | src/main.cpp:260-265 | An entry is listed exactly when it carries the hit count, roster position and name of a shooter whose `shot_at` in the slot is non-zero. |
| Selection.CompetitorsInRosterOrder | src/main.cpp:260-265 | Before sorting, competitors are in roster order, each shooter at most once. |
| Selection.RankingUnique | src/main.cpp:259-267 | Two listings in this order with the same entries are equal, so the listing is fully determined. |
| Selection.ReportedSlots | src/main.cpp:279-280 | The report covers the slots below both the score count and the event count. |
| Selection.ShooterResults | src/main.cpp:279-283 | The report rows are in slot order. Each row is a slot below `min(scores, events)` with non-zero `shot_at`, paired with that slot's event and score, and every such slot has a row. |
| Writer.ParseEncodeEvent | src/main.cpp:27-50 | A real event with an 8-byte date and at most 999 targets, written as date, tag, separator and three digits, parses back to itself. |
| Writer.ParseEncodeScore | src/main.cpp:102-110 | A score with counts below 1000 and a 4-byte yardage window, once written, parses back to itself. |
| Writer.KeepEventsOfPadded | src/main.cpp:74-79 | Real events followed by empty slots keep exactly the real events. |
| Writer.ParseEncodeHeader | src/main.cpp:72-80 | A header written as its events followed by blank slots parses back to itself, for example 3 Singles events and 21 blank slots give those 3 events. |
| Writer.ParseEncodeShooter | src/main.cpp:131-144 | A shooter whose fields have the layout's widths, once written, parses back to itself. |
| Writer.EncodedScoreSlot | src/main.cpp:140-143 | Score slot i of a written shooter line is read back as score i. |
| Writer.FullLinesOfConcat | src/main.cpp:202-209 | Cutting joined 318-byte lines gives back those lines. |
| Writer.EncodedLinesParse | src/main.cpp:202-208 | Every written shooter line ends in CR LF and is read back as its shooter. |
| Writer.LoadEncodeFile | src/main.cpp:190-212 | Every roster that fits the layout loads back exactly as written. |

## Left out

- File handling: opening, closing and the exception. The file is a byte
  sequence, and the exception is the `Failure` of a `Result`. A file that
  cannot be opened is not modelled separately; it reads as no bytes.
- A file shorter than the 320-byte header line is a format error here. The
  program reads uninitialised buffer bytes in that case.
- Terminal input and output:
  - the P/V/Q menu and the prompts;
  - `display_events`, `display_shooters`, `print_event`;
  - the printed formats;
  - `view_shooter_info` and the recursive re-prompts after an invalid index.
- Selection.RankEvent: takes the event index as an integer. The program gets
  it from `strtol` on the typed line, and `long` saturation there is not
  modelled.
- Selection.RankEvent: returns the listing as entries (hit count, roster
  position, name) rather than printed lines; the printed count is the
  listing's length.
- Selection.RankEvent: requires a dataset with 24 scores per shooter and at
  most 24 events, as every load returns (`Reader.LoadedDatasetValid`). The
  program indexes the score vector unchecked.
- Yardage: it is decoded with `strtof` and printed with one decimal, which
  is floating point. The model keeps the raw 4-byte window, so
  `Selection.ShooterResults` does not model the "yd" suffix printed for a
  positive yardage.
- Copy and move constructors and assignment operators: they copy fields,
  which Dafny values make unnecessary.
- Text fields: each is its byte window verbatim. Printing them as C strings
  stops at the first NUL, which is not modelled.
- Field.StrToL: uses unbounded integers. A count field has at most three
  bytes, so `long` overflow cannot occur there.

## Findings

| source | as written | input that shows it | evidently intended | confidence | as-written member | corrected member |
|---|---|---|---|---|---|---|
| src/main.cpp:202-209 | `while(!eof())` tests before reading, so the loop reads once more after the last full line. That read gets no bytes and leaves the buffer as it was, the CR LF check passes again, and the last shooter is appended twice. | A 638-byte file: a valid header line and one valid shooter line. | One shooter per full line: the loop ends when a read comes up short. | not executed | ReaderAsWritten.AsWrittenDuplicatesLastShooter | Reader.LoadReadsEveryFullLine |
| src/main.cpp:193-209 | With no shooter lines, the extra read leaves the header line in the buffer. The terminator check then looks at header bytes 316/317, the last slot's target digits, and the load throws. | A 320-byte file holding only a valid header line whose last slot ends in digits. | The header with no shooters. | not executed | ReaderAsWritten.AsWrittenRejectsHeaderOnlyFile | Reader.LoadSucceedsIff |
| src/main.cpp:202-209 | A short final read copies the remaining bytes over the front of the buffer and keeps the stale rest of the previous line. When that line's CR LF is still at 316/317, a shooter is built from the mixture. | A valid header and shooter line followed by 10 bytes of stray data. | A short trailing piece is dropped. | not executed | ReaderAsWritten.AsWrittenReadsOnePastEnd | Reader.TrailingPieceIgnored |
