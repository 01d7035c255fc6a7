# Protocols and codecs of a simulated AVR board

Dafny models of the state machines in this repository that two parties run against each other: a sender and
a receiver, a driver and a simulated part, a writer and a parser. Each model keeps the source's branches,
constants and integer widths; each main theorem speaks of all inputs, all runs or all interleavings.

| module | what it models |
|---|---|
| `Wire`, `Unicode`, `Messages`, `FrameParser` | the fuzzing server's stream reassembler against the emulator's sender |
| `Gregorian`, `DateText`, `NeoTime` | NeoGPS's calendar: seconds to date and back, printing and parsing |
| `Fixes`, `FixRing` | merging of partial fixes and the ring buffer of fixes |
| `NmeaTable`, `NmeaDecoder`, `NmeaLink`, `NmeaHeader` | the NMEA 0183 receiver, its sentence search, and the sender |
| `Degrees` | digit-by-digit latitude and longitude |
| `I2cBus`, `Eeprom`, `TwiMaster`, `TwiBus` | the interrupt-driven I2C master, the simulated controller, and the EEPROM |
| `Lcd` | the HD44780 display and its driver on a 4-bit bus |
| `Ds1338` | the real-time clock and its driver |
| `Ssd1306` | run-length encoded images, the frame buffer and the display |
| `UsbControl` | a USB control read between firmware, endpoint and host, running concurrently |
| `Bits`, `Options`, `Widths` | bitwise or, shared types |

Code that changes state step by step is modelled twice: as a class or method in the source's form, and as a
function of the old state that the method is proved equal to. The theorems about whole runs are about the
functions. Where threads run concurrently (`UsbControl`), each register access or host call is one atomic
step and a run is any interleaving.

Configuration: NeoGPS as configured in `CI_tests/NeoGPS/src/NMEAGPS_cfg.h` (no validation, all sentences
recognised, eight standard names), epoch 2000 and pivot year 0; ring size, merging mode and overrun policy
are parameters. Inputs that come from outside (packets, characters, bus events, schedules, initial register
contents) are parameters. Gregorian rules are those of section 3.2.1 of ISO 8601:2004; UTF-8 is Table 3-7 of
the Unicode Standard; USB requests are those of section 9.3 of the USB 2.0 specification.

Where the code differs from what its names and comments promise, the model follows the code and the difference
is a lemma, with the exact condition where the code does keep the promise:
`FrameParser.EveryListDeliveredExactly` (big-endian hosts), `NeoTime.ClockRoundTrip` (2100 and later),
`NmeaDecoder.SentAsItIsExactly` and `SecondTrailer`, `NmeaLink.ChecksumAcceptedExactly`,
`Eeprom.SelectsAgainExactly`, `FixRing.OverrunLosesAnInterval` and `OverrunMixesIntervals`,
`NmeaHeader.TypeRightExactly`, `Degrees.AccurateExactlyUpTo255`, `TwiMaster.InsideExactlyWhenReadIsNotEmpty`,
`Eeprom.CellIsAddressExactly`, `Ds1338.FebruaryInverted`, `Ds1338.TickGregorianExactly`,
`Ds1338.TwelveHoursExactly`, `Ds1338.TornRead`, `Ssd1306.InitCommands`, `Ssd1306.InitReady`,
`Ssd1306.ShowsExactlyFromColumnZero`, `Ssd1306.ByteObeysExactlyInPageMode`, `UsbControl.SafeExactlyWhenReady`,
`UsbControl.SafeExactlyWhenAnswerable`, `UsbControl.RightExactlyWhenSizesAgree`,
`UsbControl.LeavesReadyExactly`, `UsbControl.NextRightExactlyWhenReady`.

## Model

| member | source | states |
|---|---|---|
| `Wire.IntegersRoundTrip` | simavr/simavr/sim/fuzz_server_notify.c:171-178 | a length written in the sender's byte order is the length read back by the server, in either order, and every four bytes are the image of what they decode to |
| `Messages.BodyRoundTrip` | simavr/simavr/sim/fuzz_server_notify.c:93-169 | the server's unpacking of the body a sender of either byte order packs is the event, if and only if each integer of it reads the same in both orders or the sender is little-endian; paths that are not UTF-8 are sent too, see PathDeliveredExactly |
| `Messages.BigCoverageRefused` | simavr/simavr/sim/fuzz_server_notify.c:141-157 | a big-endian sender's coverage record with one byte of input is refused, whatever edge it names |
| `Messages.BodyCanonical` | server/sl/parser.py:54-107 | conversely, any body the server accepts is exactly the body a little-endian sender would pack for the decoded event |
| `Messages.BodyLayout` | simavr/simavr/sim/fuzz_server_notify.c:93-169 | where each number, the input and the stack frames lie in a body, byte by byte, and the message identifiers, for a sender of either byte order |
| `Unicode.Utf8Means` | server/sl/parser.py:59 | the bytes a path is decoded from are accepted if and only if they are the concatenated encodings of some list of Unicode scalar values |
| `FrameParser.Step` | server/sl/parser.py:20-49 | one turn of the inner loop; it consumes bytes, or consumes none and leaves body state, so the loop ends even on empty bodies |
| `FrameParser.Drain` | server/sl/parser.py:15-49 | the inner loop run to its end, in a state where too few bytes are buffered |
| `FrameParser.FeedTwice` | server/sl/parser.py:15-49 | two packets have the effect of their concatenation, from any state |
| `FrameParser.FrameLayout` | simavr/simavr/sim/fuzz_server_notify.c:171-178 | a frame is the identifier, four bytes of length in the host's order, and the body |
| `FrameParser.ChunkInvariance` | server/sl/parser.py:15-49 | for every list of packets, feeding them one by one equals feeding their concatenation: same calls, same leftover |
| `FrameParser.SplitsAgree` | server/sl/parser.py:15-49 | two ways to cut one byte stream into packets end in the same state with the same calls |
| `FrameParser.Delivery` | server/sl/parser.py:15-52 | for every list of events (paths in UTF-8), either host byte order and every way the bytes are cut: exactly those events are handled in order, with nothing left over, if and only if every event reads the same in the host's order as in the little-endian one |
| `FrameParser.EveryListDeliveredExactly` | server/sl/parser.py:15-107 | every list of events is delivered under every cut if and only if the host is little-endian: the header is decoded in host order, the body always low byte first |
| `FrameParser.PathDeliveredExactly` | simavr/simavr/sim/fuzz_server_notify.c:93-103 | the path the sender sends as it is reaches the server if and only if it is UTF-8; any other ends the server process |
| `FrameParser.Conservation` | server/sl/parser.py:15-52 | for every byte stream, well-formed or not: re-sending the calls made, with little-endian bodies, gives back the bytes consumed, and the process dies only on a frame whose body it refuses |
| `FrameParser.Parser.constructor` | server/sl/parser.py:15-19 | the loop starts at a header with nothing buffered |
| `FrameParser.Parser.Receive` | server/sl/parser.py:20-49 | the loop in place equals Feed of the packet on the old state |
| `FrameParser.Parser.ReadFromQueue` | server/sl/parser.py:15-49 | the whole connection equals one Feed of the concatenation, and is explained by Conservation |
| `Gregorian.OrderAgrees` | CI_tests/NeoGPS/src/NeoTime.cpp:147-158 | comparing two seconds counts is comparing the dates field by field, and equal counts are equal dates |
| `Gregorian.ClockOfCivil` | CI_tests/NeoGPS/src/NeoTime.cpp:95-134 | every seconds count has a valid date that counts back to it |
| `Gregorian.CivilOfClock` | CI_tests/NeoGPS/src/NeoTime.cpp:147-158 | every valid date is the date of its own seconds count |
| `Gregorian.YearStartClosed` | CI_tests/NeoGPS/src/NeoTime.cpp:160-169 | the summed year lengths in closed form |
| `Gregorian.YearBoundary` | CI_tests/NeoGPS/src/NeoTime.cpp:95-134 | the year of a count is below y exactly when the count is below the start of y |
| `NeoTime.FullYear` | CI_tests/NeoGPS/src/NeoTime.h:145-155 | the two-digit year plus 2000 (pivot 0) |
| `NeoTime.IsLeap` | CI_tests/NeoGPS/src/NeoTime.h:171-181 | the one-modulo test is the Gregorian leap rule |
| `NeoTime.DaysPer` | CI_tests/NeoGPS/src/NeoTime.h:183-186 | the length of a Gregorian year in 16 bits |
| `NeoTime.WeekdayAdvances` | CI_tests/NeoGPS/src/NeoTime.h:193-196 | weekdays follow each other from a Saturday epoch |
| `NeoTime.SplitYears` | CI_tests/NeoGPS/src/NeoTime.cpp:101-107 | the loop over years finds the Gregorian year and the day in it, for every day number a 32-bit count can have |
| `NeoTime.FoldYear` | CI_tests/NeoGPS/src/NeoTime.cpp:109-113 | years from 2101 lose a century; 2100 stays at 100 |
| `NeoTime.SplitMonths` | CI_tests/NeoGPS/src/NeoTime.cpp:115-123 | the loop over months finds the month and date |
| `NeoTime.SplitDay` | CI_tests/NeoGPS/src/NeoTime.cpp:125-133 | hours, minutes and seconds, with 16-bit arithmetic before 18:00 and no wrap |
| `NeoTime.Time.constructor` | CI_tests/NeoGPS/src/NeoTime.cpp:95-134 | for every 32-bit count the fields are the Gregorian date, folded after 2100, and the day is its weekday |
| `NeoTime.AddMonths` | CI_tests/NeoGPS/src/NeoTime.cpp:171-182 | the loop of `day_of_year` adds the lengths of the earlier months |
| `NeoTime.Time.DayOfYear` | CI_tests/NeoGPS/src/NeoTime.cpp:171-182 | the day number within the year, in 16 bits |
| `NeoTime.Time.Days` | CI_tests/NeoGPS/src/NeoTime.cpp:160-169 | the count-down loop yields the days since the epoch without overflow |
| `NeoTime.Time.ToClock` | CI_tests/NeoGPS/src/NeoTime.cpp:147-158 | the seconds since the epoch of any valid date, in mixed 16- and 32-bit arithmetic without wrap |
| `NeoTime.Time.PlusAssign` | CI_tests/NeoGPS/src/NeoTime.h:107-108 | adding seconds is addition of counts modulo 2^32, the weekday included |
| `NeoTime.Time.SetDay` | CI_tests/NeoGPS/src/NeoTime.h:114-117 | the weekday of the date |
| `NeoTime.Time.ValidMeaning` | CI_tests/NeoGPS/src/NeoTime.h:202-213 | `is_valid` holds exactly for Gregorian dates of 2000 through 2099 |
| `NeoTime.ClockRoundTrip` | CI_tests/NeoGPS/src/NeoTime.cpp:95-134 | for every 32-bit count: valid exactly outside 2100, counts back exactly below 2101, hence both exactly below 36525 days |
| `NeoTime.FieldsRoundTrip` | CI_tests/NeoGPS/src/NeoTime.cpp:147-158 | every valid object is rebuilt by the constructor from its own count |
| `NeoTime.Time.Parse` | CI_tests/NeoGPS/src/NeoTime.cpp:49-82 | the parser in place succeeds exactly when the six fields parse to a valid date, and then holds that date |
| `NeoTime.Time.ParseAfterYear` | CI_tests/NeoGPS/src/NeoTime.cpp:58-82 | the five fields after the year, each stored as it is read |
| `DateText.DecimalIsNumeral` | CI_tests/NeoGPS/src/NeoTime.cpp:25-45 | the printed digits denote the number |
| `DateText.TextShape` | CI_tests/NeoGPS/src/NeoTime.cpp:25-45 | the printed text of a date up to year 9999 has 19 characters, the separators at 4, 7, 10, 13 and 16, and two digits for each field that denote it |
| `DateText.StrtoulMeans` | CI_tests/NeoGPS/src/NeoTime.cpp:55-80 | any spaces, a sign or none, then digits: the number they denote, negated or saturated at 32 bits, and the place after them |
| `DateText.StrtoulNone` | CI_tests/NeoGPS/src/NeoTime.cpp:55-80 | without a digit there, zero and the place where it started |
| `DateText.ParseNumerals` | CI_tests/NeoGPS/src/NeoTime.cpp:49-82 | any six numerals below 2^32 with the separators parse to the year cut to 16 bits when that is in 2000 through 2099, and to the other fields cut to eight |
| `DateText.ParseOfText` | CI_tests/NeoGPS/src/NeoTime.cpp:49-82 | parsing what `operator<<` printed restores all six fields of every valid date |
| `Fixes.MergeAssociative` | CI_tests/NeoGPS/src/GPSfix.h:468-587 | the merge operator is associative, so how sentences are grouped does not matter |
| `Fixes.MergeAllGroups` | CI_tests/NeoGPS/src/GPSfix.h:468-587 | merging a list into a merged fix is merging the whole list |
| `Fixes.MergeAllMeaning` | CI_tests/NeoGPS/src/GPSfix.h:468-587 | every merged field is the last one reported as valid |
| `Fixes.MergeAllStatus` | CI_tests/NeoGPS/src/GPSfix.h:468-587 | the merged status is the most accurate one reported |
| `Fixes.MergeAllFlags` | CI_tests/NeoGPS/src/GPSfix.h:369-375 | a merged validity flag is set exactly when some sentence set it |
| `FixRing.Ring.StoreFix` | CI_tests/NeoGPS/src/NMEAGPS.cpp:305-386 | the ring with three indices and in-place merging refines Store |
| `FixRing.Ring.ReadFix` | CI_tests/NeoGPS/src/NMEAGPS.cpp:1942-1969 | reading the ring refines Read |
| `FixRing.Ring.IndexLaw` | CI_tests/NeoGPS/src/NMEAGPS.cpp:305-386 | in every valid ring currentFix is firstFix plus available, modulo the size |
| `FixRing.Ring.AcknowledgeOverrun` | CI_tests/NeoGPS/src/NMEAGPS.h:135-136 | clearing the overrun flag changes nothing else |
| `FixRing.QueueIsWaiting` | CI_tests/NeoGPS/src/NMEAGPS.cpp:305-386 | over every run the number of fixes in the ring is the backlog counted from the operations alone |
| `FixRing.OverrunMeans` | CI_tests/NeoGPS/src/NMEAGPS.cpp:310-313 | over every run with any number of acknowledgements, the overrun flag is set exactly when some sentence found the ring full and the application has not cleared the flag since |
| `FixRing.ExplicitMergingExact` | CI_tests/NeoGPS/src/NMEAGPS.cpp:305-386 | over every run in which no sentence finds the ring full, the fixes read and still queued are the left-to-right merges of exactly the finished intervals, in order |
| `FixRing.DropNewestExact` | CI_tests/NeoGPS/src/NMEAGPS.cpp:305-386 | with the newest dropped, the same law holds over every run, of the sentences that found room |
| `FixRing.OverrunLosesAnInterval` | CI_tests/NeoGPS/src/NMEAGPS.cpp:315-333 | with the newest kept, the exact law holds if and only if no sentence arrives while the backlog is full; otherwise an interval is missing for good |
| `FixRing.OverrunExact` | CI_tests/NeoGPS/src/NMEAGPS.cpp:305-386 | over every run with the newest kept, whatever overflows: every fix read or waiting, and the one being assembled, is the merge of the sentences of its interval, preceded by all that the dropped fix came from when its first sentence found the ring full |
| `FixRing.OwnIntervalKept` | CI_tests/NeoGPS/src/NMEAGPS.cpp:305-386 | those sources always end with every sentence of the fix's own interval, and the fixes waiting are those of the last intervals |
| `FixRing.OverrunMixesIntervals` | CI_tests/NeoGPS/src/NMEAGPS.cpp:320-343 | a concrete overrun after which the next fix read mixes two intervals, because the reclaimed slot is not cleared |
| `FixRing.NoMergingKeepsNewest` | CI_tests/NeoGPS/src/NMEAGPS.cpp:305-386 | without merging and with the newest kept, over every run the queue is the most recent sentences and what was read is a selection of earlier ones, each once and in order |
| `FixRing.LosslessExactly` | CI_tests/NeoGPS/src/NMEAGPS.cpp:305-386 | without explicit merging, under either policy: what was read and what is queued are all sentences (with implicit merging, the last of each finished interval) in order, if and only if none that costs a fix found the ring full; with implicit merging and the newest dropped only those that end an interval cost one |
| `FixRing.DropNewestLaw` | CI_tests/NeoGPS/src/NMEAGPS.cpp:305-386 | with the newest dropped, over every interleaving of stores and reads, read and queued are exactly the fixes that arrived while there was room, in order |
| `NmeaTable.SearchLoop` | CI_tests/NeoGPS/src/NMEAGPS.cpp:529-621 | the loop over table entries equals the recursive search |
| `NmeaTable.SearchExtends` | CI_tests/NeoGPS/src/NMEAGPS.cpp:529-621 | if the stored entry is the first with the prefix read, one more character moves it to the first with the longer prefix |
| `NmeaTable.SearchComplete` | CI_tests/NeoGPS/src/NMEAGPS.cpp:458-524 | for every alphabetical table of distinct names of one length, feeding the characters of entry k ends at entry k |
| `NmeaTable.NamesAlphabetical` | CI_tests/NeoGPS/src/NMEAGPS.cpp:392-442 | the eight names of this build are such a table |
| `NmeaDecoder.ParseHexMeans` | CI_tests/NeoGPS/src/NMEAGPS.cpp:43-51 | the exact characters that stand for each digit: both cases of the letters, the decimal digits, and two ranges that are not hexadecimal; no other comes out at 15 or less |
| `NmeaDecoder.FormatHexMeans` | CI_tests/NeoGPS/src/NMEAGPS.cpp:55-59 | what is written for a nibble is a decimal digit or a capital letter that stands for it |
| `NmeaDecoder.HexRoundTrip` | CI_tests/NeoGPS/src/NMEAGPS.cpp:43-59 | `parseHEX` undoes `formatHex` for every nibble |
| `NmeaDecoder.Receiver.DecodeChar` | CI_tests/NeoGPS/src/NMEAGPS.cpp:188-283 | the object's `decode`, state by state, equals the transition function |
| `NmeaDecoder.FieldCharacters` | CI_tests/NeoGPS/src/NMEAGPS.cpp:194-226 | in the fields exactly the characters outside the printable range drop the sentence, a star ends the fields and a dollar sign starts over |
| `NmeaDecoder.DroppedForgets` | CI_tests/NeoGPS/src/NMEAGPS.cpp:156-163 | a sentence that is dropped leaves no sentence type behind |
| `NmeaDecoder.Receiver.ParseCommandChar` | CI_tests/NeoGPS/src/NMEAGPS.cpp:458-524 | the header parser in place returns and stores what the transition function says |
| `NmeaDecoder.Receiver.SentenceBegin` | CI_tests/NeoGPS/src/NMEAGPS.cpp:86-124 | a dollar sign restarts the parser from any state |
| `NmeaDecoder.RunTracks` | CI_tests/NeoGPS/src/NMEAGPS.cpp:188-283 | invariant over every run: the running checksum, the phase and the character count describe exactly the characters since the last dollar sign and the last comma |
| `NmeaDecoder.CompletedMeans` | CI_tests/NeoGPS/src/NMEAGPS.cpp:188-283 | over every run, a completed sentence means the input ends in a dollar sign, text, star and two characters that stand for the two halves of the checksum of the text |
| `NmeaDecoder.Send` | CI_tests/NeoGPS/src/NMEAGPS.cpp:2060-2080 | for every message the loop writes the dollar sign, the whole message, and a checksum trailer when the eight-bit count of characters from the first star on ends at zero |
| `NmeaDecoder.SentAsItIsExactly` | CI_tests/NeoGPS/src/NMEAGPS.cpp:2060-2080 | a message goes out with no trailer added if and only if it has a star and that count ends non-zero; one without a star gets the checksum of all of it |
| `NmeaDecoder.ShortTailSentAsItIs` | CI_tests/NeoGPS/src/NMEAGPS.cpp:2060-2080 | so any message with its own star and at most 255 characters from it on goes out as it is |
| `NmeaDecoder.SecondTrailer` | CI_tests/NeoGPS/src/NMEAGPS.cpp:2060-2080 | with exactly 256 characters from the star on a second checksum follows the first, of the characters before the star |
| `NmeaLink.FramedIsCompleted` | CI_tests/NeoGPS/src/NMEAGPS.cpp:188-283 | from any parser state, for any payload and table, a framed message is accepted character by character and completes exactly at the second digit with the right type, whichever characters stand for the two digits |
| `NmeaLink.ChecksumAcceptedExactly` | CI_tests/NeoGPS/src/NMEAGPS.cpp:242-277 | it completes there if and only if the two characters stand for the two halves of the checksum |
| `NmeaLink.SentIsCompleted` | CI_tests/NeoGPS/src/NMEAGPS.cpp:2043-2080 | so what the sender writes for any payload is accepted and completes |
| `NmeaLink.CorruptionDetected` | CI_tests/NeoGPS/src/NMEAGPS.cpp:188-283 | replacing any one character, header included, by another printable one completes nothing until the next dollar sign |
| `NmeaLink.SilentMeans` | CI_tests/NeoGPS/src/NMEAGPS.cpp:188-283 | what silence means character by character |
| `NmeaLink.BuildUsable` | CI_tests/NeoGPS/src/NMEAGPS.cpp:392-442 | the build's own table meets the premises of the link theorems |
| `NmeaHeader.SearchMatches` | CI_tests/NeoGPS/src/NMEAGPS.cpp:529-621 | the search finds an entry exactly when it is the first, from where it stands, that is not before the character, and has it |
| `NmeaHeader.TakenExactly` | CI_tests/NeoGPS/src/NMEAGPS.cpp:458-621 | for every table of names of one length, any talker and any header, the header is taken for entry k if and only if its chain of entries, defined from the table alone, matches at every character and ends at k |
| `NmeaHeader.TypeRightExactly` | CI_tests/NeoGPS/src/NMEAGPS.cpp:458-621 | for every alphabetical table the sentence type is right if and only if the header is a name of the table or its chain breaks |
| `NmeaHeader.ShortNameAccepted` | CI_tests/NeoGPS/src/NMEAGPS.cpp:577-598 | every proper non-empty prefix of every name is taken for the first name it begins |
| `NmeaHeader.OtherNameAccepted` | CI_tests/NeoGPS/src/NMEAGPS.cpp:577-598 | with the build's table the header GTG, which is no name, is taken for VTG |
| `Degrees.Divu3` | CI_tests/NeoGPS/src/NMEAGPS.cpp:1383-1396 | shift-and-add division by three is exact for every 32-bit number, with no wrap and the remainder estimate in 0..15 |
| `Degrees.ToBinary` | CI_tests/NeoGPS/src/NMEAGPS.cpp:63-68 | two BCD digits to binary |
| `Degrees.DegreeField.ParseDDDMM` | CI_tests/NeoGPS/src/NMEAGPS.cpp:1401-1546 | the object's parser equals the transition function on every character |
| `Degrees.BcdMinutes` | CI_tests/NeoGPS/src/NMEAGPS.cpp:1427-1448 | at the decimal point the BCD digits become minutes of arc |
| `Degrees.ConvertRounds` | CI_tests/NeoGPS/src/NMEAGPS.cpp:1383-1396 | minutes to degrees rounds to nearest, and val*2+1 never wraps |
| `Degrees.NearestUpToFive` | CI_tests/NeoGPS/src/NMEAGPS.cpp:1401-1546 | with at most five decimals the result is the nearest integer to degrees times 10^7 |
| `Degrees.NearestWithoutPoint` | CI_tests/NeoGPS/src/NMEAGPS.cpp:1401-1546 | the same without a decimal point |
| `Degrees.WithinOneUnit` | CI_tests/NeoGPS/src/NMEAGPS.cpp:1401-1546 | with six or more decimals the result is within less than one unit |
| `Degrees.LongFieldForgotten` | CI_tests/NeoGPS/src/NMEAGPS.cpp:1416-1425 | a field of a multiple of 256 characters has the value 0, whatever it says |
| `Degrees.AccurateExactlyUpTo255` | CI_tests/NeoGPS/src/NMEAGPS.cpp:1401-1546 | every field of n characters, with a point or without, meets its accuracy bound if and only if n is at most 255, because the character count is eight bits |
| `Eeprom.I2cEeprom.constructor` | simavr/examples/parts/i2c_eeprom.c:123-144 | a fresh part: size capped, cells 0xFF |
| `Eeprom.I2cEeprom.InHook` | simavr/examples/parts/i2c_eeprom.c:33-116 | the hook in place refines the transition function |
| `Eeprom.I2cEeprom.StoreByte` | simavr/examples/parts/i2c_eeprom.c:82-102 | address phase and data phase of a write, in place |
| `Eeprom.AddressPhase` | simavr/examples/parts/i2c_eeprom.c:86-100 | the address bytes of a transaction select the cell they name, for one- and two-byte addresses |
| `Eeprom.AddressAgain` | simavr/examples/parts/i2c_eeprom.c:86-94 | an address phase from any register value selects the cell of the address or-ed with that value |
| `Eeprom.SelectsAgainExactly` | simavr/examples/parts/i2c_eeprom.c:86-94 | a second address phase with no STOP in between selects the cell it names if and only if or-ing the old register in changes nothing modulo the size: within the part, if and only if the address has every bit of the register |
| `Eeprom.WriteTransaction` | simavr/examples/parts/i2c_eeprom.c:82-102 | a whole write stores its bytes at consecutive cells modulo the size |
| `Eeprom.CellIsAddressExactly` | simavr/examples/parts/i2c_eeprom.c:89-91 | the slave correction leaves every address on its own cell if and only if the size divides 128 times the base |
| `Eeprom.CellOfAlignedBase` | simavr/examples/parts/i2c_eeprom.c:89-91 | so for every size when the base address is a multiple of 32 |
| `Eeprom.FetchStored` | simavr/examples/parts/i2c_eeprom.c:95-114 | reading back the cells just written gives the written bytes, wrap-around included |
| `Eeprom.StoredElsewhere` | simavr/examples/parts/i2c_eeprom.c:95-101 | cells outside the written range are unchanged |
| `Eeprom.FetchedAt` | simavr/examples/parts/i2c_eeprom.c:106-114 | byte k of a read is the cell k further on, modulo the size |
| `TwiMaster.TwiDriver.StartTransceiverWithData` | simavr/examples/shared/avr_twi_master.c:79-95 | a request loads the buffer and starts the transfer |
| `TwiMaster.TwiDriver.Interrupt` | simavr/examples/shared/avr_twi_master.c:143-219 | the interrupt routine in place equals the transition function |
| `TwiMaster.TransferSafe` | simavr/examples/shared/avr_twi_master.c:143-219 | over every legal sequence of hardware events: the bytes sent are a prefix of the message, the pointer stays in bounds, and success is reported only when every byte was acknowledged, or exactly the wanted bytes were received with only the last refused |
| `TwiMaster.StatusReported` | simavr/examples/shared/avr_twi_master.c:206-219 | over every event sequence: the run is over without success exactly when its last status is a fatal one, and that is the state the driver reports; otherwise it reports none |
| `TwiMaster.EmptyReadStrays` | simavr/examples/shared/avr_twi_master.c:176-200 | asked to read nothing, the driver stores one byte behind the address, outside the message, and reports success, for any length of the buffer |
| `TwiMaster.InsideExactlyWhenReadIsNotEmpty` | simavr/examples/shared/avr_twi_master.c:143-219 | over all possible event sequences nothing at or past the message size changes and nothing strays, if and only if a read asks for at least one byte |
| `TwiBus.TransmitStep` | simavr/simavr/sim/avr_twi.c:263-339 | one interrupt of a transmission: the controller takes the control register write, sends the byte to the part and reports its acknowledgement |
| `TwiBus.ReceiveStep` | simavr/simavr/sim/avr_twi.c:263-339 | one interrupt of a reception: the byte comes from the part's cell, and all but the last are acknowledged |
| `TwiBus.TransmitLoop` | simavr/simavr/sim/avr_twi.c:263-339 | a transmission, interrupt by interrupt, delivers exactly the message bytes |
| `TwiBus.ReceiveLoop` | simavr/simavr/sim/avr_twi.c:263-339 | a reception fills the buffer with consecutive cells and stops after the last |
| `TwiBus.WriteTransfer` | simavr/examples/board_i2ctest/atmega1280_i2ctest.c:53-66 | a whole write transfer on master, controller and part together |
| `TwiBus.ReadTransfer` | simavr/examples/board_i2ctest/atmega1280_i2ctest.c:67-82 | a whole repeated-start read on the three together |
| `TwiBus.StoreIsRemembered` | simavr/examples/board_i2ctest/atmega1280_i2ctest.c:53-66 | a write transfer acts on the cells as on an array |
| `TwiBus.FetchIsRemembered` | simavr/examples/board_i2ctest/atmega1280_i2ctest.c:67-82 | address without stop, then a read, returns the array's bytes |
| `TwiBus.BusIsMemory` | simavr/examples/board_i2ctest/atmega1280_i2ctest.c:53-82 | for every list of operations, size and base: the bytes read are what a plain memory returns, the cells are its contents, and nothing is stored out of bounds |
| `TwiBus.BoardPartAddressable` | simavr/examples/board_i2ctest/i2ctest.c:57-58 | the demonstration board's part meets the addressing premise |
| `Lcd.KicksMove` | simavr/examples/parts/hd44780.c:82-98 | after any number of steps the cursor is that far up, stopping at the last cell, or that far down, stopping at the first cell of its memory |
| `Lcd.Hd44780.constructor` | simavr/examples/parts/hd44780.c:368-385 | power-up state: 4-bit mode, between bytes, not busy |
| `Lcd.Hd44780.HighestBit` | simavr/examples/parts/hd44780.c:128-132 | the loop finds the highest set bit, or 0 for none |
| `Lcd.Hd44780.WriteCommand` | simavr/examples/parts/hd44780.c:123-183 | the command decoder in place refines Command |
| `Lcd.TopRange` | simavr/examples/parts/hd44780.c:128-132 | the highest set bit of a command is a range of bytes |
| `Lcd.CommandMeans` | simavr/examples/parts/hd44780.c:123-183 | for every command byte, by ranges and values: what it does to cursor, screen, interface width and phase, entry mode, shift and each display flag, with everything else unchanged |
| `Lcd.Hd44780.WriteData` | simavr/examples/parts/hd44780.c:104-118 | a data write in place refines StoreData |
| `Lcd.Hd44780.PulseWrite` | simavr/examples/parts/hd44780.c:188-221 | a write pulse in place refines ProcessWrite, in both widths and phases |
| `Lcd.Hd44780.PulseRead` | simavr/examples/parts/hd44780.c:223-274 | a read pulse in place refines ProcessRead |
| `Lcd.SendByte` | simavr/examples/board_hd44780/avr_hd44780.c:116-121 | `outbyte` is two write pulses |
| `Lcd.FetchByte` | simavr/examples/board_hd44780/avr_hd44780.c:147-156 | `inbyte` is two read pulses |
| `Lcd.OutByteTransparent` | simavr/examples/board_hd44780/avr_hd44780.c:100-121 | between bytes, `outbyte` makes the part execute exactly that byte once; 4-bit mode survives if and only if the byte is not the 8-bit function set |
| `Lcd.InByteTransparent` | simavr/examples/board_hd44780/avr_hd44780.c:126-156 | `inbyte` returns the part's whole byte and the phase returns to high |
| `Lcd.LinkTransparent` | simavr/examples/board_hd44780/avr_hd44780.c:100-156 | over any run of bytes out, bytes in and busy timer events, bytes read and part state are those of a part without a nibble bus, and the cursor stays below 144 |
| `Lcd.TextRoundTrip` | simavr/examples/board_hd44780/avr_hd44780.c:100-156 | text written at an address through the nibble bus is read back from it, to the end of the memory |
| `Lcd.TypingStuck` | simavr/examples/parts/hd44780.c:104-118 | with the display shift on the characters of a text go over one another |
| `Lcd.TextShownExactly` | simavr/examples/board_hd44780/atmega48_charlcd.c:73-112 | from any state between two bytes, clear, entry mode 0x06, an address and a text leave exactly that text on a blank screen, if and only if the display shift is off or the text does not show the difference |
| `Lcd.ShowFromPowerUp` | simavr/examples/board_hd44780/atmega48_charlcd.c:70-112 | from power-up, initialisation and those commands leave exactly the text on the screen |
| `Lcd.StatusMeans` | simavr/examples/parts/hd44780.c:247-257 | bit 7 of the status byte is the busy flag and the rest the address, less 64 in the character memory |
| `Lcd.WaitReady` | simavr/examples/board_hd44780/avr_hd44780.c:161-172 | the busy loop ends with the part ready and nothing else changed |
| `Lcd.WakeSynchronises` | simavr/examples/board_hd44780/avr_hd44780.c:190-198 | from every part state, either width, either phase, any latched nibble, the nibbles 3, 3, 3, 2 end in 4-bit mode between bytes with the screen unchanged |
| `Lcd.Initialise` | simavr/examples/board_hd44780/avr_hd44780.c:182-204 | the whole initialisation ends ready, two lines, display off, screen unchanged, from every state |
| `Ds1338.TickReads` | simavr/examples/parts/ds1338_virt.c:100-119 | a register tick gives the successor value with carry at the top, and keeps the flag bits |
| `Ds1338.FebruaryInverted` | simavr/examples/parts/ds1338_virt.c:79-94 | in every year the month lengths are the Gregorian ones, except that February has 28 days in leap years and 29 in the others |
| `Ds1338.Ds1338Virt.constructor` | simavr/examples/parts/ds1338_virt.c:455-473 | power-up: weekday 1, oscillator off |
| `Ds1338.Ds1338Virt.InHook` | simavr/examples/parts/ds1338_virt.c:363-445 | the bus hook in place refines the transition function |
| `Ds1338.BurstReads` | simavr/examples/parts/ds1338_virt.c:39-48 | a read of any length gives the registers in turn and goes round after 65 of them, one more than the part has |
| `Ds1338.Ds1338Virt.TickRegister` | simavr/examples/parts/ds1338_virt.c:100-119 | the BCD tick in place |
| `Ds1338.Ds1338Virt.TickTime` | simavr/examples/parts/ds1338_virt.c:124-220 | the cascade with its early returns, in place, equals Tick |
| `Ds1338.Ds1338Virt.TickHour` | simavr/examples/parts/ds1338_virt.c:151-183 | the hours register in both modes |
| `Ds1338.Ds1338Virt.ClockTick` | simavr/examples/parts/ds1338_virt.c:281-303 | the half-period counter that divides the crystal |
| `Ds1338.TickIsNext` | simavr/examples/parts/ds1338_virt.c:124-220 | in 24-hour mode one tick of the BCD registers is one second of an arithmetic calendar, registers stay valid and cells 7 to 63 are untouched |
| `Ds1338.EndOfFebruary` | simavr/examples/parts/ds1338_virt.c:151-183 | at the last second of a day in February the registers go on to March after the 28th of a leap year and the 29th of any other |
| `Ds1338.TickGregorianExactly` | simavr/examples/parts/ds1338_virt.c:79-183 | from a Gregorian date the next second is the one of the reference calendar, if and only if it is not the end of a February 28 or of the century |
| `Ds1338.TicksShow` | simavr/examples/parts/ds1338_virt.c:124-220 | the same for any number of ticks |
| `Ds1338.AfterClosed` | simavr/examples/parts/ds1338_virt.c:124-220 | after n seconds the time of day is (start + n) modulo 86400, on the day that many midnights later |
| `Ds1338.CrystalDivides` | simavr/examples/parts/ds1338_virt.c:281-303 | k half periods tick exactly (rtc + k) / 65536 seconds and leave the remainder in the counter |
| `Ds1338.HaltedStays` | simavr/examples/parts/ds1338_virt.c:287-293 | with the oscillator off nothing changes |
| `Ds1338.HaltedExactly` | simavr/examples/parts/ds1338_virt.c:281-300 | half a crystal period changes something if and only if the top bit of the seconds register is clear |
| `Ds1338.WriteRegisterStores` | simavr/examples/board_ds1338/ds1338.c:27-34 | a driver write changes exactly the named register |
| `Ds1338.ReadRegisterFetches` | simavr/examples/board_ds1338/ds1338.c:36-46 | a driver read returns the named register and changes none |
| `Ds1338.SetTime` | simavr/examples/board_ds1338/ds1338.c:92-114 | seven writes and a read set the registers to the BCD of the fields, keeping the mode bits of the hours |
| `Ds1338.GetTime` | simavr/examples/board_ds1338/ds1338.c:58-90 | seven reads decode the registers |
| `Ds1338.SetShows` | simavr/examples/board_ds1338/ds1338.c:92-114 | in 24-hour mode, after setting a valid time the registers show it |
| `Ds1338.GetDecodes` | simavr/examples/board_ds1338/ds1338.c:58-90 | registers that show a time decode to it |
| `Ds1338.SetRunGet` | simavr/examples/board_ds1338/ds1338.c:58-114 | set, run any number of half periods, get: the result is the start time that many whole seconds later |
| `Ds1338.GetTimeAcross` | simavr/examples/board_ds1338/ds1338.c:58-90 | the driver's seven reads with any number of half periods passing before one of them: the registers read before it are the old ones, the others the new ones |
| `Ds1338.GetTorn` | simavr/examples/board_ds1338/ds1338.c:58-90 | so in 24-hour mode the fields are torn there between the time before and the time that many whole seconds later |
| `Ds1338.TornRead` | simavr/examples/board_ds1338/ds1338.c:58-90 | when that is one second, for every place among the seven reads: the result was never shown if and only if the second carries past the reads already made |
| `Ds1338.TwelveHoursExactly` | simavr/examples/parts/ds1338_virt.c:151-183 | in 12-hour mode, for every register showing 1 to 12, the end of an hour shows the next hour of the day in 12-hour mode with the day carried exactly at midnight, if and only if the register shows at most 10 |
| `Ds1338.TwelveHourRegister` | simavr/examples/parts/ds1338_virt.c:151-170 | the hours register in 12-hour mode bit by bit: mode in bit 6, afternoon in bit 5, the hour in BCD below |
| `Ds1338.TwelveHourRoundTrip` | simavr/examples/board_ds1338/ds1338.c:66-104 | in 12-hour mode the driver writes such a register and reads the same hour and half of the day back |
| `Ds1338.AfternoonForgets` | simavr/examples/parts/ds1338_virt.c:151-170 | in particular the end of the hour after noon clears the register, mode bit included |
| `Ssd1306.NextPixel` | simavr/examples/board_ssd1306/ssd1306.c:251-268 | the inner loop's decoding step equals Pull |
| `Ssd1306.PullKeeps` | simavr/examples/board_ssd1306/ssd1306.c:243-270 | each decoded pixel extends the picture the encoding stands for, and nothing past the image is read before the picture is complete |
| `Ssd1306.WriteImage` | simavr/examples/board_ssd1306/ssd1306.c:243-270 | the frame buffer gets the first 1024 bytes of the recursive expansion, for every image that expands to as many, a zero count standing for 256 |
| `Ssd1306.RunsDry` | simavr/examples/board_ssd1306/ssd1306.c:243-270 | when the picture is used up the next pixel needs a byte past the image: the premise is exact |
| `Ssd1306.Ssd1306Virt.DataByte` | simavr/examples/parts/ssd1306_virt.c:36-53 | a data byte in place refines WriteData |
| `Ssd1306.Ssd1306Virt.CommandByte` | simavr/examples/parts/ssd1306_virt.c:258-270 | a command byte in place refines WriteCommand |
| `Ssd1306.Ssd1306Virt.UpdateCommandRegister` | simavr/examples/parts/ssd1306_virt.c:59-184 | the first byte of a command |
| `Ssd1306.Ssd1306Virt.UpdateSetting` | simavr/examples/parts/ssd1306_virt.c:189-251 | its arguments |
| `Ssd1306.CursorCounts` | simavr/examples/parts/ssd1306_virt.c:36-53 | in horizontal mode page and column are one counter modulo 1024 |
| `Ssd1306.WholeCommand` | simavr/examples/parts/ssd1306_virt.c:59-251 | every command byte takes exactly its number of arguments, does exactly what it is for, and leaves the part between commands |
| `Ssd1306.RowGoesRound` | simavr/examples/parts/ssd1306_virt.c:36-53 | outside horizontal mode the page stays and the column goes round after 128 bytes |
| `Ssd1306.DisplayFrame` | simavr/examples/board_ssd1306/ssd1306.c:206-218 | the nested loops send the frame buffer in order after the cursor reset |
| `Ssd1306.DisplayRotates` | simavr/examples/board_ssd1306/ssd1306.c:206-218 | a frame lands shifted by the starting column around the whole screen, and the cursor returns there |
| `Ssd1306.ShowsExactlyFromColumnZero` | simavr/examples/board_ssd1306/ssd1306.c:137-144 | every frame is shown as it is if and only if the cursor starts in column zero: the reset does not set the column in horizontal mode |
| `Ssd1306.DisplayShows` | simavr/examples/board_ssd1306/ssd1306.c:206-218 | from column zero the screen memory becomes the frame and the cursor returns to the origin |
| `Ssd1306.CallDone` | simavr/examples/board_ssd1306/ssd1306.c:109-218 | each driver call leaves the part ready and does to picture and settings what it says |
| `Ssd1306.ScreenFollows` | simavr/examples/board_ssd1306/ssd1306.c:109-218 | over any sequence of frames and settings the screen is the last frame under the last settings |
| `Ssd1306.InitCommands` | simavr/examples/board_ssd1306/ssd1306.c:70-107 | the initialisation bytes select horizontal mode and full settings, except the segment remap, which the part takes for an argument |
| `Ssd1306.InitReady` | simavr/examples/parts/ssd1306_virt.c:391-410 | reset and initialisation from any state make the part ready; the reset clears only half of the picture |
| `Ssd1306.ByteObeysExactlyInPageMode` | simavr/examples/board_ssd1306/ssd1306.c:185-192 | a single byte lands at its x if and only if the part is in page mode or the cursor is at x already |
| `Ssd1306.ShowImage` | simavr/examples/board_ssd1306/ssd1306.c:206-270 | decode and display: the screen is the picture the encoding stands for |
| `UsbControl.Find` | simavr/examples/extra_board_usb/at90usb162_cdc_loopback.c:802-823 | the table search returns the data of the first entry that carries both words, and nothing exactly when no entry does |
| `UsbControl.ReplyMeans` | simavr/examples/extra_board_usb/at90usb162_cdc_loopback.c:802-826 | search and clipping together: an answer exactly when some entry carries both words, and it is the beginning of the first such entry, min(wLength, 255, length) bytes long |
| `UsbControl.SetupOnWire` | simavr/examples/parts/vhci_usb.c:83-88 | the eight request bytes, each word low byte first |
| `UsbControl.SetupRoundTrip` | simavr/examples/extra_board_usb/at90usb162_cdc_loopback.c:791-799 | the firmware reads back the request the host wrote |
| `UsbControl.FirmwareFlows` | simavr/examples/extra_board_usb/at90usb162_cdc_loopback.c:827-844 | each register access of the packet loop keeps received + buffered + unsent equal to the reply, in full packets |
| `UsbControl.HostFlows` | simavr/examples/parts/vhci_usb.c:92-111 | each host call of the reassembly loop keeps it, and when the loop is left the host has the whole reply |
| `UsbControl.StepKeeps` | simavr/simavr/sim/avr_usb.c:332-380 | every step of either side keeps the invariant: received, buffered and unsent bytes are the reply |
| `UsbControl.TransferSafe` | simavr/examples/parts/vhci_usb.c:90-111 | over every interleaving from a ready endpoint, requests for nothing included when the descriptor exists: never more bytes than asked for, the whole reply when done, a stall only for an unknown descriptor, no failed assertion |
| `UsbControl.SafeExactlyWhenAnswerable` | simavr/examples/parts/vhci_usb.c:90-119 | given agreeing sizes, every interleaving is sound if and only if something is asked for or the descriptor exists |
| `UsbControl.NothingCrashes` | simavr/examples/parts/vhci_usb.c:115-119 | a request for nothing from an unknown descriptor meets the stall in the status stage and fails the host's assertion |
| `UsbControl.NoDeadlock` | simavr/examples/parts/vhci_usb.c:90-120 | in every reachable unfinished state some side can move |
| `UsbControl.TransferEnds` | simavr/examples/parts/vhci_usb.c:90-120 | under any fair interleaving the transfer ends |
| `UsbControl.TransferDelivers` | simavr/examples/extra_board_usb/at90usb162_cdc_loopback.c:802-845 | any fair run ends with min(wLength, 255, length) bytes of the first entry that carries both words, or with a stall exactly when no entry does |
| `UsbControl.SafeExactlyWhenReady` | simavr/simavr/sim/avr_usb.c:340-342 | with the firmware idle, every interleaving is safe if and only if TXINI is set when the request arrives, or nothing is asked for |
| `UsbControl.StaleEndpoint` | simavr/simavr/sim/avr_usb.c:671-685 | otherwise the host may read its own request back as data |
| `UsbControl.LeavesReadyExactly` | simavr/examples/extra_board_usb/at90usb162_cdc_loopback.c:832-844 | a read leaves the endpoint ready for the next one under every interleaving if and only if its last packet is not a full one that ends where the request does |
| `UsbControl.FullLastMeans` | simavr/examples/extra_board_usb/at90usb162_cdc_loopback.c:824-844 | the last packet is a full one at the requested end exactly when the entry is at least as long as the request, and that is a multiple of the packet size up to 255 |
| `UsbControl.FullLastBreaksNext` | simavr/examples/extra_board_usb/at90usb162_cdc_loopback.c:832-844 | after such a read some interleaving makes the next one deliver its own request |
| `UsbControl.ReadLeaves` | simavr/examples/parts/vhci_usb.c:113-121 | over every interleaving, what a finished read, empty or not, can leave behind: a request not yet taken, an idle firmware, one with an empty packet to offer, or one gone elsewhere |
| `UsbControl.EmptyReadLeaves` | simavr/examples/parts/vhci_usb.c:113-121 | a request for nothing can leave each of these, the ready endpoint among them |
| `UsbControl.NextRightExactlyWhenReady` | simavr/simavr/sim/avr_usb.c:671-685 | from whatever a read left, the next one that asks for something is right over every interleaving, neither deceived nor stuck, if and only if the endpoint was left ready |
| `UsbControl.ReadsDeliver` | simavr/examples/parts/vhci_usb.c:70-121 | any list of answerable reads, empty ones included, delivers every reply under any fair interleavings, when each leaves the endpoint ready for the next: always without a full last packet at the requested end, and otherwise when its run does |
| `UsbControl.RightExactlyWhenSizesAgree` | simavr/examples/parts/vhci_usb.c:106-109 | reads are right for every table and interleaving if and only if something is asked for and the host's packet size is 16, or the request fits one packet of either size |
| `UsbControl.MismatchBreaks` | simavr/examples/parts/vhci_usb.c:106-109 | for every other size, a descriptor and an interleaving that hang or truncate the read |
| `UsbControl.ProbeFindsSize` | simavr/examples/parts/vhci_usb.c:230-241 | the eight-byte probe returns the declared packet size, so every later read is made with agreeing sizes from a ready endpoint |
| `UsbControl.EmptyRequestLost` | simavr/examples/parts/vhci_usb.c:90-119 | a request for nothing can be over for the host before the firmware has read it |

## Left out

- FrameParser.Delivery: the crash record's last frame (the current program counter, appended while sending) is one of the event's frames; sockets and process start-up are not modelled.
- FrameParser.EveryListDeliveredExactly: sender and server run on one host, so the length in a frame's header is written and read in one byte order.
- Messages.BodyRoundTrip: paths that are not UTF-8 do not come back, because the server dies of them (`FrameParser.PathDeliveredExactly`).
- Messages.HandleBody: the handlers' effects (coverage sets, files, screens) are an ordered log of calls; a path is kept as its UTF-8 bytes.
- NeoTime.ClockRoundTrip: dates from 2100 on are not represented by the code; the lemma says exactly which counts are.
- NeoTime.Time.Parse: the text has fewer than 32 characters; the source copies longer ones past its 32-byte buffer (CI_tests/NeoGPS/src/NeoTime.cpp:51-53).
- FixRing.ExplicitMergingExact: needs room for every sentence; with the newest kept `OverrunLosesAnInterval` shows the premise is exact, with the newest dropped `DropNewestExact` says what holds without it.
- FixRing.Ring.StoreFix: the build without a ring (a maximum of zero fixes) and the interrupt-lock around the indices are not modelled.
- NmeaDecoder.Receiver.DecodeChar: the field parsers are not part of the state, because without validation they accept every character and never touch these members; the statistics counters are not modelled, talker and proprietary saving are not configured, and the injected comma before the star affects only field contents.
- NmeaHeader.TakenExactly: a header that goes on after a NUL in the place of a name's terminator makes the source read outside the name, and is not among the headers; the same holds of `TypeRightExactly`.
- Degrees.NearestUpToFive: fields are at most 255 characters; `AccurateExactlyUpTo255` shows the bound is exact. Hemispheres and the degrees-minutes-seconds form are not modelled.
- Eeprom.Hook: the size is a power of two, so the mask is a modulo; verbose output is not modelled.
- TwiBus.BusIsMemory: a second address phase without a STOP in between is not among the operations; the part ors it into the old address (simavr/examples/parts/i2c_eeprom.c:88), and `Eeprom.SelectsAgainExactly` says when that still selects the cell.
- TwiBus.WriteTwcr: the controller's slave mode, bit timing and delays.
- Lcd.LinkTransparent: the 8-bit function set is excluded, because it ends 4-bit mode; `OutByteTransparent` says it is the only such byte.
- Lcd.Hd44780.PulseWrite: the levels of the unconnected pins D0 to D3 are a constant parameter; drawing, the signals raised for tracing, and delays are not modelled, and the busy timer is an event that may come at any time.
- Ds1338.TickIsNext: 24-hour mode only; `TwelveHoursExactly` says which ticks are right in 12-hour mode. Month lengths are the part's own (`FebruaryInverted`); `TickGregorianExactly` compares them with the Gregorian calendar.
- Ds1338.SetRunGet: no time passes between the seven register accesses of one call; `GetTorn` says what is read when time passes before one of the reads, and `TornRead` when one second matters.
- Ds1338.Ds1338Virt.InHook: cells 64 and up are outside the array in the source; the model reads zero there and drops writes. The square wave output is not modelled, and every driver access is answered.
- Ssd1306.Ssd1306Virt.DataByte: a cursor set past the last row or column by commands this driver never sends would write outside the array; the model drops such a write. Scrolling and the I2C transport are not modelled.
- Ssd1306.WriteImage: an image that expands to fewer than 1024 bytes is read past its end by the code; the method requires enough.
- UsbControl.TransferDelivers: premises are a ready endpoint, agreeing sizes, and a known descriptor when nothing is asked for; `SafeExactlyWhenReady`, `RightExactlyWhenSizesAgree` and `SafeExactlyWhenAnswerable` show each is needed.
- UsbControl.FirmwareStep: requests other than GET_DESCRIPTOR lead out of the model; the endpoint is enabled, and reading the request, acknowledging it and looking it up is one step. For a request that asks for something the host can neither observe nor change anything in between. For an empty one the status write can empty the FIFO while the request is being read; the host is then done already, so whatever the firmware makes of the rest cannot change this read, the next SETUP clears a stall, and the results about later reads ask for an endpoint left ready.
- UsbControl.ReadsDeliver: when a read leaves the endpoint otherwise, the next one is not promised anything; `NextRightExactlyWhenReady` shows that it can then be deceived or stuck.
- Floating point, sockets, files, threads of the user interface, OpenGL front ends, pin wiring, and the AVR core itself.
- `NMEAGPS::handle`, `poll`, the individual field parsers, satellites, and the location arithmetic of NeoGPS: easy or floating point.
- `control_write`, `uart_pty`, `uart_udp`, and the other simulated parts: no harder than the protocols above.
