# NMEA 0183 sentence engine of a SiRF GPS driver, in Dafny

This project models the NMEA engine of the Android GPS driver in `gps/gps.c` and proves properties of the model. The engine has five parts:

- **Line framer** (`nmea_reader_addc`). It collects the bytes the receiver sends into an 84-byte buffer. A line that does not fit makes it discard bytes up to the next newline.
- **Tokenizer** (`nmea_tokenizer_init`, `nmea_tokenizer_get`). It strips the `$`, the line end and the `*hh` checksum. It cuts the rest at commas and keeps at most 16 non-empty fields.
- **Field decoders** (`str2int`, `str2float`).
- **Sentence parser** (`nmea_reader_parse` and the `nmea_reader_update_*` helpers). It updates the reader for GGA, GLL, GSA, GSV, RMC, VTG and ZDA sentences:
  - the cached UTC date;
  - the fix (position, altitude, speed, bearing, accuracy, time stamp, validity flags);
  - the satellite list, its used-in-fix mask and its "changed" flag.
- **Command builders** (`gps_dev_calc_nmea_csum`, `gps_dev_set_nmea_message_rate`, `gps_dev_set_baud_rate`, `gps_dev_set_message_rate`). They write SiRF `$PSRF103` and `$PSRF100` sentences with their XOR checksum.

## Layout

| File | Module | Contents |
|---|---|---|
| `gps.dfy` | `Gps` | The records: reader state, fix, satellite info. `Env` holds what the C code takes from the C library: `strtod`, today's UTC date and `mktime`. |
| `decimal.dfy` | `Decimal` | `str2int` as a loop proved against `IntValue`, and the length guard of `str2float`. |
| `tokenizer.dfy` | `Tokenizer` | The pointer-moving trim and the field loop, proved against the function `Tokens`. Lemmas show that a comma-joined sentence tokenizes back to its non-empty fields. |
| `framer.dfy` | `Framer` | `nmea_reader_addc` as a step function on (line so far, overflow), and `Feed` over runs of bytes. |
| `sentences.dfy` | `Sentences` | Every update helper and sentence handler as a function on `ReaderState`. |
| `reader.dfy` | `Reader` | The class `NmeaReader`, with the C fields as fields and the buffer and satellite list as arrays. Each method is proved to leave `State()` equal to the matching function of `Sentences` applied to the old state. |
| `facts.dfy` | `SentenceFacts` | Properties of the parser: guards, flags, frames, GSV accumulation, blank fields. |
| `commands.dfy` | `Commands` | The checksum loop, the command builders, and the round trip of their output through the tokenizer. |
| `findings.dfy` | `Findings` | The two places where the code, as written, goes outside what it stores (see Findings). |

## Model

| member | source | states |
|---|---|---|
| Decimal.Str2Int | gps/gps.c:220-244 | The loop returns the decimal value of a span of digits and -1 as soon as one character is not a digit. The empty span gives 0. |
| Decimal.IntValueSentinel | gps/gps.c:220-244 | str2int answers -1 exactly when some character is not a digit, never less than -1, and 0 for the empty span. |
| Decimal.Str2Float | gps/gps.c:246-260 | A span of 16 characters or more does not fit the scratch buffer and reads as 0.0. A shorter span is what the C library's conversion makes of it. |
| SentenceFacts.OverlongFieldReadsZero | gps/gps.c:246-260 | An altitude, bearing, speed or accuracy field of 16 characters or more is stored as 0.0 and still marked valid. |
| Tokenizer.TrimLine | gps/gps.c:166-180 | The pointers end at `Start`, past one optional `$`. `End` is before a trailing `\n`, then a `\r` before it, then three characters when the third from the end is `*`. |
| Tokenizer.Tokenize | gps/gps.c:159-204 | The field loop records exactly `Tokens(line)`: the first 16 non-empty comma-separated pieces of the trimmed body, in order. It records at most 16, each non-empty and comma-free. |
| Tokenizer.TokenizeStep | gps/gps.c:182-199 | One pass of the loop records the piece before the next comma, if it is non-empty and fewer than 16 are recorded, then moves past the comma. The capped result is unchanged. |
| Tokenizer.CommaFromIsFirst | gps/gps.c:184-186 | The memchr position is the first comma of the span, or its end when there is none. |
| Tokenizer.FieldsWellFormed | gps/gps.c:182-199 | Every field cut from a span is non-empty and comma-free, and made of the span's characters. |
| Tokenizer.FieldsSplitAtComma | gps/gps.c:182-199 | A comma splits the fields: the fields of the whole span are those before the comma followed by those after it. |
| Tokenizer.TokensWellFormed | gps/gps.c:159-204 | A line has at most 16 tokens, each non-empty, comma-free and made of characters of the line. |
| Tokenizer.Get | gps/gps.c:206-218 | An index inside the recorded range gives that token. Any other index, negative or too large, gives the empty token. |
| Tokenizer.GetEmptyIffOutOfRange | gps/gps.c:206-218 | `nmea_tokenizer_get` gives the empty token exactly when the index is below 0 or at least the count. |
| Tokenizer.FirstCharPresentIffInRange | gps/gps.c:206-218 | On a line without NUL bytes, "token i's first character is not NUL" holds exactly when i is a recorded index. This is the test the parser uses for optional fields. |
| Tokenizer.TokensOfSentence | gps/gps.c:159-204 | A framed sentence `$f0,f1,...*hh\r\n` with comma-free fields tokenizes to its first 16 non-empty fields. A blank field is dropped. |
| Tokenizer.BoundsOfSentence | gps/gps.c:166-180 | Trimming a framed sentence leaves exactly its comma-joined body. |
| Gps.InitialState | gps/gps.c:297-317 | The initial reader has no known date (year -1), no fix flags, no satellites, and GPS_MAX_SVS slots. |
| Reader.NmeaReader.constructor | gps/gps.c:297-317 | A new reader has an empty buffer with no overflow, and its parse state is `InitialState()`. |
| Sentences.UpdateTime | gps/gps.c:330-366 | Changes only the cached date and the time stamp. A token shorter than 6 characters changes nothing. |
| SentenceFacts.UpdateTimeUsesDate | gps/gps.c:330-366 | With a usable token, the date is the cached one, or today's when none is cached. The time stamp is, in milliseconds, mktime of that date with the token's hour, minute and whole seconds, plus the UTC offset. |
| Reader.NmeaReader.UpdateTime | gps/gps.c:330-366 | Returns success exactly when the token has at least 6 characters. Leaves the reader in the `Sentences.UpdateTime` state. |
| Sentences.UpdateCDate | gps/gps.c:368-381 | Writes only the three date fields. A day or month token under 2 characters, or a year token under 4, changes nothing. |
| Reader.NmeaReader.UpdateCDate | gps/gps.c:368-381 | Succeeds exactly when the day and month tokens have at least 2 characters and the year token at least 4. The new state is `Sentences.UpdateCDate`. |
| Sentences.UpdateDate | gps/gps.c:383-408 | Changes only the cached date and the time stamp. A date token not of exactly 6 characters, or one whose day or month does not decode, changes nothing. Otherwise the stored date is day, month and 2000 plus the two-digit year, whatever the time token holds. |
| Reader.NmeaReader.UpdateDate | gps/gps.c:383-408 | Succeeds exactly when the date token has 6 characters, day and month decode, and the time token has at least 6 characters. The new state is `Sentences.UpdateDate`. |
| SentenceFacts.UpdateDateYearUnchecked | gps/gps.c:383-408 | A year that does not decode is not rejected: the date is stored with year 1999. |
| SentenceFacts.RmcDateWithoutTime | gps/gps.c:383-408 | The date is stored before the time guard: an RMC with status 'A', a good date and a short time field changes the date but not the time stamp. |
| SentenceFacts.ConvertFromHhmmSplits | gps/gps.c:410-419 | For a non-negative value, `convert_from_hhmm` gives whole degrees (value / 100 rounded down) plus minutes / 60, with minutes in [0, 100). |
| Sentences.UpdateLatLong | gps/gps.c:421-454 | Changes only the flags, latitude and longitude. It adds HasLatLong exactly when both tokens have at least 6 characters. |
| SentenceFacts.LatLongAllOrNothing | gps/gps.c:421-454 | All or nothing: with a short token nothing changes. Otherwise both coordinates are written, negated exactly for 'S' and 'W'. |
| Reader.NmeaReader.UpdateLatLong | gps/gps.c:421-454 | Succeeds exactly when both tokens have at least 6 characters. The new state is `Sentences.UpdateLatLong`. |
| Sentences.UpdateAltitude | gps/gps.c:456-471 | Changes only the flags and altitude. It adds HasAltitude exactly when the token is non-empty. An empty token changes nothing, the stored altitude included. |
| Reader.NmeaReader.UpdateAltitude | gps/gps.c:456-471 | Succeeds exactly for a non-empty token. The new state is `Sentences.UpdateAltitude`. |
| Sentences.UpdateBearing | gps/gps.c:473-487 | Changes only the flags and bearing. It adds HasBearing exactly when the token is non-empty. An empty token changes nothing, the stored bearing included. |
| Reader.NmeaReader.UpdateBearing | gps/gps.c:473-487 | Succeeds exactly for a non-empty token. The new state is `Sentences.UpdateBearing`. |
| Sentences.UpdateSpeed | gps/gps.c:489-503 | Changes only the flags and speed. It adds HasSpeed exactly when the token is non-empty. An empty token changes nothing, the stored speed included. |
| Reader.NmeaReader.UpdateSpeed | gps/gps.c:489-503 | Succeeds exactly for a non-empty token. The new state is `Sentences.UpdateSpeed`. |
| Sentences.UpdateAccuracy | gps/gps.c:505-524 | Changes only the flags and accuracy. It can add only HasAccuracy. An empty token changes nothing, the stored accuracy included. |
| SentenceFacts.AccuracyPlaceholder | gps/gps.c:505-524 | The accuracy is always stored. It is marked valid exactly when it is not the 99.99 placeholder. |
| Reader.NmeaReader.UpdateAccuracy | gps/gps.c:505-524 | Succeeds exactly for a non-empty token. The new state is `Sentences.UpdateAccuracy`. |
| Sentences.Gga | gps/gps.c:561-576 | GGA adds HasLatLong exactly when tokens 2 and 4 have at least 6 characters, and HasAltitude exactly when token 9 is present. It keeps every other flag. |
| Reader.NmeaReader.ParseGga | gps/gps.c:561-576 | GGA updates the time, then the position, then the altitude, as `Sentences.Gga` does. |
| SentenceFacts.GgaFrame | gps/gps.c:561-576 | GGA changes only the date cache and the fix, and adds only HasLatLong and HasAltitude. |
| Sentences.Gll | gps/gps.c:577-593 | GLL adds HasLatLong exactly when its status is 'A', a date is known, and tokens 1 and 3 have at least 6 characters. It keeps every other flag. |
| Reader.NmeaReader.ParseGll | gps/gps.c:577-593 | GLL updates as `Sentences.Gll` does. |
| SentenceFacts.GllFrame | gps/gps.c:577-593 | GLL changes only the date cache and the fix, and adds only HasLatLong. |
| SentenceFacts.GllWaitsForDate | gps/gps.c:577-593 | While no date is known, a GLL line changes nothing. |
| Sentences.UsedInFixMask | gps/gps.c:606-617 | The mask has bits only in 0..31. This is the corrected definition (see Findings). |
| SentenceFacts.GsaMaskMembers | gps/gps.c:606-617 | For PRN 1..32, bit 32 - prn is in the mask exactly when some slot from 3 to 14 holds that PRN. |
| Reader.NmeaReader.RebuildMask | gps/gps.c:605-617 | The for loop rebuilds the mask from zero as `UsedInFixMask`. The changed flag is set when some slot holds a positive PRN. Nothing else changes. |
| Sentences.Gsa | gps/gps.c:594-618 | With a fix mode present and not '1', GSA replaces the mask by the one its PRN slots give, forgetting the old one. HasAccuracy is set afterwards exactly when it was set before, or the mode is accepted and token 15 is present and not the 99.99 placeholder. No other flag changes. |
| Reader.NmeaReader.ParseGsa | gps/gps.c:594-618 | GSA updates as `Sentences.Gsa` does. |
| SentenceFacts.GsaFrame | gps/gps.c:594-618 | GSA changes only the fix, the mask and the changed flag, and adds only HasAccuracy. |
| Sentences.Store | gps/gps.c:646-651 | Storing a satellite keeps the list well formed and adds one to the count. |
| Sentences.GsvAppend | gps/gps.c:637-655 | The append loop, bounded by GPS_MAX_SVS, keeps the list well formed and appends at most 4 - i records. This is the corrected definition (see Findings). |
| Sentences.GsvAppendCount | gps/gps.c:637-655 | The loop takes min(4 - i, total - count, GPS_MAX_SVS - count) records, or none when the count is already there. |
| Sentences.GsvAppendFrame | gps/gps.c:637-655 | The loop changes only the list and its count, and never lowers the count. |
| Sentences.GsvAppendKeeps | gps/gps.c:637-655 | Slots below the old count and above the new count keep their satellites. |
| Sentences.GsvAppendRecords | gps/gps.c:637-655 | Record i + k of the sentence lands in slot count + k. |
| Reader.NmeaReader.AppendSatellites | gps/gps.c:637-655 | The while loop over `svList` ends in the state `GsvAppend` gives. |
| Sentences.Gsv | gps/gps.c:619-661 | GSV keeps the satellite list well formed. Sentence 1 of a group restarts the list, so it holds at most 4 satellites afterwards. The last sentence of a group sets the changed flag. |
| Reader.NmeaReader.ParseGsv | gps/gps.c:619-661 | GSV updates as `Sentences.Gsv` does. |
| SentenceFacts.GsvFrame | gps/gps.c:619-661 | GSV changes only the list, its count and the changed flag. |
| SentenceFacts.GsvGroupAccumulates | gps/gps.c:619-661 | A GSV group read from sentence 1 on rebuilds the list whatever it held before. After k sentences it holds min(4k, total, GPS_MAX_SVS) satellites, with slot j from record j % 4 of sentence j / 4. The changed flag is set exactly once the last announced sentence has arrived. The fix, date and mask are untouched. |
| SentenceFacts.GsvStep | gps/gps.c:619-661 | Sentence n + 1 of a group extends the count from min(4n, total, GPS_MAX_SVS) to min(4n + 4, total, GPS_MAX_SVS). |
| SentenceFacts.AppendAfter | gps/gps.c:637-655 | Within a group, the append loop fills slots 4n onward with the sentence's records and keeps the earlier slots. |
| Sentences.Rmc | gps/gps.c:662-686 | Without status 'A', RMC changes no flag. With it, RMC adds HasLatLong when tokens 3 and 5 have at least 6 characters, HasBearing when token 8 is present, and HasSpeed when token 7 is present, each exactly then. |
| Reader.NmeaReader.ParseRmc | gps/gps.c:662-686 | RMC updates as `Sentences.Rmc` does. |
| SentenceFacts.RmcFrame | gps/gps.c:662-686 | RMC changes only the date cache and the fix, and adds only HasLatLong, HasBearing and HasSpeed. |
| Sentences.Vtg | gps/gps.c:687-697 | Unless its mode indicator is present and not 'N', VTG changes no flag. Otherwise it adds HasBearing exactly when token 1 is present, and HasSpeed exactly when token 5 is present. |
| Reader.NmeaReader.ParseVtg | gps/gps.c:687-697 | VTG updates as `Sentences.Vtg` does. |
| SentenceFacts.VtgFrame | gps/gps.c:687-697 | VTG changes only the fix, and adds only HasBearing and HasSpeed. |
| SentenceFacts.VtgBlankFieldShifts | gps/gps.c:687-697 | A VTG line with its field 3 left blank shifts the mode indicator out of index 9, so the line changes nothing. |
| SentenceFacts.VtgComplete | gps/gps.c:687-697 | A VTG line with every field present sets bearing and speed from fields 1 and 5, and their flags. |
| Sentences.Zda | gps/gps.c:698-710 | ZDA never changes a fix flag. |
| Reader.NmeaReader.ParseZda | gps/gps.c:698-710 | ZDA updates as `Sentences.Zda` does. |
| SentenceFacts.ZdaFrame | gps/gps.c:698-710 | ZDA changes only the date cache and the fix time stamp. It adds no flag. |
| SentenceFacts.ZdaDateAndTimeTogether | gps/gps.c:698-710 | Without a time or a year field, ZDA changes nothing. Suppose both are present, day and month have at least 2 characters, the year at least 4, and the year decodes. Then the decoded date is stored, and the rest is update_time applied with that date. update_time stamps nothing when the time field is under 6 characters. |
| SentenceFacts.GuardedSentencesSkip | gps/gps.c:577-710 | These leave the reader unchanged: RMC without 'A'; GLL without 'A' or before a date is known; VTG with its mode absent or 'N'; GSA with its fix mode absent or '1'; GSV announcing no satellites. |
| Sentences.TypeOf | gps/gps.c:559-714 | A handled type is returned exactly when characters 2 to 4 of the first token are its three letters. Unknown is returned exactly when they name no handled type. |
| Sentences.Dispatch | gps/gps.c:560-714 | The dispatch on the sentence type keeps the satellite list well formed. An unknown type is ignored. |
| Sentences.ParseLine | gps/gps.c:526-744 | Parsing a line keeps the satellite list well formed. |
| SentenceFacts.ParseLineDispatches | gps/gps.c:536-560 | A line is dispatched on the type its first token names, with its tokens. |
| SentenceFacts.ParseLineIgnores | gps/gps.c:536-714 | A line under 9 bytes, a first token under 5 characters, or an unknown type changes nothing. |
| SentenceFacts.ParseLineFlags | gps/gps.c:526-744 | Parsing never clears a fix flag, and adds only the flags of the sentence's type. |
| SentenceFacts.DispatchFlags | gps/gps.c:560-714 | The same for each sentence type. |
| SentenceFacts.ParseLineFrame | gps/gps.c:526-744 | Only GSV touches the satellite list. Only GSA and GSV touch the mask and changed flag. GSA, GSV and VTG never touch the date. GSV never touches the fix. |
| SentenceFacts.DispatchFrame | gps/gps.c:560-714 | The same for each sentence type. |
| SentenceFacts.ParseFramedSentence | gps/gps.c:536-560 | A framed sentence is dispatched on its first field with its capped non-empty fields. |
| SentenceFacts.DropsBlankField | gps/gps.c:188-194 | A blank field is dropped and every later field moves one index down. |
| Reader.NmeaReader.Parse | gps/gps.c:526-744 | Parsing the buffered line leaves the reader in the `ParseLine` state. |
| Framer.Feed | gps/gps.c:746-767 | A run of bytes completes at most as many lines as it holds newlines. |
| Framer.Step | gps/gps.c:746-767 | One byte keeps the framer valid: at most 83 bytes buffered, no newline among them, an empty buffer while discarding. A completed line is the buffer plus the newline, and the framer is then idle. |
| Framer.FeedLinesFramed | gps/gps.c:746-767 | Every completed line has 1 to 83 bytes and ends in its only newline. |
| Framer.FeedPartial | gps/gps.c:760-761 | Bytes without a newline that fit are appended to the buffer. |
| Framer.FeedDiscarding | gps/gps.c:749-752 | While discarding, bytes without a newline are dropped. |
| Framer.Resynchronises | gps/gps.c:749-752 | While discarding, a newline ends the discarding without being stored. |
| Framer.DeliversLine | gps/gps.c:746-767 | A line of under 83 bytes plus its newline is delivered whole from an idle framer. |
| Framer.DropsLongLine | gps/gps.c:746-767 | A line of more than 83 bytes is dropped, and the framer is idle again after its newline. |
| Framer.FullLineLosesNext | gps/gps.c:754-758 | A line of exactly 83 bytes is dropped. Its newline starts discarding, so the next line is lost as well. |
| Reader.NmeaReader.AddChar | gps/gps.c:746-767 | One byte moves the buffer and overflow flag as `Framer.Step` does. The line is parsed exactly when a newline completes it. |
| Commands.FormatInt | gps/gps.c:1418 | `%.Nd` prints at least N characters: a '-' exactly for a negative value, and digits everywhere else. |
| Commands.Hex2 | gps/gps.c:1420 | `%02x` prints exactly two lower-case hex digits. |
| Commands.Framed | gps/gps.c:1418-1420 | A framed command is '$', the comma-joined fields, '*', two checksum characters and "\r\n". It is 6 characters longer than its fields joined. |
| Commands.CalcNmeaCsum | gps/gps.c:1401-1411 | The loop returns the XOR of the bytes from index 1 up to the first `*`. |
| Commands.ChecksumAppend | gps/gps.c:1401-1411 | The checksum of two runs is the XOR of their checksums. |
| Commands.FormatIntDecodes | gps/gps.c:1418 | A `%.2d` or `%d` number reads back through str2int as itself when it is not negative, and as -1 otherwise. It is non-empty and holds no `,` or `*`. |
| Commands.Hex2Decodes | gps/gps.c:1420 | The two `%02x` hex digits read back as the checksum byte. |
| Commands.RateHead | gps/gps.c:1418 | The `$PSRF103` text is `$`, the five fields joined with commas, then `*`. |
| Commands.BaudHead | gps/gps.c:1434 | The `$PSRF100` text is `$`, the six fields joined with commas, then `*`. |
| Commands.AppendChecksum | gps/gps.c:1419-1420 | Appending the hex checksum and `\r\n` to `$text*` gives the framed command. |
| Commands.SetNmeaMessageRate | gps/gps.c:1413-1427 | Builds the framed `$PSRF103` command for a message id and rate. |
| Commands.SetBaudRate | gps/gps.c:1429-1443 | Builds the framed `$PSRF100` command for a baud rate. |
| Commands.SetMessageRate | gps/gps.c:1445-1463 | Sends one `$PSRF103` command for each of GGA, GLL, GSA, GSV, RMC, VTG and ZDA (ids 0-5 and 8), in that order. |
| Commands.FramedTokens | gps/gps.c:1413-1443 | A framed command with at most 16 well-formed fields tokenizes back to exactly its fields. |
| Commands.MessageRateRoundTrip | gps/gps.c:1413-1427 | The `$PSRF103` command tokenizes to its five fields. str2int gives back the id and rate when they are not negative. |
| Commands.BaudRateRoundTrip | gps/gps.c:1429-1443 | The `$PSRF100` command tokenizes to its six fields, and str2int gives back the baud rate. |
| Commands.FramedChecksumValid | gps/gps.c:1401-1427 | Every framed command carries a valid checksum: the two hex digits after its only `*` are the XOR of everything between `$` and `*`. |
| Commands.FormatIntLength | gps/gps.c:1418 | A C int printed with `%.2d` or `%d` takes at most 11 characters. |
| Commands.CommandsFitBuffer | gps/gps.c:1413-1443 | For C int arguments, both commands and their NUL fit the 50-byte buffer. |
| Findings.GsvSlotsAsWritten | gps/gps.c:640-655 | The slots the GSV loop writes as written: consecutive from the count, all below the declared total, none checked against GPS_MAX_SVS. |
| Findings.GsvOverrunAsWritten | gps/gps.c:640-655 | A group announcing 36 satellites makes its ninth sentence write slots 32 to 35, past the end of the list. |
| Findings.GsvSlotsInsideWhenTotalFits | gps/gps.c:640-655 | With a declared total of at most GPS_MAX_SVS, every slot written lies inside the list. |
| Findings.GsvAppendAgreesWhenTotalFits | gps/gps.c:640-655 | In that case the corrected loop takes exactly as many records as the loop as written. |
| Findings.UsedInFixMaskAsWritten | gps/gps.c:606-617 | The shift counts of the GSA loop as written: 32 - prn for every positive PRN. All are below 32, and some may be negative. |
| Findings.GsaShiftAsWritten | gps/gps.c:610-614 | PRN 33 asks for a shift by -1 as written. The corrected mask leaves it out. |
| Findings.UsedInFixMaskIsValidShifts | gps/gps.c:606-617 | The corrected mask is the shifts as written that are valid bit positions. The two agree when no PRN exceeds 32. |

## Left out

- Threads, the epoll loop, the control socket, callbacks, the timer thread and the HAL interface tables are not part of this model. They are concurrency and platform glue around the engine.
- Serial I/O is not modelled. The builders return the text `gps_dev_send` would write, and the reader gets its bytes one at a time through `AddChar`.
- The C library is a parameter (`Env`):
  - `strtod`;
  - `time` and `gmtime_r`, which give "today";
  - `mktime`;
  - the one-time UTC offset measurement (`nmea_reader_update_utc_diff`), whose result is a constructor argument.
- Doubles are modelled as exact reals. Rounding in `convert_from_hhmm`, and the exact 99.99 comparison, are therefore not modelled.
- The debug output (`D`, `DFR`, the `GPS_DEBUG` fix dump) is not modelled.
- `nmea_reader_set_callback` is not modelled.
- `size` fields are not modelled.
- Decimal.Str2Int: the `int` accumulator's overflow on long digit runs is not modelled. Values are unbounded integers.
- Sentences.UpdateTime: the widths of `time_t` and `long long` in the time stamp are not modelled. The stamp is an unbounded integer.
- Commands.CalcNmeaCsum: requires a `*` at index 1 or later. The C loop would read past the end without one, and every caller's message has one.
- Commands.FormatInt: only precisions 1 and 2 are used by the driver. Precision 0, which prints nothing for 0, is not modelled.
- Commands.CharByte: a character is XORed as its code modulo 256, standing for the C `char` byte.
- Reader.NmeaReader.AddChar: takes a `char`. The `(char)c` cast of the C `int` argument is not modelled.
- Sentences.GsvAppend and Sentences.UsedInFixMask are the corrected definitions. The behaviour as written is in `Findings` (see below).
- `Findings.GsvSlotsAsWritten` stops at the modelling of slot indices. What the C code would overwrite past `sv_list` is undefined and not modelled.

Where the code departs from its documented behaviour, the model follows the code:

- str2int of an empty span is 0, not -1. The loop never runs.
- The checksum trim cuts the last three characters whenever the third from the end is `*`. It does not check that the other two are hex digits.
- A line of exactly 83 bytes plus its newline does not fit the buffer: the newline starts discarding, and the line after it is lost too (`Framer.FullLineLosesNext`).
- The date test `(day|mon|year) < 0` is modelled as "one of them is negative", which is what a bitwise or of two's-complement ints gives. The year is never negative, so a bad year is stored as 1999.
- Blank fields are dropped, so later fields move to lower indices (`SentenceFacts.VtgBlankFieldShifts`).

## Findings

| source | as written | input that shows it | evidently intended | confidence | as-written member | corrected member |
|---|---|---|---|---|---|---|
| gps/gps.c:640-655 | The GSV append loop stops at 4 records or the declared total, never at GPS_MAX_SVS. | A GSV group announcing 36 satellites: its ninth sentence arrives with 32 stored and writes slots 32 to 35 of the 32-slot list. | Stop appending once GPS_MAX_SVS satellites are stored. | not executed | Findings.GsvOverrunAsWritten | Sentences.GsvAppend |
| gps/gps.c:610-614 | Every positive PRN in slots 3 to 14 sets bit `32 - prn` with `1ul << (32 - prn)`. | A GSA sentence listing PRN 33 (an SBAS satellite): the shift count is -1, which C leaves undefined. | Only PRNs 1 to 32 contribute a bit. | not executed | Findings.GsaShiftAsWritten | Sentences.UsedInFixMask |
