# NMEA 0183 decoder — a verified Dafny model

This project models the decoding core of a small C library for GNSS
receivers. The library reads NMEA 0183 sentences (`$GPGGA,...*hh`), decodes
seven sentence types into C records and gathers one epoch of sentences into
a record set. The model covers three parts.

* **The tokenizer `strtok_my`** (module `Tokenizer`). It is an imperative
  method over a `char` array. It writes NUL over the first delimiter and
  returns the text before it. The pure function `Segments` describes what
  repeated calls return: the delimiter-ended segments, in order, empty ones
  included. The text after the last delimiter is never returned.
* **The seven sentence parsers** `parse_gprmc`, `parse_gpgga`, `parse_gpvtg`,
  `parse_gpgll`, `parse_gpzda`, `parse_gpgsa` and `parse_gpgsv_single`
  (modules `Sentence`, `Nmea0183`, `Satellite`). Each parser is a method.
  It runs the structural checks (type tag at offset 3, a `*`, a payload that
  fits the 256-character work buffer), copies the payload into a work array
  and runs the `strtok_my` field loop over it. Each field goes into a
  fixed-size scratch buffer, cut to the buffer's size minus one. A pure
  function (`GgaFromFields`, ...) then decodes the scratch buffers. The
  method is proved equal to a specification function (`GgaParsed`, ...),
  and lemmas say what each field of the record means. On a structural
  failure the record comes back unchanged. GSA and GSV compact their PRN
  lists and satellite groups in `for` loops, which are proved against
  recursive definitions.
* **The epoch buffer and aggregator of GPSSolve.c** (module `GpsSolve`). The
  static state is the class `GpsSession`: a 1024-character array, its fill
  pointer, the preview record set and the published one. `AddSentence`
  appends a sentence and a `'\n'`. `SolveOnce` cuts the buffer into lines
  with `strtok_my`, dispatches each line, publishes the preview and zeroes
  the buffer. The dispatch of one line is the pure function `Step`, and
  `DispatchAll` runs it over a list of lines. Lemmas cover:
  * the GSA slots;
  * the GSV talker grouping;
  * the records that an epoch leaves alone.

C structs are copied by value, so the records are datatypes (module
`Records`). A value and its `has_*` flag travel together as a `Reading`.
`atoi`, `atof` and the `%2d`/`%lf` conversions of `sscanf` are spelt out on
digit strings in module `NumberText`. They cover a sign, decimal digits and a
decimal fraction, with integers and reals unbounded.

Dropping the last field has visible effects, and each is proved. The field
just before `*` is never decoded:
* the GGA differential station id;
* the GSA VDOP;
* the SNR of the fourth GSV satellite.

The RMC year is 2000 + yy, with a fallback to 1900 + yy when that lies
outside [2000, 2100] (NMEA0183Solve.c:222-224). For the two-digit years 00
to 99 the fallback cannot be reached, so `"230394"` gives the year 2094; the
fallback fires only for a negative `%2d` value such as `"-5"`.

## Model

| member | source | states |
|---|---|---|
| Tokenizer.StrtokMy | SatelliteSolve.c:6-17 | With a delimiter in the rest of the C string, returns the text before the first one, writes NUL over it, moves the cursor just past it and changes no other byte. With none, returns no token and changes neither the buffer nor the cursor. |
| Tokenizer.SegmentsOfJoinEnded | SatelliteSolve.c:6-17 | Repeated calls on delimiter-ended pieces followed by a delimiter-free tail return exactly those pieces, in order, empty ones included. The tail is what is left. |
| Tokenizer.SegmentsRebuild | SatelliteSolve.c:6-17 | The returned segments, each followed by the delimiter, then the unreturned tail, make up the whole text again. Nothing is lost or reordered. |
| Tokenizer.SegmentsExcludeDelimiter | SatelliteSolve.c:8-13 | No returned segment holds the delimiter. |
| Sentence.FrameCodeCases | NMEA0183Solve.c:20-36 | -2 exactly for a wrong type tag, -3 exactly when there is no `*`, and -4 exactly when the text between `$` and `*` does not fit 256 characters. On success the payload is the text from index 1 up to the `*`. |
| Sentence.FramedPayload | NMEA0183Solve.c:20-39 | Round trip: `$`, a payload below 256 characters that carries the tag, `*` and any checksum pass every check, and exactly that payload is copied out. |
| Sentence.ReadFields | NMEA0183Solve.c:20-136 | The return code is the structural check's. On success the scratch buffers are the clipped delimiter-ended fields of the payload. |
| Sentence.SplitFields | NMEA0183Solve.c:77-136 | The `strtok_my` field loop leaves field k+2 in scratch buffer k, clipped to the buffer's size minus one. Buffers whose field never came stay empty. |
| Sentence.SlotHoldsField | NMEA0183Solve.c:413-491 | A scratch buffer holds a prefix of its own field, shorter than the buffer. It holds the whole field when the field fits, and nothing when the field is missing. |
| Sentence.SlotsIgnoreLaterFields | SatelliteSolve.c:84-113 | Fields past the last scratch buffer never change any scratch buffer. |
| Sentence.FinalFieldDropped | SatelliteSolve.c:6-17 | The field right before `*` is never returned, so its scratch buffer stays empty. |
| NumberText.ScanDateRange | NMEA0183Solve.c:216-218 | Each `%2d` conversion of a date yields a value in [-9, 99]. |
| Nmea0183.DmToDegreeRange | NMEA0183Solve.c:8-12 | The minutes part adds a fraction in [0, 100/60) to the truncated degrees for dm ≥ 0. For dm ≤ 0 it adds one in (-100/60, 0]. |
| Nmea0183.DmToDegreeOfParts | NMEA0183Solve.c:8-12 | d degrees and m < 100 minutes written as ddmm.mmmm come back as d + m/60 degrees. |
| Nmea0183.ClockDecoding | NMEA0183Solve.c:139-152 | `has_time` is set iff the text has at least 6 characters, the scan succeeds and, when range-checked, the time is in range. Hour, minute and second are then the scanned values. A checked time gives utc_time in [0, 24). Otherwise the fields keep their initial values. |
| Nmea0183.CoordinateDecoding | NMEA0183Solve.c:163-196 | Present iff the number is > 0. The value is dm_to_degree of it, negated exactly for the negative letter. Degrees·100 + minutes gives the number back. `is_north`/`is_east` is 1 exactly for the positive letter. |
| Nmea0183.StrictAndLenientHemisphereAgree | NMEA0183Solve.c:989-1022 | The GLL hemisphere handling, which takes any letter, and the RMC/GGA handling, which takes only N/S or E/W, give the same coordinate. |
| Nmea0183.ParseRmc | NMEA0183Solve.c:15-270 | The return code is the structural check's, and a failure leaves the record unchanged. Otherwise the record is the decode of the scratch buffers. |
| Nmea0183.ModeCodeTable | NMEA0183Solve.c:249-257 | The mode code of a letter is its position in "ADENMS" (A 0, D 1, E 2, N 3, M 4, S 5), and -1 for any other character. |
| Nmea0183.RmcStatusDecoding | NMEA0183Solve.c:155-261 | The status is present iff the letter is A or V, and is 1 iff it is A. The mode is present iff the upper-cased letter is one of A, D, E, N, M, S; it is then that letter's position in "ADENMS", and -1 otherwise. |
| Nmea0183.RmcMotionDecoding | NMEA0183Solve.c:199-245 | Speed in [0, 999.9], course in [0, 360) and magnetic variation in [0, 180] are each present iff non-empty and in range. The variation is negated for W. |
| Nmea0183.RmcDateDecoding | NMEA0183Solve.c:216-229 | The date is present iff it has at least 6 characters, three conversions, day in [1, 31] and month in [1, 12]. The year is 2000+yy for yy ≥ 0. The 1900 fallback applies only to a negative yy. |
| Nmea0183.RmcDateExample | NMEA0183Solve.c:216-229 | "230394" decodes as 23 March 2094. |
| Nmea0183.ParseGga | NMEA0183Solve.c:368-619 | The return code is the structural check's, and a failure leaves the record unchanged. Otherwise the record is the decode of the scratch buffers. |
| Nmea0183.GgaDecoding | NMEA0183Solve.c:546-616 | Fix in [0, 8], satellites in [0, 99], hdop in [0, 99.9], altitude and geoid in [-9999.9, 9999.9], diff age ≥ 0 and station in [0, 4095]. Each is present iff non-empty and in range, then holds atoi or atof of its text, and otherwise keeps its sentinel (-1, -1.0 or NaN). |
| Nmea0183.GgaIgnoresUnits | NMEA0183Solve.c:572-598 | The altitude and geoid unit letters never change the record. |
| Nmea0183.GgaFixQualityTen | NMEA0183Solve.c:418-458 | The fix-quality scratch buffer holds one character, so a field "10" decodes as fix quality 1. |
| Nmea0183.GgaStationNeverDecoded | NMEA0183Solve.c:609-616 | The station id, field 15, sits right before `*`. It is never decoded and stays -1 and absent. |
| Nmea0183.ParseVtg | NMEA0183Solve.c:711-863 | The return code is the structural check's, and a failure leaves the record unchanged. Otherwise the record is the decode of the scratch buffers. |
| Nmea0183.VtgDecoding | NMEA0183Solve.c:806-860 | Each course and speed is present iff its text is non-empty, with no range check, and then holds atof of it. The mode flag is set for any character; the mode is the letter's position in "ADEN", and -1 iff the letter is not one of them. |
| Nmea0183.VtgIgnoresIndicators | NMEA0183Solve.c:811-847 | The T, M, N and K indicator fields never change the record. |
| Nmea0183.ParseGll | NMEA0183Solve.c:903-1058 | The return code is the structural check's, and a failure leaves the record unchanged. Otherwise the record is the decode of the scratch buffers. |
| Nmea0183.GllDecoding | NMEA0183Solve.c:1025-1056 | The time is present iff it has at least 6 characters and scans, with no range check. Validity is present for any letter and is 1 iff the letter is A. The mode flag is set for any character; the mode is the letter's position in "ADENMS", and -1 for any other character. |
| Nmea0183.ParseZda | NMEA0183Solve.c:1136-1265 | The return code is the structural check's, and a failure leaves the record unchanged. Otherwise the record is the decode of the scratch buffers. |
| Nmea0183.ZdaDecoding | NMEA0183Solve.c:1234-1262 | Day and month are atoi of their texts, -1 when empty. The year is atoi of its text, plus 2000 when below 100, and -1 when empty. The date is present iff day, month and year are all positive. The time-zone hours and minutes are atoi of their texts and default to 0; the time zone is present iff either text is non-empty. |
| Satellite.PositivePrnsSpec | SatelliteSolve.c:134-142 | The compacted PRNs are no more than the texts, all positive, and are exactly the positive atoi values of the non-empty texts. |
| Satellite.CompactPrns | SatelliteSolve.c:59-61 | The PRN loop leaves the count equal to the number of positive PRNs, the PRNs in field order at the front, and -1 after them. |
| Satellite.ParseGsa | SatelliteSolve.c:20-172 | The return code is the structural check's, and a failure leaves the record unchanged. Otherwise the record is the decode of the scratch buffers with system id `sentence[2]`. |
| Satellite.GsaPrnList | SatelliteSolve.c:134-142 | The count is ≤ 12. The first count entries are the positive PRNs of fields 4-15 in field order (`PositivePrns`), so exactly the positive values of those fields, and the later entries are -1. |
| Satellite.GsaDecoding | SatelliteSolve.c:56-169 | The PRN array is the padded `PositivePrns` list. Mode 1 is 1 for M and 2 for A. Mode 2 in [1, 3] and each DOP in [0, 99.9] are present iff in range and then hold atoi or atof of the text. Every value absent keeps -1. The system id is always present. |
| Satellite.GsaVdopNeverDecoded | SatelliteSolve.c:161-167 | In an 18-field GSA the VDOP sits right before `*` and is never present. |
| Satellite.VisibleSatellitesSpec | SatelliteSolve.c:363-398 | The PRNs of the compacted satellites are exactly the positive PRNs of the groups, in order. Every entry is valid, and its elevation, azimuth and SNR are each -1 or in range. |
| Satellite.DecodeSatellite | SatelliteSolve.c:365-395 | A group with a positive PRN fills its entry with the PRN and the valid flag. Elevation, azimuth and SNR are each filled only when in range. |
| Satellite.CompactSatellites | SatelliteSolve.c:363-398 | The satellite loop leaves the count equal to the number of groups with a positive PRN, their entries in order at the front, and all -1 after them. |
| Satellite.ParseGsv | SatelliteSolve.c:242-401 | The return code is the structural check's, and a failure leaves the record unchanged. Otherwise the record is the decode of the scratch buffers with system id `sentence[2]`. |
| Satellite.GsvDecoding | SatelliteSolve.c:269-398 | The first count entries are exactly `VisibleSatellites` of the four groups: valid, with positive PRNs, in group order; the rest are all -1. Total messages and message number in [1, 9] and satellites in view in [0, 99] are each present iff in range, then hold atoi of the text, and otherwise stay -1. |
| Satellite.GsvRouting | SatelliteSolve.c:309-332 | Field n, for 5 ≤ n ≤ 20, lands as item (n-5)%4 of satellite group (n-5)/4, clipped to 7 characters. |
| Satellite.GsvFinalSnrNeverDecoded | SatelliteSolve.c:387-393 | In a 20-field GSV the fourth SNR sits right before `*`. It is never decoded, and that satellite's SNR is -1. |
| GpsSolve.AppendOverrunsBuffer | GPSSolve.c:16-19 | The guard as written accepts a sentence that exactly fills the buffer, for which the precondition of `Strcpy` fails: its NUL, and then the '\n', land at index 1024. It also accepts one a character shorter, which leaves no NUL in the buffer. |
| GpsSolve.FitsSharpensGuard | GPSSolve.c:16 | The corrected guard accepts a subset of what the written one accepts. The difference is exactly the appends that leave no NUL, and every append it accepts meets the precondition of `Strcpy`. |
| GpsSolve.AdvanceGsv | GPSSolve.c:39-46 | The same talker as the previous GSV keeps the slot and moves to the next fragment. Another talker opens the next slot at fragment 0. The talker is remembered. |
| GpsSolve.KindOfType | GPSSolve.c:30-55 | A line is dispatched as GGA, GLL, GSA, GSV, RMC, VTG or ZDA iff it carries that type at offset 3. |
| GpsSolve.DispatchLine | GPSSolve.c:30-55 | Dispatching one line by calling the parser methods gives the same cursor and record set as `Step`. |
| GpsSolve.StepFrame | GPSSolve.c:30-55 | A line changes only the record of its own kind, and a skipped line changes nothing. |
| GpsSolve.GsaSlotsFilled | GPSSolve.c:34-37 | After an epoch gsa_pointer is min(3, number of GSA lines), malformed ones included. The slots from there on keep their previous records. |
| GpsSolve.GsaLineLandsInSlot | GPSSolve.c:34-37 | The i-th GSA line of an epoch, for i < 3, is parsed into gsa[i]. |
| GpsSolve.GsvCursorFollowsTalkers | GPSSolve.c:38-46 | The GSV slot, fragment and last talker after an epoch depend only on the talkers of its GSV lines, in order. |
| GpsSolve.GsvStoreStaysInBounds | GPSSolve.c:38-46 | A GSV line moves the cursor as `AdvanceGsv` says. It writes the gsv cell the cursor picks when that cell exists, and changes no other cell and no other record. |
| GpsSolve.GsvIndicesEscape | GPSSolve.c:38-46 | As written the indices leave gsv[3][4]: four talkers reach slot 3, five fragments of one talker reach fragment 4, and a first talker "00" gives slot -1. |
| GpsSolve.GsvGroupingExample | GPSSolve.c:39-46 | GP, GP, GP, GL, GL leaves slot 1, fragment 1, talker GL. |
| GpsSolve.AbsentTypesKept | GPSSolve.c:21-56 | The preview is never reset. A record, or the GSA or GSV slots, whose type no line of the epoch carries keeps the previous epoch's value. |
| GpsSolve.DispatchBuffer | GPSSolve.c:29-56 | The `strtok_my` line loop visits exactly the '\n'-ended lines of the buffer, in order. The preview becomes `Epoch` of those lines. The terminator and the bytes after it are unchanged. |
| GpsSolve.Strcpy | GPSSolve.c:17 | The sentence and a NUL are copied at the offset, and nothing else changes. |
| GpsSolve.Memset | GPSSolve.c:59 | The first n bytes become NUL, and nothing else changes. |
| GpsSolve.GpsSession.constructor | GPSSolve.c:7-10 | The static state starts as an empty all-NUL buffer and zeroed record sets. |
| GpsSolve.GpsSession.AddSentence | GPSSolve.c:14-20 | With the corrected guard, a sentence that fits is appended followed by '\n', and the buffer stays NUL after it. One that does not fit changes nothing. The records are untouched. |
| GpsSolve.GpsSession.SolveOnce | GPSSolve.c:21-61 | The preview becomes `Epoch` of the buffer's '\n'-ended lines, which are the appended sentences when none held a '\n'. The published record set equals the preview. The pointer is 0 and the whole buffer is NUL. On an empty buffer the published set is unchanged. |

## Left out

- The `print_*` functions are not modelled. They only format text with `printf`.
- `calculate_distance` is not modelled. It is floating-point haversine arithmetic, and it is not part of the decoding pipeline.
- `get_gps_data` is not modelled. It only returns the address of the published record set, which is the field `GpsSession.data`.
- Floating point is not modelled. Numbers are unbounded integers and exact reals, so `atof` rounding, IEEE details and the rounding of `utc_time` are left out. NaN sentinels are the `NaN` constructor of `Records.Double`.
- Leading whitespace, exponents, `inf`/`nan` and hexadecimal forms in `atoi`/`atof` are not modelled. Nor is the white space that the `%2d` and `%lf` conversions of `sscanf` skip (NMEA0183Solve.c:142, 218, 497, 1028, 1221): `NumberText.ScanInt2`, `ScanTime` and `ScanDate` fail on a leading space where `sscanf` would skip it. Sentence fields in practice carry no white space.
- The overflow of the `int` conversions in `atoi` and in `(int)(dm / 100)` on huge inputs is not modelled. Integers are unbounded.
- Nmea0183.ClockDecoding: a time text for which `sscanf` makes only two conversions leaves `seconds` uninitialised in C. The model treats it as no time.
- Nmea0183.GllDecoding: like ClockDecoding, it treats a GLL time for which `sscanf` makes only two conversions as no time, where the C sets `has_time` with seconds uninitialised.
- The checksum after `*` is never verified by the code, and the model does not verify it either.
- The NULL checks returning -1 are left out. Dafny values cannot be null.
- Lines shorter than 3 characters are treated as carrying no type. The C compares bytes past their terminator.
- Records are returned as new values rather than written through a pointer. A parser that fails returns its input record.
- GpsSolve.GpsSession.AddSentence: uses the corrected guard (see Findings). The guard as written is `GpsSolve.FitsAsWritten`.
- GpsSolve.Step: stores a GSV record only when the cursor names a cell of gsv[3][4] (see Findings). The bookkeeping is as written.

## Findings

| source | as written | input that shows it | evidently intended | confidence | as-written member | corrected member |
|---|---|---|---|---|---|---|
| GPSSolve.c:16-19 | `add_sentence` rejects only `buff_pointer >= 1024` or `len > 1024 - buff_pointer` | an empty buffer and a 1024-character sentence: the guard accepts, and `strcpy` writes the NUL and then '\n' at index 1024. A 1023-character sentence fills the buffer with no NUL, so `solve_once` reads past it | accept only when the sentence, its '\n' and a NUL all fit: `buff_pointer + len + 1 < 1024` | not executed | GpsSolve.AppendOverrunsBuffer | GpsSolve.GpsSession.AddSentence |
| GPSSolve.c:38-46 | the GSV slot and fragment indices are used with no bounds check | four GSV lines with talkers GP, GL, GA, GB: the fourth is written to `gsv[3]`. Five GP lines: the fifth is written to `gsv[0][4]`. A first GSV with talker "00": it is written to `gsv[-1]` | store a GSV record only when the slot is in [0, 3) and the fragment in [0, 4) | not executed | GpsSolve.GsvIndicesEscape | GpsSolve.GsvStoreStaysInBounds |
