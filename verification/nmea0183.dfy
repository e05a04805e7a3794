/**
  The sentence parsers of NMEA0183Solve.c: dm_to_degree and parse_gprmc,
  parse_gpgga, parse_gpvtg, parse_gpgll, parse_gpzda. Each parser is a
  method: the structural checks and the field loop (Sentence.ReadFields),
  then the decoding of the scratch buffers into a fresh record. A failed
  check returns the record it was given, because the C code resets the
  record only after every check has passed. The decoding of each parser is
  stated as a function of the scratch buffers (RmcFromFields, ...), and the
  lemmas below say what each field of the result means.
 */
module Nmea0183 {
  import opened Wrappers
  import opened Tokenizer
  import opened NumberText
  import opened Sentence
  import opened Records
  import opened FieldDecode

  /** The C conversion (int)x, which truncates toward zero. */
  function Trunc(x: real): int {
    if x >= 0.0 then x.Floor else -((-x).Floor)
  }

  /** dm_to_degree: a ddmm.mmmm value in degrees, t + (dm - 100 t) / 60 with t = (int)(dm / 100). */
  function DmToDegree(dm: real): real {
    var degrees := Trunc(dm / 100.0);
    var minutes := dm - (degrees * 100) as real;
    degrees as real + minutes / 60.0
  }

  /**
    The minutes part adds less than 100/60 of a degree: on the side of the
    whole degrees away from zero for positive input, toward zero for negative.
   */
  lemma DmToDegreeRange(dm: real)
    ensures var t := Trunc(dm / 100.0) as real;
      (dm >= 0.0 ==> t <= DmToDegree(dm) < t + 100.0 / 60.0) &&
      (dm <= 0.0 ==> t - 100.0 / 60.0 < DmToDegree(dm) <= t)
  {
    var q := dm / 100.0;
    if dm >= 0.0 {
      assert q.Floor as real <= q < q.Floor as real + 1.0;
    } else {
      assert (-q).Floor as real <= -q < (-q).Floor as real + 1.0;
    }
  }

  /** d degrees and m minutes written as ddmm.mmmm come back as d + m / 60 degrees. */
  lemma DmToDegreeOfParts(d: nat, m: real)
    requires 0.0 <= m < 100.0
    ensures Trunc(((100 * d) as real + m) / 100.0) == d
    ensures DmToDegree((100 * d) as real + m) == d as real + m / 60.0
  {
    var q := ((100 * d) as real + m) / 100.0;
    assert q == d as real + m / 100.0;
    assert d as real <= q < d as real + 1.0;
  }

  // ---------------------------------------------------------------- time

  /** The time fields before decoding: utc_time = -1.0, the rest zero. */
  const NoClock := Clock(-1.0, 0, 0, 0.0, false)

  predicate InDayRange(t: TimeOfDay) {
    0 <= t.hours <= 23 && 0 <= t.minutes <= 59 && 0.0 <= t.seconds < 60.0
  }

  function UtcTime(t: TimeOfDay): real {
    t.hours as real + t.minutes as real / 60.0 + t.seconds / 3600.0
  }

  /**
    hhmmss.sss: at least 6 characters and sscanf("%2d%2d%lf") making all
    three conversions; `checked` adds the range check that RMC, GGA and ZDA
    make and GLL does not.
   */
  function ClockFromText(text: string, checked: bool): Clock {
    if |text| < 6 then NoClock
    else
      match ScanTime(text)
      case None => NoClock
      case Some(t) =>
        if checked && !InDayRange(t) then NoClock
        else Clock(UtcTime(t), t.hours, t.minutes, t.seconds, true)
  }

  /** has_time, and what the time fields hold when it is set; a checked time of day is in [0, 24) hours. */
  lemma ClockDecoding(text: string, checked: bool)
    ensures var c := ClockFromText(text, checked);
      (c.present <==> |text| >= 6 && ScanTime(text).Some? && (checked ==> InDayRange(ScanTime(text).value))) &&
      (c.present ==> c.hour == ScanTime(text).value.hours && c.minute == ScanTime(text).value.minutes &&
                     c.second == ScanTime(text).value.seconds) &&
      (c.present && checked ==> 0.0 <= c.utcTime < 24.0) &&
      (!c.present ==> c == NoClock)
  {
    var c := ClockFromText(text, checked);
    if c.present && checked {
      var t := ScanTime(text).value;
      assert t.hours as real <= 23.0 && t.minutes as real <= 59.0;
    }
  }

  // ---------------------------------------------------------- coordinates

  const NoCoordinate := Coordinate(NaN, 0.0, 0.0, 0, false)

  /**
    A latitude (positive 'N', negative 'S') or longitude ('E', 'W') from its
    ddmm.mmmm text and hemisphere letter. Present when atof gives a value
    above 0. RMC and GGA look at the letter only when it is one of the two
    valid ones; GLL (`lenient`) at any non-empty letter.
   */
  function CoordinateFromText(number: string, hemisphere: string, positive: char, negative: char, lenient: bool): Coordinate {
    var dm := Atof(number);
    if |number| > 0 && dm > 0.0 then
      var t := Trunc(dm / 100.0);
      var found := Coordinate(Num(DmToDegree(dm)), t as real, dm - (t * 100) as real, 0, true);
      var h := Lead(hemisphere);
      var letter := if lenient then |hemisphere| > 0 else h == positive || h == negative;
      if letter then
        found.(value := if h == negative then Num(-DmToDegree(dm)) else found.value,
               positiveSide := if h == positive then 1 else 0)
      else
        found
    else
      NoCoordinate
  }

  /**
    A coordinate is present exactly when its text reads as a value above 0;
    it is then the dm_to_degree of that value, negated exactly for the
    negative hemisphere letter, its degree and minute parts recompose the
    text's value, and is_north / is_east is 1 exactly for the positive letter.
   */
  lemma CoordinateDecoding(number: string, hemisphere: string, positive: char, negative: char, lenient: bool)
    requires positive != negative && positive != '\0' && negative != '\0'
    ensures var c := CoordinateFromText(number, hemisphere, positive, negative, lenient);
      var dm := Atof(number);
      (c.present <==> dm > 0.0) &&
      (c.present ==> c.value == Num(if Lead(hemisphere) == negative then -DmToDegree(dm) else DmToDegree(dm))) &&
      (c.present ==> c.degrees * 100.0 + c.minutes == dm && 0.0 <= c.minutes < 100.0) &&
      (c.positiveSide == if c.present && Lead(hemisphere) == positive then 1 else 0) &&
      (!c.present ==> c == NoCoordinate)
  {
    var dm := Atof(number);
    if |number| == 0 {
      NoDigitsReadAsZero(number);
    }
    if dm > 0.0 {
      var q := dm / 100.0;
      assert q.Floor as real <= q < q.Floor as real + 1.0;
    }
  }

  /**
    RMC and GGA ignore an invalid hemisphere letter and GLL does not, but
    the outcome is the same: the flag it would set is 0 either way.
   */
  lemma StrictAndLenientHemisphereAgree(number: string, hemisphere: string, positive: char, negative: char)
    requires positive != '\0' && negative != '\0'
    ensures CoordinateFromText(number, hemisphere, positive, negative, false) ==
            CoordinateFromText(number, hemisphere, positive, negative, true)
  {
  }

  // ------------------------------------------------------------------ modes

  function ToUpper(c: char): char {
    if 'a' <= c <= 'z' then (c as int - 32) as char else c
  }

  /** A, D, E, N, M, S to 0..5; -1 for anything else. */
  function ModeCode(c: char): int {
    match c
    case 'A' => 0
    case 'D' => 1
    case 'E' => 2
    case 'N' => 3
    case 'M' => 4
    case 'S' => 5
    case _ => -1
  }

  /** The mode letters in code order: a letter's code is its position in "ADENMS", any other character gives -1. */
  lemma ModeCodeTable(c: char)
    ensures ModeCode(c) == if c in "ADENMS" then IndexOf("ADENMS", c) else -1
  {
  }

  // -------------------------------------------------------------------- RMC

  /** Scratch buffer sizes of parse_gprmc, for fields 2 to 14. */
  const RmcSizes: seq<nat> := [16, 2, 16, 2, 16, 2, 16, 16, 16, 16, 2, 2, 2]

  const NoDate := CalendarDate(-1, -1, -1, false)

  /** 2000 + yy, falling back to 1900 + yy when that is outside [2000, 2100]. */
  function RmcYear(yy: int): int {
    var year := 2000 + yy;
    if year < 2000 || year > 2100 then 1900 + yy else year
  }

  /** ddmmyy: at least 6 characters, three "%2d" conversions, day in [1, 31], month in [1, 12]. */
  function RmcDate(text: string): CalendarDate {
    if |text| < 6 then NoDate
    else
      match ScanDate(text)
      case None => NoDate
      case Some(d) =>
        if 1 <= d.day <= 31 && 1 <= d.month <= 12 then CalendarDate(d.day, d.month, RmcYear(d.yearShort), true)
        else NoDate
  }

  function MagneticVariationFromText(value: string, direction: string): MagneticVariation {
    var x := Atof(value);
    if |value| > 0 && 0.0 <= x <= 180.0 then
      var d := Lead(direction);
      if d == 'E' || d == 'W' then MagneticVariation(Num(if d == 'W' then -x else x), if d == 'E' then 1 else 0, true)
      else MagneticVariation(Num(x), -1, true)
    else
      MagneticVariation(NaN, -1, false)
  }

  function RmcStatus(text: string): Reading<int> {
    if Lead(text) == 'A' || Lead(text) == 'V' then Reading(if Lead(text) == 'A' then 1 else 0, true)
    else Reading(-1, false)
  }

  /** toupper of the first character, mapped by ModeCode; has_mode only for a known letter. */
  function RmcMode(text: string): Reading<int> {
    if |text| > 0 then
      var m := ModeCode(ToUpper(text[0]));
      Reading(m, m != -1)
    else
      Reading(-1, false)
  }

  function RmcFromFields(f: seq<string>): RmcRecord
    requires |f| == |RmcSizes|
  {
    RmcRecord(
      time := ClockFromText(f[0], true),
      status := RmcStatus(f[1]),
      latitude := CoordinateFromText(f[2], f[3], 'N', 'S', false),
      longitude := CoordinateFromText(f[4], f[5], 'E', 'W', false),
      speed := RangedReal(f[6], Closed(0.0, 999.9), -1.0),
      course := RangedReal(f[7], HalfOpen(0.0, 360.0), -1.0),
      date := RmcDate(f[8]),
      magneticVariation := MagneticVariationFromText(f[9], f[10]),
      mode := RmcMode(f[11]),
      navStatus := if |f[12]| > 0 then Reading(f[12][0], true) else Reading('\0', false))
  }

  /** The record parse_gprmc leaves behind for `s`, given the record it started with. */
  function RmcParsed(s: string, rec: RmcRecord): RmcRecord {
    if FrameCode(s, "RMC") != 0 then rec else RmcFromFields(Fields(s, "RMC", RmcSizes))
  }

  /** parse_gprmc. */
  method ParseRmc(sentence: string, rec: RmcRecord) returns (code: int, out: RmcRecord)
    requires '\0' !in sentence
    ensures code == FrameCode(sentence, "RMC")
    ensures code != 0 ==> out == rec
    ensures out == RmcParsed(sentence, rec)
  {
    var fields;
    code, fields := ReadFields(sentence, "RMC", RmcSizes);
    if code != 0 {
      return code, rec;
    }
    out := RmcFromFields(fields);
  }

  /**
    The RMC status, mode and navigation status: status is 1 for 'A' and 0
    for 'V' and absent otherwise; the mode is present only for one of the
    letters A, D, E, N, M, S in either case.
   */
  lemma RmcStatusDecoding(status: string, mode: string)
    ensures var st := RmcStatus(status);
      (st.present <==> Lead(status) == 'A' || Lead(status) == 'V') &&
      (st.present ==> (st.value == 1 <==> Lead(status) == 'A')) &&
      (!st.present ==> st.value == -1)
    ensures var m := RmcMode(mode);
      (m.present <==> |mode| > 0 && ToUpper(mode[0]) in "ADENMS") &&
      (m.present ==> 0 <= m.value <= 5 && m.value == IndexOf("ADENMS", ToUpper(mode[0]))) &&
      (!m.present ==> m.value == -1) &&
      (|mode| > 0 && mode[0] in "adenms" ==> m.present)
  {
    if |mode| > 0 {
      ModeCodeTable(ToUpper(mode[0]));
    }
  }

  /**
    The RMC speed, course and magnetic variation are present exactly when
    their text is non-empty and in range; they then hold the converted
    value, the variation negated for 'W'.
   */
  lemma RmcMotionDecoding(f: seq<string>)
    requires |f| == |RmcSizes|
    ensures var r := RmcFromFields(f);
      (r.speed.present <==> |f[6]| > 0 && 0.0 <= Atof(f[6]) <= 999.9) &&
      (r.course.present <==> |f[7]| > 0 && 0.0 <= Atof(f[7]) < 360.0) &&
      (r.speed.present ==> r.speed.value == Atof(f[6])) &&
      (r.course.present ==> r.course.value == Atof(f[7])) &&
      (r.magneticVariation.present <==> |f[9]| > 0 && 0.0 <= Atof(f[9]) <= 180.0) &&
      (r.magneticVariation.present ==>
         r.magneticVariation.value == Num(if Lead(f[10]) == 'W' then -Atof(f[9]) else Atof(f[9])))
  {
    var r := RmcFromFields(f);
    assert r.speed == RangedReal(f[6], Closed(0.0, 999.9), -1.0);
    assert r.course == RangedReal(f[7], HalfOpen(0.0, 360.0), -1.0);
    assert r.magneticVariation == MagneticVariationFromText(f[9], f[10]);
  }

  /**
    The RMC date is present exactly when day and month are in range, and
    its year is 2000 + yy for the two-character years 00 to 99: the 1900
    fallback fires only for a negative year such as "-5".
   */
  lemma RmcDateDecoding(text: string)
    ensures RmcDate(text).present <==>
      |text| >= 6 && ScanDate(text).Some? && 1 <= ScanDate(text).value.day <= 31 && 1 <= ScanDate(text).value.month <= 12
    ensures RmcDate(text).present ==>
      var v := ScanDate(text).value;
      RmcDate(text) == CalendarDate(v.day, v.month, if v.yearShort >= 0 then 2000 + v.yearShort else 1900 + v.yearShort, true)
  {
    ScanDateRange(text);
  }

  /** "230394" is 23 March 2094: the two-digit year is taken as 20yy. */
  lemma RmcDateExample()
    ensures RmcDate("230394") == CalendarDate(23, 3, 2094, true)
  {
    var s := "230394";
    ScanTwoDigits(s);
    assert s[2..] == "0394";
    ScanTwoDigits(s[2..]);
    assert s[4..] == "94";
    ScanTwoDigits(s[4..]);
  }

  // -------------------------------------------------------------------- GGA

  /** Scratch buffer sizes of parse_gpgga, for fields 2 to 15. */
  const GgaSizes: seq<nat> := [16, 16, 2, 16, 2, 2, 4, 16, 16, 2, 16, 2, 16, 8]

  function GgaFromFields(f: seq<string>): GgaRecord
    requires |f| == |GgaSizes|
  {
    GgaRecord(
      time := ClockFromText(f[0], true),
      latitude := CoordinateFromText(f[1], f[2], 'N', 'S', false),
      longitude := CoordinateFromText(f[3], f[4], 'E', 'W', false),
      fixQuality := RangedInt(f[5], 0, 8, -1),
      satellitesUsed := RangedInt(f[6], 0, 99, -1),
      hdop := RangedReal(f[7], Closed(0.0, 99.9), -1.0),
      altitude := RangedDouble(f[8], Closed(-9999.9, 9999.9)),
      geoidHeight := RangedDouble(f[10], Closed(-9999.9, 9999.9)),
      diffAge := RangedReal(f[12], AtLeast(0.0), -1.0),
      diffStation := RangedInt(f[13], 0, 4095, -1))
  }

  function GgaParsed(s: string, rec: GgaRecord): GgaRecord {
    if FrameCode(s, "GGA") != 0 then rec else GgaFromFields(Fields(s, "GGA", GgaSizes))
  }

  /** parse_gpgga. */
  method ParseGga(sentence: string, rec: GgaRecord) returns (code: int, out: GgaRecord)
    requires '\0' !in sentence
    ensures code == FrameCode(sentence, "GGA")
    ensures code != 0 ==> out == rec
    ensures out == GgaParsed(sentence, rec)
  {
    var fields;
    code, fields := ReadFields(sentence, "GGA", GgaSizes);
    if code != 0 {
      return code, rec;
    }
    out := GgaFromFields(fields);
  }

  /** The range each GGA value must be in for its flag to be set. */
  lemma GgaDecoding(f: seq<string>)
    requires |f| == |GgaSizes|
    ensures var r := GgaFromFields(f);
      (r.fixQuality.present <==> |f[5]| > 0 && 0 <= Atoi(f[5]) <= 8) &&
      (r.satellitesUsed.present <==> |f[6]| > 0 && 0 <= Atoi(f[6]) <= 99) &&
      (r.hdop.present <==> |f[7]| > 0 && 0.0 <= Atof(f[7]) <= 99.9) &&
      (r.altitude.present <==> |f[8]| > 0 && -9999.9 <= Atof(f[8]) <= 9999.9) &&
      (r.geoidHeight.present <==> |f[10]| > 0 && -9999.9 <= Atof(f[10]) <= 9999.9) &&
      (r.diffAge.present <==> |f[12]| > 0 && Atof(f[12]) >= 0.0) &&
      (r.diffStation.present <==> |f[13]| > 0 && 0 <= Atoi(f[13]) <= 4095) &&
      (r.fixQuality.present ==> r.fixQuality.value == Atoi(f[5])) &&
      (r.satellitesUsed.present ==> r.satellitesUsed.value == Atoi(f[6])) &&
      (r.hdop.present ==> r.hdop.value == Atof(f[7])) &&
      (r.altitude.present ==> r.altitude.value == Num(Atof(f[8]))) &&
      (r.geoidHeight.present ==> r.geoidHeight.value == Num(Atof(f[10]))) &&
      (r.diffAge.present ==> r.diffAge.value == Atof(f[12])) &&
      (r.diffStation.present ==> r.diffStation.value == Atoi(f[13])) &&
      (!r.fixQuality.present ==> r.fixQuality.value == -1) &&
      (!r.satellitesUsed.present ==> r.satellitesUsed.value == -1) &&
      (!r.hdop.present ==> r.hdop.value == -1.0) &&
      (!r.altitude.present ==> r.altitude.value == NaN) &&
      (!r.geoidHeight.present ==> r.geoidHeight.value == NaN) &&
      (!r.diffAge.present ==> r.diffAge.value == -1.0) &&
      (!r.diffStation.present ==> r.diffStation.value == -1)
  {
    RangedIntReading(f[5], 0, 8, -1);
    RangedIntReading(f[6], 0, 99, -1);
    RangedRealReading(f[7], Closed(0.0, 99.9), -1.0);
    RangedDoubleReading(f[8], Closed(-9999.9, 9999.9));
    RangedDoubleReading(f[10], Closed(-9999.9, 9999.9));
    RangedRealReading(f[12], AtLeast(0.0), -1.0);
    RangedIntReading(f[13], 0, 4095, -1);
  }

  /** The altitude and geoid unit letters (fields 11 and 13) never affect the record. */
  lemma GgaIgnoresUnits(f: seq<string>, altitudeUnit: string, geoidUnit: string)
    requires |f| == |GgaSizes|
    ensures GgaFromFields(f[9 := altitudeUnit][11 := geoidUnit]) == GgaFromFields(f)
  {
  }

  /**
    The fix quality scratch buffer holds one character, so a fix quality
    field "10" decodes as 1.
   */
  lemma GgaFixQualityTen(s: string, rec: GgaRecord)
    requires FrameCode(s, "GGA") == 0
    requires |Segments(Payload(s, "GGA"), ',')| > 6 && Segments(Payload(s, "GGA"), ',')[6] == "10"
    ensures GgaParsed(s, rec).fixQuality == Reading(1, true)
  {
    var f := Fields(s, "GGA", GgaSizes);
    assert f[5] == "1";
    AtoiOneDigit('1');
  }

  /**
    The differential station id, field 15, is the last field of a GGA
    sentence and sits right before '*', so it is never decoded.
   */
  lemma GgaStationNeverDecoded(ended: seq<string>, last: string)
    requires |ended| == 14
    requires forall k :: 0 <= k < |ended| ==> ',' !in ended[k]
    requires ',' !in last
    ensures GgaFromFields(Slots(Segments(JoinEnded(ended, ',') + last, ','), GgaSizes)).diffStation == Reading(-1, false)
  {
    FinalFieldDropped(ended, last, GgaSizes);
  }

  // -------------------------------------------------------------------- VTG

  /** Scratch buffer sizes of parse_gpvtg, for fields 2 to 10. */
  const VtgSizes: seq<nat> := [16, 2, 16, 2, 16, 2, 16, 2, 2]

  /** A, D, E, N to 0..3; -1 for anything else. */
  function VtgModeCode(c: char): int {
    match c
    case 'A' => 0
    case 'D' => 1
    case 'E' => 2
    case 'N' => 3
    case _ => -1
  }

  function VtgFromFields(f: seq<string>): VtgRecord
    requires |f| == |VtgSizes|
  {
    VtgRecord(
      courseTrue := RangedReal(f[0], Unbounded, -1.0),
      courseMagnetic := RangedReal(f[2], Unbounded, -1.0),
      speedKnots := RangedReal(f[4], Unbounded, -1.0),
      speedKmh := RangedReal(f[6], Unbounded, -1.0),
      mode := if |f[8]| > 0 then Reading(VtgModeCode(f[8][0]), true) else Reading(-1, false))
  }

  function VtgParsed(s: string, rec: VtgRecord): VtgRecord {
    if FrameCode(s, "VTG") != 0 then rec else VtgFromFields(Fields(s, "VTG", VtgSizes))
  }

  /** parse_gpvtg. */
  method ParseVtg(sentence: string, rec: VtgRecord) returns (code: int, out: VtgRecord)
    requires '\0' !in sentence
    ensures code == FrameCode(sentence, "VTG")
    ensures code != 0 ==> out == rec
    ensures out == VtgParsed(sentence, rec)
  {
    var fields;
    code, fields := ReadFields(sentence, "VTG", VtgSizes);
    if code != 0 {
      return code, rec;
    }
    out := VtgFromFields(fields);
  }

  /**
    VTG makes no range check: every course and speed is present exactly when
    its text is non-empty, and the mode flag is set for any character even
    when the mode stays -1.
   */
  lemma VtgDecoding(f: seq<string>)
    requires |f| == |VtgSizes|
    ensures var r := VtgFromFields(f);
      (r.courseTrue.present <==> |f[0]| > 0) && (r.courseTrue.present ==> r.courseTrue.value == Atof(f[0])) &&
      (r.courseMagnetic.present <==> |f[2]| > 0) && (r.courseMagnetic.present ==> r.courseMagnetic.value == Atof(f[2])) &&
      (r.speedKnots.present <==> |f[4]| > 0) && (r.speedKnots.present ==> r.speedKnots.value == Atof(f[4])) &&
      (r.speedKmh.present <==> |f[6]| > 0) && (r.speedKmh.present ==> r.speedKmh.value == Atof(f[6])) &&
      (r.mode.present <==> |f[8]| > 0) &&
      (r.mode.present ==> (r.mode.value == -1 <==> f[8][0] !in "ADEN")) &&
      (r.mode.present && f[8][0] in "ADEN" ==> r.mode.value == IndexOf("ADEN", f[8][0]))
  {
  }

  /** The unit letters T, M, N and K (fields 3, 5, 7 and 9) never affect the record. */
  lemma VtgIgnoresIndicators(f: seq<string>, t: string, m: string, n: string, k: string)
    requires |f| == |VtgSizes|
    ensures VtgFromFields(f[1 := t][3 := m][5 := n][7 := k]) == VtgFromFields(f)
  {
  }

  // -------------------------------------------------------------------- GLL

  /** Scratch buffer sizes of parse_gpgll, for fields 2 to 8. */
  const GllSizes: seq<nat> := [16, 2, 16, 2, 16, 2, 2]

  function GllFromFields(f: seq<string>): GllRecord
    requires |f| == |GllSizes|
  {
    GllRecord(
      latitude := CoordinateFromText(f[0], f[1], 'N', 'S', true),
      longitude := CoordinateFromText(f[2], f[3], 'E', 'W', true),
      time := ClockFromText(f[4], false),
      dataValid := if |f[5]| > 0 then Reading(if f[5][0] == 'A' then 1 else 0, true) else Reading(-1, false),
      mode := if |f[6]| > 0 then Reading(ModeCode(f[6][0]), true) else Reading(-1, false))
  }

  function GllParsed(s: string, rec: GllRecord): GllRecord {
    if FrameCode(s, "GLL") != 0 then rec else GllFromFields(Fields(s, "GLL", GllSizes))
  }

  /** parse_gpgll. */
  method ParseGll(sentence: string, rec: GllRecord) returns (code: int, out: GllRecord)
    requires '\0' !in sentence
    ensures code == FrameCode(sentence, "GLL")
    ensures code != 0 ==> out == rec
    ensures out == GllParsed(sentence, rec)
  {
    var fields;
    code, fields := ReadFields(sentence, "GLL", GllSizes);
    if code != 0 {
      return code, rec;
    }
    out := GllFromFields(fields);
  }

  /**
    GLL takes a time of day without any range check, so 99:99:99 is a
    present time; the validity flag is 1 only for 'A', and the mode flag is
    set for any character.
   */
  lemma GllDecoding(f: seq<string>)
    requires |f| == |GllSizes|
    ensures var r := GllFromFields(f);
      (r.time.present <==> |f[4]| >= 6 && ScanTime(f[4]).Some?) &&
      (r.dataValid.present <==> |f[5]| > 0) &&
      (r.dataValid.value == 1 <==> Lead(f[5]) == 'A') &&
      (r.mode.present <==> |f[6]| > 0) &&
      (r.mode.present ==> r.mode.value == if f[6][0] in "ADENMS" then IndexOf("ADENMS", f[6][0]) else -1) &&
      (!r.mode.present ==> r.mode.value == -1) &&
      (r.dataValid.present ==> r.dataValid.value == if f[5][0] == 'A' then 1 else 0)
  {
    if |f[6]| > 0 {
      ModeCodeTable(f[6][0]);
    }
  }

  // -------------------------------------------------------------------- ZDA

  /** Scratch buffer sizes of parse_gpzda, for fields 2 to 7. */
  const ZdaSizes: seq<nat> := [16, 4, 4, 6, 4, 4]

  /** atoi of a non-empty text; `otherwise` for an empty one. */
  function IntOr(text: string, otherwise: int): int {
    if |text| > 0 then Atoi(text) else otherwise
  }

  /** A year below 100 is taken as 2000 + year. */
  function ZdaYear(text: string): int {
    if |text| > 0 then (if Atoi(text) < 100 then Atoi(text) + 2000 else Atoi(text)) else -1
  }

  function ZdaFromFields(f: seq<string>): ZdaRecord
    requires |f| == |ZdaSizes|
  {
    var day := IntOr(f[1], -1);
    var month := IntOr(f[2], -1);
    var year := ZdaYear(f[3]);
    ZdaRecord(
      time := ClockFromText(f[0], true),
      date := CalendarDate(day, month, year, day > 0 && month > 0 && year > 0),
      timezoneHours := IntOr(f[4], 0),
      timezoneMinutes := IntOr(f[5], 0),
      hasTimezone := |f[4]| > 0 || |f[5]| > 0)
  }

  function ZdaParsed(s: string, rec: ZdaRecord): ZdaRecord {
    if FrameCode(s, "ZDA") != 0 then rec else ZdaFromFields(Fields(s, "ZDA", ZdaSizes))
  }

  /** parse_gpzda. */
  method ParseZda(sentence: string, rec: ZdaRecord) returns (code: int, out: ZdaRecord)
    requires '\0' !in sentence
    ensures code == FrameCode(sentence, "ZDA")
    ensures code != 0 ==> out == rec
    ensures out == ZdaParsed(sentence, rec)
  {
    var fields;
    code, fields := ReadFields(sentence, "ZDA", ZdaSizes);
    if code != 0 {
      return code, rec;
    }
    out := ZdaFromFields(fields);
  }

  /**
    The ZDA date is present exactly when day, month and year are all
    positive after a year below 100 has had 2000 added; the time zone is
    present when either of its fields is non-empty and defaults to 0.
   */
  lemma ZdaDecoding(f: seq<string>)
    requires |f| == |ZdaSizes|
    ensures var r := ZdaFromFields(f);
      (r.date.present <==> |f[1]| > 0 && Atoi(f[1]) > 0 && |f[2]| > 0 && Atoi(f[2]) > 0 &&
                           |f[3]| > 0 && Atoi(f[3]) > -2000) &&
      (|f[1]| > 0 ==> r.date.day == Atoi(f[1])) && (|f[1]| == 0 ==> r.date.day == -1) &&
      (|f[2]| > 0 ==> r.date.month == Atoi(f[2])) && (|f[2]| == 0 ==> r.date.month == -1) &&
      (|f[3]| > 0 && Atoi(f[3]) >= 100 ==> r.date.year == Atoi(f[3])) &&
      (|f[3]| > 0 && Atoi(f[3]) < 100 ==> r.date.year == 2000 + Atoi(f[3])) &&
      (|f[3]| == 0 ==> r.date.year == -1) &&
      (r.hasTimezone <==> |f[4]| > 0 || |f[5]| > 0) &&
      (|f[4]| > 0 ==> r.timezoneHours == Atoi(f[4])) && (|f[5]| > 0 ==> r.timezoneMinutes == Atoi(f[5])) &&
      (|f[4]| == 0 ==> r.timezoneHours == 0) && (|f[5]| == 0 ==> r.timezoneMinutes == 0)
  {
  }
}
