/**
  The records the parsers fill, after gps_rmc_t, gps_gga_t, gps_vtg_t,
  gps_gll_t, gps_zda_t (NMEA0183Solve.h), gps_gsa_t, satellite_info_t,
  gps_gsv_t and gps_satellites (SatelliteSolve.h). C structs are copied by
  value, so each is a datatype. A value and its has_* flag travel together
  as a Reading; the C flags are ints that only ever hold 0 or 1, here bools.
 */
module Records {

  /** A C double as the parsers use it: a number, or the NaN that marks "not set". */
  datatype Double = NaN | Num(value: real)

  /** A decoded value with its has_* presence flag. */
  datatype Reading<T> = Reading(value: T, present: bool)

  /** utc_time, hour, minute, second and has_time. */
  datatype Clock = Clock(utcTime: real, hour: int, minute: int, second: real, present: bool)

  /**
    A latitude or longitude: the signed value in degrees, the degree and
    minute parts of the ddmm.mmmm text, is_north / is_east (1 for N or E,
    0 otherwise) and has_latitude / has_longitude.
   */
  datatype Coordinate = Coordinate(value: Double, degrees: real, minutes: real, positiveSide: int, present: bool)

  /** day, month, year and has_date. */
  datatype CalendarDate = CalendarDate(day: int, month: int, year: int, present: bool)

  /** magnetic_variation (negative for west), is_magnetic_east and has_magnetic_variation. */
  datatype MagneticVariation = MagneticVariation(value: Double, isEast: int, present: bool)

  datatype RmcRecord = RmcRecord(
    time: Clock,
    status: Reading<int>,
    latitude: Coordinate,
    longitude: Coordinate,
    speed: Reading<real>,
    course: Reading<real>,
    date: CalendarDate,
    magneticVariation: MagneticVariation,
    mode: Reading<int>,
    navStatus: Reading<char>)

  datatype GgaRecord = GgaRecord(
    time: Clock,
    latitude: Coordinate,
    longitude: Coordinate,
    fixQuality: Reading<int>,
    satellitesUsed: Reading<int>,
    hdop: Reading<real>,
    altitude: Reading<Double>,
    geoidHeight: Reading<Double>,
    diffAge: Reading<real>,
    diffStation: Reading<int>)

  datatype VtgRecord = VtgRecord(
    courseTrue: Reading<real>,
    courseMagnetic: Reading<real>,
    speedKnots: Reading<real>,
    speedKmh: Reading<real>,
    mode: Reading<int>)

  datatype GllRecord = GllRecord(
    latitude: Coordinate,
    longitude: Coordinate,
    time: Clock,
    dataValid: Reading<int>,
    mode: Reading<int>)

  datatype ZdaRecord = ZdaRecord(
    time: Clock,
    date: CalendarDate,
    timezoneHours: int,
    timezoneMinutes: int,
    hasTimezone: bool)

  /** PRNs used in the fix: `satellites` has 12 entries, the first `satelliteCount` of them set. */
  datatype GsaRecord = GsaRecord(
    mode1: Reading<int>,
    mode2: Reading<int>,
    satellites: seq<int>,
    satelliteCount: int,
    pdop: Reading<real>,
    hdop: Reading<real>,
    vdop: Reading<real>,
    systemId: Reading<char>)

  datatype SatelliteInfo = SatelliteInfo(prn: int, elevation: int, azimuth: int, snr: int, isValid: bool)

  /** One GSV fragment: `satellites` has 4 entries, the first `satelliteCount` of them set. */
  datatype GsvRecord = GsvRecord(
    totalMessages: Reading<int>,
    messageNumber: Reading<int>,
    totalSatellites: Reading<int>,
    satellites: seq<SatelliteInfo>,
    satelliteCount: int,
    systemId: Reading<char>)

  /** MAX_KIND_OF_SATELLITE: GSA records and GSV talker slots per epoch. */
  const MaxKindOfSatellite: nat := 3
  /** EACH_KIND_OF_SATELLITE: GSV fragments kept per talker. */
  const EachKindOfSatellite: nat := 4
  /** PRN entries of a GSA record. */
  const GsaPrnCapacity: nat := 12
  /** Satellite entries of a GSV record. */
  const GsvSatelliteCapacity: nat := 4

  /** gsa[3] and gsv[3][4]. */
  datatype Satellites = Satellites(gsa: seq<GsaRecord>, gsv: seq<seq<GsvRecord>>)

  datatype GpsData = GpsData(
    gga: GgaRecord,
    gll: GllRecord,
    satellites: Satellites,
    rmc: RmcRecord,
    vtg: VtgRecord,
    zda: ZdaRecord)

  /** The array shapes of the C structs. */
  predicate WellShaped(d: GpsData) {
    |d.satellites.gsa| == MaxKindOfSatellite &&
    |d.satellites.gsv| == MaxKindOfSatellite &&
    (forall i :: 0 <= i < MaxKindOfSatellite ==> |d.satellites.gsv[i]| == EachKindOfSatellite)
  }

  // All-zero values: what static storage and memset(0) hold.

  const ZeroClock := Clock(0.0, 0, 0, 0.0, false)
  const ZeroCoordinate := Coordinate(Num(0.0), 0.0, 0.0, 0, false)
  const ZeroDate := CalendarDate(0, 0, 0, false)
  const ZeroInt := Reading(0, false)
  const ZeroReal := Reading(0.0, false)
  const ZeroDouble := Reading(Num(0.0), false)

  const ZeroRmc := RmcRecord(ZeroClock, ZeroInt, ZeroCoordinate, ZeroCoordinate, ZeroReal, ZeroReal,
    ZeroDate, MagneticVariation(Num(0.0), 0, false), ZeroInt, Reading('\0', false))
  const ZeroGga := GgaRecord(ZeroClock, ZeroCoordinate, ZeroCoordinate, ZeroInt, ZeroInt, ZeroReal,
    ZeroDouble, ZeroDouble, ZeroReal, ZeroInt)
  const ZeroVtg := VtgRecord(ZeroReal, ZeroReal, ZeroReal, ZeroReal, ZeroInt)
  const ZeroGll := GllRecord(ZeroCoordinate, ZeroCoordinate, ZeroClock, ZeroInt, ZeroInt)
  const ZeroZda := ZdaRecord(ZeroClock, ZeroDate, 0, 0, false)
  const ZeroGsa := GsaRecord(ZeroInt, ZeroInt, seq(GsaPrnCapacity, _ => 0), 0, ZeroReal, ZeroReal, ZeroReal,
    Reading('\0', false))
  const ZeroGsv := GsvRecord(ZeroInt, ZeroInt, ZeroInt,
    seq(GsvSatelliteCapacity, _ => SatelliteInfo(0, 0, 0, 0, false)), 0, Reading('\0', false))

  /** gps_data and gps_data_preview before the first epoch. */
  const ZeroData := GpsData(ZeroGga, ZeroGll,
    Satellites(seq(MaxKindOfSatellite, _ => ZeroGsa),
               seq(MaxKindOfSatellite, _ => seq(EachKindOfSatellite, _ => ZeroGsv))),
    ZeroRmc, ZeroVtg, ZeroZda)
}
