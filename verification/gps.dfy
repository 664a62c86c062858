/**
 * The records the sentence parser fills in (gps/gps.c, NmeaReader and the
 * GpsLocation and GpsSvStatus records of the platform header), and the
 * outside world it consults: the C library's text-to-double conversion, the
 * current UTC date and mktime.
 */
module Gps {

  /** GPS_MAX_SVS of the platform header: the capacity of the satellite list. */
  const GPS_MAX_SVS := 32

  /** The distinct validity bits of GpsLocation.flags. */
  datatype LocationFlag = HasLatLong | HasAltitude | HasSpeed | HasBearing | HasAccuracy

  /** GpsLocation: the fix, doubles modelled as reals; `flags` says which values are valid. */
  datatype Location = Location(
    flags: set<LocationFlag>,
    latitude: real,
    longitude: real,
    altitude: real,
    speed: real,
    bearing: real,
    accuracy: real,
    timestamp: int)

  /** GpsSvInfo: one satellite of a GSV listing. */
  datatype SvInfo = SvInfo(prn: int, elevation: real, azimuth: real, snr: real)

  datatype Date = Date(year: int, mon: int, day: int)

  /** The broken-down time handed to mktime. */
  datatype CivilTime = CivilTime(year: int, mon: int, day: int, hour: int, min: int, sec: int)

  /**
   * What the parser takes from outside: strtod on a token's characters, the
   * current UTC date (gmtime of time(NULL)) and mktime.
   */
  datatype Env = Env(strtod: seq<char> -> real, today: Date, mktime: CivilTime -> int)

  /**
   * The part of NmeaReader that parsing changes: the cached UTC date, the fix,
   * the satellite list with its count and used-in-fix mask (a set of bit
   * positions), and the dirty flag for satellite status.
   */
  datatype ReaderState = ReaderState(
    utcYear: int,
    utcMon: int,
    utcDay: int,
    fix: Location,
    svList: seq<SvInfo>,
    numSvs: int,
    usedInFixMask: set<int>,
    svStatusChanged: bool)

  /** The satellite list has GPS_MAX_SVS slots and the count stays within them. */
  predicate WellFormed(s: ReaderState) {
    |s.svList| == GPS_MAX_SVS && 0 <= s.numSvs <= GPS_MAX_SVS
  }

  const NoFix := Location({}, 0.0, 0.0, 0.0, 0.0, 0.0, 0.0, 0)

  const NoSv := SvInfo(0, 0.0, 0.0, 0.0)

  /** nmea_reader_init: everything zeroed, the cached date unknown (-1). */
  function InitialState(): (s: ReaderState)
    ensures WellFormed(s) && s.utcYear < 0 && s.fix.flags == {} && s.numSvs == 0
  {
    ReaderState(-1, -1, -1, NoFix, seq(GPS_MAX_SVS, _ => NoSv), 0, {}, false)
  }
}
