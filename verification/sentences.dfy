/**
 * The sentence parser as functions on ReaderState (gps/gps.c,
 * nmea_reader_update_* and nmea_reader_parse). Each function gives the
 * state the C routine leaves behind; the NmeaReader class runs the same
 * steps in place and is proved to end in the state these functions give.
 */
module Sentences {

  import opened Gps
  import opened Decimal
  import opened Tokenizer

  /** The accuracy value the receiver sends when it has none. */
  const NO_ACCURACY: real := 99.99

  /** update_time: needs a token of at least 6 characters (hhmmss...); seeds an unknown date from the clock. */
  function UpdateTime(env: Env, utcDiff: int, s: ReaderState, tok: Token): (r: ReaderState)
    ensures r == s.(utcYear := r.utcYear, utcMon := r.utcMon, utcDay := r.utcDay, fix := s.fix.(timestamp := r.fix.timestamp))
    ensures |tok| < 6 ==> r == s
  {
    if |tok| < 6 then s
    else
      var d := if s.utcYear < 0 then env.today else Date(s.utcYear, s.utcMon, s.utcDay);
      var hour := IntValue(tok[..2]);
      var minute := IntValue(tok[2..4]);
      var seconds := Str2Float(env.strtod, tok[4..]);
      var t := CivilTime(d.year, d.mon, d.day, hour, minute, Trunc(seconds));
      s.(utcYear := d.year, utcMon := d.mon, utcDay := d.day,
         fix := s.fix.(timestamp := (env.mktime(t) + utcDiff) * 1000))
  }

  /** update_cdate (ZDA): day and month of at least 2 characters, year of at least 4, or nothing is written. */
  function UpdateCDate(s: ReaderState, day: Token, mon: Token, year: Token): (r: ReaderState)
    ensures r == s.(utcYear := r.utcYear, utcMon := r.utcMon, utcDay := r.utcDay)
    ensures |day| < 2 || |mon| < 2 || |year| < 4 ==> r == s
  {
    if |day| < 2 || |mon| < 2 || |year| < 4 then s
    else s.(utcDay := IntValue(day[..2]), utcMon := IntValue(mon[..2]), utcYear := IntValue(year[..4]))
  }

  /**
   * update_date (RMC): a ddmmyy token of exactly 6 characters whose day and
   * month decode; the two-digit year is offset by 2000. The C test
   * `(day|mon|year) < 0` is the sign of the bitwise or, negative exactly
   * when one of the three is. The date is stored before update_time checks
   * the time token.
   */
  function UpdateDate(env: Env, utcDiff: int, s: ReaderState, date: Token, time: Token): (r: ReaderState)
    ensures r == s.(utcYear := r.utcYear, utcMon := r.utcMon, utcDay := r.utcDay, fix := s.fix.(timestamp := r.fix.timestamp))
    ensures |date| != 6 || IntValue(date[..2]) < 0 || IntValue(date[2..4]) < 0 ==> r == s
    ensures |date| == 6 && IntValue(date[..2]) >= 0 && IntValue(date[2..4]) >= 0 ==>
      Date(r.utcYear, r.utcMon, r.utcDay) == Date(IntValue(date[4..6]) + 2000, IntValue(date[2..4]), IntValue(date[..2]))
  {
    if |date| != 6 then s
    else
      var day := IntValue(date[..2]);
      var mon := IntValue(date[2..4]);
      var year := IntValue(date[4..6]) + 2000;
      if day < 0 || mon < 0 || year < 0 then s
      else UpdateTime(env, utcDiff, s.(utcYear := year, utcMon := mon, utcDay := day), time)
  }

  /**
   * convert_from_hhmm: dddmm.mmmm to decimal degrees; `(int)` truncates
   * toward zero. Exact real arithmetic stands for the C doubles.
   */
  function ConvertFromHhmm(strtod: seq<char> -> real, tok: Token): real {
    var val := Str2Float(strtod, tok);
    var degrees := Trunc(val.Floor as real / 100.0);
    var minutes := val - degrees as real * 100.0;
    degrees as real + minutes / 60.0
  }

  /** A coordinate with its hemisphere: negative exactly for the given hemisphere letter. */
  function Hemisphere(value: real, hemi: char, negative: char): real {
    if hemi == negative then -value else value
  }

  /** update_latlong: both coordinate tokens need at least 6 characters, or nothing is written. */
  function UpdateLatLong(env: Env, s: ReaderState, lat: Token, latHemi: char, lon: Token, lonHemi: char): (r: ReaderState)
    ensures r == s.(fix := s.fix.(flags := r.fix.flags, latitude := r.fix.latitude, longitude := r.fix.longitude))
    ensures r.fix.flags == if |lat| < 6 || |lon| < 6 then s.fix.flags else s.fix.flags + {HasLatLong}
  {
    if |lat| < 6 || |lon| < 6 then s
    else
      s.(fix := s.fix.(
        flags := s.fix.flags + {HasLatLong},
        latitude := Hemisphere(ConvertFromHhmm(env.strtod, lat), latHemi, 'S'),
        longitude := Hemisphere(ConvertFromHhmm(env.strtod, lon), lonHemi, 'W')))
  }

  /** update_altitude: a non-empty token; the units token is not looked at. */
  function UpdateAltitude(env: Env, s: ReaderState, alt: Token): (r: ReaderState)
    ensures r == s.(fix := s.fix.(flags := r.fix.flags, altitude := r.fix.altitude))
    ensures r.fix.flags == if alt == [] then s.fix.flags else s.fix.flags + {HasAltitude}
    ensures alt == [] ==> r == s
  {
    if alt == [] then s
    else s.(fix := s.fix.(flags := s.fix.flags + {HasAltitude}, altitude := Str2Float(env.strtod, alt)))
  }

  function UpdateBearing(env: Env, s: ReaderState, bearing: Token): (r: ReaderState)
    ensures r == s.(fix := s.fix.(flags := r.fix.flags, bearing := r.fix.bearing))
    ensures r.fix.flags == if bearing == [] then s.fix.flags else s.fix.flags + {HasBearing}
    ensures bearing == [] ==> r == s
  {
    if bearing == [] then s
    else s.(fix := s.fix.(flags := s.fix.flags + {HasBearing}, bearing := Str2Float(env.strtod, bearing)))
  }

  function UpdateSpeed(env: Env, s: ReaderState, speed: Token): (r: ReaderState)
    ensures r == s.(fix := s.fix.(flags := r.fix.flags, speed := r.fix.speed))
    ensures r.fix.flags == if speed == [] then s.fix.flags else s.fix.flags + {HasSpeed}
    ensures speed == [] ==> r == s
  {
    if speed == [] then s
    else s.(fix := s.fix.(flags := s.fix.flags + {HasSpeed}, speed := Str2Float(env.strtod, speed)))
  }

  /** update_accuracy: the value is stored, but 99.99 does not mark it valid. */
  function UpdateAccuracy(env: Env, s: ReaderState, acc: Token): (r: ReaderState)
    ensures r == s.(fix := s.fix.(flags := r.fix.flags, accuracy := r.fix.accuracy))
    ensures s.fix.flags <= r.fix.flags <= s.fix.flags + {HasAccuracy}
    ensures acc == [] ==> r == s
  {
    if acc == [] then s
    else
      var value := Str2Float(env.strtod, acc);
      s.(fix := s.fix.(
        accuracy := value,
        flags := if value == NO_ACCURACY then s.fix.flags else s.fix.flags + {HasAccuracy}))
  }

  /** GGA: time, position, altitude. */
  function Gga(env: Env, utcDiff: int, s: ReaderState, toks: seq<Token>): (r: ReaderState)
    ensures r.fix.flags == s.fix.flags
      + (if |Get(toks, 2)| >= 6 && |Get(toks, 4)| >= 6 then {HasLatLong} else {})
      + (if Get(toks, 9) != [] then {HasAltitude} else {})
  {
    var s1 := UpdateTime(env, utcDiff, s, Get(toks, 1));
    var s2 := UpdateLatLong(env, s1, Get(toks, 2), FirstChar(Get(toks, 3)), Get(toks, 4), FirstChar(Get(toks, 5)));
    UpdateAltitude(env, s2, Get(toks, 9))
  }

  /** GLL: only with status 'A' and a date already known: time, position. */
  function Gll(env: Env, utcDiff: int, s: ReaderState, toks: seq<Token>): (r: ReaderState)
    ensures r.fix.flags ==
      if FirstChar(Get(toks, 6)) == 'A' && s.utcYear >= 0 && |Get(toks, 1)| >= 6 && |Get(toks, 3)| >= 6
      then s.fix.flags + {HasLatLong} else s.fix.flags
  {
    if FirstChar(Get(toks, 6)) == 'A' && s.utcYear >= 0 then
      var s1 := UpdateTime(env, utcDiff, s, Get(toks, 5));
      UpdateLatLong(env, s1, Get(toks, 1), FirstChar(Get(toks, 2)), Get(toks, 3), FirstChar(Get(toks, 4)))
    else s
  }

  /** The decoded PRN in slot i of a GSA sentence. */
  function PrnAt(toks: seq<Token>, i: int): int {
    IntValue(Get(toks, i))
  }

  /**
   * The used-in-fix mask a GSA sentence builds from PRN slots 3 to 14: bit
   * 32 - prn for each PRN from 1 to 32. (The C code shifts for every
   * positive PRN; PRNs above 32 are left out here, see Findings.)
   */
  function UsedInFixMask(toks: seq<Token>): (mask: set<int>)
    ensures forall b :: b in mask ==> 0 <= b < 32
  {
    set i | 3 <= i <= 14 && 1 <= PrnAt(toks, i) <= 32 :: 32 - PrnAt(toks, i)
  }

  /** Whether some PRN slot of a GSA sentence holds a positive number. */
  predicate AnyPrn(toks: seq<Token>) {
    exists i | 3 <= i <= 14 :: PrnAt(toks, i) > 0
  }

  /** GSA: only with a fix mode present and not '1': accuracy, then the mask rebuilt from zero. */
  function Gsa(env: Env, s: ReaderState, toks: seq<Token>): (r: ReaderState)
    ensures var mode := FirstChar(Get(toks, 2));
      mode != '\0' && mode != '1' ==> r.usedInFixMask == UsedInFixMask(toks)
    ensures r.fix.flags - {HasAccuracy} == s.fix.flags - {HasAccuracy}
    ensures var mode := FirstChar(Get(toks, 2));
      HasAccuracy in r.fix.flags <==>
        (HasAccuracy in s.fix.flags ||
         (mode != '\0' && mode != '1' && Get(toks, 15) != [] && Str2Float(env.strtod, Get(toks, 15)) != NO_ACCURACY))
  {
    var mode := FirstChar(Get(toks, 2));
    if mode == '\0' || mode == '1' then s
    else
      var s1 := UpdateAccuracy(env, s, Get(toks, 15));
      s1.(usedInFixMask := UsedInFixMask(toks), svStatusChanged := s1.svStatusChanged || AnyPrn(toks))
  }

  /** The i-th satellite record of a GSV sentence: PRN, elevation, azimuth, SNR from tokens 4i+4 to 4i+7. */
  function SvRecord(env: Env, toks: seq<Token>, i: int): SvInfo {
    SvInfo(
      IntValue(Get(toks, i * 4 + 4)),
      Str2Float(env.strtod, Get(toks, i * 4 + 5)),
      Str2Float(env.strtod, Get(toks, i * 4 + 6)),
      Str2Float(env.strtod, Get(toks, i * 4 + 7)))
  }

  /** The four satellite records a GSV sentence carries, in order. */
  function SvRecords(env: Env, toks: seq<Token>): (recs: seq<SvInfo>)
    ensures |recs| == 4
  {
    seq(4, k => SvRecord(env, toks, k))
  }

  function Min(a: int, b: int): int {
    if a <= b then a else b
  }

  function Max(a: int, b: int): int {
    if a <= b then b else a
  }

  /** The state with one more satellite, stored in the next free slot. */
  function Store(s: ReaderState, rec: SvInfo): (r: ReaderState)
    requires WellFormed(s) && s.numSvs < GPS_MAX_SVS
    ensures WellFormed(r) && r.numSvs == s.numSvs + 1
  {
    s.(svList := s.svList[s.numSvs := rec], numSvs := s.numSvs + 1)
  }

  /**
   * The GSV append loop from record i on: while fewer than 4 records were
   * taken, the count is below the declared total and (see Findings) below
   * GPS_MAX_SVS, record i goes to slot numSvs.
   */
  function GsvAppend(s: ReaderState, recs: seq<SvInfo>, total: int, i: nat): (r: ReaderState)
    requires WellFormed(s) && |recs| == 4 && i <= 4
    ensures WellFormed(r) && s.numSvs <= r.numSvs <= s.numSvs + 4 - i
    decreases 4 - i
  {
    if i < 4 && s.numSvs < total && s.numSvs < GPS_MAX_SVS then
      GsvAppend(Store(s, recs[i]), recs, total, i + 1)
    else s
  }

  /**
   * How many records the GSV append loop takes from record i on:
   * min(4 - i, total - numSvs, GPS_MAX_SVS - numSvs), and none when the
   * count is already there.
   */
  lemma {:induction false} GsvAppendCount(s: ReaderState, recs: seq<SvInfo>, total: int, i: nat)
    requires WellFormed(s) && |recs| == 4 && i <= 4
    ensures GsvAppend(s, recs, total, i).numSvs == s.numSvs + Min(4 - i, Max(0, Min(total, GPS_MAX_SVS) - s.numSvs))
    decreases 4 - i
  {
    if i < 4 && s.numSvs < total && s.numSvs < GPS_MAX_SVS {
      GsvAppendCount(Store(s, recs[i]), recs, total, i + 1);
    }
  }

  /** The GSV append loop changes only the satellite list and its count, and never shrinks the count. */
  lemma {:induction false} GsvAppendFrame(s: ReaderState, recs: seq<SvInfo>, total: int, i: nat)
    requires WellFormed(s) && |recs| == 4 && i <= 4
    ensures var r := GsvAppend(s, recs, total, i);
      r == s.(svList := r.svList, numSvs := r.numSvs) && s.numSvs <= r.numSvs
    decreases 4 - i
  {
    if i < 4 && s.numSvs < total && s.numSvs < GPS_MAX_SVS {
      GsvAppendFrame(Store(s, recs[i]), recs, total, i + 1);
    }
  }

  /** The slots the GSV append loop does not fill keep their satellites. */
  lemma {:induction false} GsvAppendKeeps(s: ReaderState, recs: seq<SvInfo>, total: int, i: nat)
    requires WellFormed(s) && |recs| == 4 && i <= 4
    ensures var r := GsvAppend(s, recs, total, i);
      forall j :: 0 <= j < s.numSvs || r.numSvs <= j < GPS_MAX_SVS ==> r.svList[j] == s.svList[j]
    decreases 4 - i
  {
    if i < 4 && s.numSvs < total && s.numSvs < GPS_MAX_SVS {
      var next := Store(s, recs[i]);
      var r := GsvAppend(next, recs, total, i + 1);
      GsvAppendKeeps(next, recs, total, i + 1);
      GsvAppendFrame(next, recs, total, i + 1);
      forall j | 0 <= j < s.numSvs || r.numSvs <= j < GPS_MAX_SVS
        ensures r.svList[j] == s.svList[j]
      {
        assert r.svList[j] == next.svList[j];
      }
    }
  }

  /** The GSV append loop puts record i + k of the sentence in slot numSvs + k. */
  lemma {:induction false} GsvAppendRecords(s: ReaderState, recs: seq<SvInfo>, total: int, i: nat)
    requires WellFormed(s) && |recs| == 4 && i <= 4
    ensures var r := GsvAppend(s, recs, total, i);
      forall j :: s.numSvs <= j < r.numSvs ==> r.svList[j] == recs[i + j - s.numSvs]
    decreases 4 - i
  {
    if i < 4 && s.numSvs < total && s.numSvs < GPS_MAX_SVS {
      var next := Store(s, recs[i]);
      var r := GsvAppend(next, recs, total, i + 1);
      GsvAppendRecords(next, recs, total, i + 1);
      GsvAppendKeeps(next, recs, total, i + 1);
      GsvAppendFrame(next, recs, total, i + 1);
      forall j | s.numSvs <= j < r.numSvs
        ensures r.svList[j] == recs[i + j - s.numSvs]
      {
        if j == s.numSvs {
          assert r.svList[j] == next.svList[j];
        } else {
          assert i + 1 + j - next.numSvs == i + j - s.numSvs;
        }
      }
    }
  }

  /**
   * GSV: with a positive declared satellite total, sentence 1 of a group
   * starts the list over, up to 4 records are appended, and the last
   * sentence of the group marks the status changed.
   */
  function Gsv(env: Env, s: ReaderState, toks: seq<Token>): (r: ReaderState)
    requires WellFormed(s)
    ensures WellFormed(r)
    ensures IntValue(Get(toks, 3)) > 0 && IntValue(Get(toks, 2)) == 1 ==> r.numSvs <= 4
    ensures IntValue(Get(toks, 3)) > 0 && IntValue(Get(toks, 2)) == IntValue(Get(toks, 1)) ==> r.svStatusChanged
  {
    var total := IntValue(Get(toks, 3));
    if total <= 0 then s
    else
      var sentence := IntValue(Get(toks, 2));
      var sentences := IntValue(Get(toks, 1));
      var s1 := if sentence == 1 then s.(svStatusChanged := false, numSvs := 0) else s;
      var s2 := GsvAppend(s1, SvRecords(env, toks), total, 0);
      if sentence == sentences then s2.(svStatusChanged := true) else s2
  }

  /** RMC: only with status 'A': date and time, position, bearing, speed. */
  function Rmc(env: Env, utcDiff: int, s: ReaderState, toks: seq<Token>): (r: ReaderState)
    ensures r.fix.flags ==
      if FirstChar(Get(toks, 2)) == 'A' then
        s.fix.flags
        + (if |Get(toks, 3)| >= 6 && |Get(toks, 5)| >= 6 then {HasLatLong} else {})
        + (if Get(toks, 8) != [] then {HasBearing} else {})
        + (if Get(toks, 7) != [] then {HasSpeed} else {})
      else s.fix.flags
  {
    if FirstChar(Get(toks, 2)) == 'A' then
      var s1 := UpdateDate(env, utcDiff, s, Get(toks, 9), Get(toks, 1));
      var s2 := UpdateLatLong(env, s1, Get(toks, 3), FirstChar(Get(toks, 4)), Get(toks, 5), FirstChar(Get(toks, 6)));
      var s3 := UpdateBearing(env, s2, Get(toks, 8));
      UpdateSpeed(env, s3, Get(toks, 7))
    else s
  }

  /** VTG: only with a mode indicator present and not 'N': bearing, speed. */
  function Vtg(env: Env, s: ReaderState, toks: seq<Token>): (r: ReaderState)
    ensures r.fix.flags ==
      if FirstChar(Get(toks, 9)) != '\0' && FirstChar(Get(toks, 9)) != 'N' then
        s.fix.flags
        + (if Get(toks, 1) != [] then {HasBearing} else {})
        + (if Get(toks, 5) != [] then {HasSpeed} else {})
      else s.fix.flags
  {
    var mode := FirstChar(Get(toks, 9));
    if mode != '\0' && mode != 'N' then
      UpdateSpeed(env, UpdateBearing(env, s, Get(toks, 1)), Get(toks, 5))
    else s
  }

  /** ZDA: only with both the time and the year present: date, then time. */
  function Zda(env: Env, utcDiff: int, s: ReaderState, toks: seq<Token>): (r: ReaderState)
    ensures r.fix.flags == s.fix.flags
  {
    if FirstChar(Get(toks, 4)) != '\0' && FirstChar(Get(toks, 1)) != '\0' then
      var s1 := UpdateCDate(s, Get(toks, 2), Get(toks, 3), Get(toks, 4));
      UpdateTime(env, utcDiff, s1, Get(toks, 1))
    else s
  }

  /** The sentence types the parser handles; any other three letters are Unknown. */
  datatype SentenceType = GGA | GLL | GSA | GSV | RMC | VTG | ZDA | Unknown

  /** The three letters that name a handled sentence type. */
  function Name(t: SentenceType): seq<char> {
    match t
    case GGA => "GGA"
    case GLL => "GLL"
    case GSA => "GSA"
    case GSV => "GSV"
    case RMC => "RMC"
    case VTG => "VTG"
    case ZDA => "ZDA"
    case Unknown => ""
  }

  /** The sentence type named by characters 2 to 4 of the first token, after the two-letter talker id. */
  function TypeOf(id: Token): (t: SentenceType)
    requires |id| >= 5
    ensures t != Unknown ==> Name(t) == id[2..5]
    ensures t == Unknown ==> forall k: SentenceType :: k != Unknown ==> Name(k) != id[2..5]
  {
    var kind := id[2..5];
    if kind == "GGA" then GGA
    else if kind == "GLL" then GLL
    else if kind == "GSA" then GSA
    else if kind == "GSV" then GSV
    else if kind == "RMC" then RMC
    else if kind == "VTG" then VTG
    else if kind == "ZDA" then ZDA
    else Unknown
  }

  /** The dispatch on the sentence type; an unknown type is ignored. */
  function Dispatch(env: Env, utcDiff: int, s: ReaderState, t: SentenceType, toks: seq<Token>): (r: ReaderState)
    requires WellFormed(s)
    ensures WellFormed(r)
  {
    match t
    case GGA => Gga(env, utcDiff, s, toks)
    case GLL => Gll(env, utcDiff, s, toks)
    case GSA => Gsa(env, s, toks)
    case GSV => Gsv(env, s, toks)
    case RMC => Rmc(env, utcDiff, s, toks)
    case VTG => Vtg(env, s, toks)
    case ZDA => Zda(env, utcDiff, s, toks)
    case Unknown => s
  }

  /**
   * nmea_reader_parse on a received line (terminator included): lines
   * under 9 bytes and first tokens under 5 characters are discarded.
   */
  function ParseLine(env: Env, utcDiff: int, s: ReaderState, line: seq<char>): (r: ReaderState)
    requires WellFormed(s)
    ensures WellFormed(r)
  {
    if |line| < 9 then s
    else
      var toks := Tokens(line);
      var id := Get(toks, 0);
      if |id| < 5 then s else Dispatch(env, utcDiff, s, TypeOf(id), toks)
  }
}
