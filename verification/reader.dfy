/**
 * The NMEA reader of gps/gps.c as the object the C code updates in place:
 * a line buffer with its position and overflow flag, the cached UTC date,
 * the fix, and the satellite list with its count, mask and dirty flag.
 * Every method is proved to leave the reader in the state that the
 * corresponding function of module Sentences (or Framer) gives.
 */
module Reader {

  import opened Wrappers
  import opened Gps
  import opened Decimal
  import opened Tokenizer
  import opened Sentences
  import Framer

  class NmeaReader {
    var pos: int
    var overflow: bool
    const buffer: array<char>
    var utcYear: int
    var utcMon: int
    var utcDay: int
    /** The UTC offset the C code measures once at start-up; a parameter here. */
    const utcDiff: int
    var fix: Location
    const svList: array<SvInfo>
    var numSvs: int
    var usedInFixMask: set<int>
    var svStatusChanged: bool

    /** The buffer of NMEA_MAX_SIZE + 1 bytes, the position inside it, and the GPS_MAX_SVS satellite slots. */
    ghost predicate Layout()
      reads this
    {
      buffer.Length == Framer.NMEA_MAX_SIZE + 1 && svList.Length == GPS_MAX_SVS &&
      0 <= pos <= Framer.NMEA_MAX_SIZE && 0 <= numSvs <= GPS_MAX_SVS
    }

    /** Between bytes: the layout holds and the buffered line is one the framer can be in. */
    ghost predicate Valid()
      reads this, buffer
    {
      Layout() && Framer.Valid(Frame())
    }

    /** The line buffered so far and the overflow flag. */
    ghost function Frame(): Framer.FrameState
      reads this, buffer
      requires 0 <= pos <= buffer.Length
    {
      Framer.FrameState(buffer[..pos], overflow)
    }

    /** What parsing reads and writes. */
    ghost function State(): ReaderState
      reads this, svList
    {
      ReaderState(utcYear, utcMon, utcDay, fix, svList[..], numSvs, usedInFixMask, svStatusChanged)
    }

    /** nmea_reader_init: an empty buffer, no known date, an empty fix and satellite list. */
    constructor (utcDiff: int)
      ensures Valid() && fresh(buffer) && fresh(svList)
      ensures Frame() == Framer.Idle && State() == InitialState() && this.utcDiff == utcDiff
    {
      pos := 0;
      overflow := false;
      buffer := new char[Framer.NMEA_MAX_SIZE + 1];
      utcYear, utcMon, utcDay := -1, -1, -1;
      this.utcDiff := utcDiff;
      fix := NoFix;
      svList := new SvInfo[GPS_MAX_SVS](_ => NoSv);
      numSvs := 0;
      usedInFixMask := {};
      svStatusChanged := false;
      new;
      assert svList[..] == seq(GPS_MAX_SVS, _ => NoSv);
    }

    /** nmea_reader_update_time; `ok` is the C return value 0 (true) or -1 (false). */
    method UpdateTime(env: Env, tok: Token) returns (ok: bool)
      requires Layout()
      modifies this
      ensures Layout() && pos == old(pos) && overflow == old(overflow)
      ensures ok == (|tok| >= 6)
      ensures State() == Sentences.UpdateTime(env, utcDiff, old(State()), tok)
    {
      if |tok| < 6 {
        return false;
      }
      if utcYear < 0 {
        utcYear, utcMon, utcDay := env.today.year, env.today.mon, env.today.day;
      }
      var hour := Str2Int(tok[..2]);
      var minute := Str2Int(tok[2..4]);
      var seconds := Str2Float(env.strtod, tok[4..]);
      var fixTime := env.mktime(CivilTime(utcYear, utcMon, utcDay, hour, minute, Trunc(seconds))) + utcDiff;
      fix := fix.(timestamp := fixTime * 1000);
      ok := true;
    }

    /** nmea_reader_update_cdate. */
    method UpdateCDate(day: Token, mon: Token, year: Token) returns (ok: bool)
      requires Layout()
      modifies this
      ensures Layout() && pos == old(pos) && overflow == old(overflow)
      ensures ok == (|day| >= 2 && |mon| >= 2 && |year| >= 4)
      ensures State() == Sentences.UpdateCDate(old(State()), day, mon, year)
    {
      if |day| < 2 || |mon| < 2 || |year| < 4 {
        return false;
      }
      utcDay := Str2Int(day[..2]);
      utcMon := Str2Int(mon[..2]);
      utcYear := Str2Int(year[..4]);
      ok := true;
    }

    /** nmea_reader_update_date: succeeds when the date is accepted and the time update succeeds. */
    method UpdateDate(env: Env, date: Token, time: Token) returns (ok: bool)
      requires Layout()
      modifies this
      ensures Layout() && pos == old(pos) && overflow == old(overflow)
      ensures ok == (|date| == 6 && IntValue(date[..2]) >= 0 && IntValue(date[2..4]) >= 0 &&
                     IntValue(date[4..]) + 2000 >= 0 && |time| >= 6)
      ensures State() == Sentences.UpdateDate(env, utcDiff, old(State()), date, time)
    {
      if |date| != 6 {
        return false;
      }
      var day := Str2Int(date[..2]);
      var mon := Str2Int(date[2..4]);
      var year := Str2Int(date[4..6]);
      year := year + 2000;
      if day < 0 || mon < 0 || year < 0 {
        return false;
      }
      utcYear, utcMon, utcDay := year, mon, day;
      ok := UpdateTime(env, time);
      assert date[4..] == date[4..6];
    }

    /** nmea_reader_update_latlong. */
    method UpdateLatLong(env: Env, lat: Token, latHemi: char, lon: Token, lonHemi: char) returns (ok: bool)
      requires Layout()
      modifies this
      ensures Layout() && pos == old(pos) && overflow == old(overflow)
      ensures ok == (|lat| >= 6 && |lon| >= 6)
      ensures State() == Sentences.UpdateLatLong(env, old(State()), lat, latHemi, lon, lonHemi)
    {
      if |lat| < 6 {
        return false;
      }
      var latitude := ConvertFromHhmm(env.strtod, lat);
      if latHemi == 'S' {
        latitude := -latitude;
      }
      if |lon| < 6 {
        return false;
      }
      var longitude := ConvertFromHhmm(env.strtod, lon);
      if lonHemi == 'W' {
        longitude := -longitude;
      }
      fix := fix.(flags := fix.flags + {HasLatLong}, latitude := latitude, longitude := longitude);
      ok := true;
    }

    /** nmea_reader_update_altitude; the units token is passed but not looked at, as in the C code. */
    method UpdateAltitude(env: Env, alt: Token, units: Token) returns (ok: bool)
      requires Layout()
      modifies this
      ensures Layout() && pos == old(pos) && overflow == old(overflow)
      ensures ok == (alt != [])
      ensures State() == Sentences.UpdateAltitude(env, old(State()), alt)
    {
      if alt == [] {
        return false;
      }
      fix := fix.(flags := fix.flags + {HasAltitude}, altitude := Str2Float(env.strtod, alt));
      ok := true;
    }

    /** nmea_reader_update_bearing. */
    method UpdateBearing(env: Env, bearing: Token) returns (ok: bool)
      requires Layout()
      modifies this
      ensures Layout() && pos == old(pos) && overflow == old(overflow)
      ensures ok == (bearing != [])
      ensures State() == Sentences.UpdateBearing(env, old(State()), bearing)
    {
      if bearing == [] {
        return false;
      }
      fix := fix.(flags := fix.flags + {HasBearing}, bearing := Str2Float(env.strtod, bearing));
      ok := true;
    }

    /** nmea_reader_update_speed. */
    method UpdateSpeed(env: Env, speed: Token) returns (ok: bool)
      requires Layout()
      modifies this
      ensures Layout() && pos == old(pos) && overflow == old(overflow)
      ensures ok == (speed != [])
      ensures State() == Sentences.UpdateSpeed(env, old(State()), speed)
    {
      if speed == [] {
        return false;
      }
      fix := fix.(flags := fix.flags + {HasSpeed}, speed := Str2Float(env.strtod, speed));
      ok := true;
    }

    /** nmea_reader_update_accuracy. */
    method UpdateAccuracy(env: Env, acc: Token) returns (ok: bool)
      requires Layout()
      modifies this
      ensures Layout() && pos == old(pos) && overflow == old(overflow)
      ensures ok == (acc != [])
      ensures State() == Sentences.UpdateAccuracy(env, old(State()), acc)
    {
      if acc == [] {
        return false;
      }
      fix := fix.(accuracy := Str2Float(env.strtod, acc));
      if fix.accuracy == NO_ACCURACY {
        return true;
      }
      fix := fix.(flags := fix.flags + {HasAccuracy});
      ok := true;
    }
  
    /** The GGA branch of nmea_reader_parse. */
    method ParseGga(env: Env, toks: seq<Token>)
      requires Layout()
      modifies this
      ensures Layout() && pos == old(pos) && overflow == old(overflow)
      ensures State() == Gga(env, utcDiff, old(State()), toks)
    {
      var tokTime := Get(toks, 1);
      var tokLatitude := Get(toks, 2);
      var tokLatitudeHemi := Get(toks, 3);
      var tokLongitude := Get(toks, 4);
      var tokLongitudeHemi := Get(toks, 5);
      var tokAltitude := Get(toks, 9);
      var tokAltitudeUnits := Get(toks, 10);
      var _ := UpdateTime(env, tokTime);
      var _ := UpdateLatLong(env, tokLatitude, FirstChar(tokLatitudeHemi), tokLongitude, FirstChar(tokLongitudeHemi));
      var _ := UpdateAltitude(env, tokAltitude, tokAltitudeUnits);
    }

    /** The GLL branch: ignored until a date is known. */
    method ParseGll(env: Env, toks: seq<Token>)
      requires Layout()
      modifies this
      ensures Layout() && pos == old(pos) && overflow == old(overflow)
      ensures State() == Gll(env, utcDiff, old(State()), toks)
    {
      var tokFixStatus := Get(toks, 6);
      if FirstChar(tokFixStatus) == 'A' && utcYear >= 0 {
        var _ := UpdateTime(env, Get(toks, 5));
        var _ := UpdateLatLong(env, Get(toks, 1), FirstChar(Get(toks, 2)), Get(toks, 3), FirstChar(Get(toks, 4)));
      }
    }

    /** The GSA branch: accuracy, then the used-in-fix mask rebuilt from PRN slots 3 to 14. */
    method ParseGsa(env: Env, toks: seq<Token>)
      requires Layout()
      modifies this
      ensures Layout() && pos == old(pos) && overflow == old(overflow)
      ensures State() == Gsa(env, old(State()), toks)
    {
      var tokFixStatus := Get(toks, 2);
      if FirstChar(tokFixStatus) != '\0' && FirstChar(tokFixStatus) != '1' {
        var _ := UpdateAccuracy(env, Get(toks, 15));
        RebuildMask(toks);
      }
    }

    /**
     * The PRN loop of the GSA branch: the mask starts from zero, each PRN
     * from 1 to GPS_MAX_SVS in slots 3 to 14 sets its bit, and any positive
     * PRN marks the status changed.
     */
    method RebuildMask(toks: seq<Token>)
      requires Layout()
      modifies this
      ensures Layout() && pos == old(pos) && overflow == old(overflow)
      ensures State() == old(State()).(usedInFixMask := UsedInFixMask(toks), svStatusChanged := old(svStatusChanged) || AnyPrn(toks))
    {
      usedInFixMask := {};
      var i := 3;
      while i <= 14
        invariant 3 <= i <= 15
        invariant Layout() && pos == old(pos) && overflow == old(overflow)
        invariant usedInFixMask == MaskBelow(toks, i)
        invariant svStatusChanged == (old(svStatusChanged) || exists k | 3 <= k < i :: PrnAt(toks, k) > 0)
        invariant State() == old(State()).(usedInFixMask := usedInFixMask, svStatusChanged := svStatusChanged)
      {
        var prn := Str2Int(Get(toks, i));
        MaskBelowStep(toks, i);
        if prn > 0 {
          if prn <= GPS_MAX_SVS {
            usedInFixMask := usedInFixMask + {GPS_MAX_SVS - prn};
          }
          svStatusChanged := true;
        }
        i := i + 1;
      }
      MaskBelowAll(toks);
    }

    /** The GSV branch: the satellite list, up to four records per sentence. */
    method ParseGsv(env: Env, toks: seq<Token>)
      requires Layout()
      modifies this, svList
      ensures Layout() && pos == old(pos) && overflow == old(overflow)
      ensures State() == Gsv(env, old(State()), toks)
    {
      var noSatellites := Str2Int(Get(toks, 3));
      if noSatellites > 0 {
        var sentence := Str2Int(Get(toks, 2));
        var totalSentences := Str2Int(Get(toks, 1));
        if sentence == 1 {
          svStatusChanged := false;
          numSvs := 0;
        }
        AppendSatellites(env, toks, noSatellites);
        if sentence == totalSentences {
          svStatusChanged := true;
        }
      }
    }

    /**
     * The record loop of the GSV branch: records 0 to 3 of the sentence go
     * to the next free slots while the count is below the announced total
     * and, unlike the C loop, below GPS_MAX_SVS (see Findings).
     */
    method AppendSatellites(env: Env, toks: seq<Token>, total: int)
      requires Layout()
      modifies this, svList
      ensures Layout() && pos == old(pos) && overflow == old(overflow)
      ensures State() == GsvAppend(old(State()), SvRecords(env, toks), total, 0)
    {
      var curr := numSvs;
      var i := 0;
      while i < 4 && numSvs < total && numSvs < GPS_MAX_SVS
        invariant 0 <= i <= 4 && curr == numSvs
        invariant Layout() && pos == old(pos) && overflow == old(overflow)
        invariant GsvAppend(State(), SvRecords(env, toks), total, i) == GsvAppend(old(State()), SvRecords(env, toks), total, 0)
        decreases 4 - i
      {
        ghost var before := State();
        var prn := Str2Int(Get(toks, i * 4 + 4));
        var elevation := Str2Float(env.strtod, Get(toks, i * 4 + 5));
        var azimuth := Str2Float(env.strtod, Get(toks, i * 4 + 6));
        var snr := Str2Float(env.strtod, Get(toks, i * 4 + 7));
        ghost var after := Store(before, SvRecords(env, toks)[i]);
        assert SvInfo(prn, elevation, azimuth, snr) == SvRecord(env, toks, i) == SvRecords(env, toks)[i];
        svList[curr] := SvInfo(prn, elevation, azimuth, snr);
        numSvs := numSvs + 1;
        curr := curr + 1;
        i := i + 1;
        assert svList[..] == after.svList;
        assert State() == after;
      }
    }

    /** The RMC branch: only with status 'A'. */
    method ParseRmc(env: Env, toks: seq<Token>)
      requires Layout()
      modifies this
      ensures Layout() && pos == old(pos) && overflow == old(overflow)
      ensures State() == Rmc(env, utcDiff, old(State()), toks)
    {
      var tokTime := Get(toks, 1);
      var tokFixStatus := Get(toks, 2);
      var tokSpeed := Get(toks, 7);
      var tokBearing := Get(toks, 8);
      var tokDate := Get(toks, 9);
      if FirstChar(tokFixStatus) == 'A' {
        var _ := UpdateDate(env, tokDate, tokTime);
        var _ := UpdateLatLong(env, Get(toks, 3), FirstChar(Get(toks, 4)), Get(toks, 5), FirstChar(Get(toks, 6)));
        var _ := UpdateBearing(env, tokBearing);
        var _ := UpdateSpeed(env, tokSpeed);
      }
    }

    /** The VTG branch: only with a mode indicator other than 'N'. */
    method ParseVtg(env: Env, toks: seq<Token>)
      requires Layout()
      modifies this
      ensures Layout() && pos == old(pos) && overflow == old(overflow)
      ensures State() == Vtg(env, old(State()), toks)
    {
      var tokFixStatus := Get(toks, 9);
      if FirstChar(tokFixStatus) != '\0' && FirstChar(tokFixStatus) != 'N' {
        var _ := UpdateBearing(env, Get(toks, 1));
        var _ := UpdateSpeed(env, Get(toks, 5));
      }
    }

    /** The ZDA branch: date and time only together. */
    method ParseZda(env: Env, toks: seq<Token>)
      requires Layout()
      modifies this
      ensures Layout() && pos == old(pos) && overflow == old(overflow)
      ensures State() == Zda(env, utcDiff, old(State()), toks)
    {
      var tokYear := Get(toks, 4);
      var tokTime := Get(toks, 1);
      if FirstChar(tokYear) != '\0' && FirstChar(tokTime) != '\0' {
        var _ := UpdateCDate(Get(toks, 2), Get(toks, 3), tokYear);
        var _ := UpdateTime(env, tokTime);
      }
    }

    /** nmea_reader_parse on the buffered line. */
    method Parse(env: Env)
      requires Layout()
      modifies this, svList
      ensures Layout() && pos == old(pos) && overflow == old(overflow)
      ensures State() == ParseLine(env, utcDiff, old(State()), buffer[..pos])
    {
      if pos < 9 {
        return;
      }
      var toks := Tokenize(buffer[..pos]);
      var id := Get(toks, 0);
      if |id| < 5 {
        return;
      }
      var kind := TypeOf(id);
      match kind
      case GGA => ParseGga(env, toks);
      case GLL => ParseGll(env, toks);
      case GSA => ParseGsa(env, toks);
      case GSV => ParseGsv(env, toks);
      case RMC => ParseRmc(env, toks);
      case VTG => ParseVtg(env, toks);
      case ZDA => ParseZda(env, toks);
      case Unknown =>
    }

    /**
     * nmea_reader_addc: one received byte through the framer; a completed
     * line is parsed, and the reader ends idle or discarding.
     */
    method AddChar(env: Env, c: char)
      requires Valid()
      modifies this, buffer, svList
      ensures Valid()
      ensures var step := Framer.Step(old(Frame()), c);
        Frame() == step.next &&
        State() == (if step.complete.Some? then ParseLine(env, utcDiff, old(State()), step.complete.value) else old(State()))
    {
      if overflow {
        overflow := c != '\n';
        return;
      }
      if pos >= buffer.Length - 1 {
        overflow := true;
        pos := 0;
        return;
      }
      buffer[pos] := c;
      pos := pos + 1;
      assert buffer[..pos] == old(buffer[..pos]) + [c];
      if c == '\n' {
        Parse(env);
        pos := 0;
      }
    }
  }

  /** The mask of GSA PRN slots 3 up to (not including) n. */
  ghost function MaskBelow(toks: seq<Token>, n: int): set<int> {
    set k | 3 <= k < n && 1 <= PrnAt(toks, k) <= GPS_MAX_SVS :: GPS_MAX_SVS - PrnAt(toks, k)
  }

  lemma MaskBelowStep(toks: seq<Token>, i: int)
    ensures MaskBelow(toks, i + 1) ==
      MaskBelow(toks, i) + (if 3 <= i && 1 <= PrnAt(toks, i) <= GPS_MAX_SVS then {GPS_MAX_SVS - PrnAt(toks, i)} else {})
  {
  }

  lemma MaskBelowAll(toks: seq<Token>)
    ensures MaskBelow(toks, 15) == UsedInFixMask(toks)
  {
  }
}
