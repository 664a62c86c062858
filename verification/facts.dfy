/**
 * What the sentence parser guarantees, stated over the functions of
 * module Sentences: which fix flags each sentence type may raise, which
 * parts of the reader each leaves alone, how a GSV group accumulates the
 * satellite list, and that a framed sentence is dispatched on its own fields.
 */
module SentenceFacts {

  import opened Gps
  import opened Decimal
  import opened Tokenizer
  import opened Sentences

  /** The sentence type ParseLine dispatches on; Unknown also for a line it discards. */
  function LineType(line: seq<char>): SentenceType {
    if |line| < 9 || |Get(Tokens(line), 0)| < 5 then Unknown else TypeOf(Get(Tokens(line), 0))
  }

  lemma ParseLineDispatches(env: Env, utcDiff: int, s: ReaderState, line: seq<char>)
    requires WellFormed(s)
    ensures ParseLine(env, utcDiff, s, line) == Dispatch(env, utcDiff, s, LineType(line), Tokens(line))
  {
  }

  /** The fix flags each sentence type can raise. */
  function FlagsOf(t: SentenceType): set<LocationFlag> {
    match t
    case GGA => {HasLatLong, HasAltitude}
    case GLL => {HasLatLong}
    case GSA => {HasAccuracy}
    case RMC => {HasLatLong, HasBearing, HasSpeed}
    case VTG => {HasBearing, HasSpeed}
    case _ => {}
  }

  /** Parsing never clears a fix flag, and raises only the flags of the sentence's type. */
  lemma ParseLineFlags(env: Env, utcDiff: int, s: ReaderState, line: seq<char>)
    requires WellFormed(s)
    ensures var r := ParseLine(env, utcDiff, s, line);
      s.fix.flags <= r.fix.flags <= s.fix.flags + FlagsOf(LineType(line))
  {
    ParseLineDispatches(env, utcDiff, s, line);
    DispatchFlags(env, utcDiff, s, LineType(line), Tokens(line));
  }

  lemma DispatchFlags(env: Env, utcDiff: int, s: ReaderState, t: SentenceType, toks: seq<Token>)
    requires WellFormed(s)
    ensures var r := Dispatch(env, utcDiff, s, t, toks);
      s.fix.flags <= r.fix.flags <= s.fix.flags + FlagsOf(t)
  {
    match t
    case GSV => GsvFrame(env, s, toks);
    case GSA => GsaFrame(env, s, toks);
    case VTG => VtgFrame(env, s, toks);
    case GGA => GgaFrame(env, utcDiff, s, toks);
    case GLL => GllFrame(env, utcDiff, s, toks);
    case RMC => RmcFrame(env, utcDiff, s, toks);
    case ZDA => ZdaFrame(env, utcDiff, s, toks);
    case Unknown =>
  }

  /**
   * The parts of the reader a sentence leaves alone: only GSV touches the
   * satellite list, only GSA and GSV the mask and status flag, GSA, GSV and
   * VTG never the date, and GSV never the fix.
   */
  lemma ParseLineFrame(env: Env, utcDiff: int, s: ReaderState, line: seq<char>)
    requires WellFormed(s)
    ensures var r := ParseLine(env, utcDiff, s, line);
      var t := LineType(line);
      (t != GSV ==> r.svList == s.svList && r.numSvs == s.numSvs) &&
      (t != GSV && t != GSA ==> r.usedInFixMask == s.usedInFixMask && r.svStatusChanged == s.svStatusChanged) &&
      (t in {GSA, GSV, VTG} ==> r.utcYear == s.utcYear && r.utcMon == s.utcMon && r.utcDay == s.utcDay) &&
      (t == GSV ==> r.fix == s.fix)
  {
    ParseLineDispatches(env, utcDiff, s, line);
    DispatchFrame(env, utcDiff, s, LineType(line), Tokens(line));
  }

  lemma DispatchFrame(env: Env, utcDiff: int, s: ReaderState, t: SentenceType, toks: seq<Token>)
    requires WellFormed(s)
    ensures var r := Dispatch(env, utcDiff, s, t, toks);
      (t != GSV ==> r.svList == s.svList && r.numSvs == s.numSvs) &&
      (t != GSV && t != GSA ==> r.usedInFixMask == s.usedInFixMask && r.svStatusChanged == s.svStatusChanged) &&
      (t in {GSA, GSV, VTG} ==> r.utcYear == s.utcYear && r.utcMon == s.utcMon && r.utcDay == s.utcDay) &&
      (t == GSV ==> r.fix == s.fix)
  {
    match t
    case GSV => GsvFrame(env, s, toks);
    case GSA => GsaFrame(env, s, toks);
    case VTG => VtgFrame(env, s, toks);
    case GGA => GgaFrame(env, utcDiff, s, toks);
    case GLL => GllFrame(env, utcDiff, s, toks);
    case RMC => RmcFrame(env, utcDiff, s, toks);
    case ZDA => ZdaFrame(env, utcDiff, s, toks);
    case Unknown =>
  }

  /** GSV touches only the satellite list, its count and the status flag. */
  lemma GsvFrame(env: Env, s: ReaderState, toks: seq<Token>)
    requires WellFormed(s)
    ensures var r := Gsv(env, s, toks);
      r == s.(svList := r.svList, numSvs := r.numSvs, svStatusChanged := r.svStatusChanged)
  {
    var total := IntValue(Get(toks, 3));
    if total > 0 {
      var s1 := if IntValue(Get(toks, 2)) == 1 then s.(svStatusChanged := false, numSvs := 0) else s;
      GsvAppendFrame(s1, SvRecords(env, toks), total, 0);
    }
  }

  /** GSA touches only the fix, the mask and the status flag. */
  lemma GsaFrame(env: Env, s: ReaderState, toks: seq<Token>)
    ensures var r := Gsa(env, s, toks);
      r == s.(fix := r.fix, usedInFixMask := r.usedInFixMask, svStatusChanged := r.svStatusChanged) &&
      s.fix.flags <= r.fix.flags <= s.fix.flags + FlagsOf(GSA)
  {
  }

  /** VTG touches only the fix. */
  lemma VtgFrame(env: Env, s: ReaderState, toks: seq<Token>)
    ensures var r := Vtg(env, s, toks);
      r == s.(fix := r.fix) && s.fix.flags <= r.fix.flags <= s.fix.flags + FlagsOf(VTG)
  {
  }

  /** GGA, GLL, RMC and ZDA touch only the date and the fix. */
  lemma GgaFrame(env: Env, utcDiff: int, s: ReaderState, toks: seq<Token>)
    ensures var r := Gga(env, utcDiff, s, toks);
      r == s.(utcYear := r.utcYear, utcMon := r.utcMon, utcDay := r.utcDay, fix := r.fix) &&
      s.fix.flags <= r.fix.flags <= s.fix.flags + FlagsOf(GGA)
  {
  }

  lemma GllFrame(env: Env, utcDiff: int, s: ReaderState, toks: seq<Token>)
    ensures var r := Gll(env, utcDiff, s, toks);
      r == s.(utcYear := r.utcYear, utcMon := r.utcMon, utcDay := r.utcDay, fix := r.fix) &&
      s.fix.flags <= r.fix.flags <= s.fix.flags + FlagsOf(GLL)
  {
  }

  lemma RmcFrame(env: Env, utcDiff: int, s: ReaderState, toks: seq<Token>)
    ensures var r := Rmc(env, utcDiff, s, toks);
      r == s.(utcYear := r.utcYear, utcMon := r.utcMon, utcDay := r.utcDay, fix := r.fix) &&
      s.fix.flags <= r.fix.flags <= s.fix.flags + FlagsOf(RMC)
  {
  }

  lemma ZdaFrame(env: Env, utcDiff: int, s: ReaderState, toks: seq<Token>)
    ensures var r := Zda(env, utcDiff, s, toks);
      r == s.(utcYear := r.utcYear, utcMon := r.utcMon, utcDay := r.utcDay, fix := r.fix) &&
      s.fix.flags <= r.fix.flags <= s.fix.flags + FlagsOf(ZDA)
  {
  }

  /** A line too short, or whose first field is too short, or of a type not handled, changes nothing. */
  lemma ParseLineIgnores(env: Env, utcDiff: int, s: ReaderState, line: seq<char>)
    requires WellFormed(s) && LineType(line) == Unknown
    ensures ParseLine(env, utcDiff, s, line) == s
  {
  }

  /** Sentence by sentence, a run of GSV sentences (token lists) applied in order. */
  function GsvRun(env: Env, s: ReaderState, msgs: seq<seq<Token>>): (r: ReaderState)
    requires WellFormed(s)
    ensures WellFormed(r)
  {
    if msgs == [] then s else Gsv(env, GsvRun(env, s, msgs[..|msgs| - 1]), msgs[|msgs| - 1])
  }

  /**
   * The first k sentences of a GSV group: sentence numbers 1, 2, ..., k,
   * all announcing `count` sentences and `total` satellites.
   */
  predicate GroupPrefix(msgs: seq<seq<Token>>, count: int, total: int) {
    forall k :: 0 <= k < |msgs| ==>
      IntValue(Get(msgs[k], 2)) == k + 1 && IntValue(Get(msgs[k], 1)) == count && IntValue(Get(msgs[k], 3)) == total
  }

  /**
   * A GSV group read from its first sentence on rebuilds the satellite list
   * whatever it held before: after k sentences it holds the first
   * min(4k, total, GPS_MAX_SVS) announced satellites, slot j from record
   * j % 4 of sentence j / 4, and the status is marked changed exactly once
   * the last announced sentence has arrived. The fix and date are untouched.
   */
  lemma {:induction false} GsvGroupAccumulates(env: Env, s: ReaderState, msgs: seq<seq<Token>>, count: int, total: int)
    requires WellFormed(s) && |msgs| > 0 && total > 0
    requires GroupPrefix(msgs, count, total)
    ensures var r := GsvRun(env, s, msgs);
      r.numSvs == Min(4 * |msgs|, Min(total, GPS_MAX_SVS)) &&
      (forall j :: 0 <= j < r.numSvs ==> r.svList[j] == SvRecords(env, msgs[j / 4])[j % 4]) &&
      r.svStatusChanged == (1 <= count <= |msgs|) &&
      r.fix == s.fix && r.utcYear == s.utcYear && r.utcMon == s.utcMon && r.utcDay == s.utcDay &&
      r.usedInFixMask == s.usedInFixMask
  {
    var n := |msgs| - 1;
    var prev := GsvRun(env, s, msgs[..n]);
    var r := GsvRun(env, s, msgs);
    assert r == Gsv(env, prev, msgs[n]);
    if n > 0 {
      assert GroupPrefix(msgs[..n], count, total) by {
        forall k | 0 <= k < n
          ensures IntValue(Get(msgs[..n][k], 2)) == k + 1
          ensures IntValue(Get(msgs[..n][k], 1)) == count && IntValue(Get(msgs[..n][k], 3)) == total
        {
          assert msgs[..n][k] == msgs[k];
        }
      }
      GsvGroupAccumulates(env, s, msgs[..n], count, total);
    }
    GsvStep(env, prev, msgs[n], n, count, total);
    SlotsAfterStep(env, prev, r, msgs, n);
  }

  /** The slots of a group after sentence n + 1, from those after sentence n and that sentence's records. */
  lemma SlotsAfterStep(env: Env, prev: ReaderState, r: ReaderState, msgs: seq<seq<Token>>, n: nat)
    requires n < |msgs| && WellFormed(prev) && WellFormed(r)
    requires r.numSvs <= 4 * n + 4 && (n > 0 ==> prev.numSvs <= 4 * n)
    requires forall j :: 0 <= j < 4 * n && j < r.numSvs ==> r.svList[j] == prev.svList[j]
    requires forall j :: 4 * n <= j < r.numSvs ==> r.svList[j] == SvRecords(env, msgs[n])[j - 4 * n]
    requires n > 0 ==> forall j :: 0 <= j < prev.numSvs ==> prev.svList[j] == SvRecords(env, msgs[..n][j / 4])[j % 4]
    requires n > 0 ==> r.numSvs <= 4 * n ==> r.numSvs <= prev.numSvs
    requires n > 0 ==> 4 * n < r.numSvs ==> 4 * n <= prev.numSvs
    ensures forall j :: 0 <= j < r.numSvs ==> r.svList[j] == SvRecords(env, msgs[j / 4])[j % 4]
  {
    forall j | 0 <= j < r.numSvs
      ensures r.svList[j] == SvRecords(env, msgs[j / 4])[j % 4]
    {
      if j < 4 * n {
        assert j < prev.numSvs;
        assert msgs[..n][j / 4] == msgs[j / 4];
      } else {
        DivFour(j, n);
      }
    }
  }

  /**
   * One GSV sentence of a group, number n + 1, after the first n: it fills
   * slots 4n up to min(4n + 4, total, GPS_MAX_SVS) with its records.
   */
  lemma GsvStep(env: Env, prev: ReaderState, toks: seq<Token>, n: nat, count: int, total: int)
    requires WellFormed(prev) && total > 0
    requires IntValue(Get(toks, 2)) == n + 1 && IntValue(Get(toks, 1)) == count && IntValue(Get(toks, 3)) == total
    requires n > 0 ==> prev.numSvs == Min(4 * n, Min(total, GPS_MAX_SVS))
    ensures var r := Gsv(env, prev, toks);
      r.numSvs == Min(4 * n + 4, Min(total, GPS_MAX_SVS)) &&
      (forall j :: 0 <= j < 4 * n && j < r.numSvs ==> r.svList[j] == prev.svList[j]) &&
      (forall j :: 4 * n <= j < r.numSvs ==> r.svList[j] == SvRecords(env, toks)[j - 4 * n]) &&
      r.svStatusChanged == ((n > 0 && prev.svStatusChanged) || n + 1 == count) &&
      r == prev.(svList := r.svList, numSvs := r.numSvs, svStatusChanged := r.svStatusChanged)
  {
    var s1 := if n + 1 == 1 then prev.(svStatusChanged := false, numSvs := 0) else prev;
    AppendAfter(s1, SvRecords(env, toks), total, n);
  }

  /** The append loop of sentence n + 1 of a group, once the first n have filled their slots. */
  lemma AppendAfter(s1: ReaderState, recs: seq<SvInfo>, total: int, n: nat)
    requires WellFormed(s1) && |recs| == 4 && total > 0
    requires s1.numSvs == Min(4 * n, Min(total, GPS_MAX_SVS))
    ensures var s2 := GsvAppend(s1, recs, total, 0);
      s2.numSvs == Min(4 * n + 4, Min(total, GPS_MAX_SVS)) &&
      (forall j :: 0 <= j < 4 * n && j < s2.numSvs ==> s2.svList[j] == s1.svList[j]) &&
      (forall j :: 4 * n <= j < s2.numSvs ==> s2.svList[j] == recs[j - 4 * n]) &&
      s2 == s1.(svList := s2.svList, numSvs := s2.numSvs)
  {
    var s2 := GsvAppend(s1, recs, total, 0);
    GsvAppendCount(s1, recs, total, 0);
    GsvAppendFrame(s1, recs, total, 0);
    GsvAppendKeeps(s1, recs, total, 0);
    GsvAppendRecords(s1, recs, total, 0);
    forall j | 4 * n <= j < s2.numSvs
      ensures s2.svList[j] == recs[j - 4 * n]
    {
      assert s1.numSvs == 4 * n;
    }
  }

  lemma DivFour(j: int, n: int)
    requires 4 * n <= j < 4 * n + 4
    ensures j / 4 == n && j % 4 == j - 4 * n
  {
  }

  lemma JoinStartsWithFirst(fs: seq<Token>)
    requires fs != []
    ensures |Join(fs)| >= |fs[0]|
  {
  }

  /**
   * A framed sentence whose first field names its type is dispatched on
   * that type with the tokens the tokenizer cuts from it: its non-empty
   * fields, at most MAX_NMEA_TOKENS of them.
   */
  lemma ParseFramedSentence(env: Env, utcDiff: int, s: ReaderState, fs: seq<Token>, sum: seq<char>)
    requires WellFormed(s)
    requires forall i :: 0 <= i < |fs| ==> ',' !in fs[i]
    requires |sum| == 2 && fs != [] && |fs[0]| >= 5
    ensures ParseLine(env, utcDiff, s, Sentence(fs, sum)) == Dispatch(env, utcDiff, s, TypeOf(fs[0]), Cap(NonEmpty(fs)))
  {
    TokensOfSentence(fs, sum);
    JoinStartsWithFirst(fs);
    assert NonEmpty(fs) == [fs[0]] + NonEmpty(fs[1..]);
    assert Get(Tokens(Sentence(fs, sum)), 0) == fs[0];
  }

  /**
   * Blank fields shift the later ones: in a ten-field VTG sentence
   * (course true, T, course magnetic, M, knots, N, km/h, K, mode) whose
   * magnetic course is blank, the mode indicator moves from index 9 to 8,
   * so the sentence reads as having none and changes nothing (compare
   * VtgComplete).
   */
  lemma VtgBlankFieldShifts(env: Env, utcDiff: int, s: ReaderState, fs: seq<Token>, sum: seq<char>)
    requires WellFormed(s) && |sum| == 2
    requires |fs| == 10 && |fs[0]| >= 5 && TypeOf(fs[0]) == VTG
    requires forall i :: 0 <= i < |fs| ==> ',' !in fs[i]
    requires fs[3] == [] && forall i :: 0 <= i < |fs| && i != 3 ==> fs[i] != []
    ensures ParseLine(env, utcDiff, s, Sentence(fs, sum)) == s
  {
    ParseFramedSentence(env, utcDiff, s, fs, sum);
    var toks := fs[..3] + fs[4..];
    assert forall i :: 0 <= i < |fs| && i != 3 ==> WellFormedField(fs[i]);
    DropsBlankField(fs, 3);
    assert |toks| == 9 && Cap(toks) == toks;
    assert Get(toks, 9) == [];
  }

  /** One blank field among non-empty ones is dropped and the fields after it move down. */
  lemma {:induction false} DropsBlankField(fs: seq<Token>, k: nat)
    requires k < |fs| && fs[k] == []
    requires forall i :: 0 <= i < |fs| && i != k ==> WellFormedField(fs[i])
    ensures NonEmpty(fs) == fs[..k] + fs[k + 1..]
    decreases k
  {
    var rest := fs[1..];
    assert NonEmpty(fs) == (if fs[0] == [] then [] else [fs[0]]) + NonEmpty(rest);
    if k == 0 {
      assert forall i :: 0 <= i < |rest| ==> WellFormedField(rest[i]) by {
        forall i | 0 <= i < |rest| ensures WellFormedField(rest[i]) {
          assert rest[i] == fs[i + 1];
        }
      }
      NonEmptyOfWellFormed(rest);
    } else {
      assert forall i :: 0 <= i < |rest| && i != k - 1 ==> WellFormedField(rest[i]) by {
        forall i | 0 <= i < |rest| && i != k - 1 ensures WellFormedField(rest[i]) {
          assert rest[i] == fs[i + 1];
        }
      }
      DropsBlankField(rest, k - 1);
      assert WellFormedField(fs[0]);
      assert [fs[0]] + (rest[..k - 1] + rest[k..]) == fs[..k] + fs[k + 1..];
    }
  }

  /** The same VTG sentence with every field present: bearing and speed are taken from indices 1 and 5. */
  lemma VtgComplete(env: Env, utcDiff: int, s: ReaderState, fs: seq<Token>, sum: seq<char>)
    requires WellFormed(s) && |sum| == 2
    requires |fs| == 10 && |fs[0]| >= 5 && TypeOf(fs[0]) == VTG
    requires forall i :: 0 <= i < |fs| ==> WellFormedField(fs[i])
    requires FirstChar(fs[9]) != '\0' && FirstChar(fs[9]) != 'N'
    ensures var r := ParseLine(env, utcDiff, s, Sentence(fs, sum));
      s.fix.flags + {HasBearing, HasSpeed} == r.fix.flags &&
      r.fix.bearing == Str2Float(env.strtod, fs[1]) && r.fix.speed == Str2Float(env.strtod, fs[5])
  {
    ParseFramedSentence(env, utcDiff, s, fs, sum);
    NonEmptyOfWellFormed(fs);
    assert Cap(fs) == fs;
  }

  lemma {:induction false} NonEmptyAppend(a: seq<Token>, b: seq<Token>)
    ensures NonEmpty(a + b) == NonEmpty(a) + NonEmpty(b)
    decreases |a|
  {
    if a != [] {
      NonEmptyAppend(a[1..], b);
      assert (a + b)[1..] == a[1..] + b;
    } else {
      assert a + b == b;
    }
  }

  /**
   * A time update with a usable token always leaves a known date: the one
   * cached, or today's from the clock when none was, and stamps the fix
   * with mktime of that date and the token's hour, minute and whole
   * seconds, shifted by the UTC offset, in milliseconds.
   */
  lemma UpdateTimeUsesDate(env: Env, utcDiff: int, s: ReaderState, tok: Token)
    requires |tok| >= 6
    ensures var r := UpdateTime(env, utcDiff, s, tok);
      var d := if s.utcYear < 0 then env.today else Date(s.utcYear, s.utcMon, s.utcDay);
      Date(r.utcYear, r.utcMon, r.utcDay) == d &&
      r.fix.timestamp % 1000 == 0 &&
      r.fix.timestamp / 1000 - utcDiff ==
        env.mktime(CivilTime(d.year, d.mon, d.day, IntValue(tok[..2]), IntValue(tok[2..4]), Trunc(Str2Float(env.strtod, tok[4..])))) &&
      r == s.(utcYear := r.utcYear, utcMon := r.utcMon, utcDay := r.utcDay, fix := s.fix.(timestamp := r.fix.timestamp))
  {
  }

  /** GLL is ignored until a date is known: it never seeds the date from the clock. */
  lemma GllWaitsForDate(env: Env, utcDiff: int, s: ReaderState, line: seq<char>)
    requires WellFormed(s) && s.utcYear < 0 && LineType(line) == GLL
    ensures ParseLine(env, utcDiff, s, line) == s
  {
  }

  /**
   * RMC with status 'A' and a well-formed date stores the date even when its
   * time field is too short to use; the timestamp is then left alone.
   */
  lemma RmcDateWithoutTime(env: Env, utcDiff: int, s: ReaderState, toks: seq<Token>)
    requires FirstChar(Get(toks, 2)) == 'A'
    requires var date := Get(toks, 9); |date| == 6 && AllDigits(date)
    requires |Get(toks, 1)| < 6
    ensures var r := Rmc(env, utcDiff, s, toks);
      var date := Get(toks, 9);
      r.utcDay == DigitsValue(date[..2]) && r.utcMon == DigitsValue(date[2..4]) &&
      r.utcYear == DigitsValue(date[4..]) + 2000 && r.fix.timestamp == s.fix.timestamp
  {
    var date := Get(toks, 9);
    assert AllDigits(date[..2]) && AllDigits(date[2..4]) && AllDigits(date[4..6]);
    assert date[4..] == date[4..6];
  }

  /**
   * ZDA writes the date only together with the time: without either field
   * it changes nothing, and with a full date whose year decodes, that date
   * is the one the time is stamped with.
   */
  lemma ZdaDateAndTimeTogether(env: Env, utcDiff: int, s: ReaderState, toks: seq<Token>)
    ensures var r := Zda(env, utcDiff, s, toks);
      FirstChar(Get(toks, 4)) == '\0' || FirstChar(Get(toks, 1)) == '\0' ==> r == s
    ensures var r := Zda(env, utcDiff, s, toks);
      var day, mon, year, time := Get(toks, 2), Get(toks, 3), Get(toks, 4), Get(toks, 1);
      FirstChar(year) != '\0' && FirstChar(time) != '\0' &&
      |day| >= 2 && |mon| >= 2 && |year| >= 4 && IntValue(year[..4]) >= 0 ==>
        r.utcYear == IntValue(year[..4]) && r.utcMon == IntValue(mon[..2]) && r.utcDay == IntValue(day[..2]) &&
        r == UpdateTime(env, utcDiff, s.(utcYear := r.utcYear, utcMon := r.utcMon, utcDay := r.utcDay), time)
  {
  }

  /**
   * For a non-negative ddmm.mmmm value, convert_from_hhmm splits it into
   * whole degrees, value / 100 rounded down, and minutes below 100, and
   * gives degrees plus minutes / 60.
   */
  lemma ConvertFromHhmmSplits(strtod: seq<char> -> real, tok: Token)
    requires |tok| < 16 && strtod(tok) >= 0.0
    ensures var val := strtod(tok);
      var degrees := val.Floor / 100;
      var minutes := val - (degrees * 100) as real;
      0.0 <= minutes < 100.0 &&
      ConvertFromHhmm(strtod, tok) == degrees as real + minutes / 60.0
  {
    var val := strtod(tok);
    var f := val.Floor;
    var q := f / 100;
    assert q as real * 100.0 <= f as real < q as real * 100.0 + 100.0;
    assert q as real <= f as real / 100.0 < q as real + 1.0;
    assert Trunc(f as real / 100.0) == q;
  }

  /** The GSA mask has bit 32 - prn exactly for the PRNs 1 to 32 listed in slots 3 to 14. */
  lemma GsaMaskMembers(toks: seq<Token>, prn: int)
    requires 1 <= prn <= 32
    ensures 32 - prn in UsedInFixMask(toks) <==> exists i :: 3 <= i <= 14 && PrnAt(toks, i) == prn
  {
    if exists i :: 3 <= i <= 14 && PrnAt(toks, i) == prn {
      var i :| 3 <= i <= 14 && PrnAt(toks, i) == prn;
      assert 32 - PrnAt(toks, i) in UsedInFixMask(toks);
    }
  }

  /** The accuracy is always stored, but marked valid only when it is not the 99.99 placeholder. */
  lemma AccuracyPlaceholder(env: Env, s: ReaderState, tok: Token)
    requires tok != [] && HasAccuracy !in s.fix.flags
    ensures var r := UpdateAccuracy(env, s, tok);
      r.fix.accuracy == Str2Float(env.strtod, tok) &&
      (HasAccuracy in r.fix.flags <==> Str2Float(env.strtod, tok) != NO_ACCURACY)
  {
  }

  /**
   * The status guards of the sentence handlers: an RMC without status 'A',
   * a GLL without status 'A' or before any date is known, a VTG whose mode
   * is absent or 'N', a GSA whose fix mode is absent or '1', and a GSV that
   * announces no satellites leave the reader as it was.
   */
  lemma GuardedSentencesSkip(env: Env, utcDiff: int, s: ReaderState, toks: seq<Token>)
    requires WellFormed(s)
    ensures FirstChar(Get(toks, 2)) != 'A' ==> Rmc(env, utcDiff, s, toks) == s
    ensures FirstChar(Get(toks, 6)) != 'A' || s.utcYear < 0 ==> Gll(env, utcDiff, s, toks) == s
    ensures FirstChar(Get(toks, 9)) == '\0' || FirstChar(Get(toks, 9)) == 'N' ==> Vtg(env, s, toks) == s
    ensures FirstChar(Get(toks, 2)) == '\0' || FirstChar(Get(toks, 2)) == '1' ==> Gsa(env, s, toks) == s
    ensures IntValue(Get(toks, 3)) <= 0 ==> Gsv(env, s, toks) == s
  {
  }

  /**
   * update_latlong is all or nothing: with either coordinate token shorter
   * than 6 characters nothing changes; otherwise both coordinates are
   * written, negated exactly for 'S' and 'W', and the fix gains HasLatLong.
   */
  lemma LatLongAllOrNothing(env: Env, s: ReaderState, lat: Token, latHemi: char, lon: Token, lonHemi: char)
    ensures var r := UpdateLatLong(env, s, lat, latHemi, lon, lonHemi);
      (|lat| < 6 || |lon| < 6 ==> r == s) &&
      (|lat| >= 6 && |lon| >= 6 ==>
        HasLatLong in r.fix.flags &&
        r.fix.latitude == (if latHemi == 'S' then -ConvertFromHhmm(env.strtod, lat) else ConvertFromHhmm(env.strtod, lat)) &&
        r.fix.longitude == (if lonHemi == 'W' then -ConvertFromHhmm(env.strtod, lon) else ConvertFromHhmm(env.strtod, lon)))
  {
  }

  /**
   * update_date checks the day and month but not the year: a two-digit
   * year that does not decode gives -1 + 2000, and the date 1999 is stored.
   */
  lemma UpdateDateYearUnchecked(env: Env, utcDiff: int, s: ReaderState, date: Token, time: Token)
    requires |date| == 6 && AllDigits(date[..4]) && !AllDigits(date[4..])
    ensures var r := UpdateDate(env, utcDiff, s, date, time);
      r.utcYear == 1999 && r.utcDay == DigitsValue(date[..2]) && r.utcMon == DigitsValue(date[2..4])
  {
    assert date[4..6] == date[4..];
    assert AllDigits(date[..2]) && AllDigits(date[2..4]) by {
      assert forall i :: 0 <= i < 2 ==> date[..2][i] == date[..4][i] && date[2..4][i] == date[..4][i + 2];
    }
  }

  /**
   * str2float's 16-byte scratch buffer: a field of 16 characters or more is
   * not converted at all; it reads as 0.0, and the update helpers still
   * store it and mark it valid.
   */
  lemma OverlongFieldReadsZero(env: Env, s: ReaderState, tok: Token)
    requires |tok| >= 16
    ensures UpdateAltitude(env, s, tok).fix.altitude == 0.0 && HasAltitude in UpdateAltitude(env, s, tok).fix.flags
    ensures UpdateBearing(env, s, tok).fix.bearing == 0.0 && HasBearing in UpdateBearing(env, s, tok).fix.flags
    ensures UpdateSpeed(env, s, tok).fix.speed == 0.0 && HasSpeed in UpdateSpeed(env, s, tok).fix.flags
    ensures UpdateAccuracy(env, s, tok).fix.accuracy == 0.0 && HasAccuracy in UpdateAccuracy(env, s, tok).fix.flags
  {
  }
}
