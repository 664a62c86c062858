/**
 * Two places where gps/gps.c, as written, leaves the range of what it
 * stores: the GSV append loop and the GSA fix-mask shift. Each is modelled
 * here as written, with an input that shows the discrepancy, and related to
 * the corrected definition in Sentences that the rest of the model uses.
 */
module Findings {

  import opened Gps
  import opened Decimal
  import opened Tokenizer
  import opened Sentences

  // ---- GSV: the append loop has no bound on the satellite list ----

  /**
   * The slots the GSV loop of nmea_reader_parse writes, as written: from
   * record i on, slot numSvs while fewer than 4 records were taken and the
   * count is below the declared total. Nothing compares the slot with
   * GPS_MAX_SVS, the length of sv_list.
   */
  function GsvSlotsAsWritten(numSvs: int, total: int, i: nat): (slots: seq<int>)
    requires i <= 4
    ensures |slots| <= 4 - i
    ensures forall k :: 0 <= k < |slots| ==> slots[k] == numSvs + k && slots[k] < total
    decreases 4 - i
  {
    if i < 4 && numSvs < total then [numSvs] + GsvSlotsAsWritten(numSvs + 1, total, i + 1)
    else []
  }

  /**
   * A group announcing 36 satellites: after its first eight sentences the
   * list holds 32, and the ninth sentence, as written, writes slots 32 to
   * 35, all past the end of sv_list.
   */
  lemma GsvOverrunAsWritten()
    ensures GsvSlotsAsWritten(32, 36, 0) == [32, 33, 34, 35]
    ensures forall k :: 0 <= k < 4 ==> GsvSlotsAsWritten(32, 36, 0)[k] >= GPS_MAX_SVS
  {
    assert GsvSlotsAsWritten(35, 36, 3) == [35];
    assert GsvSlotsAsWritten(34, 36, 2) == [34, 35];
    assert GsvSlotsAsWritten(33, 36, 1) == [33, 34, 35];
  }

  /**
   * The overrun needs a declared total above GPS_MAX_SVS: otherwise every
   * slot written as written lies inside the list.
   */
  lemma GsvSlotsInsideWhenTotalFits(numSvs: int, total: int, i: nat)
    requires i <= 4 && 0 <= numSvs && total <= GPS_MAX_SVS
    ensures forall k :: 0 <= k < |GsvSlotsAsWritten(numSvs, total, i)| ==>
      0 <= GsvSlotsAsWritten(numSvs, total, i)[k] < GPS_MAX_SVS
  {
  }

  /**
   * Whenever the declared total fits, the corrected loop
   * (Sentences.GsvAppend) takes exactly as many records as the loop as
   * written; beyond it, it stops at GPS_MAX_SVS and so keeps the list well
   * formed.
   */
  lemma {:induction false} GsvAppendAgreesWhenTotalFits(s: ReaderState, recs: seq<SvInfo>, total: int, i: nat)
    requires WellFormed(s) && |recs| == 4 && i <= 4 && total <= GPS_MAX_SVS
    ensures GsvAppend(s, recs, total, i).numSvs == s.numSvs + |GsvSlotsAsWritten(s.numSvs, total, i)|
    decreases 4 - i
  {
    if i < 4 && s.numSvs < total {
      GsvAppendAgreesWhenTotalFits(Store(s, recs[i]), recs, total, i + 1);
    }
  }

  // ---- GSA: 1ul << (32 - prn) for a PRN above 32 ----

  /**
   * The bit positions the GSA loop of nmea_reader_parse shifts in, as
   * written: 32 - prn for every positive PRN in slots 3 to 14. A PRN above
   * 32 gives a negative shift count, which C leaves undefined.
   */
  function UsedInFixMaskAsWritten(toks: seq<Token>): (shifts: set<int>)
    ensures forall b :: b in shifts ==> b < 32
  {
    set i | 3 <= i <= 14 && PrnAt(toks, i) > 0 :: 32 - PrnAt(toks, i)
  }

  /** A GSA sentence whose first used-satellite slot names PRN 33 (an SBAS satellite). */
  const GSA_PRN_33: seq<Token> := ["GPGSA", "A", "3", "33"]

  /** As written, PRN 33 asks for a shift by -1; the corrected mask leaves it out. */
  lemma GsaShiftAsWritten()
    ensures -1 in UsedInFixMaskAsWritten(GSA_PRN_33)
    ensures UsedInFixMask(GSA_PRN_33) == {}
  {
    assert Get(GSA_PRN_33, 3) == "33";
    assert DigitsValue("33") == 33 by {
      assert "33"[..1] == "3";
    }
    assert PrnAt(GSA_PRN_33, 3) == 33;
  }

  /**
   * The corrected mask is exactly the shifts as written that are valid bit
   * positions of the 32-bit mask; the two agree whenever no PRN exceeds 32.
   */
  lemma UsedInFixMaskIsValidShifts(toks: seq<Token>)
    ensures UsedInFixMask(toks) == set b | b in UsedInFixMaskAsWritten(toks) && 0 <= b
    ensures (forall i :: 3 <= i <= 14 ==> PrnAt(toks, i) <= 32) ==> UsedInFixMask(toks) == UsedInFixMaskAsWritten(toks)
  {
  }
}
