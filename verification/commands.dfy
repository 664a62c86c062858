/**
 * The commands the driver sends to the SiRF receiver (gps/gps.c,
 * gps_dev_calc_nmea_csum, gps_dev_set_nmea_message_rate,
 * gps_dev_set_baud_rate and gps_dev_set_message_rate): NMEA sentences
 * built with sprintf into a 50-byte buffer, closed by the XOR checksum of
 * the characters between '$' and '*' in two lower-case hex digits. The
 * serial write (gps_dev_send) is left out; each builder returns the text it
 * would send.
 */
module Commands {

  import opened Decimal
  import opened Tokenizer

  /** The C `unsigned char` value a character is XORed as. */
  function CharByte(c: char): bv8 {
    (c as int % 256) as bv8
  }

  /** The XOR of the bytes of a run of characters. */
  function Checksum(s: seq<char>): bv8 {
    if s == [] then 0 else Checksum(s[..|s| - 1]) ^ CharByte(s[|s| - 1])
  }

  /** The checksum of two runs one after the other combines their checksums. */
  lemma {:induction false} ChecksumAppend(a: seq<char>, b: seq<char>)
    ensures Checksum(a + b) == Checksum(a) ^ Checksum(b)
    decreases |b|
  {
    if b == [] {
      assert a + b == a;
    } else {
      var c := b[|b| - 1];
      var front := b[..|b| - 1];
      assert (a + b)[..|a + b| - 1] == a + front;
      ChecksumAppend(a, front);
      assert Checksum(a + b) == (Checksum(a) ^ Checksum(front)) ^ CharByte(c);
    }
  }

  /** Where the loop of gps_dev_calc_nmea_csum stops: the first '*' from index i on. */
  function StarIndex(msg: seq<char>, i: nat): (k: nat)
    requires i <= |msg| && exists j :: i <= j < |msg| && msg[j] == '*'
    ensures i <= k < |msg| && msg[k] == '*'
    ensures forall j :: i <= j < k ==> msg[j] != '*'
    decreases |msg| - i
  {
    if msg[i] == '*' then i else StarIndex(msg, i + 1)
  }

  /**
   * gps_dev_calc_nmea_csum: XORs the characters from index 1 (past the
   * '$') up to the first '*'. The C loop runs past the end of a message
   * without a '*' after the first byte; callers always pass one.
   */
  method CalcNmeaCsum(msg: seq<char>) returns (csum: bv8)
    requires exists j :: 1 <= j < |msg| && msg[j] == '*'
    ensures csum == Checksum(msg[1..StarIndex(msg, 1)])
  {
    ghost var star := StarIndex(msg, 1);
    csum := 0;
    var i := 1;
    while msg[i] != '*'
      invariant 1 <= i <= star
      invariant csum == Checksum(msg[1..i])
      decreases star - i
    {
      assert msg[1..i + 1][..i - 1] == msg[1..i];
      csum := csum ^ CharByte(msg[i]);
      i := i + 1;
    }
  }

  /** The character of a decimal digit. */
  function DigitChar(d: int): (c: char)
    requires 0 <= d < 10
    ensures IsDigit(c) && DigitValue(c) == d
  {
    ('0' as int + d) as char
  }

  /** The decimal digits of n, most significant first, without leading zeros. */
  function DecimalDigits(n: nat): (s: seq<char>)
    ensures |s| >= 1 && AllDigits(s) && DigitsValue(s) == n
    ensures s[0] == '0' ==> n == 0
    decreases n
  {
    if n < 10 then [DigitChar(n)]
    else
      var front := DecimalDigits(n / 10);
      assert (front + [DigitChar(n % 10)])[..|front|] == front;
      front + [DigitChar(n % 10)]
  }

  function Zeros(k: nat): (z: seq<char>)
    ensures |z| == k && forall i :: 0 <= i < k ==> z[i] == '0'
  {
    seq(k, _ => '0')
  }

  /**
   * printf's `%.<precision>d`: a '-' for a negative value, then the
   * digits of its magnitude padded with zeros to at least `precision`
   * digits. `%d` is precision 1. (Precision 0, which prints nothing for 0,
   * is not used by the driver.)
   */
  function FormatInt(n: int, precision: nat): (s: seq<char>)
    requires precision >= 1
    ensures |s| >= precision && (s[0] == '-') == (n < 0)
    ensures forall i :: (if n < 0 then 1 else 0) <= i < |s| ==> IsDigit(s[i])
  {
    var digits := DecimalDigits(if n < 0 then -n else n);
    var padded := if |digits| < precision then Zeros(precision - |digits|) + digits else digits;
    (if n < 0 then ['-'] else []) + padded
  }

  /**
   * Read back with str2int, a formatted number gives its value when it is
   * not negative, and -1 when it is: the decoder does not accept a sign.
   * The text is never empty, and has no comma and no '*'.
   */
  lemma FormatIntDecodes(n: int, precision: nat)
    requires precision >= 1
    ensures var s := FormatInt(n, precision);
      IntValue(s) == (if n >= 0 then n else -1) &&
      s != [] && ',' !in s && '*' !in s
  {
    var digits := DecimalDigits(if n < 0 then -n else n);
    var padded := if |digits| < precision then Zeros(precision - |digits|) + digits else digits;
    if |digits| < precision {
      LeadingZeros(Zeros(precision - |digits|), digits);
    }
    assert AllDigits(padded) && DigitsValue(padded) == (if n < 0 then -n else n);
    var s := FormatInt(n, precision);
    if n < 0 {
      assert s[0] == '-' && !IsDigit(s[0]);
    } else {
      assert s == padded;
    }
    forall i | 0 <= i < |s|
      ensures s[i] != ',' && s[i] != '*'
    {
      if n < 0 && i == 0 {
        assert s[i] == '-';
      } else {
        assert IsDigit(s[i]) by {
          if n < 0 {
            assert s[i] == padded[i - 1];
          }
        }
      }
    }
  }

  function Pow10(k: nat): nat {
    if k == 0 then 1 else 10 * Pow10(k - 1)
  }

  /** A number below 10^k has at most k digits. */
  lemma {:induction false} DigitsLength(n: nat, k: nat)
    requires k >= 1 && n < Pow10(k)
    ensures |DecimalDigits(n)| <= k
    decreases k
  {
    if n >= 10 {
      DigitsLength(n / 10, k - 1);
    }
  }

  /** printf's `%02x` of an unsigned char: two lower-case hex digits. */
  function HexDigit(d: int): (c: char)
    requires 0 <= d < 16
    ensures '0' <= c <= '9' || 'a' <= c <= 'f'
  {
    if d < 10 then ('0' as int + d) as char else ('a' as int + d - 10) as char
  }

  function Hex2(b: bv8): (h: seq<char>)
    ensures |h| == 2 && forall i :: 0 <= i < 2 ==> '0' <= h[i] <= '9' || 'a' <= h[i] <= 'f'
  {
    [HexDigit(b as int / 16), HexDigit(b as int % 16)]
  }

  /** A receiver's reading of a hex digit, either case. */
  function HexValue(c: char): int {
    if '0' <= c <= '9' then c as int - '0' as int
    else if 'a' <= c <= 'f' then c as int - 'a' as int + 10
    else if 'A' <= c <= 'F' then c as int - 'A' as int + 10
    else -1
  }

  /** The two hex digits read back give the checksum byte. */
  lemma Hex2Decodes(b: bv8)
    ensures var h := Hex2(b);
      16 * HexValue(h[0]) + HexValue(h[1]) == b as int && ',' !in h && '*' !in h
  {
    var hi, lo := b as int / 16, b as int % 16;
    assert HexValue(HexDigit(hi)) == hi;
    assert HexValue(HexDigit(lo)) == lo;
  }

  /** A command as the driver frames it: '$', the fields, '*', the checksum of the fields in hex, "\r\n". */
  function Framed(fields: seq<Token>): (line: seq<char>)
    ensures |line| == |Join(fields)| + 6 && line[0] == '$' && line[|line| - 5] == '*'
    ensures line[|line| - 2..] == "\r\n"
  {
    Sentence(fields, Hex2(Checksum(Join(fields))))
  }

  /** The fields of $PSRF103 (SiRF "set query/rate"): message id, mode 00 (set rate), rate in seconds, checksum on (01). */
  function RateFields(msg: int, rate: int): seq<Token> {
    ["PSRF103", FormatInt(msg, 2), "00", FormatInt(rate, 2), "01"]
  }

  /** The fields of $PSRF100 (SiRF "set serial port"): NMEA protocol (1), baud, 8 data bits, 1 stop bit, no parity. */
  function BaudFields(baud: int): seq<Token> {
    ["PSRF100", "1", FormatInt(baud, 1), "8", "1", "0"]
  }

  function MessageRateCommand(msg: int, rate: int): seq<char> {
    Framed(RateFields(msg, rate))
  }

  function BaudRateCommand(baud: int): seq<char> {
    Framed(BaudFields(baud))
  }

  lemma JoinCons(f: Token, fs: seq<Token>)
    requires fs != []
    ensures Join([f] + fs) == f + [','] + Join(fs)
  {
    assert ([f] + fs)[1..] == fs;
  }

  /** Five fields joined: the fields with a comma between each two. */
  lemma JoinFive(f1: Token, f2: Token, f3: Token, f4: Token, f5: Token)
    ensures Join([f1, f2, f3, f4, f5]) == f1 + [','] + f2 + [','] + f3 + [','] + f4 + [','] + f5
  {
    JoinCons(f4, [f5]);
    assert [f4] + [f5] == [f4, f5];
    JoinCons(f3, [f4, f5]);
    assert [f3] + [f4, f5] == [f3, f4, f5];
    JoinCons(f2, [f3, f4, f5]);
    assert [f2] + [f3, f4, f5] == [f2, f3, f4, f5];
    JoinCons(f1, [f2, f3, f4, f5]);
    assert [f1] + [f2, f3, f4, f5] == [f1, f2, f3, f4, f5];
  }

  /** Six fields joined: the first, a comma, the other five joined. */
  lemma JoinSix(f0: Token, f1: Token, f2: Token, f3: Token, f4: Token, f5: Token)
    ensures Join([f0, f1, f2, f3, f4, f5]) == f0 + [','] + Join([f1, f2, f3, f4, f5])
  {
    JoinCons(f0, [f1, f2, f3, f4, f5]);
    assert [f0] + [f1, f2, f3, f4, f5] == [f0, f1, f2, f3, f4, f5];
  }

  /**
   * What sprintf writes for "$PSRF103,%.2d,00,%.2d,01*": '$', the joined
   * fields, '*'.
   */
  lemma RateHead(msg: int, rate: int)
    ensures "$PSRF103," + FormatInt(msg, 2) + ",00," + FormatInt(rate, 2) + ",01*" == ['$'] + Join(RateFields(msg, rate)) + ['*']
  {
    var a, b := FormatInt(msg, 2), FormatInt(rate, 2);
    JoinFive("PSRF103", a, "00", b, "01");
    Regroup5(['$'], "PSRF103", a, "00", b, "01", ['*']);
    assert ['$'] + "PSRF103" + [','] == "$PSRF103,";
    assert [','] + "00" + [','] == ",00,";
    assert [','] + "01" + ['*'] == ",01*";
  }

  /**
   * What sprintf writes for "$PSRF100,1,%d,8,1,0*": '$', the joined
   * fields, '*'.
   */
  lemma BaudHead(baud: int)
    ensures "$PSRF100,1," + FormatInt(baud, 1) + ",8,1,0*" == ['$'] + Join(BaudFields(baud)) + ['*']
  {
    var a := FormatInt(baud, 1);
    JoinSix("PSRF100", "1", a, "8", "1", "0");
    JoinFive("1", a, "8", "1", "0");
    Regroup6(['$'], "PSRF100", "1", a, "8", "1", "0", ['*']);
    assert ['$'] + "PSRF100" + [','] + "1" + [','] == "$PSRF100,1,";
    assert [','] + "8" + [','] + "1" + [','] + "0" + ['*'] == ",8,1,0*";
  }

  /** Regrouping the pieces of a $PSRF103 line around its two variable fields. */
  lemma Regroup5(d: seq<char>, p: seq<char>, a: seq<char>, z: seq<char>, b: seq<char>, o: seq<char>, s: seq<char>)
    ensures d + (p + [','] + a + [','] + z + [','] + b + [','] + o) + s ==
      (d + p + [',']) + a + ([','] + z + [',']) + b + ([','] + o + s)
  {
  }

  /** Regrouping the pieces of a $PSRF100 line around its variable field. */
  lemma Regroup6(d: seq<char>, p: seq<char>, q: seq<char>, a: seq<char>, x: seq<char>, y: seq<char>, z: seq<char>, s: seq<char>)
    ensures d + (p + [','] + (q + [','] + a + [','] + x + [','] + y + [','] + z)) + s ==
      (d + p + [','] + q + [',']) + a + ([','] + x + [','] + y + [','] + z + s)
  {
  }

  /** A text without '*' framed as "$text*": the checksum loop covers exactly the text. */
  lemma StarAfterText(text: seq<char>)
    requires '*' !in text
    ensures var msg := ['$'] + text + ['*'];
      (exists j :: 1 <= j < |msg| && msg[j] == '*') && StarIndex(msg, 1) == |text| + 1 && msg[1..|text| + 1] == text
  {
    var msg := ['$'] + text + ['*'];
    assert msg[|text| + 1] == '*';
    assert forall j :: 1 <= j < |text| + 1 ==> msg[j] == text[j - 1];
    assert forall j :: 1 <= j < |text| + 1 ==> msg[j] != '*';
  }

  /**
   * The checksum part of an imperative builder: given the text sprintf
   * wrote, "$" + text + "*", appending "%02x\r\n" of its checksum gives the
   * framed command.
   */
  method AppendChecksum(head: seq<char>, ghost fields: seq<Token>) returns (buff: seq<char>)
    requires '*' !in Join(fields) && head == ['$'] + Join(fields) + ['*']
    ensures buff == Framed(fields)
  {
    StarAfterText(Join(fields));
    var csum := CalcNmeaCsum(head);
    buff := head + Hex2(csum) + "\r\n";
  }

  /** gps_dev_set_nmea_message_rate: the $PSRF103 command for one message id. */
  method SetNmeaMessageRate(msg: int, rate: int) returns (buff: seq<char>)
    ensures buff == MessageRateCommand(msg, rate)
  {
    buff := "$PSRF103," + FormatInt(msg, 2) + ",00," + FormatInt(rate, 2) + ",01*";
    RateHead(msg, rate);
    RateFieldsPlain(msg, rate);
    buff := AppendChecksum(buff, RateFields(msg, rate));
  }

  /** gps_dev_set_baud_rate: the $PSRF100 command for a baud rate. */
  method SetBaudRate(baud: int) returns (buff: seq<char>)
    ensures buff == BaudRateCommand(baud)
  {
    buff := "$PSRF100,1," + FormatInt(baud, 1) + ",8,1,0*";
    BaudHead(baud);
    BaudFieldsPlain(baud);
    buff := AppendChecksum(buff, BaudFields(baud));
  }

  /** A character other than ',' that no field holds is not in their join either. */
  lemma {:induction false} JoinAvoids(fs: seq<Token>, c: char)
    requires c != ','
    requires forall i :: 0 <= i < |fs| ==> c !in fs[i]
    ensures c !in Join(fs)
  {
    if |fs| > 1 {
      JoinAvoids(fs[1..], c);
    }
  }

  /** No field of either command holds a comma or a '*', and none is empty. */
  lemma RateFieldsPlain(msg: int, rate: int)
    ensures forall i :: 0 <= i < |RateFields(msg, rate)| ==> WellFormedField(RateFields(msg, rate)[i]) && '*' !in RateFields(msg, rate)[i]
    ensures '*' !in Join(RateFields(msg, rate))
  {
    FormatIntDecodes(msg, 2);
    FormatIntDecodes(rate, 2);
    var fs := RateFields(msg, rate);
    forall i | 0 <= i < |fs|
      ensures WellFormedField(fs[i]) && '*' !in fs[i]
    {
      if i == 0 {
        assert fs[i] == "PSRF103";
      } else if i == 2 {
        assert fs[i] == "00";
      } else if i == 4 {
        assert fs[i] == "01";
      }
    }
    JoinAvoids(fs, '*');
  }

  lemma BaudFieldsPlain(baud: int)
    ensures forall i :: 0 <= i < |BaudFields(baud)| ==> WellFormedField(BaudFields(baud)[i]) && '*' !in BaudFields(baud)[i]
    ensures '*' !in Join(BaudFields(baud))
  {
    FormatIntDecodes(baud, 1);
    var fs := BaudFields(baud);
    forall i | 0 <= i < |fs|
      ensures WellFormedField(fs[i]) && '*' !in fs[i]
    {
      if i == 0 {
        assert fs[i] == "PSRF100";
      } else if i == 1 || i == 4 {
        assert fs[i] == "1";
      } else if i == 3 {
        assert fs[i] == "8";
      } else if i == 5 {
        assert fs[i] == "0";
      }
    }
    JoinAvoids(fs, '*');
  }

  /** The SiRF message ids gps_dev_set_message_rate configures: GGA, GLL, GSA, GSV, RMC, VTG and ZDA. */
  const MSG_IDS: seq<int> := [0, 1, 2, 3, 4, 5, 8]

  function MessageRateCommands(rate: int): (cmds: seq<seq<char>>)
    ensures |cmds| == |MSG_IDS|
  {
    seq(|MSG_IDS|, i requires 0 <= i < |MSG_IDS| => MessageRateCommand(MSG_IDS[i], rate))
  }

  /** gps_dev_set_message_rate: one $PSRF103 command per message id, in order. */
  method SetMessageRate(rate: int) returns (sent: seq<seq<char>>)
    ensures sent == MessageRateCommands(rate)
  {
    sent := [];
    var i := 0;
    while i < |MSG_IDS|
      invariant 0 <= i <= |MSG_IDS|
      invariant sent == MessageRateCommands(rate)[..i]
    {
      var cmd := SetNmeaMessageRate(MSG_IDS[i], rate);
      sent := sent + [cmd];
      i := i + 1;
    }
  }

  /**
   * A command framed by the driver reads back through the reader's
   * tokenizer as exactly its fields.
   */
  lemma FramedTokens(fields: seq<Token>)
    requires |fields| <= MAX_NMEA_TOKENS
    requires forall i :: 0 <= i < |fields| ==> WellFormedField(fields[i])
    ensures Tokens(Framed(fields)) == fields
  {
    TokensOfSentence(fields, Hex2(Checksum(Join(fields))));
    NonEmptyOfWellFormed(fields);
  }

  /**
   * The message rate command reads back as its five fields, and str2int on
   * the id and rate fields gives the id and rate back when they are not
   * negative (-1 when they are).
   */
  lemma MessageRateRoundTrip(msg: int, rate: int)
    ensures var toks := Tokens(MessageRateCommand(msg, rate));
      toks == RateFields(msg, rate) &&
      IntValue(toks[1]) == (if msg >= 0 then msg else -1) &&
      IntValue(toks[3]) == (if rate >= 0 then rate else -1)
  {
    RateFieldsPlain(msg, rate);
    FramedTokens(RateFields(msg, rate));
    FormatIntDecodes(msg, 2);
    FormatIntDecodes(rate, 2);
  }

  /** The baud rate command reads back as its six fields, the baud rate decoding as itself when not negative. */
  lemma BaudRateRoundTrip(baud: int)
    ensures var toks := Tokens(BaudRateCommand(baud));
      toks == BaudFields(baud) && IntValue(toks[2]) == (if baud >= 0 then baud else -1)
  {
    BaudFieldsPlain(baud);
    FramedTokens(BaudFields(baud));
    FormatIntDecodes(baud, 1);
  }

  /**
   * Every framed command carries a valid checksum: the two characters
   * after its only '*' are the hex of the XOR of everything between the
   * '$' and the '*'.
   */
  lemma FramedChecksumValid(fields: seq<Token>)
    requires '*' !in Join(fields)
    ensures var line := Framed(fields);
      var star := |Join(fields)| + 1;
      line[0] == '$' && line[star] == '*' && '*' !in line[1..star] &&
      16 * HexValue(line[star + 1]) + HexValue(line[star + 2]) == Checksum(line[1..star]) as int &&
      line[star + 3..] == ['\r', '\n']
  {
    var text := Join(fields);
    var line := Framed(fields);
    var h := Hex2(Checksum(text));
    assert line == ['$'] + text + ['*'] + h + ['\r', '\n'];
    var star := |text| + 1;
    assert line[1..star] == text;
    assert line[star + 1] == h[0] && line[star + 2] == h[1];
    assert line[star + 3..] == ['\r', '\n'];
    Hex2Decodes(Checksum(text));
  }

  /** The largest magnitude of a C int, -INT_MIN. */
  const INT_MAGNITUDE := 0x8000_0000

  /** A C int formatted with `%.2d` or `%d` takes at most 11 characters. */
  lemma FormatIntLength(n: int, precision: nat)
    requires 1 <= precision <= 2 && -INT_MAGNITUDE <= n < INT_MAGNITUDE
    ensures |FormatInt(n, precision)| <= 11
  {
    assert Pow10(10) == 10_000_000_000;
    DigitsLength(if n < 0 then -n else n, 10);
  }

  /** For C int arguments both commands, with their terminating NUL, fit the 50-byte buffer. */
  lemma CommandsFitBuffer(msg: int, rate: int, baud: int)
    requires -INT_MAGNITUDE <= msg < INT_MAGNITUDE && -INT_MAGNITUDE <= rate < INT_MAGNITUDE
    requires -INT_MAGNITUDE <= baud < INT_MAGNITUDE
    ensures |MessageRateCommand(msg, rate)| + 1 <= 50 && |BaudRateCommand(baud)| + 1 <= 50
  {
    FormatIntLength(msg, 2);
    FormatIntLength(rate, 2);
    FormatIntLength(baud, 1);
    RateHead(msg, rate);
    BaudHead(baud);
  }
}
